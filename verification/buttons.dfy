/** The category selector: the buttons `displayCategories` builds with
    `createCategoryButton`, and `setActiveCategory`, which marks as active
    the buttons whose `data-category` matches the lower-cased selection. */
module CategoryButtons {
  import opened Ascii
  import Labels

  /** One selector button: its text, its `data-category` key, whether it is
      styled as active, and the category its click listener passes on. */
  datatype Button = Button(text: string, key: string, active: bool, onClick: string)

  /** `createCategoryButton(name, isActive)`, plus the listener's argument. */
  function CreateCategoryButton(name: string, isActive: bool, onClick: string): (b: Button)
    ensures b.key == Lower(name) && b.active == isActive && b.onClick == onClick
    ensures b.text == Labels.FormatCategoryName(name)
  {
    Button(Labels.FormatCategoryName(name), Lower(name), isActive, onClick)
  }

  /** `displayCategories`: the "All" button (created from "All", active,
      selecting "all") followed by one inactive button per fetched category. */
  function DisplayCategories(categories: seq<string>): (bs: seq<Button>)
    ensures |bs| == |categories| + 1
    ensures bs[0].active && bs[0].onClick == "all"
    ensures forall j :: 0 <= j < |categories| ==> !bs[j + 1].active && bs[j + 1].onClick == categories[j]
  {
    [CreateCategoryButton("All", true, "all")]
      + seq(|categories|, j requires 0 <= j < |categories| =>
              CreateCategoryButton(categories[j], false, categories[j]))
  }

  /** The `data-category` of every button is the lower-cased category its
      listener selects. */
  ghost predicate KeysMatchListeners(bs: seq<Button>)
  {
    forall i :: 0 <= i < |bs| ==> bs[i].key == Lower(bs[i].onClick)
  }

  /** Exactly the button at index `k` is active. */
  ghost predicate OnlyActive(bs: seq<Button>, k: nat)
  {
    forall i :: 0 <= i < |bs| ==> (bs[i].active <==> i == k)
  }

  ghost predicate DistinctKeys(bs: seq<Button>)
  {
    forall i, j :: 0 <= i < j < |bs| ==> bs[i].key != bs[j].key
  }

  /** Freshly built buttons: "All" first and alone active, labels formatted,
      and each key the lower-cased category its listener selects. */
  lemma DisplayCategoriesShape(categories: seq<string>)
    ensures var bs := DisplayCategories(categories);
            && bs[0].text == "All" && bs[0].key == "all" && bs[0].onClick == "all"
            && OnlyActive(bs, 0)
            && KeysMatchListeners(bs)
            && forall j :: 0 <= j < |categories| ==>
                 bs[j + 1].onClick == categories[j]
                 && bs[j + 1].text == Labels.FormatCategoryName(categories[j])
  {
    var bs := DisplayCategories(categories);
    assert Lower("All") == "all";
    assert Lower("all") == "all";
  }

  /** `setActiveCategory(category)` applied to the buttons. */
  function SetActiveCategory(bs: seq<Button>, category: string): (r: seq<Button>)
    ensures |r| == |bs|
    ensures forall i :: 0 <= i < |bs| ==>
              r[i].text == bs[i].text && r[i].key == bs[i].key && r[i].onClick == bs[i].onClick
  {
    seq(|bs|, i requires 0 <= i < |bs| =>
          bs[i].(active := bs[i].key == Lower(category)
                           || (category == "all" && bs[i].key == "all")))
  }

  /** After the call a button is active exactly when its key equals the
      lower-cased selection; the extra test for "all" adds no case. */
  lemma ActiveIffKeyMatches(bs: seq<Button>, category: string)
    ensures forall i :: 0 <= i < |bs| ==>
              (SetActiveCategory(bs, category)[i].active <==> bs[i].key == Lower(category))
  {
    assert Lower("all") == "all";
  }

  /** Clicking button `k` marks it active; when the keys are pairwise
      distinct it is the only active button. */
  lemma ClickedButtonIsActive(bs: seq<Button>, k: nat)
    requires k < |bs|
    requires KeysMatchListeners(bs)
    ensures SetActiveCategory(bs, bs[k].onClick)[k].active
    ensures DistinctKeys(bs) ==> OnlyActive(SetActiveCategory(bs, bs[k].onClick), k)
  {
    ActiveIffKeyMatches(bs, bs[k].onClick);
  }

  /** Selecting a category leaves the keys untouched. */
  lemma SetActivePreservesKeys(bs: seq<Button>, category: string)
    requires KeysMatchListeners(bs)
    ensures KeysMatchListeners(SetActiveCategory(bs, category))
  {
  }
}
