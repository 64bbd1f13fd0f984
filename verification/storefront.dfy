/** The page session: the module-level state of the script (`allProducts`,
    `currentCategory`, `cartCount`) together with what the page shows (the
    selector buttons, the product region, the detail modal, the cart badge),
    and one transition per event the page reacts to. */
module Storefront {
  import opened Wrappers
  import opened Catalog
  import opened CategoryButtons
  import opened Cart
  import Ascii

  /** The product region: the spinner until the catalog arrives, then a
      listing. */
  datatype ProductView = Loading | Listed(listing: Listing)

  datatype Session = Session(
    productsLoaded: bool,
    allProducts: seq<Product>,
    currentCategory: string,
    buttons: seq<Button>,
    view: ProductView,
    modal: Option<Product>,
    cart: CartState,
    badge: Badge)

  /** The cards currently on the page (none while loading or when the
      message is shown). */
  function ShownCards(s: Session): seq<Product>
  {
    if s.view.Listed? && s.view.listing.Cards? then s.view.listing.products else []
  }

  /** Page load: nothing fetched yet, "all" selected, the counter read back
      from storage and the badge rendered from it. */
  function Start(storage: Storage): (s: Session)
    ensures s.cart.count == StoredCount(storage) && s.cart.storage == storage
    ensures s.badge.hidden <==> s.cart.count == 0
    ensures s.currentCategory == AllCategories && s.allProducts == [] && s.modal.None?
    ensures s.buttons == [] && s.view.Loading? && !s.productsLoaded
  {
    var cart := LoadCart(storage);
    Session(false, [], AllCategories, [], Loading, None, cart, UpdateCartCount(cart.count))
  }

  /** `addToCart` followed by `updateCartCount`. */
  function AddItem(s: Session): (r: Session)
    ensures r.cart.count == s.cart.count + 1
    ensures r.badge.shown == r.cart.count && (r.badge.hidden <==> r.cart.count == 0)
    ensures r.allProducts == s.allProducts && r.view == s.view && r.buttons == s.buttons
  {
    var cart := AddToCart(s.cart);
    s.(cart := cart, badge := UpdateCartCount(cart.count))
  }

  /** What the document-level click listener sees: an element inside an
      `.add-to-cart` control carrying a product id, or anything else. */
  datatype ClickTarget = AddToCartControl(productId: int) | OtherTarget

  /** The delegated click listener: for an `.add-to-cart` control it looks the
      id up in the whole catalog (not the filtered view) and adds one item
      when the id is known; otherwise nothing happens. */
  function DelegatedClick(s: Session, target: ClickTarget): (r: Session)
    ensures target.OtherTarget? ==> r == s
    ensures target.AddToCartControl? ==>
              ((forall j :: 0 <= j < |s.allProducts| ==> s.allProducts[j].id != target.productId) ==> r == s)
    ensures target.AddToCartControl? ==>
              ((exists j :: 0 <= j < |s.allProducts| && s.allProducts[j].id == target.productId) ==> r == AddItem(s))
  {
    match target
    case OtherTarget => s
    case AddToCartControl(id) =>
      match FindById(s.allProducts, id)
      case None => s
      case Some(_) => AddItem(s)
  }

  /** A category button's click listener: `setActiveCategory` then
      `filterProductsByCategory`. */
  function SelectCategory(s: Session, category: string): (r: Session)
    ensures r.currentCategory == category
    ensures r.view == Listed(DisplayProducts(FilterProductsByCategory(s.allProducts, category)))
    ensures |r.buttons| == |s.buttons|
    ensures forall i :: 0 <= i < |s.buttons| ==> (r.buttons[i].active <==> s.buttons[i].key == Ascii.Lower(category))
    ensures r.cart == s.cart && r.allProducts == s.allProducts
  {
    ActiveIffKeyMatches(s.buttons, category);
    s.(buttons := SetActiveCategory(s.buttons, category),
       currentCategory := category,
       view := Listed(DisplayProducts(FilterProductsByCategory(s.allProducts, category))))
  }

  datatype Event =
    | CategoriesLoaded(categories: seq<string>)  // the categories request succeeded
    | ProductsLoaded(products: seq<Product>)     // the products request succeeded
    | CategoryClicked(button: nat)               // a selector button, by position
    | DetailsClicked(card: nat)                  // a card's "Details" button, by position
    | CardAddClicked(card: nat)                  // a card's "Add" button, by position
    | ModalAddClicked                            // the modal's "Add to Cart" button
    | ModalClosed                                // the modal's close controls
    | ClickedElsewhere                           // any other click on the page

  /** One event. Each request is issued once per page load, so each load
      event takes effect only once: the categories while the selector is
      still empty (it always holds at least the "All" button once loaded),
      the products while `productsLoaded` is unset. The products response
      replaces whatever the product region shows with the whole catalog,
      whichever selector button is active, since the two requests may
      answer in either order and a click before the catalog arrives filters
      the still-empty list. A click
      on a card runs the card's own listener and then the document-level
      one: the "Add" button has class `add-to-cart`, so both listeners add
      an item. The modal's button has class `modal-add-to-cart`, which the
      document-level listener ignores. Only the add buttons change the
      counter, only the products request changes the catalog, and only a
      selector click changes the current category. */
  function Step(s: Session, e: Event): (r: Session)
    ensures s.cart.count <= r.cart.count <= s.cart.count + 2
    ensures !(e.CardAddClicked? || e.ModalAddClicked?) ==> r.cart == s.cart && r.badge == s.badge
    ensures !e.ProductsLoaded? ==> r.allProducts == s.allProducts && r.productsLoaded == s.productsLoaded
    ensures s.productsLoaded ==> r.productsLoaded && r.allProducts == s.allProducts
    ensures !e.CategoryClicked? ==> r.currentCategory == s.currentCategory
  {
    match e
    case CategoriesLoaded(categories) =>
      if s.buttons == [] then s.(buttons := DisplayCategories(categories)) else s
    case ProductsLoaded(products) =>
      if !s.productsLoaded then
        s.(productsLoaded := true, allProducts := products, view := Listed(DisplayProducts(products)))
      else s
    case CategoryClicked(k) =>
      if k < |s.buttons| then SelectCategory(s, s.buttons[k].onClick) else s
    case DetailsClicked(k) =>
      if k < |ShownCards(s)| then s.(modal := Some(ShownCards(s)[k])) else s
    case CardAddClicked(k) =>
      if k < |ShownCards(s)| then DelegatedClick(AddItem(s), AddToCartControl(ShownCards(s)[k].id)) else s
    case ModalAddClicked =>
      if s.modal.Some? then DelegatedClick(AddItem(s), OtherTarget) else s
    case ModalClosed => s.(modal := None)
    case ClickedElsewhere => DelegatedClick(s, OtherTarget)
  }

  function Run(s: Session, events: seq<Event>): Session
    decreases |events|
  {
    if |events| == 0 then s else Run(Step(s, events[0]), events[1..])
  }

  /** The current category is "all" or the category of one of the selector
      buttons. */
  ghost predicate SelectionResolves(s: Session)
  {
    s.currentCategory == AllCategories
    || exists i :: 0 <= i < |s.buttons| && s.buttons[i].onClick == s.currentCategory
  }

  /** What holds of every reachable session: the counter is persisted, the
      badge shows it, every button's key is its listener's category
      lower-cased, the first button (when there is one) is "All", the
      selection names "all" or a button's category, the catalog is empty
      until it loads, and every card on the page is a catalog product. */
  ghost predicate Valid(s: Session)
  {
    && Persisted(s.cart)
    && SelectionResolves(s)
    && (|s.buttons| > 0 ==> s.buttons[0].onClick == AllCategories)
    && (!s.productsLoaded ==> s.allProducts == [])
    && s.badge == UpdateCartCount(s.cart.count)
    && KeysMatchListeners(s.buttons)
    && forall p :: p in ShownCards(s) ==> p in s.allProducts
  }

  lemma StartValid(storage: Storage)
    ensures Valid(Start(storage))
  {
  }

  /** Every event keeps the session valid, never lowers the counter and
      raises it by at most two. */
  lemma StepValid(s: Session, e: Event)
    requires Valid(s)
    ensures Valid(Step(s, e))
    ensures s.cart.count <= Step(s, e).cart.count <= s.cart.count + 2
  {
    match e
    case CategoriesLoaded(categories) =>
      DisplayCategoriesShape(categories);
    case CategoryClicked(k) =>
      if k < |s.buttons| {
        var c := s.buttons[k].onClick;
        SetActivePreservesKeys(s.buttons, c);
        var r := Step(s, e);
        assert r.buttons[k].onClick == c;
        forall p | p in ShownCards(r) ensures p in s.allProducts {
          if c != AllCategories {
            assert multiset(ShownCards(r))[p] > 0;
          }
        }
      }
    case _ =>
  }

  /** One click on a card's "Add" button adds two items: its own listener
      adds one and the document-level listener, finding the card's id in
      the catalog, adds another. */
  lemma CardAddAddsTwo(s: Session, k: nat)
    requires Valid(s)
    requires k < |ShownCards(s)|
    ensures Step(s, CardAddClicked(k)).cart.count == s.cart.count + 2
    ensures Persisted(Step(s, CardAddClicked(k)).cart)
  {
    var p := ShownCards(s)[k];
    assert p in s.allProducts;
    FindByIdOfMember(s.allProducts, p);
  }

  /** The modal's "Add to Cart" adds exactly one item. */
  lemma ModalAddAddsOne(s: Session)
    requires s.modal.Some?
    ensures Step(s, ModalAddClicked).cart.count == s.cart.count + 1
    ensures Step(s, ModalAddClicked).modal == s.modal
  {
  }

  /** Clicking selector button `k` records its category, shows that
      category's products and marks that button active (the only active one
      when the keys are distinct). */
  lemma CategoryClickSelects(s: Session, k: nat)
    requires Valid(s)
    requires k < |s.buttons|
    ensures var r := Step(s, CategoryClicked(k));
            && r.currentCategory == s.buttons[k].onClick
            && r.view == Listed(DisplayProducts(FilterProductsByCategory(s.allProducts, s.buttons[k].onClick)))
            && r.buttons[k].active
            && (DistinctKeys(s.buttons) ==> OnlyActive(r.buttons, k))
  {
    ClickedButtonIsActive(s.buttons, k);
  }

  /** Once the catalog has loaded, the "All" button shows the whole catalog,
      whatever was selected before and in whichever order the requests
      answered; and the catalog no longer changes. */
  lemma BackToAllRestoresListing(s: Session, e: Event)
    requires Valid(s) && s.productsLoaded && |s.buttons| > 0
    ensures Step(s, CategoryClicked(0)).view == Listed(DisplayProducts(s.allProducts))
    ensures Step(s, e).productsLoaded && Step(s, e).allProducts == s.allProducts
  {
  }

  /** The first products response, whenever it arrives, stores the catalog
      and lists all of it, whatever category is current: the selection and
      the active buttons stay as they were. */
  lemma ProductsResponseListsCatalog(s: Session, products: seq<Product>)
    requires !s.productsLoaded
    ensures var r := Step(s, ProductsLoaded(products));
            && r.productsLoaded && r.allProducts == products
            && r.view == Listed(DisplayProducts(products))
            && r.currentCategory == s.currentCategory && r.buttons == s.buttons
  {
  }

  /** An example of `ProductsResponseListsCatalog`: category "x" is clicked
      before the catalog arrives, and afterwards "x" is still current and its
      button still active while the whole catalog shows. */
  lemma LateListingIgnoresSelection(storage: Storage, p: Product)
    ensures var s := Run(Start(storage), [CategoriesLoaded(["x"]), CategoryClicked(1), ProductsLoaded([p])]);
            && s.currentCategory == "x"
            && |s.buttons| == 2 && s.buttons[1].active
            && s.view == Listed(Cards([p]))
  {
    var events := [CategoriesLoaded(["x"]), CategoryClicked(1), ProductsLoaded([p])];
    var s0 := Start(storage);
    var s1 := Step(s0, events[0]);
    assert s1.buttons == DisplayCategories(["x"]);
    assert s1.buttons[1].onClick == "x";
    var s2 := Step(s1, events[1]);
    assert s2 == SelectCategory(s1, "x");
    ClickedButtonIsActive(s1.buttons, 1) by {
      assert s1.buttons[1].key == Ascii.Lower("x");
      assert s1.buttons[0].key == Ascii.Lower("All");
    }
    assert s2.view == Listed(NoProductsFound);
    var s3 := Step(s2, events[2]);
    assert events[1..] == [CategoryClicked(1), ProductsLoaded([p])];
    assert events[1..][1..] == [ProductsLoaded([p])];
    assert Run(s0, events) == Run(s1, events[1..]);
    assert Run(s1, events[1..]) == Run(s2, [ProductsLoaded([p])]);
    assert Run(s2, [ProductsLoaded([p])]) == Run(s3, []);
  }

  /** Any sequence of events keeps the session valid and never lowers the
      counter, so a reload reading the storage restores the count reached. */
  lemma {:induction false} RunValid(s: Session, events: seq<Event>)
    requires Valid(s)
    ensures Valid(Run(s, events))
    ensures s.cart.count <= Run(s, events).cart.count
    ensures Start(Run(s, events).cart.storage).cart.count == Run(s, events).cart.count
    decreases |events|
  {
    if |events| > 0 {
      StepValid(s, events[0]);
      RunValid(Step(s, events[0]), events[1..]);
    }
  }
}
