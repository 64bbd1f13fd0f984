/** The product catalog: the records the storefront fetches, the
    category filter (`filterProductsByCategory`), the id lookup the delegated
    add-to-cart handler performs, and the empty-list branch of
    `displayProducts`. */
module Catalog {
  import opened Wrappers

  datatype Rating = Rating(rate: real, count: int)

  datatype Product = Product(
    id: int,
    title: string,
    price: real,
    description: string,
    category: string,
    image: string,
    rating: Rating)

  /** The pseudo-category meaning "no filter". */
  const AllCategories: string := "all"

  /** `a` is `b` with some elements dropped, the rest in their original order. */
  ghost predicate IsSubsequence<T>(a: seq<T>, b: seq<T>)
    decreases |b|
  {
    if |a| == 0 then true
    else if |b| == 0 then false
    else (a[0] == b[0] && IsSubsequence(a[1..], b[1..])) || IsSubsequence(a, b[1..])
  }

  /** `products.filter(p => p.category === category)`: the stable
      sub-list holding every product of that exact (case-sensitive) category,
      each as many times as it occurs, and nothing else. */
  function KeepCategory(products: seq<Product>, category: string): (r: seq<Product>)
    ensures IsSubsequence(r, products)
    ensures forall p :: multiset(r)[p] == if p.category == category then multiset(products)[p] else 0
    ensures forall p :: p in r <==> p in products && p.category == category
  {
    if |products| == 0 then []
    else
      var rest := KeepCategory(products[1..], category);
      assert products == [products[0]] + products[1..];
      if products[0].category == category then [products[0]] + rest else rest
  }

  /** `filterProductsByCategory`: "all" shows the whole catalog untouched;
      any other category shows exactly its products, in catalog order. */
  function FilterProductsByCategory(all: seq<Product>, category: string): (r: seq<Product>)
    ensures category == AllCategories ==> r == all
    ensures category != AllCategories ==>
              && IsSubsequence(r, all)
              && forall p :: multiset(r)[p] == if p.category == category then multiset(all)[p] else 0
  {
    if category == AllCategories then all else KeepCategory(all, category)
  }

  /** What the product region shows for a list: the "No products found in
      this category." message, or one card per product. */
  datatype Listing = NoProductsFound | Cards(products: seq<Product>)

  /** `displayProducts`: an empty list takes the message branch. */
  function DisplayProducts(products: seq<Product>): (r: Listing)
    ensures r.NoProductsFound? <==> |products| == 0
    ensures r.Cards? ==> r.products == products
  {
    if |products| == 0 then NoProductsFound else Cards(products)
  }

  /** Selecting a category other than "all" shows the message exactly when
      no product of the catalog carries that category; "all" shows it exactly
      when the catalog is empty. */
  lemma NoProductsFoundIff(all: seq<Product>, category: string)
    ensures category != AllCategories ==>
              (DisplayProducts(FilterProductsByCategory(all, category)).NoProductsFound?
               <==> forall i :: 0 <= i < |all| ==> all[i].category != category)
    ensures category == AllCategories ==>
              (DisplayProducts(FilterProductsByCategory(all, category)).NoProductsFound? <==> |all| == 0)
  {
    if category != AllCategories {
      var r := FilterProductsByCategory(all, category);
      if |r| > 0 {
        assert r[0] in r;
      }
      if exists i :: 0 <= i < |all| && all[i].category == category {
        var i :| 0 <= i < |all| && all[i].category == category;
        assert all[i] in all;
        assert multiset(r)[all[i]] == multiset(all)[all[i]] > 0;
      }
    }
  }

  /** First position at or after `from` whose product has the given id. */
  function FindFrom(products: seq<Product>, id: int, from: nat): (r: Option<nat>)
    requires from <= |products|
    ensures r.Some? ==> from <= r.value < |products| && products[r.value].id == id
                        && forall j :: from <= j < r.value ==> products[j].id != id
    ensures r.None? ==> forall j :: from <= j < |products| ==> products[j].id != id
    decreases |products| - from
  {
    if from == |products| then None
    else if products[from].id == id then Some(from)
    else FindFrom(products, id, from + 1)
  }

  /** `allProducts.find(p => p.id === id)`: the first product with that id,
      or nothing when no product has it. */
  function FindById(products: seq<Product>, id: int): (r: Option<Product>)
    ensures r.None? <==> forall j :: 0 <= j < |products| ==> products[j].id != id
    ensures r.Some? ==> r.value in products && r.value.id == id
    ensures r.Some? ==> exists k :: 0 <= k < |products| && products[k] == r.value
                                    && forall j :: 0 <= j < k ==> products[j].id != id
  {
    match FindFrom(products, id, 0)
    case None => None
    case Some(k) => Some(products[k])
  }

  /** A product that is in the list is always found by its id (possibly as an
      earlier product sharing the id). */
  lemma FindByIdOfMember(products: seq<Product>, p: Product)
    requires p in products
    ensures FindById(products, p.id).Some?
    ensures FindById(products, p.id).value.id == p.id
  {
    var i :| 0 <= i < |products| && products[i] == p;
    assert products[i].id == p.id;
  }
}
