# swift-cart storefront core, modelled in Dafny

`script.js` is the whole client of a small storefront. It fetches a product
catalog and its categories, draws a category selector and a grid of product
cards, opens a detail modal, and keeps a cart counter in `localStorage`.
This project models the deterministic rules inside that script as pure
functions over immutable values, and proves what they promise:

- `formatCategoryName`: the reserved literals, then split on `-`, upper-case
  each segment's first character, join with spaces (`labels.dfy`, with ASCII
  case mapping in `ascii.dfy`);
- `filterProductsByCategory` and the empty-list branch of `displayProducts`,
  and the `allProducts.find` lookup by id (`catalog.dfy`);
- the selector buttons: `createCategoryButton` with its lower-cased
  `data-category`, and `setActiveCategory` (`buttons.dfy`);
- title truncation and the two star-fill rules of the card and the modal
  (`presentation.dfy`);
- the `'` / `&apos;` substitution pair around the details button
  (`escape.dfy`);
- the cart counter: initial value from storage, `addToCart`,
  `updateCartCount` (`cart.dfy`);
- the page session as a state machine: `Step` applies one event (a fetch
  result, a category click, a card's Details/Add click, the modal's Add or
  close, any other click), dispatching to the element's own listener and to
  the document-level delegated listener (`storefront.dfy`).

One click on a card's "Add" button adds two items. The button has class
`add-to-cart`, so both its own listener and the document-level delegated
listener react to it. The modal's button has class `modal-add-to-cart` and
adds one. The model keeps this behaviour as written (`Storefront.CardAddAddsTwo`,
`Storefront.ModalAddAddsOne`).

Some facts about the code that the model keeps:
- A selected category is not checked against the fetched set. The listener
  passes whatever its button was built with.
- After a click, the clicked button is always active. It is guaranteed to be
  the only active button when the lower-cased keys are pairwise distinct.
  Any other button with the same key as the clicked one is also marked
  active (`CategoryButtons.ClickedButtonIsActive`).
- Only the delegated listener looks the id up in the catalog. The card's own
  listener and the modal's listener add an item without a lookup.
- Nothing guards the `localStorage` calls, and there is no in-memory fallback.
- Each request is issued once per page load. The current category is always
  "all" or the category of one of the selector buttons
  (`Storefront.SelectionResolves`, kept by `Storefront.StepValid`).
- The two requests may answer in either order. A category click before the
  products arrive filters the still-empty catalog and shows "No products
  found". A product listing that arrives late lists the whole catalog,
  whichever button is active (`Storefront.ProductsResponseListsCatalog`;
  `Storefront.LateListingIgnoresSelection` is one concrete trace).

Storage is a map from key to integer. The network, the DOM, timers and
`localStorage` do not appear. Their results are the events' parameters.

## Model

| member | source | states |
|---|---|---|
| Ascii.ToUpper | script.js:100 | lower-case ASCII letters map to the matching upper-case letter; every other character is unchanged |
| Ascii.ToLower | script.js:90 | upper-case ASCII letters map to the matching lower-case letter; every other character is unchanged |
| Ascii.Lower | script.js:90 | the lower-cased key has the name's length and each character lower-cased |
| Ascii.LowerIdempotent | script.js:108 | a lower-cased key contains no upper-case letter, and lower-casing it again changes nothing |
| Labels.Split | script.js:99 | splitting on `-` yields one more piece than there are hyphens, and no piece contains a hyphen |
| Labels.Join | script.js:101 | the joined text starts with the first piece; when no piece contains the separator, it holds exactly one separator fewer than there are pieces (`Labels.SplitJoin` recovers the pieces themselves) |
| Labels.CapitalizeWord | script.js:100 | a capitalized word keeps its length; its first character is ASCII upper-cased and the rest is unchanged (an empty word stays empty) |
| Labels.CapitalizeWordIdempotent | script.js:100 | capitalizing an already capitalized word changes nothing |
| Labels.CapitalizeEach | script.js:100 | the map keeps the number of pieces and capitalizes each piece in place |
| Labels.JoinSplit | script.js:98-101 | joining the pieces with the separator gives the original string back |
| Labels.SplitJoin | script.js:98-101 | splitting pieces that were joined with the separator gives the pieces back, so split and join are inverses |
| Labels.FormatCategoryName | script.js:96-101 | "all" and "All" give "All"; any other name gives a label of the same length: each hyphen becomes a space, each segment's first character is ASCII upper-cased, and every other character is kept |
| Labels.FormatIsAllIff | script.js:97 | the label is "All" exactly when the name is "all" or "All"; no other name shows as "All" |
| Labels.ReservedAgreesWithGeneralRule | script.js:97-101 | for the two reserved literals, the general split/capitalise/join rule would also give "All" |
| Catalog.KeepCategory | script.js:307 | the filter keeps an order-preserving subsequence; each product of the category keeps its multiplicity; every other product is dropped |
| Catalog.FilterProductsByCategory | script.js:303-310 | "all" returns the catalog unchanged; any other category returns exactly its products (case-sensitive), in catalog order |
| Catalog.DisplayProducts | script.js:132-144 | an empty list shows the "no products found" message; a non-empty list shows one card per product, in order |
| Catalog.NoProductsFoundIff | script.js:133-135 | for a real category the message shows iff no catalog product has that category; for "all" it shows iff the catalog is empty |
| Catalog.FindFrom | script.js:346 | the search returns the first position holding the id, or none when no position holds it |
| Catalog.FindById | script.js:346 | the lookup returns the first product with the id, or nothing exactly when no product has it |
| Catalog.FindByIdOfMember | script.js:346 | looking up the id of a catalog product always finds a product with that id |
| CategoryButtons.CreateCategoryButton | script.js:80-93 | a button's text is the formatted name and its key is the lower-cased name |
| CategoryButtons.DisplayCategories | script.js:57-77 | the buttons are one "All" button, active and selecting "all", then one inactive button per fetched category, in fetch order, each selecting its category |
| CategoryButtons.DisplayCategoriesShape | script.js:57-77 | the "All" button comes first, has key "all" and selects "all"; it alone is active; there is one button per category in fetch order; every key is its listener's category lower-cased |
| CategoryButtons.SetActiveCategory | script.js:105-114 | restyling changes no button's text, key or listener, and keeps the button count |
| CategoryButtons.ActiveIffKeyMatches | script.js:108-109 | afterwards a button is active iff its key equals the lower-cased selection; the extra test for "all" adds no case |
| CategoryButtons.ClickedButtonIsActive | script.js:105-114 | the clicked button is always active; it is the only active button when the keys are distinct |
| CategoryButtons.SetActivePreservesKeys | script.js:107-114 | every key still equals its listener's category lower-cased after a selection |
| Presentation.TruncateTitle | script.js:179 | the shown title is at most 43 characters; titles of at most 40 are unchanged; longer ones show their first 40 characters then "..." |
| Presentation.TruncateIdempotent | script.js:179 | truncating an already truncated title changes nothing |
| Presentation.JsRound | script.js:249 | `Math.round` gives the integer within one half below and strictly less than one half above |
| Presentation.CardStars | script.js:167-171 | card star i (1 to 5) is filled exactly when the rating is at least i; filled stars always come first |
| Presentation.ModalStars | script.js:248-250 | modal star i (0 to 4) is filled exactly when the rating is at least i + 0.5, which is what `i < Math.round(rate)` means; filled stars always come first |
| Presentation.CardStarsCount | script.js:167-171 | the card fills exactly the first floor(rate) stars, clamped to 0..5 |
| Presentation.ModalStarsCount | script.js:248-250 | the modal fills exactly the first round(rate) stars, clamped to 0..5 |
| Presentation.CardAndModalStars | script.js:167-171 | the modal shows at least as many stars as the card and at most one more; they differ iff rounding goes up and floor(rate) is in 0..4 |
| Presentation.RatingThreePointSeven | script.js:249 | a 3.7 rating fills 3 stars on the card and 4 in the modal |
| AposEscape.Escape | script.js:189 | the escaped text contains no apostrophe |
| AposEscape.Unescape | script.js:203 | un-escaping never lengthens the text |
| AposEscape.EscapeWithoutApostrophe | script.js:189 | text without apostrophes is left untouched by escaping |
| AposEscape.RoundTrip | script.js:203 | un-escaping the escape gives the original back when the original contains no `&apos;` |
| AposEscape.EntityBreaksRoundTrip | script.js:203 | the text `&apos;` comes back as `'`, so the round trip needs that condition |
| Cart.StoredCount | script.js:7 | the initial count is the stored value, or 0 when nothing is stored |
| Cart.LoadCart | script.js:7 | the loaded counter agrees with storage |
| Cart.AddToCart | script.js:322-326 | adding raises the count by exactly one; the new count is stored under "cartCount"; no other key changes |
| Cart.AddTimesCount | script.js:322-326 | n additions raise the count by exactly n and leave it persisted |
| Cart.CountSurvivesReload | script.js:7 | from empty storage, n additions give n, and a reload of that storage gives n again |
| Cart.UpdateCartCount | script.js:328-339 | the badge shows the count and is hidden iff the count is 0 |
| Storefront.Start | script.js:5-7 | at page load "all" is selected, nothing is fetched and no buttons exist, the count comes from storage, and the badge is hidden iff it is 0 |
| Storefront.StartValid | script.js:14-19 | the initial session satisfies the session invariant |
| Storefront.AddItem | script.js:322-326 | one item is added, and the badge is re-rendered from the new count |
| Storefront.DelegatedClick | script.js:342-351 | the document listener ignores other targets; it does nothing for an id no catalog product has, and adds one item otherwise |
| Storefront.SelectCategory | script.js:71-74 | a category click records the category, shows its filtered listing, and marks active exactly the buttons with the matching key |
| Storefront.Step | script.js:62-351 | the event dispatch over the selector listeners (lines 62-74), the products response (lines 123-124), the card's Details and Add listeners (lines 201-212), the modal's Add listener (lines 287-289) and the delegated listener (lines 342-351): the count never decreases and rises by at most 2; only the add buttons change the counter and badge; only the products request changes the catalog, and once loaded the catalog never changes again; only a selector click changes the current category |
| Storefront.StepValid | script.js:322-351 | every event keeps the session invariant: the counter persisted, the badge in sync, the keys matching, the selection naming "all" or a button's category, and every shown card in the catalog |
| Storefront.CardAddAddsTwo | script.js:207-212 | one click on a card's Add button adds exactly 2 (own listener plus delegated listener) |
| Storefront.ModalAddAddsOne | script.js:286-289 | the modal's Add to Cart adds exactly 1 |
| Storefront.CategoryClickSelects | script.js:71-74 | clicking button k sets the current category and shows its listing; button k is active, and the only active one when keys are distinct |
| Storefront.BackToAllRestoresListing | script.js:303-310 | in every valid session whose catalog has loaded, clicking "All" lists the whole catalog, whatever was selected before and in whichever order the requests answered; the catalog no longer changes |
| Storefront.ProductsResponseListsCatalog | script.js:119-124 | in every session whose catalog has not yet loaded, the products response stores the catalog and lists all of it, leaving the current category and the buttons as they were |
| Storefront.LateListingIgnoresSelection | script.js:119-124 | one example trace: after category "x" is clicked, a one-product catalog arrives and shows that product, while "x" stays current and its button stays active |
| Storefront.RunValid | script.js:5-7 | any event sequence keeps the invariant and never lowers the count, so a reload restores the count reached |

## Left out

- Fetching categories and products, the loading spinner, and the error messages when a fetch fails (`fetchCategories`, `fetchAllProducts`, `showLoading`). These are network I/O and DOM writes. A successful fetch is the event `CategoriesLoaded` / `ProductsLoaded`; a failed fetch leaves the session unchanged.
- DOM construction, CSS class strings, `createModal` and `showModal`. The modal is modelled only as the product it shows.
- Storefront.Step: accepts selector clicks and card Details/Add clicks while the modal is open. `showModal()` makes the page behind the dialog inert, so the script cannot receive those clicks. The model allows more traces than the script, and every invariant holds for all of them.
- `price.toFixed(2)`: this is floating-point formatting.
- `JSON.stringify` / `JSON.parse` of the product in the details button, and the browser's own attribute decoding. Only the `'`/`&apos;` substitution is modelled. A Details click hands the card's product to the modal directly.
- The toast after a modal add, and its `setTimeout` removal: these are timers and UI.
- `localStorage` itself, and `parseInt` of malformed stored text (NaN). Storage is a map from key to a well-formed integer. The `|| '0'` fallback reads both an absent key and a stored empty string as 0. The map cannot hold an empty string, so the model covers only the absent key.
- The `if (cartCountElement)` guard: the badge element is assumed present.
- How the delegated listener finds the `.add-to-cart` ancestor (`closest`), and `parseInt` of `data-product-id`. A click target is either an add-to-cart control carrying the product id as an integer, or something else.
- Ascii.ToUpper: upper-cases ASCII letters only, not all of Unicode. JavaScript's `toUpperCase` handles all of Unicode, and some characters change length (for example `ß` becomes `SS`). The catalog's category names are ASCII.
- Ascii.ToLower: lower-cases ASCII letters only. JavaScript's `toLowerCase` also lowers non-ASCII letters such as `"É"`. The catalog's category names are ASCII.
- Ascii.Lower: lower-cases ASCII letters only, not all of Unicode. JavaScript's `toLowerCase` handles all of Unicode, so for example `"É"` and `"é"` get the same key, and some characters change length (`"İ"` becomes two code units). The catalog's category names are ASCII.
- Cart.StoredCount: counts are exact integers. In the script `cartCount` is a double, so `parseInt` rounds stored decimals above 2^53. The model is exact only below 2^53.
- Cart.AddToCart: increments exact integers. At 2^53, `cartCount++` on a double leaves the value unchanged, while the model still adds one. The model is exact only below 2^53.
- Presentation.TruncateTitle: lengths count Dafny characters, not JavaScript's UTF-16 code units. The two differ only for titles with characters outside the Basic Multilingual Plane.
- Presentation.JsRound: rounds exact reals, not IEEE doubles. The inputs are ratings with at most a few decimals.
- AposEscape.RoundTrip: proves only the "if" direction of "the round trip holds iff the text has no `&apos;`". The "only if" side is shown by the single counterexample `AposEscape.EntityBreaksRoundTrip`.
- Concurrent tabs sharing storage (last writer wins): there is no concurrency in one page.
