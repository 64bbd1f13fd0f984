/** The cart counter: its persisted value, `addToCart`, and the badge
    `updateCartCount` renders. Storage is a map from key to the integer
    stored under it. */
module Cart {

  type Storage = map<string, int>

  /** The storage key the counter lives under. */
  const CartKey: string := "cartCount"

  /** `parseInt(localStorage.getItem('cartCount') || '0')`. */
  function StoredCount(storage: Storage): (n: int)
    ensures CartKey !in storage ==> n == 0
    ensures CartKey in storage ==> n == storage[CartKey]
  {
    if CartKey in storage then storage[CartKey] else 0
  }

  datatype CartState = CartState(count: int, storage: Storage)

  /** The counter agrees with what is persisted, so a reload restores it. */
  ghost predicate Persisted(s: CartState)
  {
    StoredCount(s.storage) == s.count
  }

  /** The state at page load: the count read back from storage. */
  function LoadCart(storage: Storage): (s: CartState)
    ensures Persisted(s)
    ensures s.storage == storage
  {
    CartState(StoredCount(storage), storage)
  }

  /** `addToCart`: one more item, written back under the cart key; no other
      key is touched. */
  function AddToCart(s: CartState): (r: CartState)
    ensures r.count == s.count + 1
    ensures Persisted(r)
    ensures r.storage.Keys == s.storage.Keys + {CartKey}
    ensures forall k :: k in s.storage && k != CartKey ==> r.storage[k] == s.storage[k]
  {
    var n := s.count + 1;
    CartState(n, s.storage[CartKey := n])
  }

  /** `addToCart` called `n` times. */
  function AddTimes(s: CartState, n: nat): CartState
  {
    if n == 0 then s else AddToCart(AddTimes(s, n - 1))
  }

  /** Adding `n` times raises the count by exactly `n`; once something was
      added, the count is persisted whatever the storage held before. */
  lemma {:induction false} AddTimesCount(s: CartState, n: nat)
    ensures AddTimes(s, n).count == s.count + n
    ensures (n > 0 || Persisted(s)) ==> Persisted(AddTimes(s, n))
  {
    if n > 0 {
      AddTimesCount(s, n - 1);
    }
  }

  /** Starting from empty storage, `n` additions give `n`, and a reload
      reading the same storage gives `n` again. */
  lemma CountSurvivesReload(n: nat)
    ensures AddTimes(LoadCart(map[]), n).count == n
    ensures LoadCart(AddTimes(LoadCart(map[]), n).storage).count == n
  {
    AddTimesCount(LoadCart(map[]), n);
  }

  /** The `.cart-count` badge: the number it shows and whether it is hidden. */
  datatype Badge = Badge(shown: int, hidden: bool)

  /** `updateCartCount`. */
  function UpdateCartCount(count: int): (b: Badge)
    ensures b.shown == count
    ensures b.hidden <==> count == 0
  {
    Badge(count, count == 0)
  }
}
