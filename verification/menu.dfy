/**
 * The meal catalogue and the `Meal` record of Main.java: a meal remembers the
 * item and quantity ordered and the line total computed once, at construction.
 */
module Menu {

  /** Unit price of a menu item; an unknown item id costs nothing. */
  function UnitPrice(itemId: int): (p: int)
    ensures p >= 0
    ensures p != 0 <==> 1 <= itemId <= 4
  {
    match itemId
    case 1 => 45
    case 2 => 55
    case 3 => 65
    case 4 => 25
    case _ => 0
  }

  /** The menu shown to the guest before an order is taken: name and price of items 1 to 4, in order. */
  const Catalogue: seq<(string, int)> := [("Pizza", 45), ("Burger", 55), ("Pasta", 65), ("Juice", 25)]

  /** The price charged for `quantity` units of `itemId`, in exact integer arithmetic. */
  function PriceOf(itemId: int, quantity: int): (r: int)
    ensures quantity >= 0 ==> r >= 0
  {
    quantity * UnitPrice(itemId)
  }

  /** One meal order; `totalPrice` is fixed when the order is created. */
  datatype Meal = Meal(itemId: int, quantity: int, totalPrice: int)

  /** The `Meal` constructor: quantity is not validated, an unknown item gives a zero line total. */
  function NewMeal(itemId: int, quantity: int): (m: Meal)
    ensures m.itemId == itemId && m.quantity == quantity
    ensures 1 <= itemId <= 4 ==> m.totalPrice == quantity * Catalogue[itemId - 1].1
    ensures !(1 <= itemId <= 4) ==> m.totalPrice == 0
  {
    Meal(itemId, quantity, PriceOf(itemId, quantity))
  }

  /** The price switch agrees, item by item, with the menu printed to the guest. */
  lemma PricesMatchCatalogue(itemId: int)
    ensures 1 <= itemId <= 4 ==> UnitPrice(itemId) == Catalogue[itemId - 1].1
    ensures !(1 <= itemId <= 4) ==> UnitPrice(itemId) == 0
    ensures UnitPrice(itemId) >= 0
  {
  }

  /** A non-negative quantity is never charged a negative amount, and more units never cost less. */
  lemma PriceMonotone(itemId: int, q1: int, q2: int)
    requires 0 <= q1 <= q2
    ensures 0 <= PriceOf(itemId, q1) <= PriceOf(itemId, q2)
  {
    var p := UnitPrice(itemId);
    PricesMatchCatalogue(itemId);
    assert q2 * p == q1 * p + (q2 - q1) * p;
    assert (q2 - q1) * p >= 0;
  }

  // Java's 32-bit `int` arithmetic, used to state what the source computes as written.

  const INT32_MIN: int := -0x8000_0000
  const INT32_MAX: int := 0x7fff_ffff

  predicate IsInt32(x: int)
  {
    INT32_MIN <= x <= INT32_MAX
  }

  /** Two's-complement truncation of an integer to 32 bits, as Java's `int` multiplication does. */
  function WrapInt32(x: int): (r: int)
    ensures IsInt32(r)
    ensures (x - r) % 0x1_0000_0000 == 0
    ensures IsInt32(x) ==> r == x
  {
    (x - INT32_MIN) % 0x1_0000_0000 + INT32_MIN
  }

  /**
   * The line total as the source writes it: `quantity * 45` and its siblings are
   * products of two `int`s, so they wrap around before being stored.
   */
  function JavaPriceOf(itemId: int, quantity: int): (r: int)
    requires IsInt32(quantity)
    ensures IsInt32(r)
    ensures IsInt32(PriceOf(itemId, quantity)) ==> r == PriceOf(itemId, quantity)
  {
    WrapInt32(quantity * UnitPrice(itemId))
  }

  /** Fifty million pizzas: the as-written line total is negative, the exact one is not. */
  lemma JavaPriceOverflows()
    ensures IsInt32(50_000_000)
    ensures JavaPriceOf(1, 50_000_000) == -2_044_967_296
    ensures PriceOf(1, 50_000_000) == 2_250_000_000
  {
  }
}
