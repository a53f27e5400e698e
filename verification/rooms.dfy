/**
 * The room registry of Main.java as a value: four fixed-length sequences of
 * slots, one per room category, and the booking, meal, billing and cancellation
 * operations as functions of that value. The class in registry.dfy stores the
 * same state in arrays and is proved against these functions.
 */
module Rooms {
  import opened Wrappers
  import opened Menu

  /** The four room categories, in the order of the shell's type codes 1 to 4. */
  datatype Category = ExecutiveDouble | DeluxeDouble | ExecutiveSingle | DeluxeSingle

  function Code(c: Category): int
  {
    match c
    case ExecutiveDouble => 1
    case DeluxeDouble => 2
    case ExecutiveSingle => 3
    case DeluxeSingle => 4
  }

  /** The category a type code selects; codes outside 1..4 select none. */
  function CategoryOf(code: int): (r: Option<Category>)
    ensures r.Some? <==> 1 <= code <= 4
    ensures r.Some? ==> Code(r.value) == code
  {
    if code == 1 then Some(ExecutiveDouble)
    else if code == 2 then Some(DeluxeDouble)
    else if code == 3 then Some(ExecutiveSingle)
    else if code == 4 then Some(DeluxeSingle)
    else None
  }

  /** Number of rooms of a category (the lengths of the registry's arrays). */
  function Capacity(c: Category): nat
  {
    match c
    case ExecutiveDouble => 10
    case DeluxeDouble => 20
    case ExecutiveSingle => 10
    case DeluxeSingle => 20
  }

  /** Rent charged on a bill for a room of a category. */
  function DailyRate(c: Category): (r: int)
    ensures r > 0
    ensures IsDouble(c) ==> r >= 3000
    ensures !IsDouble(c) ==> r <= 2000
  {
    match c
    case ExecutiveDouble => 4000
    case DeluxeDouble => 3000
    case ExecutiveSingle => 2000
    case DeluxeSingle => 1500
  }

  /** Categories whose rooms hold two guests. */
  predicate IsDouble(c: Category)
  {
    c == ExecutiveDouble || c == DeluxeDouble
  }

  /** The category tables: codes, capacities and rents agree with the source's switches. */
  lemma CategoryTables(code: int)
    requires 1 <= code <= 4
    ensures CategoryOf(code).Some?
    ensures Capacity(CategoryOf(code).value) == [10, 20, 10, 20][code - 1]
    ensures DailyRate(CategoryOf(code).value) == [4000, 3000, 2000, 1500][code - 1]
    ensures IsDouble(CategoryOf(code).value) <==> code <= 2
  {
  }

  lemma CodeRoundTrip(c: Category)
    ensures CategoryOf(Code(c)) == Some(c)
  {
  }

  datatype Guest = Guest(name: string, contact: string, gender: string)

  /**
   * An occupied room: its guest, the second guest of a double room, and the
   * meals ordered so far (a room's meals exist only while it is occupied).
   */
  datatype Occupancy = Occupancy(guest: Guest, guest2: Option<Guest>, meals: seq<Meal>)

  /** `None` is an empty slot (the source's `null`). */
  type Slot = Option<Occupancy>

  /** An occupancy record is of the shape its category requires: two guests exactly for double rooms. */
  predicate FitsCategory(c: Category, s: Slot)
  {
    s.Some? ==> (s.value.guest2.Some? <==> IsDouble(c))
  }

  ghost predicate SlotsValid(c: Category, slots: seq<Slot>)
  {
    |slots| == Capacity(c) && forall i :: 0 <= i < |slots| ==> FitsCategory(c, slots[i])
  }

  datatype RegistryState = RegistryState(
    executiveDoubles: seq<Slot>,
    deluxeDoubles: seq<Slot>,
    executiveSingles: seq<Slot>,
    deluxeSingles: seq<Slot>)
  {
    function Slots(c: Category): seq<Slot>
    {
      match c
      case ExecutiveDouble => executiveDoubles
      case DeluxeDouble => deluxeDoubles
      case ExecutiveSingle => executiveSingles
      case DeluxeSingle => deluxeSingles
    }

    /** This state with the slots of category `c` replaced. */
    function With(c: Category, slots: seq<Slot>): (r: RegistryState)
      ensures r.Slots(c) == slots
      ensures forall d :: d != c ==> r.Slots(d) == Slots(d)
    {
      match c
      case ExecutiveDouble => this.(executiveDoubles := slots)
      case DeluxeDouble => this.(deluxeDoubles := slots)
      case ExecutiveSingle => this.(executiveSingles := slots)
      case DeluxeSingle => this.(deluxeSingles := slots)
    }

    /** Every category has its fixed number of slots, each occupied slot of the right shape. */
    ghost predicate WellFormed()
    {
      && SlotsValid(ExecutiveDouble, executiveDoubles)
      && SlotsValid(DeluxeDouble, deluxeDoubles)
      && SlotsValid(ExecutiveSingle, executiveSingles)
      && SlotsValid(DeluxeSingle, deluxeSingles)
    }
  }

  lemma WellFormedSlots(h: RegistryState, c: Category)
    requires h.WellFormed()
    ensures SlotsValid(c, h.Slots(c))
  {
  }

  lemma WithPreservesWellFormed(h: RegistryState, c: Category, slots: seq<Slot>)
    requires h.WellFormed() && SlotsValid(c, slots)
    ensures h.With(c, slots).WellFormed()
  {
    var r := h.With(c, slots);
    forall d | d != c ensures SlotsValid(d, r.Slots(d)) {
      WellFormedSlots(h, d);
    }
    assert SlotsValid(ExecutiveDouble, r.Slots(ExecutiveDouble));
    assert SlotsValid(DeluxeDouble, r.Slots(DeluxeDouble));
    assert SlotsValid(ExecutiveSingle, r.Slots(ExecutiveSingle));
    assert SlotsValid(DeluxeSingle, r.Slots(DeluxeSingle));
  }

  /** A room number the source can index without an exception (0-based). */
  predicate ValidIndex(c: Category, n: int)
  {
    0 <= n < Capacity(c)
  }

  /** A freshly created registry: every slot of every category is empty. */
  function EmptyState(): (h: RegistryState)
    ensures h.WellFormed()
    ensures forall c :: |h.Slots(c)| == Capacity(c)
    ensures forall c, i :: 0 <= i < |h.Slots(c)| ==> h.Slots(c)[i] == None
  {
    RegistryState(
      seq(10, _ => None), seq(20, _ => None),
      seq(10, _ => None), seq(20, _ => None))
  }

  /** A room is free when its slot is empty; an occupied room holds a record shaped for its category. */
  predicate IsAvailable(h: RegistryState, c: Category, n: int)
    requires h.WellFormed() && ValidIndex(c, n)
    ensures !IsAvailable(h, c, n) ==> h.Slots(c)[n].Some? && (h.Slots(c)[n].value.guest2.Some? <==> IsDouble(c))
  {
    WellFormedSlots(h, c);
    h.Slots(c)[n].None?
  }

  /** `h'` differs from `h` at most in slot `n` of category `c`. */
  ghost predicate OnlySlotChanged(h: RegistryState, h': RegistryState, c: Category, n: int)
  {
    && (forall d :: d != c ==> h'.Slots(d) == h.Slots(d))
    && |h'.Slots(c)| == |h.Slots(c)|
    && (forall i :: 0 <= i < |h.Slots(c)| && i != n ==> h'.Slots(c)[i] == h.Slots(c)[i])
  }

  // ---------------------------------------------------------------- booking

  datatype BookResult = Booked | RoomUnavailable

  /** The record a booking stores: two guests in a double room, one in a single room, no meals yet. */
  function NewOccupancy(c: Category, guest: Guest, guest2: Guest): (o: Occupancy)
    ensures FitsCategory(c, Some(o))
  {
    Occupancy(guest, if IsDouble(c) then Some(guest2) else None, [])
  }

  /**
   * `bookRoom`: an occupied slot is refused before anything is stored; a free
   * slot receives a new record. `guest2` is the second guest the shell asks for
   * in double categories only; it is not consulted for single rooms.
   */
  function Book(h: RegistryState, c: Category, n: int, guest: Guest, guest2: Guest): (r: (RegistryState, BookResult))
    requires h.WellFormed() && ValidIndex(c, n)
    ensures r.0.WellFormed()
  {
    if !IsAvailable(h, c, n) then (h, RoomUnavailable)
    else
      var slots := h.Slots(c)[n := Some(NewOccupancy(c, guest, guest2))];
      WithPreservesWellFormed(h, c, slots);
      (h.With(c, slots), Booked)
  }

  lemma BookOccupiedFails(h: RegistryState, c: Category, n: int, guest: Guest, guest2: Guest)
    requires h.WellFormed() && ValidIndex(c, n)
    requires !IsAvailable(h, c, n)
    ensures Book(h, c, n, guest, guest2) == (h, RoomUnavailable)
  {
  }

  lemma BookFreeSlot(h: RegistryState, c: Category, n: int, guest: Guest, guest2: Guest)
    requires h.WellFormed() && ValidIndex(c, n)
    requires IsAvailable(h, c, n)
    ensures var (h', r) := Book(h, c, n, guest, guest2);
      && r == Booked
      && !IsAvailable(h', c, n)
      && h'.Slots(c)[n].value.guest == guest
      && (IsDouble(c) ==> h'.Slots(c)[n].value.guest2 == Some(guest2))
      && (!IsDouble(c) ==> h'.Slots(c)[n].value.guest2 == None)
      && h'.Slots(c)[n].value.meals == []
      && OnlySlotChanged(h, h', c, n)
  {
  }

  // ---------------------------------------------------------------- meals

  /** `orderMeal`: an empty slot is left alone; an occupied one gets the meal appended to its orders. */
  function AddMeal(h: RegistryState, c: Category, n: int, itemId: int, quantity: int): (h': RegistryState)
    requires h.WellFormed() && ValidIndex(c, n)
    ensures h'.WellFormed()
  {
    WellFormedSlots(h, c);
    match h.Slots(c)[n]
    case None => h
    case Some(occ) =>
      var slots := h.Slots(c)[n := Some(occ.(meals := occ.meals + [NewMeal(itemId, quantity)]))];
      WithPreservesWellFormed(h, c, slots);
      h.With(c, slots)
  }

  lemma AddMealToEmptySlot(h: RegistryState, c: Category, n: int, itemId: int, quantity: int)
    requires h.WellFormed() && ValidIndex(c, n)
    requires IsAvailable(h, c, n)
    ensures AddMeal(h, c, n, itemId, quantity) == h
  {
  }

  lemma AddMealAppends(h: RegistryState, c: Category, n: int, itemId: int, quantity: int)
    requires h.WellFormed() && ValidIndex(c, n)
    requires !IsAvailable(h, c, n)
    ensures var h' := AddMeal(h, c, n, itemId, quantity);
      && !IsAvailable(h', c, n)
      && h'.Slots(c)[n].value.guest == h.Slots(c)[n].value.guest
      && h'.Slots(c)[n].value.guest2 == h.Slots(c)[n].value.guest2
      && h'.Slots(c)[n].value.meals == h.Slots(c)[n].value.meals + [NewMeal(itemId, quantity)]
      && OnlySlotChanged(h, h', c, n)
  {
  }

  // ---------------------------------------------------------------- billing

  datatype Bill = Bill(roomRent: int, mealCharges: int, total: int)

  /** Sum of the line totals of a list of meals, first to last. */
  function MealTotal(meals: seq<Meal>): (r: int)
    ensures meals == [] ==> r == 0
    ensures (forall i :: 0 <= i < |meals| ==> meals[i].totalPrice >= 0) ==> r >= 0
  {
    if meals == [] then 0 else meals[0].totalPrice + MealTotal(meals[1..])
  }

  lemma {:induction false} MealTotalAppend(meals: seq<Meal>, m: Meal)
    ensures MealTotal(meals + [m]) == MealTotal(meals) + m.totalPrice
  {
    if meals != [] {
      assert (meals + [m])[1..] == meals[1..] + [m];
      MealTotalAppend(meals[1..], m);
    }
  }

  /** `generateBill`: no bill for an empty slot; otherwise the category's rent plus every meal's line total. */
  function BillFor(h: RegistryState, c: Category, n: int): (b: Option<Bill>)
    requires h.WellFormed() && ValidIndex(c, n)
    ensures b.None? <==> IsAvailable(h, c, n)
    ensures b.Some? ==> && b.value.roomRent == DailyRate(c)
                        && b.value.mealCharges == MealTotal(h.Slots(c)[n].value.meals)
                        && b.value.total == b.value.roomRent + b.value.mealCharges
  {
    WellFormedSlots(h, c);
    match h.Slots(c)[n]
    case None => None
    case Some(occ) =>
      var mealTotal := MealTotal(occ.meals);
      Some(Bill(DailyRate(c), mealTotal, DailyRate(c) + mealTotal))
  }

  lemma BillShape(h: RegistryState, c: Category, n: int)
    requires h.WellFormed() && ValidIndex(c, n)
    ensures BillFor(h, c, n).None? <==> IsAvailable(h, c, n)
    ensures BillFor(h, c, n).Some? ==>
      var b := BillFor(h, c, n).value;
      b.roomRent == DailyRate(c) && b.total == b.roomRent + b.mealCharges
  {
  }

  /** A room just booked is billed its rent and nothing else. */
  lemma BillAfterBooking(h: RegistryState, c: Category, n: int, guest: Guest, guest2: Guest)
    requires h.WellFormed() && ValidIndex(c, n)
    requires IsAvailable(h, c, n)
    ensures BillFor(Book(h, c, n, guest, guest2).0, c, n) == Some(Bill(DailyRate(c), 0, DailyRate(c)))
  {
  }

  /** Ordering a meal raises the meal charges and the total by exactly that meal's line total. */
  lemma BillAfterAddMeal(h: RegistryState, c: Category, n: int, itemId: int, quantity: int)
    requires h.WellFormed() && ValidIndex(c, n)
    requires !IsAvailable(h, c, n)
    ensures var b := BillFor(h, c, n).value;
      BillFor(AddMeal(h, c, n, itemId, quantity), c, n)
        == Some(Bill(b.roomRent, b.mealCharges + PriceOf(itemId, quantity), b.total + PriceOf(itemId, quantity)))
  {
    MealTotalAppend(h.Slots(c)[n].value.meals, NewMeal(itemId, quantity));
  }

  /** With the exact line totals a meal of non-negative quantity never lowers a bill. */
  lemma AddMealNeverLowersBill(h: RegistryState, c: Category, n: int, itemId: int, quantity: int)
    requires h.WellFormed() && ValidIndex(c, n)
    requires !IsAvailable(h, c, n) && quantity >= 0
    ensures BillFor(AddMeal(h, c, n, itemId, quantity), c, n).value.total >= BillFor(h, c, n).value.total
  {
    BillAfterAddMeal(h, c, n, itemId, quantity);
    PriceMonotone(itemId, 0, quantity);
  }

  // ---------------------------------------------------------------- cancellation

  /** `cancelBooking`: the slot becomes empty whatever it held, which drops its meals too. */
  function Cancel(h: RegistryState, c: Category, n: int): (h': RegistryState)
    requires h.WellFormed() && ValidIndex(c, n)
    ensures h'.WellFormed()
  {
    WellFormedSlots(h, c);
    var slots := h.Slots(c)[n := None];
    WithPreservesWellFormed(h, c, slots);
    h.With(c, slots)
  }

  lemma CancelEmpties(h: RegistryState, c: Category, n: int)
    requires h.WellFormed() && ValidIndex(c, n)
    ensures IsAvailable(Cancel(h, c, n), c, n)
    ensures BillFor(Cancel(h, c, n), c, n) == None
    ensures OnlySlotChanged(h, Cancel(h, c, n), c, n)
  {
  }

  lemma CancelIdempotent(h: RegistryState, c: Category, n: int)
    requires h.WellFormed() && ValidIndex(c, n)
    ensures Cancel(Cancel(h, c, n), c, n) == Cancel(h, c, n)
  {
  }

  /** Cancelling a booking just made on a free room restores the registry exactly. */
  lemma CancelUndoesBook(h: RegistryState, c: Category, n: int, guest: Guest, guest2: Guest)
    requires h.WellFormed() && ValidIndex(c, n)
    requires IsAvailable(h, c, n)
    ensures Cancel(Book(h, c, n, guest, guest2).0, c, n) == h
  {
    var slots := h.Slots(c);
    assert slots[n := Some(NewOccupancy(c, guest, guest2))][n := None] == slots;
  }

  // ---------------------------------------------------------------- availability

  /** `showAvailability`: for each room of the category in order, whether it is free. */
  function Availability(h: RegistryState, c: Category): (r: seq<bool>)
    requires h.WellFormed()
    ensures |r| == Capacity(c)
    ensures forall i :: 0 <= i < |r| ==> (r[i] <==> IsAvailable(h, c, i))
  {
    WellFormedSlots(h, c);
    seq(Capacity(c), i requires 0 <= i < Capacity(c) => h.Slots(c)[i].None?)
  }

  lemma AvailabilityAfterBook(h: RegistryState, c: Category, n: int, guest: Guest, guest2: Guest)
    requires h.WellFormed() && ValidIndex(c, n)
    ensures var (h', r) := Book(h, c, n, guest, guest2);
      && Availability(h', c) == Availability(h, c)[n := false]
      && forall d :: d != c ==> Availability(h', d) == Availability(h, d)
  {
  }

  lemma AvailabilityAfterCancel(h: RegistryState, c: Category, n: int)
    requires h.WellFormed() && ValidIndex(c, n)
    ensures Availability(Cancel(h, c, n), c) == Availability(h, c)[n := true]
    ensures forall d :: d != c ==> Availability(Cancel(h, c, n), d) == Availability(h, d)
  {
  }

  lemma AvailabilityAfterAddMeal(h: RegistryState, c: Category, n: int, itemId: int, quantity: int)
    requires h.WellFormed() && ValidIndex(c, n)
    ensures forall d :: Availability(AddMeal(h, c, n, itemId, quantity), d) == Availability(h, d)
  {
  }

  // ---------------------------------------------------------------- a session

  /**
   * Book single executive room 1 for one guest, order two pizzas, bill it,
   * cancel it: the bill is 2000 + 90, and afterwards the room is free and unbillable.
   */
  lemma SingleRoomSession()
    ensures
      var g := Guest("A", "555", "M");
      var (h1, r) := Book(EmptyState(), ExecutiveSingle, 0, g, g);
      var h2 := AddMeal(h1, ExecutiveSingle, 0, 1, 2);
      var h3 := Cancel(h2, ExecutiveSingle, 0);
      && r == Booked
      && BillFor(h2, ExecutiveSingle, 0) == Some(Bill(2000, 90, 2090))
      && IsAvailable(h3, ExecutiveSingle, 0)
      && BillFor(h3, ExecutiveSingle, 0) == None
  {
    var g := Guest("A", "555", "M");
    var h0 := EmptyState();
    BillAfterBooking(h0, ExecutiveSingle, 0, g, g);
    var (h1, r) := Book(h0, ExecutiveSingle, 0, g, g);
    BillAfterAddMeal(h1, ExecutiveSingle, 0, 1, 2);
  }

  /**
   * The last deluxe double room is room 20 (index 19): booking it stores both
   * guests; index 20 is out of range and is a caller error, not a refusal.
   */
  lemma LastDeluxeDoubleRoom(g1: Guest, g2: Guest)
    ensures ValidIndex(DeluxeDouble, 19) && !ValidIndex(DeluxeDouble, 20)
    ensures
      var (h, r) := Book(EmptyState(), DeluxeDouble, 19, g1, g2);
      r == Booked && h.Slots(DeluxeDouble)[19] == Some(Occupancy(g1, Some(g2), []))
  {
    BookFreeSlot(EmptyState(), DeluxeDouble, 19, g1, g2);
  }
}
