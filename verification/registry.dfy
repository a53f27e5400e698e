/**
 * `RoomRegistry` and the operations of `HotelManager` in Main.java, without
 * the console: four fixed-size arrays of slots that the operations update in
 * place. Each method is proved to change the registry exactly as the
 * corresponding function of module Rooms says.
 */
module Registry {
  import opened Wrappers
  import opened Menu
  import opened Rooms

  class RoomRegistry {
    const executiveDoubles: array<Slot>
    const deluxeDoubles: array<Slot>
    const executiveSingles: array<Slot>
    const deluxeSingles: array<Slot>

    /** The array holding the rooms of category `c` (the source's switch on the room type). */
    function ArrayOf(c: Category): array<Slot>
    {
      match c
      case ExecutiveDouble => executiveDoubles
      case DeluxeDouble => deluxeDoubles
      case ExecutiveSingle => executiveSingles
      case DeluxeSingle => deluxeSingles
    }

    ghost function Repr(): set<object>
    {
      {executiveDoubles, deluxeDoubles, executiveSingles, deluxeSingles}
    }

    /** The registry's contents as a value. */
    ghost function Model(): RegistryState
      reads Repr()
    {
      RegistryState(executiveDoubles[..], deluxeDoubles[..], executiveSingles[..], deluxeSingles[..])
    }

    /** The four arrays are distinct and hold a well-formed registry. */
    ghost predicate Valid()
      reads Repr()
    {
      && executiveDoubles != deluxeDoubles && executiveDoubles != executiveSingles
      && executiveDoubles != deluxeSingles && deluxeDoubles != executiveSingles
      && deluxeDoubles != deluxeSingles && executiveSingles != deluxeSingles
      && Model().WellFormed()
    }

    lemma ArrayModel(c: Category)
      requires Valid()
      ensures ArrayOf(c).Length == Capacity(c)
      ensures ArrayOf(c)[..] == Model().Slots(c)
    {
      WellFormedSlots(Model(), c);
    }

    /** A new registry, as when no saved data exists: every room of every category is free. */
    constructor ()
      ensures Valid() && fresh(Repr())
      ensures Model() == EmptyState()
    {
      executiveDoubles := new Slot[10](_ => None);
      deluxeDoubles := new Slot[20](_ => None);
      executiveSingles := new Slot[10](_ => None);
      deluxeSingles := new Slot[20](_ => None);
      new;
      assert executiveDoubles[..] == EmptyState().executiveDoubles;
      assert deluxeDoubles[..] == EmptyState().deluxeDoubles;
      assert executiveSingles[..] == EmptyState().executiveSingles;
      assert deluxeSingles[..] == EmptyState().deluxeSingles;
    }

    /** Stores `s` in slot `n` of category `c`; the new model is the old one with that slot replaced. */
    method SetSlot(c: Category, n: int, s: Slot)
      requires Valid() && ValidIndex(c, n) && FitsCategory(c, s)
      modifies ArrayOf(c)
      ensures Valid()
      ensures Model() == old(Model()).With(c, old(Model()).Slots(c)[n := s])
    {
      ArrayModel(c);
      ghost var h := Model();
      var rooms := ArrayOf(c);
      rooms[n] := s;
      assert rooms[..] == h.Slots(c)[n := s];
      assert Model() == h.With(c, h.Slots(c)[n := s]) by {
        match c
        case ExecutiveDouble =>
        case DeluxeDouble =>
        case ExecutiveSingle =>
        case DeluxeSingle =>
      }
      WellFormedSlots(h, c);
      WithPreservesWellFormed(h, c, h.Slots(c)[n := s]);
    }

    /**
     * `bookRoom`: refuses an occupied room with `RoomUnavailable` and changes
     * nothing; otherwise stores a one- or two-guest record with no meals.
     */
    method BookRoom(c: Category, n: int, guest: Guest, guest2: Guest) returns (r: BookResult)
      requires Valid() && ValidIndex(c, n)
      modifies ArrayOf(c)
      ensures Valid()
      ensures (Model(), r) == Book(old(Model()), c, n, guest, guest2)
    {
      ArrayModel(c);
      var rooms := ArrayOf(c);
      if rooms[n] != None {
        return RoomUnavailable;
      }
      SetSlot(c, n, Some(NewOccupancy(c, guest, guest2)));
      r := Booked;
    }

    /**
     * `orderMeal`: a free room is left alone and `ordered` is false (the source's
     * "Room is not booked."); an occupied room's orders get the new meal at the end.
     */
    method OrderMeal(c: Category, n: int, itemId: int, quantity: int) returns (ordered: bool)
      requires Valid() && ValidIndex(c, n)
      modifies ArrayOf(c)
      ensures Valid()
      ensures ordered == !IsAvailable(old(Model()), c, n)
      ensures Model() == AddMeal(old(Model()), c, n, itemId, quantity)
    {
      ArrayModel(c);
      var room := ArrayOf(c)[n];
      if room == None {
        return false;
      }
      ordered := true;
      var occ := room.value;
      SetSlot(c, n, Some(occ.(meals := occ.meals + [NewMeal(itemId, quantity)])));
    }

    /** `generateBill`: the rent of the category plus the meal charges summed over the room's orders. */
    method GenerateBill(c: Category, n: int) returns (b: Option<Bill>)
      requires Valid() && ValidIndex(c, n)
      ensures b == BillFor(Model(), c, n)
    {
      ArrayModel(c);
      var room := ArrayOf(c)[n];
      if room == None {
        return None;
      }
      var meals := room.value.meals;
      var roomCost := DailyRate(c);
      var mealTotal := 0;
      for i := 0 to |meals|
        invariant mealTotal == MealTotal(meals[..i])
      {
        assert meals[..i + 1] == meals[..i] + [meals[i]];
        MealTotalAppend(meals[..i], meals[i]);
        mealTotal := mealTotal + meals[i].totalPrice;
      }
      assert meals[..|meals|] == meals;
      b := Some(Bill(roomCost, mealTotal, roomCost + mealTotal));
    }

    /** `cancelBooking`: empties the room whatever it held, dropping its meals. */
    method CancelBooking(c: Category, n: int)
      requires Valid() && ValidIndex(c, n)
      modifies ArrayOf(c)
      ensures Valid()
      ensures Model() == Cancel(old(Model()), c, n)
    {
      SetSlot(c, n, None);
    }

    /** `showAvailability`: one entry per room of the category, in order, true when the room is free. */
    method ShowAvailability(c: Category) returns (avail: seq<bool>)
      requires Valid()
      ensures |avail| == Capacity(c)
      ensures forall i :: 0 <= i < |avail| ==> (avail[i] <==> ArrayOf(c)[i] == None)
      ensures avail == Availability(Model(), c)
    {
      ArrayModel(c);
      var rooms := ArrayOf(c);
      avail := [];
      for i := 0 to rooms.Length
        invariant |avail| == i
        invariant forall j :: 0 <= j < i ==> (avail[j] <==> rooms[j] == None)
      {
        avail := avail + [rooms[i] == None];
      }
    }
  }
}
