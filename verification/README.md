# Hotel room registry — a verified Dafny model

This project models the core of a console hotel-management program written in
Java (`Main.java`): a registry of rooms in four categories (executive double,
deluxe double, executive single, deluxe single; 10, 20, 10 and 20 rooms), in
which a room is either free or holds an occupancy record of one or two guests
together with the meals ordered so far. The operations are booking a room,
ordering a meal for it, generating its bill, cancelling its booking and listing
which rooms of a category are free. Meal line totals come from a fixed price
table (45, 55, 65 and 25 for items 1 to 4, nothing for any other item).

Files:

- `wrappers.dfy` — `Option`, the empty slot (the source's `null`) and the absent bill.
- `menu.dfy` — module `Menu`: the price switch, the menu shown to guests, the
  `Meal` record, and the 32-bit arithmetic the source uses for line totals.
- `rooms.dfy` — module `Rooms`: categories and their tables, the registry as a
  value (`RegistryState`), its well-formedness invariant, and each operation as
  a function, with the lemmas that state what the operations do and how they
  relate (booking then cancelling restores the registry, cancelling is
  idempotent, a meal raises the bill by its line total, ...).
- `registry.dfy` — module `Registry`: class `RoomRegistry` with the four
  fixed-size arrays the source keeps, and the `HotelManager` operations as
  methods that update those arrays in place (or, for the bill and the
  availability list, walk them with a loop); each method is proved to agree
  with the function of the same operation in `Rooms`.

Room numbers are 0-based indices here; the shell's conversion of the typed
room number (`nextInt() - 1`) is part of the console input that is left out.
An index outside a category's range makes the source throw an
`ArrayIndexOutOfBoundsException`, which the menu loop catches and prints; the
model makes a valid index a precondition instead. Console input becomes method
parameters: the guests' names, contacts and genders, the item id and the
quantity. `BookRoom` takes a second guest in every category but stores it only
for double rooms, where the source asks for it.

In these respects the model follows the code:

- a meal's quantity is not checked to be positive;
- ordering a meal for a free room is not an error value but a printed notice (the model's `OrderMeal` returns `false`);
- booking a double room has no separate check that a second guest was given.

Line totals are where the model deliberately departs from the code. The
registry stores the exact product of quantity and unit price, while
`Main.java` forms that product in 32-bit `int` arithmetic, which wraps around
for very large quantities (see "## Findings"). And amounts are exact integers
where the code keeps them in `float`.

## Model

| member | source | states |
|---|---|---|
| `Menu.NewMeal` | Main.java:10-20 | a meal keeps its item and quantity; its line total is the quantity times the price listed for items 1 to 4 and 0 for any other item |
| `Menu.UnitPrice` | Main.java:13-19 | a unit price is never negative, and it is non-zero exactly for the menu items 1 to 4 |
| `Menu.PricesMatchCatalogue` | Main.java:174-177 | the price charged for each item agrees with the menu printed before ordering (Pizza 45, Burger 55, Pasta 65, Juice 25); unknown items cost 0; no price is negative |
| `Menu.PriceOf` | Main.java:14-17 | exact line total; a non-negative quantity is never charged a negative amount |
| `Menu.PriceMonotone` | Main.java:14-17 | for non-negative quantities the line total is non-negative and grows with the quantity |
| `Menu.WrapInt32` | Main.java:14-17 | Java `int` truncation: the result is a 32-bit value congruent to the input modulo 2^32, and equal to it when it already fits |
| `Menu.JavaPriceOf` | Main.java:14-17 | the line total as written always fits 32 bits and equals the exact total whenever that fits |
| `Menu.JavaPriceOverflows` | Main.java:14 | 50,000,000 pizzas are charged -2,044,967,296 as written instead of 2,250,000,000 |
| `Rooms.CategoryOf` | Main.java:125-131 | the type codes 1 to 4 and only those select a category, and the selected category has that code |
| `Rooms.CodeRoundTrip` | Main.java:98-103 | each category is selected by its own code |
| `Rooms.CategoryTables` | Main.java:116-121 | codes 1 to 4 have 10, 20, 10, 20 rooms (the prompt's range) and rents 4000, 3000, 2000, 1500 (the rent switch), and exactly codes 1 and 2 are double rooms (the booking test) |
| `Rooms.DailyRate` | Main.java:205-211 | every category's rent is positive, and every double room rents for more than any single room |
| `Rooms.EmptyState` | Main.java:60-65 | a new registry is well formed, has the fixed capacity in each category, and every room is free |
| `Rooms.IsAvailable` | Main.java:107 | a room is free when its slot is empty; an occupied room holds a record of its category's shape (a second guest exactly in double rooms) |
| `Rooms.Book` | Main.java:142-152 | booking keeps the registry well formed: records in double rooms carry two guests, in single rooms one |
| `Rooms.BookOccupiedFails` | Main.java:133 | booking an occupied room yields `RoomUnavailable` and leaves the registry, occupant and meals included, unchanged |
| `Rooms.BookFreeSlot` | Main.java:142-152 | booking a free room succeeds, makes it occupied with the given guest (and the second guest exactly for double categories) and no meals, and changes no other room |
| `Rooms.AddMeal` | Main.java:184 | ordering a meal keeps the registry well formed |
| `Rooms.AddMealToEmptySlot` | Main.java:169-172 | ordering for a free room changes nothing |
| `Rooms.AddMealAppends` | Main.java:184 | ordering for an occupied room keeps its guests, appends exactly the new meal at the end of its orders, and changes no other room |
| `Rooms.MealTotalAppend` | Main.java:213-214 | the meal charges of a list with one more meal are the old charges plus that meal's line total |
| `Rooms.MealTotal` | Main.java:213-214 | the meal charges of no meals are 0, and of meals with non-negative line totals never negative |
| `Rooms.BillFor` | Main.java:200-218 | no bill exactly for a free room; otherwise rent is the category's rate, meal charges the sum of the room's line totals, total their sum |
| `Rooms.BillShape` | Main.java:200-218 | there is a bill exactly when the room is occupied; its rent is the category's rate and its total is rent plus meal charges |
| `Rooms.BillAfterBooking` | Main.java:205-218 | a room just booked is billed its rent, no meal charges, and a total equal to the rent |
| `Rooms.BillAfterAddMeal` | Main.java:213-218 | ordering a meal raises meal charges and total by exactly that meal's line total and leaves the rent alone |
| `Rooms.AddMealNeverLowersBill` | Main.java:213-218 | a meal of non-negative quantity never lowers a bill |
| `Rooms.Cancel` | Main.java:225-230 | cancelling keeps the registry well formed |
| `Rooms.CancelEmpties` | Main.java:225-230 | after cancelling, the room is free and has no bill, whatever it held before, and no other room changed |
| `Rooms.CancelIdempotent` | Main.java:225-230 | cancelling twice is the same as cancelling once |
| `Rooms.CancelUndoesBook` | Main.java:226-229 | booking a free room and then cancelling it restores the registry exactly |
| `Rooms.Availability` | Main.java:106-111 | one entry per room of the category, in room order, true exactly when that room is free |
| `Rooms.AvailabilityAfterBook` | Main.java:106-111 | a booking turns the listing entry of its room to occupied (or leaves it occupied) and changes no other entry of any category |
| `Rooms.AvailabilityAfterCancel` | Main.java:106-111 | a cancellation turns the listing entry of its room to free and changes no other entry |
| `Rooms.AvailabilityAfterAddMeal` | Main.java:106-111 | ordering a meal changes no availability entry |
| `Rooms.SingleRoomSession` | Main.java:114-233 | book executive single room 1, order two pizzas: the bill is 2000 + 90 = 2090; after cancelling, the room is free and unbillable |
| `Rooms.LastDeluxeDoubleRoom` | Main.java:62 | deluxe double room 20 (index 19) is the last valid one and booking it stores both guests; index 20 is out of range |
| `Registry.RoomRegistry.constructor` | Main.java:60-65 | a new registry has four distinct arrays of lengths 10, 20, 10, 20 with every room free |
| `Registry.RoomRegistry.BookRoom` | Main.java:114-155 | updates the arrays in place exactly as `Rooms.Book` does and returns its outcome |
| `Registry.RoomRegistry.OrderMeal` | Main.java:157-186 | reports whether the room was occupied and updates the arrays exactly as `Rooms.AddMeal` does |
| `Registry.RoomRegistry.GenerateBill` | Main.java:188-219 | the loop over the room's orders produces exactly the bill `Rooms.BillFor` describes |
| `Registry.RoomRegistry.CancelBooking` | Main.java:221-233 | empties the slot in place exactly as `Rooms.Cancel` does |
| `Registry.RoomRegistry.ShowAvailability` | Main.java:96-112 | one entry per room of the category, in order, true exactly when that room is free |

## Left out

- Console I/O: the prompts, the `Scanner` reads and every printed message, and the menu loop in `main`; the values read become parameters and results.
- `showFeatures`: it only prints a fixed description of each category.
- Persistence (`saveData`, `loadData`): Java object serialization to a file. Only the case with no saved file is modelled, as the constructor that yields an empty registry.
- Menu.NewMeal: the registry (`Rooms.AddMeal`, `Rooms.BillFor`, `RoomRegistry.OrderMeal`, `RoomRegistry.GenerateBill`) uses the corrected, exact line total `Menu.PriceOf`; only `Menu.JavaPriceOf` models the 32-bit product as written, so meals and bills whose quantity times price leaves the `int` range differ from the program's.
- Floating point: `Meal.totalPrice` and the bill's `mealTotal` are `float` in the source. The model uses exact integers; float rounding, which only appears for amounts above 2^24, is not modelled.
- Exceptions: `RoomUnavailableException` is the `RoomUnavailable` result. An out-of-range room number is a precondition rather than a caught exception.
- Unknown type codes: `CategoryOf` yields no category for them, but what each operation does with one is not modelled. In the source, meal orders and bills print that the room is not booked, cancellation does nothing, and booking and listing throw a `NullPointerException`.
- Object identity: rooms are values in the model. The source's in-place `add` to a room's `ArrayList` becomes replacing that slot's record. No two slots in the source ever share a room object, so nothing observable is lost.
- Single- and double-occupancy room classes: the subclass is modelled as one record with an optional second guest.

## Findings

| source | as written | input that shows it | evidently intended | confidence | as-written member | corrected member |
|---|---|---|---|---|---|---|
| Main.java:14-17 | the line total `quantity * 45` (and 55, 65, 25) is a product of two 32-bit `int`s and wraps around before it is stored | item 1, quantity 50,000,000: the line total is -2,044,967,296, so the order lowers the bill | quantity times unit price, never negative for a non-negative quantity (proved in `Menu.PriceMonotone` and `Rooms.AddMealNeverLowersBill`) | not executed; high | `Menu.JavaPriceOf` | `Menu.PriceOf` |
