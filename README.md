# Restaurant order ledger

A Dafny model of the in-memory ledger of a terminal restaurant ordering
program (`RestaurantApp.java`). The program keeps a catalog of menu items, a
ledger of orders and a ledger of daily collection reports. The session loop
offers three operations on them:

- **place an order**: the user types a comma-separated list of menu ids;
- **cancel an order** by its id;
- **look up the collection report** of a date.

Every order takes its id from a process-wide counter that starts at 1.

The model has five modules:

- `Wrappers` (`wrappers.dfy`): the `Option` type, standing in for Java's
  `Optional` and for a parse that throws.
- `Lookup` (`lookup.dfy`): `FirstIndex`, the `filter(...).findFirst()` scan.
  All three lookups of the program use it: menu item by id, order by id and
  report by date.
- `JavaInt` (`java_int.dfy`): Java's 32-bit `int` and its post-increment,
  which wraps from 2^31 - 1 to -2^31.
- `Orders` (`orders.dfy`): the value types and the pure operations on them,
  with their lemmas:
  - `MenuItem`, `CollectionReport`, `Status` and `OrderRecord`;
  - the order total;
  - `Resolve`, which turns the requested ids into the items of an order;
  - `CancelFirst`, the ledger after a cancellation;
  - the report lookup.
- `Restaurant` (`restaurant.dfy`): the mutable state, as classes:
  - `OrderIdCounter`: the static `orderIdCounter`.
  - `Order`: an order object. Only its `status` field is ever reassigned.
  - `RestaurantApp`: the catalog, the two ledgers and the counter.
  `RestaurantApp.Valid()` is the ledger invariant:
  - the ledger holds distinct order objects;
  - the orders placed in this process follow the loaded ones;
  - the k-th placed order (counting from 0) carries `SessionId(k)`, i.e.
    1, 2, 3, …;
  - each placed order's total is the sum of its item prices.

  The ghost function `Records` gives the ledger as a sequence of values. The
  mutating methods are specified against the pure functions of `Orders`
  through it.

Representation choices:

- Prices and totals are integer cents.
- A `java.util.Date` is an `Instant`, an integer count of milliseconds.
- The user's id list arrives already split at commas and trimmed, as a
  `seq<Option<int32>>`. `None` marks a token on which `Integer.parseInt`
  throws.
- The report date arrives already parsed, as an `Option<Instant>`. `None`
  marks a string on which `SimpleDateFormat.parse` throws.
- The wall-clock time of `new Date()` is the parameter `now`.
- The catalog and the collection ledger are `const` fields of
  `RestaurantApp`: no code path writes them after loading. So "placing or
  cancelling never touches the menu" and "a lookup never modifies the
  collections" hold by construction.

Two behaviours of the code a reader might not expect:

- **A non-integer token.** It makes `Integer.parseInt` throw a
  `NumberFormatException` that nothing catches, so the whole process ends
  without saving, and the session loop does not resume. The model keeps
  what is observable up to the throw: no order is created, and neither the
  ledger nor the counter changes.
- **Order ids after a restart.** Orders loaded from the snapshot do not
  reseed the counter, which starts at 1 in every process. Ids are therefore
  unique only among the orders placed in one process. A placed order can
  repeat the id of a loaded one. Cancellation acts on the first order with
  the id and leaves any later duplicates alone.

## Model

| member | source | states |
|---|---|---|
| `Lookup.FirstIndex` | RestaurantApp.java:197 | the `filter(p).findFirst()` scan: `None` exactly when no element satisfies `p`; otherwise the index of an element satisfying `p` with none before it |
| `Orders.FindMenuItem` | RestaurantApp.java:197 | no entry is found exactly when no menu entry has the id; a found entry is the first menu entry carrying the id |
| `Orders.Total` | RestaurantApp.java:53-55 | the order total (`calculateTotalAmount`): the sum of the item prices in cents, 0 for an empty list; its contract says it is non-negative when every price is, and its further properties are `TotalAppend` and `TotalBoundsPrices` |
| `Orders.TotalAppend` | RestaurantApp.java:53-55 | the order total is additive over concatenation of item lists, so a total is the plain sum of the item prices |
| `Orders.TotalBoundsPrices` | RestaurantApp.java:53-55 | with non-negative prices, a total is non-negative and at least every single item's price |
| `Orders.Selected` | RestaurantApp.java:197-198 | what one parsed id adds to the item list: at most one item, nothing exactly when no menu entry has the id, otherwise the first menu entry carrying it |
| `Orders.Resolve` | RestaurantApp.java:194-199 | the item list the selection loop builds from the tokens, or `None` when a token is not an integer; its contract says a built list has at most one item per token, and its further properties are `ResolveAppend`, `ResolveStep`, `ResolveFailsIff`, `ResolvedAreFirstEntries` and `ResolveDropsUnknownId` |
| `Orders.ResolveAppend` | RestaurantApp.java:194-199 | resolving a concatenation of tokens concatenates the resolved items in input order, and fails if either part fails |
| `Orders.ResolveStep` | RestaurantApp.java:195-199 | one more loop iteration: an integer token appends the first menu entry with that id, or nothing; a non-integer token fails the whole resolution |
| `Orders.ResolveFailureSticks` | RestaurantApp.java:196 | once a non-integer token has been met, no later token can rescue the order |
| `Orders.ResolveSingle` | RestaurantApp.java:197-198 | a single id contributes exactly its first menu entry, or nothing when the catalog lacks the id; never more than one item |
| `Orders.ResolveFailsIff` | RestaurantApp.java:196 | no order is built if and only if some token is not an integer |
| `Orders.ResolvedAreFirstEntries` | RestaurantApp.java:197-198 | every item of a built order is a menu entry, namely the first one carrying its id |
| `Orders.ResolveUnknownIdsDropped` | RestaurantApp.java:198 | when every token is an integer the catalog lacks, the order is empty (and its total 0) |
| `Orders.ResolveDropsUnknownId` | RestaurantApp.java:197-198 | an integer id the catalog lacks is dropped silently: appending it to any id list leaves the resolved items unchanged |
| `Orders.ResolveDropsUnknownIdAnywhere` | RestaurantApp.java:197-198 | an integer id the catalog lacks is dropped silently wherever it stands: removing it from any position leaves the resolution unchanged |
| `Orders.TeaAndCoffee` | RestaurantApp.java:194-199 | worked example: ids "1,2" give both items for 350 cents; "1,9" drops the unknown 9; a non-integer token gives no order |
| `Orders.CancelFirst` | RestaurantApp.java:213-216 | the ledger after a cancellation: same length, and every record is either unchanged or the same record with status `Cancelled`; which one changes is stated by `CancelFirstAt` and `CancelFirstMissing` |
| `Orders.CancelFirstAt` | RestaurantApp.java:213-216 | cancelling sets the status of the first order carrying the id to `Cancelled` and changes nothing else: not that order's id, items, date or total, nor any other order, nor later orders with the same id |
| `Orders.CancelFirstMissing` | RestaurantApp.java:215-220 | cancelling an id that no order carries leaves the ledger unchanged |
| `Orders.CancelFirstIdempotent` | RestaurantApp.java:57-59 | cancelling the same id twice gives the same ledger as cancelling it once |
| `Orders.FindReport` | RestaurantApp.java:230-232 | no report is found exactly when no report has that date; a found report has exactly the queried date and is the first such one, never a nearest one |
| `JavaInt.Increment` | RestaurantApp.java:46 | Java's `orderIdCounter++` on a 32-bit `int`: the result is congruent to `c + 1` modulo 2^32, and is `c + 1` except that 2^31 - 1 wraps to -2^31 |
| `Restaurant.SessionId` | RestaurantApp.java:37-46 | the id the counter hands to the k-th order placed in a process (counting from 0): the counter's start value 1 post-incremented k times; its contract says that until the Java `int` counter wraps this is k + 1, and its further properties are `SessionIdWraps` and `SessionIdsIncrease` |
| `Restaurant.SessionIdWraps` | RestaurantApp.java:37-46 | the counter does wrap: the order placed after 2^31 - 1 others in one process gets id -2^31 |
| `Restaurant.SessionIdsIncrease` | RestaurantApp.java:37-46 | among the orders placed in one process, at most 2^31 - 1 of them, ids strictly increase in ledger order |
| `Restaurant.OrderIdCounter.constructor` | RestaurantApp.java:37 | the static order id counter starts at 1 |
| `Restaurant.Order.constructor` | RestaurantApp.java:45-51 | a new order takes the counter's value as id, then the counter is post-incremented (wrapping at the `int` bound); its total is the sum of its items' prices and its status is `Active` |
| `Restaurant.Order.Cancel` | RestaurantApp.java:57-59 | only the status changes, to `Cancelled`; id, items, date and total are kept |
| `Restaurant.RestaurantApp.constructor` | RestaurantApp.java:102-109 | after loading, the ledgers hold what was loaded and the counter is 1 whatever the loaded orders' ids, so the ledger invariant holds |
| `Restaurant.RestaurantApp.SelectItems` | RestaurantApp.java:194-199 | the selection loop builds exactly `Resolve(menu, tokens)`: the first menu entry for each resolvable id, in input order and with duplicates; none at all when a token is not an integer |
| `Restaurant.RestaurantApp.AddOrder` | RestaurantApp.java:201-202 | exactly one fresh order is appended at the end; its id is the counter value before the call, and the counter is incremented; earlier orders keep their records; the ledger invariant is kept |
| `Restaurant.RestaurantApp.PlaceOrder` | RestaurantApp.java:187-208 | with a non-integer token, neither the ledger nor the counter changes; otherwise one new order is appended. It holds `Resolve(menu, tokens)`, the old counter value as id, the sum of the items as total and `Active` as status. The counter is incremented and the earlier orders' records are unchanged |
| `Restaurant.RestaurantApp.CancelOrder` | RestaurantApp.java:210-222 | reports whether some order carries the id. The ledger's records become `CancelFirst` of the old ones (see `CancelFirstAt`, `CancelFirstMissing`). Only order objects are modified, so the order list, the counter and the menu are unchanged |
| `Restaurant.RestaurantApp.ViewDailyCollectionReport` | RestaurantApp.java:224-242 | a date that did not parse gives the format error and nothing else does. Otherwise "no report" comes back exactly when no report has that date, and a shown report is the first one with exactly that date |

## Left out

- The session loop (`main`) is left out: the menu printing, reading the
  choice and dispatching on 1–4 are console I/O with no state of their own.
- Reading and splitting the input lines is left out. The model starts from
  the tokens and from the parsed date.
- Reading the cancel id with `Scanner.nextInt` is left out. A non-numeric
  id throws out of `main`. The model takes the id as an `int32`.
- Loading the catalog from `menu.txt` is left out (file I/O).
  `RestaurantApp.constructor` receives the loaded catalog.
- Loading and saving the order and collection ledgers is left out. This
  covers `saveData` and `GetFileData.saveOrderData`, which use Java object
  serialization, a format outside this model. Placement and cancellation
  call the save after the change and do not alter the in-memory state.
- Loaded orders are passed in as distinct `Order` objects. Java
  deserialization of a list of separately constructed orders yields that.
  Their totals are not assumed to match their items.
- `double` arithmetic (`Double.parseDouble`, the stream sum) is left out.
  Prices and totals are exact integer cents, so `Total` has no rounding.
- `SimpleDateFormat` parsing and formatting, and `new Date()`, are left out
  (a library parser and the wall clock). They become the inputs `date` and
  `now`.
- All `toString` methods are left out: they only format for display.
