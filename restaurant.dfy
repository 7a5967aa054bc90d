/**
 * The in-memory state of the restaurant application: the catalog, the order
 * ledger, the collection ledger and the order id counter, with the three
 * operations of the session loop that touch them.
 */
module Restaurant {
  import opened Wrappers
  import opened Lookup
  import opened JavaInt
  import opened Orders

  /** The static `orderIdCounter` of `Order`: one per process, starting at 1. */
  class OrderIdCounter {
    var value: int32

    constructor ()
      ensures value == 1
    {
      value := 1;
    }
  }

  /**
   * The id the counter hands out to the `k`-th order placed in a process
   * (counting from 0): 1, 2, 3, ... until the Java `int` wraps.
   */
  function SessionId(k: nat): (r: int32)
    ensures k < MaxInt ==> r as int == k + 1
  {
    if k == 0 then 1 else Increment(SessionId(k - 1))
  }

  /**
   * The counter wraps at the 2^31-th order of a process, which gets the
   * smallest `int`, -2^31, as its id.
   */
  lemma SessionIdWraps()
    ensures SessionId(MaxInt) as int == MinInt
  {
    assert SessionId(MaxInt) == Increment(SessionId(MaxInt - 1));
  }

  /** A placed order; only its status changes after construction. */
  class Order {
    const id: int32
    const items: seq<MenuItem>
    const placedAt: Instant
    const total: int
    var status: Status

    /** Takes the counter's current value as id and post-increments the counter. */
    constructor (counter: OrderIdCounter, items: seq<MenuItem>, now: Instant)
      modifies counter
      ensures Record() == OrderRecord(old(counter.value), items, now, Total(items), Active)
      ensures counter.value == Increment(old(counter.value))
    {
      id := counter.value;
      counter.value := Increment(counter.value);
      this.items := items;
      placedAt := now;
      total := Total(items);
      status := Active;
    }

    function Record(): OrderRecord
      reads this
    {
      OrderRecord(id, items, placedAt, total, status)
    }

    method Cancel()
      modifies this
      ensures Record() == old(Record()).(status := Cancelled)
    {
      status := Cancelled;
    }
  }

  /** The orders of a ledger, as values. */
  ghost function Records(os: seq<Order>): (r: seq<OrderRecord>)
    reads os
    ensures |r| == |os|
    decreases |os|
  {
    if os == [] then [] else [os[0].Record()] + Records(os[1..])
  }

  lemma {:induction false} RecordsAt(os: seq<Order>, i: nat)
    requires i < |os|
    ensures Records(os)[i] == os[i].Record()
    decreases |os|
  {
    if i > 0 {
      RecordsAt(os[1..], i - 1);
    }
  }

  lemma RecordsAppend(os: seq<Order>, o: Order)
    ensures Records(os + [o]) == Records(os) + [o.Record()]
  {
    forall i | 0 <= i < |os| + 1
      ensures Records(os + [o])[i] == (Records(os) + [o.Record()])[i]
    {
      RecordsAt(os + [o], i);
      if i < |os| {
        RecordsAt(os, i);
      }
    }
  }

  /** No order object occurs twice in `os`. */
  ghost predicate Distinct(os: seq<Order>) {
    forall i, j :: 0 <= i < j < |os| ==> os[i] != os[j]
  }

  /**
   * The orders of `os` from position `loaded` on were placed in this process,
   * in that order: each carries the id the counter handed it and the total of
   * its own items.
   */
  ghost predicate PlacedInSession(os: seq<Order>, loaded: nat) {
    loaded <= |os| &&
    forall k :: loaded <= k < |os| ==>
      os[k].id == SessionId(k - loaded) && os[k].total == Total(os[k].items)
  }

  /** Appending a new object keeps the objects distinct. */
  lemma AppendKeepsDistinct(os: seq<Order>, o: Order)
    requires Distinct(os) && o !in os
    ensures Distinct(os + [o])
  {
  }

  /** Appending the next placed order keeps the session part well formed. */
  lemma AppendKeepsPlaced(os: seq<Order>, loaded: nat, o: Order)
    requires PlacedInSession(os, loaded)
    requires o.id == SessionId(|os| - loaded) && o.total == Total(o.items)
    ensures PlacedInSession(os + [o], loaded)
  {
  }

  /** What the report lookup shows. */
  datatype ReportView = InvalidDate | NoReport | Found(report: CollectionReport)

  class RestaurantApp {
    const menu: seq<MenuItem>
    const collections: seq<CollectionReport>
    const counter: OrderIdCounter
    var orders: seq<Order>
    /** How many orders were loaded from the snapshot at start-up. */
    ghost const loaded: nat

    /**
     * The ledger holds distinct order objects; the orders placed in this
     * process come after the loaded ones and carry the ids 1, 2, 3, ... as
     * the counter hands them out (wrapping like a Java `int`), each with the
     * total of its own items.
     */
    ghost predicate Valid()
      reads this, counter
    {
      Distinct(orders) && PlacedInSession(orders, loaded) &&
      counter.value == SessionId(|orders| - loaded)
    }

    /**
     * The state once the three loaders have run. Loading orders leaves the
     * counter at 1, so placed orders may repeat the ids of loaded ones.
     */
    constructor (menu: seq<MenuItem>, loadedOrders: seq<Order>, collections: seq<CollectionReport>)
      requires forall i, j :: 0 <= i < j < |loadedOrders| ==> loadedOrders[i] != loadedOrders[j]
      ensures Valid() && fresh(counter)
      ensures this.menu == menu && this.collections == collections
      ensures orders == loadedOrders && counter.value == 1
    {
      this.menu := menu;
      this.collections := collections;
      orders := loadedOrders;
      loaded := |loadedOrders|;
      counter := new OrderIdCounter();
    }

    /**
     * The item list of a new order: each requested id in turn adds the first
     * menu entry carrying it, and an id without one adds nothing. `None`
     * stands for the exception `Integer.parseInt` throws on a token that is
     * not an integer.
     */
    method SelectItems(tokens: seq<Option<int32>>) returns (selected: Option<seq<MenuItem>>)
      ensures selected == Resolve(menu, tokens)
    {
      var items: seq<MenuItem> := [];
      var i := 0;
      while i < |tokens|
        invariant 0 <= i <= |tokens|
        invariant Resolve(menu, tokens[..i]) == Some(items)
      {
        ResolvePrefixStep(menu, tokens, i);
        if tokens[i].None? {
          ResolveFailureSticks(menu, tokens[..i + 1], tokens[i + 1..]);
          assert tokens[..i + 1] + tokens[i + 1..] == tokens;
          return None;
        }
        var item := FindMenuItem(menu, tokens[i].value);
        if item.Some? {
          items := items + [item.value];
        } else {
          assert items + Selected(menu, tokens[i].value) == items;
        }
        i := i + 1;
      }
      assert tokens[..i] == tokens;
      selected := Some(items);
    }

    /**
     * Creates an order from `items` with the counter's next id and appends it
     * to the ledger; the orders already there are left as they were.
     */
    method AddOrder(items: seq<MenuItem>, now: Instant) returns (order: Order)
      requires Valid()
      modifies this, counter
      ensures Valid() && fresh(order)
      ensures orders == old(orders) + [order]
      ensures order.Record() == OrderRecord(old(counter.value), items, now, Total(items), Active)
      ensures counter.value == Increment(old(counter.value))
      ensures Records(orders) == old(Records(orders)) + [order.Record()]
    {
      ghost var before := Records(orders);
      order := new Order(counter, items, now);
      assert Records(orders) == before;
      RecordsAppend(orders, order);
      AppendKeepsDistinct(orders, order);
      AppendKeepsPlaced(orders, loaded, order);
      assert counter.value == SessionId(|orders| + 1 - loaded);
      orders := orders + [order];
    }

    /**
     * Places one order for the requested ids. When a token is not an integer
     * no order is created and nothing changes.
     */
    method PlaceOrder(tokens: seq<Option<int32>>, now: Instant) returns (placed: Option<Order>)
      requires Valid()
      modifies this, counter
      ensures Valid()
      ensures Resolve(menu, tokens).None? ==>
        placed.None? && orders == old(orders) && counter.value == old(counter.value)
      ensures Resolve(menu, tokens).Some? ==>
        placed.Some? && fresh(placed.value) && orders == old(orders) + [placed.value] &&
        placed.value.Record() == OrderRecord(old(counter.value), Resolve(menu, tokens).value, now,
                                             Total(Resolve(menu, tokens).value), Active) &&
        counter.value == Increment(old(counter.value))
      ensures Records(orders) == old(Records(orders)) + (if placed.Some? then [placed.value.Record()] else [])
    {
      var selected := SelectItems(tokens);
      if selected.None? {
        return None;
      }
      var order := AddOrder(selected.value, now);
      placed := Some(order);
    }

    /**
     * Sets the first order carrying `id` to `Cancelled`; reports whether one
     * was found.
     */
    method CancelOrder(id: int32) returns (found: bool)
      requires Valid()
      modifies orders
      ensures Valid() && orders == old(orders) && counter.value == old(counter.value)
      ensures found <==> exists i :: 0 <= i < |orders| && orders[i].id == id
      ensures Records(orders) == CancelFirst(old(Records(orders)), id)
    {
      ghost var before := Records(orders);
      forall j | 0 <= j < |orders| ensures before[j] == orders[j].Record() {
        RecordsAt(orders, j);
      }
      var k := FirstIndex(orders, (o: Order) => o.id == id);
      match k
      case None =>
        CancelFirstMissing(before, id);
        found := false;
      case Some(i) =>
        assert FirstWithOrderId(before, id, i);
        CancelFirstAt(before, id, i);
        orders[i].Cancel();
        found := true;
        ghost var after := before[i := before[i].(status := Cancelled)];
        forall j | 0 <= j < |orders|
          ensures Records(orders)[j] == after[j]
        {
          RecordsAt(orders, j);
        }
        assert Records(orders) == after;
    }

    /** Looks up the collection of a parsed date; `None` is a date the parser rejected. */
    method ViewDailyCollectionReport(date: Option<Instant>) returns (view: ReportView)
      ensures date.None? <==> view == InvalidDate
      ensures date.Some? ==>
        (view == NoReport <==> forall i :: 0 <= i < |collections| ==> collections[i].date != date.value)
      ensures view.Found? ==>
        exists k: nat :: FirstOnDate(collections, date.value, k) && collections[k] == view.report
    {
      match date
      case None =>
        view := InvalidDate;
      case Some(d) =>
        match FindReport(collections, d)
        case Some(report) => view := Found(report);
        case None => view := NoReport;
    }
  }

  /**
   * While at most 2^31 - 1 orders have been placed in this process, the ids
   * it hands out strictly increase in ledger order.
   */
  lemma SessionIdsIncrease(app: RestaurantApp, i: nat, j: nat)
    requires app.Valid()
    requires app.loaded <= i < j < |app.orders|
    requires j - app.loaded < MaxInt
    ensures app.orders[i].id < app.orders[j].id
  {
  }
}
