/**
 * The values of the restaurant ledger (menu entries, collection reports, order
 * records) and the pure operations on them: the order total, the resolution of
 * the requested menu ids, the first-match cancellation and the report lookup.
 */
module Orders {
  import opened Wrappers
  import opened Lookup
  import opened JavaInt

  /** A `java.util.Date`: milliseconds since the epoch. */
  type Instant = int

  /** A catalog entry; the price is in cents. */
  datatype MenuItem = MenuItem(id: int32, name: string, price: int)

  /** A precomputed daily collection; the total is in cents. */
  datatype CollectionReport = CollectionReport(date: Instant, totalCollection: int)

  /** The two values the order's `status` string ever takes. */
  datatype Status = Active | Cancelled

  /** Everything an order holds, as a value. */
  datatype OrderRecord = OrderRecord(id: int32, items: seq<MenuItem>, placedAt: Instant, total: int, status: Status)

  // ---------------------------------------------------------------- totals

  /** Sum of the prices of `items` (the stream sum of `calculateTotalAmount`). */
  function Total(items: seq<MenuItem>): (r: int)
    ensures (forall i :: 0 <= i < |items| ==> items[i].price >= 0) ==> r >= 0
    decreases |items|
  {
    if items == [] then 0 else items[0].price + Total(items[1..])
  }

  /** The total of a concatenation is the sum of the totals. */
  lemma {:induction false} TotalAppend(a: seq<MenuItem>, b: seq<MenuItem>)
    ensures Total(a + b) == Total(a) + Total(b)
    decreases |a|
  {
    if a != [] {
      assert (a + b)[0] == a[0] && (a + b)[1..] == a[1..] + b;
      TotalAppend(a[1..], b);
    } else {
      assert a + b == b;
    }
  }

  /** With non-negative prices, the total is non-negative and bounds every single price. */
  lemma {:induction false} TotalBoundsPrices(items: seq<MenuItem>)
    requires forall i :: 0 <= i < |items| ==> items[i].price >= 0
    ensures Total(items) >= 0
    ensures forall i :: 0 <= i < |items| ==> items[i].price <= Total(items)
    decreases |items|
  {
    if items != [] {
      TotalBoundsPrices(items[1..]);
      forall i | 1 <= i < |items| ensures items[i].price <= Total(items) {
        assert items[i] == items[1..][i - 1];
      }
    }
  }

  // ---------------------------------------------------------------- menu lookup

  /** `k` is the first catalog position carrying `id`: `Lookup.IsFirst` for the test `m.id == id`. */
  ghost predicate FirstWithId(menu: seq<MenuItem>, id: int32, k: nat) {
    k < |menu| && menu[k].id == id && forall j :: 0 <= j < k ==> menu[j].id != id
  }

  /** The first menu entry whose id is `id`, if any. */
  function FindMenuItem(menu: seq<MenuItem>, id: int32): (r: Option<MenuItem>)
    ensures r.None? <==> forall i :: 0 <= i < |menu| ==> menu[i].id != id
    ensures r.Some? ==> exists k: nat :: FirstWithId(menu, id, k) && menu[k] == r.value
  {
    match FirstIndex(menu, (m: MenuItem) => m.id == id)
    case None => None
    case Some(k) => assert FirstWithId(menu, id, k); Some(menu[k])
  }

  /** What one parsed id contributes to the order: its menu entry, or nothing. */
  function Selected(menu: seq<MenuItem>, id: int32): (r: seq<MenuItem>)
    ensures |r| <= 1
    ensures r == [] <==> forall i :: 0 <= i < |menu| ==> menu[i].id != id
    ensures r != [] ==> exists k: nat :: FirstWithId(menu, id, k) && r[0] == menu[k]
  {
    match FindMenuItem(menu, id)
    case None => []
    case Some(m) => [m]
  }

  /**
   * The items an order is built from, for the tokens of the comma-separated id
   * list; a `None` token is one `Integer.parseInt` rejects, and then no order
   * is built at all.
   */
  function Resolve(menu: seq<MenuItem>, tokens: seq<Option<int32>>): (r: Option<seq<MenuItem>>)
    ensures r.Some? ==> |r.value| <= |tokens|
    decreases |tokens|
  {
    if tokens == [] then Some([])
    else match tokens[0]
      case None => None
      case Some(id) =>
        match Resolve(menu, tokens[1..])
        case None => None
        case Some(rest) => Some(Selected(menu, id) + rest)
  }

  /** Resolution works token by token: resolving a concatenation concatenates the items. */
  lemma {:induction false} ResolveAppend(menu: seq<MenuItem>, a: seq<Option<int32>>, b: seq<Option<int32>>)
    ensures Resolve(menu, a + b) ==
      if Resolve(menu, a).Some? && Resolve(menu, b).Some?
      then Some(Resolve(menu, a).value + Resolve(menu, b).value)
      else None
    decreases |a|
  {
    if a != [] {
      assert (a + b)[0] == a[0] && (a + b)[1..] == a[1..] + b;
      ResolveAppend(menu, a[1..], b);
      if a[0].Some? && Resolve(menu, a[1..]).Some? && Resolve(menu, b).Some? {
        var s := Selected(menu, a[0].value);
        assert s + (Resolve(menu, a[1..]).value + Resolve(menu, b).value)
            == (s + Resolve(menu, a[1..]).value) + Resolve(menu, b).value;
      }
    } else {
      assert a + b == b;
      assert Resolve(menu, a) == Some([]);
      if Resolve(menu, b).Some? {
        var none: seq<MenuItem> := [];
        assert none + Resolve(menu, b).value == Resolve(menu, b).value;
      }
    }
  }

  /** A single id yields its first menu entry, or nothing when the catalog lacks it. */
  lemma ResolveSingle(menu: seq<MenuItem>, id: int32)
    ensures Resolve(menu, [Some(id)]) == Some(Selected(menu, id))
    ensures |Selected(menu, id)| <= 1
  {
    assert [Some(id)][1..] == [];
    assert Resolve(menu, []) == Some([]);
    assert Selected(menu, id) + [] == Selected(menu, id);
  }

  /** Resolving one more token extends the items of the prefix, or fails on a non-integer. */
  lemma ResolveStep(menu: seq<MenuItem>, prefix: seq<Option<int32>>, token: Option<int32>)
    ensures Resolve(menu, prefix + [token]) ==
      if Resolve(menu, prefix).Some? && token.Some?
      then Some(Resolve(menu, prefix).value + Selected(menu, token.value))
      else None
  {
    ResolveAppend(menu, prefix, [token]);
    if token.Some? {
      ResolveSingle(menu, token.value);
    }
  }

  /** `ResolveStep` for the prefixes a left-to-right loop over `tokens` visits. */
  lemma ResolvePrefixStep(menu: seq<MenuItem>, tokens: seq<Option<int32>>, i: nat)
    requires i < |tokens|
    ensures Resolve(menu, tokens[..i + 1]) ==
      if Resolve(menu, tokens[..i]).Some? && tokens[i].Some?
      then Some(Resolve(menu, tokens[..i]).value + Selected(menu, tokens[i].value))
      else None
  {
    assert tokens[..i + 1] == tokens[..i] + [tokens[i]];
    ResolveStep(menu, tokens[..i], tokens[i]);
  }

  /** Once a prefix fails to resolve, so does every extension of it. */
  lemma ResolveFailureSticks(menu: seq<MenuItem>, prefix: seq<Option<int32>>, rest: seq<Option<int32>>)
    requires Resolve(menu, prefix).None?
    ensures Resolve(menu, prefix + rest).None?
  {
    ResolveAppend(menu, prefix, rest);
  }

  /** Resolution fails exactly when some token is not an integer. */
  lemma {:induction false} ResolveFailsIff(menu: seq<MenuItem>, tokens: seq<Option<int32>>)
    ensures Resolve(menu, tokens).None? <==> exists i :: 0 <= i < |tokens| && tokens[i].None?
    decreases |tokens|
  {
    if tokens != [] {
      ResolveFailsIff(menu, tokens[1..]);
      if exists i :: 0 <= i < |tokens[1..]| && tokens[1..][i].None? {
        var i :| 0 <= i < |tokens[1..]| && tokens[1..][i].None?;
        assert tokens[i + 1].None?;
      }
      if exists i :: 0 <= i < |tokens| && tokens[i].None? {
        var i :| 0 <= i < |tokens| && tokens[i].None?;
        if i > 0 { assert tokens[1..][i - 1].None?; }
      }
    }
  }

  /** Every selected item is a menu entry, and the first one carrying its id. */
  lemma {:induction false} ResolvedAreFirstEntries(menu: seq<MenuItem>, tokens: seq<Option<int32>>)
    requires Resolve(menu, tokens).Some?
    ensures forall j :: 0 <= j < |Resolve(menu, tokens).value| ==>
      exists k: nat :: FirstWithId(menu, Resolve(menu, tokens).value[j].id, k) && menu[k] == Resolve(menu, tokens).value[j]
    decreases |tokens|
  {
    if tokens != [] {
      ResolvedAreFirstEntries(menu, tokens[1..]);
      var id := tokens[0].value;
      var s: seq<MenuItem> := Selected(menu, id);
      var rest: seq<MenuItem> := Resolve(menu, tokens[1..]).value;
      var all: seq<MenuItem> := Resolve(menu, tokens).value;
      assert all == s + rest;
      forall j | 0 <= j < |all|
        ensures exists k: nat :: FirstWithId(menu, all[j].id, k) && menu[k] == all[j]
      {
        if j < |s| {
          var m := FindMenuItem(menu, id).value;
          var k: nat :| FirstWithId(menu, id, k) && menu[k] == m;
          assert all[j] == s[j] == m;
          assert FirstWithId(menu, all[j].id, k) && menu[k] == all[j];
        } else {
          var k: nat :| FirstWithId(menu, rest[j - |s|].id, k) && menu[k] == rest[j - |s|];
          assert all[j] == rest[j - |s|];
          assert FirstWithId(menu, all[j].id, k) && menu[k] == all[j];
        }
      }
    }
  }

  /** Ids the catalog does not know are dropped: if none resolves, the order is empty. */
  lemma {:induction false} ResolveUnknownIdsDropped(menu: seq<MenuItem>, tokens: seq<Option<int32>>)
    requires forall i :: 0 <= i < |tokens| ==> tokens[i].Some? && FindMenuItem(menu, tokens[i].value).None?
    ensures Resolve(menu, tokens) == Some([])
    ensures Total(Resolve(menu, tokens).value) == 0
    decreases |tokens|
  {
    if tokens != [] {
      ResolveUnknownIdsDropped(menu, tokens[1..]);
      var none: seq<MenuItem> := [];
      assert Selected(menu, tokens[0].value) == none;
      assert none + none == none;
    }
  }

  /**
   * With Tea (id 1, 1.50) and Coffee (id 2, 2.00) on the menu, "1,2" orders
   * both for 3.50, "1,9" orders only Tea, and "1,x" orders nothing.
   */
  lemma TeaAndCoffee(menu: seq<MenuItem>)
    requires menu == [MenuItem(1, "Tea", 150), MenuItem(2, "Coffee", 200)]
    ensures Resolve(menu, [Some(1), Some(2)]) == Some(menu) && Total(menu) == 350
    ensures Resolve(menu, [Some(1), Some(9)]) == Some([menu[0]]) && Total([menu[0]]) == 150
    ensures Resolve(menu, [Some(1), None]) == None
  {
    assert FindMenuItem(menu, 1) == Some(menu[0]);
    assert FindMenuItem(menu, 2) == Some(menu[1]);
    assert FindMenuItem(menu, 9) == None;
    ResolveSingle(menu, 2);
    ResolveSingle(menu, 9);
    assert [Some(1 as int32), Some(2 as int32)][1..] == [Some(2)];
    assert [Some(1 as int32), Some(9 as int32)][1..] == [Some(9)];
    assert [Some(1 as int32), None][1..] == [None];
    assert Resolve(menu, [None]) == None;
    assert Selected(menu, 1) == [menu[0]] && Selected(menu, 2) == [menu[1]] && Selected(menu, 9) == [];
    assert [menu[0]] + [menu[1]] == menu;
    assert [menu[0]] + [] == [menu[0]];
    assert menu[1..] == [menu[1]] && menu[1..][1..] == [];
    assert [menu[0]][1..] == [];
    assert Total(menu[1..][1..]) == 0;
    assert Total(menu[1..]) == 200;
  }

  /** An integer id the catalog lacks, appended to any id list, is dropped silently. */
  lemma ResolveDropsUnknownId(menu: seq<MenuItem>, prefix: seq<Option<int32>>, id: int32)
    requires FindMenuItem(menu, id).None?
    ensures Resolve(menu, prefix + [Some(id)]) == Resolve(menu, prefix)
  {
    ResolveStep(menu, prefix, Some(id));
    if Resolve(menu, prefix).Some? {
      assert Selected(menu, id) == [];
      assert Resolve(menu, prefix).value + [] == Resolve(menu, prefix).value;
    }
  }

  /** An integer id the catalog lacks is dropped silently wherever it stands in the list. */
  lemma ResolveDropsUnknownIdAnywhere(menu: seq<MenuItem>, a: seq<Option<int32>>, id: int32, b: seq<Option<int32>>)
    requires FindMenuItem(menu, id).None?
    ensures Resolve(menu, a + [Some(id)] + b) == Resolve(menu, a + b)
  {
    ResolveDropsUnknownId(menu, a, id);
    ResolveAppend(menu, a + [Some(id)], b);
    ResolveAppend(menu, a, b);
  }

  // ---------------------------------------------------------------- cancellation

  /** `k` is the first ledger position carrying order id `id`: `Lookup.IsFirst` for the test `o.id == id`. */
  ghost predicate FirstWithOrderId(ledger: seq<OrderRecord>, id: int32, k: nat) {
    k < |ledger| && ledger[k].id == id && forall j :: 0 <= j < k ==> ledger[j].id != id
  }

  /** The ledger after the first order carrying `id` is set to `Cancelled`. */
  function CancelFirst(ledger: seq<OrderRecord>, id: int32): (r: seq<OrderRecord>)
    ensures |r| == |ledger|
    ensures forall i :: 0 <= i < |ledger| ==> r[i] == ledger[i] || r[i] == ledger[i].(status := Cancelled)
    decreases |ledger|
  {
    if ledger == [] then []
    else if ledger[0].id == id then [ledger[0].(status := Cancelled)] + ledger[1..]
    else [ledger[0]] + CancelFirst(ledger[1..], id)
  }

  /** Cancelling changes the status of the first match and nothing else, not even later orders with the same id. */
  lemma {:induction false} CancelFirstAt(ledger: seq<OrderRecord>, id: int32, k: nat)
    requires FirstWithOrderId(ledger, id, k)
    ensures CancelFirst(ledger, id) == ledger[k := ledger[k].(status := Cancelled)]
    decreases |ledger|
  {
    if k > 0 {
      assert ledger[0].id != id;
      assert FirstWithOrderId(ledger[1..], id, k - 1);
      CancelFirstAt(ledger[1..], id, k - 1);
      assert [ledger[0]] + ledger[1..][k - 1 := ledger[k].(status := Cancelled)]
          == ledger[k := ledger[k].(status := Cancelled)];
    }
  }

  /** Cancelling an id no order carries leaves the ledger as it was. */
  lemma {:induction false} CancelFirstMissing(ledger: seq<OrderRecord>, id: int32)
    requires forall i :: 0 <= i < |ledger| ==> ledger[i].id != id
    ensures CancelFirst(ledger, id) == ledger
    decreases |ledger|
  {
    if ledger != [] {
      assert ledger[0].id != id;
      CancelFirstMissing(ledger[1..], id);
      assert [ledger[0]] + ledger[1..] == ledger;
    }
  }

  /** Cancelling the same id twice is cancelling it once. */
  lemma {:induction false} CancelFirstIdempotent(ledger: seq<OrderRecord>, id: int32)
    ensures CancelFirst(CancelFirst(ledger, id), id) == CancelFirst(ledger, id)
    decreases |ledger|
  {
    if ledger != [] {
      var once := CancelFirst(ledger, id);
      if ledger[0].id == id {
        assert once[0] == ledger[0].(status := Cancelled) && once[1..] == ledger[1..];
      } else {
        assert once[0] == ledger[0] && once[1..] == CancelFirst(ledger[1..], id);
        CancelFirstIdempotent(ledger[1..], id);
      }
    }
  }

  // ---------------------------------------------------------------- report lookup

  /** `k` is the first report position dated exactly `date`: `Lookup.IsFirst` for the test `c.date == date`. */
  ghost predicate FirstOnDate(reports: seq<CollectionReport>, date: Instant, k: nat) {
    k < |reports| && reports[k].date == date && forall j :: 0 <= j < k ==> reports[j].date != date
  }

  /** The first report whose date equals `date` exactly; never a nearby one. */
  function FindReport(reports: seq<CollectionReport>, date: Instant): (r: Option<CollectionReport>)
    ensures r.None? <==> forall i :: 0 <= i < |reports| ==> reports[i].date != date
    ensures r.Some? ==> r.value.date == date && exists k: nat :: FirstOnDate(reports, date, k) && reports[k] == r.value
  {
    match FirstIndex(reports, (c: CollectionReport) => c.date == date)
    case None => None
    case Some(k) => assert FirstOnDate(reports, date, k); Some(reports[k])
  }
}
