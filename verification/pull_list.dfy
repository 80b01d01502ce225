/** The pull list (`pull_list` in routes/inventory.py): the trailer's Missing and
    Red Tag responses summed per `(item_number, item_name)` and ordered by
    lower-cased item name. */
module PullList {
  import opened Common
  import opened Text
  import opened Records
  import opened ResponseBuilding

  /** One line of the pull list. */
  datatype Row = Row(itemName: string, itemNumber: string, missingQty: int, redtagQty: int)

  /** The grouping key: item number and item name (not the category). */
  type Key = (string, string)

  function KeyOf(r: Response): Key {
    (r.itemNumber, r.itemName)
  }

  function RowKey(row: Row): Key {
    (row.itemNumber, row.itemName)
  }

  /** A response's quantity, with a missing one counted as zero. */
  function QtyOrZero(r: Response): int {
    r.quantity.GetOr(0)
  }

  // ---------------------------------------------------------------------------
  // Reference sums
  // ---------------------------------------------------------------------------

  /** The total quantity of the responses in `rs` with key `k` and status `s`. */
  function SumQty(rs: seq<Response>, k: Key, s: Status): int {
    if rs == [] then 0
    else
      var last := rs[|rs| - 1];
      SumQty(rs[..|rs| - 1], k, s) + (if KeyOf(last) == k && last.status == s then QtyOrZero(last) else 0)
  }

  /** The keys occurring in `rs`. */
  function KeysOf(rs: seq<Response>): set<Key> {
    set i | 0 <= i < |rs| :: KeyOf(rs[i])
  }

  function RowKeys(rows: seq<Row>): set<Key> {
    set i | 0 <= i < |rows| :: RowKey(rows[i])
  }

  predicate KeysUnique(rows: seq<Row>) {
    forall i, j :: 0 <= i < j < |rows| ==> RowKey(rows[i]) != RowKey(rows[j])
  }

  lemma {:induction false} SumQtyAbsent(rs: seq<Response>, k: Key, s: Status)
    requires k !in KeysOf(rs)
    ensures SumQty(rs, k, s) == 0
  {
    if rs != [] {
      var p := rs[..|rs| - 1];
      assert KeysOf(p) <= KeysOf(rs) by {
        forall x | x in KeysOf(p) ensures x in KeysOf(rs) {
          var i :| 0 <= i < |p| && KeyOf(p[i]) == x;
          assert KeyOf(rs[i]) == x;
        }
      }
      assert KeyOf(rs[|rs| - 1]) in KeysOf(rs);
      SumQtyAbsent(p, k, s);
    }
  }

  lemma KeysOfAppend(rs: seq<Response>, r: Response)
    ensures KeysOf(rs + [r]) == KeysOf(rs) + {KeyOf(r)}
  {
    var xs := rs + [r];
    forall x | x in KeysOf(xs) ensures x in KeysOf(rs) + {KeyOf(r)} {
      var i :| 0 <= i < |xs| && KeyOf(xs[i]) == x;
      if i < |rs| { assert xs[i] == rs[i]; }
    }
    forall x | x in KeysOf(rs) ensures x in KeysOf(xs) {
      var i :| 0 <= i < |rs| && KeyOf(rs[i]) == x;
      assert xs[i] == rs[i];
    }
    assert xs[|rs|] == r;
  }

  lemma SumQtyAppend(p: seq<Response>, r: Response, k: Key, s: Status)
    ensures SumQty(p + [r], k, s) == SumQty(p, k, s) + (if KeyOf(r) == k && r.status == s then QtyOrZero(r) else 0)
  {
    var rs := p + [r];
    assert rs[..|rs| - 1] == p && rs[|rs| - 1] == r;
  }

  // ---------------------------------------------------------------------------
  // Aggregation into an insertion-ordered dictionary
  // ---------------------------------------------------------------------------

  /** Position of the row with key `k`, or -1. */
  function IndexOfKey(rows: seq<Row>, k: Key): (i: int)
    ensures -1 <= i < |rows|
    ensures i >= 0 ==> RowKey(rows[i]) == k
    ensures i < 0 ==> k !in RowKeys(rows)
  {
    if rows == [] then -1
    else if RowKey(rows[|rows| - 1]) == k then |rows| - 1
    else
      var i := IndexOfKey(rows[..|rows| - 1], k);
      assert forall j :: 0 <= j < |rows| - 1 ==> rows[..|rows| - 1][j] == rows[j];
      i
  }

  /** Add a response's quantity to the row's total for its status, if the row keeps one. */
  function AddTo(row: Row, r: Response): Row {
    match r.status
    case Missing => row.(missingQty := row.missingQty + QtyOrZero(r))
    case RedTag => row.(redtagQty := row.redtagQty + QtyOrZero(r))
    case Complete => row
  }

  /** One step of the aggregation loop: start a zero row for a new key, then add. */
  function Accumulate(rows: seq<Row>, r: Response): seq<Row> {
    var i := IndexOfKey(rows, KeyOf(r));
    if i >= 0 then rows[i := AddTo(rows[i], r)]
    else rows + [AddTo(Row(r.itemName, r.itemNumber, 0, 0), r)]
  }

  /** The aggregation loop over the flagged responses `rs`: one row per key, in
      order of first appearance, holding the Missing and Red Tag totals of that key. */
  function Aggregate(rs: seq<Response>): (rows: seq<Row>)
    ensures KeysUnique(rows)
    ensures RowKeys(rows) == KeysOf(rs)
    ensures forall i :: 0 <= i < |rows| ==>
              && rows[i].missingQty == SumQty(rs, RowKey(rows[i]), Missing)
              && rows[i].redtagQty == SumQty(rs, RowKey(rows[i]), RedTag)
  {
    if rs == [] then []
    else
      var p := rs[..|rs| - 1];
      var r := rs[|rs| - 1];
      var prev := Aggregate(p);
      AccumulateStep(p, r, prev);
      assert p + [r] == rs;
      Accumulate(prev, r)
  }

  /** The loop body keeps the aggregation's three promises. */
  lemma AccumulateStep(p: seq<Response>, r: Response, prev: seq<Row>)
    requires KeysUnique(prev)
    requires RowKeys(prev) == KeysOf(p)
    requires forall i :: 0 <= i < |prev| ==>
               && prev[i].missingQty == SumQty(p, RowKey(prev[i]), Missing)
               && prev[i].redtagQty == SumQty(p, RowKey(prev[i]), RedTag)
    ensures var rows := Accumulate(prev, r);
            && KeysUnique(rows)
            && RowKeys(rows) == KeysOf(p + [r])
            && forall i :: 0 <= i < |rows| ==>
                 && rows[i].missingQty == SumQty(p + [r], RowKey(rows[i]), Missing)
                 && rows[i].redtagQty == SumQty(p + [r], RowKey(rows[i]), RedTag)
  {
    KeysOfAppend(p, r);
    if IndexOfKey(prev, KeyOf(r)) >= 0 {
      AccumulateExisting(p, r, prev);
    } else {
      AccumulateNew(p, r, prev);
    }
  }

  /** A response whose key already has a row adds its quantity to that row. */
  lemma AccumulateExisting(p: seq<Response>, r: Response, prev: seq<Row>)
    requires KeysUnique(prev)
    requires RowKeys(prev) == KeysOf(p)
    requires forall i :: 0 <= i < |prev| ==>
               && prev[i].missingQty == SumQty(p, RowKey(prev[i]), Missing)
               && prev[i].redtagQty == SumQty(p, RowKey(prev[i]), RedTag)
    requires IndexOfKey(prev, KeyOf(r)) >= 0
    ensures var rows := Accumulate(prev, r);
            && KeysUnique(rows)
            && RowKeys(rows) == RowKeys(prev)
            && forall i :: 0 <= i < |rows| ==>
                 && rows[i].missingQty == SumQty(p + [r], RowKey(rows[i]), Missing)
                 && rows[i].redtagQty == SumQty(p + [r], RowKey(rows[i]), RedTag)
  {
    var rows := Accumulate(prev, r);
    var k := IndexOfKey(prev, KeyOf(r));
    assert rows == prev[k := AddTo(prev[k], r)];
    assert forall i :: 0 <= i < |rows| ==> RowKey(rows[i]) == RowKey(prev[i]);
    assert RowKeys(rows) == RowKeys(prev) by {
      forall x | x in RowKeys(rows) ensures x in RowKeys(prev) {
        var j :| 0 <= j < |rows| && RowKey(rows[j]) == x;
        assert RowKey(prev[j]) == x;
      }
      forall x | x in RowKeys(prev) ensures x in RowKeys(rows) {
        var j :| 0 <= j < |prev| && RowKey(prev[j]) == x;
        assert RowKey(rows[j]) == x;
      }
    }
    forall i | 0 <= i < |rows|
      ensures rows[i].missingQty == SumQty(p + [r], RowKey(rows[i]), Missing)
      ensures rows[i].redtagQty == SumQty(p + [r], RowKey(rows[i]), RedTag)
    {
      SumQtyAppend(p, r, RowKey(rows[i]), Missing);
      SumQtyAppend(p, r, RowKey(rows[i]), RedTag);
    }
  }

  /** A response with a new key opens a row of its own at the end. */
  lemma AccumulateNew(p: seq<Response>, r: Response, prev: seq<Row>)
    requires KeysUnique(prev)
    requires RowKeys(prev) == KeysOf(p)
    requires forall i :: 0 <= i < |prev| ==>
               && prev[i].missingQty == SumQty(p, RowKey(prev[i]), Missing)
               && prev[i].redtagQty == SumQty(p, RowKey(prev[i]), RedTag)
    requires IndexOfKey(prev, KeyOf(r)) < 0
    ensures var rows := Accumulate(prev, r);
            && KeysUnique(rows)
            && RowKeys(rows) == RowKeys(prev) + {KeyOf(r)}
            && forall i :: 0 <= i < |rows| ==>
                 && rows[i].missingQty == SumQty(p + [r], RowKey(rows[i]), Missing)
                 && rows[i].redtagQty == SumQty(p + [r], RowKey(rows[i]), RedTag)
  {
    var newRow := AddTo(Row(r.itemName, r.itemNumber, 0, 0), r);
    var rows := Accumulate(prev, r);
    assert rows == prev + [newRow];
    assert KeyOf(r) !in KeysOf(p);
    SumQtyAbsent(p, KeyOf(r), Missing);
    SumQtyAbsent(p, KeyOf(r), RedTag);
    assert RowKeys(rows) == RowKeys(prev) + {KeyOf(r)} by {
      forall x | x in RowKeys(rows) ensures x in RowKeys(prev) + {KeyOf(r)} {
        var j :| 0 <= j < |rows| && RowKey(rows[j]) == x;
        if j < |prev| { assert rows[j] == prev[j]; }
      }
      forall x | x in RowKeys(prev) ensures x in RowKeys(rows) {
        var j :| 0 <= j < |prev| && RowKey(prev[j]) == x;
        assert rows[j] == prev[j];
      }
      assert rows[|prev|] == newRow;
    }
    forall j | 0 <= j < |prev| ensures RowKey(prev[j]) != KeyOf(r) {
      assert RowKey(prev[j]) in RowKeys(prev);
    }
    forall i | 0 <= i < |rows|
      ensures rows[i].missingQty == SumQty(p + [r], RowKey(rows[i]), Missing)
      ensures rows[i].redtagQty == SumQty(p + [r], RowKey(rows[i]), RedTag)
    {
      SumQtyAppend(p, r, RowKey(rows[i]), Missing);
      SumQtyAppend(p, r, RowKey(rows[i]), RedTag);
      if i < |prev| { assert rows[i] == prev[i]; }
    }
  }

  // ---------------------------------------------------------------------------
  // Order of first appearance
  // ---------------------------------------------------------------------------

  /** The position of the first response of `rs` with key `k`, or `|rs|` when
      there is none. */
  function FirstIndex(rs: seq<Response>, k: Key): (i: nat)
    ensures i <= |rs|
    ensures i < |rs| ==> KeyOf(rs[i]) == k
    ensures forall j :: 0 <= j < i ==> KeyOf(rs[j]) != k
    ensures i == |rs| <==> k !in KeysOf(rs)
  {
    if rs == [] then 0
    else
      var p := rs[..|rs| - 1];
      var i := FirstIndex(p, k);
      assert forall j :: 0 <= j < |p| ==> rs[j] == p[j];
      assert KeysOf(rs) == KeysOf(p) + {KeyOf(rs[|rs| - 1])} by {
        assert rs == p + [rs[|rs| - 1]];
        KeysOfAppend(p, rs[|rs| - 1]);
      }
      if i < |p| then i else if KeyOf(rs[|rs| - 1]) == k then |p| else |rs|
  }

  /** The rows come in the order in which their keys first occur in `rs`. */
  ghost predicate FirstAppearanceOrder(rows: seq<Row>, rs: seq<Response>) {
    forall i, j :: 0 <= i < j < |rows| ==> FirstIndex(rs, RowKey(rows[i])) < FirstIndex(rs, RowKey(rows[j]))
  }

  /** Appending a response moves no key's first occurrence. */
  lemma FirstIndexAppend(p: seq<Response>, r: Response, k: Key)
    requires k in KeysOf(p)
    ensures FirstIndex(p + [r], k) == FirstIndex(p, k)
  {
    assert (p + [r])[..|p|] == p;
  }

  /** The aggregation opens rows in order of first appearance: a row comes
      before another exactly when its key occurs first in the responses. */
  lemma {:induction false} AggregateFirstAppearance(rs: seq<Response>)
    ensures FirstAppearanceOrder(Aggregate(rs), rs)
  {
    if rs != [] {
      var p := rs[..|rs| - 1];
      var r := rs[|rs| - 1];
      assert p + [r] == rs;
      assert Aggregate(rs) == Accumulate(Aggregate(p), r);
      AggregateFirstAppearance(p);
      AppearanceStep(p, r, Aggregate(p));
    }
  }

  /** The loop body keeps the rows in order of first appearance. */
  lemma AppearanceStep(p: seq<Response>, r: Response, prev: seq<Row>)
    requires RowKeys(prev) == KeysOf(p)
    requires FirstAppearanceOrder(prev, p)
    ensures FirstAppearanceOrder(Accumulate(prev, r), p + [r])
  {
    if IndexOfKey(prev, KeyOf(r)) >= 0 {
      AppearanceExisting(p, r, prev);
    } else {
      AppearanceNew(p, r, prev);
    }
  }

  /** Every open row's key first occurs inside `p`, and appending a response
      does not move that position. */
  lemma FirstIndicesKept(p: seq<Response>, r: Response, prev: seq<Row>, x: nat)
    requires RowKeys(prev) == KeysOf(p)
    requires x < |prev|
    ensures FirstIndex(p + [r], RowKey(prev[x])) == FirstIndex(p, RowKey(prev[x]))
    ensures FirstIndex(p, RowKey(prev[x])) < |p|
  {
    assert RowKey(prev[x]) in RowKeys(prev);
    FirstIndexAppend(p, r, RowKey(prev[x]));
  }

  /** A response whose key has a row changes no row's key. */
  lemma AppearanceExisting(p: seq<Response>, r: Response, prev: seq<Row>)
    requires RowKeys(prev) == KeysOf(p)
    requires IndexOfKey(prev, KeyOf(r)) >= 0
    requires FirstAppearanceOrder(prev, p)
    ensures FirstAppearanceOrder(Accumulate(prev, r), p + [r])
  {
    var rows := Accumulate(prev, r);
    var k := IndexOfKey(prev, KeyOf(r));
    assert rows == prev[k := AddTo(prev[k], r)];
    forall x, y | 0 <= x < y < |rows|
      ensures FirstIndex(p + [r], RowKey(rows[x])) < FirstIndex(p + [r], RowKey(rows[y]))
    {
      assert RowKey(rows[x]) == RowKey(prev[x]) && RowKey(rows[y]) == RowKey(prev[y]);
      FirstIndicesKept(p, r, prev, x);
      FirstIndicesKept(p, r, prev, y);
    }
  }

  /** A response with a new key opens a row at the end, and its key first occurs last. */
  lemma AppearanceNew(p: seq<Response>, r: Response, prev: seq<Row>)
    requires RowKeys(prev) == KeysOf(p)
    requires IndexOfKey(prev, KeyOf(r)) < 0
    requires FirstAppearanceOrder(prev, p)
    ensures FirstAppearanceOrder(Accumulate(prev, r), p + [r])
  {
    var rows := Accumulate(prev, r);
    assert rows == prev + [AddTo(Row(r.itemName, r.itemNumber, 0, 0), r)];
    assert KeyOf(r) !in KeysOf(p);
    assert (p + [r])[..|p|] == p;
    var last := FirstIndex(p + [r], KeyOf(r));
    assert last == |p|;
    forall x, y | 0 <= x < y < |rows|
      ensures FirstIndex(p + [r], RowKey(rows[x])) < FirstIndex(p + [r], RowKey(rows[y]))
    {
      assert rows[x] == prev[x];
      FirstIndicesKept(p, r, prev, x);
      if y < |prev| {
        assert rows[y] == prev[y];
        FirstIndicesKept(p, r, prev, y);
      } else {
        assert RowKey(rows[y]) == KeyOf(r);
      }
    }
  }

  // ---------------------------------------------------------------------------
  // Stable sort by lower-cased item name
  // ---------------------------------------------------------------------------

  /** The sort key of a row: its item name, lower-cased. */
  function SortKey(row: Row): string {
    Lower(row.itemName)
  }

  predicate Sorted(rows: seq<Row>) {
    forall i, j :: 0 <= i < j < |rows| ==> LexLe(SortKey(rows[i]), SortKey(rows[j]))
  }

  /** Inserts `x` in front of the first row whose key is not below its own. */
  function Insert(x: Row, ys: seq<Row>): seq<Row> {
    if ys == [] then [x]
    else if LexLe(SortKey(x), SortKey(ys[0])) then [x] + ys
    else [ys[0]] + Insert(x, ys[1..])
  }

  lemma {:induction false} InsertPermutes(x: Row, ys: seq<Row>)
    ensures multiset(Insert(x, ys)) == multiset(ys) + multiset{x}
  {
    if ys == [] {
      assert Insert(x, ys) == [x];
    } else if LexLe(SortKey(x), SortKey(ys[0])) {
      assert Insert(x, ys) == [x] + ys;
    } else {
      InsertPermutes(x, ys[1..]);
      assert Insert(x, ys) == [ys[0]] + Insert(x, ys[1..]);
      assert ys == [ys[0]] + ys[1..];
    }
  }

  /** Every row of `rows` sorts no earlier than key `b`. */
  predicate AllFrom(b: string, rows: seq<Row>) {
    forall j :: 0 <= j < |rows| ==> LexLe(b, SortKey(rows[j]))
  }

  /** A sorted sequence stays sorted when a row no later than all of it is put in front. */
  lemma ConsSorted(y: Row, ys: seq<Row>)
    requires Sorted(ys) && AllFrom(SortKey(y), ys)
    ensures Sorted([y] + ys)
  {
    var r := [y] + ys;
    forall i, j | 0 <= i < j < |r| ensures LexLe(SortKey(r[i]), SortKey(r[j])) {
      if i == 0 {
        assert r[j] == ys[j - 1];
      } else {
        assert r[i] == ys[i - 1] && r[j] == ys[j - 1];
      }
    }
  }

  lemma SortedTail(ys: seq<Row>)
    requires Sorted(ys) && ys != []
    ensures Sorted(ys[1..]) && AllFrom(SortKey(ys[0]), ys[1..])
  {
    var tail := ys[1..];
    forall i, j | 0 <= i < j < |tail| ensures LexLe(SortKey(tail[i]), SortKey(tail[j])) {
      assert tail[i] == ys[i + 1] && tail[j] == ys[j + 1];
    }
    forall j | 0 <= j < |tail| ensures LexLe(SortKey(ys[0]), SortKey(tail[j])) {
      assert tail[j] == ys[j + 1];
    }
  }

  lemma {:induction false} InsertSorted(x: Row, ys: seq<Row>)
    requires Sorted(ys)
    ensures Sorted(Insert(x, ys))
  {
    if ys == [] {
    } else if LexLe(SortKey(x), SortKey(ys[0])) {
      SortedTail(ys);
      forall j | 0 <= j < |ys| ensures LexLe(SortKey(x), SortKey(ys[j])) {
        if j > 0 { LexLeTransitive(SortKey(x), SortKey(ys[0]), SortKey(ys[j])); }
      }
      ConsSorted(x, ys);
    } else {
      LexLeTotal(SortKey(x), SortKey(ys[0]));
      var tail := ys[1..];
      SortedTail(ys);
      InsertSorted(x, tail);
      InsertStaysFrom(SortKey(ys[0]), x, tail);
      ConsSorted(ys[0], Insert(x, tail));
    }
  }

  /** Inserting a row at or after key `b` into rows at or after `b` keeps them so. */
  lemma InsertStaysFrom(b: string, x: Row, ys: seq<Row>)
    requires LexLe(b, SortKey(x)) && AllFrom(b, ys)
    ensures AllFrom(b, Insert(x, ys))
  {
    var rest := Insert(x, ys);
    InsertPermutes(x, ys);
    forall j | 0 <= j < |rest| ensures LexLe(b, SortKey(rest[j])) {
      assert rest[j] in multiset(rest);
      if rest[j] != x {
        assert rest[j] in multiset(ys);
        var m :| 0 <= m < |ys| && ys[m] == rest[j];
      }
    }
  }

  /** A stable sort of the rows by lower-cased item name. */
  function SortRows(rows: seq<Row>): (r: seq<Row>)
    ensures Sorted(r)
    ensures multiset(r) == multiset(rows)
  {
    if rows == [] then []
    else
      var x := rows[0];
      var tail := rows[1..];
      var rest := SortRows(tail);
      InsertSorted(x, rest);
      InsertPermutes(x, rest);
      assert multiset(rows) == multiset(tail) + multiset{x} by {
        assert rows == [x] + tail;
      }
      Insert(x, rest)
  }

  /** The rows of `rows` whose sort key is `k`, in order. */
  function WithKey(rows: seq<Row>, k: string): seq<Row> {
    if rows == [] then []
    else (if SortKey(rows[0]) == k then [rows[0]] else []) + WithKey(rows[1..], k)
  }

  lemma WithKeyCons(y: Row, ys: seq<Row>, k: string)
    ensures WithKey([y] + ys, k) == (if SortKey(y) == k then [y] else []) + WithKey(ys, k)
  {
    assert ([y] + ys)[0] == y && ([y] + ys)[1..] == ys;
  }

  lemma {:induction false} InsertWithKey(x: Row, ys: seq<Row>, k: string)
    requires Sorted(ys)
    ensures WithKey(Insert(x, ys), k) == (if SortKey(x) == k then [x] else []) + WithKey(ys, k)
  {
    if ys == [] || LexLe(SortKey(x), SortKey(ys[0])) {
      assert Insert(x, ys) == [x] + ys;
      WithKeyCons(x, ys, k);
    } else {
      var tail := ys[1..];
      SortedTail(ys);
      InsertWithKey(x, tail, k);
      assert ys == [ys[0]] + tail;
      assert Insert(x, ys) == [ys[0]] + Insert(x, tail);
      WithKeyCons(ys[0], tail, k);
      WithKeyCons(ys[0], Insert(x, tail), k);
      LexLeReflexive(SortKey(x));
      assert SortKey(ys[0]) != SortKey(x);
    }
  }

  /** The sort is stable: rows whose lower-cased names coincide keep their relative order. */
  lemma {:induction false} SortRowsStable(rows: seq<Row>, k: string)
    ensures WithKey(SortRows(rows), k) == WithKey(rows, k)
  {
    if rows != [] {
      SortRowsStable(rows[1..], k);
      InsertWithKey(rows[0], SortRows(rows[1..]), k);
    }
  }

  lemma {:induction false} WithKeyMembers(rows: seq<Row>, k: string)
    ensures forall x :: x in WithKey(rows, k) ==> x in rows
  {
    if rows != [] {
      WithKeyMembers(rows[1..], k);
      assert forall x :: x in rows[1..] ==> x in rows;
    }
  }

  /** Picking out the rows of one sort key keeps rows in first-appearance order. */
  lemma {:induction false} WithKeyKeepsOrder(rows: seq<Row>, k: string, rs: seq<Response>)
    requires FirstAppearanceOrder(rows, rs)
    ensures FirstAppearanceOrder(WithKey(rows, k), rs)
  {
    if rows != [] {
      var tail := rows[1..];
      assert FirstAppearanceOrder(tail, rs) by {
        forall i, j | 0 <= i < j < |tail|
          ensures FirstIndex(rs, RowKey(tail[i])) < FirstIndex(rs, RowKey(tail[j]))
        {
          assert tail[i] == rows[i + 1] && tail[j] == rows[j + 1];
        }
      }
      WithKeyKeepsOrder(tail, k, rs);
      WithKeyMembers(tail, k);
      var w := WithKey(tail, k);
      if SortKey(rows[0]) == k {
        var all := [rows[0]] + w;
        assert WithKey(rows, k) == all;
        forall i, j | 0 <= i < j < |all|
          ensures FirstIndex(rs, RowKey(all[i])) < FirstIndex(rs, RowKey(all[j]))
        {
          assert all[j] == w[j - 1];
          if i == 0 {
            assert w[j - 1] in tail;
            var m :| 0 <= m < |tail| && tail[m] == w[j - 1];
            assert rows[m + 1] == tail[m];
          } else {
            assert all[i] == w[i - 1];
          }
        }
      } else {
        assert WithKey(rows, k) == w;
      }
    }
  }

  lemma RowKeysCons(y: Row, ys: seq<Row>)
    ensures RowKeys([y] + ys) == {RowKey(y)} + RowKeys(ys)
  {
    var r := [y] + ys;
    forall k | k in RowKeys(r) ensures k in {RowKey(y)} + RowKeys(ys) {
      var i :| 0 <= i < |r| && RowKey(r[i]) == k;
      if i > 0 { assert r[i] == ys[i - 1]; }
    }
    forall k | k in RowKeys(ys) ensures k in RowKeys(r) {
      var i :| 0 <= i < |ys| && RowKey(ys[i]) == k;
      assert r[i + 1] == ys[i];
    }
    assert RowKey(r[0]) in RowKeys(r);
  }

  lemma KeysUniqueCons(y: Row, ys: seq<Row>)
    ensures KeysUnique([y] + ys) <==> KeysUnique(ys) && RowKey(y) !in RowKeys(ys)
  {
    var r := [y] + ys;
    if KeysUnique(ys) && RowKey(y) !in RowKeys(ys) {
      forall i, j | 0 <= i < j < |r| ensures RowKey(r[i]) != RowKey(r[j]) {
        assert r[j] == ys[j - 1];
        if i == 0 {
          assert r[0] == y && RowKey(ys[j - 1]) in RowKeys(ys);
        } else {
          assert r[i] == ys[i - 1];
        }
      }
    }
    if KeysUnique(r) {
      forall i, j | 0 <= i < j < |ys| ensures RowKey(ys[i]) != RowKey(ys[j]) {
        assert r[i + 1] == ys[i] && r[j + 1] == ys[j];
      }
      forall k | k in RowKeys(ys) ensures k != RowKey(y) {
        var i :| 0 <= i < |ys| && RowKey(ys[i]) == k;
        assert r[0] == y && r[i + 1] == ys[i];
        assert RowKey(r[0]) != RowKey(r[i + 1]);
      }
    }
  }

  lemma {:induction false} InsertKeepsKeys(x: Row, ys: seq<Row>)
    requires KeysUnique(ys) && RowKey(x) !in RowKeys(ys)
    ensures KeysUnique(Insert(x, ys))
    ensures RowKeys(Insert(x, ys)) == RowKeys(ys) + {RowKey(x)}
  {
    if ys == [] || LexLe(SortKey(x), SortKey(ys[0])) {
      assert Insert(x, ys) == [x] + ys;
      RowKeysCons(x, ys);
      KeysUniqueCons(x, ys);
    } else {
      var tail := ys[1..];
      assert ys == [ys[0]] + tail;
      RowKeysCons(ys[0], tail);
      KeysUniqueCons(ys[0], tail);
      InsertKeepsKeys(x, tail);
      var rest := Insert(x, tail);
      assert Insert(x, ys) == [ys[0]] + rest;
      RowKeysCons(ys[0], rest);
      KeysUniqueCons(ys[0], rest);
    }
  }

  lemma {:induction false} SortRowsKeepsKeys(rows: seq<Row>)
    requires KeysUnique(rows)
    ensures KeysUnique(SortRows(rows)) && RowKeys(SortRows(rows)) == RowKeys(rows)
  {
    if rows != [] {
      var tail := rows[1..];
      assert rows == [rows[0]] + tail;
      RowKeysCons(rows[0], tail);
      KeysUniqueCons(rows[0], tail);
      SortRowsKeepsKeys(tail);
      InsertKeepsKeys(rows[0], SortRows(tail));
    }
  }

  // ---------------------------------------------------------------------------
  // The pull list
  // ---------------------------------------------------------------------------

  /** The pull list of a trailer whose ledger holds `ledger`. */
  function PullRows(ledger: seq<Response>): seq<Row> {
    SortRows(Aggregate(Flagged(ledger)))
  }

  /** Filtering out Complete responses changes neither Missing nor Red Tag totals. */
  lemma {:induction false} SumQtyFlagged(rs: seq<Response>, k: Key, s: Status)
    requires s.IsFlagged()
    ensures SumQty(Flagged(rs), k, s) == SumQty(rs, k, s)
  {
    if rs != [] {
      var p := rs[..|rs| - 1];
      var last := rs[|rs| - 1];
      assert rs == p + [last];
      SumQtyFlagged(p, k, s);
      FlaggedAppend(p, last);
      SumQtyAppend(p, last, k, s);
      if last.status.IsFlagged() {
        SumQtyAppend(Flagged(p), last, k, s);
      } else {
        assert Flagged(p) + [] == Flagged(p);
      }
    }
  }

  /** The keys of the flagged responses of a ledger. */
  function FlaggedKeys(ledger: seq<Response>): set<Key> {
    set i | 0 <= i < |ledger| && ledger[i].status.IsFlagged() :: KeyOf(ledger[i])
  }

  lemma FlaggedKeysOf(ledger: seq<Response>)
    ensures KeysOf(Flagged(ledger)) == FlaggedKeys(ledger)
  {
    var fs := Flagged(ledger);
    forall x | x in KeysOf(fs) ensures x in FlaggedKeys(ledger) {
      var i :| 0 <= i < |fs| && KeyOf(fs[i]) == x;
      assert fs[i] in fs;
      var j :| 0 <= j < |ledger| && ledger[j] == fs[i];
    }
    forall x | x in FlaggedKeys(ledger) ensures x in KeysOf(fs) {
      var j :| 0 <= j < |ledger| && ledger[j].status.IsFlagged() && KeyOf(ledger[j]) == x;
      assert ledger[j] in fs;
      var i :| 0 <= i < |fs| && fs[i] == ledger[j];
    }
  }

  /** The pull list has exactly one row per `(item_number, item_name)` of a Missing
      or Red Tag response, and each row's totals are the summed quantities of that
      key's Missing and of its Red Tag responses (a null quantity counting 0);
      Complete responses contribute nothing. */
  lemma PullRowsContents(ledger: seq<Response>)
    ensures var rows := PullRows(ledger);
            && KeysUnique(rows)
            && RowKeys(rows) == FlaggedKeys(ledger)
            && forall i :: 0 <= i < |rows| ==>
                 && rows[i].missingQty == SumQty(ledger, RowKey(rows[i]), Missing)
                 && rows[i].redtagQty == SumQty(ledger, RowKey(rows[i]), RedTag)
  {
    var fs := Flagged(ledger);
    var agg := Aggregate(fs);
    var rows := SortRows(agg);
    SortRowsKeepsKeys(agg);
    FlaggedKeysOf(ledger);
    forall i | 0 <= i < |rows|
      ensures rows[i].missingQty == SumQty(ledger, RowKey(rows[i]), Missing)
      ensures rows[i].redtagQty == SumQty(ledger, RowKey(rows[i]), RedTag)
    {
      assert rows[i] in multiset(agg);
      var j :| 0 <= j < |agg| && agg[j] == rows[i];
      SumQtyFlagged(ledger, RowKey(rows[i]), Missing);
      SumQtyFlagged(ledger, RowKey(rows[i]), RedTag);
    }
  }

  /** Pull-list rows are ordered by lower-cased item name, and rows whose lowered
      names coincide stay in first-appearance order. */
  lemma PullRowsOrdered(ledger: seq<Response>, k: string)
    ensures Sorted(PullRows(ledger))
    ensures WithKey(PullRows(ledger), k) == WithKey(Aggregate(Flagged(ledger)), k)
    ensures FirstAppearanceOrder(WithKey(PullRows(ledger), k), Flagged(ledger))
  {
    SortRowsStable(Aggregate(Flagged(ledger)), k);
    AggregateFirstAppearance(Flagged(ledger));
    WithKeyKeepsOrder(Aggregate(Flagged(ledger)), k, Flagged(ledger));
  }

  /** Adding a Complete response to the ledger leaves the pull list unchanged. */
  lemma PullRowsIgnoreComplete(ledger: seq<Response>, r: Response)
    requires r.status == Complete
    ensures PullRows(ledger + [r]) == PullRows(ledger)
  {
    FlaggedAppend(ledger, r);
    assert Flagged(ledger) + [] == Flagged(ledger);
    assert Flagged(ledger + [r]) == Flagged(ledger);
  }
}
