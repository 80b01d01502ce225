/** Parsing the extra-tooling ("credit-back") rows a trailer form posts, in the
    two dialects the source uses: the padded four-column rows of
    routes/trailer_assignment.py and the zipped three-column rows of
    `add_trailer` / `edit_trailer` in routes/inventory.py. */
module ExtraRows {
  import opened Common
  import opened Text
  import opened Forms
  import opened Records

  // ---------------------------------------------------------------------------
  // trailer_assignment.py: padded rows with `item_name` / `item_number` keys
  // ---------------------------------------------------------------------------

  /** The four parallel columns of posted extra rows. */
  datatype Columns = Columns(names: seq<string>, numbers: seq<string>, quantities: seq<string>, categories: seq<string>)

  /** The values posted for column `field`, under the `extra_tooling_items[][field]`
      spelling if any were posted that way, else under `extra_tooling_items[field][]`
      (routes/trailer_assignment.py:32-35). */
  function ColumnValues(raw: Form, field: string): seq<string> {
    var a := GetList(raw, "extra_tooling_items[][" + field + "]");
    if |a| > 0 then a else GetList(raw, "extra_tooling_items[" + field + "][]")
  }

  function PostedColumns(raw: Form): Columns {
    Columns(ColumnValues(raw, "item_name"), ColumnValues(raw, "item_number"),
            ColumnValues(raw, "quantity"), ColumnValues(raw, "category"))
  }

  function Max(a: nat, b: nat): nat {
    if a < b then b else a
  }

  /** The length of the longest of the four columns (routes/trailer_assignment.py:37). */
  function Width(c: Columns): nat {
    Max(Max(|c.names|, |c.numbers|), Max(|c.quantities|, |c.categories|))
  }

  /** Entry `i` of a column, or blank past its end: short columns read as padded. */
  function At(xs: seq<string>, i: nat): string {
    if i < |xs| then xs[i] else ""
  }

  /** The quantity of row `i`: `int()` of the posted text when that succeeds, and 0
      when the text is blank, absent or not an integer. */
  function RowQuantity(c: Columns, i: nat): (q: int)
    ensures i < |c.quantities| && PyInt(c.quantities[i]).Some? ==> q == PyInt(c.quantities[i]).value
    ensures i >= |c.quantities| || PyInt(c.quantities[i]).None? ==> q == 0
  {
    if i < |c.quantities| && Strip(c.quantities[i]) != "" then
      match PyInt(c.quantities[i])
      case Some(v) => v
      case None => 0
    else 0
  }

  /** Row `i` as stored: category `Extra Tooling` when the posted one is blank. */
  function RowAt(c: Columns, i: nat): ExtraItem {
    var cat := At(c.categories, i);
    ItemKeys(At(c.names, i), At(c.numbers, i), RowQuantity(c, i), if cat != "" then cat else ExtraToolingCategory)
  }

  /** `if name or num`: a row is kept when it has a name or a number. */
  predicate Kept(x: ExtraItem) {
    x.ItemKeys? && (x.itemName != "" || x.itemNumber != "")
  }

  /** Every index `0 .. Width-1` read as a row, blanks included. */
  function PaddedRows(c: Columns): seq<ExtraItem> {
    seq(Width(c), i requires 0 <= i < Width(c) => RowAt(c, i))
  }

  /** The kept rows of `xs`, in order. */
  function KeptRows(xs: seq<ExtraItem>): (rows: seq<ExtraItem>)
    ensures |rows| <= |xs|
    ensures forall x :: x in rows <==> x in xs && Kept(x)
  {
    if xs == [] then []
    else KeptRows(xs[..|xs| - 1]) + (if Kept(xs[|xs| - 1]) then [xs[|xs| - 1]] else [])
  }

  /** The kept rows of a concatenation are the kept rows of each part, in order:
      every kept row appears as often as it was posted, and in posting order. */
  lemma {:induction false} KeptRowsAppend(xs: seq<ExtraItem>, ys: seq<ExtraItem>)
    ensures KeptRows(xs + ys) == KeptRows(xs) + KeptRows(ys)
  {
    if ys != [] {
      var p := ys[..|ys| - 1];
      var y := ys[|ys| - 1];
      assert (xs + ys)[..|xs + ys| - 1] == xs + p;
      KeptRowsAppend(xs, p);
    } else {
      assert xs + ys == xs;
    }
  }

  /** Each row occurs among the kept rows exactly as many times as among all
      rows when it is kept, and not at all otherwise. */
  lemma {:induction false} KeptRowsCount(xs: seq<ExtraItem>, x: ExtraItem)
    ensures multiset(KeptRows(xs))[x] == if Kept(x) then multiset(xs)[x] else 0
  {
    if xs != [] {
      var p := xs[..|xs| - 1];
      var y := xs[|xs| - 1];
      assert xs == p + [y];
      KeptRowsCount(p, x);
    }
  }

  /** The rows `assign_trailer`, `update_trailer_post` and `trailer_update` build. */
  function ParseRows(c: Columns): seq<ExtraItem> {
    KeptRows(PaddedRows(c))
  }

  /** A row position is kept exactly when its name or its number is non-blank;
      every kept row carries a non-blank category. */
  lemma ParseRowsMembers(c: Columns)
    ensures forall i :: 0 <= i < Width(c) ==>
              (RowAt(c, i) in ParseRows(c) <== At(c.names, i) != "" || At(c.numbers, i) != "")
    ensures forall x :: x in ParseRows(c) ==>
              x.ItemKeys? && (x.itemName != "" || x.itemNumber != "") && x.category != ""
              && exists i :: 0 <= i < Width(c) && RowAt(c, i) == x
  {
    var xs := PaddedRows(c);
    assert |xs| == Width(c) && forall i :: 0 <= i < Width(c) ==> xs[i] == RowAt(c, i);
    forall x | x in ParseRows(c)
      ensures x.category != "" && exists i :: 0 <= i < Width(c) && RowAt(c, i) == x
    {
      var i :| 0 <= i < |xs| && xs[i] == x;
    }
  }

  /** Every parsed row has a name or a number, and a non-blank category. */
  lemma ParseRowsKept(c: Columns)
    ensures forall x :: x in ParseRows(c) ==> Kept(x) && x.category != ""
  {
    ParseRowsMembers(c);
  }

  /** Kept rows preserve input order: the kept rows of a prefix of the positions
      are a prefix of the kept rows of all of them. */
  lemma {:induction false} KeptRowsPrefix(xs: seq<ExtraItem>, m: nat)
    requires m <= |xs|
    ensures KeptRows(xs[..m]) <= KeptRows(xs)
  {
    if m < |xs| {
      var p := xs[..|xs| - 1];
      assert p[..m] == xs[..m];
      KeptRowsPrefix(p, m);
    } else {
      assert xs[..m] == xs;
    }
  }

  /** Columns padded with blank entries up to `n`. */
  function PadTo(xs: seq<string>, n: nat): (r: seq<string>)
    ensures |r| == if |xs| < n then n else |xs|
    ensures forall i :: 0 <= i < |r| ==> r[i] == At(xs, i)
  {
    if |xs| < n then xs + seq(n - |xs|, _ => "") else xs
  }

  function Padded(c: Columns): Columns {
    var w := Width(c);
    Columns(PadTo(c.names, w), PadTo(c.numbers, w), PadTo(c.quantities, w), PadTo(c.categories, w))
  }

  /** A missing entry of a short column reads exactly like a blank one: padding
      every column with blanks to the same length yields the same rows. */
  lemma PaddedRowsPadInvariant(c: Columns)
    ensures Width(Padded(c)) == Width(c)
    ensures PaddedRows(Padded(c)) == PaddedRows(c)
  {
    var d := Padded(c);
    assert Width(d) == Width(c);
    forall i | 0 <= i < Width(c) ensures RowAt(d, i) == RowAt(c, i) {
      assert At(d.names, i) == At(c.names, i);
      assert At(d.numbers, i) == At(c.numbers, i);
      assert At(d.categories, i) == At(c.categories, i);
      assert Strip("") == "";
      assert RowQuantity(d, i) == RowQuantity(c, i);
    }
  }

  /** Beyond the longest column every position is blank, so scanning further adds
      nothing: `Width` is exactly as far as the loop needs to go. */
  lemma BlankBeyondWidth(c: Columns, i: nat)
    requires i >= Width(c)
    ensures !Kept(RowAt(c, i))
  {
  }

  // ---------------------------------------------------------------------------
  // inventory.py add_trailer / edit_trailer: zipped rows with `name` / `number` keys
  // ---------------------------------------------------------------------------

  function Min3(a: nat, b: nat, c: nat): nat {
    if a <= b && a <= c then a else if b <= c then b else c
  }

  /** A blank quantity means 0; any other text must be an integer literal
      (routes/inventory.py:86). */
  function ZipQuantity(qty: string): Option<int> {
    if qty == "" then Some(0) else PyInt(qty)
  }

  /** One zipped triple, with its quantity text already read by `int()`. */
  datatype Cell = Cell(name: string, number: string, qtyText: string, qty: Option<int>)

  /** The three tool columns taken side by side, stopping at the shortest one. */
  function ZipCells(names: seq<string>, numbers: seq<string>, qtys: seq<string>): seq<Cell> {
    var n := Min3(|names|, |numbers|, |qtys|);
    seq(n, i requires 0 <= i < n => Cell(names[i], numbers[i], qtys[i], ZipQuantity(qtys[i])))
  }

  /** Like Python's `zip`, entries of the longer columns past the shortest one are
      ignored: cutting every column to the shortest length changes nothing. */
  lemma ZipCellsIgnoresExcess(names: seq<string>, numbers: seq<string>, qtys: seq<string>)
    ensures var k := Min3(|names|, |numbers|, |qtys|);
      ZipCells(names, numbers, qtys) == ZipCells(names[..k], numbers[..k], qtys[..k])
  {
  }

  /** Zipping one more row onto columns of equal length appends its cell. */
  lemma ZipCellsAppend(names: seq<string>, numbers: seq<string>, qtys: seq<string>, a: string, b: string, q: string)
    requires |names| == |numbers| == |qtys|
    ensures ZipCells(names + [a], numbers + [b], qtys + [q]) == ZipCells(names, numbers, qtys) + [Cell(a, b, q, ZipQuantity(q))]
  {
  }

  /** `if name and number`: a triple needs both to become an item. */
  predicate ZipKept(c: Cell) {
    c.name != "" && c.number != ""
  }

  /** A kept triple whose quantity makes `int()` raise. */
  predicate BadCell(c: Cell) {
    ZipKept(c) && c.qty.None?
  }

  /** The item a kept triple becomes (its quantity is read only when it parsed). */
  function CellItem(c: Cell): ExtraItem {
    ShortKeys(c.name, c.number, c.qty.GetOr(0))
  }

  ghost predicate AnyBad(cs: seq<Cell>) {
    exists i :: 0 <= i < |cs| && BadCell(cs[i])
  }

  /** `x` is the item of some kept triple of `cs`. */
  ghost predicate Yields(cs: seq<Cell>, x: ExtraItem) {
    exists i :: 0 <= i < |cs| && ZipKept(cs[i]) && x == CellItem(cs[i])
  }

  /** The loop body over the triples; the first bad one aborts with `ValueError`. */
  function ZipItems(cs: seq<Cell>): (r: Result<seq<ExtraItem>, Fault>)
    ensures r.Failure? <==> AnyBad(cs)
    ensures r.Failure? ==> r.error.ValueError?
    ensures r.Success? ==> |r.value| <= |cs|
    ensures r.Success? ==> forall x :: x in r.value <==> Yields(cs, x)
  {
    if cs == [] then Success([])
    else
      var p := cs[..|cs| - 1];
      var c := cs[|cs| - 1];
      ZipItemsStep(p, c);
      assert p + [c] == cs;
      match ZipItems(p)
      case Failure(e) => Failure(e)
      case Success(prev) =>
        if ZipKept(c) then
          match c.qty
          case None => Failure(ValueError(c.qtyText))
          case Some(v) => Success(prev + [ShortKeys(c.name, c.number, v)])
        else Success(prev)
  }

  lemma ZipItemsStep(p: seq<Cell>, c: Cell)
    ensures AnyBad(p + [c]) <==> AnyBad(p) || BadCell(c)
    ensures forall x :: Yields(p + [c], x) <==> Yields(p, x) || (ZipKept(c) && x == CellItem(c))
  {
    var cs := p + [c];
    assert cs[|p|] == c;
    assert forall i :: 0 <= i < |p| ==> cs[i] == p[i];
  }

  /** Reading two runs of triples one after the other: the whole fails exactly
      when either run fails, and otherwise yields the items of the first run
      followed by those of the second, so items keep posting order and
      duplicates. */
  lemma {:induction false} ZipItemsAppend(a: seq<Cell>, b: seq<Cell>)
    ensures ZipItems(a + b).Failure? <==> ZipItems(a).Failure? || ZipItems(b).Failure?
    ensures ZipItems(a + b).Success? ==> ZipItems(a + b).value == ZipItems(a).value + ZipItems(b).value
    decreases |b|
  {
    if b == [] {
      assert a + b == a;
    } else {
      var p := b[..|b| - 1];
      var c := b[|b| - 1];
      assert b == p + [c];
      assert (a + b)[..|a + b| - 1] == a + p;
      assert (a + b)[|a + b| - 1] == c;
      ZipItemsAppend(a, p);
    }
  }

  /** `add_trailer` / `edit_trailer`: every kept triple becomes a `name` / `number`
      item, or the whole request fails on the first unreadable quantity. */
  function ZipRows(names: seq<string>, numbers: seq<string>, qtys: seq<string>): Result<seq<ExtraItem>, Fault> {
    ZipItems(ZipCells(names, numbers, qtys))
  }
}
