/** Turning a submitted inventory form into response rows: the loops over the
    catalog list and over the credit-back extras in `inventory_form` and
    `edit_submission` (routes/inventory.py). */
module ResponseBuilding {
  import opened Common
  import opened Text
  import opened Forms
  import opened Records

  // ---------------------------------------------------------------------------
  // Quantities
  // ---------------------------------------------------------------------------

  /** Where an item's quantity comes from: the posted field, or the stored
      record's own quantity when the field was not posted at all. */
  datatype QuantitySource = Entered(text: string) | Default(value: int)

  /** The first value posted under `key`, or `default` when none is. */
  function QuantitySourceOf(form: Form, key: string, default: int): QuantitySource {
    match Get(form, key)
    case Some(t) => Entered(t)
    case None => Default(default)
  }

  /** An all-digit text read as a number; any other text reads as 0. */
  function ReadQuantityText(text: string): nat {
    if IsDigitString(text) then DigitsValue(text) else 0
  }

  /** An all-digit text is read as `int()` reads it; anything else (blank,
      signed, spaced, decimal) is 0. */
  lemma ReadQuantityTextIsInt(text: string)
    ensures IsDigitString(text) ==> PyInt(text) == Some(ReadQuantityText(text))
    ensures !IsDigitString(text) ==> ReadQuantityText(text) == 0
  {
    if IsDigitString(text) {
      PyIntOfDigits(text);
    }
  }

  /** The quantity of an entry: the posted text read as digits, or the stored
      default, which is an integer written out as text first. */
  function ParseQuantity(src: QuantitySource): nat {
    match src
    case Entered(t) => ReadQuantityText(t)
    case Default(v) => if v >= 0 then v else 0
  }

  /** A stored default is read exactly as its text `str(v)` would be: a
      non-negative default survives and a negative one, whose text starts with a
      minus sign, becomes 0. */
  lemma DefaultQuantityAsText(v: int)
    ensures ParseQuantity(Default(v)) == ReadQuantityText(IntToString(v))
  {
    IntToStringIsDigitIff(v);
    if v >= 0 {
      NatToStringRoundTrip(v);
    }
  }

  // ---------------------------------------------------------------------------
  // Field names
  // ---------------------------------------------------------------------------

  /** The naming scheme of one checklist entry's form fields: catalog items use
      `<number>_status_missing`, extras use `cb_<i>_missing`. */
  datatype FieldNames = FieldNames(prefix: string, statusInfix: string)

  function QuantityKey(f: FieldNames): string {
    f.prefix + "_quantity"
  }

  function StatusKey(f: FieldNames, s: Status): string {
    f.prefix + f.statusInfix + s.Suffix()
  }

  function NoteKey(f: FieldNames, s: Status): string {
    f.prefix + "_note_" + s.Suffix()
  }

  /** Fields of a catalog item, named after its item number. */
  function CatalogFields(number: string): FieldNames {
    FieldNames(number, "_status_")
  }

  /** Fields of a stored extra, named after its position: `prefix` is `cb_<i>`. */
  function ExtraFields(prefix: string): FieldNames {
    FieldNames(prefix, "_")
  }

  // ---------------------------------------------------------------------------
  // One checklist entry
  // ---------------------------------------------------------------------------

  /** What a checklist entry contributes to every response built from it. */
  datatype Entry = Entry(fields: FieldNames, number: string, name: string, category: string, defaultQty: int)

  function EntryQuantity(form: Form, e: Entry): nat {
    ParseQuantity(QuantitySourceOf(form, QuantityKey(e.fields), e.defaultQty))
  }

  /** The response for status `s` when its checkbox is ticked, and nothing otherwise. */
  function StatusResponse(form: Form, e: Entry, s: Status): seq<Response> {
    if Checked(form, StatusKey(e.fields, s)) then
      [Response(e.number, e.name, s, Get(form, NoteKey(e.fields, s)).GetOr(""),
                Some(EntryQuantity(form, e)), e.category)]
    else []
  }

  /** Some response of `rs` has status `s`. */
  predicate HasStatus(rs: seq<Response>, s: Status) {
    exists i :: 0 <= i < |rs| && rs[i].status == s
  }

  /** `r` carries the entry's number, name, category and parsed quantity, and the
      note posted for its own status. */
  predicate FromEntry(form: Form, e: Entry, r: Response) {
    && r.itemNumber == e.number
    && r.itemName == e.name
    && r.category == e.category
    && r.quantity == Some(EntryQuantity(form, e))
    && r.note == Get(form, NoteKey(e.fields, r.status)).GetOr("")
  }

  /** The responses one checklist entry yields, checkbox by checkbox. */
  function EntryResponses(form: Form, e: Entry): (rs: seq<Response>)
    ensures |rs| <= 3
  {
    StatusResponse(form, e, Missing) + StatusResponse(form, e, RedTag) + StatusResponse(form, e, Complete)
  }

  lemma StatusResponseFacts(form: Form, e: Entry, s: Status)
    ensures |StatusResponse(form, e, s)| <= 1
    ensures StatusResponse(form, e, s) != [] <==> Checked(form, StatusKey(e.fields, s))
    ensures forall r :: r in StatusResponse(form, e, s) ==> r.status == s && FromEntry(form, e, r)
  {
  }

  /** Where each of the three checkbox results lands when laid end to end. */
  lemma ThreePositions(form: Form, e: Entry)
    ensures var m := StatusResponse(form, e, Missing);
            var t := StatusResponse(form, e, RedTag);
            var rs := m + t + StatusResponse(form, e, Complete);
            forall i :: 0 <= i < |rs| ==>
              && rs[i].status.Rank() == (if i < |m| then 0 else if i < |m| + |t| then 1 else 2)
              && FromEntry(form, e, rs[i])
  {
    var m := StatusResponse(form, e, Missing);
    var t := StatusResponse(form, e, RedTag);
    var c := StatusResponse(form, e, Complete);
    StatusResponseFacts(form, e, Missing);
    StatusResponseFacts(form, e, RedTag);
    StatusResponseFacts(form, e, Complete);
    var rs := m + t + c;
    forall i | 0 <= i < |rs|
      ensures rs[i].status.Rank() == (if i < |m| then 0 else if i < |m| + |t| then 1 else 2)
      ensures FromEntry(form, e, rs[i])
    {
      if i < |m| {
        assert rs[i] == m[i] && m[i] in m;
      } else if i < |m| + |t| {
        assert rs[i] == t[i - |m|] && t[i - |m|] in t;
      } else {
        assert rs[i] == c[i - |m| - |t|] && c[i - |m| - |t|] in c;
      }
    }
  }

  /** An entry yields exactly one response per ticked checkbox, in the order
      Missing, Red Tag, Complete, each built from the entry. */
  lemma EntryResponsesFacts(form: Form, e: Entry)
    ensures var rs := EntryResponses(form, e);
            && (forall s: Status {:trigger HasStatus(rs, s)} ::
                  HasStatus(rs, s) <==> Checked(form, StatusKey(e.fields, s)))
            && (forall i, j :: 0 <= i < j < |rs| ==> rs[i].status.Rank() < rs[j].status.Rank())
            && (forall i :: 0 <= i < |rs| ==> FromEntry(form, e, rs[i]))
  {
    var m := StatusResponse(form, e, Missing);
    var t := StatusResponse(form, e, RedTag);
    var c := StatusResponse(form, e, Complete);
    StatusResponseFacts(form, e, Missing);
    StatusResponseFacts(form, e, RedTag);
    StatusResponseFacts(form, e, Complete);
    ThreePositions(form, e);
    var rs := m + t + c;
    forall s: Status
      ensures HasStatus(rs, s) <==> Checked(form, StatusKey(e.fields, s))
    {
      if Checked(form, StatusKey(e.fields, s)) {
        var i := if s == Missing then 0 else if s == RedTag then |m| else |m| + |t|;
        assert 0 <= i < |rs| && rs[i].status.Rank() == s.Rank();
        assert rs[i].status == s;
      }
    }
  }

  // ---------------------------------------------------------------------------
  // The catalog list
  // ---------------------------------------------------------------------------

  /** The item's category, `General` when the catalog gives none. */
  function CategoryOf(item: ToolingItem): string {
    item.category.GetOr(GeneralCategory)
  }

  function CatalogEntry(item: ToolingItem): Entry {
    Entry(CatalogFields(item.number), item.number, item.name, CategoryOf(item), item.quantity.GetOr(0))
  }

  /** The responses built from the whole catalog list, item after item. */
  function CatalogResponses(form: Form, items: seq<ToolingItem>): (rs: seq<Response>)
    ensures |rs| <= 3 * |items|
  {
    if items == [] then []
    else CatalogResponses(form, items[..|items| - 1]) + EntryResponses(form, CatalogEntry(items[|items| - 1]))
  }

  /** `r` was built from some item of the catalog list. */
  ghost predicate FromCatalog(form: Form, items: seq<ToolingItem>, r: Response) {
    exists i :: 0 <= i < |items| && FromEntry(form, CatalogEntry(items[i]), r)
  }

  /** Every catalog response comes from an item of the list: same number, name
      and category (`General` when the item has none), with a quantity that is
      never negative. */
  lemma {:induction false} CatalogResponsesProvenance(form: Form, items: seq<ToolingItem>)
    ensures forall r :: r in CatalogResponses(form, items) ==>
              FromCatalog(form, items, r) && r.quantity.Some? && r.quantity.value >= 0
  {
    if items != [] {
      var n := |items| - 1;
      var prev := items[..n];
      CatalogResponsesProvenance(form, prev);
      CatalogResponsesLast(form, items);
      forall r | r in CatalogResponses(form, items)
        ensures FromCatalog(form, items, r) && r.quantity.Some? && r.quantity.value >= 0
      {
        if r in CatalogResponses(form, prev) {
          var i :| 0 <= i < |prev| && FromEntry(form, CatalogEntry(prev[i]), r);
          assert prev[i] == items[i];
        } else {
          var last := EntryResponses(form, CatalogEntry(items[n]));
          assert r in last;
          var j :| 0 <= j < |last| && last[j] == r;
          EntryResponsesFacts(form, CatalogEntry(items[n]));
          assert FromEntry(form, CatalogEntry(items[n]), r);
        }
      }
    }
  }

  /** `rs` holds the response an entry yields for a ticked status `s`. */
  ghost predicate RecordsTick(rs: seq<Response>, form: Form, e: Entry, s: Status) {
    exists r :: r in rs && r.status == s && FromEntry(form, e, r)
  }

  /** A ticked checkbox of an entry yields a response among the entry's own. */
  lemma EntryRecordsTick(form: Form, e: Entry, s: Status)
    requires Checked(form, StatusKey(e.fields, s))
    ensures RecordsTick(EntryResponses(form, e), form, e, s)
  {
    var rs := EntryResponses(form, e);
    EntryResponsesFacts(form, e);
    assert HasStatus(rs, s);
    var i :| 0 <= i < |rs| && rs[i].status == s;
    assert rs[i] in rs && FromEntry(form, e, rs[i]);
  }

  /** A response recorded in either part is recorded in the concatenation. */
  lemma RecordsTickConcat(a: seq<Response>, b: seq<Response>, form: Form, e: Entry, s: Status)
    requires RecordsTick(a, form, e, s) || RecordsTick(b, form, e, s)
    ensures RecordsTick(a + b, form, e, s)
  {
    var r :| (r in a || r in b) && r.status == s && FromEntry(form, e, r);
    assert r in a + b;
  }

  /** The converse of provenance: every ticked checkbox of every catalog item
      yields a response, for that status, built from that item. */
  lemma CatalogResponsesComplete(form: Form, items: seq<ToolingItem>)
    ensures forall i, s :: 0 <= i < |items| && Checked(form, StatusKey(CatalogEntry(items[i]).fields, s)) ==>
              RecordsTick(CatalogResponses(form, items), form, CatalogEntry(items[i]), s)
  {
    forall i, s | 0 <= i < |items| && Checked(form, StatusKey(CatalogEntry(items[i]).fields, s))
      ensures RecordsTick(CatalogResponses(form, items), form, CatalogEntry(items[i]), s)
    {
      var e := CatalogEntry(items[i]);
      EntryRecordsTick(form, e, s);
      CatalogEntryIncluded(form, items, i);
      var r :| r in EntryResponses(form, e) && r.status == s && FromEntry(form, e, r);
      assert r in CatalogResponses(form, items);
    }
  }

  /** The catalog responses of a non-empty list end with its last item's. */
  lemma CatalogResponsesLast(form: Form, items: seq<ToolingItem>)
    requires items != []
    ensures CatalogResponses(form, items) == CatalogResponses(form, items[..|items| - 1]) + EntryResponses(form, CatalogEntry(items[|items| - 1]))
  {
  }

  /** Every response of item `i` is among the catalog responses. */
  lemma {:induction false} CatalogEntryIncluded(form: Form, items: seq<ToolingItem>, i: nat)
    requires i < |items|
    ensures forall r :: r in EntryResponses(form, CatalogEntry(items[i])) ==> r in CatalogResponses(form, items)
    decreases |items|
  {
    var n := |items| - 1;
    var prev := items[..n];
    CatalogResponsesLast(form, items);
    if i < n {
      assert prev[i] == items[i];
      CatalogEntryIncluded(form, prev, i);
    }
  }

  /** The Missing and Red Tag responses of `rs`, in order. */
  function Flagged(rs: seq<Response>): (fs: seq<Response>)
    ensures forall r :: r in fs <==> r in rs && r.status.IsFlagged()
    ensures |fs| <= |rs|
  {
    if rs == [] then []
    else Flagged(rs[..|rs| - 1]) + (if rs[|rs| - 1].status.IsFlagged() then [rs[|rs| - 1]] else [])
  }

  lemma FlaggedAppend(rs: seq<Response>, r: Response)
    ensures Flagged(rs + [r]) == Flagged(rs) + (if r.status.IsFlagged() then [r] else [])
  {
    assert (rs + [r])[..|rs|] == rs;
  }

  /** Filtering distributes over concatenation: the flagged responses of
      `a + b` are those of `a` followed by those of `b`, in order. */
  lemma {:induction false} FlaggedConcat(a: seq<Response>, b: seq<Response>)
    ensures Flagged(a + b) == Flagged(a) + Flagged(b)
    decreases |b|
  {
    if b == [] {
      assert a + b == a;
    } else {
      var p := b[..|b| - 1];
      var last := b[|b| - 1];
      var t := if last.status.IsFlagged() then [last] else [];
      calc {
        Flagged(a + b);
        { assert a + b == (a + p) + [last]; }
        Flagged((a + p) + [last]);
        { FlaggedAppend(a + p, last); }
        Flagged(a + p) + t;
        { FlaggedConcat(a, p); }
        Flagged(a) + Flagged(p) + t;
        { assert b == p + [last]; FlaggedAppend(p, last); }
        Flagged(a) + Flagged(b);
      }
    }
  }

  /** Each Missing or Red Tag response is kept as often as it occurs, and no
      Complete one is kept. */
  lemma {:induction false} FlaggedCount(rs: seq<Response>, r: Response)
    ensures multiset(Flagged(rs))[r] == if r.status.IsFlagged() then multiset(rs)[r] else 0
  {
    if rs != [] {
      var p := rs[..|rs| - 1];
      var last := rs[|rs| - 1];
      assert rs == p + [last];
      FlaggedCount(p, r);
      FlaggedAppend(p, last);
    }
  }

  /** One checkbox of the inner loop: when it is ticked, builds its response and
      appends it, and to the flagged list too when the status is a discrepancy. */
  method AppendStatus(form: Form, e: Entry, s: Status, responses: seq<Response>, flagged: seq<Response>)
    returns (responses': seq<Response>, flagged': seq<Response>)
    requires flagged == Flagged(responses)
    ensures responses' == responses + StatusResponse(form, e, s)
    ensures flagged' == Flagged(responses')
  {
    responses', flagged' := responses, flagged;
    if Checked(form, StatusKey(e.fields, s)) {
      var note := Get(form, NoteKey(e.fields, s)).GetOr("");
      var r := Response(e.number, e.name, s, note, Some(EntryQuantity(form, e)), e.category);
      FlaggedAppend(responses, r);
      responses' := responses + [r];
      if s.IsFlagged() {
        flagged' := flagged + [r];
      }
    } else {
      assert responses + [] == responses;
    }
  }

  /** The inner loop over one item's three checkboxes, Missing, Red Tag and
      Complete in that order: appends the item's responses, and the flagged ones
      among them to the flagged list. */
  method AppendEntry(form: Form, e: Entry, responses: seq<Response>, flagged: seq<Response>)
    returns (responses': seq<Response>, flagged': seq<Response>)
    requires flagged == Flagged(responses)
    ensures responses' == responses + EntryResponses(form, e)
    ensures flagged' == Flagged(responses')
  {
    var rs1, fs1 := AppendStatus(form, e, Missing, responses, flagged);
    var rs2, fs2 := AppendStatus(form, e, RedTag, rs1, fs1);
    responses', flagged' := AppendStatus(form, e, Complete, rs2, fs2);
    AppendThree(responses, StatusResponse(form, e, Missing), StatusResponse(form, e, RedTag),
                StatusResponse(form, e, Complete));
  }

  lemma AppendThree(a: seq<Response>, x: seq<Response>, y: seq<Response>, z: seq<Response>)
    ensures a + x + y + z == a + (x + y + z)
  {
  }

  /** The catalog loop of `inventory_form` and `edit_submission`: builds the
      response list and, beside it, the list of flagged responses handed to the
      invoice generator. */
  method BuildCatalogResponses(form: Form, items: seq<ToolingItem>)
    returns (responses: seq<Response>, flagged: seq<Response>)
    ensures responses == CatalogResponses(form, items)
    ensures flagged == Flagged(responses)
  {
    responses := [];
    flagged := [];
    for k := 0 to |items|
      invariant responses == CatalogResponses(form, items[..k])
      invariant flagged == Flagged(responses)
    {
      responses, flagged := AppendEntry(form, CatalogEntry(items[k]), responses, flagged);
      assert items[..k + 1][..k] == items[..k];
      CatalogResponsesLast(form, items[..k + 1]);
    }
    assert items[..|items|] == items;
  }

  // ---------------------------------------------------------------------------
  // The credit-back extras
  // ---------------------------------------------------------------------------

  /** One step of `enumerate(extras)`: an extra with its position already written
      as the field prefix `cb_<i>`. */
  datatype Slot = Slot(prefix: string, item: ExtraItem)

  /** `enumerate(extras, k)`, each position `i` written as `cb_<i>`. */
  function Enumerate(extras: seq<ExtraItem>, k: nat): (slots: seq<Slot>)
    ensures |slots| == |extras|
    ensures forall i :: 0 <= i < |slots| ==> slots[i].item == extras[i]
    decreases |extras|
  {
    if extras == [] then [] else [Slot("cb_" + NatToString(k), extras[0])] + Enumerate(extras[1..], k + 1)
  }

  /** The slot at position `i` of an enumeration started at `k` is named `cb_<k + i>`. */
  lemma {:induction false} EnumeratePrefix(extras: seq<ExtraItem>, k: nat, i: nat)
    requires i < |extras|
    ensures Enumerate(extras, k)[i].prefix == "cb_" + NatToString(k + i)
    decreases i
  {
    if i > 0 {
      EnumeratePrefix(extras[1..], k + 1, i - 1);
      assert Enumerate(extras, k)[i] == Enumerate(extras[1..], k + 1)[i - 1];
    }
  }

  /** The checklist entry of a `name` / `number` extra. */
  function ExtraEntry(slot: Slot): Entry
    requires slot.item.ShortKeys?
  {
    Entry(ExtraFields(slot.prefix), slot.item.number, slot.item.name, ExtraToolingCategory, slot.item.quantity)
  }

  /** The responses built from the first `n` enumerated extras. Reading
      `item['name']` raises `KeyError` on an extra stored with `item_name` /
      `item_number` keys. */
  function ExtraResponsesUpTo(form: Form, slots: seq<Slot>, n: nat): Result<seq<Response>, Fault>
    requires n <= |slots|
  {
    if n == 0 then Success([])
    else
      match ExtraResponsesUpTo(form, slots, n - 1)
      case Failure(e) => Failure(e)
      case Success(prev) =>
        match slots[n - 1].item
        case ItemKeys(_, _, _, _) => Failure(KeyError("name"))
        case ShortKeys(_, _, _) => Success(prev + EntryResponses(form, ExtraEntry(slots[n - 1])))
  }

  /** The loop over the first `n` extras fails exactly when one of them uses the
      `item_name` keys, and then with `KeyError('name')`. */
  lemma {:induction false} ExtraResponsesFailIff(form: Form, slots: seq<Slot>, n: nat)
    requires n <= |slots|
    ensures ExtraResponsesUpTo(form, slots, n).Failure? <==> exists i :: 0 <= i < n && slots[i].item.ItemKeys?
    ensures ExtraResponsesUpTo(form, slots, n).Failure? ==> ExtraResponsesUpTo(form, slots, n).error == KeyError("name")
  {
    if n > 0 {
      ExtraResponsesFailIff(form, slots, n - 1);
      ExtraResponsesStep(form, slots, n);
    }
  }

  /** One more extra fails the loop exactly when the loop had already failed or
      the extra uses the `item_name` keys, and the fault stays `KeyError('name')`. */
  lemma ExtraResponsesStep(form: Form, slots: seq<Slot>, n: nat)
    requires 0 < n <= |slots|
    requires ExtraResponsesUpTo(form, slots, n - 1).Failure? ==>
               ExtraResponsesUpTo(form, slots, n - 1).error == KeyError("name")
    ensures ExtraResponsesUpTo(form, slots, n).Failure? <==>
              ExtraResponsesUpTo(form, slots, n - 1).Failure? || slots[n - 1].item.ItemKeys?
    ensures ExtraResponsesUpTo(form, slots, n).Failure? ==> ExtraResponsesUpTo(form, slots, n).error == KeyError("name")
  {
  }

  /** `r` was built from some `name` / `number` extra among the first `n`. */
  ghost predicate FromExtras(form: Form, slots: seq<Slot>, n: nat, r: Response) {
    exists i :: 0 <= i < n && i < |slots| && slots[i].item.ShortKeys? && FromEntry(form, ExtraEntry(slots[i]), r)
  }

  /** `r` comes from a stored extra among the first `n`, is filed under `Extra
      Tooling`, and has a non-negative quantity. */
  ghost predicate ExtraOrigin(form: Form, slots: seq<Slot>, n: nat, r: Response) {
    FromExtras(form, slots, n, r) && r.category == ExtraToolingCategory
    && r.quantity.Some? && r.quantity.value >= 0
  }

  /** Every credit-back response comes from a stored extra, is filed under
      `Extra Tooling`, and has a non-negative quantity. */
  lemma {:induction false} ExtraResponsesProvenance(form: Form, slots: seq<Slot>, n: nat)
    requires n <= |slots|
    requires ExtraResponsesUpTo(form, slots, n).Success?
    ensures forall r :: r in ExtraResponsesUpTo(form, slots, n).value ==> ExtraOrigin(form, slots, n, r)
  {
    if n > 0 {
      ExtraResponsesProvenance(form, slots, n - 1);
      var prev := ExtraResponsesUpTo(form, slots, n - 1).value;
      var last := EntryResponses(form, ExtraEntry(slots[n - 1]));
      assert ExtraResponsesUpTo(form, slots, n).value == prev + last;
      ExtraOriginStep(form, slots, n, prev, last);
    }
  }

  /** The converse of provenance: when the loop completes, every ticked checkbox
      of every extra among the first `n` yields a response, for that status,
      built from that extra. */
  lemma {:induction false} ExtraResponsesComplete(form: Form, slots: seq<Slot>, n: nat)
    requires n <= |slots|
    requires ExtraResponsesUpTo(form, slots, n).Success?
    ensures forall i, s :: 0 <= i < n && slots[i].item.ShortKeys? && Checked(form, StatusKey(ExtraEntry(slots[i]).fields, s)) ==>
              RecordsTick(ExtraResponsesUpTo(form, slots, n).value, form, ExtraEntry(slots[i]), s)
  {
    if n > 0 {
      ExtraResponsesComplete(form, slots, n - 1);
      var prev := ExtraResponsesUpTo(form, slots, n - 1).value;
      var last := EntryResponses(form, ExtraEntry(slots[n - 1]));
      var all := ExtraResponsesUpTo(form, slots, n).value;
      assert all == prev + last;
      forall i, s | 0 <= i < n && slots[i].item.ShortKeys? && Checked(form, StatusKey(ExtraEntry(slots[i]).fields, s))
        ensures RecordsTick(all, form, ExtraEntry(slots[i]), s)
      {
        if i == n - 1 {
          EntryRecordsTick(form, ExtraEntry(slots[i]), s);
        }
        RecordsTickConcat(prev, last, form, ExtraEntry(slots[i]), s);
      }
    }
  }

  /** The inductive step: the responses so far and those of the next extra. */
  lemma ExtraOriginStep(form: Form, slots: seq<Slot>, n: nat, prev: seq<Response>, last: seq<Response>)
    requires 0 < n <= |slots| && slots[n - 1].item.ShortKeys?
    requires last == EntryResponses(form, ExtraEntry(slots[n - 1]))
    requires forall r :: r in prev ==> ExtraOrigin(form, slots, n - 1, r)
    ensures forall r :: r in prev + last ==> ExtraOrigin(form, slots, n, r)
  {
    forall r | r in prev + last
      ensures ExtraOrigin(form, slots, n, r)
    {
      if r in prev {
        FromExtrasGrow(form, slots, n - 1, r);
      } else {
        FromLastExtra(form, slots, n, r);
      }
    }
  }

  lemma FromExtrasGrow(form: Form, slots: seq<Slot>, n: nat, r: Response)
    requires FromExtras(form, slots, n, r)
    ensures FromExtras(form, slots, n + 1, r)
  {
    var i :| 0 <= i < n && i < |slots| && slots[i].item.ShortKeys? && FromEntry(form, ExtraEntry(slots[i]), r);
  }

  /** A response built from the newest extra of the first `n` comes from the extras. */
  lemma FromLastExtra(form: Form, slots: seq<Slot>, n: nat, r: Response)
    requires 0 < n <= |slots| && slots[n - 1].item.ShortKeys?
    requires r in EntryResponses(form, ExtraEntry(slots[n - 1]))
    ensures ExtraOrigin(form, slots, n, r)
  {
    var last := EntryResponses(form, ExtraEntry(slots[n - 1]));
    var j :| 0 <= j < |last| && last[j] == r;
    EntryResponsesFacts(form, ExtraEntry(slots[n - 1]));
    assert FromEntry(form, ExtraEntry(slots[n - 1]), r);
  }

  /** The credit-back loop over all of the trailer's stored extras. */
  function ExtraResponses(form: Form, extras: seq<ExtraItem>): Result<seq<Response>, Fault> {
    ExtraResponsesUpTo(form, Enumerate(extras, 0), |extras|)
  }
}
