/** The prefill map that `view_form` and the `edit_submission` form build from a
    trailer's stored responses: per item number, the ticked statuses, the note of
    each status and the quantity to show. */
module Prefill {
  import opened Common
  import opened Records

  datatype Bucket = Bucket(statuses: set<Status>, notes: map<string, string>, quantity: Option<int>)

  /** One loop step: create the item's bucket if it is new, then record the
      response's status, note and quantity in it. */
  function AddResponse(existing: map<string, Bucket>, r: Response): map<string, Bucket> {
    var b := if r.itemNumber in existing then existing[r.itemNumber] else Bucket({}, map[], r.quantity);
    existing[r.itemNumber := Bucket(b.statuses + {r.status}, b.notes[r.status.Suffix() := r.note], r.quantity)]
  }

  // ---------------------------------------------------------------------------
  // Reference definitions
  // ---------------------------------------------------------------------------

  function NumbersOf(rs: seq<Response>): set<string> {
    set i | 0 <= i < |rs| :: rs[i].itemNumber
  }

  /** The statuses of the responses for item number `n`. */
  function StatusesFor(rs: seq<Response>, n: string): set<Status> {
    set i | 0 <= i < |rs| && rs[i].itemNumber == n :: rs[i].status
  }

  /** The quantity of the last response for item number `n`. */
  function LastQuantity(rs: seq<Response>, n: string): Option<int> {
    if rs == [] then None
    else if rs[|rs| - 1].itemNumber == n then rs[|rs| - 1].quantity
    else LastQuantity(rs[..|rs| - 1], n)
  }

  /** The note of the last response for item number `n` with status `s`. */
  function LastNote(rs: seq<Response>, n: string, s: Status): string {
    if rs == [] then ""
    else if rs[|rs| - 1].itemNumber == n && rs[|rs| - 1].status == s then rs[|rs| - 1].note
    else LastNote(rs[..|rs| - 1], n, s)
  }

  function SuffixesOf(ss: set<Status>): set<string> {
    set s | s in ss :: s.Suffix()
  }

  /** What the map holds for `rs`: one bucket per item number, listing that item's
      statuses, the last note per status (keyed by the status's field suffix), and
      the last quantity. */
  ghost predicate Describes(m: map<string, Bucket>, rs: seq<Response>) {
    && m.Keys == NumbersOf(rs)
    && forall n :: n in m ==>
         && m[n].statuses == StatusesFor(rs, n)
         && m[n].quantity == LastQuantity(rs, n)
         && m[n].notes.Keys == SuffixesOf(m[n].statuses)
         && forall s :: s in m[n].statuses ==> m[n].notes[s.Suffix()] == LastNote(rs, n, s)
  }

  /** The prefill loop over the stored responses, in the order the store yields them. */
  function PrefillMap(rs: seq<Response>): (m: map<string, Bucket>)
    ensures Describes(m, rs)
  {
    if rs == [] then map[]
    else
      var p := rs[..|rs| - 1];
      var prev := PrefillMap(p);
      AddResponseStep(prev, p, rs[|rs| - 1]);
      assert p + [rs[|rs| - 1]] == rs;
      AddResponse(prev, rs[|rs| - 1])
  }

  lemma SuffixInjective(s: Status, t: Status)
    ensures s.Suffix() == t.Suffix() ==> s == t
  {
    assert s.Suffix()[0] != t.Suffix()[0] || s == t;
  }

  lemma AddResponseStep(m: map<string, Bucket>, p: seq<Response>, r: Response)
    requires Describes(m, p)
    ensures Describes(AddResponse(m, r), p + [r])
  {
    var rs := p + [r];
    var m' := AddResponse(m, r);
    NumbersOfAppend(p, r);
    forall n | n in m'
      ensures m'[n].statuses == StatusesFor(rs, n)
      ensures m'[n].quantity == LastQuantity(rs, n)
      ensures m'[n].notes.Keys == SuffixesOf(m'[n].statuses)
      ensures forall s :: s in m'[n].statuses ==> m'[n].notes[s.Suffix()] == LastNote(rs, n, s)
    {
      if n == r.itemNumber {
        BucketUpdated(m, p, r);
      } else {
        BucketKept(m, p, r, n);
      }
    }
  }

  lemma NumbersOfAppend(p: seq<Response>, r: Response)
    ensures NumbersOf(p + [r]) == NumbersOf(p) + {r.itemNumber}
  {
    var rs := p + [r];
    forall x | x in NumbersOf(rs) ensures x in NumbersOf(p) + {r.itemNumber} {
      var i :| 0 <= i < |rs| && rs[i].itemNumber == x;
      if i < |p| { assert rs[i] == p[i]; }
    }
    forall x | x in NumbersOf(p) ensures x in NumbersOf(rs) {
      var i :| 0 <= i < |p| && p[i].itemNumber == x;
      assert rs[i] == p[i];
    }
    assert rs[|p|] == r;
  }

  /** The bucket of another item number is left as it was, and still describes it. */
  lemma BucketKept(m: map<string, Bucket>, p: seq<Response>, r: Response, n: string)
    requires Describes(m, p) && n in m && n != r.itemNumber
    ensures var b := AddResponse(m, r)[n];
            var rs := p + [r];
            && b.statuses == StatusesFor(rs, n)
            && b.quantity == LastQuantity(rs, n)
            && b.notes.Keys == SuffixesOf(b.statuses)
            && forall s :: s in b.statuses ==> b.notes[s.Suffix()] == LastNote(rs, n, s)
  {
    var rs := p + [r];
    assert rs[..|rs| - 1] == p;
    StatusesForAppend(p, r, n);
    assert AddResponse(m, r)[n] == m[n];
  }

  /** The bucket of the response's own item number gains its status, its note and
      its quantity, and then describes the longer list. */
  lemma BucketUpdated(m: map<string, Bucket>, p: seq<Response>, r: Response)
    requires Describes(m, p)
    ensures var n := r.itemNumber;
            var b := AddResponse(m, r)[n];
            var rs := p + [r];
            && b.statuses == StatusesFor(rs, n)
            && b.quantity == LastQuantity(rs, n)
            && b.notes.Keys == SuffixesOf(b.statuses)
            && forall s :: s in b.statuses ==> b.notes[s.Suffix()] == LastNote(rs, n, s)
  {
    var n := r.itemNumber;
    var rs := p + [r];
    assert rs[..|rs| - 1] == p;
    StatusesForAppend(p, r, n);
    var prior := if n in m then m[n] else Bucket({}, map[], r.quantity);
    forall s | s in StatusesFor(p, n) ensures n in m {
      var i :| 0 <= i < |p| && p[i].itemNumber == n && p[i].status == s;
      assert p[i].itemNumber in NumbersOf(p);
    }
    assert prior.statuses == StatusesFor(p, n);
    assert prior.notes.Keys == SuffixesOf(prior.statuses);
    var b := AddResponse(m, r)[n];
    forall s | s in b.statuses ensures b.notes[s.Suffix()] == LastNote(rs, n, s) {
      SuffixInjective(s, r.status);
    }
  }

  lemma StatusesForAppend(p: seq<Response>, r: Response, n: string)
    ensures StatusesFor(p + [r], n) == StatusesFor(p, n) + (if r.itemNumber == n then {r.status} else {})
  {
    var rs := p + [r];
    forall s | s in StatusesFor(rs, n)
      ensures s in StatusesFor(p, n) + (if r.itemNumber == n then {r.status} else {})
    {
      var i :| 0 <= i < |rs| && rs[i].itemNumber == n && rs[i].status == s;
      if i < |p| { assert rs[i] == p[i]; }
    }
    forall s | s in StatusesFor(p, n) ensures s in StatusesFor(rs, n) {
      var i :| 0 <= i < |p| && p[i].itemNumber == n && p[i].status == s;
      assert rs[i] == p[i];
    }
    if r.itemNumber == n {
      assert rs[|p|] == r;
    }
  }
}
