/** The read-only views over the store: the dashboard's filtered trailer list,
    the invoice search, the pull list and the prefill map of a trailer. */
module Listing {
  import opened Common
  import opened Text
  import opened Forms
  import opened Records
  import opened PullList
  import opened Prefill
  import opened Ledger

  // ---------------------------------------------------------------------------
  // dashboard
  // ---------------------------------------------------------------------------

  /** SQL `column ILIKE '%text%'` for text without `%` or `_` wildcards. */
  predicate ILike(column: string, text: string) {
    Contains(Lower(column), Lower(text))
  }

  /** The filters of the dashboard's query string, each applied only when truthy;
      without a `status` filter Completed trailers are hidden. */
  predicate Matches(t: Trailer, args: Form) {
    && (Truthy(Get(args, "job_name")) ==> ILike(t.jobName, Get(args, "job_name").value))
    && (Truthy(Get(args, "job_number")) ==> ILike(t.jobNumber, Get(args, "job_number").value))
    && (if Truthy(Get(args, "status")) then t.status == Get(args, "status").value else t.status != Completed)
    && (Truthy(Get(args, "inventory_type")) ==> t.inventoryType == Get(args, "inventory_type"))
  }

  /** The keys below `n` of matching trailers, highest first. */
  function MatchingIdsBelow(trailers: map<nat, Trailer>, args: Form, n: nat): (ids: seq<nat>)
    ensures forall i, j :: 0 <= i < j < |ids| ==> ids[i] > ids[j]
    ensures forall i :: 0 <= i < |ids| ==> ids[i] < n
    ensures forall id :: id in ids <==> id < n && id in trailers && Matches(trailers[id], args)
  {
    if n == 0 then []
    else
      var rest := MatchingIdsBelow(trailers, args, n - 1);
      if n - 1 in trailers && Matches(trailers[n - 1], args) then [n - 1] + rest else rest
  }

  /** `GET /`: the matching trailers, ordered by descending primary key. */
  function Dashboard(s: Store, args: Form): (ts: seq<Trailer>)
    ensures Valid(s) ==> forall i, j :: 0 <= i < j < |ts| ==> ts[i].id > ts[j].id
    ensures forall i :: 0 <= i < |ts| ==> Matches(ts[i], args)
    ensures forall i :: 0 <= i < |ts| ==> ts[i] in s.trailers.Values
    ensures Valid(s) ==> forall t :: t in ts ==> t.id in s.trailers && s.trailers[t.id] == t
  {
    var ids := MatchingIdsBelow(s.trailers, args, s.nextId);
    seq(|ids|, i requires 0 <= i < |ids| => s.trailers[ids[i]])
  }

  /** The dashboard lists exactly the stored trailers that pass its filters:
      with `Dashboard`'s own guarantee that it lists nothing else. */
  lemma DashboardMembers(s: Store, args: Form)
    requires Valid(s)
    ensures forall id :: id in s.trailers ==>
              (s.trailers[id] in Dashboard(s, args) <==> Matches(s.trailers[id], args))
    ensures forall t :: t in Dashboard(s, args) <==> t in s.trailers.Values && Matches(t, args)
  {
    var ids := MatchingIdsBelow(s.trailers, args, s.nextId);
    var ts := Dashboard(s, args);
    forall id | id in s.trailers && Matches(s.trailers[id], args)
      ensures s.trailers[id] in ts
    {
      var i :| 0 <= i < |ids| && ids[i] == id;
      assert ts[i] == s.trailers[id];
    }
  }

  /** With no `status` in the query string the dashboard shows no Completed
      trailer; with one, it shows only trailers in that status. */
  lemma DashboardStatusFilter(s: Store, args: Form)
    ensures !Truthy(Get(args, "status")) ==> forall t :: t in Dashboard(s, args) ==> t.status != Completed
    ensures Truthy(Get(args, "status")) ==>
              forall t :: t in Dashboard(s, args) ==> t.status == Get(args, "status").value
  {
  }

  // ---------------------------------------------------------------------------
  // view_invoices
  // ---------------------------------------------------------------------------

  /** The searchable text of a trailer: its id, job name, job number, location,
      tooling list and assignee, space-separated and lower-cased
      (routes/inventory.py:55-63). */
  function Haystack(t: Trailer): string {
    Lower(Join(" ", HayParts(t)))
  }

  function HayParts(t: Trailer): (parts: seq<string>)
    ensures |parts| == 6
  {
    [if t.id == 0 then "" else NatToString(t.id), t.jobName, t.jobNumber, t.location,
     Or(t.toolingListName, ""), Or(t.assignedUser, "")]
  }

  /** The search query, trimmed and lower-cased; blank when absent. */
  function Query(args: Form): string {
    Lower(Strip(Or(Get(args, "q"), "")))
  }

  /** The invoice's trailer exists and its searchable text contains `q`. */
  predicate Listed(s: Store, q: string, v: Invoice) {
    v.trailerId in s.trailers && Contains(Haystack(s.trailers[v.trailerId]), q)
  }

  /** The listed invoices of `invs`, in order. */
  function FilterListed(s: Store, q: string, invs: seq<Invoice>): (r: seq<Invoice>)
    ensures |r| <= |invs|
    ensures forall v :: v in r <==> v in invs && Listed(s, q, v)
  {
    if invs == [] then []
    else FilterListed(s, q, invs[..|invs| - 1]) + (if Listed(s, q, invs[|invs| - 1]) then [invs[|invs| - 1]] else [])
  }

  /** Filtering a concatenation filters each part, in order. */
  lemma {:induction false} FilterListedAppend(s: Store, q: string, a: seq<Invoice>, b: seq<Invoice>)
    ensures FilterListed(s, q, a + b) == FilterListed(s, q, a) + FilterListed(s, q, b)
  {
    if b != [] {
      var p := b[..|b| - 1];
      assert (a + b)[..|a + b| - 1] == a + p;
      FilterListedAppend(s, q, a, p);
    } else {
      assert a + b == a;
    }
  }

  /** A listed invoice is kept as many times as it occurs; an unlisted one is dropped. */
  lemma {:induction false} FilterListedCount(s: Store, q: string, invs: seq<Invoice>, v: Invoice)
    ensures multiset(FilterListed(s, q, invs))[v] == if Listed(s, q, v) then multiset(invs)[v] else 0
  {
    if invs != [] {
      var p := invs[..|invs| - 1];
      assert invs == p + [invs[|invs| - 1]];
      FilterListedCount(s, q, p, v);
    }
  }

  /** Filtering the newest-first list gives the filtered list, newest first. */
  lemma {:induction false} FilterListedReverse(s: Store, q: string, invs: seq<Invoice>)
    ensures FilterListed(s, q, Reverse(invs)) == Reverse(FilterListed(s, q, invs))
  {
    if invs != [] {
      var p := invs[..|invs| - 1];
      var v := invs[|invs| - 1];
      var one := if Listed(s, q, v) then [v] else [];
      assert Reverse(invs) == [v] + Reverse(p);
      FilterListedAppend(s, q, [v], Reverse(p));
      assert FilterListed(s, q, [v]) == one by {
        assert [v][..0] == [];
      }
      FilterListedReverse(s, q, p);
      ReverseAppend(FilterListed(s, q, p), one);
    }
  }

  lemma ReverseAppend(a: seq<Invoice>, b: seq<Invoice>)
    requires |b| <= 1
    ensures Reverse(a + b) == Reverse(b) + Reverse(a)
  {
    if b == [] {
      assert a + b == a;
    } else {
      assert (a + b)[..|a + b| - 1] == a;
    }
  }

  lemma ReverseSameMembers(invs: seq<Invoice>)
    ensures forall v :: v in Reverse(invs) <==> v in invs
  {
    var newest := Reverse(invs);
    forall v | v in invs ensures v in newest {
      var i :| 0 <= i < |invs| && invs[i] == v;
      assert newest[|invs| - 1 - i] == v;
    }
  }

  /** `invs` newest first. */
  function Reverse(invs: seq<Invoice>): (r: seq<Invoice>)
    ensures |r| == |invs|
    ensures forall i :: 0 <= i < |invs| ==> r[i] == invs[|invs| - 1 - i]
  {
    if invs == [] then [] else [invs[|invs| - 1]] + Reverse(invs[..|invs| - 1])
  }

  /** `GET /invoices`: every invoice, newest first, narrowed to those whose
      trailer's haystack contains the query when the query is not blank. */
  function SearchInvoices(s: Store, args: Form): (r: seq<Invoice>)
    ensures Query(args) == "" ==> r == Reverse(s.invoices)
    ensures Query(args) != "" ==>
              forall v :: v in r <==> v in s.invoices && Listed(s, Query(args), v)
    ensures Query(args) != "" ==> r == Reverse(FilterListed(s, Query(args), s.invoices))
    ensures |r| <= |s.invoices|
  {
    var q := Query(args);
    var newest := Reverse(s.invoices);
    if q == "" then newest
    else
      ReverseSameMembers(s.invoices);
      FilterListedReverse(s, q, s.invoices);
      FilterListed(s, q, newest)
  }

  /** A non-blank query finds every invoice whose trailer has a field containing
      it, ignoring case. */
  lemma SearchFindsField(s: Store, args: Form, v: Invoice, k: nat)
    requires v in s.invoices && v.trailerId in s.trailers && k < 6
    requires Query(args) != ""
    requires Contains(Lower(HayParts(s.trailers[v.trailerId])[k]), Query(args))
    ensures v in SearchInvoices(s, args)
  {
    var parts := HayParts(s.trailers[v.trailerId]);
    JoinHasPart(" ", parts, k);
    var x, y :| Join(" ", parts) == x + parts[k] + y;
    LowerAppend(x + parts[k], y);
    LowerAppend(x, parts[k]);
    ContainsInContext(Lower(x), Lower(parts[k]), Lower(y), Query(args));
  }

  // ---------------------------------------------------------------------------
  // pull_list and view_form
  // ---------------------------------------------------------------------------

  /** `GET /trailer/<id>/pull-list`. */
  function PullListRoute(s: Store, id: nat): (rows: Option<seq<Row>>)
    ensures rows.Some? <==> id in s.trailers
    ensures rows.Some? ==> rows.value == PullRows(ResponsesOf(s, id))
    ensures rows.Some? ==> Sorted(rows.value) && KeysUnique(rows.value)
                            && RowKeys(rows.value) == FlaggedKeys(ResponsesOf(s, id))
    ensures rows.Some? ==> forall i :: 0 <= i < |rows.value| ==>
              && rows.value[i].missingQty == SumQty(ResponsesOf(s, id), RowKey(rows.value[i]), Missing)
              && rows.value[i].redtagQty == SumQty(ResponsesOf(s, id), RowKey(rows.value[i]), RedTag)
  {
    if id !in s.trailers then None
    else
      PullRowsContents(ResponsesOf(s, id));
      PullRowsOrdered(ResponsesOf(s, id), "");
      Some(PullRows(ResponsesOf(s, id)))
  }

  /** `GET /trailer/<id>/view` and `GET /trailer/<id>/edit-submission`: the
      catalog list to render and the prefill map of the stored responses. */
  function ViewFormRoute(s: Store, id: nat, catalog: Catalog): (v: Option<(seq<ToolingItem>, map<string, Bucket>)>)
    ensures v.Some? <==> id in s.trailers
    ensures v.Some? ==> v.value.0 == catalog(ListName(s.trailers[id]))
                        && Describes(v.value.1, ResponsesOf(s, id))
  {
    if id !in s.trailers then None
    else Some((catalog(ListName(s.trailers[id])), PrefillMap(ResponsesOf(s, id))))
  }

  /** After a completed submission the pull list is built from exactly the
      responses just submitted, whatever the trailer held before. */
  lemma PullListAfterSubmit(s: Store, id: nat, form: Form, catalog: Catalog, invoicer: Invoicer,
                            prior: map<nat, seq<Response>>)
    requires SubmitForm(s, id, form, catalog, invoicer).Done?
    ensures PullListRoute(SubmitForm(s, id, form, catalog, invoicer).store, id)
         == PullListRoute(SubmitForm(s.(responses := prior), id, form, catalog, invoicer).store, id)
  {
    SubmitFormReplacesResponses(s, id, form, catalog, invoicer, prior);
  }
}
