/** The database as the route handlers change it: trailers by primary key, each
    trailer's inventory responses, and the invoice rows. Every handler is a pure
    function from the store (and the request) to an outcome; the tooling catalog
    and the PDF writer are parameters. */
module Ledger {
  import opened Common
  import opened Forms
  import opened Records
  import opened ResponseBuilding
  import opened TrailerForms

  /** The three tables. `nextId` is the next primary key the trailer table hands
      out; the responses of a trailer are kept in insertion order. */
  datatype Store = Store(
    trailers: map<nat, Trailer>,
    responses: map<nat, seq<Response>>,
    invoices: seq<Invoice>,
    nextId: nat)

  /** Referential integrity: every trailer sits under its own key below `nextId`,
      and every response list and invoice belongs to a stored trailer. */
  ghost predicate Valid(s: Store) {
    && (forall id :: id in s.trailers ==> s.trailers[id].id == id && id < s.nextId)
    && (forall id :: id in s.responses ==> id in s.trailers)
    && (forall i :: 0 <= i < |s.invoices| ==> s.invoices[i].trailerId in s.trailers)
  }

  /** How a request ends: committed, 404 because the trailer does not exist, or
      aborted by an exception after the commits that had already happened. */
  datatype Outcome =
    | Done(store: Store)
    | NotFound
    | Failed(store: Store, fault: Fault)

  /** The catalog lookup: the tooling items of a tooling-list name. */
  type Catalog = string -> seq<ToolingItem>

  /** The invoice writer: the path of the PDF written for a trailer's flagged
      responses, if it wrote one. */
  type Invoicer = (nat, seq<Response>) -> Option<string>

  /** The stored responses of trailer `id`, none when it has no list. */
  function ResponsesOf(s: Store, id: nat): seq<Response> {
    if id in s.responses then s.responses[id] else []
  }

  /** The invoices of one trailer, in order. */
  function InvoicesFor(invs: seq<Invoice>, id: nat): (r: seq<Invoice>)
    ensures |r| <= |invs|
    ensures forall v :: v in r <==> v in invs && v.trailerId == id
  {
    if invs == [] then []
    else InvoicesFor(invs[..|invs| - 1], id) + (if invs[|invs| - 1].trailerId == id then [invs[|invs| - 1]] else [])
  }

  /** The invoices that do not belong to trailer `id`, in order. */
  function InvoicesNotFor(invs: seq<Invoice>, id: nat): (r: seq<Invoice>)
    ensures |r| <= |invs|
    ensures forall v :: v in r <==> v in invs && v.trailerId != id
  {
    if invs == [] then []
    else InvoicesNotFor(invs[..|invs| - 1], id) + (if invs[|invs| - 1].trailerId != id then [invs[|invs| - 1]] else [])
  }

  lemma InvoicesForAppend(invs: seq<Invoice>, v: Invoice, id: nat)
    ensures InvoicesFor(invs + [v], id) == InvoicesFor(invs, id) + (if v.trailerId == id then [v] else [])
  {
    assert (invs + [v])[..|invs|] == invs;
  }

  /** Removing one trailer's invoices leaves the other trailers' invoices as they were. */
  lemma {:induction false} InvoicesNotForKeepsOthers(invs: seq<Invoice>, id: nat, j: nat)
    requires j != id
    ensures InvoicesFor(InvoicesNotFor(invs, id), j) == InvoicesFor(invs, j)
    ensures InvoicesFor(InvoicesNotFor(invs, id), id) == []
  {
    if invs != [] {
      var p := invs[..|invs| - 1];
      var v := invs[|invs| - 1];
      InvoicesNotForKeepsOthers(p, id, j);
      InvoicesForAppend(InvoicesNotFor(p, id), v, j);
      InvoicesForAppend(InvoicesNotFor(p, id), v, id);
      assert InvoicesNotFor(invs, id) == InvoicesNotFor(p, id) + (if v.trailerId != id then [v] else []);
      if v.trailerId == id {
        assert InvoicesNotFor(p, id) + [] == InvoicesNotFor(p, id);
      }
    }
  }

  // ---------------------------------------------------------------------------
  // Creating, editing and deleting trailers
  // ---------------------------------------------------------------------------

  /** Committing a new trailer built under the
      next primary key. */
  function Insert(s: Store, t: Trailer): (s': Store)
    requires t.id == s.nextId
    ensures s'.nextId == s.nextId + 1
    ensures s'.trailers.Keys == s.trailers.Keys + {t.id} && s'.trailers[t.id] == t
    ensures Valid(s) ==> t.id !in s.trailers
    ensures forall j :: j in s.trailers && j != t.id ==> s'.trailers[j] == s.trailers[j]
    ensures s'.responses == s.responses && s'.invoices == s.invoices
    ensures Valid(s) ==> Valid(s')
  {
    s.(trailers := s.trailers[t.id := t], nextId := s.nextId + 1)
  }

  /** `s'` is `s` with trailer `id` set to `t` and every other table untouched. */
  predicate OnlyTrailer(s: Store, s': Store, id: nat, t: Trailer) {
    && s'.trailers == s.trailers[id := t]
    && s'.responses == s.responses && s'.invoices == s.invoices && s'.nextId == s.nextId
  }

  /** `POST /assign_trailer`: the trailer built from the form is stored under the
      next primary key, and nothing else changes. */
  function AssignRoute(s: Store, form: Form): (s': Store)
    ensures s'.trailers.Keys == s.trailers.Keys + {s.nextId}
    ensures s'.trailers[s.nextId] == AssignTrailer(form, s.nextId)
    ensures forall j :: j in s.trailers && j != s.nextId ==> s'.trailers[j] == s.trailers[j]
    ensures s'.responses == s.responses && s'.invoices == s.invoices && s'.nextId == s.nextId + 1
    ensures Valid(s) ==> Valid(s')
  {
    Insert(s, AssignTrailer(form, s.nextId))
  }

  /** `POST /trailer/add`: nothing is stored when the form is rejected. */
  function AddTrailerRoute(s: Store, form: Form): (o: Outcome)
    ensures o.NotFound? == false
    ensures o.Done? <==> AddTrailer(form, s.nextId).Success?
    ensures o.Failed? ==> o.store == s && o.fault == AddTrailer(form, s.nextId).error
    ensures o.Done? ==> o.store.trailers.Keys == s.trailers.Keys + {s.nextId}
    ensures o.Done? ==> o.store.trailers[s.nextId] == AddTrailer(form, s.nextId).value
    ensures o.Done? ==> forall j :: j in s.trailers && j != s.nextId ==> o.store.trailers[j] == s.trailers[j]
    ensures o.Done? ==> o.store.responses == s.responses && o.store.invoices == s.invoices
    ensures o.Done? && Valid(s) ==> Valid(o.store)
  {
    match AddTrailer(form, s.nextId)
    case Failure(e) => Failed(s, e)
    case Success(t) => Done(Insert(s, t))
  }

  /** Storing `t` as trailer `id`, with `rs` as its responses. */
  function Replace(s: Store, id: nat, t: Trailer, rs: seq<Response>): (s': Store)
    requires id in s.trailers
    ensures s'.trailers.Keys == s.trailers.Keys && s'.trailers[id] == t
    ensures ResponsesOf(s', id) == rs
    ensures forall j :: j in s.trailers && j != id ==> s'.trailers[j] == s.trailers[j]
    ensures forall j :: j != id ==> ResponsesOf(s', j) == ResponsesOf(s, j)
    ensures s'.invoices == s.invoices && s'.nextId == s.nextId
  {
    s.(trailers := s.trailers[id := t], responses := s.responses[id := rs])
  }

  lemma ReplaceValid(s: Store, id: nat, t: Trailer, rs: seq<Response>)
    requires Valid(s) && id in s.trailers && t.id == id
    ensures Valid(Replace(s, id, t, rs))
  {
  }

  /** Adding one invoice row. */
  function Append(s: Store, v: Invoice): (s': Store)
    ensures s'.invoices == s.invoices + [v]
    ensures s'.trailers == s.trailers && s'.responses == s.responses && s'.nextId == s.nextId
  {
    s.(invoices := s.invoices + [v])
  }

  lemma AppendValid(s: Store, v: Invoice)
    requires Valid(s) && v.trailerId in s.trailers
    ensures Valid(Append(s, v))
  {
    var s' := Append(s, v);
    forall i | 0 <= i < |s'.invoices| ensures s'.invoices[i].trailerId in s'.trailers {
      if i < |s.invoices| {
        assert s'.invoices[i] == s.invoices[i];
      }
    }
  }

  /** Storing a changed trailer under key `id`, its responses untouched. */
  function Put(s: Store, id: nat, t: Trailer): (s': Store)
    requires id in s.trailers
    ensures s'.trailers.Keys == s.trailers.Keys && s'.trailers[id] == t
    ensures forall j :: j in s.trailers && j != id ==> s'.trailers[j] == s.trailers[j]
    ensures s'.responses == s.responses && s'.invoices == s.invoices && s'.nextId == s.nextId
  {
    s.(trailers := s.trailers[id := t])
  }

  lemma PutValid(s: Store, id: nat, t: Trailer)
    requires Valid(s) && id in s.trailers && t.id == s.trailers[id].id
    ensures Valid(Put(s, id, t))
  {
  }

  /** `POST /trailer/<id>/edit-meta`. */
  function EditTrailerRoute(s: Store, id: nat, form: Form): (o: Outcome)
    ensures o.NotFound? <==> id !in s.trailers
    ensures o.Done? <==> id in s.trailers && EditTrailerMeta(s.trailers[id], form).Success?
    ensures o.Failed? ==> o.store == s && o.fault == EditTrailerMeta(s.trailers[id], form).error
    ensures o.Done? ==> OnlyTrailer(s, o.store, id, EditTrailerMeta(s.trailers[id], form).value)
  {
    if id !in s.trailers then NotFound
    else
      match EditTrailerMeta(s.trailers[id], form)
      case Failure(e) => Failed(s, e)
      case Success(u) => Done(Put(s, id, u))
  }

  /** `POST /trailer/<id>` as answered by `update_trailer_post`. */
  function UpdateTrailerRoute(s: Store, id: nat, form: Form): (o: Outcome)
    ensures o.NotFound? <==> id !in s.trailers
    ensures o.Done? ==> OnlyTrailer(s, o.store, id, UpdateTrailerPost(s.trailers[id], form))
    ensures !o.Failed?
  {
    if id !in s.trailers then NotFound
    else Done(Put(s, id, UpdateTrailerPost(s.trailers[id], form)))
  }

  /** `POST /trailer/<id>/update`. */
  function TrailerUpdateRoute(s: Store, id: nat, form: Form): (o: Outcome)
    ensures o.NotFound? <==> id !in s.trailers
    ensures o.Done? ==> OnlyTrailer(s, o.store, id, TrailerUpdate(s.trailers[id], form))
    ensures !o.Failed?
  {
    if id !in s.trailers then NotFound
    else Done(Put(s, id, TrailerUpdate(s.trailers[id], form)))
  }

  /** The three metadata edits keep the store well formed. */
  lemma MetaRoutesValid(s: Store, id: nat, form: Form)
    requires Valid(s)
    ensures EditTrailerRoute(s, id, form).Done? ==> Valid(EditTrailerRoute(s, id, form).store)
    ensures UpdateTrailerRoute(s, id, form).Done? ==> Valid(UpdateTrailerRoute(s, id, form).store)
    ensures TrailerUpdateRoute(s, id, form).Done? ==> Valid(TrailerUpdateRoute(s, id, form).store)
  {
    if id in s.trailers {
      var t := s.trailers[id];
      var e := EditTrailerMeta(t, form);
      if e.Success? {
        PutValid(s, id, e.value);
      }
      PutValid(s, id, UpdateTrailerPost(t, form));
      PutValid(s, id, TrailerUpdate(t, form));
    }
  }

  /** `POST /trailer/<id>/delete`: the trailer goes, and with it (by cascade) its
      responses and invoices. */
  function DeleteRoute(s: Store, id: nat): (o: Outcome)
    ensures o.NotFound? <==> id !in s.trailers
    ensures !o.Failed?
    ensures o.Done? ==> var s' := o.store;
      && s'.trailers.Keys == s.trailers.Keys - {id}
      && id !in s'.responses
      && InvoicesFor(s'.invoices, id) == []
      && (forall j :: j in s'.trailers ==> s'.trailers[j] == s.trailers[j])
      && (forall j :: j != id ==> ResponsesOf(s', j) == ResponsesOf(s, j))
      && (Valid(s) ==> Valid(s'))
  {
    if id !in s.trailers then NotFound
    else
      DeletedInvoices(s, id);
      DeletedValid(s, id);
      Done(Deleted(s, id))
  }

  /** The store without trailer `id`, its responses and its invoices. */
  function Deleted(s: Store, id: nat): Store {
    Store(s.trailers - {id}, s.responses - {id}, InvoicesNotFor(s.invoices, id), s.nextId)
  }

  lemma DeletedInvoices(s: Store, id: nat)
    ensures InvoicesFor(Deleted(s, id).invoices, id) == []
  {
    InvoicesNotForKeepsOthers(s.invoices, id, id + 1);
  }

  lemma DeletedValid(s: Store, id: nat)
    ensures Valid(s) ==> Valid(Deleted(s, id))
  {
    var invs := Deleted(s, id).invoices;
    assert forall i :: 0 <= i < |invs| ==> invs[i] in invs;
  }

  /** Deleting a trailer leaves every other trailer's invoices as they were. */
  lemma DeleteKeepsOtherInvoices(s: Store, id: nat, j: nat)
    requires id in s.trailers && j != id
    ensures InvoicesFor(DeleteRoute(s, id).store.invoices, j) == InvoicesFor(s.invoices, j)
  {
    InvoicesNotForKeepsOthers(s.invoices, id, j);
  }

  // ---------------------------------------------------------------------------
  // The inventory form
  // ---------------------------------------------------------------------------

  /** `GET /trailer/<id>`: opening the form of a Pending trailer moves it to
      In Progress; any other status is left alone. */
  function OpenForm(s: Store, id: nat): (o: Outcome)
    ensures o.NotFound? <==> id !in s.trailers
    ensures !o.Failed?
    ensures o.Done? ==>
      && o.store.trailers.Keys == s.trailers.Keys
      && o.store.trailers[id].status == (if s.trailers[id].status == Pending then InProgress else s.trailers[id].status)
      && o.store.trailers[id] == s.trailers[id].(status := o.store.trailers[id].status)
      && o.store.responses == s.responses && o.store.invoices == s.invoices
      && (Valid(s) ==> Valid(o.store))
  {
    if id !in s.trailers then NotFound
    else
      var t := s.trailers[id];
      if t.status == Pending then Done(s.(trailers := s.trailers[id := t.(status := InProgress)]))
      else Done(s)
  }

  /** `submitted_by`, when non-blank, becomes the trailer's assignee. */
  function WithSubmitter(t: Trailer, form: Form): Trailer {
    var submitter := Field(form, "submitted_by");
    if submitter != "" then t.(assignedUser := Some(submitter)) else t
  }

  /** The invoice writer's path when something is flagged and it wrote one, the
      empty path otherwise. */
  function InvoicePath(id: nat, flagged: seq<Response>, invoicer: Invoicer): (path: string)
    ensures flagged == [] ==> path == ""
    ensures flagged != [] && Truthy(invoicer(id, flagged)) ==> path == invoicer(id, flagged).value
    ensures flagged != [] && !Truthy(invoicer(id, flagged)) ==> path == ""
  {
    if flagged == [] then "" else Or(invoicer(id, flagged), "")
  }

  /** The catalog part of a submission: the responses of the trailer's list. */
  function CatalogPart(t: Trailer, form: Form, catalog: Catalog): seq<Response> {
    CatalogResponses(form, catalog(ListName(t)))
  }

  /** `POST /trailer/<id>`: replace the trailer's responses with the submitted
      ones, add one invoice row, mark the trailer Completed. When a stored extra
      uses the `item_name` keys the handler raises after its first commit: the
      catalog responses and the assignee are saved, the invoice and the status
      change are not. */
  function SubmitForm(s: Store, id: nat, form: Form, catalog: Catalog, invoicer: Invoicer): (o: Outcome)
    ensures o.NotFound? <==> id !in s.trailers
    ensures id in s.trailers ==> (o.Failed? <==> exists x :: x in ExtrasOf(s.trailers[id]) && x.ItemKeys?)
    ensures o.Failed? ==> o.fault == KeyError("name")
  {
    if id !in s.trailers then NotFound
    else
      var t := WithSubmitter(s.trailers[id], form);
      var rs := CatalogPart(t, form, catalog);
      var path := InvoicePath(id, Flagged(rs), invoicer);
      var extras := ExtrasOf(t);
      ExtrasFailIff(form, extras);
      match ExtraResponses(form, extras)
      case Failure(e) => Failed(Replace(s, id, t, rs), e)
      case Success(xr) => Done(Append(Replace(s, id, t.(status := Completed), rs + xr), Invoice(id, path)))
  }

  lemma ExtrasFailIff(form: Form, extras: seq<ExtraItem>)
    ensures ExtraResponses(form, extras).Failure? <==> exists x :: x in extras && x.ItemKeys?
    ensures ExtraResponses(form, extras).Failure? ==> ExtraResponses(form, extras).error == KeyError("name")
  {
    var slots := Enumerate(extras, 0);
    ExtraResponsesFailIff(form, slots, |extras|);
    if exists x :: x in extras && x.ItemKeys? {
      var x :| x in extras && x.ItemKeys?;
      var i :| 0 <= i < |extras| && extras[i] == x;
      assert slots[i].item.ItemKeys?;
    }
  }

  /** `POST /trailer/<id>/edit-submission`: like a submission, except that it first
      deletes every invoice of the trailer and leaves its status alone. If a
      stored extra uses the `item_name` keys, the deletions and the catalog
      responses are already committed when it raises, so the trailer is left with
      no invoice at all. */
  function EditSubmission(s: Store, id: nat, form: Form, catalog: Catalog, invoicer: Invoicer): (o: Outcome)
    ensures o.NotFound? <==> id !in s.trailers
    ensures id in s.trailers ==> (o.Failed? <==> exists x :: x in ExtrasOf(s.trailers[id]) && x.ItemKeys?)
    ensures o.Failed? ==> o.fault == KeyError("name")
  {
    if id !in s.trailers then NotFound
    else
      var t := WithSubmitter(s.trailers[id], form);
      var rs := CatalogPart(t, form, catalog);
      var cleared := s.(invoices := InvoicesNotFor(s.invoices, id));
      var path := InvoicePath(id, Flagged(rs), invoicer);
      var extras := ExtrasOf(t);
      ExtrasFailIff(form, extras);
      match ExtraResponses(form, extras)
      case Failure(e) => Failed(Replace(cleared, id, t, rs), e)
      case Success(xr) => Done(Append(Replace(cleared, id, t, rs + xr), Invoice(id, path)))
  }

  // ---------------------------------------------------------------------------
  // Properties of a submission
  // ---------------------------------------------------------------------------

  /** A completed submission marks the trailer Completed, appends exactly one
      invoice (for this trailer, with an empty path when nothing is flagged), and
      leaves every other trailer and its responses untouched. */
  lemma SubmitFormEffects(s: Store, id: nat, form: Form, catalog: Catalog, invoicer: Invoicer)
    requires SubmitForm(s, id, form, catalog, invoicer).Done?
    ensures var s' := SubmitForm(s, id, form, catalog, invoicer).store;
            var t := WithSubmitter(s.trailers[id], form);
      && s'.trailers.Keys == s.trailers.Keys
      && s'.trailers[id].status == Completed
      && |s'.invoices| == |s.invoices| + 1
      && s'.invoices[..|s.invoices|] == s.invoices
      && s'.invoices[|s.invoices|].trailerId == id
      && ResponsesOf(s', id) == CatalogResponses(form, catalog(ListName(t))) + ExtraResponses(form, ExtrasOf(t)).value
      && s'.invoices[|s.invoices|].filePath == InvoicePath(id, Flagged(CatalogPart(t, form, catalog)), invoicer)
      && |InvoicesFor(s'.invoices, id)| == |InvoicesFor(s.invoices, id)| + 1
      && (forall j :: j in s.trailers && j != id ==> s'.trailers[j] == s.trailers[j])
      && (forall j :: j != id ==> ResponsesOf(s', j) == ResponsesOf(s, j))
  {
    var t := WithSubmitter(s.trailers[id], form);
    var rs := CatalogPart(t, form, catalog);
    var xr := ExtraResponses(form, ExtrasOf(t)).value;
    var s' := Append(Replace(s, id, t.(status := Completed), rs + xr), Invoice(id, InvoicePath(id, Flagged(rs), invoicer)));
    SubmitFormStore(s, id, form, catalog, invoicer);
    InvoicesForAppend(s.invoices, s'.invoices[|s.invoices|], id);
    assert s'.invoices[..|s.invoices|] == s.invoices;
    FlaggedConcat(rs, xr);
  }

  /** The store a completed submission commits, spelled out. */
  lemma SubmitFormStore(s: Store, id: nat, form: Form, catalog: Catalog, invoicer: Invoicer)
    requires SubmitForm(s, id, form, catalog, invoicer).Done?
    ensures var t := WithSubmitter(s.trailers[id], form);
            var rs := CatalogPart(t, form, catalog);
      && ExtraResponses(form, ExtrasOf(t)).Success?
      && SubmitForm(s, id, form, catalog, invoicer).store ==
           Append(Replace(s, id, t.(status := Completed), rs + ExtraResponses(form, ExtrasOf(t)).value),
                  Invoice(id, InvoicePath(id, Flagged(rs), invoicer)))
  {
  }

  /** What both submission handlers store as the trailer's responses: the
      catalog responses followed by the credit-back responses when the extras
      can be read, and the catalog responses alone when reading them fails. */
  lemma SubmissionStoresBuilt(s: Store, id: nat, form: Form, catalog: Catalog, invoicer: Invoicer)
    requires id in s.trailers
    ensures var t := WithSubmitter(s.trailers[id], form);
            var cat := CatalogResponses(form, catalog(ListName(t)));
            var xs := ExtraResponses(form, ExtrasOf(t));
            var a := SubmitForm(s, id, form, catalog, invoicer);
            var b := EditSubmission(s, id, form, catalog, invoicer);
      && (xs.Success? ==> a.Done? && b.Done?
                          && ResponsesOf(a.store, id) == cat + xs.value
                          && ResponsesOf(b.store, id) == cat + xs.value)
      && (xs.Failure? ==> a.Failed? && b.Failed?
                          && ResponsesOf(a.store, id) == cat
                          && ResponsesOf(b.store, id) == cat)
  {
  }

  /** A completed edit leaves the trailer with exactly one invoice, whose path is
      the one written for the newly flagged catalog responses. */
  lemma EditSubmissionInvoicePath(s: Store, id: nat, form: Form, catalog: Catalog, invoicer: Invoicer)
    requires EditSubmission(s, id, form, catalog, invoicer).Done?
    ensures var t := WithSubmitter(s.trailers[id], form);
            var s' := EditSubmission(s, id, form, catalog, invoicer).store;
      InvoicesFor(s'.invoices, id) == [Invoice(id, InvoicePath(id, Flagged(CatalogPart(t, form, catalog)), invoicer))]
  {
    var t := WithSubmitter(s.trailers[id], form);
    var rs := CatalogPart(t, form, catalog);
    var rest := InvoicesNotFor(s.invoices, id);
    var cleared := s.(invoices := rest);
    var v := Invoice(id, InvoicePath(id, Flagged(rs), invoicer));
    var xr := ExtraResponses(form, ExtrasOf(t)).value;
    assert EditSubmission(s, id, form, catalog, invoicer) == Done(Append(Replace(cleared, id, t, rs + xr), v));
    InvoicesNotForKeepsOthers(s.invoices, id, id + 1);
    InvoicesForAppend(rest, v, id);
  }

  /** The converse of provenance, for both handlers: when a submission
      completes, every ticked checkbox of a catalog item and of a `name` /
      `number` extra has its response stored, for that status and built from
      that item. */
  lemma SubmissionStoresTicked(s: Store, id: nat, form: Form, catalog: Catalog, invoicer: Invoicer)
    requires SubmitForm(s, id, form, catalog, invoicer).Done?
    ensures var t := WithSubmitter(s.trailers[id], form);
            var items := catalog(ListName(t));
            var slots := Enumerate(ExtrasOf(t), 0);
            var a := ResponsesOf(SubmitForm(s, id, form, catalog, invoicer).store, id);
            var b := ResponsesOf(EditSubmission(s, id, form, catalog, invoicer).store, id);
      && (forall i, st :: 0 <= i < |items| && Checked(form, StatusKey(CatalogEntry(items[i]).fields, st)) ==>
            RecordsTick(a, form, CatalogEntry(items[i]), st) && RecordsTick(b, form, CatalogEntry(items[i]), st))
      && (forall i, st :: 0 <= i < |slots| && slots[i].item.ShortKeys?
                          && Checked(form, StatusKey(ExtraEntry(slots[i]).fields, st)) ==>
            RecordsTick(a, form, ExtraEntry(slots[i]), st) && RecordsTick(b, form, ExtraEntry(slots[i]), st))
  {
    var t := WithSubmitter(s.trailers[id], form);
    var items := catalog(ListName(t));
    var slots := Enumerate(ExtrasOf(t), 0);
    var cat := CatalogResponses(form, items);
    SubmissionStoresBuilt(s, id, form, catalog, invoicer);
    var xr := ExtraResponses(form, ExtrasOf(t)).value;
    var all := cat + xr;
    CatalogResponsesComplete(form, items);
    ExtraResponsesComplete(form, slots, |slots|);
    forall i, st | 0 <= i < |items| && Checked(form, StatusKey(CatalogEntry(items[i]).fields, st))
      ensures RecordsTick(all, form, CatalogEntry(items[i]), st)
    {
      RecordsTickConcat(cat, xr, form, CatalogEntry(items[i]), st);
    }
    forall i, st | 0 <= i < |slots| && slots[i].item.ShortKeys? && Checked(form, StatusKey(ExtraEntry(slots[i]).fields, st))
      ensures RecordsTick(all, form, ExtraEntry(slots[i]), st)
    {
      RecordsTickConcat(cat, xr, form, ExtraEntry(slots[i]), st);
    }
  }

  /** A failed first submission commits only its first step: the trailer with
      its new assignee and the catalog responses. The status, the invoices, the
      other trailers and their responses stay as they were. */
  lemma SubmitFormFailedEffects(s: Store, id: nat, form: Form, catalog: Catalog, invoicer: Invoicer)
    requires SubmitForm(s, id, form, catalog, invoicer).Failed?
    ensures var s' := SubmitForm(s, id, form, catalog, invoicer).store;
      && s'.invoices == s.invoices
      && s'.nextId == s.nextId
      && s'.trailers.Keys == s.trailers.Keys
      && s'.trailers[id] == WithSubmitter(s.trailers[id], form)
      && s'.trailers[id].status == s.trailers[id].status
      && (forall j :: j in s.trailers && j != id ==> s'.trailers[j] == s.trailers[j])
      && (forall j :: j != id ==> ResponsesOf(s', j) == ResponsesOf(s, j))
  {
    var t := WithSubmitter(s.trailers[id], form);
    var rs := CatalogPart(t, form, catalog);
    var e := ExtraResponses(form, ExtrasOf(t)).error;
    assert SubmitForm(s, id, form, catalog, invoicer) == Failed(Replace(s, id, t, rs), e);
  }

  /** Both submission handlers, whether they complete or fail, store a non-blank
      `submitted_by` as the trailer's assignee and otherwise keep the stored one;
      apart from the status of a first submission, no other field of the trailer
      changes. */
  lemma SubmitRecordsSubmitter(s: Store, id: nat, form: Form, catalog: Catalog, invoicer: Invoicer)
    requires id in s.trailers
    ensures var who := if Field(form, "submitted_by") != "" then Some(Field(form, "submitted_by"))
                       else s.trailers[id].assignedUser;
            var a := SubmitForm(s, id, form, catalog, invoicer).store.trailers[id];
            var b := EditSubmission(s, id, form, catalog, invoicer).store.trailers[id];
      && a == s.trailers[id].(assignedUser := who, status := a.status)
      && b == s.trailers[id].(assignedUser := who)
  {
  }

  /** The stored responses after a submission are the catalog responses followed
      by the credit-back responses: what was stored before does not matter. */
  lemma SubmitFormReplacesResponses(s: Store, id: nat, form: Form, catalog: Catalog, invoicer: Invoicer,
                                     prior: map<nat, seq<Response>>)
    requires id in s.trailers
    ensures var a := SubmitForm(s, id, form, catalog, invoicer);
            var b := SubmitForm(s.(responses := prior), id, form, catalog, invoicer);
      && a.Done? == b.Done?
      && (a.Done? ==> ResponsesOf(a.store, id) == ResponsesOf(b.store, id)
                      && a.store.trailers == b.store.trailers)
      && (a.Failed? ==> ResponsesOf(a.store, id) == ResponsesOf(b.store, id))
  {
  }

  /** Every response a completed submission stores comes from the trailer's
      catalog list or from one of its `name` / `number` extras. */
  lemma SubmitFormProvenance(s: Store, id: nat, form: Form, catalog: Catalog, invoicer: Invoicer)
    requires SubmitForm(s, id, form, catalog, invoicer).Done?
    ensures var t := WithSubmitter(s.trailers[id], form);
            var extras := ExtrasOf(t);
      forall r :: r in ResponsesOf(SubmitForm(s, id, form, catalog, invoicer).store, id) ==>
        FromCatalog(form, catalog(ListName(t)), r) || FromExtras(form, Enumerate(extras, 0), |extras|, r)
  {
    var t := WithSubmitter(s.trailers[id], form);
    var extras := ExtrasOf(t);
    CatalogResponsesProvenance(form, catalog(ListName(t)));
    ExtraResponsesProvenance(form, Enumerate(extras, 0), |extras|);
  }

  /** Submitting the same form again stores the same responses and trailer, and
      adds one more invoice. */
  lemma SubmitFormTwice(s: Store, id: nat, form: Form, catalog: Catalog, invoicer: Invoicer)
    requires SubmitForm(s, id, form, catalog, invoicer).Done?
    ensures var s1 := SubmitForm(s, id, form, catalog, invoicer).store;
            var o2 := SubmitForm(s1, id, form, catalog, invoicer);
      && o2.Done?
      && ResponsesOf(o2.store, id) == ResponsesOf(s1, id)
      && o2.store.trailers == s1.trailers
      && |o2.store.invoices| == |s1.invoices| + 1
  {
    var t := WithSubmitter(s.trailers[id], form);
    var s1 := SubmitForm(s, id, form, catalog, invoicer).store;
    var t1 := s1.trailers[id];
    assert t1 == t.(status := Completed);
    assert WithSubmitter(t1, form) == t1;
    assert ListName(t1) == ListName(t) && ExtrasOf(t1) == ExtrasOf(t);
    assert CatalogPart(t1, form, catalog) == CatalogPart(t, form, catalog);
    assert ExtraResponses(form, ExtrasOf(t1)) == ExtraResponses(form, ExtrasOf(t));
  }

  /** A submission keeps the store well formed, whether it completes or fails. */
  lemma SubmitFormValid(s: Store, id: nat, form: Form, catalog: Catalog, invoicer: Invoicer)
    requires Valid(s) && id in s.trailers
    ensures var o := SubmitForm(s, id, form, catalog, invoicer);
      (o.Done? || o.Failed?) && Valid(o.store)
  {
    var t := WithSubmitter(s.trailers[id], form);
    var rs := CatalogPart(t, form, catalog);
    var extras := ExtrasOf(t);
    ReplaceValid(s, id, t, rs);
    match ExtraResponses(form, extras)
    case Failure(_) =>
    case Success(xr) =>
      var r := Replace(s, id, t.(status := Completed), rs + xr);
      ReplaceValid(s, id, t.(status := Completed), rs + xr);
      AppendValid(r, Invoice(id, InvoicePath(id, Flagged(rs), invoicer)));
  }

  // ---------------------------------------------------------------------------
  // Properties of an edited submission
  // ---------------------------------------------------------------------------

  /** After an edited submission the trailer has exactly one invoice when it
      completes and none when it fails; its status is unchanged either way, and
      the other trailers keep their invoices. */
  lemma EditSubmissionInvoices(s: Store, id: nat, form: Form, catalog: Catalog, invoicer: Invoicer, j: nat)
    requires id in s.trailers && j != id
    ensures var o := EditSubmission(s, id, form, catalog, invoicer);
      && (o.Done? ==> |InvoicesFor(o.store.invoices, id)| == 1)
      && (o.Failed? ==> InvoicesFor(o.store.invoices, id) == [])
      && (o.Done? || o.Failed?)
      && o.store.trailers[id].status == s.trailers[id].status
      && InvoicesFor(o.store.invoices, j) == InvoicesFor(s.invoices, j)
  {
    var t := WithSubmitter(s.trailers[id], form);
    var rs := CatalogPart(t, form, catalog);
    var rest := InvoicesNotFor(s.invoices, id);
    var cleared := s.(invoices := rest);
    InvoicesNotForKeepsOthers(s.invoices, id, j);
    match ExtraResponses(form, ExtrasOf(t))
    case Failure(e) =>
      assert EditSubmission(s, id, form, catalog, invoicer) == Failed(Replace(cleared, id, t, rs), e);
    case Success(xr) =>
      var v := Invoice(id, InvoicePath(id, Flagged(rs), invoicer));
      assert EditSubmission(s, id, form, catalog, invoicer) == Done(Append(Replace(cleared, id, t, rs + xr), v));
      InvoicesForAppend(rest, v, id);
      InvoicesForAppend(rest, v, j);
  }

  /** An edited submission, completed or failed, changes only its own trailer:
      that trailer gets its new assignee, and every other trailer and response
      list is left as it was. */
  lemma EditSubmissionEffects(s: Store, id: nat, form: Form, catalog: Catalog, invoicer: Invoicer)
    requires id in s.trailers
    ensures var o := EditSubmission(s, id, form, catalog, invoicer);
      && (o.Done? || o.Failed?)
      && o.store.nextId == s.nextId
      && o.store.trailers.Keys == s.trailers.Keys
      && o.store.trailers[id] == WithSubmitter(s.trailers[id], form)
      && (forall j :: j in s.trailers && j != id ==> o.store.trailers[j] == s.trailers[j])
      && (forall j :: j != id ==> ResponsesOf(o.store, j) == ResponsesOf(s, j))
  {
    var t := WithSubmitter(s.trailers[id], form);
    var rs := CatalogPart(t, form, catalog);
    var cleared := s.(invoices := InvoicesNotFor(s.invoices, id));
    var r := Replace(cleared, id, t, rs);
    match ExtraResponses(form, ExtrasOf(t))
    case Failure(e) =>
      assert EditSubmission(s, id, form, catalog, invoicer) == Failed(r, e);
    case Success(xr) =>
      var v := Invoice(id, InvoicePath(id, Flagged(rs), invoicer));
      assert EditSubmission(s, id, form, catalog, invoicer) == Done(Append(Replace(cleared, id, t, rs + xr), v));
  }

  /** The invoice table after an edited submission: the trailer's old invoices
      are gone, every other invoice stays in order, and a completed edit appends
      the one just written. */
  lemma EditSubmissionStoresInvoices(s: Store, id: nat, form: Form, catalog: Catalog, invoicer: Invoicer)
    requires id in s.trailers
    ensures var o := EditSubmission(s, id, form, catalog, invoicer);
            var t := WithSubmitter(s.trailers[id], form);
            var v := Invoice(id, InvoicePath(id, Flagged(CatalogPart(t, form, catalog)), invoicer));
      && (o.Done? ==> o.store.invoices == InvoicesNotFor(s.invoices, id) + [v])
      && (o.Failed? ==> o.store.invoices == InvoicesNotFor(s.invoices, id))
  {
    var t := WithSubmitter(s.trailers[id], form);
    var rs := CatalogPart(t, form, catalog);
    var cleared := s.(invoices := InvoicesNotFor(s.invoices, id));
    match ExtraResponses(form, ExtrasOf(t))
    case Failure(e) =>
      assert EditSubmission(s, id, form, catalog, invoicer) == Failed(Replace(cleared, id, t, rs), e);
    case Success(xr) =>
      var v := Invoice(id, InvoicePath(id, Flagged(rs), invoicer));
      assert EditSubmission(s, id, form, catalog, invoicer) == Done(Append(Replace(cleared, id, t, rs + xr), v));
  }

  /** An edited submission stores the same responses a first submission of the
      same form would have. */
  lemma EditMatchesSubmit(s: Store, id: nat, form: Form, catalog: Catalog, invoicer: Invoicer)
    requires id in s.trailers
    ensures var a := SubmitForm(s, id, form, catalog, invoicer);
            var b := EditSubmission(s, id, form, catalog, invoicer);
      && a.Done? == b.Done?
      && ResponsesOf(a.store, id) == ResponsesOf(b.store, id)
      && a.store.trailers[id].assignedUser == b.store.trailers[id].assignedUser
  {
  }

  /** An edited submission keeps the store well formed. */
  lemma EditSubmissionValid(s: Store, id: nat, form: Form, catalog: Catalog, invoicer: Invoicer)
    requires Valid(s) && id in s.trailers
    ensures var o := EditSubmission(s, id, form, catalog, invoicer);
      (o.Done? || o.Failed?) && Valid(o.store)
  {
    var t := WithSubmitter(s.trailers[id], form);
    var rs := CatalogPart(t, form, catalog);
    var extras := ExtrasOf(t);
    var cleared := s.(invoices := InvoicesNotFor(s.invoices, id));
    assert Valid(cleared) by {
      var invs := cleared.invoices;
      forall i | 0 <= i < |invs| ensures invs[i].trailerId in s.trailers {
        assert invs[i] in invs;
      }
    }
    ReplaceValid(cleared, id, t, rs);
    match ExtraResponses(form, extras)
    case Failure(_) =>
    case Success(xr) =>
      var r := Replace(cleared, id, t, rs + xr);
      ReplaceValid(cleared, id, t, rs + xr);
      AppendValid(r, Invoice(id, InvoicePath(id, Flagged(rs), invoicer)));
  }
}
