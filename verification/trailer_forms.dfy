/** The four handlers that create or edit a trailer's metadata from a posted form:
    `assign_trailer`, `update_trailer_post` and `trailer_update` of
    routes/trailer_assignment.py, and `add_trailer` / `edit_trailer` of
    routes/inventory.py. Each is a pure function from the posted form (and the
    stored trailer, when editing) to the trailer that gets committed. */
module TrailerForms {
  import opened Common
  import opened Text
  import opened Forms
  import opened Records
  import opened ExtraRows

  // ---------------------------------------------------------------------------
  // Field readers shared by the handlers
  // ---------------------------------------------------------------------------

  /** The first value posted under `key`, trimmed; blank when absent. */
  function Field(form: Form, key: string): (r: string)
    ensures Trimmed(r)
  {
    Strip(Or(Get(form, key), ""))
  }

  /** No leading or trailing whitespace. */
  predicate Trimmed(s: string) {
    s == [] || (!IsSpace(s[0]) && !IsSpace(s[|s| - 1]))
  }

  /** `text or fallback` for a stripped text and a stored string. */
  function Keep(text: string, stored: string): (r: string)
    ensures text != "" ==> r == text
    ensures text == "" ==> r == stored
  {
    if text != "" then text else stored
  }

  /** `value or None` for a stored optional string: blank becomes NULL. */
  function NoneIfBlank(v: Option<string>): Option<string> {
    if Truthy(v) then v else None
  }

  /** A blank or absent value is stored as NULL, any other as it is. */
  lemma NoneIfBlankFacts(v: Option<string>)
    ensures NoneIfBlank(v).Some? <==> Truthy(v)
    ensures NoneIfBlank(v).Some? ==> NoneIfBlank(v) == v
  {
  }

  /** The assignee text of a form: the posted `assigned_user` when it is non-empty,
      else the trimmed `submitted_by`, trimmed (routes/trailer_assignment.py:24). A
      whitespace-only `assigned_user` wins over `submitted_by` and trims to blank. */
  function AssigneeText(form: Form): (r: string)
    ensures Trimmed(r)
  {
    Strip(Or(Get(form, "assigned_user"), Field(form, "submitted_by")))
  }

  /** The credit-back checkbox is ticked. */
  predicate CreditBackOn(form: Form) {
    Checked(form, "enable_credit_back")
  }

  // ---------------------------------------------------------------------------
  // trailer_assignment.py: assign_trailer
  // ---------------------------------------------------------------------------

  /** The trailer `assign_trailer` creates under primary key `id`. */
  function AssignTrailer(form: Form, id: nat): (t: Trailer)
    ensures t.id == id && t.status == Pending
    ensures t.toolingListName == t.inventoryType == Some(Field(form, "tooling_list_name"))
    ensures Trimmed(t.jobName) && Trimmed(t.jobNumber) && Trimmed(t.location)
    ensures t.assignedUser.None? <==> AssigneeText(form) == ""
    ensures t.assignedUser.Some? ==> t.assignedUser.value == AssigneeText(form)
    ensures t.jobName == Field(form, "job_name") && t.jobNumber == Field(form, "job_number")
    ensures t.location == Field(form, "location")
    ensures Field(form, "trailer_id") != "" ==> t.externalId == Some(Field(form, "trailer_id"))
    ensures Field(form, "trailer_id") == "" ==> t.externalId.None?
    ensures Field(form, "foreman_name") != "" ==> t.foremanName == Some(Field(form, "foreman_name"))
    ensures Field(form, "foreman_name") == "" ==> t.foremanName.None?
    ensures t.extras.Some? <==> CreditBackOn(form) && ParseRows(PostedColumns(form)) != []
    ensures t.extras.Some? ==> t.extras.value == ParseRows(PostedColumns(form))
    ensures t.extras.Some? ==> forall x :: x in t.extras.value ==> Kept(x) && x.category != ""
  {
    var tooling := Field(form, "tooling_list_name");
    var assignee := AssigneeText(form);
    var rows := if CreditBackOn(form) then ParseRows(PostedColumns(form)) else [];
    ParseRowsKept(PostedColumns(form));
    NoneIfBlankFacts(Some(Field(form, "trailer_id")));
    NoneIfBlankFacts(Some(assignee));
    NoneIfBlankFacts(Some(Field(form, "foreman_name")));
    Trailer(
      id := id,
      externalId := NoneIfBlank(Some(Field(form, "trailer_id"))),
      jobName := Field(form, "job_name"),
      jobNumber := Field(form, "job_number"),
      location := Field(form, "location"),
      inventoryType := Some(tooling),
      assignedUser := NoneIfBlank(Some(assignee)),
      status := Pending,
      extras := if rows == [] then None else Some(rows),
      toolingListName := Some(tooling),
      foremanName := NoneIfBlank(Some(Field(form, "foreman_name"))))
  }

  /** A freshly assigned trailer's inventory form is built from exactly the list
      the assignment form named. */
  lemma AssignedListIsUsed(form: Form, id: nat)
    ensures ListName(AssignTrailer(form, id)) == Field(form, "tooling_list_name")
  {
    StripIdempotent(Or(Get(form, "tooling_list_name"), ""));
  }

  // ---------------------------------------------------------------------------
  // trailer_assignment.py: update_trailer_post
  // ---------------------------------------------------------------------------

  /** A non-blank text, else the stored optional string. */
  function KeepOpt(text: string, stored: Option<string>): Option<string> {
    if text != "" then Some(text) else stored
  }

  /** What `update_trailer_post` reads from the form before touching the trailer:
      the stripped text fields, and the parsed extra rows when credit-back is on. */
  datatype Post = Post(
    jobName: string, jobNumber: string, location: string, assignee: string,
    foreman: string, tooling: string, status: string, rows: Option<seq<ExtraItem>>)

  function ReadPost(form: Form): (p: Post)
    ensures p.jobName == Field(form, "job_name") && p.jobNumber == Field(form, "job_number")
    ensures p.location == Field(form, "location") && p.foreman == Field(form, "foreman_name")
    ensures p.tooling == Field(form, "tooling_list_name") && p.status == Field(form, "status")
    ensures p.assignee == AssigneeText(form)
    ensures p.rows.Some? <==> CreditBackOn(form)
    ensures p.rows.Some? ==> p.rows.value == ParseRows(PostedColumns(form))
    ensures p.rows.Some? ==> forall x :: x in p.rows.value ==> Kept(x)
  {
    Post(Field(form, "job_name"), Field(form, "job_number"), Field(form, "location"),
         AssigneeText(form), Field(form, "foreman_name"), Field(form, "tooling_list_name"),
         Field(form, "status"),
         if CreditBackOn(form) then Some(ParseRows(PostedColumns(form))) else None)
  }

  /** Applying a read post to the stored trailer: every blank field keeps its
      stored value, and the tooling list is mirrored into `inventory_type`. */
  function ApplyPost(t: Trailer, p: Post): (u: Trailer)
    ensures u.id == t.id && u.externalId == t.externalId
    ensures u.jobName == Keep(p.jobName, t.jobName) && u.jobNumber == Keep(p.jobNumber, t.jobNumber)
    ensures u.location == Keep(p.location, t.location) && u.status == Keep(p.status, t.status)
    ensures p.tooling != "" ==> u.toolingListName == Some(p.tooling)
    ensures p.tooling == "" ==> u.toolingListName == t.toolingListName
    ensures u.inventoryType == u.toolingListName
    ensures p.assignee != "" ==> u.assignedUser == Some(p.assignee)
    ensures p.assignee == "" ==> u.assignedUser == NoneIfBlank(t.assignedUser)
    ensures p.foreman != "" ==> u.foremanName == Some(p.foreman)
    ensures p.foreman == "" ==> u.foremanName == NoneIfBlank(t.foremanName)
    ensures p.rows.None? ==> u.extras == t.extras
    ensures p.rows.Some? ==> u.extras == p.rows
  {
    var tooling := KeepOpt(p.tooling, t.toolingListName);
    Trailer(
      id := t.id,
      externalId := t.externalId,
      jobName := Keep(p.jobName, t.jobName),
      jobNumber := Keep(p.jobNumber, t.jobNumber),
      location := Keep(p.location, t.location),
      inventoryType := tooling,
      assignedUser := NoneIfBlank(KeepOpt(p.assignee, t.assignedUser)),
      status := Keep(p.status, t.status),
      extras := if p.rows.Some? then p.rows else t.extras,
      toolingListName := tooling,
      foremanName := NoneIfBlank(KeepOpt(p.foreman, t.foremanName)))
  }

  /** The trailer `update_trailer_post` commits. */
  function UpdateTrailerPost(t: Trailer, form: Form): (u: Trailer)
    ensures u.id == t.id && u.externalId == t.externalId
    ensures u.jobName == Keep(Field(form, "job_name"), t.jobName)
    ensures u.jobNumber == Keep(Field(form, "job_number"), t.jobNumber)
    ensures u.location == Keep(Field(form, "location"), t.location)
    ensures u.status == Keep(Field(form, "status"), t.status)
    ensures Field(form, "tooling_list_name") != "" ==> u.toolingListName == Some(Field(form, "tooling_list_name"))
    ensures Field(form, "tooling_list_name") == "" ==> u.toolingListName == t.toolingListName
    ensures u.inventoryType == u.toolingListName
    ensures AssigneeText(form) != "" ==> u.assignedUser == Some(AssigneeText(form))
    ensures AssigneeText(form) == "" ==> u.assignedUser == NoneIfBlank(t.assignedUser)
    ensures Field(form, "foreman_name") != "" ==> u.foremanName == Some(Field(form, "foreman_name"))
    ensures Field(form, "foreman_name") == "" ==> u.foremanName == NoneIfBlank(t.foremanName)
    ensures !CreditBackOn(form) ==> u.extras == t.extras
    ensures CreditBackOn(form) ==> u.extras == Some(ParseRows(PostedColumns(form)))
  {
    ApplyPost(t, ReadPost(form))
  }

  /** A post never blanks a field that was filled in, and never stores a blank
      assignee or foreman. */
  lemma ApplyPostKeepsFilled(t: Trailer, p: Post)
    ensures var u := ApplyPost(t, p);
      && (t.jobName != "" ==> u.jobName != "")
      && (t.jobNumber != "" ==> u.jobNumber != "")
      && (t.location != "" ==> u.location != "")
      && (t.status != "" ==> u.status != "")
      && (Truthy(t.assignedUser) ==> Truthy(u.assignedUser))
      && (Truthy(t.foremanName) ==> Truthy(u.foremanName))
      && (u.assignedUser.Some? ==> u.assignedUser.value != "")
      && (u.foremanName.Some? ==> u.foremanName.value != "")
  {
  }

  lemma UpdateTrailerPostKeepsFilled(t: Trailer, form: Form)
    ensures var u := UpdateTrailerPost(t, form);
      && (t.jobName != "" ==> u.jobName != "")
      && (t.jobNumber != "" ==> u.jobNumber != "")
      && (t.location != "" ==> u.location != "")
      && (t.status != "" ==> u.status != "")
      && (Truthy(t.assignedUser) ==> Truthy(u.assignedUser))
      && (Truthy(t.foremanName) ==> Truthy(u.foremanName))
      && (u.assignedUser.Some? ==> u.assignedUser.value != "")
      && (u.foremanName.Some? ==> u.foremanName.value != "")
  {
    ApplyPostKeepsFilled(t, ReadPost(form));
  }

  lemma ApplyPostIdempotent(t: Trailer, p: Post)
    ensures ApplyPost(ApplyPost(t, p), p) == ApplyPost(t, p)
  {
  }

  /** Posting the same form twice leaves the trailer as the first post did. */
  lemma UpdateTrailerPostIdempotent(t: Trailer, form: Form)
    ensures UpdateTrailerPost(UpdateTrailerPost(t, form), form) == UpdateTrailerPost(t, form)
  {
    ApplyPostIdempotent(t, ReadPost(form));
  }

  /** An empty form reads as a post with every field blank and no rows. */
  lemma ReadPostEmpty(form: Form)
    requires |form| == 0
    ensures ReadPost(form) == Post("", "", "", "", "", "", "", None)
  {
    EmptyFormKeys(form);
    ReadPostEmptyJob(form);
    ReadPostEmptyRest(form);
  }

  /** The field names `update_trailer_post` reads are all absent from an empty form. */
  lemma EmptyFormKeys(form: Form)
    requires |form| == 0
    ensures "job_name" !in form && "job_number" !in form && "location" !in form && "foreman_name" !in form
    ensures "tooling_list_name" !in form && "status" !in form && "submitted_by" !in form
    ensures "assigned_user" !in form && "enable_credit_back" !in form
  {
  }

  /** Without the job fields, location and foreman in the form, those read as blank. */
  lemma ReadPostEmptyJob(form: Form)
    requires "job_name" !in form && "job_number" !in form && "location" !in form && "foreman_name" !in form
    ensures var p := ReadPost(form);
      p.jobName == "" && p.jobNumber == "" && p.location == "" && p.foreman == ""
  {
    FieldAbsent(form, "job_name");
    FieldAbsent(form, "job_number");
    FieldAbsent(form, "location");
    FieldAbsent(form, "foreman_name");
  }

  /** Without assignee, tooling list, status and credit-back fields, those read as
      blank and no rows are read. */
  lemma ReadPostEmptyRest(form: Form)
    requires "tooling_list_name" !in form && "status" !in form && "submitted_by" !in form
    requires "assigned_user" !in form && "enable_credit_back" !in form
    ensures var p := ReadPost(form);
      p.assignee == "" && p.tooling == "" && p.status == "" && p.rows == None
  {
    FieldAbsent(form, "tooling_list_name");
    FieldAbsent(form, "status");
    FieldAbsent(form, "submitted_by");
    FieldAbsent(form, "assigned_user");
  }

  /** A field that was not posted reads as blank. */
  lemma FieldAbsent(form: Form, key: string)
    requires key !in form
    ensures Get(form, key) == None && Field(form, key) == "" && Strip(Field(form, key)) == ""
  {
    assert Strip("") == "";
  }

  /** A post that carries no fields changes nothing but the `inventory_type`
      mirror and the clearing of blank names. */
  lemma UpdateTrailerPostEmptyForm(t: Trailer, form: Form)
    requires |form| == 0
    ensures UpdateTrailerPost(t, form) ==
              t.(inventoryType := t.toolingListName,
                 assignedUser := NoneIfBlank(t.assignedUser),
                 foremanName := NoneIfBlank(t.foremanName))
  {
    ReadPostEmpty(form);
  }

  // ---------------------------------------------------------------------------
  // trailer_assignment.py: trailer_update
  // ---------------------------------------------------------------------------

  /** The first non-empty of the posted value, the stored value and the default,
      trimmed (routes/trailer_assignment.py:152, :155). */
  function StripOr(posted: Option<string>, stored: string, default: string): (r: string)
    ensures Trimmed(r)
    ensures Truthy(posted) ==> r == Strip(posted.value)
    ensures !Truthy(posted) && stored != "" ==> r == Strip(stored)
    ensures !Truthy(posted) && stored == "" ==> r == Strip(default)
  {
    Strip(Or(posted, if stored != "" then stored else default))
  }

  /** A field read with a blank default: the posted value when it is non-empty,
      else the stored one, stripped either way. */
  function StripOrStored(posted: Option<string>, stored: string): (r: string)
    ensures Trimmed(r)
    ensures Truthy(posted) ==> r == Strip(posted.value)
    ensures !Truthy(posted) ==> r == Strip(stored)
  {
    StripOr(posted, stored, "")
  }

  /** An optional job field: untouched when it is not posted, otherwise read
      like the location. */
  function PatchJob(posted: Option<string>, stored: string): (r: string)
    ensures posted.None? ==> r == stored
    ensures Truthy(posted) ==> r == Strip(posted.value)
    ensures posted.Some? && !Truthy(posted) ==> r == Strip(stored)
  {
    if posted.Some? then StripOrStored(posted, stored) else stored
  }

  /** What `trailer_update` reads from the form: the raw values of the fields it
      strips against a stored fallback (`None` when the field is not posted), the
      assignee, and the parsed extra rows when `enable_credit_back` is posted. */
  datatype Patch = Patch(
    location: Option<string>, assignee: string, status: Option<string>,
    jobName: Option<string>, jobNumber: Option<string>, rows: Option<seq<ExtraItem>>)

  function ReadPatch(form: Form): (p: Patch)
    ensures p.location == Get(form, "location") && p.status == Get(form, "status")
    ensures p.assignee == AssigneeText(form)
    ensures p.jobName == Get(form, "job_name") && p.jobNumber == Get(form, "job_number")
    ensures p.jobName.Some? <==> Has(form, "job_name")
    ensures p.jobNumber.Some? <==> Has(form, "job_number")
    ensures p.rows.Some? <==> Has(form, "enable_credit_back")
    ensures p.rows.Some? ==> p.rows.value == ParseRows(PostedColumns(form))
    ensures p.rows.Some? ==> forall x :: x in p.rows.value ==> Kept(x)
  {
    Patch(Get(form, "location"), AssigneeText(form), Get(form, "status"),
          Get(form, "job_name"), Get(form, "job_number"),
          if Has(form, "enable_credit_back") then Some(ParseRows(PostedColumns(form))) else None)
  }

  /** Applying a read patch. Unlike `update_trailer_post` it does not fall back to
      the stored assignee, and it replaces the extras whenever the credit-back
      field is posted at all, storing NULL for an empty list. */
  function ApplyPatch(t: Trailer, p: Patch): (u: Trailer)
    ensures u.id == t.id && u.externalId == t.externalId
    ensures u.inventoryType == t.inventoryType && u.toolingListName == t.toolingListName
    ensures u.foremanName == t.foremanName
    ensures Trimmed(u.location) && Trimmed(u.status)
    ensures Truthy(p.location) ==> u.location == Strip(p.location.value)
    ensures !Truthy(p.location) ==> u.location == Strip(t.location)
    ensures Truthy(p.status) ==> u.status == Strip(p.status.value)
    ensures !Truthy(p.status) && t.status != "" ==> u.status == Strip(t.status)
    ensures !Truthy(p.status) && t.status == "" ==> u.status == Pending
    ensures u.assignedUser.None? <==> p.assignee == ""
    ensures u.assignedUser.Some? ==> u.assignedUser.value == p.assignee
    ensures p.jobName.None? ==> u.jobName == t.jobName
    ensures Truthy(p.jobName) ==> u.jobName == Strip(p.jobName.value)
    ensures p.jobName.Some? && !Truthy(p.jobName) ==> u.jobName == Strip(t.jobName)
    ensures p.jobNumber.None? ==> u.jobNumber == t.jobNumber
    ensures Truthy(p.jobNumber) ==> u.jobNumber == Strip(p.jobNumber.value)
    ensures p.jobNumber.Some? && !Truthy(p.jobNumber) ==> u.jobNumber == Strip(t.jobNumber)
    ensures p.rows.None? ==> u.extras == t.extras
    ensures p.rows.Some? && p.rows.value == [] ==> u.extras.None?
    ensures p.rows.Some? && p.rows.value != [] ==> u.extras == p.rows
  {
    StripKeepsTrimmed(Pending);
    t.(
      location := StripOrStored(p.location, t.location),
      assignedUser := NoneIfBlank(Some(p.assignee)),
      status := StripOr(p.status, t.status, Pending),
      jobName := PatchJob(p.jobName, t.jobName),
      jobNumber := PatchJob(p.jobNumber, t.jobNumber),
      extras := if p.rows.Some? then (if p.rows.value == [] then None else p.rows) else t.extras)
  }

  /** The trailer `trailer_update` commits. */
  function TrailerUpdate(t: Trailer, form: Form): (u: Trailer)
    ensures u.id == t.id && u.externalId == t.externalId
    ensures u.inventoryType == t.inventoryType && u.toolingListName == t.toolingListName
    ensures u.foremanName == t.foremanName
    ensures Trimmed(u.location) && Trimmed(u.status)
    ensures u.assignedUser.None? <==> AssigneeText(form) == ""
    ensures u.assignedUser.Some? ==> u.assignedUser.value == AssigneeText(form)
    ensures !Has(form, "job_name") ==> u.jobName == t.jobName
    ensures !Has(form, "job_number") ==> u.jobNumber == t.jobNumber
    ensures Truthy(Get(form, "location")) ==> u.location == Field(form, "location")
    ensures !Truthy(Get(form, "location")) ==> u.location == Strip(t.location)
    ensures Truthy(Get(form, "status")) ==> u.status == Field(form, "status")
    ensures !Truthy(Get(form, "status")) && t.status != "" ==> u.status == Strip(t.status)
    ensures !Truthy(Get(form, "status")) && t.status == "" ==> u.status == Pending
    ensures !Has(form, "job_name") ==> u.jobName == t.jobName
    ensures Truthy(Get(form, "job_name")) ==> u.jobName == Field(form, "job_name")
    ensures Has(form, "job_name") && !Truthy(Get(form, "job_name")) ==> u.jobName == Strip(t.jobName)
    ensures !Has(form, "job_number") ==> u.jobNumber == t.jobNumber
    ensures Truthy(Get(form, "job_number")) ==> u.jobNumber == Field(form, "job_number")
    ensures Has(form, "job_number") && !Truthy(Get(form, "job_number")) ==> u.jobNumber == Strip(t.jobNumber)
    ensures !Has(form, "enable_credit_back") ==> u.extras == t.extras
    ensures Has(form, "enable_credit_back") && ParseRows(PostedColumns(form)) == [] ==> u.extras.None?
    ensures Has(form, "enable_credit_back") && ParseRows(PostedColumns(form)) != [] ==>
              u.extras == Some(ParseRows(PostedColumns(form)))
  {
    ApplyPatch(t, ReadPatch(form))
  }

  /** Re-applying a strip-with-fallback to its own result changes nothing, unless
      the stored value was all whitespace and a non-blank default takes over. */
  lemma StripOrIdempotent(posted: Option<string>, stored: string, default: string)
    requires default == "" || Trimmed(stored)
    ensures StripOr(posted, StripOr(posted, stored, default), default) == StripOr(posted, stored, default)
  {
    if !Truthy(posted) {
      var x := if stored != "" then stored else default;
      var r := Strip(x);
      assert StripOr(posted, stored, default) == r;
      if r != "" {
        StripIdempotent(x);
        assert StripOr(posted, r, default) == Strip(r);
      } else if default == "" {
        assert StripOr(posted, r, default) == Strip("");
      } else {
        assert stored == "" by {
          if stored != "" { StripKeepsTrimmed(stored); }
        }
        assert StripOr(posted, r, default) == Strip(default);
      }
    }
  }

  lemma ApplyPatchIdempotent(t: Trailer, p: Patch)
    requires Trimmed(t.status)
    ensures ApplyPatch(ApplyPatch(t, p), p) == ApplyPatch(t, p)
  {
    var u := ApplyPatch(t, p);
    var v := ApplyPatch(u, p);
    StripOrIdempotent(p.location, t.location, "");
    assert v.location == u.location;
    StripOrIdempotent(p.status, t.status, Pending);
    assert v.status == u.status;
    if p.jobName.Some? {
      StripOrIdempotent(p.jobName, t.jobName, "");
    }
    assert v.jobName == u.jobName;
    if p.jobNumber.Some? {
      StripOrIdempotent(p.jobNumber, t.jobNumber, "");
    }
    assert v.jobNumber == u.jobNumber;
    assert v.extras == u.extras;
  }

  /** Posting the same form twice has the effect of posting it once, for a trailer
      whose stored status carries no stray whitespace. */
  lemma TrailerUpdateIdempotent(t: Trailer, form: Form)
    requires Trimmed(t.status)
    ensures TrailerUpdate(TrailerUpdate(t, form), form) == TrailerUpdate(t, form)
  {
    ApplyPatchIdempotent(t, ReadPatch(form));
  }

  /** A blank status field never leaves the trailer without a status: a trimmed
      stored one is kept, and `Pending` is used when there was none. */
  lemma TrailerUpdateKeepsStatus(t: Trailer, form: Form)
    requires !Truthy(Get(form, "status"))
    ensures t.status != "" && Trimmed(t.status) ==> TrailerUpdate(t, form).status == t.status
    ensures t.status == "" ==> TrailerUpdate(t, form).status == Pending
  {
    if t.status != "" && Trimmed(t.status) {
      StripKeepsTrimmed(t.status);
    }
    StripKeepsTrimmed(Pending);
  }

  // ---------------------------------------------------------------------------
  // inventory.py: add_trailer and edit_trailer
  // ---------------------------------------------------------------------------

  /** The `tool_name` / `tool_number` / `tool_qty` rows of the form. */
  function ToolCells(form: Form): seq<Cell> {
    ZipCells(GetList(form, "tool_name"), GetList(form, "tool_number"), GetList(form, "tool_qty"))
  }

  /** The first of the two required job fields that was not posted, if any: reading
      it raises `KeyError` (routes/inventory.py:89-90). */
  function MissingJobField(form: Form): Option<string> {
    if !Has(form, "job_name") then Some("job_name")
    else if !Has(form, "job_number") then Some("job_number")
    else None
  }

  /** `add_trailer`: the rows are read first, so an unreadable quantity wins over a
      missing job field; both abort the request before anything is stored. */
  function AddTrailer(form: Form, id: nat): (r: Result<Trailer, Fault>)
    ensures r.Success? <==> !AnyBad(ToolCells(form)) && Has(form, "job_name") && Has(form, "job_number")
    ensures AnyBad(ToolCells(form)) ==> r.Failure? && r.error.ValueError?
    ensures !AnyBad(ToolCells(form)) && MissingJobField(form).Some? ==>
              r == Failure(KeyError(MissingJobField(form).value))
    ensures r.Success? ==> var t := r.value;
              && t.id == id && t.status == Pending
              && t.jobName == Get(form, "job_name").value
              && t.jobNumber == Get(form, "job_number").value
              && t.location == Or(Get(form, "location"), "")
              && t.toolingListName == Some(Or(Get(form, "tooling_list_name"), "Standard Trailer"))
              && t.toolingListName.value != ""
              && t.inventoryType == OrOpt(Get(form, "inventory_type"), None)
              && t.assignedUser == OrOpt(Get(form, "assigned_user"), None)
              && (t.assignedUser.Some? ==> t.assignedUser.value != "")
              && t.externalId.None? && t.foremanName.None?
              && t.extras == Some(ZipItems(ToolCells(form)).value)
              && (forall x :: x in t.extras.value <==> Yields(ToolCells(form), x))
  {
    match ZipItems(ToolCells(form))
    case Failure(e) => Failure(e)
    case Success(items) =>
      match MissingJobField(form)
      case Some(key) => Failure(KeyError(key))
      case None =>
        Success(Trailer(
          id := id,
          externalId := None,
          jobName := Get(form, "job_name").value,
          jobNumber := Get(form, "job_number").value,
          location := Or(Get(form, "location"), ""),
          inventoryType := OrOpt(Get(form, "inventory_type"), None),
          assignedUser := OrOpt(Get(form, "assigned_user"), None),
          status := Pending,
          extras := Some(items),
          toolingListName := Some(Or(Get(form, "tooling_list_name"), "Standard Trailer")),
          foremanName := None))
  }

  /** `edit_trailer`: like `add_trailer` it fails before changing anything; on
      success it keeps the status, the inventory type, the external id and the
      foreman, and replaces the extras outright. */
  function EditTrailerMeta(t: Trailer, form: Form): (r: Result<Trailer, Fault>)
    ensures r.Success? <==> !AnyBad(ToolCells(form)) && Has(form, "job_name") && Has(form, "job_number")
    ensures AnyBad(ToolCells(form)) ==> r.Failure? && r.error.ValueError?
    ensures !AnyBad(ToolCells(form)) && MissingJobField(form).Some? ==>
              r == Failure(KeyError(MissingJobField(form).value))
    ensures r.Success? ==> var u := r.value;
              && u.id == t.id && u.status == t.status && u.inventoryType == t.inventoryType
              && u.externalId == t.externalId && u.foremanName == t.foremanName
              && u.jobName == Get(form, "job_name").value
              && u.jobNumber == Get(form, "job_number").value
              && u.location == Or(Get(form, "location"), "")
              && u.toolingListName == OrOpt(Get(form, "tooling_list_name"), t.toolingListName)
              && u.assignedUser == OrOpt(Get(form, "assigned_user"), t.assignedUser)
              && (Truthy(t.toolingListName) ==> Truthy(u.toolingListName))
              && (Truthy(t.assignedUser) ==> Truthy(u.assignedUser))
              && u.extras == Some(ZipItems(ToolCells(form)).value)
              && (forall x :: x in u.extras.value <==> Yields(ToolCells(form), x))
  {
    match ZipItems(ToolCells(form))
    case Failure(e) => Failure(e)
    case Success(items) =>
      match MissingJobField(form)
      case Some(key) => Failure(KeyError(key))
      case None =>
        Success(t.(
          jobName := Get(form, "job_name").value,
          jobNumber := Get(form, "job_number").value,
          location := Or(Get(form, "location"), ""),
          toolingListName := OrOpt(Get(form, "tooling_list_name"), t.toolingListName),
          assignedUser := OrOpt(Get(form, "assigned_user"), t.assignedUser),
          extras := Some(items)))
  }

  /** Adding and editing read the job fields, the location and the tool rows the
      same way: whenever a form would add a trailer, it edits any trailer to the
      same values for those fields. */
  lemma AddAndEditAgree(form: Form, id: nat, t: Trailer)
    ensures AddTrailer(form, id).Success? <==> EditTrailerMeta(t, form).Success?
    ensures AddTrailer(form, id).Failure? ==> AddTrailer(form, id) == EditTrailerMeta(t, form)
    ensures AddTrailer(form, id).Success? ==>
              var a := AddTrailer(form, id).value;
              var e := EditTrailerMeta(t, form).value;
              a.jobName == e.jobName && a.jobNumber == e.jobNumber
              && a.location == e.location && a.extras == e.extras
  {
  }

  // ---------------------------------------------------------------------------
  // Round trip: posting a trailer's own values back through edit_trailer
  // ---------------------------------------------------------------------------

  /** Extras that `edit_trailer` can write: `name` / `number` items with both set. */
  predicate ShortExtras(xs: seq<ExtraItem>) {
    forall i :: 0 <= i < |xs| ==> xs[i].ShortKeys? && xs[i].name != "" && xs[i].number != ""
  }

  /** The cells the edit form posts for extras `xs`: name, number and the
      quantity written out in decimal. */
  function CellsOf(xs: seq<ExtraItem>): (cs: seq<Cell>)
    requires ShortExtras(xs)
    ensures |cs| == |xs|
    ensures forall i :: 0 <= i < |xs| ==>
              cs[i] == Cell(xs[i].name, xs[i].number, IntToString(xs[i].quantity), ZipQuantity(IntToString(xs[i].quantity)))
  {
    seq(|xs|, i requires 0 <= i < |xs| =>
      Cell(xs[i].name, xs[i].number, IntToString(xs[i].quantity), ZipQuantity(IntToString(xs[i].quantity))))
  }

  /** Reading back the cells of a list of extras gives the same list. */
  lemma {:induction false} ZipItemsOfCells(xs: seq<ExtraItem>)
    requires ShortExtras(xs)
    ensures ZipItems(CellsOf(xs)) == Success(xs)
  {
    if xs != [] {
      var p := xs[..|xs| - 1];
      var x := xs[|xs| - 1];
      assert ShortExtras(p);
      var cs := CellsOf(xs);
      assert cs[..|cs| - 1] == CellsOf(p);
      ZipItemsOfCells(p);
      PyIntRoundTrip(x.quantity);
      assert p + [x] == xs;
    }
  }

  /** The columns of a list of cells. */
  function NamesOf(cs: seq<Cell>): (r: seq<string>)
    ensures |r| == |cs| && forall i :: 0 <= i < |cs| ==> r[i] == cs[i].name
  {
    seq(|cs|, i requires 0 <= i < |cs| => cs[i].name)
  }

  function NumbersOf(cs: seq<Cell>): (r: seq<string>)
    ensures |r| == |cs| && forall i :: 0 <= i < |cs| ==> r[i] == cs[i].number
  {
    seq(|cs|, i requires 0 <= i < |cs| => cs[i].number)
  }

  function QtyTextsOf(cs: seq<Cell>): (r: seq<string>)
    ensures |r| == |cs| && forall i :: 0 <= i < |cs| ==> r[i] == cs[i].qtyText
  {
    seq(|cs|, i requires 0 <= i < |cs| => cs[i].qtyText)
  }

  /** `v` as a form field when it is set, nothing otherwise. */
  function OptionalField(key: string, v: Option<string>): Form {
    if v.Some? then map[key := [v.value]] else map[]
  }

  /** The edit form filled in with a trailer's current values. */
  function EditFormOf(t: Trailer): Form
    requires t.extras.Some? && ShortExtras(t.extras.value)
  {
    var cs := CellsOf(t.extras.value);
    map["job_name" := [t.jobName], "job_number" := [t.jobNumber], "location" := [t.location],
        "tool_name" := NamesOf(cs), "tool_number" := NumbersOf(cs), "tool_qty" := QtyTextsOf(cs)]
    + OptionalField("tooling_list_name", t.toolingListName)
    + OptionalField("assigned_user", t.assignedUser)
  }

  /** The edit form posts back each column of the trailer's extras. */
  lemma EditFormColumns(t: Trailer)
    requires t.extras.Some? && ShortExtras(t.extras.value)
    ensures var cs := CellsOf(t.extras.value);
      ToolCells(EditFormOf(t)) == cs
  {
    var form := EditFormOf(t);
    var cs := CellsOf(t.extras.value);
    assert GetList(form, "tool_name") == NamesOf(cs);
    assert GetList(form, "tool_number") == NumbersOf(cs);
    assert GetList(form, "tool_qty") == QtyTextsOf(cs);
    var zs := ToolCells(form);
    assert |zs| == |cs|;
    forall i | 0 <= i < |cs| ensures zs[i] == cs[i] {
    }
  }

  /** The edit form posts back each text field of the trailer. */
  lemma EditFormFields(t: Trailer)
    requires t.extras.Some? && ShortExtras(t.extras.value)
    ensures var form := EditFormOf(t);
      && Get(form, "job_name") == Some(t.jobName)
      && Get(form, "job_number") == Some(t.jobNumber)
      && Get(form, "location") == Some(t.location)
      && Get(form, "tooling_list_name") == t.toolingListName
      && Get(form, "assigned_user") == t.assignedUser
  {
  }

  /** Submitting the edit form unchanged leaves the trailer as it was. */
  lemma EditTrailerMetaRoundTrip(t: Trailer)
    requires t.extras.Some? && ShortExtras(t.extras.value)
    ensures EditTrailerMeta(t, EditFormOf(t)) == Success(t)
  {
    EditFormColumns(t);
    EditFormFields(t);
    ZipItemsOfCells(t.extras.value);
  }
}
