# Trailer inventory: a Dafny model of the route logic

This project models the request handlers of a small trailer-inventory web
application. Crews are assigned a trailer and a tooling list. A worker opens the
trailer's inventory form and ticks Missing, Red Tag or Complete for each
catalog item and each extra ("credit-back") item. Submitting the form rebuilds
the trailer's response ledger, appends an invoice row and marks the trailer
Completed. The pull list sums the flagged quantities per item.

The handlers come from two blueprints:

- `routes/inventory.py`: dashboard, invoice search, add/edit/delete of
  trailer metadata, the inventory form, the read-only view, the pull list and
  the edit-submission flow.
- `routes/trailer_assignment.py`: `assign_trailer`, `update_trailer_post` and
  `trailer_update`.

Every handler is a pure function in this model. It maps the request form (a
multi-dict, `Forms.Form`) and the database (`Ledger.Store`) to a new store or
an outcome. The tooling catalog lookup and the PDF writer are function
parameters.

Modules, bottom-up:

- `Common`: `Option` and `Result`.
- `Text`: the Python string built-ins the handlers use. These are `strip`,
  `lower`, `isdigit`, `int()`, `str(int)`, substring search, ordering and
  `join`.
- `Forms`: `request.form.get`, `getlist`, membership, and Python's `or`.
- `Records`: the three tables and the two shapes of stored extra items.
- `ResponseBuilding`: how one submitted form becomes inventory responses, and
  which of them are flagged.
- `PullList`: aggregation and ordering of the pull list.
- `Prefill`: the map that the view and edit forms build from the stored
  responses.
- `ExtraRows`: parsing of posted extra-tooling rows. There are two dialects:
  padded four-column rows and zipped three-column rows.
- `TrailerForms`: the trailer-metadata handlers as functions on one trailer.
- `Ledger`: the store, the handlers that change it, and what a submission
  commits.
- `Listing`: the dashboard, the invoice search, the pull-list route and the
  view route.

## Behaviour worth noting

- **Pull-list grouping.** The pull list groups flagged responses by
  (item number, item name) only; the category plays no part. Credit-back
  responses (category `Extra Tooling`) are aggregated like catalog ones. The
  result is one flat list sorted by lower-cased item name.
- **Extras.** Credit-back items are only turned into responses and pull-list
  rows; no handler reconciles them separately.
- **Zero quantities.** A ticked Missing or Red Tag checkbox creates a
  response even when its quantity is 0. A Complete response stores the parsed
  quantity too.
- **Edit-submission invoices.** An edited submission first deletes all of the
  trailer's invoices (`routes/inventory.py:346`). Invoice history for that
  trailer is therefore replaced, not appended to.
- **Status changes.** Submission is not the only way to reach Completed:
  `update_trailer_post` and `trailer_update` store any posted status text.
- **Extras written by assignment break submission.** Extras written by the
  trailer-assignment routes use the keys `item_name` / `item_number`. Both
  submission handlers read `item['name']`. A trailer that carries such an
  extra therefore raises `KeyError('name')` on submission, after part of the
  work has been committed. The model records this as
  `Outcome.Failed(store, KeyError("name"))`, where `store` is what had been
  committed at that point:
  - For a first submission, the new catalog responses and the submitter are
    saved. The invoice and the Completed status are not.
  - For an edited submission, the trailer's invoices are already deleted and
    the new catalog responses saved. The trailer is left with no invoice at
    all.

  `Ledger.SubmitFormFailedEffects`, `Ledger.EditSubmissionEffects`,
  `Ledger.EditSubmissionStoresInvoices` and `Ledger.EditSubmissionInvoices`
  state this.

## Model

| member | source | states |
|---|---|---|
| Text.Strip | routes/trailer_assignment.py:16-26 | the stripped text has no whitespace at either end, is empty exactly when the input is all whitespace, and is never longer than the input |
| Text.StripIsWindow | routes/trailer_assignment.py:16-26 | the stripped text is a contiguous window of the input with only whitespace outside it, so `strip()` removes leading and trailing whitespace and nothing else |
| Text.StripIdempotent | routes/trailer_assignment.py:152-155 | stripping an already stripped field changes nothing, so a field read back from the store and re-posted is stored unchanged |
| Text.Lower | routes/inventory.py:315 | the lowered text has the input's length and lowers each letter in place |
| Text.PyInt | routes/trailer_assignment.py:42 | `int()` never succeeds on blank text |
| Text.PyIntOfDigits | routes/inventory.py:190 | whenever a quantity text is a non-empty string of ASCII digits, `int()` does not raise on it and yields the decimal value of the digits |
| Text.IntToStringIsDigitIff | routes/inventory.py:174-191 | `str(v).isdigit()` holds exactly for non-negative integers, so a negative catalog default quantity is stored as 0 |
| Text.PyIntRoundTrip | routes/trailer_assignment.py:42 | `int(str(v)) == v` for every integer `v` |
| Text.ContainsIff | routes/inventory.py:63 | `q in hay` holds exactly when `q` occurs at some position of `hay` |
| Text.JoinHasPart | routes/inventory.py:55-62 | every part of a `" ".join(...)` occurs inside the joined text |
| Text.LexLeTotal | routes/inventory.py:315 | any two sort keys are comparable |
| Text.LexLeTransitive | routes/inventory.py:315 | the string order that sorts the pull list is transitive |
| Text.LexLeAntisymmetric | routes/inventory.py:315 | two sort keys ordered both ways are equal |
| ResponseBuilding.ReadQuantityTextIsInt | routes/inventory.py:190 | a quantity text of ASCII digits is read as `int()` reads it, and any other text (blank, signed, spaced, decimal) as 0 |
| ResponseBuilding.DefaultQuantityAsText | routes/inventory.py:174-191 | an unposted quantity falls back to the stored default, read through `str()` and `isdigit()` like posted text: a non-negative default survives and a negative one becomes 0 |
| ResponseBuilding.EntryResponsesFacts | routes/inventory.py:176-194 | one item yields at most three responses: one for each ticked status checkbox and none for an unticked one, in the order Missing, Red Tag, Complete, each carrying the item's number, name, category, the status's note and the parsed quantity |
| ResponseBuilding.CatalogResponsesProvenance | routes/inventory.py:170-194 | every catalog response comes from some catalog item, with its category (or `General` when the item has none) and a non-negative quantity |
| ResponseBuilding.CatalogResponsesComplete | routes/inventory.py:170-194 | conversely, every ticked status checkbox of every catalog item yields a response for that status built from that item: its number, name, category, note and parsed quantity |
| ResponseBuilding.Flagged | routes/inventory.py:195-196 | the flagged list holds exactly the Missing and Red Tag responses, never a Complete one |
| ResponseBuilding.FlaggedConcat | routes/inventory.py:194-196 | the flagged list of two runs of responses is the flagged list of the first run followed by that of the second, so flagged responses keep their order |
| ResponseBuilding.FlaggedCount | routes/inventory.py:194-196 | each Missing or Red Tag response is flagged as many times as it was built, and a Complete one never |
| ResponseBuilding.AppendEntry | routes/inventory.py:176-196 | one pass over an item's three checkboxes appends that item's responses, and keeps the flagged list equal to the Missing and Red Tag responses built so far |
| ResponseBuilding.BuildCatalogResponses | routes/inventory.py:166-196 | the loop over the catalog builds exactly the catalog responses, and a flagged list that is exactly their flagged subset |
| ResponseBuilding.EnumeratePrefix | routes/inventory.py:211-222 | the extra at position `i` has its fields named with the prefix `cb_<i>` |
| ResponseBuilding.ExtraResponsesFailIff | routes/inventory.py:209-234 | reading the first `n` extras fails with `KeyError('name')` exactly when one of them is stored with `item_name` keys |
| ResponseBuilding.ExtraResponsesProvenance | routes/inventory.py:211-234 | every credit-back response comes from a `name` / `number` extra at an index below `n`, has category `Extra Tooling`, and has a non-negative quantity |
| ResponseBuilding.ExtraResponsesComplete | routes/inventory.py:209-234 | conversely, when the extras can be read, every ticked checkbox of every `name` / `number` extra yields a response for that status built from that extra |
| PullList.Aggregate | routes/inventory.py:296-304 | one row per distinct (item number, item name) of the responses, whose Missing and Red Tag quantities are the sums over the responses with that key and status |
| PullList.AggregateFirstAppearance | routes/inventory.py:296-299 | the rows come in the order in which their keys first occur among the flagged responses, as a Python dict keeps insertion order |
| PullList.WithKeyKeepsOrder | routes/inventory.py:315 | picking out the rows that share one lower-cased name keeps them in first-appearance order |
| PullList.SortRows | routes/inventory.py:315 | the sorted rows are ordered by lower-cased item name and are a permutation of the input rows |
| PullList.SortRowsStable | routes/inventory.py:315 | rows with the same lower-cased name keep their relative order, as Python's stable sort keeps them |
| PullList.SortRowsKeepsKeys | routes/inventory.py:306-315 | sorting keeps the rows' keys and their uniqueness |
| PullList.SumQtyFlagged | routes/inventory.py:291-294 | filtering the ledger to Missing and Red Tag responses does not change any Missing or Red Tag sum |
| PullList.PullRowsContents | routes/inventory.py:291-313 | the pull list has one row per (number, name) key that has a Missing or Red Tag response, and each row's two quantities are that key's sums over the whole ledger |
| PullList.PullRowsOrdered | routes/inventory.py:296-315 | pull-list rows are ordered by lower-cased item name; rows whose lowered names tie keep the aggregation's order, which is the order in which their keys first occur among the flagged responses |
| PullList.PullRowsIgnoreComplete | routes/inventory.py:291-294 | adding a Complete response leaves the pull list unchanged |
| Prefill.PrefillMap | routes/inventory.py:264-275 | the prefill map has one bucket per stored item number, holding that item's statuses, the last note of each status under its field suffix, and the last quantity |
| Prefill.AddResponseStep | routes/inventory.py:266-275 | one loop step extends a map describing a prefix of the responses to a map describing one more response |
| Prefill.SuffixInjective | routes/inventory.py:273 | distinct statuses have distinct note keys, so notes of different statuses never overwrite each other |
| ExtraRows.RowQuantity | routes/trailer_assignment.py:41-44 | a row's quantity is `int()` of its posted text when that succeeds, and 0 when the text is absent, blank or unreadable |
| ExtraRows.PaddedRowsPadInvariant | routes/trailer_assignment.py:37-40 | a position past the end of a short column reads exactly like a blank entry: padding all four columns with blanks to the longest length gives the same rows |
| ExtraRows.KeptRowsAppend | routes/trailer_assignment.py:45-51 | the kept rows of two runs of positions are the kept rows of the first run followed by those of the second, so rows keep posting order and duplicates |
| ExtraRows.KeptRowsCount | routes/trailer_assignment.py:45-51 | a row with a name or a number is kept as many times as it was posted, and any other row not at all |
| ExtraRows.ParseRowsMembers | routes/trailer_assignment.py:37-51 | a position is kept exactly when its name or number is non-blank, and every kept row has a non-blank category (`Extra Tooling` by default) |
| ExtraRows.KeptRowsPrefix | routes/trailer_assignment.py:37-51 | kept rows appear in posting order |
| ExtraRows.BlankBeyondWidth | routes/trailer_assignment.py:37 | positions past the longest column would never be kept, so the loop bound loses nothing |
| ExtraRows.ZipCellsIgnoresExcess | routes/inventory.py:81 | entries of the longer tool columns past the shortest column are ignored, as `zip` ignores them |
| ExtraRows.ZipCellsAppend | routes/inventory.py:81 | one more entry in each of three equal-length columns adds one cell pairing those entries, at the end |
| ExtraRows.ZipItems | routes/inventory.py:81-87 | the tool rows fail with `ValueError` exactly when some row with both name and number has an unreadable quantity; otherwise the items are exactly those rows |
| ExtraRows.ZipItemsAppend | routes/inventory.py:81-87 | reading two runs of tool rows one after the other fails exactly when either run fails, and otherwise yields the items of the first run followed by those of the second, so items keep posting order and duplicates |
| TrailerForms.Field | routes/trailer_assignment.py:16-26 | a read text field is always trimmed |
| TrailerForms.AssignTrailer | routes/trailer_assignment.py:14-65 | a new trailer is Pending and stores the trimmed posted job name, job number and location; the tooling list is mirrored into `inventory_type`; external id and foreman are the trimmed posted values, or none when blank; the assignee is the assignee text (the posted `assigned_user` if non-empty, else `submitted_by`, trimmed), or none when that is blank; extras are exactly the parsed rows, present only when credit-back is ticked and some row is kept |
| TrailerForms.AssignedListIsUsed | routes/trailer_assignment.py:59-60 | the inventory form of an assigned trailer looks up the posted tooling list |
| TrailerForms.ReadPost | routes/trailer_assignment.py:87-123 | each text field is the trimmed posted value and the assignee is the assignee text; the rows are read exactly when credit-back is ticked, and are then exactly the parsed rows |
| TrailerForms.ApplyPost | routes/trailer_assignment.py:87-135 | every non-blank read field is stored and every blank one keeps the stored value (assignee and foreman become none when both are blank); the ids are kept, the tooling list is mirrored, and the extras are replaced exactly when rows were read |
| TrailerForms.UpdateTrailerPost | routes/trailer_assignment.py:83-137 | each non-blank posted field is stored trimmed and each blank one keeps the stored value; with credit-back ticked the extras become exactly the parsed rows, otherwise they are untouched |
| TrailerForms.ApplyPostKeepsFilled | routes/trailer_assignment.py:87-97 | a post never blanks a filled job name, job number, location, status, assignee or foreman, and never stores a blank assignee or foreman |
| TrailerForms.UpdateTrailerPostKeepsFilled | routes/trailer_assignment.py:87-130 | the same for the whole handler: blank fields fall back to the stored values |
| TrailerForms.ApplyPostIdempotent | routes/trailer_assignment.py:126-135 | applying a read post twice gives the same trailer as applying it once |
| TrailerForms.UpdateTrailerPostIdempotent | routes/trailer_assignment.py:83-137 | posting the same form twice leaves the trailer as the first post did |
| TrailerForms.ReadPostEmpty | routes/trailer_assignment.py:87-101 | an empty form reads as all-blank fields and no rows |
| TrailerForms.UpdateTrailerPostEmptyForm | routes/trailer_assignment.py:87-135 | an empty post changes only the `inventory_type` mirror and the clearing of blank assignee and foreman |
| TrailerForms.StripOr | routes/trailer_assignment.py:152-155 | the result is trimmed: the stripped posted value when one is posted non-empty, else the stripped stored value when non-empty, else the stripped default |
| TrailerForms.ReadPatch | routes/trailer_assignment.py:152-187 | location, status and the job fields are the raw posted values, the assignee is the assignee text, and the rows are read exactly when the credit-back key is posted, and are then exactly the parsed rows |
| TrailerForms.ApplyPatch | routes/trailer_assignment.py:152-187 | a non-empty posted location, status or present job field is stored stripped, and an empty or absent one falls back to the stored value stripped (status to Pending when none was stored); an absent job field is untouched; read rows replace the extras, an empty list clearing them; ids, tooling list, inventory type and foreman are untouched |
| TrailerForms.TrailerUpdate | routes/trailer_assignment.py:148-189 | the same at the form level: each posted field wins stripped, blanks fall back to the stripped stored value, the assignee is the assignee text or none when it is blank (a whitespace-only `assigned_user` wins over `submitted_by`), and a posted credit-back key stores exactly the parsed rows or clears the extras |
| TrailerForms.StripOrIdempotent | routes/trailer_assignment.py:152-155 | re-applying a strip-with-fallback to its own result changes nothing, provided the fallback is blank or the stored value is already trimmed |
| TrailerForms.ApplyPatchIdempotent | routes/trailer_assignment.py:152-187 | applying a read patch twice gives the same trailer as applying it once, for a trailer with a trimmed status |
| TrailerForms.TrailerUpdateIdempotent | routes/trailer_assignment.py:148-189 | posting the same update twice leaves the trailer as the first post did |
| TrailerForms.TrailerUpdateKeepsStatus | routes/trailer_assignment.py:155 | without a posted status the stored status is kept, or becomes Pending when it was blank |
| TrailerForms.AddTrailer | routes/inventory.py:75-100 | the trailer is created exactly when no tool row has an unreadable quantity and both job fields are present; a bad quantity is reported before a missing field; a created trailer is Pending with the posted job fields, the posted location or blank, the posted tooling list or `Standard Trailer`, the posted inventory type and assignee or none when blank, no external id or foreman, and exactly the items read from the tool rows as extras |
| TrailerForms.EditTrailerMeta | routes/inventory.py:109-130 | the edit succeeds under the same condition as adding; it stores the posted job fields and the posted location or blank; a non-blank posted tooling list or assignee replaces the stored one and a blank one keeps it; it keeps the id, status, inventory type, external id and foreman; and it replaces the extras with exactly the items read from the tool rows |
| TrailerForms.AddAndEditAgree | routes/inventory.py:75-128 | adding and editing accept and reject the same forms with the same fault, and read the job fields, location and tool rows identically |
| TrailerForms.ZipItemsOfCells | routes/inventory.py:81-87 | reading back the tool rows of stored `name` / `number` extras reproduces them exactly |
| TrailerForms.EditTrailerMetaRoundTrip | routes/inventory.py:109-130 | posting a trailer's own values back through the edit form leaves the trailer unchanged |
| Ledger.InvoicesFor | routes/inventory.py:346 | the invoices of a trailer are exactly the stored invoices with its id |
| Ledger.InvoicesNotFor | routes/inventory.py:346 | deleting a trailer's invoices keeps exactly the invoices of other trailers |
| Ledger.InvoicesNotForKeepsOthers | routes/inventory.py:346 | deleting one trailer's invoices leaves every other trailer's invoice history unchanged and in order |
| Ledger.Insert | routes/inventory.py:99-100 | a new trailer gets the next primary key, which was not in use in a well-formed store, and nothing else changes |
| Ledger.AssignRoute | routes/trailer_assignment.py:54-67 | the trailer built from the form is stored under the next primary key; every other trailer, the responses and the invoices are unchanged, and the store stays well formed |
| Ledger.AddTrailerRoute | routes/inventory.py:75-102 | the add commits exactly when the form is accepted, storing the built trailer under the next key and changing nothing else; a rejected form stores nothing and reports the fault |
| Ledger.EditTrailerRoute | routes/inventory.py:106-132 | an unknown id is not found; an accepted edit replaces exactly that trailer by the edited one, and a rejected edit stores nothing and reports the fault |
| Ledger.UpdateTrailerRoute | routes/trailer_assignment.py:82-137 | an unknown id is not found; otherwise exactly that trailer is replaced by the updated one and no other table changes |
| Ledger.TrailerUpdateRoute | routes/trailer_assignment.py:146-189 | an unknown id is not found; otherwise exactly that trailer is replaced by the updated one and no other table changes |
| Ledger.MetaRoutesValid | routes/inventory.py:106-132 | the three metadata updates keep the store well formed |
| Ledger.DeleteRoute | routes/inventory.py:136-142 | deleting a trailer removes it with all its responses and invoices, and leaves every other trailer and its responses unchanged |
| Ledger.DeleteKeepsOtherInvoices | routes/inventory.py:136-142 | deleting a trailer leaves every other trailer's invoices unchanged |
| Ledger.OpenForm | routes/inventory.py:154-157 | opening the form moves a Pending trailer to In Progress and changes nothing else |
| Ledger.SubmitRecordsSubmitter | routes/inventory.py:160-162 | both submission handlers, completed or failed, store a non-blank `submitted_by` as the assignee and otherwise keep the stored one; no other field but a first submission's status changes |
| Ledger.InvoicePath | routes/inventory.py:202-206 | with nothing flagged the invoice has an empty file path; otherwise it has the path the writer returned, or an empty one when the writer returned none |
| Ledger.SubmitForm | routes/inventory.py:145-240 | an unknown id is not found; the submission fails with `KeyError('name')` exactly when the trailer holds an extra with `item_name` keys |
| Ledger.ExtrasFailIff | routes/inventory.py:209-213 | reading the credit-back responses fails exactly when some extra has `item_name` keys |
| Ledger.SubmitFormFailedEffects | routes/inventory.py:159-212 | a first submission that fails keeps the invoices, the status, the other trailers and their responses as they were; only the assignee and the catalog responses are committed |
| Ledger.SubmitFormEffects | routes/inventory.py:160-240 | a completed submission stores exactly the catalog responses followed by the credit-back responses, marks the trailer Completed, appends exactly one invoice for it whose path is the one written for the flagged catalog responses (empty when nothing is flagged), and leaves other trailers and their responses unchanged |
| Ledger.SubmissionStoresBuilt | routes/inventory.py:160-240 | both submission handlers store the catalog responses followed by the credit-back responses when the extras can be read, and the catalog responses alone when reading them fails |
| Ledger.SubmissionStoresTicked | routes/inventory.py:166-234 | after a completed first or edited submission, every ticked checkbox of a catalog item or of a `name` / `number` extra has its response stored |
| Ledger.SubmitFormReplacesResponses | routes/inventory.py:164 | the responses stored by a submission do not depend on the responses the trailer held before |
| Ledger.SubmitFormProvenance | routes/inventory.py:170-234 | every stored response comes from the trailer's catalog list or from one of its extras |
| Ledger.SubmitFormTwice | routes/inventory.py:159-240 | submitting the same form again stores the same responses and trailer, and adds one more invoice |
| Ledger.SubmitFormValid | routes/inventory.py:159-240 | a submission keeps the store well formed, whether it completes or fails |
| Ledger.EditSubmission | routes/inventory.py:332-420 | an unknown id is not found; the edit fails with `KeyError('name')` exactly when the trailer holds an extra with `item_name` keys |
| Ledger.EditSubmissionEffects | routes/inventory.py:340-420 | an edit, completed or failed, changes only its own trailer's assignee and responses; every other trailer and response list is untouched |
| Ledger.EditSubmissionStoresInvoices | routes/inventory.py:345-387 | after an edit the invoice table is the other trailers' invoices in their old order, followed by the newly written invoice when the edit completed |
| Ledger.EditSubmissionInvoices | routes/inventory.py:345-387 | after an edit the trailer has exactly one invoice, or none when the edit failed; its status is unchanged; other trailers' invoices are untouched |
| Ledger.EditSubmissionInvoicePath | routes/inventory.py:345-387 | a completed edit leaves the trailer exactly one invoice, whose path is the one written for the newly flagged catalog responses |
| Ledger.EditMatchesSubmit | routes/inventory.py:349-418 | an edit stores the same responses and assignee that a first submission of the same form would |
| Ledger.EditSubmissionValid | routes/inventory.py:332-420 | an edit keeps the store well formed, whether it completes or fails |
| Listing.MatchingIdsBelow | routes/inventory.py:18-38 | the matching ids below a bound, strictly descending, are exactly the stored ids below it whose trailers pass the filters |
| Listing.Dashboard | routes/inventory.py:16-38 | every listed trailer is a stored trailer and passes the filters, and in a well-formed store the list is in descending id order |
| Listing.DashboardMembers | routes/inventory.py:18-38 | the listed trailers are exactly the stored trailers that pass the filters |
| Listing.DashboardStatusFilter | routes/inventory.py:28-32 | without a status filter no Completed trailer is listed; with one, only trailers in that status are |
| Listing.Reverse | routes/inventory.py:46 | newest first: the last-created invoice comes first |
| Listing.FilterListedCount | routes/inventory.py:64 | a matching invoice is kept as many times as it is stored, and any other invoice not at all |
| Listing.FilterListedAppend | routes/inventory.py:64 | filtering keeps the invoices' relative order |
| Listing.FilterListedReverse | routes/inventory.py:46-64 | filtering the newest-first list gives the matching invoices newest first |
| Listing.SearchInvoices | routes/inventory.py:42-64 | a blank query lists every invoice newest first; a non-blank one lists the matching invoices (trailer exists, lowered haystack contains the query) in newest-first order, each as often as it is stored |
| Listing.SearchFindsField | routes/inventory.py:55-63 | a non-blank query that occurs, ignoring case, in any one of the six haystack fields finds the invoice |
| Listing.PullListRoute | routes/inventory.py:287-317 | an unknown id is not found; otherwise the rows are the trailer's pull list: sorted, with unique keys, exactly the keys of its flagged responses, and each key's Missing and Red Tag sums over its stored responses |
| Listing.ViewFormRoute | routes/inventory.py:256-275 | an unknown id is not found; otherwise the view shows the trailer's catalog list and a prefill map describing its stored responses |
| Listing.PullListAfterSubmit | routes/inventory.py:164 | after a completed submission the pull list depends only on the responses just submitted |

## Left out

- HTTP plumbing (Flask request objects, `flash`, `redirect`, templates, logging) is not modelled. Handlers map a form and a store to an outcome.
- `get_or_404` and `request.form['job_name']` are modelled as a not-found outcome and a `KeyError` fault. The HTTP status codes Flask turns them into are not modelled.
- The database is a value: three tables and the next primary key. Transactions, sessions and concurrent requests are not modelled. Commits happen in handler order, and a fault keeps what was committed before it.
- `get_tooling_list` is the `Catalog` parameter, and `generate_invoice` is the `Invoicer` parameter. The PDF written to disk, the clock in the file name, and any exception the writer raises are not modelled.
- `download_invoice` only reads the filesystem and changes nothing, so it is left out.
- The GET branches that only render a template are left out, apart from the data they compute: the catalog list and the prefill map.
- Listing.Dashboard: the `ILIKE` filters are modelled as substring search after lowering ASCII letters. SQL `%` and `_` wildcards inside the filter text are not interpreted.
- Text.Lower: lowers ASCII letters only. Python's `str.lower` also lowers other Unicode letters, which affects pull-list order and invoice search for such names.
- Text.Strip: uses the whitespace characters below U+0100. Python's `str.strip` also removes other Unicode whitespace.
- Listing.SearchInvoices: "newest first" by `created_at` is modelled as reverse insertion order. Invoices created within the same clock tick may come back in either order in the database.
- Both blueprints register `POST /trailer/<id>`; which handler the router picks is not modelled. `inventory_form` and `update_trailer_post` are modelled as separate handlers.
- TrailerForms.TrailerUpdateIdempotent: proved only for a trailer whose stored status is already trimmed. A whitespace-only stored status is truthy, so the first post strips it to an empty string; the second post then turns it into `Pending`. For such a trailer, two identical posts do differ.
- Text.PyIntOfDigits: stated for ASCII digits only. Python's `isdigit` also accepts other Unicode digits: `int()` reads decimal ones such as `'٣'` and raises on others such as `'²'`. Neither case is modelled.
- ResponseBuilding.ReadQuantityTextIsInt: a quantity text made of non-ASCII digits is read as 0. In the handler it is read by `int()` when it is a decimal digit string, and the request fails with `ValueError` for digits such as `'²'`.
- ExtraRows.RowQuantity: non-ASCII decimal digits that `int()` accepts are read as 0 (and, in ExtraRows.ZipQuantity, rejected), because Text.PyInt accepts ASCII digits only.
- PullList.PullRowsOrdered: ties are broken by the order of the responses as stored. The pull-list query has no ORDER BY (routes/inventory.py:291-294), so the model assumes the database returns rows in insertion order.
- Prefill.PrefillMap: "the last note" and "the last quantity" of an item are the last in insertion order. The query at routes/inventory.py:264 has no ORDER BY, so the model assumes the database returns rows in insertion order.
- Integer columns are unbounded. Database column widths and string lengths are not modelled.
