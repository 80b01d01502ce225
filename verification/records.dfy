/** The persisted records: trailers, inventory responses and invoices, plus the
    two shapes in which a trailer's extra ("credit-back") tooling is stored. */
module Records {
  import opened Common
  import opened Text

  const Pending := "Pending"
  const InProgress := "In Progress"
  const Completed := "Completed"

  /** Category of catalog items that carry none of their own. */
  const GeneralCategory := "General"
  /** Category given to credit-back responses and to blank extra-row categories. */
  const ExtraToolingCategory := "Extra Tooling"

  /** The three checkboxes a worker can tick for one item. */
  datatype Status = Missing | RedTag | Complete {

    /** The label stored in the `status` column. */
    function Label(): string {
      match this
      case Missing => "Missing"
      case RedTag => "Red Tag"
      case Complete => "Complete"
    }

    /** The status label lower-cased with its spaces removed: the suffix of the note
      and checkbox field names. */
    function Suffix(): string {
      match this
      case Missing => "missing"
      case RedTag => "redtag"
      case Complete => "complete"
    }

    /** Position in the fixed order Missing, Red Tag, Complete in which the
        checkboxes of one item are examined. */
    function Rank(): nat {
      match this
      case Missing => 0
      case RedTag => 1
      case Complete => 2
    }

    /** Missing and Red Tag are discrepancies; Complete is not. */
    predicate IsFlagged() {
      this == Missing || this == RedTag
    }
  }

  /** The checkboxes in the order they are examined. */
  const StatusOrder: seq<Status> := [Missing, RedTag, Complete]

  /** A Python exception that aborts a handler. */
  datatype Fault =
    | KeyError(key: string)     // `mapping[key]` on an absent key
    | ValueError(text: string)  // `int(text)` on text that is not an integer

  /** One row of `inventory_response`; the owning trailer is the ledger key. */
  datatype Response = Response(
    itemNumber: string,
    itemName: string,
    status: Status,
    note: string,
    quantity: Option<int>,
    category: string)

  /** One entry of a tooling catalog list; `Category` and `Quantity` may be missing. */
  datatype ToolingItem = ToolingItem(
    number: string,
    name: string,
    category: Option<string>,
    quantity: Option<int>)

  /** A stored extra-tooling entry. `add_trailer` and `edit_trailer` write the keys
      `name` / `number` / `quantity`; the trailer-assignment routes write
      `item_name` / `item_number` / `quantity` / `category`. */
  datatype ExtraItem =
    | ShortKeys(name: string, number: string, quantity: int)
    | ItemKeys(itemName: string, itemNumber: string, quantity: int, category: string)

  datatype Trailer = Trailer(
    id: nat,
    externalId: Option<string>,
    jobName: string,
    jobNumber: string,
    location: string,
    inventoryType: Option<string>,
    assignedUser: Option<string>,
    status: string,
    extras: Option<seq<ExtraItem>>,
    toolingListName: Option<string>,
    foremanName: Option<string>)

  datatype Invoice = Invoice(trailerId: nat, filePath: string)

  /** The trailer's stored extras, none when the column is NULL or empty. */
  function ExtrasOf(t: Trailer): seq<ExtraItem> {
    match t.extras
    case Some(xs) => xs
    case None => []
  }

  /** The tooling-list name, falling back to the inventory type, trimmed: the
      catalog list a trailer's inventory form is built from. */
  function ListName(t: Trailer): string {
    var name := if t.toolingListName.Some? && t.toolingListName.value != "" then t.toolingListName.value
                else if t.inventoryType.Some? && t.inventoryType.value != "" then t.inventoryType.value
                else "";
    Strip(name)
  }
}
