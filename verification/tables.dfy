/** The table registry (backend/src/controllers/tablesController.js): restaurant
    tables with a unique number and a three-valued occupancy status, and the
    two read handlers over them. The writing handlers are methods of
    `StoreModel.Store`. */
module Tables {
  import opened Common
  import opened Rows
  import opened Sorting

  datatype TableStatus = Free | Occupied | AwaitingPayment

  /** The status as it is written in the `status` column. */
  function TableStatusName(s: TableStatus): string {
    match s
    case Free => "free"
    case Occupied => "occupied"
    case AwaitingPayment => "awaiting_payment"
  }

  /** Reads a status from a request body; only the three column values are
      accepted, and each is read back as the status it names. */
  function ParseTableStatus(s: string): (r: Option<TableStatus>)
    ensures r.Some? ==> TableStatusName(r.value) == s
    ensures r.None? <==> forall t: TableStatus :: TableStatusName(t) != s
  {
    if s == "free" then Some(Free)
    else if s == "occupied" then Some(Occupied)
    else if s == "awaiting_payment" then Some(AwaitingPayment)
    else None
  }

  datatype Table = Table(id: int, number: int, status: TableStatus)

  function TableKey(t: Table): int { t.id }

  /** The unique constraint on `table_number`. */
  ghost predicate NumbersUnique(ts: seq<Table>) {
    forall i, j :: 0 <= i < j < |ts| ==> ts[i].number != ts[j].number
  }

  /** Some table already carries `number`: exactly the case in which adding
      a table with that number would break the unique constraint. */
  predicate NumberTaken(ts: seq<Table>, number: int)
    ensures NumbersUnique(ts) && !NumberTaken(ts, number) ==>
      forall t: Table :: t.number == number ==> NumbersUnique(ts + [t])
    ensures NumberTaken(ts, number) ==>
      forall t: Table :: t.number == number ==> !NumbersUnique(ts + [t])
  {
    assert forall t: Table :: NumbersUnique(ts + [t]) <==>
      NumbersUnique(ts) && forall i :: 0 <= i < |ts| ==> ts[i].number != t.number by {
      forall t: Table { AppendNumber(ts, t); }
    }
    exists i :: 0 <= i < |ts| && ts[i].number == number
  }

  /** A table added at the end keeps the numbers unique exactly when no
      table already carries its number. */
  lemma AppendNumber(ts: seq<Table>, t: Table)
    ensures NumbersUnique(ts + [t]) <==>
      NumbersUnique(ts) && forall i :: 0 <= i < |ts| ==> ts[i].number != t.number
  {
    var s := ts + [t];
    if NumbersUnique(s) {
      forall i | 0 <= i < |ts| ensures ts[i].number != t.number {
        assert s[i] == ts[i] && s[|ts|] == t;
      }
      forall i, j | 0 <= i < j < |ts| ensures ts[i].number != ts[j].number {
        assert s[i] == ts[i] && s[j] == ts[j];
      }
    } else if NumbersUnique(ts) {
      var i, j :| 0 <= i < j < |s| && s[i].number == s[j].number;
      assert s[i] == ts[i];
    }
  }

  function ByNumber(a: Table, b: Table): bool { a.number <= b.number }

  /** getAllTables: every table once, in ascending table number. */
  function AllTables(ts: seq<Table>): (r: seq<Table>)
    ensures multiset(r) == multiset(ts)
    ensures forall i, j :: 0 <= i < j < |r| ==> r[i].number <= r[j].number
  {
    assert Total(ByNumber);
    assert Transitive(ByNumber);
    var r := SortBy(ts, ByNumber);
    forall i, j | 0 <= i < j < |r| ensures r[i].number <= r[j].number {
      SortedPairwise(r, ByNumber, i, j);
    }
    r
  }

  /** getTableById: the table with that id, or 404. */
  function TableById(ts: seq<Table>, id: int): (r: Result<Table>)
    ensures r.Err? <==> forall k :: 0 <= k < |ts| ==> ts[k].id != id
    ensures r.Err? ==> r.error == NotFound
    ensures r.Ok? ==> r.value in ts && r.value.id == id
  {
    match Find(ts, TableKey, id)
    case None => Err(NotFound)
    case Some(k) => Ok(ts[k])
  }

  /** `LEFT JOIN restaurant_tables`: the number of the referenced table, or
      NULL when the reference is NULL or dangling. */
  function TableNumberOf(ts: seq<Table>, tableId: Option<int>): (r: Option<int>)
    ensures r.Some? <==> tableId.Some? && exists k :: 0 <= k < |ts| && ts[k].id == tableId.value
    ensures r.Some? ==> exists k :: 0 <= k < |ts| && ts[k].id == tableId.value && ts[k].number == r.value
  {
    if tableId.None? then None
    else match Find(ts, TableKey, tableId.value)
      case None => None
      case Some(k) => Some(ts[k].number)
  }
}
