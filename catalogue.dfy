/**
 * What the catalogue services (items, racks, warehouses, categories, users)
 * share: a keyed table standing for one repository, the single storage call
 * that fails (if any), and the lookup, delete and listing shapes every
 * service repeats.
 */
module Catalogue {
  import opened Results
  import opened Model

  /** The rows of one table by id, and the id the next insert receives. */
  datatype Table<T> = Table(rows: map<int, T>, nextId: int)

  /** Every stored id was handed out before `nextId`. */
  predicate IdsBelow<T>(t: Table<T>)
  {
    forall id | id in t.rows :: id < t.nextId
  }

  /**
   * Which repository call of one service operation returns a database error:
   * the lookup by id, the lookup by the unique key (SKU, name, code, email),
   * or the final write.
   */
  datatype StoreFault = NoStoreFault | ByIdFails | ByKeyFails | WriteFails

  /**
   * How a catalogue operation fails: a database error handed back as it is,
   * or one of the service's own messages.
   */
  datatype Failure = Storage | Refused(message: string)

  /**
   * The Get...ByID shape: a database error is passed on, a missing row gives
   * the service's "not found" message, otherwise the stored row.
   */
  function Lookup<T>(t: Table<T>, id: int, fault: StoreFault, notFound: string): (r: Result<T, Failure>)
    ensures r.Ok? <==> fault != ByIdFails && id in t.rows
    ensures r.Ok? ==> r.value == t.rows[id]
    ensures r == Err(Refused(notFound)) <==> fault != ByIdFails && id !in t.rows
    ensures r.Err? ==> r.error == Storage || r.error == Refused(notFound)
  {
    if fault == ByIdFails then Err(Storage)
    else if id !in t.rows then Err(Refused(notFound))
    else Ok(t.rows[id])
  }

  /**
   * The Delete shape: the existence check, then the repository's delete of
   * that one row. Only a successful delete changes the table.
   */
  function Remove<T>(t: Table<T>, id: int, fault: StoreFault, notFound: string): (r: (Outcome<Failure>, Table<T>))
    ensures r.0.Pass? <==> fault !in {ByIdFails, WriteFails} && id in t.rows
    ensures r.0 == Fail(Refused(notFound)) <==> fault != ByIdFails && id !in t.rows
    ensures r.0.Pass? ==> r.1 == Table(t.rows - {id}, t.nextId) && id !in r.1.rows
    ensures r.0.Fail? ==> r.1 == t
  {
    if fault == ByIdFails then (Fail(Storage), t)
    else if id !in t.rows then (Fail(Refused(notFound)), t)
    else if fault == WriteFails then (Fail(Storage), t)
    else (Pass, Table(t.rows - {id}, t.nextId))
  }

  /** The insert a successful Create ends with: the next id, and the counter moves on. */
  function Insert<T>(t: Table<T>, x: T): Table<T>
  {
    Table(t.rows[t.nextId := x], t.nextId + 1)
  }

  /** An insert adds exactly one row under a fresh id and leaves the others alone. */
  lemma InsertFresh<T>(t: Table<T>, x: T)
    requires IdsBelow(t)
    ensures var t' := Insert(t, x);
      IdsBelow(t') && t.nextId !in t.rows && t'.rows.Keys == t.rows.Keys + {t.nextId}
      && t'.rows[t.nextId] == x && forall k | k in t.rows :: t'.rows[k] == t.rows[k]
  {
  }

  /**
   * The list shape (GetAll..., GetRacksByWarehouse): the repository's page is
   * returned as it is, with a pagination record that echoes the page number
   * and size and carries the repository's count; a database error is passed on.
   */
  function Paged<T>(answer: Result<(seq<T>, int), Failure>, page: int, limit: int): (r: Result<(seq<T>, Pagination), Failure>)
    ensures r.Err? <==> answer.Err?
    ensures r.Err? ==> r.error == answer.error
    ensures r.Ok? ==> r.value.0 == answer.value.0 && r.value.1.totalRecords == answer.value.1
    ensures r.Ok? ==> r.value.1.currentPage == page && r.value.1.limit == limit
  {
    match answer
    case Err(e) => Err(e)
    case Ok((rows, total)) => Ok((rows, Pagination(page, limit, total)))
  }
}
