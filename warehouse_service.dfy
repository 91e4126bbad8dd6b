/**
 * The warehouse service: warehouse names are unique. Create refuses a taken
 * name; Update keeps the stored name or location when the sent one is empty
 * and re-checks the name only when it changed.
 */
module WarehouseService {
  import opened Results
  import opened Model
  import opened Catalogue

  /** The ids of the warehouses called `name`: what the lookup by name finds. */
  function NameHolders(t: Table<Warehouse>, name: string): set<int>
  {
    set id | id in t.rows && t.rows[id].name == name
  }

  /** No two warehouses share a name. */
  predicate UniqueNames(t: Table<Warehouse>)
  {
    forall a, b | a in t.rows && b in t.rows && a != b :: t.rows[a].name != t.rows[b].name
  }

  /** Create: refused when the name lookup fails or finds a warehouse, otherwise the insert. */
  function CreateWarehouse(t: Table<Warehouse>, w: Warehouse, fault: StoreFault): (r: (Result<int, Failure>, Table<Warehouse>))
    ensures r.0.Ok? <==> fault !in {ByKeyFails, WriteFails} && NameHolders(t, w.name) == {}
    ensures r.0 == Err(Refused("failed to check warehouse name")) <==> fault == ByKeyFails
    ensures r.0 == Err(Refused("warehouse name already exists")) <==> fault != ByKeyFails && NameHolders(t, w.name) != {}
    ensures r.0.Ok? ==> r.0.value == t.nextId && r.1 == Insert(t, w)
    ensures r.0.Err? ==> r.1 == t
  {
    if fault == ByKeyFails then (Err(Refused("failed to check warehouse name")), t)
    else if NameHolders(t, w.name) != {} then (Err(Refused("warehouse name already exists")), t)
    else if fault == WriteFails then (Err(Storage), t)
    else (Ok(t.nextId), Insert(t, w))
  }

  /** A Create keeps names unique, and the new warehouse is then the only one with its name. */
  lemma CreateWarehouseKeepsUnique(t: Table<Warehouse>, w: Warehouse, fault: StoreFault)
    requires UniqueNames(t) && IdsBelow(t)
    ensures var r := CreateWarehouse(t, w, fault);
      UniqueNames(r.1) && IdsBelow(r.1) && (r.0.Ok? ==> NameHolders(r.1, w.name) == {r.0.value})
  {
    InsertFresh(t, w);
  }

  /** GetWarehouseByID: the stored warehouse, "warehouse not found", or the database's error. */
  function GetWarehouseByID(t: Table<Warehouse>, id: int, fault: StoreFault): (r: Result<Warehouse, Failure>)
    ensures r.Ok? <==> fault != ByIdFails && id in t.rows
    ensures r.Ok? ==> r.value == t.rows[id]
    ensures r == Err(Refused("warehouse not found")) <==> fault != ByIdFails && id !in t.rows
  {
    Lookup(t, id, fault, "warehouse not found")
  }

  /** The record an Update writes: an empty name or location keeps the stored value. */
  function MergeWarehouse(existing: Warehouse, data: Warehouse): Warehouse
  {
    Warehouse(
      if data.name == "" then existing.name else data.name,
      if data.location == "" then existing.location else data.location)
  }

  /** The result and table after Update(id, data). */
  function UpdateWarehouseSpec(t: Table<Warehouse>, id: int, data: Warehouse, fault: StoreFault): (r: (Outcome<Failure>, Table<Warehouse>))
    ensures r.0.Pass? ==> id in t.rows && r.1 == Table(t.rows[id := MergeWarehouse(t.rows[id], data)], t.nextId)
    ensures r.0.Fail? ==> r.1 == t
    ensures r.0 == Fail(Refused("warehouse not found")) <==> fault != ByIdFails && id !in t.rows
    ensures r.0 == Fail(Refused("warehouse name already exists")) <==>
      fault !in {ByIdFails, ByKeyFails} && id in t.rows && data.name != "" && data.name != t.rows[id].name
      && NameHolders(t, data.name) != {}
    ensures r.0 == Fail(Refused("failed to check warehouse name")) <==>
      fault == ByKeyFails && id in t.rows && data.name != "" && data.name != t.rows[id].name
    ensures r.0.Pass? <==>
      fault !in {ByIdFails, WriteFails} && id in t.rows
      && (data.name != "" && data.name != t.rows[id].name ==> fault != ByKeyFails && NameHolders(t, data.name) == {})
  {
    if fault == ByIdFails then (Fail(Storage), t)
    else if id !in t.rows then (Fail(Refused("warehouse not found")), t)
    else
      var merged := MergeWarehouse(t.rows[id], data);
      if merged.name != t.rows[id].name && fault == ByKeyFails then (Fail(Refused("failed to check warehouse name")), t)
      else if merged.name != t.rows[id].name && NameHolders(t, merged.name) != {} then
        (Fail(Refused("warehouse name already exists")), t)
      else if fault == WriteFails then (Fail(Storage), t)
      else (Pass, Table(t.rows[id := merged], t.nextId))
  }

  /**
   * Update: the existence check, the merge into the caller's record
   * (returned as `written`), the name re-check when the name changes, and
   * the write.
   */
  method UpdateWarehouse(t: Table<Warehouse>, id: int, data: Warehouse, fault: StoreFault)
    returns (r: Outcome<Failure>, t': Table<Warehouse>, written: Warehouse)
    ensures (r, t') == UpdateWarehouseSpec(t, id, data, fault)
    ensures written == if fault != ByIdFails && id in t.rows then MergeWarehouse(t.rows[id], data) else data
  {
    written := data;
    if fault == ByIdFails {
      return Fail(Storage), t, written;
    }
    if id !in t.rows {
      return Fail(Refused("warehouse not found")), t, written;
    }
    var existing := t.rows[id];
    if written.name == "" {
      written := written.(name := existing.name);
    }
    if written.location == "" {
      written := written.(location := existing.location);
    }
    if written.name != existing.name {
      if fault == ByKeyFails {
        return Fail(Refused("failed to check warehouse name")), t, written;
      }
      if NameHolders(t, written.name) != {} {
        return Fail(Refused("warehouse name already exists")), t, written;
      }
    }
    if fault == WriteFails {
      return Fail(Storage), t, written;
    }
    return Pass, Table(t.rows[id := written], t.nextId), written;
  }

  /** The merge rule: a sent name or location is written; a blank patch writes back the stored warehouse. */
  lemma MergeWarehouseRule(existing: Warehouse, data: Warehouse)
    ensures var m := MergeWarehouse(existing, data);
      && (data.name != "" ==> m.name == data.name)
      && (data.location != "" ==> m.location == data.location)
      && MergeWarehouse(existing, m) == m
    ensures MergeWarehouse(existing, Warehouse("", "")) == existing
  {
  }

  /** An Update keeps names unique and hands out no id. */
  lemma UpdateWarehouseKeepsUnique(t: Table<Warehouse>, id: int, data: Warehouse, fault: StoreFault)
    requires UniqueNames(t) && IdsBelow(t)
    ensures var t' := UpdateWarehouseSpec(t, id, data, fault).1; UniqueNames(t') && IdsBelow(t')
  {
    var r := UpdateWarehouseSpec(t, id, data, fault);
    if r.0.Pass? {
      forall a, b | a in r.1.rows && b in r.1.rows && a != b
        ensures r.1.rows[a].name != r.1.rows[b].name
      {
        if a == id || b == id {
          var other := if a == id then b else a;
          assert other in NameHolders(t, t.rows[other].name);
        }
      }
    }
  }

  /** Delete: the existence check, then the delete. */
  function DeleteWarehouse(t: Table<Warehouse>, id: int, fault: StoreFault): (r: (Outcome<Failure>, Table<Warehouse>))
    ensures r.0.Pass? <==> fault !in {ByIdFails, WriteFails} && id in t.rows
    ensures r.0 == Fail(Refused("warehouse not found")) <==> fault != ByIdFails && id !in t.rows
    ensures r.0.Pass? ==> r.1.rows == t.rows - {id}
    ensures r.0.Fail? ==> r.1 == t
  {
    Remove(t, id, fault, "warehouse not found")
  }
}
