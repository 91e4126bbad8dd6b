/**
 * The rack service: a rack code is unique within its warehouse. Create
 * refuses a taken (warehouse, code) pair; Update merges the sent fields into
 * the stored rack and re-checks the pair only when it changed, accepting a
 * match that is the rack being updated.
 */
module RackService {
  import opened Results
  import opened Model
  import opened Catalogue

  /** The ids of the racks with this warehouse and code: what the lookup by warehouse and code finds. */
  function CodeHolders(t: Table<Rack>, warehouseId: int, code: string): set<int>
  {
    set id | id in t.rows && t.rows[id].warehouseId == warehouseId && t.rows[id].code == code
  }

  /** No two racks of one warehouse share a code. */
  predicate UniqueCodes(t: Table<Rack>)
  {
    forall a, b | a in t.rows && b in t.rows && a != b ::
      t.rows[a].warehouseId != t.rows[b].warehouseId || t.rows[a].code != t.rows[b].code
  }

  /** Create: refused when the lookup fails or finds a rack with the same warehouse and code. */
  function CreateRack(t: Table<Rack>, rack: Rack, fault: StoreFault): (r: (Result<int, Failure>, Table<Rack>))
    ensures r.0.Ok? <==> fault !in {ByKeyFails, WriteFails} && CodeHolders(t, rack.warehouseId, rack.code) == {}
    ensures r.0 == Err(Refused("failed to check rack code")) <==> fault == ByKeyFails
    ensures r.0 == Err(Refused("rack code already exists in this warehouse")) <==>
      fault != ByKeyFails && CodeHolders(t, rack.warehouseId, rack.code) != {}
    ensures r.0.Ok? ==> r.0.value == t.nextId && r.1 == Insert(t, rack)
    ensures r.0.Err? ==> r.1 == t
  {
    if fault == ByKeyFails then (Err(Refused("failed to check rack code")), t)
    else if CodeHolders(t, rack.warehouseId, rack.code) != {} then
      (Err(Refused("rack code already exists in this warehouse")), t)
    else if fault == WriteFails then (Err(Storage), t)
    else (Ok(t.nextId), Insert(t, rack))
  }

  /** A Create keeps codes unique per warehouse, and the new rack is then the only holder of its pair. */
  lemma CreateRackKeepsUnique(t: Table<Rack>, rack: Rack, fault: StoreFault)
    requires UniqueCodes(t) && IdsBelow(t)
    ensures var r := CreateRack(t, rack, fault);
      UniqueCodes(r.1) && IdsBelow(r.1)
      && (r.0.Ok? ==> CodeHolders(r.1, rack.warehouseId, rack.code) == {r.0.value})
  {
    InsertFresh(t, rack);
  }

  /** GetRackByID: the stored rack, "rack not found", or the database's error. */
  function GetRackByID(t: Table<Rack>, id: int, fault: StoreFault): (r: Result<Rack, Failure>)
    ensures r.Ok? <==> fault != ByIdFails && id in t.rows
    ensures r.Ok? ==> r.value == t.rows[id]
    ensures r == Err(Refused("rack not found")) <==> fault != ByIdFails && id !in t.rows
  {
    Lookup(t, id, fault, "rack not found")
  }

  /** The record an Update writes: warehouse 0, an empty code or an absent description keep the stored value. */
  function MergeRack(existing: Rack, data: Rack): Rack
  {
    Rack(
      if data.warehouseId == 0 then existing.warehouseId else data.warehouseId,
      if data.code == "" then existing.code else data.code,
      if data.description.None? then existing.description else data.description)
  }

  /** Some rack other than `id` holds the pair: the update's re-check refuses then. */
  predicate TakenByOther(t: Table<Rack>, id: int, warehouseId: int, code: string)
  {
    exists other | other in CodeHolders(t, warehouseId, code) :: other != id
  }

  /** The result and table after Update(id, data). */
  function UpdateRackSpec(t: Table<Rack>, id: int, data: Rack, fault: StoreFault): (r: (Outcome<Failure>, Table<Rack>))
    ensures r.0.Pass? ==> id in t.rows && r.1 == Table(t.rows[id := MergeRack(t.rows[id], data)], t.nextId)
    ensures r.0.Fail? ==> r.1 == t
    ensures r.0 == Fail(Refused("rack not found")) <==> fault != ByIdFails && id !in t.rows
    ensures r.0 == Fail(Refused("rack code already exists in this warehouse")) <==>
      fault !in {ByIdFails, ByKeyFails} && id in t.rows
      && var m := MergeRack(t.rows[id], data);
      (m.code != t.rows[id].code || m.warehouseId != t.rows[id].warehouseId) && TakenByOther(t, id, m.warehouseId, m.code)
    ensures r.0 == Fail(Refused("failed to check rack code")) <==>
      fault == ByKeyFails && id in t.rows
      && var m := MergeRack(t.rows[id], data);
      m.code != t.rows[id].code || m.warehouseId != t.rows[id].warehouseId
    ensures r.0.Pass? <==>
      fault !in {ByIdFails, WriteFails} && id in t.rows
      && var m := MergeRack(t.rows[id], data);
      (m.code != t.rows[id].code || m.warehouseId != t.rows[id].warehouseId ==>
        fault != ByKeyFails && !TakenByOther(t, id, m.warehouseId, m.code))
  {
    if fault == ByIdFails then (Fail(Storage), t)
    else if id !in t.rows then (Fail(Refused("rack not found")), t)
    else
      var merged := MergeRack(t.rows[id], data);
      var changed := merged.code != t.rows[id].code || merged.warehouseId != t.rows[id].warehouseId;
      if changed && fault == ByKeyFails then (Fail(Refused("failed to check rack code")), t)
      else if changed && TakenByOther(t, id, merged.warehouseId, merged.code) then
        (Fail(Refused("rack code already exists in this warehouse")), t)
      else if fault == WriteFails then (Fail(Storage), t)
      else (Pass, Table(t.rows[id := merged], t.nextId))
  }

  /**
   * Update: the existence check, the field-by-field merge into the caller's
   * record (returned as `written`), the re-check of a changed (warehouse,
   * code) pair, and the write.
   */
  method UpdateRack(t: Table<Rack>, id: int, data: Rack, fault: StoreFault)
    returns (r: Outcome<Failure>, t': Table<Rack>, written: Rack)
    ensures (r, t') == UpdateRackSpec(t, id, data, fault)
    ensures written == if fault != ByIdFails && id in t.rows then MergeRack(t.rows[id], data) else data
  {
    written := data;
    if fault == ByIdFails {
      return Fail(Storage), t, written;
    }
    if id !in t.rows {
      return Fail(Refused("rack not found")), t, written;
    }
    var existing := t.rows[id];
    if written.warehouseId == 0 {
      written := written.(warehouseId := existing.warehouseId);
    }
    if written.code == "" {
      written := written.(code := existing.code);
    }
    if written.description.None? {
      written := written.(description := existing.description);
    }
    if written.code != existing.code || written.warehouseId != existing.warehouseId {
      if fault == ByKeyFails {
        return Fail(Refused("failed to check rack code")), t, written;
      }
      if TakenByOther(t, id, written.warehouseId, written.code) {
        return Fail(Refused("rack code already exists in this warehouse")), t, written;
      }
    }
    if fault == WriteFails {
      return Fail(Storage), t, written;
    }
    return Pass, Table(t.rows[id := written], t.nextId), written;
  }

  /**
   * The merge rule: a sent warehouse, code or description is written; a
   * blank patch writes back the stored rack; merging a merged record again
   * changes nothing.
   */
  lemma MergeRackRule(existing: Rack, data: Rack)
    ensures var m := MergeRack(existing, data);
      && (data.warehouseId != 0 ==> m.warehouseId == data.warehouseId)
      && (data.code != "" ==> m.code == data.code)
      && (data.description.Some? ==> m.description == data.description)
      && MergeRack(existing, m) == m
    ensures MergeRack(existing, Rack(0, "", None)) == existing
  {
  }

  /**
   * With unique codes, a changed pair is never held by the rack being
   * updated, so the re-check's "same rack" exception never applies: it
   * refuses exactly when some rack holds the pair, and that rack is unique.
   */
  lemma ChangedPairSelfMatchImpossible(t: Table<Rack>, id: int, data: Rack)
    requires UniqueCodes(t) && id in t.rows
    requires var m := MergeRack(t.rows[id], data); m.code != t.rows[id].code || m.warehouseId != t.rows[id].warehouseId
    ensures var m := MergeRack(t.rows[id], data);
      && id !in CodeHolders(t, m.warehouseId, m.code)
      && (TakenByOther(t, id, m.warehouseId, m.code) <==> CodeHolders(t, m.warehouseId, m.code) != {})
      && forall a, b | a in CodeHolders(t, m.warehouseId, m.code) && b in CodeHolders(t, m.warehouseId, m.code) :: a == b
  {
    var m := MergeRack(t.rows[id], data);
    var h := CodeHolders(t, m.warehouseId, m.code);
    assert forall x | x in h :: x != id;
  }

  /** An Update keeps codes unique per warehouse and hands out no id. */
  lemma UpdateRackKeepsUnique(t: Table<Rack>, id: int, data: Rack, fault: StoreFault)
    requires UniqueCodes(t) && IdsBelow(t)
    ensures var t' := UpdateRackSpec(t, id, data, fault).1; UniqueCodes(t') && IdsBelow(t')
  {
    var r := UpdateRackSpec(t, id, data, fault);
    if r.0.Pass? {
      var m := MergeRack(t.rows[id], data);
      forall a, b | a in r.1.rows && b in r.1.rows && a != b
        ensures r.1.rows[a].warehouseId != r.1.rows[b].warehouseId || r.1.rows[a].code != r.1.rows[b].code
      {
        if a == id || b == id {
          var other := if a == id then b else a;
          assert other in CodeHolders(t, t.rows[other].warehouseId, t.rows[other].code);
        }
      }
    }
  }

  /** Delete: the existence check, then the delete. */
  function DeleteRack(t: Table<Rack>, id: int, fault: StoreFault): (r: (Outcome<Failure>, Table<Rack>))
    ensures r.0.Pass? <==> fault !in {ByIdFails, WriteFails} && id in t.rows
    ensures r.0 == Fail(Refused("rack not found")) <==> fault != ByIdFails && id !in t.rows
    ensures r.0.Pass? ==> r.1.rows == t.rows - {id}
    ensures r.0.Fail? ==> r.1 == t
  {
    Remove(t, id, fault, "rack not found")
  }
}
