/**
 * The item service: SKU uniqueness on Create and on an Update that changes
 * the SKU, the "empty or zero keeps the stored value" merge of an Update, and
 * the not-found checks of GetItemByID, Update and Delete.
 */
module ItemService {
  import opened Results
  import opened Model
  import opened Catalogue

  /** The ids of the items whose SKU is `sku`: what the lookup by SKU finds. */
  function SkuHolders(t: Table<Item>, sku: string): set<int>
  {
    set id | id in t.rows && t.rows[id].sku == sku
  }

  /** No two items share a SKU. */
  predicate UniqueSkus(t: Table<Item>)
  {
    forall a, b | a in t.rows && b in t.rows && a != b :: t.rows[a].sku != t.rows[b].sku
  }

  /** Create: refused when the SKU lookup fails or finds an item, otherwise the insert. */
  function CreateItem(t: Table<Item>, item: Item, fault: StoreFault): (r: (Result<int, Failure>, Table<Item>))
    ensures r.0.Ok? <==> fault !in {ByKeyFails, WriteFails} && SkuHolders(t, item.sku) == {}
    ensures r.0 == Err(Refused("failed to check SKU")) <==> fault == ByKeyFails
    ensures r.0 == Err(Refused("SKU already exists")) <==> fault != ByKeyFails && SkuHolders(t, item.sku) != {}
    ensures r.0.Ok? ==> r.0.value == t.nextId && r.1 == Insert(t, item)
    ensures r.0.Err? ==> r.1 == t
  {
    if fault == ByKeyFails then (Err(Refused("failed to check SKU")), t)
    else if SkuHolders(t, item.sku) != {} then (Err(Refused("SKU already exists")), t)
    else if fault == WriteFails then (Err(Storage), t)
    else (Ok(t.nextId), Insert(t, item))
  }

  /** A Create keeps SKUs unique, and the new item is then the only holder of its SKU. */
  lemma CreateItemKeepsUnique(t: Table<Item>, item: Item, fault: StoreFault)
    requires UniqueSkus(t) && IdsBelow(t)
    ensures var r := CreateItem(t, item, fault);
      UniqueSkus(r.1) && IdsBelow(r.1) && (r.0.Ok? ==> SkuHolders(r.1, item.sku) == {r.0.value})
  {
    InsertFresh(t, item);
  }

  /** GetItemByID: the stored item, "item not found", or the database's error. */
  function GetItemByID(t: Table<Item>, id: int, fault: StoreFault): (r: Result<Item, Failure>)
    ensures r.Ok? <==> fault != ByIdFails && id in t.rows
    ensures r.Ok? ==> r.value == t.rows[id]
    ensures r == Err(Refused("item not found")) <==> fault != ByIdFails && id !in t.rows
  {
    Lookup(t, id, fault, "item not found")
  }

  /**
   * The record an Update writes: an empty SKU or name and a zero category or
   * rack keep the stored value; stock, minimum stock and price are written as
   * sent, zero included.
   */
  function MergeItem(existing: Item, data: Item): Item
  {
    Item(
      if data.sku == "" then existing.sku else data.sku,
      if data.name == "" then existing.name else data.name,
      if data.categoryId == 0 then existing.categoryId else data.categoryId,
      if data.rackId == 0 then existing.rackId else data.rackId,
      data.stock,
      data.minimumStock,
      data.price)
  }

  /** The result and table after Update(id, data). */
  function UpdateItemSpec(t: Table<Item>, id: int, data: Item, fault: StoreFault): (r: (Outcome<Failure>, Table<Item>))
    ensures r.0.Pass? ==> id in t.rows && r.1 == Table(t.rows[id := MergeItem(t.rows[id], data)], t.nextId)
    ensures r.0.Fail? ==> r.1 == t
    ensures r.0 == Fail(Refused("item not found")) <==> fault != ByIdFails && id !in t.rows
    ensures r.0 == Fail(Refused("SKU already exists")) <==>
      fault !in {ByIdFails, ByKeyFails} && id in t.rows && data.sku != "" && data.sku != t.rows[id].sku
      && SkuHolders(t, data.sku) != {}
    ensures r.0 == Fail(Refused("failed to check SKU")) <==>
      fault == ByKeyFails && id in t.rows && data.sku != "" && data.sku != t.rows[id].sku
    ensures r.0.Pass? <==>
      fault !in {ByIdFails, WriteFails} && id in t.rows
      && (data.sku != "" && data.sku != t.rows[id].sku ==> fault != ByKeyFails && SkuHolders(t, data.sku) == {})
  {
    if fault == ByIdFails then (Fail(Storage), t)
    else if id !in t.rows then (Fail(Refused("item not found")), t)
    else
      var merged := MergeItem(t.rows[id], data);
      if merged.sku != t.rows[id].sku && fault == ByKeyFails then (Fail(Refused("failed to check SKU")), t)
      else if merged.sku != t.rows[id].sku && SkuHolders(t, merged.sku) != {} then (Fail(Refused("SKU already exists")), t)
      else if fault == WriteFails then (Fail(Storage), t)
      else (Pass, Table(t.rows[id := merged], t.nextId))
  }

  /**
   * Update: the existence check, the field-by-field merge into the caller's
   * record (returned as `written`, which is what the caller sees afterwards),
   * the SKU re-check when the SKU changes, and the write.
   */
  method UpdateItem(t: Table<Item>, id: int, data: Item, fault: StoreFault)
    returns (r: Outcome<Failure>, t': Table<Item>, written: Item)
    ensures (r, t') == UpdateItemSpec(t, id, data, fault)
    ensures written == if fault != ByIdFails && id in t.rows then MergeItem(t.rows[id], data) else data
  {
    written := data;
    if fault == ByIdFails {
      return Fail(Storage), t, written;
    }
    if id !in t.rows {
      return Fail(Refused("item not found")), t, written;
    }
    var existing := t.rows[id];
    if written.sku == "" {
      written := written.(sku := existing.sku);
    }
    if written.name == "" {
      written := written.(name := existing.name);
    }
    if written.categoryId == 0 {
      written := written.(categoryId := existing.categoryId);
    }
    if written.rackId == 0 {
      written := written.(rackId := existing.rackId);
    }
    if written.sku != existing.sku {
      if fault == ByKeyFails {
        return Fail(Refused("failed to check SKU")), t, written;
      }
      if SkuHolders(t, written.sku) != {} {
        return Fail(Refused("SKU already exists")), t, written;
      }
    }
    if fault == WriteFails {
      return Fail(Storage), t, written;
    }
    return Pass, Table(t.rows[id := written], t.nextId), written;
  }

  /**
   * The merge rule: stock, minimum stock and price are always the sent ones;
   * a blank patch writes back the stored SKU, name, category and rack; and
   * merging a merged record again changes nothing.
   */
  lemma MergeItemRule(existing: Item, data: Item)
    ensures var m := MergeItem(existing, data);
      m.stock == data.stock && m.minimumStock == data.minimumStock && m.price == data.price
      && (data.sku != "" ==> m.sku == data.sku) && (data.name != "" ==> m.name == data.name)
      && (data.categoryId != 0 ==> m.categoryId == data.categoryId) && (data.rackId != 0 ==> m.rackId == data.rackId)
      && MergeItem(existing, m) == m
    ensures MergeItem(existing, Item("", "", 0, 0, data.stock, data.minimumStock, data.price))
      == existing.(stock := data.stock, minimumStock := data.minimumStock, price := data.price)
  {
  }

  /** An Update keeps SKUs unique and hands out no id. */
  lemma UpdateItemKeepsUnique(t: Table<Item>, id: int, data: Item, fault: StoreFault)
    requires UniqueSkus(t) && IdsBelow(t)
    ensures var t' := UpdateItemSpec(t, id, data, fault).1; UniqueSkus(t') && IdsBelow(t')
  {
    var r := UpdateItemSpec(t, id, data, fault);
    if r.0.Pass? {
      var m := MergeItem(t.rows[id], data);
      forall a, b | a in r.1.rows && b in r.1.rows && a != b
        ensures r.1.rows[a].sku != r.1.rows[b].sku
      {
        if a == id || b == id {
          var other := if a == id then b else a;
          assert other in SkuHolders(t, m.sku) <== t.rows[other].sku == m.sku;
        }
      }
    }
  }

  /** When the merged SKU is the stored one, the SKU lookup is not made, so its failure cannot matter. */
  lemma UnchangedSkuSkipsLookup(t: Table<Item>, id: int, data: Item)
    requires id in t.rows && MergeItem(t.rows[id], data).sku == t.rows[id].sku
    ensures UpdateItemSpec(t, id, data, ByKeyFails) == UpdateItemSpec(t, id, data, NoStoreFault)
  {
  }

  /** Delete: the existence check, then the delete. */
  function DeleteItem(t: Table<Item>, id: int, fault: StoreFault): (r: (Outcome<Failure>, Table<Item>))
    ensures r.0.Pass? <==> fault !in {ByIdFails, WriteFails} && id in t.rows
    ensures r.0 == Fail(Refused("item not found")) <==> fault != ByIdFails && id !in t.rows
    ensures r.0.Pass? ==> r.1.rows == t.rows - {id}
    ensures r.0.Fail? ==> r.1 == t
  {
    Remove(t, id, fault, "item not found")
  }

  /** A Delete keeps SKUs unique. */
  lemma DeleteItemKeepsUnique(t: Table<Item>, id: int, fault: StoreFault)
    requires UniqueSkus(t) && IdsBelow(t)
    ensures var t' := DeleteItem(t, id, fault).1; UniqueSkus(t') && IdsBelow(t')
  {
  }
}
