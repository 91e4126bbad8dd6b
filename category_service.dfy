/**
 * The category service: category names are unique. Create refuses a taken
 * name; Update keeps the stored name when the sent one is empty and the
 * stored description when none is sent, and re-checks the name only when it
 * changed.
 */
module CategoryService {
  import opened Results
  import opened Model
  import opened Catalogue

  /** The ids of the categories called `name`: what the lookup by name finds. */
  function NameHolders(t: Table<Category>, name: string): set<int>
  {
    set id | id in t.rows && t.rows[id].name == name
  }

  /** No two categories share a name. */
  predicate UniqueNames(t: Table<Category>)
  {
    forall a, b | a in t.rows && b in t.rows && a != b :: t.rows[a].name != t.rows[b].name
  }

  /** Create: refused when the name lookup fails or finds a category, otherwise the insert. */
  function CreateCategory(t: Table<Category>, c: Category, fault: StoreFault): (r: (Result<int, Failure>, Table<Category>))
    ensures r.0.Ok? <==> fault !in {ByKeyFails, WriteFails} && NameHolders(t, c.name) == {}
    ensures r.0 == Err(Refused("failed to check category name")) <==> fault == ByKeyFails
    ensures r.0 == Err(Refused("category name already exists")) <==> fault != ByKeyFails && NameHolders(t, c.name) != {}
    ensures r.0.Ok? ==> r.0.value == t.nextId && r.1 == Insert(t, c)
    ensures r.0.Err? ==> r.1 == t
  {
    if fault == ByKeyFails then (Err(Refused("failed to check category name")), t)
    else if NameHolders(t, c.name) != {} then (Err(Refused("category name already exists")), t)
    else if fault == WriteFails then (Err(Storage), t)
    else (Ok(t.nextId), Insert(t, c))
  }

  /** A Create keeps names unique, and the new category is then the only one with its name. */
  lemma CreateCategoryKeepsUnique(t: Table<Category>, c: Category, fault: StoreFault)
    requires UniqueNames(t) && IdsBelow(t)
    ensures var r := CreateCategory(t, c, fault);
      UniqueNames(r.1) && IdsBelow(r.1) && (r.0.Ok? ==> NameHolders(r.1, c.name) == {r.0.value})
  {
    InsertFresh(t, c);
  }

  /** GetCategoryByID: the stored category, "category not found", or the database's error. */
  function GetCategoryByID(t: Table<Category>, id: int, fault: StoreFault): (r: Result<Category, Failure>)
    ensures r.Ok? <==> fault != ByIdFails && id in t.rows
    ensures r.Ok? ==> r.value == t.rows[id]
    ensures r == Err(Refused("category not found")) <==> fault != ByIdFails && id !in t.rows
  {
    Lookup(t, id, fault, "category not found")
  }

  /** The record an Update writes: an empty name or an absent description keeps the stored value. */
  function MergeCategory(existing: Category, data: Category): Category
  {
    Category(
      if data.name == "" then existing.name else data.name,
      if data.description.None? then existing.description else data.description)
  }

  /** The result and table after Update(id, data). */
  function UpdateCategorySpec(t: Table<Category>, id: int, data: Category, fault: StoreFault): (r: (Outcome<Failure>, Table<Category>))
    ensures r.0.Pass? ==> id in t.rows && r.1 == Table(t.rows[id := MergeCategory(t.rows[id], data)], t.nextId)
    ensures r.0.Fail? ==> r.1 == t
    ensures r.0 == Fail(Refused("category not found")) <==> fault != ByIdFails && id !in t.rows
    ensures r.0 == Fail(Refused("category name already exists")) <==>
      fault !in {ByIdFails, ByKeyFails} && id in t.rows && data.name != "" && data.name != t.rows[id].name
      && NameHolders(t, data.name) != {}
    ensures r.0 == Fail(Refused("failed to check category name")) <==>
      fault == ByKeyFails && id in t.rows && data.name != "" && data.name != t.rows[id].name
    ensures r.0.Pass? <==>
      fault !in {ByIdFails, WriteFails} && id in t.rows
      && (data.name != "" && data.name != t.rows[id].name ==> fault != ByKeyFails && NameHolders(t, data.name) == {})
  {
    if fault == ByIdFails then (Fail(Storage), t)
    else if id !in t.rows then (Fail(Refused("category not found")), t)
    else
      var merged := MergeCategory(t.rows[id], data);
      if merged.name != t.rows[id].name && fault == ByKeyFails then (Fail(Refused("failed to check category name")), t)
      else if merged.name != t.rows[id].name && NameHolders(t, merged.name) != {} then
        (Fail(Refused("category name already exists")), t)
      else if fault == WriteFails then (Fail(Storage), t)
      else (Pass, Table(t.rows[id := merged], t.nextId))
  }

  /**
   * Update: the existence check, the merge into the caller's record
   * (returned as `written`), the name re-check when the name changes, and
   * the write.
   */
  method UpdateCategory(t: Table<Category>, id: int, data: Category, fault: StoreFault)
    returns (r: Outcome<Failure>, t': Table<Category>, written: Category)
    ensures (r, t') == UpdateCategorySpec(t, id, data, fault)
    ensures written == if fault != ByIdFails && id in t.rows then MergeCategory(t.rows[id], data) else data
  {
    written := data;
    if fault == ByIdFails {
      return Fail(Storage), t, written;
    }
    if id !in t.rows {
      return Fail(Refused("category not found")), t, written;
    }
    var existing := t.rows[id];
    if written.name == "" {
      written := written.(name := existing.name);
    }
    if written.description.None? {
      written := written.(description := existing.description);
    }
    if written.name != existing.name {
      if fault == ByKeyFails {
        return Fail(Refused("failed to check category name")), t, written;
      }
      if NameHolders(t, written.name) != {} {
        return Fail(Refused("category name already exists")), t, written;
      }
    }
    if fault == WriteFails {
      return Fail(Storage), t, written;
    }
    return Pass, Table(t.rows[id := written], t.nextId), written;
  }

  /** The merge rule: a sent name or description is written; a blank patch writes back the stored category. */
  lemma MergeCategoryRule(existing: Category, data: Category)
    ensures var m := MergeCategory(existing, data);
      && (data.name != "" ==> m.name == data.name)
      && (data.description.Some? ==> m.description == data.description)
      && MergeCategory(existing, m) == m
    ensures MergeCategory(existing, Category("", None)) == existing
  {
  }

  /** An Update keeps names unique and hands out no id. */
  lemma UpdateCategoryKeepsUnique(t: Table<Category>, id: int, data: Category, fault: StoreFault)
    requires UniqueNames(t) && IdsBelow(t)
    ensures var t' := UpdateCategorySpec(t, id, data, fault).1; UniqueNames(t') && IdsBelow(t')
  {
    var r := UpdateCategorySpec(t, id, data, fault);
    if r.0.Pass? {
      forall a, b | a in r.1.rows && b in r.1.rows && a != b
        ensures r.1.rows[a].name != r.1.rows[b].name
      {
        if a == id || b == id {
          var other := if a == id then b else a;
          assert other in NameHolders(t, t.rows[other].name);
        }
      }
    }
  }

  /** Delete: the existence check, then the delete. */
  function DeleteCategory(t: Table<Category>, id: int, fault: StoreFault): (r: (Outcome<Failure>, Table<Category>))
    ensures r.0.Pass? <==> fault !in {ByIdFails, WriteFails} && id in t.rows
    ensures r.0 == Fail(Refused("category not found")) <==> fault != ByIdFails && id !in t.rows
    ensures r.0.Pass? ==> r.1.rows == t.rows - {id}
    ensures r.0.Fail? ==> r.1 == t
  {
    Remove(t, id, fault, "category not found")
  }
}
