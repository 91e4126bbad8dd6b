/**
 * The user service: e-mail addresses are unique among active users. The
 * repository's lookups by id and by e-mail see only active users. The
 * service functions below take a lookup that matches no row as "nothing
 * found", so an inactive or absent user is "not found" and does not hold its
 * address. The user repository as written reports a lookup that matches no
 * row as a database error instead; the members named ...AsWritten model
 * that behaviour.
 */
module UserService {
  import opened Results
  import opened Model
  import opened Catalogue

  /** The user is stored and active: what the lookup by id finds. */
  predicate Active(t: Table<User>, id: int)
  {
    id in t.rows && t.rows[id].isActive
  }

  /** The ids of the active users with this address: what the lookup by e-mail finds. */
  function EmailHolders(t: Table<User>, email: string): set<int>
  {
    set id | id in t.rows && t.rows[id].isActive && t.rows[id].email == email
  }

  /** No two active users share an address. */
  predicate UniqueEmails(t: Table<User>)
  {
    forall a, b | a in t.rows && b in t.rows && a != b && t.rows[a].isActive && t.rows[b].isActive ::
      t.rows[a].email != t.rows[b].email
  }

  /** Create: refused when the e-mail lookup fails or finds an active user, otherwise the insert. */
  function CreateUser(t: Table<User>, user: User, fault: StoreFault): (r: (Result<int, Failure>, Table<User>))
    ensures r.0.Ok? <==> fault !in {ByKeyFails, WriteFails} && EmailHolders(t, user.email) == {}
    ensures r.0 == Err(Refused("failed to check email")) <==> fault == ByKeyFails
    ensures r.0 == Err(Refused("email already exists")) <==> fault != ByKeyFails && EmailHolders(t, user.email) != {}
    ensures r.0.Ok? ==> r.0.value == t.nextId && r.1 == Insert(t, user)
    ensures r.0.Err? ==> r.1 == t
  {
    if fault == ByKeyFails then (Err(Refused("failed to check email")), t)
    else if EmailHolders(t, user.email) != {} then (Err(Refused("email already exists")), t)
    else if fault == WriteFails then (Err(Storage), t)
    else (Ok(t.nextId), Insert(t, user))
  }

  /** A Create keeps active addresses unique; a new active user is then the only holder of its address. */
  lemma CreateUserKeepsUnique(t: Table<User>, user: User, fault: StoreFault)
    requires UniqueEmails(t) && IdsBelow(t)
    ensures var r := CreateUser(t, user, fault);
      UniqueEmails(r.1) && IdsBelow(r.1)
      && (r.0.Ok? && user.isActive ==> EmailHolders(r.1, user.email) == {r.0.value})
  {
    InsertFresh(t, user);
    var r := CreateUser(t, user, fault);
    if r.0.Ok? {
      forall a, b | Active(r.1, a) && Active(r.1, b) && a != b
        ensures r.1.rows[a].email != r.1.rows[b].email
      {
        if a == t.nextId || b == t.nextId {
          var other := if a == t.nextId then b else a;
          assert other in EmailHolders(t, t.rows[other].email);
        }
      }
    }
  }

  /**
   * Create over the repository as written: a lookup by e-mail that matches no
   * row comes back as an error, so a free address is refused with "failed to
   * check email" and no user is ever inserted.
   */
  function CreateUserAsWritten(t: Table<User>, user: User, fault: StoreFault): (r: (Result<int, Failure>, Table<User>))
    ensures r.0.Err? && r.1 == t
    ensures r.0 == Err(Refused("email already exists")) <==> fault != ByKeyFails && EmailHolders(t, user.email) != {}
    ensures r.0 == Err(Refused("failed to check email")) <==> fault == ByKeyFails || EmailHolders(t, user.email) == {}
  {
    if fault == ByKeyFails then (Err(Refused("failed to check email")), t)
    else if EmailHolders(t, user.email) == {} then (Err(Refused("failed to check email")), t)
    else (Err(Refused("email already exists")), t)
  }

  /** On a free address with no database failure, Create as written refuses and Create as intended inserts. */
  lemma FreeAddressRefusedAsWritten(t: Table<User>, user: User)
    requires EmailHolders(t, user.email) == {}
    ensures CreateUserAsWritten(t, user, NoStoreFault).0 == Err(Refused("failed to check email"))
    ensures CreateUser(t, user, NoStoreFault) == (Ok(t.nextId), Insert(t, user))
  {
  }

  /**
   * GetUserByIDDetailed over the repository as written: a lookup by id that
   * matches no row comes back as the database's error, so "user not found"
   * is never returned.
   */
  function GetUserByIDDetailedAsWritten(t: Table<User>, id: int, fault: StoreFault): (r: Result<User, Failure>)
    ensures r.Ok? <==> fault != ByIdFails && Active(t, id)
    ensures r.Err? ==> r.error == Storage
  {
    if fault == ByIdFails then Err(Storage)
    else if !Active(t, id) then Err(Storage)
    else Ok(t.rows[id])
  }

  /** For an absent or inactive user, the as-written lookup gives a database error where the intended one says "user not found". */
  lemma MissingUserAsWritten(t: Table<User>, id: int)
    requires !Active(t, id)
    ensures GetUserByIDDetailedAsWritten(t, id, NoStoreFault) == Err(Storage)
    ensures GetUserByIDDetailed(t, id, NoStoreFault) == Err(Refused("user not found"))
  {
  }

  /** GetUserByIDDetailed: the stored active user, "user not found", or the database's error. */
  function GetUserByIDDetailed(t: Table<User>, id: int, fault: StoreFault): (r: Result<User, Failure>)
    ensures r.Ok? <==> fault != ByIdFails && Active(t, id)
    ensures r.Ok? ==> r.value == t.rows[id] && r.value.isActive
    ensures r == Err(Refused("user not found")) <==> fault != ByIdFails && !Active(t, id)
  {
    if fault == ByIdFails then Err(Storage)
    else if !Active(t, id) then Err(Refused("user not found"))
    else Ok(t.rows[id])
  }

  /**
   * The record an Update writes: an empty name, e-mail or password hash and
   * a zero role keep the stored value; the active flag is written as sent.
   */
  function MergeUser(existing: User, data: User): User
  {
    User(
      if data.name == "" then existing.name else data.name,
      if data.email == "" then existing.email else data.email,
      if data.passwordHash == "" then existing.passwordHash else data.passwordHash,
      if data.roleId == 0 then existing.roleId else data.roleId,
      data.isActive)
  }

  /** The result and table after Update(id, data). */
  function UpdateUserSpec(t: Table<User>, id: int, data: User, fault: StoreFault): (r: (Outcome<Failure>, Table<User>))
    ensures r.0.Pass? ==> Active(t, id) && r.1 == Table(t.rows[id := MergeUser(t.rows[id], data)], t.nextId)
    ensures r.0.Fail? ==> r.1 == t
    ensures r.0 == Fail(Refused("user not found")) <==> fault != ByIdFails && !Active(t, id)
    ensures r.0 == Fail(Refused("email already exists")) <==>
      fault !in {ByIdFails, ByKeyFails} && Active(t, id) && data.email != "" && data.email != t.rows[id].email
      && EmailHolders(t, data.email) != {}
    ensures r.0 == Fail(Refused("failed to check email")) <==>
      fault == ByKeyFails && Active(t, id) && data.email != "" && data.email != t.rows[id].email
    ensures r.0.Pass? <==>
      fault !in {ByIdFails, WriteFails} && Active(t, id)
      && (data.email != "" && data.email != t.rows[id].email ==> fault != ByKeyFails && EmailHolders(t, data.email) == {})
  {
    if fault == ByIdFails then (Fail(Storage), t)
    else if !Active(t, id) then (Fail(Refused("user not found")), t)
    else
      var merged := MergeUser(t.rows[id], data);
      if merged.email != t.rows[id].email && fault == ByKeyFails then (Fail(Refused("failed to check email")), t)
      else if merged.email != t.rows[id].email && EmailHolders(t, merged.email) != {} then
        (Fail(Refused("email already exists")), t)
      else if fault == WriteFails then (Fail(Storage), t)
      else (Pass, Table(t.rows[id := merged], t.nextId))
  }

  /**
   * Update: the existence check, the merge into the caller's record
   * (returned as `written`), the e-mail re-check when the address changes,
   * and the write.
   */
  method UpdateUser(t: Table<User>, id: int, data: User, fault: StoreFault)
    returns (r: Outcome<Failure>, t': Table<User>, written: User)
    ensures (r, t') == UpdateUserSpec(t, id, data, fault)
    ensures written == if fault != ByIdFails && Active(t, id) then MergeUser(t.rows[id], data) else data
  {
    written := data;
    if fault == ByIdFails {
      return Fail(Storage), t, written;
    }
    if !Active(t, id) {
      return Fail(Refused("user not found")), t, written;
    }
    var existing := t.rows[id];
    if written.name == "" {
      written := written.(name := existing.name);
    }
    if written.email == "" {
      written := written.(email := existing.email);
    }
    if written.passwordHash == "" {
      written := written.(passwordHash := existing.passwordHash);
    }
    if written.roleId == 0 {
      written := written.(roleId := existing.roleId);
    }
    if written.email != existing.email {
      if fault == ByKeyFails {
        return Fail(Refused("failed to check email")), t, written;
      }
      if EmailHolders(t, written.email) != {} {
        return Fail(Refused("email already exists")), t, written;
      }
    }
    if fault == WriteFails {
      return Fail(Storage), t, written;
    }
    return Pass, Table(t.rows[id := written], t.nextId), written;
  }

  /**
   * The merge rule: the active flag is always the sent one; a sent name,
   * address, hash or role is written; a blank patch writes back the stored
   * user apart from the flag.
   */
  lemma MergeUserRule(existing: User, data: User)
    ensures var m := MergeUser(existing, data);
      && m.isActive == data.isActive
      && (data.name != "" ==> m.name == data.name)
      && (data.email != "" ==> m.email == data.email)
      && (data.passwordHash != "" ==> m.passwordHash == data.passwordHash)
      && (data.roleId != 0 ==> m.roleId == data.roleId)
      && MergeUser(existing, m) == m
    ensures MergeUser(existing, User("", "", "", 0, data.isActive)) == existing.(isActive := data.isActive)
  {
  }

  /** An Update keeps active addresses unique and hands out no id. */
  lemma UpdateUserKeepsUnique(t: Table<User>, id: int, data: User, fault: StoreFault)
    requires UniqueEmails(t) && IdsBelow(t)
    ensures var t' := UpdateUserSpec(t, id, data, fault).1; UniqueEmails(t') && IdsBelow(t')
  {
    var r := UpdateUserSpec(t, id, data, fault);
    if r.0.Pass? {
      forall a, b | Active(r.1, a) && Active(r.1, b) && a != b
        ensures r.1.rows[a].email != r.1.rows[b].email
      {
        if a == id || b == id {
          var other := if a == id then b else a;
          assert other in EmailHolders(t, t.rows[other].email);
        }
      }
    }
  }

  /** Delete: the existence check (active users only), then the delete. */
  function DeleteUser(t: Table<User>, id: int, fault: StoreFault): (r: (Outcome<Failure>, Table<User>))
    ensures r.0.Pass? <==> fault !in {ByIdFails, WriteFails} && Active(t, id)
    ensures r.0 == Fail(Refused("user not found")) <==> fault != ByIdFails && !Active(t, id)
    ensures r.0.Pass? ==> r.1 == Table(t.rows - {id}, t.nextId)
    ensures r.0.Fail? ==> r.1 == t
  {
    if fault == ByIdFails then (Fail(Storage), t)
    else if !Active(t, id) then (Fail(Refused("user not found")), t)
    else if fault == WriteFails then (Fail(Storage), t)
    else (Pass, Table(t.rows - {id}, t.nextId))
  }

  /**
   * Update over the repository as written: an absent or inactive user comes
   * back as the database's error, and a changed address that no active user
   * holds comes back as "failed to check email", so an address never changes.
   */
  function UpdateUserAsWritten(t: Table<User>, id: int, data: User, fault: StoreFault): (r: (Outcome<Failure>, Table<User>))
    ensures r.0.Fail? ==> r.1 == t
    ensures r.0 != Fail(Refused("user not found"))
    ensures r.0.Pass? <==>
      fault !in {ByIdFails, WriteFails} && Active(t, id) && !(data.email != "" && data.email != t.rows[id].email)
    ensures r.0.Pass? ==> r.1 == Table(t.rows[id := MergeUser(t.rows[id], data)], t.nextId)
  {
    if fault == ByIdFails then (Fail(Storage), t)
    else if !Active(t, id) then (Fail(Storage), t)
    else
      var merged := MergeUser(t.rows[id], data);
      if merged.email != t.rows[id].email && fault == ByKeyFails then (Fail(Refused("failed to check email")), t)
      else if merged.email != t.rows[id].email && EmailHolders(t, merged.email) == {} then
        (Fail(Refused("failed to check email")), t)
      else if merged.email != t.rows[id].email then (Fail(Refused("email already exists")), t)
      else if fault == WriteFails then (Fail(Storage), t)
      else (Pass, Table(t.rows[id := merged], t.nextId))
  }

  /** Moving an active user to a free address: refused as written, written as intended. */
  lemma FreeAddressUpdateRefusedAsWritten(t: Table<User>, id: int, data: User)
    requires Active(t, id) && data.email != "" && data.email != t.rows[id].email
    requires EmailHolders(t, data.email) == {}
    ensures UpdateUserAsWritten(t, id, data, NoStoreFault) == (Fail(Refused("failed to check email")), t)
    ensures UpdateUserSpec(t, id, data, NoStoreFault).0 == Pass
  {
  }

  /**
   * Delete over the repository as written: an absent or inactive user comes
   * back as the database's error, never "user not found".
   */
  function DeleteUserAsWritten(t: Table<User>, id: int, fault: StoreFault): (r: (Outcome<Failure>, Table<User>))
    ensures r.0.Pass? <==> fault !in {ByIdFails, WriteFails} && Active(t, id)
    ensures r.0.Fail? ==> r.1 == t && r.0.error == Storage
    ensures r.0.Pass? ==> r.1 == Table(t.rows - {id}, t.nextId)
  {
    if fault == ByIdFails then (Fail(Storage), t)
    else if !Active(t, id) then (Fail(Storage), t)
    else if fault == WriteFails then (Fail(Storage), t)
    else (Pass, Table(t.rows - {id}, t.nextId))
  }

  /** For an absent or inactive user, Update and Delete as written give a database error where the intended ones say "user not found". */
  lemma MissingUserChangeAsWritten(t: Table<User>, id: int, data: User)
    requires !Active(t, id)
    ensures UpdateUserAsWritten(t, id, data, NoStoreFault) == (Fail(Storage), t)
    ensures DeleteUserAsWritten(t, id, NoStoreFault) == (Fail(Storage), t)
    ensures UpdateUserSpec(t, id, data, NoStoreFault).0 == Fail(Refused("user not found"))
    ensures DeleteUser(t, id, NoStoreFault).0 == Fail(Refused("user not found"))
  {
  }
}
