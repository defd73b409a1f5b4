/** The administrator's routes of src/routes/admin.js, all behind the admin gate: creating,
    editing and deactivating barbershops, listing users, changing a user's role and the
    status report.  The caller is `req.user` as the gate left it (`admin` here). */
module AdminRoutes {
  import opened Text
  import opened JsValues
  import opened Queries
  import opened Store
  import opened ShopEdit
  import opened Middleware
  import opened ShopRoutes

  // ---------------------------------------------------------------------------------------
  // POST /admin/barbershops

  /** One of the seven fields a new barbershop needs is falsy. */
  predicate MissingRequired(b: map<string, Value>) {
    !Truthy(Lookup(b, "nomi")) || !Truthy(Lookup(b, "manzil")) || !Truthy(Lookup(b, "telefon"))
    || !Truthy(Lookup(b, "narx")) || !Truthy(Lookup(b, "ochilishVaqti")) || !Truthy(Lookup(b, "yopilishVaqti"))
    || !Truthy(Lookup(b, "ownerId"))
  }

  /** `x || null`. */
  function OrNull(x: Value): (r: Value)
    ensures Truthy(x) ==> r == x
    ensures !Truthy(x) ==> r == Null
  {
    if Truthy(x) then x else Null
  }

  /** `SELECT role FROM users WHERE id = ?` bound to `ownerId` finds a row whose role is
      'barber'. */
  predicate IsBarberOwner(users: seq<User>, ownerId: Value) {
    var k := FindUser(users, SqlKey(ownerId));
    k.Some? && users[k.value].role == "barber"
  }

  /** The row the INSERT adds with rowid `id`: the body's fields, NULL for a falsy `rasm` or
      `malumot`, the owner's key, active. */
  function NewShop(id: int, b: map<string, Value>, owner: int): Shop {
    Shop(id, Lookup(b, "nomi"), OrNull(Lookup(b, "rasm")), Lookup(b, "manzil"), Lookup(b, "telefon"),
         OrNull(Lookup(b, "malumot")), Lookup(b, "narx"), Lookup(b, "ochilishVaqti"), Lookup(b, "yopilishVaqti"),
         Some(owner), true)
  }

  datatype CreateResult = MissingFields | OwnerNotBarber | Created(shop: Shop)

  function CreateStatus(r: CreateResult): (status: int)
    ensures status == 201 <==> r.Created?
  {
    if r.Created? then 201 else 400
  }

  /** POST /admin/barbershops: 400 when a required field is falsy, 400 when `ownerId`
      designates no barber, and otherwise the barbershop is appended under the next rowid. */
  method CreateShop(db: Db, body: Option<map<string, Value>>) returns (r: CreateResult)
    requires db.Valid()
    modifies db
    ensures db.Valid()
    ensures db.users == old(db.users) && db.employees == old(db.employees) && db.appointments == old(db.appointments)
    ensures db.nextAppointmentId == old(db.nextAppointmentId)
    ensures var b := BodyObject(body);
      && (r.MissingFields? <==> MissingRequired(b))
      && (r.OwnerNotBarber? <==> !MissingRequired(b) && !IsBarberOwner(old(db.users), Lookup(b, "ownerId")))
      && (r.Created? <==> !MissingRequired(b) && IsBarberOwner(old(db.users), Lookup(b, "ownerId")))
    ensures !r.Created? ==> db.shops == old(db.shops) && db.nextShopId == old(db.nextShopId)
    ensures r.Created? ==>
      var b := BodyObject(body);
      && SqlKey(Lookup(b, "ownerId")).Some?
      && r.shop == NewShop(old(db.nextShopId), b, SqlKey(Lookup(b, "ownerId")).value)
      && db.shops == old(db.shops) + [r.shop]
      && db.nextShopId == old(db.nextShopId) + 1
  {
    var b := BodyObject(body);
    if MissingRequired(b) {
      return MissingFields;
    }
    var ownerId := Lookup(b, "ownerId");
    var owner := FindUser(db.users, SqlKey(ownerId));
    if owner.None? || db.users[owner.value].role != "barber" {
      return OwnerNotBarber;
    }
    var shop := NewShop(db.nextShopId, b, SqlKey(ownerId).value);
    db.shops := db.shops + [shop];
    db.nextShopId := db.nextShopId + 1;
    r := Created(shop);
  }

  /** A created barbershop is listed, its page opens under its id, and its owner's barber
      routes find a barbershop of theirs. */
  lemma CreatedShopIsShown(shops: seq<Shop>, users: seq<User>, employees: seq<Employee>, appointments: seq<Appointment>,
                           id: nat, b: map<string, Value>, owner: int, now: int)
    requires forall i :: 0 <= i < |shops| ==> shops[i].id < id
    ensures var after := shops + [NewShop(id, b, owner)];
      && NewShop(id, b, owner) in ActiveShops(after)
      && ShopPage(after, users, employees, appointments, Decimal(id), now).Some?
      && ShopPage(after, users, employees, appointments, Decimal(id), now).value.shop == NewShop(id, b, owner)
      && OwnShop(after, Num(Finite(owner as real))).Some?
  {
    var s := NewShop(id, b, owner);
    var after := shops + [s];
    SqlKeyOfId(id);
    ActiveShopsSpec(after);
    assert after[|shops|] == s;
    assert OwnedBy(s, Num(Finite(owner as real)));
    assert ShownShop(after[|shops|], IdKey(Decimal(id)));
    var k := FindFirst(after, (t: Shop) => ShownShop(t, IdKey(Decimal(id))));
    assert k == Some(|shops|);
  }

  // ---------------------------------------------------------------------------------------
  // PUT /admin/barbershops/:id

  /** `SELECT ... FROM barbershops WHERE id = ?` bound to the route parameter: the first row
      with that key, or None (the response then carries no barbershop). */
  function ShopById(shops: seq<Shop>, id: string): (r: Option<Shop>)
    ensures r.Some? ==> r.value in shops && IdKey(id) == Some(r.value.id)
    ensures r.None? <==> forall i :: 0 <= i < |shops| ==> IdKey(id) != Some(shops[i].id)
  {
    var k := FindFirst(shops, (s: Shop) => IdKey(id) == Some(s.id));
    if k.None? then None else Some(shops[k.value])
  }

  /** PUT /admin/barbershops/:id: 400 when the body has no field the admin's editor takes;
      otherwise every row the id designates is edited and 200 is answered, whether or not
      such a row exists.  `shown` is the row read back afterwards. */
  method EditShop(db: Db, id: string, body: Option<map<string, Value>>) returns (status: int, shown: Option<Shop>)
    requires db.Valid()
    modifies db
    ensures db.Valid()
    ensures db.users == old(db.users) && db.employees == old(db.employees) && db.appointments == old(db.appointments)
    ensures db.nextShopId == old(db.nextShopId) && db.nextAppointmentId == old(db.nextAppointmentId)
    ensures var updates := BodyObject(body);
      && (status == 400 <==> NothingToUpdate(AdminEditor, updates))
      && (status == 200 <==> !NothingToUpdate(AdminEditor, updates))
    ensures status == 400 ==> db.shops == old(db.shops) && shown == None
    ensures status == 200 ==>
      && |db.shops| == |old(db.shops)|
      && (forall i :: 0 <= i < |db.shops| ==>
            if IdKey(id) == Some(old(db.shops)[i].id) then Edited(old(db.shops)[i], db.shops[i], AdminEditor, BodyObject(body))
            else db.shops[i] == old(db.shops)[i])
      && shown == ShopById(db.shops, id)
  {
    var updates := BodyObject(body);
    var fields, values := BuildUpdate(AdminEditor, updates);
    if |fields| == 0 {
      return 400, None;
    }
    assert !NothingToUpdate(AdminEditor, updates) by {
      assert fields[0] in fields;
    }
    UpdateShopsSpec(db.shops, AdminEditor, updates, fields, values, Str(id));
    db.shops := UpdateShops(db.shops, fields, values + [Str(id)]);
    status := 200;
    shown := ShopById(db.shops, id);
  }

  // ---------------------------------------------------------------------------------------
  // DELETE /admin/barbershops/:id

  /** `UPDATE barbershops SET is_active = 0 WHERE id = ?`. */
  function Deactivate(shops: seq<Shop>, id: string): seq<Shop> {
    UpdateRows(shops, IdKey(id), (s: Shop) => s.id, (s: Shop) => s.(isActive := false))
  }

  /** DELETE /admin/barbershops/:id: the rows the id designates are deactivated, the rest are
      kept, and 200 is answered whether or not such a row exists. */
  method DeleteShop(db: Db, id: string) returns (status: int)
    requires db.Valid()
    modifies db
    ensures db.Valid()
    ensures status == 200
    ensures db.users == old(db.users) && db.employees == old(db.employees) && db.appointments == old(db.appointments)
    ensures db.nextShopId == old(db.nextShopId) && db.nextAppointmentId == old(db.nextAppointmentId)
    ensures db.shops == Deactivate(old(db.shops), id)
  {
    db.shops := Deactivate(db.shops, id);
    status := 200;
  }

  /** Deactivation keeps every row but the active flag of the designated ones, hides them
      from the list, the shop page and the owner's routes, and a second deletion changes
      nothing. */
  lemma DeactivateSpec(shops: seq<Shop>, users: seq<User>, employees: seq<Employee>, appointments: seq<Appointment>,
                       id: string, now: int, actor: Value)
    ensures var r := Deactivate(shops, id);
      && |r| == |shops|
      && (forall i :: 0 <= i < |r| ==>
            r[i] == if IdKey(id) == Some(shops[i].id) then shops[i].(isActive := false) else shops[i])
      && (forall s :: s in ActiveShops(r) <==> s in shops && s.isActive && IdKey(id) != Some(s.id))
      && ShopPage(r, users, employees, appointments, id, now).None?
      && (forall i :: 0 <= i < |r| && IdKey(id) == Some(r[i].id) ==> !OwnedBy(r[i], actor))
      && Deactivate(r, id) == r
  {
    var r := Deactivate(shops, id);
    ActiveShopsSpec(r);
    ActiveShopsSpec(shops);
    forall s ensures s in ActiveShops(r) <==> s in shops && s.isActive && IdKey(id) != Some(s.id) {
      if s in r && s.isActive {
        var i :| 0 <= i < |r| && r[i] == s;
        assert r[i] == shops[i];
      }
      if s in shops && s.isActive && IdKey(id) != Some(s.id) {
        var i :| 0 <= i < |shops| && shops[i] == s;
        assert r[i] == s;
      }
    }
    var twice := Deactivate(r, id);
    assert twice == r by {
      forall i | 0 <= i < |r| ensures twice[i] == r[i] {
      }
    }
  }

  // ---------------------------------------------------------------------------------------
  // GET /admin/users

  /** A user listed under the filter: every user when the `role` parameter is absent or
      empty, else those with exactly that role. */
  predicate Listed(u: User, role: Option<string>) {
    role.None? || role.value == "" || u.role == role.value
  }

  /** The list of users and `jami`, the number of them. */
  datatype UserList = UserList(users: seq<User>, total: nat)

  function Newest(u: User): int {
    -u.createdAt
  }

  /** GET /admin/users?role=...: `ORDER BY created_at DESC`. */
  function ListUsers(users: seq<User>, role: Option<string>): UserList {
    var rows := SortBy(Filter(users, (u: User) => Listed(u, role)), Newest);
    UserList(rows, |rows|)
  }

  /** The list holds exactly the users of the role asked for (all of them without a filter),
      newest first, and `jami` is their number. */
  lemma ListUsersSpec(users: seq<User>, role: Option<string>)
    ensures var r := ListUsers(users, role);
      && r.total == |r.users|
      && (forall u :: u in r.users <==> u in users && Listed(u, role))
      && (forall i, j :: 0 <= i < j < |r.users| ==> r.users[i].createdAt >= r.users[j].createdAt)
      && (role.None? || role.value == "" ==> r.total == |users|)
  {
    var p := (u: User) => Listed(u, role);
    var kept := Filter(users, p);
    SortByMembers(kept, Newest);
    forall u ensures u in kept <==> u in users && p(u) {
      FilterMembers(users, p, u);
    }
    if role.None? || role.value == "" {
      FilterKeepsAll(users, p);
    }
  }

  // ---------------------------------------------------------------------------------------
  // PUT /admin/users/:id/change-role and PUT /admin/users/:id/toggle-status

  /** `yangiRole` is one of 'user', 'barber' and 'admin'. */
  predicate ValidRole(v: Value) {
    v.Str? && (v.s == "user" || v.s == "barber" || v.s == "admin")
  }

  /** `parseInt(id) === req.user.id`: the route parameter names the caller. */
  predicate IsSelf(id: string, admin: map<string, Value>) {
    StrictEquals(Num(ParseInt(id, Auto)), Caller(admin))
  }

  datatype RoleChange =
    | InvalidRole
    | UserNotFound
    | OwnRole
    | AlreadyHasRole
    | RoleChanged(user: User, oldRole: string, newRole: string)

  function RoleChangeStatus(r: RoleChange): (status: int)
    ensures status == 200 <==> r.RoleChanged?
    ensures status == 404 <==> r.UserNotFound?
  {
    match r
    case RoleChanged(_, _, _) => 200
    case UserNotFound => 404
    case _ => 400
  }

  /** PUT /admin/users/:id/change-role: 400 for a role outside the three, 404 for an id that
      designates no user, 400 when the id is the caller's own, 400 when the user has the role
      already; otherwise the role of that one user is replaced and nothing else changes. */
  method ChangeRole(db: Db, admin: map<string, Value>, id: string, body: map<string, Value>) returns (r: RoleChange)
    requires db.Valid()
    modifies db
    ensures db.Valid()
    ensures db.shops == old(db.shops) && db.employees == old(db.employees) && db.appointments == old(db.appointments)
    ensures db.nextShopId == old(db.nextShopId) && db.nextAppointmentId == old(db.nextAppointmentId)
    ensures var v, k := Lookup(body, "yangiRole"), FindUser(old(db.users), IdKey(id));
      && (r.InvalidRole? <==> !ValidRole(v))
      && (r.UserNotFound? <==> ValidRole(v) && k.None?)
      && (r.OwnRole? <==> ValidRole(v) && k.Some? && IsSelf(id, admin))
      && (r.AlreadyHasRole? <==> ValidRole(v) && k.Some? && !IsSelf(id, admin) && old(db.users)[k.value].role == v.s)
      && (r.RoleChanged? <==> ValidRole(v) && k.Some? && !IsSelf(id, admin) && old(db.users)[k.value].role != v.s)
    ensures !r.RoleChanged? ==> db.users == old(db.users)
    ensures r.RoleChanged? ==>
      var k := FindUser(old(db.users), IdKey(id)).value;
      && r == RoleChanged(old(db.users)[k], old(db.users)[k].role, Lookup(body, "yangiRole").s)
      && db.users == old(db.users)[k := old(db.users)[k].(role := r.newRole)]
  {
    var v := Lookup(body, "yangiRole");
    if !ValidRole(v) {
      return InvalidRole;
    }
    var k := FindUser(db.users, IdKey(id));
    if k.None? {
      return UserNotFound;
    }
    if IsSelf(id, admin) {
      return OwnRole;
    }
    var user := db.users[k.value];
    if user.role == v.s {
      return AlreadyHasRole;
    }
    var key := IdKey(id);
    UpdateOneRow(db.users, k.value, (u: User) => u.id, (u: User) => u.(role := v.s));
    db.users := UpdateRows(db.users, key, (u: User) => u.id, (u: User) => u.(role := v.s));
    r := RoleChanged(user, user.role, v.s);
  }

  /** After a change the user holds the new role, which differs from the old one, and every
      other user is as before. */
  lemma RoleChangedSpec(users: seq<User>, k: nat, role: string)
    requires UniqueKeys(users, (u: User) => u.id) && k < |users| && users[k].role != role
    ensures var after := users[k := users[k].(role := role)];
      && UniqueKeys(after, (u: User) => u.id)
      && FindUser(after, Some(users[k].id)) == Some(k)
      && after[k].role == role && after[k].role != users[k].role
      && after[k].(role := users[k].role) == users[k]
  {
    var after := users[k := users[k].(role := role)];
    assert forall i :: 0 <= i < |users| ==> after[i].id == users[i].id;
    FindByKey(after, (u: User) => u.id, k);
  }

  datatype StatusReport =
    | NotBoolean
    | StatusUserNotFound
    | OwnStatus
    | Reported(user: User, state: string)

  /** `faol ? 'faol' : 'blok'`. */
  function StateText(active: bool): (t: string)
    ensures t == "faol" <==> active
    ensures t == "blok" <==> !active
  {
    if active then "faol" else "blok"
  }

  /** PUT /admin/users/:id/toggle-status: 400 unless `faol` is a boolean, 404 for an id that
      designates no user, 400 when the id is the caller's own, and otherwise a report of the
      requested state.  No row is written. */
  function ToggleStatus(users: seq<User>, admin: map<string, Value>, id: string, body: map<string, Value>): (r: StatusReport)
    ensures var faol, k := Lookup(body, "faol"), FindUser(users, IdKey(id));
      && (r.NotBoolean? <==> !faol.Bool?)
      && (r.StatusUserNotFound? <==> faol.Bool? && k.None?)
      && (r.OwnStatus? <==> faol.Bool? && k.Some? && IsSelf(id, admin))
      && (r.Reported? <==> faol.Bool? && k.Some? && !IsSelf(id, admin))
      && (r.Reported? ==> r.user == users[k.value] && (r.state == "faol" <==> faol.b))
  {
    var faol := Lookup(body, "faol");
    if !faol.Bool? then NotBoolean
    else
      var k := FindUser(users, IdKey(id));
      if k.None? then StatusUserNotFound
      else if IsSelf(id, admin) then OwnStatus
      else Reported(users[k.value], StateText(faol.b))
  }
}
