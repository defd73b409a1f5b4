/** The caller's id behind the barber and admin gates.  The tokens src/routes/auth.js:11-16
    issues carry the user id as `sub` and have no `id` claim; the auth gate copies `sub` into
    `req.user.id`, but the barber and admin gates install the verified payload as it is, so
    every `req.user.id` those routes read is undefined.  This module states that as written and
    the gate that copies the id, with what each means for the routes. */
module Findings {
  import opened Text
  import opened JsValues
  import opened Queries
  import opened Store
  import opened Middleware
  import opened BarberRoutes
  import opened AdminRoutes

  /** The payload of an access token as signed (`sub`, `phone`, `role`) with the `iat` and
      `exp` claims the signer adds. */
  function IssuedPayload(uid: int, phone: string, role: string, iat: int, exp: int): (p: map<string, Value>)
    ensures "id" !in p && Lookup(p, "sub") == Num(Finite(uid as real)) && Lookup(p, "role") == Str(role)
  {
    map["sub" := Num(Finite(uid as real)), "phone" := Str(phone), "role" := Str(role),
        "iat" := Num(Finite(iat as real)), "exp" := Num(Finite(exp as real))]
  }

  /** A request whose bearer token verifies to an issued payload. */
  predicate IssuedToken(authorization: Option<string>, verify: string -> Option<map<string, Value>>,
                        uid: int, phone: string, role: string, iat: int, exp: int) {
    var token := HeaderToken(authorization);
    token.Some? && token.value != "" && verify(token.value) == Some(IssuedPayload(uid, phone, role, iat, exp))
  }

  // ---------------------------------------------------------------------------------------
  // As written

  /** Behind either role gate, a barber's or an admin's own token leaves `req.user.id`
      undefined. */
  lemma GateLosesCaller(authorization: Option<string>, verify: string -> Option<map<string, Value>>,
                        uid: int, phone: string, role: string, iat: int, exp: int)
    requires IssuedToken(authorization, verify, uid, phone, role, iat, exp)
    requires role == "barber" || role == "admin"
    ensures BarberGate(authorization, verify).Pass?
    ensures Caller(BarberGate(authorization, verify).user) == Undefined
    ensures role == "admin" ==> AdminGate(authorization, verify).Pass?
                                && Caller(AdminGate(authorization, verify).user) == Undefined
  {
    RoleGateSpec(authorization, verify, {"barber", "admin"});
    RoleGateSpec(authorization, verify, {"admin"});
  }

  /** With `req.user.id` undefined, no barbershop is the caller's: GET and PUT
      /barber/barbershop, the day listing and the history answer 404 and move-tomorrow 403
      for every barber, whatever barbershops they own; completing a booking is refused (403)
      to every caller that is not an admin; and the admin's self-checks never match, so an
      admin may change their own role. */
  lemma UndefinedCallerLocksOut(shops: seq<Shop>, users: seq<User>, employees: seq<Employee>,
                                appointments: seq<Appointment>, user: map<string, Value>,
                                date: Option<string>, days: Option<string>, now: int,
                                owner: Option<int>, id: string)
    requires Caller(user) == Undefined
    ensures OwnShop(shops, Caller(user)).None?
    ensures OwnShopDetails(shops, user).None?
    ensures DayAppointments(shops, users, employees, appointments, user, date, now).None?
    ensures History(shops, users, appointments, user, days, now).NoShop?
    ensures Lookup(user, "role") != Str("admin") ==> !MayComplete(user, owner)
    ensures !IsSelf(id, user)
  {
    assert ToNumber(Undefined) == NaN;
  }

  // ---------------------------------------------------------------------------------------
  // Corrected

  /** The role gate with `req.user.id` set as the auth gate sets it: `sub`, or `id` when `sub`
      is null or undefined. */
  function IdRoleGate(authorization: Option<string>, verify: string -> Option<map<string, Value>>,
                      allowed: set<string>): (r: GateResult)
    ensures var g := RoleGate(authorization, verify, allowed);
      && (r.Reject? <==> g.Reject?)
      && (r.Reject? ==> r == g)
      && (r.Pass? ==> r.user == g.user["id" := NormalizedId(g.user)])
  {
    var g := RoleGate(authorization, verify, allowed);
    if g.Reject? then g else Pass(g.user["id" := NormalizedId(g.user)])
  }

  /** The corrected gates refuse exactly the requests the role gates refuse, and behind them an
      issued token's `sub` is the caller: the owner's routes find the caller's barbershop, the
      owner of a barbershop may complete its bookings, and an admin's own id is recognised. */
  lemma IdRoleGateRestoresCaller(authorization: Option<string>, verify: string -> Option<map<string, Value>>,
                                 allowed: set<string>, uid: nat, phone: string, role: string, iat: int, exp: int,
                                 shops: seq<Shop>)
    requires IssuedToken(authorization, verify, uid, phone, role, iat, exp) && role in allowed
    ensures IdRoleGate(authorization, verify, allowed).Pass?
    ensures var user := IdRoleGate(authorization, verify, allowed).user;
      && Caller(user) == Num(Finite(uid as real))
      && (forall i :: 0 <= i < |shops| ==> (OwnedBy(shops[i], Caller(user)) <==> shops[i].isActive && shops[i].ownerId == Some(uid)))
      && (OwnShop(shops, Caller(user)).None? <==> forall i :: 0 <= i < |shops| ==> !(shops[i].isActive && shops[i].ownerId == Some(uid)))
      && MayComplete(user, Some(uid))
      && IsSelf(Decimal(uid), user)
  {
    RoleGateSpec(authorization, verify, allowed);
    var p := IssuedPayload(uid, phone, role, iat, exp);
    assert NormalizedId(p) == Num(Finite(uid as real));
    var user := IdRoleGate(authorization, verify, allowed).user;
    assert Caller(user) == Num(Finite(uid as real));
    SqlKeyOfId(uid);
    ParseIntOfDecimal(uid, "", Auto);
    assert Decimal(uid) + "" == Decimal(uid);
  }
}
