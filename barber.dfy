/** The barber's routes of src/routes/barber.js.  Every handler runs behind the barber gate and
    reads the caller from `req.user` as that gate left it (`user` here): its `id`, which is
    bound to `owner_id = ?` to find the caller's barbershop, and its `role`.  The clock is the
    parameter `now`, an instant in milliseconds; "today" and "tomorrow" are Tashkent days. */
module BarberRoutes {
  import opened Text
  import opened JsValues
  import opened Queries
  import opened Store
  import opened Calendar
  import opened ShopEdit
  import opened Booking
  import opened Middleware

  // ---------------------------------------------------------------------------------------
  // GET /barber/barbershop and PUT /barber/barbershop

  /** GET /barber/barbershop: the caller's first active barbershop, or None for the 404. */
  function OwnShopDetails(shops: seq<Shop>, user: map<string, Value>): (r: Option<Shop>)
    ensures r.Some? ==> r.value in shops && OwnedBy(r.value, Caller(user))
    ensures r.None? <==> forall i :: 0 <= i < |shops| ==> !OwnedBy(shops[i], Caller(user))
  {
    var own := OwnShop(shops, Caller(user));
    if own.None? then None else Some(shops[own.value])
  }

  /** PUT /barber/barbershop: a defined `narx` that is not a positive number is refused (400)
      before anything else; a caller without an active barbershop gets 404; a body with no
      field to take gets 400; otherwise the caller's barbershop is edited (200) and no other row
      changes. */
  method EditOwnShop(db: Db, user: map<string, Value>, body: Option<map<string, Value>>) returns (status: int)
    requires db.Valid()
    modifies db
    ensures db.Valid()
    ensures db.users == old(db.users) && db.employees == old(db.employees) && db.appointments == old(db.appointments)
    ensures db.nextShopId == old(db.nextShopId) && db.nextAppointmentId == old(db.nextAppointmentId)
    ensures var updates, own := BodyObject(body), OwnShop(old(db.shops), Caller(user));
      && (status == 400 <==> PriceRejected(updates) || (own.Some? && NothingToUpdate(OwnerEditor, updates)))
      && (status == 404 <==> !PriceRejected(updates) && own.None?)
      && (status == 200 <==> !PriceRejected(updates) && own.Some? && !NothingToUpdate(OwnerEditor, updates))
      && (status != 200 ==> db.shops == old(db.shops))
      && (status == 200 ==> EditedAt(old(db.shops), db.shops, own.value, OwnerEditor, updates))
  {
    var updates := BodyObject(body);
    if PriceRejected(updates) {
      return 400;
    }
    var own := OwnShop(db.shops, Caller(user));
    if own.None? {
      return 404;
    }
    var fields, values := BuildUpdate(OwnerEditor, updates);
    if |fields| == 0 {
      return 400;
    }
    assert !NothingToUpdate(OwnerEditor, updates) by {
      assert fields[0] in fields;
    }
    UpdateOneShop(db.shops, own.value, OwnerEditor, updates, fields, values);
    db.shops := UpdateShops(db.shops, fields, values + [Num(Finite(db.shops[own.value].id as real))]);
    status := 200;
  }

  // ---------------------------------------------------------------------------------------
  // GET /barber/appointments

  /** The day a listing asks for: `date || getUzbekistanDate()`.  A given date is compared as
      text with `DATE(appointment_date)`, so it selects the day it parses to and no day when it
      is not a `YYYY-MM-DD` text. */
  function TargetDay(date: Option<string>, now: int): Option<int> {
    if date.None? || date.value == "" then Some(TashkentDay(now)) else ParseIsoDate(date.value)
  }

  /** The text `DATE(appointment_date)` is compared with; None when `getUzbekistanDate()`
      throws. */
  ghost function TargetText(date: Option<string>, now: int): Option<string> {
    if date.None? || date.value == "" then GetUzbekistanDate(0, now) else Some(date.value)
  }

  /** A row of the day listing: a booking of the shop on the day, of any status, whose user
      and employee rows exist (the inner JOINs with users and employees). */
  predicate OnDayList(a: Appointment, shop: int, day: Option<int>, users: seq<User>, employees: seq<Employee>) {
    a.shopId == shop && day == Some(a.day) && UserExists(users, a.userId) && EmployeeExists(employees, a.employeeId)
  }

  /** GET /barber/appointments?date=...: None for the 404 of a caller without an active
      barbershop. */
  function DayAppointments(shops: seq<Shop>, users: seq<User>, employees: seq<Employee>, appointments: seq<Appointment>,
                           user: map<string, Value>, date: Option<string>, now: int): Option<seq<Appointment>>
  {
    var own := OwnShop(shops, Caller(user));
    if own.None? then None
    else
      var shop, day := shops[own.value].id, TargetDay(date, now);
      Some(SortBy(Filter(appointments, (a: Appointment) => OnDayList(a, shop, day, users, employees)), TimeOfDay))
  }

  /** The listing exists exactly when the caller has an active barbershop; it then holds
      exactly that shop's bookings on the target day whose user and employee exist, in
      ascending order of time. */
  lemma DayAppointmentsSpec(shops: seq<Shop>, users: seq<User>, employees: seq<Employee>, appointments: seq<Appointment>,
                            user: map<string, Value>, date: Option<string>, now: int)
    ensures var r, own := DayAppointments(shops, users, employees, appointments, user, date, now), OwnShop(shops, Caller(user));
      && (r.None? <==> own.None?)
      && (r.Some? ==>
            && (forall a :: a in r.value <==>
                  a in appointments && OnDayList(a, shops[own.value].id, TargetDay(date, now), users, employees))
            && forall i, j :: 0 <= i < j < |r.value| ==> r.value[i].time <= r.value[j].time)
  {
    var own := OwnShop(shops, Caller(user));
    if own.Some? {
      var shop, day := shops[own.value].id, TargetDay(date, now);
      var p := (a: Appointment) => OnDayList(a, shop, day, users, employees);
      SortByMembers(Filter(appointments, p), TimeOfDay);
      forall a ensures a in Filter(appointments, p) <==> a in appointments && p(a) {
        FilterMembers(appointments, p, a);
      }
    }
  }

  /** For days with four-digit years, the day chosen is the day whose `DATE()` text equals the
      text the query binds: the given date, or today's Tashkent date. */
  lemma TargetDayMatchesText(date: Option<string>, now: int, d: int)
    requires 1000 <= CivilFromDays(d).year <= 9999
    requires 1000 <= TashkentDate(now).year <= 9999
    ensures TargetDay(date, now) == Some(d) <==> TargetText(date, now) == Some(IsoDate(CivilFromDays(d)))
  {
    if date.None? || date.value == "" {
      PresentDayInRange(0, now);
      GetUzbekistanDateToday(now);
      ParseIsoDateOfIsoDate(TashkentDay(now));
      ParseIsoDateSpec(IsoDate(CivilFromDays(TashkentDay(now))), d);
    } else {
      ParseIsoDateSpec(date.value, d);
    }
  }

  // ---------------------------------------------------------------------------------------
  // PUT /barber/appointments/:id/complete

  /** The JOIN of the completion lookup: the booking the key designates, with the index of its
      barbershop row, when that barbershop is active. */
  function CompletionTarget(appointments: seq<Appointment>, shops: seq<Shop>, key: Option<int>): (r: Option<(nat, nat)>)
    ensures r.Some? ==>
      && r.value.0 < |appointments| && r.value.1 < |shops|
      && key == Some(appointments[r.value.0].id)
      && shops[r.value.1].id == appointments[r.value.0].shopId && shops[r.value.1].isActive
    ensures r.None? <==> forall i :: 0 <= i < |appointments| ==>
      !(key == Some(appointments[i].id) && ShopActive(shops, appointments[i].shopId))
  {
    var k := FindFirst(appointments, (a: Appointment) => key == Some(a.id) && ShopActive(shops, a.shopId));
    if k.None? then None
    else
      var j := FindFirst(shops, (s: Shop) => s.id == appointments[k.value].shopId && s.isActive);
      if j.None? then None else Some((k.value, j.value))
  }

  /** `Number(owner_id)`: a NULL owner reads as 0. */
  function OwnerNumber(owner: Option<int>): (n: JsNumber)
    ensures n.Finite?
  {
    if owner.None? then Finite(0.0) else Finite(owner.value as real)
  }

  /** The caller may complete a booking of a shop with this owner: an admin always, anyone else
      when `Number(owner_id) === Number(req.user.id)`. */
  predicate MayComplete(user: map<string, Value>, owner: Option<int>) {
    Lookup(user, "role") == Str("admin") || NumberEquals(OwnerNumber(owner), ToNumber(Caller(user)))
  }

  /** The row after `SET status = 'completed', completed_at = ?`. */
  function Completion(a: Appointment, now: int): Appointment {
    a.(status := Completed, completedAt := Some(now))
  }

  /** PUT /barber/appointments/:id/complete: 404 unless the id designates a booking of an
      active barbershop, 403 unless the caller may complete it, 400 when it is already
      completed, and otherwise that booking, of whatever other status, becomes completed at
      `now` (200). */
  method Complete(db: Db, user: map<string, Value>, id: string, now: int) returns (status: int)
    requires db.Valid()
    modifies db
    ensures db.Valid()
    ensures db.users == old(db.users) && db.shops == old(db.shops) && db.employees == old(db.employees)
    ensures db.nextShopId == old(db.nextShopId) && db.nextAppointmentId == old(db.nextAppointmentId)
    ensures var t := CompletionTarget(old(db.appointments), old(db.shops), IdKey(id));
      && (status == 404 <==> t.None?)
      && (status == 403 <==> t.Some? && !MayComplete(user, old(db.shops)[t.value.1].ownerId))
      && (status == 400 <==> t.Some? && MayComplete(user, old(db.shops)[t.value.1].ownerId)
                             && old(db.appointments)[t.value.0].status == Completed)
      && (status == 200 <==> t.Some? && MayComplete(user, old(db.shops)[t.value.1].ownerId)
                             && old(db.appointments)[t.value.0].status != Completed)
      && (status != 200 ==> db.appointments == old(db.appointments))
      && (status == 200 ==>
            db.appointments == old(db.appointments)[t.value.0 := Completion(old(db.appointments)[t.value.0], now)])
  {
    var key := IdKey(id);
    var t := CompletionTarget(db.appointments, db.shops, key);
    if t.None? {
      return 404;
    }
    var k, j := t.value.0, t.value.1;
    if !MayComplete(user, db.shops[j].ownerId) {
      return 403;
    }
    if db.appointments[k].status == Completed {
      return 400;
    }
    UpdateOneRow(db.appointments, k, (a: Appointment) => a.id, a => Completion(a, now));
    db.appointments := UpdateRows(db.appointments, key, (a: Appointment) => a.id, a => Completion(a, now));
    status := 200;
  }

  /** Completing keeps the booking where the lookup finds it and leaves it completed: the same
      request again is refused with 400 (or 403). */
  lemma CompletionIsFinal(appointments: seq<Appointment>, shops: seq<Shop>, key: Option<int>, now: int)
    requires CompletionTarget(appointments, shops, key).Some?
    ensures var k := CompletionTarget(appointments, shops, key).value.0;
      var after := appointments[k := Completion(appointments[k], now)];
      CompletionTarget(after, shops, key) == CompletionTarget(appointments, shops, key)
      && after[k].status == Completed
  {
    var k := CompletionTarget(appointments, shops, key).value.0;
    var after := appointments[k := Completion(appointments[k], now)];
    var p := (a: Appointment) => key == Some(a.id) && ShopActive(shops, a.shopId);
    FindFirstAgrees(after, p, appointments, p);
  }

  // ---------------------------------------------------------------------------------------
  // PUT /barber/appointments/:id/move-tomorrow

  datatype MoveResult =
    | Forbidden           // 403
    | NotFound            // 404
    | Moved(day: int)     // 200, with `yangiSana`

  /** `SELECT * FROM appointments WHERE id = ? AND barbershop_id = ?`. */
  function BookingInShop(appointments: seq<Appointment>, key: Option<int>, shop: int): (r: Option<nat>)
    ensures r.Some? ==> r.value < |appointments| && key == Some(appointments[r.value].id)
                        && appointments[r.value].shopId == shop
    ensures r.None? <==> forall i :: 0 <= i < |appointments| ==>
                           !(key == Some(appointments[i].id) && appointments[i].shopId == shop)
  {
    FindFirst(appointments, (a: Appointment) => key == Some(a.id) && a.shopId == shop)
  }

  /** The row after `SET appointment_date = ?, status = 'rescheduled'`; the completion time
      stays. */
  function MovedTo(a: Appointment, day: int): Appointment {
    a.(day := day, status := Rescheduled)
  }

  /** PUT /barber/appointments/:id/move-tomorrow: 403 for a caller without an active
      barbershop, 404 when the id designates no booking of that barbershop, and otherwise that
      booking, of any status, moves to the Tashkent day after `now` and becomes rescheduled. */
  method MoveTomorrow(db: Db, user: map<string, Value>, id: string, now: int) returns (r: MoveResult)
    requires db.Valid()
    modifies db
    ensures db.Valid()
    ensures db.users == old(db.users) && db.shops == old(db.shops) && db.employees == old(db.employees)
    ensures db.nextShopId == old(db.nextShopId) && db.nextAppointmentId == old(db.nextAppointmentId)
    ensures var own := OwnShop(old(db.shops), Caller(user));
      && (r == Forbidden <==> own.None?)
      && (r == NotFound <==> own.Some? && BookingInShop(old(db.appointments), IdKey(id), old(db.shops)[own.value].id).None?)
      && (!r.Moved? ==> db.appointments == old(db.appointments))
      && (r.Moved? ==>
            var k := BookingInShop(old(db.appointments), IdKey(id), old(db.shops)[own.value].id);
            && own.Some? && k.Some?
            && r.day == TashkentDay(now) + 1
            && db.appointments == old(db.appointments)[k.value := MovedTo(old(db.appointments)[k.value], r.day)])
  {
    var own := OwnShop(db.shops, Caller(user));
    if own.None? {
      return Forbidden;
    }
    var key := IdKey(id);
    var k := BookingInShop(db.appointments, key, db.shops[own.value].id);
    if k.None? {
      return NotFound;
    }
    var tomorrow := TashkentDay(now) + 1;
    UpdateOneRow(db.appointments, k.value, (a: Appointment) => a.id, a => MovedTo(a, tomorrow));
    db.appointments := UpdateRows(db.appointments, key, (a: Appointment) => a.id, a => MovedTo(a, tomorrow));
    r := Moved(tomorrow);
  }

  /** The date text written, `getUzbekistanDate(1)`, is the date of the day the booking moves
      to: the calendar day after today's Tashkent date, whenever tomorrow noon is a valid date. */
  lemma TomorrowText(now: int)
    requires TashkentDate(now).year >= 100
    ensures ShiftInRange(1, now) ==> GetUzbekistanDate(1, now) == Some(IsoDate(CivilFromDays(TashkentDay(now) + 1)))
    ensures CivilFromDays(TashkentDay(now) + 1) == Successor(TashkentDate(now))
  {
    GetUzbekistanDateShifts(1, now, TashkentDay(now) + 1);
    TashkentDateShifted(now, 1, TashkentDay(now) + 1);
    ShiftByOneIsSuccessor(TashkentDate(now));
  }

  // ---------------------------------------------------------------------------------------
  // GET /barber/appointments/history

  /** `Math.max(0, isNaN(p) ? 7 : p)` with `p = Number.parseInt(days, 10)` and `days` the query
      parameter, 7 when it is absent. */
  function HistoryDays(days: Option<string>): (n: nat)
  {
    var parsed := if days.None? then Finite(7.0) else ParseInt(days.value, Ten);
    match parsed
    case Finite(r) => if r <= 0.0 then 0 else r.Floor
    case _ => 7
  }

  /** Seven days without the parameter or with one that does not start with a digit, a sign
      or white space. */
  lemma HistoryDaysDefault(word: string)
    requires word == [] || (!IsDigit(word[0]) && !IsJsSpace(word[0]) && word[0] != '-' && word[0] != '+')
    ensures HistoryDays(None) == 7
    ensures HistoryDays(Some(word)) == 7
  {
    ParseIntNoDigits(word);
  }

  /** A parameter that parses to a natural number n counts n days. */
  lemma HistoryDaysOfCount(x: string, n: nat)
    requires ParseInt(x, Ten) == Finite(n as real)
    ensures HistoryDays(Some(x)) == n
  {
    assert (n as real).Floor == n;
  }

  /** A parameter that parses to a number at most 0 counts no days. */
  lemma HistoryDaysOfNonPositive(x: string, r: real)
    requires ParseInt(x, Ten) == Finite(r) && r <= 0.0
    ensures HistoryDays(Some(x)) == 0
  {
  }

  /** A minus before a text that starts with a digit and parses to n counts no days. */
  lemma HistoryDaysOfMinus(x: string, n: nat)
    requires x != [] && IsDigit(x[0]) && ParseInt(x, Ten) == Finite(n as real)
    ensures HistoryDays(Some("-" + x)) == 0
  {
    ParseIntNegative(x);
    HistoryDaysOfNonPositive("-" + x, -(n as real));
  }

  /** The number of days the parameter starts with, whatever follows the digits; nought for a
      negative count. */
  lemma HistoryDaysSpec(n: nat, rest: string)
    requires rest == [] || !IsDigit(rest[0])
    ensures HistoryDays(Some(Decimal(n) + rest)) == n
    ensures HistoryDays(Some("-" + Decimal(n) + rest)) == 0
  {
    var x := Decimal(n) + rest;
    ParseIntOfDecimal(n, rest, Ten);
    HistoryDaysOfCount(x, n);
    assert IsDigit(x[0]);
    HistoryDaysOfMinus(x, n);
    assert "-" + Decimal(n) + rest == "-" + x;
  }

  /** A row of the history: a booking of the shop on or after the first day, of any status,
      whose user row exists (the inner JOIN with users). */
  predicate InHistory(a: Appointment, shop: int, from: int, users: seq<User>) {
    a.shopId == shop && a.day >= from && UserExists(users, a.userId)
  }

  /** The history rows of a shop from day `from` on, latest first. */
  function RecentBookings(appointments: seq<Appointment>, shop: int, from: int, users: seq<User>): seq<Appointment> {
    SortBy(Filter(appointments, (a: Appointment) => InHistory(a, shop, from, users)), Latest)
  }

  datatype HistoryResult =
    | NoShop                        // 404
    | DateError                     // 500: `getUzbekistanDate(-n)` throws a RangeError
    | Rows(rows: seq<Appointment>)  // 200, with `tarix`

  /** The history of a barbershop for a window of n days: 500 when the first day of the window
      is no valid date, and the recent bookings from that day on when it is. */
  function HistoryWindow(appointments: seq<Appointment>, shop: int, users: seq<User>, n: int, now: int): HistoryResult {
    if !ShiftInRange(-n, now) then DateError
    else Rows(RecentBookings(appointments, shop, TashkentDay(now) - n, users))
  }

  /** GET /barber/appointments/history?days=n: 404 for a caller without an active
      barbershop, and otherwise the history of its barbershop for the window of n days. */
  function History(shops: seq<Shop>, users: seq<User>, appointments: seq<Appointment>,
                   user: map<string, Value>, days: Option<string>, now: int): (r: HistoryResult)
    ensures r.NoShop? <==> OwnShop(shops, Caller(user)).None?
  {
    var own := OwnShop(shops, Caller(user));
    if own.None? then NoShop
    else HistoryWindow(appointments, shops[own.value].id, users, HistoryDays(days), now)
  }

  /** A window fails exactly when `getUzbekistanDate(-n)` throws, and otherwise starts on the
      day whose date that call gives. */
  lemma HistoryWindowFirstDay(appointments: seq<Appointment>, shop: int, users: seq<User>, n: int, now: int,
                              back: int, from: int)
    requires TashkentDate(now).year >= 100 && back == -n && from == TashkentDay(now) - n
    ensures HistoryWindow(appointments, shop, users, n, now).DateError? <==> GetUzbekistanDate(back, now).None?
    ensures HistoryWindow(appointments, shop, users, n, now).Rows? ==>
      GetUzbekistanDate(back, now) == Some(IsoDate(CivilFromDays(from)))
  {
    GetUzbekistanDateShifts(back, now, from);
  }

  /** For a caller with an active barbershop, the route fails with a 500 exactly when
      `getUzbekistanDate(back)` throws, back being minus the number of days; otherwise its
      window starts on the day whose date that call gives. */
  lemma HistoryFirstDay(shops: seq<Shop>, users: seq<User>, appointments: seq<Appointment>,
                        user: map<string, Value>, days: Option<string>, now: int, back: int, from: int)
    requires TashkentDate(now).year >= 100 && OwnShop(shops, Caller(user)).Some?
    requires back == -(HistoryDays(days) as int) && from == TashkentDay(now) + back
    ensures History(shops, users, appointments, user, days, now).DateError? <==> GetUzbekistanDate(back, now).None?
    ensures History(shops, users, appointments, user, days, now).Rows? ==>
      GetUzbekistanDate(back, now) == Some(IsoDate(CivilFromDays(from)))
  {
    var own := OwnShop(shops, Caller(user));
    var shop, n := shops[own.value].id, HistoryDays(days);
    assert History(shops, users, appointments, user, days, now) == HistoryWindow(appointments, shop, users, n, now);
    HistoryWindowFirstDay(appointments, shop, users, n, now, back, from);
  }

  /** The rows of a window are the recent bookings from its first day on. */
  lemma HistoryWindowRows(appointments: seq<Appointment>, shop: int, users: seq<User>, n: int, now: int)
    ensures HistoryWindow(appointments, shop, users, n, now).Rows? ==>
      HistoryWindow(appointments, shop, users, n, now).rows == RecentBookings(appointments, shop, TashkentDay(now) - n, users)
  {
  }

  /** The rows the route returns are the recent bookings of the caller's barbershop from the
      first day of the window on, n days before today. */
  lemma HistoryRows(shops: seq<Shop>, users: seq<User>, appointments: seq<Appointment>,
                    user: map<string, Value>, days: Option<string>, now: int, n: int)
    requires n == HistoryDays(days)
    ensures var r, own := History(shops, users, appointments, user, days, now), OwnShop(shops, Caller(user));
      r.Rows? ==> own.Some? && r.rows == RecentBookings(appointments, shops[own.value].id, TashkentDay(now) - n, users)
  {
    var own := OwnShop(shops, Caller(user));
    if own.Some? {
      var shop := shops[own.value].id;
      assert History(shops, users, appointments, user, days, now) == HistoryWindow(appointments, shop, users, n, now);
      HistoryWindowRows(appointments, shop, users, n, now);
    }
  }

  /** At an instant whose Tashkent year has four digits, a window of at most a million days
      gives the rows. */
  lemma HistoryAnswers(shops: seq<Shop>, users: seq<User>, appointments: seq<Appointment>,
                       user: map<string, Value>, days: Option<string>, now: int)
    requires 1000 <= TashkentDate(now).year <= 9999 && HistoryDays(days) <= 1000000
    requires OwnShop(shops, Caller(user)).Some?
    ensures History(shops, users, appointments, user, days, now).Rows?
  {
    var n: int := HistoryDays(days);
    PresentDayInRange(-n, now);
  }

  /** The recent bookings are exactly the shop's bookings from day `from` on whose user
      exists, latest day first and latest time first within a day. */
  lemma RecentBookingsSpec(appointments: seq<Appointment>, shop: int, from: int, users: seq<User>)
    requires forall i :: 0 <= i < |appointments| ==> 0 <= appointments[i].time < MinutesPerDay
    ensures var r := RecentBookings(appointments, shop, from, users);
      && (forall a :: a in r <==> a in appointments && InHistory(a, shop, from, users))
      && forall i, j :: 0 <= i < j < |r| ==> r[i].day > r[j].day || (r[i].day == r[j].day && r[i].time >= r[j].time)
  {
    var p := (a: Appointment) => InHistory(a, shop, from, users);
    var kept := Filter(appointments, p);
    var r := SortBy(kept, Latest);
    SortByMembers(kept, Latest);
    forall a ensures a in kept <==> a in appointments && p(a) {
      FilterMembers(appointments, p, a);
    }
    forall i, j | 0 <= i < j < |r| ensures r[i].day > r[j].day || (r[i].day == r[j].day && r[i].time >= r[j].time) {
      assert r[i] in appointments && r[j] in appointments;
      assert Latest(r[i]) <= Latest(r[j]);
      MomentOrder(r[j], r[i]);
    }
  }
}
