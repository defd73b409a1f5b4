/** src/routes/appointments.js: a signed-in user joins today's queue of a barbershop
    (POST /appointments) and lists their own bookings (GET /appointments/my).  A booking takes
    the slot 30 minutes after the day's latest live booking, or 09:00 for the first one, and is
    told its place in the queue. */
module Booking {
  import opened Text
  import opened JsValues
  import opened Queries
  import opened Store
  import opened Calendar

  /** 09:00, the first slot of a day. */
  const FirstSlot := 540
  /** Slots are 30 minutes apart. */
  const SlotLength := 30

  /** The `appointment_time` text "HH:MM" of a time of day. */
  function TimeText(t: int): (s: string)
    requires 0 <= t < MinutesPerDay
    ensures |s| == 5 && s[2] == ':'
  {
    Pad2(t / 60) + ":" + Pad2(t % 60)
  }

  /** Text order on two five-character texts, character by character. */
  lemma TextLeFive(x: string, y: string)
    requires |x| == 5 && |y| == 5
    ensures TextLe(x, y) <==>
      x[0] < y[0] || (x[0] == y[0] && (x[1] < y[1] || (x[1] == y[1] && (x[2] < y[2] || (x[2] == y[2] &&
        (x[3] < y[3] || (x[3] == y[3] && x[4] <= y[4])))))))
  {
    assert TextLe(x[5..], y[5..]) by {
      assert x[5..] == [];
    }
    assert TextLe(x[4..], y[4..]) <==> x[4] <= y[4] by {
      assert x[4..][1..] == x[5..] && y[4..][1..] == y[5..];
    }
    assert TextLe(x[3..], y[3..]) <==> x[3] < y[3] || (x[3] == y[3] && TextLe(x[4..], y[4..])) by {
      assert x[3..][1..] == x[4..] && y[3..][1..] == y[4..];
    }
    assert TextLe(x[2..], y[2..]) <==> x[2] < y[2] || (x[2] == y[2] && TextLe(x[3..], y[3..])) by {
      assert x[2..][1..] == x[3..] && y[2..][1..] == y[3..];
    }
    assert TextLe(x[1..], y[1..]) <==> x[1] < y[1] || (x[1] == y[1] && TextLe(x[2..], y[2..])) by {
      assert x[1..][1..] == x[2..] && y[1..][1..] == y[2..];
    }
  }

  /** The digits of a time text: two of the hour, then two of the minutes. */
  lemma TimeTextDigits(t: int)
    requires 0 <= t < MinutesPerDay
    ensures var s := TimeText(t);
      && s[0] as int - '0' as int == (t / 60) / 10 && s[1] as int - '0' as int == (t / 60) % 10
      && s[3] as int - '0' as int == (t % 60) / 10 && s[4] as int - '0' as int == (t % 60) % 10
  {
  }

  /** Minutes compare as their hour digits, then their minute digits. */
  lemma ClockDigitsOrder(a: int, b: int)
    requires 0 <= a < MinutesPerDay && 0 <= b < MinutesPerDay
    ensures var ha, ma, hb, mb := a / 60, a % 60, b / 60, b % 60;
      a <= b <==>
      ha / 10 < hb / 10 || (ha / 10 == hb / 10 && (ha % 10 < hb % 10 || (ha % 10 == hb % 10 &&
        (ma / 10 < mb / 10 || (ma / 10 == mb / 10 && ma % 10 <= mb % 10)))))
  {
    var ha, ma, hb, mb := a / 60, a % 60, b / 60, b % 60;
    assert a <= b <==> ha < hb || (ha == hb && ma <= mb);
  }

  /** The text order SQLite compares `appointment_time` by is the order of the times, so
      `ORDER BY appointment_time` and `appointment_time <= ?` compare minutes. */
  lemma TimeTextOrder(a: int, b: int)
    requires 0 <= a < MinutesPerDay && 0 <= b < MinutesPerDay
    ensures TextLe(TimeText(a), TimeText(b)) <==> a <= b
  {
    TextLeFive(TimeText(a), TimeText(b));
    TimeTextDigits(a);
    TimeTextDigits(b);
    ClockDigitsOrder(a, b);
  }

  /** Reading a stored time back, as `split(":")` and `parseInt` do, gives its hours and
      minutes. */
  lemma TimeTextReadBack(t: int)
    requires 0 <= t < MinutesPerDay
    ensures ParseInt(TimeText(t)[..2], Auto) == Finite((t / 60) as real)
    ensures ParseInt(TimeText(t)[3..], Auto) == Finite((t % 60) as real)
  {
    var s := TimeText(t);
    assert s[..2] == Pad2(t / 60) && s[3..] == Pad2(t % 60);
    Pad2RoundTrip(t / 60);
    Pad2RoundTrip(t % 60);
    ParseIntOfDigits(Pad2(t / 60), "", Auto);
    ParseIntOfDigits(Pad2(t % 60), "", Auto);
    assert Pad2(t / 60) + "" == Pad2(t / 60) && Pad2(t % 60) + "" == Pad2(t % 60);
  }

  // ---------------------------------------------------------------------------------------
  // The day's queue

  /** A booking holds a place in a barbershop's queue on a day unless it was cancelled. */
  predicate InQueue(a: Appointment, shop: int, day: int) {
    a.shopId == shop && a.day == day && a.status != Cancelled
  }

  /** The latest time among the day's live bookings of a barbershop: what
      `ORDER BY appointment_time DESC LIMIT 1` reads. */
  function LatestTime(rows: seq<Appointment>, shop: int, day: int): (r: Option<int>)
    ensures r.None? <==> forall i :: 0 <= i < |rows| ==> !InQueue(rows[i], shop, day)
    ensures r.Some? ==> (exists i :: 0 <= i < |rows| && InQueue(rows[i], shop, day) && rows[i].time == r.value)
                        && forall i :: 0 <= i < |rows| && InQueue(rows[i], shop, day) ==> rows[i].time <= r.value
  {
    if rows == [] then None
    else
      var init := rows[..|rows| - 1];
      var a := rows[|rows| - 1];
      var r := LatestTime(init, shop, day);
      assert forall i :: 0 <= i < |init| ==> init[i] == rows[i];
      if !InQueue(a, shop, day) then r
      else if r.None? || r.value < a.time then Some(a.time)
      else r
  }

  /** `lastTime.setHours(h, m, 0)` followed by `getHours()` and `getMinutes()`: minutes past 59
      carry into the hours and hours past 23 into the next day, which is dropped. */
  function WallClock(h: nat, m: nat): (t: int)
    ensures 0 <= t < MinutesPerDay
  {
    (h * 60 + m) % MinutesPerDay
  }

  /** The slot the next booking takes. */
  function NextTime(last: Option<int>): (t: int)
    requires last.Some? ==> 0 <= last.value < MinutesPerDay
    ensures 0 <= t < MinutesPerDay
  {
    if last.None? then FirstSlot else WallClock(last.value / 60, last.value % 60 + SlotLength)
  }

  /** The first slot is 09:00, each later one is half an hour after the latest, and after
      23:30 the slot wraps round to 00:00 of the same stored day. */
  lemma NextTimeSpec(last: Option<int>)
    requires last.Some? ==> 0 <= last.value < MinutesPerDay
    ensures last.None? ==> NextTime(last) == 540
    ensures last.Some? && last.value < MinutesPerDay - SlotLength ==> NextTime(last) == last.value + 30
    ensures last.Some? && last.value >= MinutesPerDay - SlotLength ==> NextTime(last) == last.value + 30 - MinutesPerDay
  {
  }

  /** `COUNT(*)` of the day's live bookings at or before time t: the queue number. */
  function QueueNumber(rows: seq<Appointment>, shop: int, day: int, t: int): (n: nat)
    ensures n <= |rows|
  {
    if rows == [] then 0
    else
      var a := rows[|rows| - 1];
      QueueNumber(rows[..|rows| - 1], shop, day, t) + (if InQueue(a, shop, day) && a.time <= t then 1 else 0)
  }

  /** The number of live bookings a barbershop has on a day. */
  function QueueLength(rows: seq<Appointment>, shop: int, day: int): (n: nat)
    ensures n <= |rows|
  {
    if rows == [] then 0
    else QueueLength(rows[..|rows| - 1], shop, day) + (if InQueue(rows[|rows| - 1], shop, day) then 1 else 0)
  }

  /** The row the insert writes. */
  function NewAppointment(rows: seq<Appointment>, id: int, userId: int, shop: int, employee: int,
                          day: int): (a: Appointment)
    requires forall i :: 0 <= i < |rows| ==> 0 <= rows[i].time < MinutesPerDay
    ensures a.id == id && InQueue(a, shop, day) && 0 <= a.time < MinutesPerDay
  {
    Appointment(id, userId, shop, employee, day, NextTime(LatestTime(rows, shop, day)), Confirmed, None)
  }

  /** A row appended with the next id keeps the ids unique and below the next id, and the times
      within the day. */
  lemma FreshAppointmentKeepsKeys(rows: seq<Appointment>, a: Appointment, next: int)
    requires UniqueKeys(rows, (x: Appointment) => x.id)
    requires forall i :: 0 <= i < |rows| ==> rows[i].id < next && 0 <= rows[i].time < MinutesPerDay
    requires a.id == next && 0 <= a.time < MinutesPerDay
    ensures UniqueKeys(rows + [a], (x: Appointment) => x.id)
    ensures forall i :: 0 <= i < |rows + [a]| ==> (rows + [a])[i].id < next + 1
    ensures forall i :: 0 <= i < |rows + [a]| ==> 0 <= (rows + [a])[i].time < MinutesPerDay
  {
    var r := rows + [a];
    assert forall i :: 0 <= i < |rows| ==> r[i] == rows[i];
  }

  /** An employee who can take a booking of the barbershop the key designates. */
  predicate Serves(e: Employee, shop: Option<int>) {
    e.isActive && shop == Some(e.shopId)
  }

  /** `SELECT id FROM employees WHERE barbershop_id = ? AND is_active = 1 LIMIT 1`: the first
      such employee in table order. */
  function PickEmployee(employees: seq<Employee>, shop: Option<int>): (r: Option<nat>)
    ensures r.None? <==> forall i :: 0 <= i < |employees| ==> !Serves(employees[i], shop)
    ensures r.Some? ==> r.value < |employees| && Serves(employees[r.value], shop)
  {
    FindFirst(employees, (e: Employee) => Serves(e, shop))
  }

  datatype BookingResult =
    | MissingShopId                                       // 400
    | NoEmployee                                          // 404
    | Booked(appointment: Appointment, queueNumber: nat)  // 201

  function StatusCode(r: BookingResult): int {
    match r
    case MissingShopId => 400
    case NoEmployee => 404
    case Booked(_, _) => 201
  }

  /** POST /appointments for the user whose id the token's `sub` carries, at instant `now`.
      The day is the UTC date of `now`, as `toISOString()` gives it. */
  method Book(db: Db, userId: int, body: Option<map<string, Value>>, now: int) returns (r: BookingResult)
    requires db.Valid()
    modifies db
    ensures db.Valid()
    ensures db.users == old(db.users) && db.shops == old(db.shops) && db.employees == old(db.employees)
    ensures db.nextShopId == old(db.nextShopId)
    ensures var shopId := BodyValue(body, "barbershopId");
      && (r == MissingShopId <==> !Truthy(shopId))
      && (r == NoEmployee <==> Truthy(shopId) && PickEmployee(old(db.employees), SqlKey(shopId)).None?)
      && (!r.Booked? ==> db.appointments == old(db.appointments) && db.nextAppointmentId == old(db.nextAppointmentId))
      && (r.Booked? ==>
            && SqlKey(shopId).Some?
            && PickEmployee(old(db.employees), SqlKey(shopId)).Some?
            && r.appointment == NewAppointment(old(db.appointments), old(db.nextAppointmentId), userId,
                                               SqlKey(shopId).value,
                                               old(db.employees)[PickEmployee(old(db.employees), SqlKey(shopId)).value].id,
                                               UtcDay(now))
            && db.appointments == old(db.appointments) + [r.appointment]
            && db.nextAppointmentId == old(db.nextAppointmentId) + 1
            && r.queueNumber == QueueNumber(db.appointments, r.appointment.shopId, r.appointment.day, r.appointment.time))
  {
    var shopId := BodyValue(body, "barbershopId");
    if !Truthy(shopId) {
      return MissingShopId;
    }
    var key := SqlKey(shopId);
    var pick := PickEmployee(db.employees, key);
    if pick.None? {
      return NoEmployee;
    }
    var employee := db.employees[pick.value].id;
    var today := UtcDay(now);
    var booking := NewAppointment(db.appointments, db.nextAppointmentId, userId, key.value, employee, today);
    FreshAppointmentKeepsKeys(db.appointments, booking, db.nextAppointmentId);
    db.appointments := db.appointments + [booking];
    db.nextAppointmentId := db.nextAppointmentId + 1;
    r := Booked(booking, QueueNumber(db.appointments, key.value, today, booking.time));
  }

  // ---------------------------------------------------------------------------------------
  // Properties of the queue

  lemma {:induction false} QueueNumberAtMost(rows: seq<Appointment>, shop: int, day: int, t: int)
    ensures QueueNumber(rows, shop, day, t) <= QueueLength(rows, shop, day)
  {
    if rows != [] {
      QueueNumberAtMost(rows[..|rows| - 1], shop, day, t);
    }
  }

  /** When no live booking of the day is later than t, every one of them counts. */
  lemma {:induction false} QueueNumberOfLatest(rows: seq<Appointment>, shop: int, day: int, t: int)
    requires forall i :: 0 <= i < |rows| && InQueue(rows[i], shop, day) ==> rows[i].time <= t
    ensures QueueNumber(rows, shop, day, t) == QueueLength(rows, shop, day)
  {
    if rows != [] {
      var init := rows[..|rows| - 1];
      assert forall i :: 0 <= i < |init| ==> init[i] == rows[i];
      QueueNumberOfLatest(init, shop, day, t);
    }
  }

  /** No live booking of the day at or before t: nobody is ahead. */
  lemma {:induction false} QueueNumberNone(rows: seq<Appointment>, shop: int, day: int, t: int)
    requires forall i :: 0 <= i < |rows| && InQueue(rows[i], shop, day) ==> rows[i].time > t
    ensures QueueNumber(rows, shop, day, t) == 0
  {
    if rows != [] {
      var init := rows[..|rows| - 1];
      assert forall i :: 0 <= i < |init| ==> init[i] == rows[i];
      QueueNumberNone(init, shop, day, t);
    }
  }

  /** Before the wrap at midnight, a new booking goes to the back of the queue: its number is
      the count of the day's live bookings, itself included. */
  lemma NewBookingJoinsBack(rows: seq<Appointment>, id: int, userId: int, shop: int, employee: int, day: int)
    requires forall i :: 0 <= i < |rows| ==> 0 <= rows[i].time < MinutesPerDay
    requires var l := LatestTime(rows, shop, day); l.None? || l.value < MinutesPerDay - SlotLength
    ensures var a := NewAppointment(rows, id, userId, shop, employee, day);
      QueueNumber(rows + [a], shop, day, a.time) == QueueLength(rows, shop, day) + 1
      && QueueLength(rows + [a], shop, day) == QueueLength(rows, shop, day) + 1
      && LatestTime(rows + [a], shop, day) == Some(a.time)
  {
    var a := NewAppointment(rows, id, userId, shop, employee, day);
    var all := rows + [a];
    assert all[..|all| - 1] == rows;
    var l := LatestTime(rows, shop, day);
    NextTimeSpec(l);
    assert l.Some? ==> a.time == l.value + SlotLength;
    assert forall i :: 0 <= i < |rows| && InQueue(rows[i], shop, day) ==> rows[i].time <= a.time by {
      assert l.None? ==> forall i :: 0 <= i < |rows| ==> !InQueue(rows[i], shop, day);
      assert l.Some? ==> forall i :: 0 <= i < |rows| && InQueue(rows[i], shop, day) ==> rows[i].time <= l.value;
    }
    QueueNumberOfLatest(rows, shop, day, a.time);
  }

  /** After 23:30 the next slot is 00:00, and so is every one after it: each such booking
      reads as first in the queue, and the latest time stays 23:30. */
  lemma MidnightWrap(rows: seq<Appointment>, id: int, userId: int, shop: int, employee: int, day: int)
    requires forall i :: 0 <= i < |rows| ==> 0 <= rows[i].time < MinutesPerDay
    requires LatestTime(rows, shop, day) == Some(MinutesPerDay - SlotLength)
    requires forall i :: 0 <= i < |rows| && InQueue(rows[i], shop, day) ==> rows[i].time > 0
    ensures var a := NewAppointment(rows, id, userId, shop, employee, day);
      a.time == 0
      && QueueNumber(rows + [a], shop, day, 0) == 1
      && LatestTime(rows + [a], shop, day) == Some(MinutesPerDay - SlotLength)
  {
    var a := NewAppointment(rows, id, userId, shop, employee, day);
    var all := rows + [a];
    assert all[..|all| - 1] == rows;
    QueueNumberNone(rows, shop, day, 0);
  }

  /** The number counted after the insert includes the new booking itself, so it is at least 1
      whatever the day holds. */
  lemma QueueNumberPositive(rows: seq<Appointment>, id: int, userId: int, shop: int, employee: int, day: int)
    requires forall i :: 0 <= i < |rows| ==> 0 <= rows[i].time < MinutesPerDay
    ensures var a := NewAppointment(rows, id, userId, shop, employee, day);
      QueueNumber(rows + [a], shop, day, a.time) >= 1
  {
    var a := NewAppointment(rows, id, userId, shop, employee, day);
    var all := rows + [a];
    assert all[..|all| - 1] == rows;
  }

  /** Once the latest time is 23:30, every further booking of the day takes 00:00, the latest
      time stays 23:30, and each one counts one more booking at 00:00 than the one before it. */
  lemma WrapRepeats(rows: seq<Appointment>, id: int, userId: int, shop: int, employee: int, day: int)
    requires forall i :: 0 <= i < |rows| ==> 0 <= rows[i].time < MinutesPerDay
    requires LatestTime(rows, shop, day) == Some(MinutesPerDay - SlotLength)
    ensures var a := NewAppointment(rows, id, userId, shop, employee, day);
      a.time == 0
      && QueueNumber(rows + [a], shop, day, 0) == QueueNumber(rows, shop, day, 0) + 1
      && LatestTime(rows + [a], shop, day) == Some(MinutesPerDay - SlotLength)
  {
    var a := NewAppointment(rows, id, userId, shop, employee, day);
    var all := rows + [a];
    assert all[..|all| - 1] == rows;
  }

  /** k bookings in a row by the same user through the same employee, numbered from firstId. */
  function BookMany(rows: seq<Appointment>, k: nat, firstId: int, userId: int, shop: int, employee: int,
                    day: int): (r: seq<Appointment>)
    requires forall i :: 0 <= i < |rows| ==> 0 <= rows[i].time < MinutesPerDay
    ensures |r| == |rows| + k && forall i :: 0 <= i < |r| ==> 0 <= r[i].time < MinutesPerDay
  {
    if k == 0 then rows
    else
      var before := BookMany(rows, k - 1, firstId, userId, shop, employee, day);
      before + [NewAppointment(before, firstId + k - 1, userId, shop, employee, day)]
  }

  /** The queue after k bookings: the latest took slot 09:00 + 30(k-1) minutes, is number k,
      and the day holds k live bookings. */
  predicate QueueAfter(r: seq<Appointment>, k: nat, shop: int, day: int) {
    var t := FirstSlot + SlotLength * (k - 1);
    && r != []
    && r[|r| - 1].time == t
    && QueueNumber(r, shop, day, t) == k
    && QueueLength(r, shop, day) == k
    && LatestTime(r, shop, day) == Some(t)
  }

  /** One more booking on a queue of k - 1 that has not reached 23:30. */
  lemma QueueAfterStep(before: seq<Appointment>, k: nat, id: int, userId: int, shop: int, employee: int, day: int)
    requires forall i :: 0 <= i < |before| ==> 0 <= before[i].time < MinutesPerDay
    requires 2 <= k <= 30 && QueueAfter(before, k - 1, shop, day)
    ensures QueueAfter(before + [NewAppointment(before, id, userId, shop, employee, day)], k, shop, day)
  {
    var l := LatestTime(before, shop, day);
    NextTimeSpec(l);
    NewBookingJoinsBack(before, id, userId, shop, employee, day);
  }

  /** The first booking of a day whose queue is empty. */
  lemma QueueAfterFirst(rows: seq<Appointment>, id: int, userId: int, shop: int, employee: int, day: int)
    requires forall i :: 0 <= i < |rows| ==> 0 <= rows[i].time < MinutesPerDay
    requires forall i :: 0 <= i < |rows| ==> !InQueue(rows[i], shop, day)
    ensures QueueAfter(rows + [NewAppointment(rows, id, userId, shop, employee, day)], 1, shop, day)
  {
    QueueNumberOfLatest(rows, shop, day, 0);
    QueueNumberNone(rows, shop, day, 0);
    NewBookingJoinsBack(rows, id, userId, shop, employee, day);
  }

  /** On a day whose queue is empty, the k-th of up to 30 bookings takes the slot
      09:00 + 30(k-1) minutes and is number k in the queue. */
  lemma {:induction false} EmptyDaySlots(rows: seq<Appointment>, k: nat, firstId: int, userId: int, shop: int,
                                         employee: int, day: int)
    requires forall i :: 0 <= i < |rows| ==> 0 <= rows[i].time < MinutesPerDay
    requires forall i :: 0 <= i < |rows| ==> !InQueue(rows[i], shop, day)
    requires 1 <= k <= 30
    ensures QueueAfter(BookMany(rows, k, firstId, userId, shop, employee, day), k, shop, day)
  {
    var before := BookMany(rows, k - 1, firstId, userId, shop, employee, day);
    if k == 1 {
      QueueAfterFirst(rows, firstId, userId, shop, employee, day);
    } else {
      EmptyDaySlots(rows, k - 1, firstId, userId, shop, employee, day);
      QueueAfterStep(before, k, firstId + k - 1, userId, shop, employee, day);
    }
  }

  /** The bookings src/seed.js makes for barbershop 1 on its day: 10:00, 11:30 and 14:00. */
  function SeedRows(day: int): seq<Appointment> {
    [Appointment(1, 3, 1, 1, day, 600, Confirmed, None),
     Appointment(2, 4, 1, 2, day, 690, Confirmed, None),
     Appointment(3, 5, 1, 1, day, 840, Confirmed, None)]
  }

  /** The seeded queue has three live bookings, the latest at 14:00. */
  lemma SeedQueue(day: int)
    ensures LatestTime(SeedRows(day), 1, day) == Some(840) && QueueLength(SeedRows(day), 1, day) == 3
  {
    var rows := SeedRows(day);
    var r0, r1 := rows[0], rows[1];
    assert rows[..2] == [r0, r1] && [r0, r1][..1] == [r0] && [r0][..0] == [];
    assert LatestTime([r0], 1, day) == Some(600) && QueueLength([r0], 1, day) == 1;
    assert LatestTime([r0, r1], 1, day) == Some(690) && QueueLength([r0, r1], 1, day) == 2;
  }

  /** The next booking of the seeded day takes 14:30 and is number 4 in the queue. */
  lemma SeedDay(day: int, userId: int)
    ensures var a := NewAppointment(SeedRows(day), 4, userId, 1, 1, day);
      TimeText(a.time) == "14:30" && QueueNumber(SeedRows(day) + [a], 1, day, a.time) == 4
  {
    var rows := SeedRows(day);
    SeedQueue(day);
    NextTimeSpec(Some(840));
    var a := NewAppointment(rows, 4, userId, 1, 1, day);
    assert a.time == 870;
    assert TimeText(870) == [DigitChar(1), DigitChar(4)] + ":" + [DigitChar(3), DigitChar(0)];
    NewBookingJoinsBack(rows, 4, userId, 1, 1, day);
  }

  // ---------------------------------------------------------------------------------------
  // GET /appointments/my

  /** A booking is listed for its user unless it was cancelled or its barbershop row is gone
      (the inner JOIN with barbershops drops it). */
  predicate Listed(a: Appointment, shops: seq<Shop>, userId: int) {
    a.userId == userId && a.status != Cancelled && ShopExists(shops, a.shopId)
  }

  /** Date and time of day folded into one number, ordered as `appointment_date,
      appointment_time`. */
  function Moment(a: Appointment): int {
    a.day * MinutesPerDay + a.time
  }

  /** `ORDER BY a.appointment_date DESC, a.appointment_time DESC`. */
  function Latest(a: Appointment): int {
    -Moment(a)
  }

  /** `ORDER BY a.appointment_time`. */
  function TimeOfDay(a: Appointment): int {
    a.time
  }

  function MyAppointments(appointments: seq<Appointment>, shops: seq<Shop>, userId: int): seq<Appointment> {
    SortBy(Filter(appointments, (a: Appointment) => Listed(a, shops, userId)), Latest)
  }

  /** The listing holds exactly the user's live bookings in existing barbershops, latest day
      first and latest time first within a day. */
  lemma MyAppointmentsSpec(appointments: seq<Appointment>, shops: seq<Shop>, userId: int)
    requires forall i :: 0 <= i < |appointments| ==> 0 <= appointments[i].time < MinutesPerDay
    ensures var r := MyAppointments(appointments, shops, userId);
      (forall a :: a in r <==> a in appointments && Listed(a, shops, userId))
      && forall i, j :: 0 <= i < j < |r| ==>
           r[i].day > r[j].day || (r[i].day == r[j].day && r[i].time >= r[j].time)
  {
    var kept := Filter(appointments, (a: Appointment) => Listed(a, shops, userId));
    var r := MyAppointments(appointments, shops, userId);
    SortByMembers(kept, Latest);
    forall a ensures a in r <==> a in appointments && Listed(a, shops, userId) {
      FilterMembers(appointments, (a: Appointment) => Listed(a, shops, userId), a);
    }
    forall i, j | 0 <= i < j < |r| ensures r[i].day > r[j].day || (r[i].day == r[j].day && r[i].time >= r[j].time) {
      assert r[i] in appointments && r[j] in appointments;
      assert Latest(r[i]) <= Latest(r[j]);
      MomentOrder(r[j], r[i]);
    }
  }

  /** For times of day, comparing moments compares day first and time second. */
  lemma MomentOrder(a: Appointment, b: Appointment)
    requires 0 <= a.time < MinutesPerDay && 0 <= b.time < MinutesPerDay
    ensures Moment(a) <= Moment(b) <==> a.day < b.day || (a.day == b.day && a.time <= b.time)
  {
    if a.day < b.day {
      assert a.day * MinutesPerDay + MinutesPerDay <= b.day * MinutesPerDay;
    } else if a.day > b.day {
      assert b.day * MinutesPerDay + MinutesPerDay <= a.day * MinutesPerDay;
    }
  }
}
