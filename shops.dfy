/** The public barbershop routes of src/routes/barbershops.js: the list of active barbershops
    and the page of one barbershop with its employee count and today's numbered queue.  The
    clock is the parameter `now`; "today" here is the UTC date, as `toISOString()` gives it. */
module ShopRoutes {
  import opened Text
  import opened JsValues
  import opened Queries
  import opened Store
  import opened Calendar
  import opened Booking

  /** GET /barbershops: `SELECT ... FROM barbershops WHERE is_active = 1`. */
  function ActiveShops(shops: seq<Shop>): seq<Shop> {
    Filter(shops, (s: Shop) => s.isActive)
  }

  /** The list holds exactly the active barbershops. */
  lemma ActiveShopsSpec(shops: seq<Shop>)
    ensures forall s :: s in ActiveShops(shops) <==> s in shops && s.isActive
  {
    forall s ensures s in ActiveShops(shops) <==> s in shops && s.isActive {
      FilterMembers(shops, (s: Shop) => s.isActive, s);
    }
  }

  /** A queue entry of the page: the booking and its `navbatRaqami`. */
  datatype Numbered = Numbered(number: nat, appointment: Appointment)

  /** `rows.map((item, index) => ({ ...item, navbatRaqami: index + 1 }))`. */
  function Numbering(rows: seq<Appointment>): (r: seq<Numbered>)
    ensures |r| == |rows|
    ensures forall i :: 0 <= i < |r| ==> r[i].appointment == rows[i]
    ensures forall i :: 0 <= i < |r| ==> r[i].number == i + 1
  {
    seq(|rows|, i requires 0 <= i < |rows| => Numbered(i + 1, rows[i]))
  }

  /** The bookings of the entries, in order. */
  function Bookings(entries: seq<Numbered>): (r: seq<Appointment>)
    ensures |r| == |entries| && forall i :: 0 <= i < |r| ==> r[i] == entries[i].appointment
  {
    seq(|entries|, i requires 0 <= i < |entries| => entries[i].appointment)
  }

  /** The numbers start at 1, go up by one from entry to entry and end at the number of rows,
      and numbering keeps the rows in their order. */
  lemma NumberingIsOneToN(rows: seq<Appointment>)
    ensures var r := Numbering(rows);
      && (r != [] ==> r[0].number == 1 && r[|r| - 1].number == |rows|)
      && (forall i :: 0 < i < |r| ==> r[i].number == r[i - 1].number + 1)
      && Bookings(r) == rows
  {
  }

  /** The page: the barbershop row, `ishchilarSoni` and `bugungiNavbatlar`. */
  datatype Page = Page(shop: Shop, employeeCount: nat, today: seq<Numbered>)

  /** `WHERE id = ? AND is_active = 1` bound to the route parameter. */
  predicate ShownShop(s: Shop, key: Option<int>) {
    key == Some(s.id) && s.isActive
  }

  /** `COUNT(*) FROM employees WHERE barbershop_id = ? AND is_active = 1`. */
  predicate CountedEmployee(e: Employee, key: Option<int>) {
    key == Some(e.shopId) && e.isActive
  }

  /** A row of today's queue: a booking of the shop on the day that is not cancelled and
      whose user and employee rows exist (the inner JOINs with users and employees). */
  predicate InTodayQueue(a: Appointment, key: Option<int>, day: int, users: seq<User>, employees: seq<Employee>) {
    key == Some(a.shopId) && a.day == day && a.status != Cancelled
    && UserExists(users, a.userId) && EmployeeExists(employees, a.employeeId)
  }

  /** GET /barbershops/:id at instant `now`: None for the 404 when the id designates no active
      barbershop. */
  function ShopPage(shops: seq<Shop>, users: seq<User>, employees: seq<Employee>, appointments: seq<Appointment>,
                    id: string, now: int): (r: Option<Page>)
    ensures r.None? <==> forall i :: 0 <= i < |shops| ==> !ShownShop(shops[i], IdKey(id))
  {
    var key := IdKey(id);
    var k := FindFirst(shops, (s: Shop) => ShownShop(s, key));
    if k.None? then None
    else
      var count := Count(employees, (e: Employee) => CountedEmployee(e, key));
      var day := UtcDay(now);
      var rows := SortBy(Filter(appointments, (a: Appointment) => InTodayQueue(a, key, day, users, employees)), TimeOfDay);
      Some(Page(shops[k.value], count, Numbering(rows)))
  }

  /** The page shows an active barbershop with the requested id, counts its active employees,
      and numbers from 1 exactly its live bookings of the UTC day of `now`, in ascending order
      of time. */
  lemma ShopPageSpec(shops: seq<Shop>, users: seq<User>, employees: seq<Employee>, appointments: seq<Appointment>,
                     id: string, now: int)
    requires ShopPage(shops, users, employees, appointments, id, now).Some?
    ensures var p := ShopPage(shops, users, employees, appointments, id, now).value;
      && p.shop in shops && ShownShop(p.shop, IdKey(id))
      && p.employeeCount == |Filter(employees, (e: Employee) => CountedEmployee(e, IdKey(id)))|
      && (forall a :: a in Bookings(p.today) <==>
            a in appointments && InTodayQueue(a, IdKey(id), UtcDay(now), users, employees))
      && (forall i, j :: 0 <= i < j < |p.today| ==> p.today[i].appointment.time <= p.today[j].appointment.time)
      && forall i :: 0 <= i < |p.today| ==> p.today[i].number == i + 1
  {
    var key, day := IdKey(id), UtcDay(now);
    var q := (a: Appointment) => InTodayQueue(a, key, day, users, employees);
    var kept := Filter(appointments, q);
    var rows := SortBy(kept, TimeOfDay);
    var p := ShopPage(shops, users, employees, appointments, id, now).value;
    assert p.today == Numbering(rows);
    NumberingIsOneToN(rows);
    SortByMembers(kept, TimeOfDay);
    forall a ensures a in kept <==> a in appointments && q(a) {
      FilterMembers(appointments, q, a);
    }
  }
}
