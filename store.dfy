/** The SQLite database of src/db.js: the users, barbershops, employees and appointments
    tables, each a sequence of rows in rowid order, held by one object the route handlers
    update in place.  The working_hours table is read by one route and written by none; it is
    not part of this model. */
module Store {
  import opened Text
  import opened JsValues
  import opened Queries

  /** A row of `users` (src/db.js:9-20).  `createdAt` stands for the `datetime('now')` text:
      an instant in milliseconds, ordered as that text is. */
  datatype User = User(id: int, phone: string, name: string, role: string, createdAt: int)

  /** A row of `barbershops` (src/db.js:22-39).  The columns a request body fills are kept as
      the JavaScript values that were bound to them. */
  datatype Shop = Shop(id: int, name: Value, image: Value, address: Value, phone: Value,
                       description: Value, price: Value, openingTime: Value, closingTime: Value,
                       ownerId: Option<int>, isActive: bool)

  /** A row of `employees` (src/db.js:41-51). */
  datatype Employee = Employee(id: int, shopId: int, name: string, isActive: bool)

  /** The `status` column of `appointments`.  The handlers write 'confirmed', 'rescheduled' and
      'completed'; 'cancelled' is excluded by several queries but written by no handler. */
  datatype Status = Confirmed | Rescheduled | Completed | Cancelled

  function StatusText(s: Status): (t: string)
    ensures t != []
  {
    match s
    case Confirmed => "confirmed"
    case Rescheduled => "rescheduled"
    case Completed => "completed"
    case Cancelled => "cancelled"
  }

  lemma StatusTextInjective(a: Status, b: Status)
    ensures StatusText(a) == StatusText(b) <==> a == b
  {
  }

  /** A row of `appointments` (src/db.js:69-86).  `day` is the `appointment_date` text as a
      day number (days since 1970-01-01), `time` the `appointment_time` text "HH:MM" as minutes
      after midnight, and `completedAt` the instant whose Tashkent text `completed_at` holds. */
  datatype Appointment = Appointment(id: int, userId: int, shopId: int, employeeId: int,
                                     day: int, time: int, status: Status, completedAt: Option<int>)

  const MinutesPerDay := 1440

  class Db {
    var users: seq<User>
    var shops: seq<Shop>
    var employees: seq<Employee>
    var appointments: seq<Appointment>
    /** The AUTOINCREMENT counters: the next rowid each insert takes. */
    var nextShopId: int
    var nextAppointmentId: int

    /** Primary keys are unique, every key is below its table's counter, and every stored time
        is a time of day. */
    ghost predicate Valid()
      reads this
    {
      UniqueKeys(users, (u: User) => u.id)
      && UniqueKeys(shops, (s: Shop) => s.id)
      && UniqueKeys(employees, (e: Employee) => e.id)
      && UniqueKeys(appointments, (a: Appointment) => a.id)
      && (forall i :: 0 <= i < |shops| ==> shops[i].id < nextShopId)
      && (forall i :: 0 <= i < |appointments| ==> appointments[i].id < nextAppointmentId)
      && (forall i :: 0 <= i < |appointments| ==> 0 <= appointments[i].time < MinutesPerDay)
    }

    constructor ()
      ensures Valid()
      ensures users == [] && shops == [] && employees == [] && appointments == []
    {
      users := [];
      shops := [];
      employees := [];
      appointments := [];
      nextShopId := 1;
      nextAppointmentId := 1;
    }
  }

  // ---------------------------------------------------------------------------------------
  // Key lookups: `WHERE id = ?` finds the row whose key the bound value converts to.

  function FindUser(users: seq<User>, key: Option<int>): (r: Option<nat>)
    ensures r.Some? ==> r.value < |users| && key == Some(users[r.value].id)
    ensures r.None? <==> forall i :: 0 <= i < |users| ==> key != Some(users[i].id)
  {
    FindFirst(users, (u: User) => key == Some(u.id))
  }

  function FindAppointment(appointments: seq<Appointment>, key: Option<int>): (r: Option<nat>)
    ensures r.Some? ==> r.value < |appointments| && key == Some(appointments[r.value].id)
    ensures r.None? <==> forall i :: 0 <= i < |appointments| ==> key != Some(appointments[i].id)
  {
    FindFirst(appointments, (a: Appointment) => key == Some(a.id))
  }

  /** Whether some barbershop row has the given id (the inner JOIN with barbershops). */
  predicate ShopExists(shops: seq<Shop>, id: int) {
    exists i :: 0 <= i < |shops| && shops[i].id == id
  }

  predicate UserExists(users: seq<User>, id: int) {
    exists i :: 0 <= i < |users| && users[i].id == id
  }

  predicate EmployeeExists(employees: seq<Employee>, id: int) {
    exists i :: 0 <= i < |employees| && employees[i].id == id
  }

  /** Whether the barbershop with the given id is an active one. */
  predicate ShopActive(shops: seq<Shop>, id: int) {
    exists i :: 0 <= i < |shops| && shops[i].id == id && shops[i].isActive
  }

  /** `owner_id = ? AND is_active = 1` bound to the value `actor`: a NULL owner matches no
      value, and neither does a value that is no integer key. */
  predicate OwnedBy(s: Shop, actor: Value) {
    s.isActive && s.ownerId.Some? && SqlKey(actor) == s.ownerId
  }

  /** `SELECT id FROM barbershops WHERE owner_id = ? AND is_active = 1`, bound to the caller's
      id: the first active barbershop whose owner the value designates. */
  function OwnShop(shops: seq<Shop>, actor: Value): (r: Option<nat>)
    ensures r.Some? ==> r.value < |shops| && OwnedBy(shops[r.value], actor)
    ensures r.None? <==> forall i :: 0 <= i < |shops| ==> !OwnedBy(shops[i], actor)
  {
    FindFirst(shops, (s: Shop) => OwnedBy(s, actor))
  }
}
