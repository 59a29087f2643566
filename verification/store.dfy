/**
 The clinic's datastore as immutable tables. Every table is a sequence of rows in
 ascending id order, so a query's `.get()` is the first matching row of its sequence,
 and every insert takes the table's next AUTOINCREMENT id and appends.
 */
module Store {
  import opened JsText
  import Calendar

  datatype Service = Service(
    id: nat, name: string, description: Option<string>,
    duration: int, active: bool, sortOrder: int)

  datatype WorkingHours = WorkingHours(
    id: nat, dayOfWeek: int, startTime: string, endTime: string, active: bool)

  /** An appointment row. `serviceId` is the service reference as the request sent it. */
  datatype Appointment = Appointment(
    id: nat, clientName: string, clientPhone: string, clientEmail: Option<string>,
    serviceId: string, date: string, time: string, locationCountry: string,
    notes: Option<string>, status: string)

  /** A blocked-time row: a point block when `time` is present, the whole day when `allDay`. */
  datatype Block = Block(
    id: nat, date: string, time: Option<string>, allDay: bool, reason: Option<string>)

  /** An international-travel window, inclusive at both ends. */
  datatype Window = Window(
    id: nat, countryCode: string, countryName: string, flagEmoji: string,
    startDate: string, endDate: string, city: Option<string>, active: bool)

  datatype Db = Db(
    services: seq<Service>, hours: seq<WorkingHours>, appointments: seq<Appointment>,
    blocks: seq<Block>, windows: seq<Window>,
    nextServiceId: nat, nextAppointmentId: nat, nextBlockId: nat, nextWindowId: nat)

  const Cancelled := "cancelled"
  const Confirmed := "confirmed"
  const HomeCountry := "BR"

  // ---------- id discipline ----------

  /** Rows in strictly ascending id order, all ids below the next id the table will hand out. */
  predicate IdsOrdered<T>(rows: seq<T>, id: T -> nat, next: nat) {
    && (forall i, j :: 0 <= i < j < |rows| ==> id(rows[i]) < id(rows[j]))
    && (forall i :: 0 <= i < |rows| ==> id(rows[i]) < next)
  }

  function ServiceId(s: Service): nat { s.id }
  function HoursId(h: WorkingHours): nat { h.id }
  function AppointmentId(a: Appointment): nat { a.id }
  function BlockId(b: Block): nat { b.id }
  function WindowId(w: Window): nat { w.id }

  /** The datastore invariant: every table in ascending id order, ids below the table's counter
      (working hours are never inserted by the core, so any bound above the largest id serves). */
  predicate WellFormed(db: Db) {
    && IdsOrdered(db.services, ServiceId, db.nextServiceId)
    && (forall i, j :: 0 <= i < j < |db.hours| ==> db.hours[i].id < db.hours[j].id)
    && IdsOrdered(db.appointments, AppointmentId, db.nextAppointmentId)
    && IdsOrdered(db.blocks, BlockId, db.nextBlockId)
    && IdsOrdered(db.windows, WindowId, db.nextWindowId)
  }

  /** Appending a row with the next id keeps a table in order; the counter moves past it. */
  lemma AppendKeepsOrder<T>(rows: seq<T>, id: T -> nat, next: nat, row: T)
    requires IdsOrdered(rows, id, next) && id(row) == next
    ensures IdsOrdered(rows + [row], id, next + 1)
  {
    var r := rows + [row];
    assert forall i :: 0 <= i < |rows| ==> r[i] == rows[i];
  }

  /** Dropping rows keeps a table in order. */
  lemma FilterKeepsOrder<T>(rows: seq<T>, id: T -> nat, next: nat, p: T -> bool)
    requires IdsOrdered(rows, id, next)
    ensures IdsOrdered(Where(rows, p), id, next)
  {
    var rel := (x: T, y: T) => id(x) < id(y);
    assert forall i, j :: 0 <= i < j < |rows| ==> rel(rows[i], rows[j]);
    WherePairwise(rows, p, rel);
    var r := Where(rows, p);
    forall i, j | 0 <= i < j < |r| ensures id(r[i]) < id(r[j]) {
      assert rel(r[i], r[j]);
    }
    forall i | 0 <= i < |r| ensures id(r[i]) < next {
      var j :| 0 <= j < |rows| && rows[j] == r[i];
    }
  }

  /** Rewriting rows in place without touching their ids keeps a table in order. */
  lemma SameIdsKeepOrder<T>(rows: seq<T>, r: seq<T>, id: T -> nat, next: nat)
    requires IdsOrdered(rows, id, next)
    requires |r| == |rows| && forall i :: 0 <= i < |rows| ==> id(r[i]) == id(rows[i])
    ensures IdsOrdered(r, id, next)
  {
  }

  // ---------- lookups ----------

  /** A text key names an INTEGER id when it is its decimal digits: SQLite's integer affinity on `'3'`. */
  predicate KeyMatches(key: string, id: nat) {
    key != "" && AllDigits(key) && ValueOf(key) == id
  }

  /** `SELECT ... FROM services WHERE id = ?`. */
  function FindService(services: seq<Service>, key: string): (r: Option<Service>)
    ensures r.None? <==> forall i :: 0 <= i < |services| ==> !KeyMatches(key, services[i].id)
    ensures r.Some? ==> KeyMatches(key, r.value.id) && r.value in services
    ensures r.Some? ==> exists i :: 0 <= i < |services| && services[i] == r.value
                                    && forall j :: 0 <= j < i ==> !KeyMatches(key, services[j].id)
  {
    FirstWhere(services, (s: Service) => KeyMatches(key, s.id))
  }

  /** `SELECT * FROM working_hours WHERE day_of_week = ? AND active = 1`, first row. */
  function HoursFor(hours: seq<WorkingHours>, weekday: int): (r: Option<WorkingHours>)
    ensures r.None? <==> forall i :: 0 <= i < |hours| ==> !(hours[i].dayOfWeek == weekday && hours[i].active)
    ensures r.Some? ==> r.value.dayOfWeek == weekday && r.value.active && r.value in hours
    ensures r.Some? ==> exists i :: 0 <= i < |hours| && hours[i] == r.value
                                    && forall j :: 0 <= j < i ==> !(hours[j].dayOfWeek == weekday && hours[j].active)
  {
    FirstWhere(hours, (h: WorkingHours) => h.dayOfWeek == weekday && h.active)
  }

  /** `start_date <= date AND end_date >= date` in text order. */
  predicate Covers(w: Window, date: string) {
    LexLe(w.startDate, date) && LexLe(date, w.endDate)
  }

  /** `SELECT ... FROM international_dates WHERE start_date <= ? AND end_date >= ? AND active = 1`, first row. */
  function ActiveWindowFor(windows: seq<Window>, date: string): (r: Option<Window>)
    ensures r.None? <==> forall i :: 0 <= i < |windows| ==> !(windows[i].active && Covers(windows[i], date))
    ensures r.Some? ==> exists i :: 0 <= i < |windows| && windows[i] == r.value && r.value.active && Covers(r.value, date)
                          && forall j :: 0 <= j < i ==> !(windows[j].active && Covers(windows[j], date))
  {
    FirstWhere(windows, (w: Window) => w.active && Covers(w, date))
  }

  /** The blocked-time rows of one date. */
  function BlocksOn(blocks: seq<Block>, date: string): seq<Block> {
    Where(blocks, (b: Block) => b.date == date)
  }

  /** An appointment that still holds its slot. */
  predicate Holds(a: Appointment) {
    a.status != Cancelled
  }

  /** No two appointments that hold their slot share a date and a start time. */
  predicate NoDoubleBooking(appointments: seq<Appointment>) {
    forall i, j :: 0 <= i < j < |appointments| && Holds(appointments[i]) && Holds(appointments[j]) ==>
      (appointments[i].date, appointments[i].time) != (appointments[j].date, appointments[j].time)
  }
}
