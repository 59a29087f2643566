/**
 The administrator's writes to the tables the availability handler reads: appointment
 status and notes, deletions, blocked times, services and travel windows, and the
 dashboard counters. A path parameter `:id` is text, matched as a plain digit run against
 the integer id.
 */
module Admin {
  import opened JsText
  import opened Store
  import opened Availability

  /** An appointment row with the name of its service, as `JOIN services s ON a.service_id = s.id` gives it. */
  datatype AppointmentView = AppointmentView(appointment: Appointment, serviceName: string)

  /** The joined row of an appointment, absent when no service has its `service_id` (an inner join drops it). */
  function Joined(services: seq<Service>, a: Appointment): (v: Option<AppointmentView>)
    ensures v.Some? <==> FindService(services, a.serviceId).Some?
    ensures v.Some? ==> v.value.appointment == a && v.value.serviceName == FindService(services, a.serviceId).value.name
  {
    match FindService(services, a.serviceId)
    case None => None
    case Some(s) => Some(AppointmentView(a, s.name))
  }

  // ---------- PATCH /appointments/:id ----------

  /** `UPDATE appointments SET … WHERE id = ?`: every row the key names is rewritten by f, the rest kept. */
  function UpdateWhere(rows: seq<Appointment>, key: string, f: Appointment -> Appointment): (r: seq<Appointment>)
    ensures |r| == |rows|
    ensures forall i :: 0 <= i < |rows| && !KeyMatches(key, rows[i].id) ==> r[i] == rows[i]
    ensures forall i :: 0 <= i < |rows| && KeyMatches(key, rows[i].id) ==> r[i] == f(rows[i])
  {
    seq(|rows|, i requires 0 <= i < |rows| => if KeyMatches(key, rows[i].id) then f(rows[i]) else rows[i])
  }

  datatype PatchOutcome = PatchOutcome(view: Option<AppointmentView>, db: Db)

  /** The PATCH handler: a truthy `status` is written, then a `notes` that is not undefined
      (null included); the reply is the joined row, empty when the key names none. */
  function PatchAppointment(db: Db, key: string, status: Option<string>, notes: Option<Option<string>>): (out: PatchOutcome)
    ensures out.db == db.(appointments := out.db.appointments)
    ensures |out.db.appointments| == |db.appointments|
    ensures forall i :: 0 <= i < |db.appointments| ==>
              var a, b := db.appointments[i], out.db.appointments[i];
              if KeyMatches(key, a.id) then
                b == a.(status := if Filled(status) then status.value else a.status,
                        notes := if notes.Some? then notes.value else a.notes)
              else b == a
    ensures out.view == JoinedRow(db.services, out.db.appointments, key)
  {
    var rows := PatchedRows(db.appointments, key, status, notes);
    PatchOutcome(JoinedRow(db.services, rows, key), db.(appointments := rows))
  }

  /** The two UPDATEs in turn: a truthy `status` first, then a defined `notes`. */
  function PatchedRows(rows: seq<Appointment>, key: string, status: Option<string>, notes: Option<Option<string>>): (r: seq<Appointment>)
    ensures |r| == |rows|
    ensures forall i :: 0 <= i < |rows| ==>
              if KeyMatches(key, rows[i].id) then
                r[i] == rows[i].(status := if Filled(status) then status.value else rows[i].status,
                                 notes := if notes.Some? then notes.value else rows[i].notes)
              else r[i] == rows[i]
  {
    var afterStatus := if Filled(status) then UpdateWhere(rows, key, (a: Appointment) => a.(status := status.value))
                       else rows;
    if notes.Some? then UpdateWhere(afterStatus, key, (a: Appointment) => a.(notes := notes.value))
    else afterStatus
  }

  /** The reply's `SELECT … JOIN services … WHERE a.id = ?` with `.get()`: the first row the key
      names whose service exists, joined with that service, and nothing when there is none. */
  function JoinedRow(services: seq<Service>, rows: seq<Appointment>, key: string): (v: Option<AppointmentView>)
    ensures v.Some? <==>
              exists i :: 0 <= i < |rows| && KeyMatches(key, rows[i].id) && FindService(services, rows[i].serviceId).Some?
    ensures v.Some? ==> KeyMatches(key, v.value.appointment.id) && Joined(services, v.value.appointment) == v
    ensures v.Some? ==>
              exists i :: 0 <= i < |rows| && rows[i] == v.value.appointment
                          && forall j :: 0 <= j < i ==>
                               !(KeyMatches(key, rows[j].id) && FindService(services, rows[j].serviceId).Some?)
  {
    var hit := FirstWhere(rows, (a: Appointment) => KeyMatches(key, a.id) && FindService(services, a.serviceId).Some?);
    if hit.None? then None else Joined(services, hit.value)
  }

  lemma PatchKeepsWellFormed(db: Db, key: string, status: Option<string>, notes: Option<Option<string>>)
    requires WellFormed(db)
    ensures WellFormed(PatchAppointment(db, key, status, notes).db)
  {
    var rows := PatchedRows(db.appointments, key, status, notes);
    forall i | 0 <= i < |rows| ensures AppointmentId(rows[i]) == AppointmentId(db.appointments[i]) {
    }
    SameIdsKeepOrder(db.appointments, rows, AppointmentId, db.nextAppointmentId);
  }

  /** Cancelling, or touching only the notes, never makes two appointments hold one start. */
  lemma PatchWithoutReinstatingKeepsNoDoubleBooking(db: Db, key: string, status: Option<string>, notes: Option<Option<string>>)
    requires NoDoubleBooking(db.appointments)
    requires !Filled(status) || status.value == Cancelled
    ensures NoDoubleBooking(PatchAppointment(db, key, status, notes).db.appointments)
  {
    var rows := PatchAppointment(db, key, status, notes).db.appointments;
    forall i | 0 <= i < |rows|
      ensures Holds(rows[i]) ==> Holds(db.appointments[i]) && rows[i].date == db.appointments[i].date
                                 && rows[i].time == db.appointments[i].time
    {
      PatchedRowHoldsLess(db, key, status, notes, i);
    }
  }

  /** Without reinstating, a patched row holds a start only if it held the same one before. */
  lemma PatchedRowHoldsLess(db: Db, key: string, status: Option<string>, notes: Option<Option<string>>, i: int)
    requires !Filled(status) || status.value == Cancelled
    requires 0 <= i < |db.appointments|
    ensures var a, b := db.appointments[i], PatchAppointment(db, key, status, notes).db.appointments[i];
            Holds(b) ==> Holds(a) && b.date == a.date && b.time == a.time
  {
  }

  /** Cancelling the appointment that holds a start frees that start for the slots endpoint. */
  lemma CancelFreesSlot(db: Db, key: string, k: int)
    requires NoDoubleBooking(db.appointments)
    requires 0 <= k < |db.appointments| && KeyMatches(key, db.appointments[k].id) && Holds(db.appointments[k])
    ensures var a, db2 := db.appointments[k], PatchAppointment(db, key, Some(Cancelled), None).db;
            !BookedAt(db2.appointments, a.date, a.time)
  {
    var a, db2 := db.appointments[k], PatchAppointment(db, key, Some(Cancelled), None).db;
    forall i | 0 <= i < |db2.appointments| && !KeyMatches(key, db.appointments[i].id)
      ensures (db2.appointments[i].date, db2.appointments[i].time) != (a.date, a.time) || !Holds(db2.appointments[i])
    {
      assert db2.appointments[i] == db.appointments[i];
      if i < k {
        assert NotClashing(db.appointments[i], a);
      } else {
        assert NotClashing(a, db.appointments[i]);
      }
    }
  }

  /** Reinstating is not checked against the other bookings: two rows at 2026-05-04 10:00,
      the first cancelled and rebooked by the second, end up both holding it. */
  lemma ReinstatingCanDoubleBook()
    ensures var db := ReinstateExample();
            && NoDoubleBooking(db.appointments)
            && !NoDoubleBooking(PatchAppointment(db, "1", Some(Confirmed), None).db.appointments)
  {
    var db := ReinstateExample();
    var rows := PatchAppointment(db, "1", Some(Confirmed), None).db.appointments;
    assert KeyMatches("1", 1) && !KeyMatches("1", 2);
    assert rows[0] == db.appointments[0].(status := Confirmed);
    assert rows[1] == db.appointments[1];
    assert Holds(rows[0]) && Holds(rows[1]);
  }

  function ReinstateExample(): Db {
    Db(
      services := [], hours := [],
      appointments := [
        Appointment(1, "Ana", "11999990000", None, "1", "2026-05-04", "10:00", HomeCountry, None, Cancelled),
        Appointment(2, "Bia", "11988880000", None, "1", "2026-05-04", "10:00", HomeCountry, None, Confirmed)],
      blocks := [], windows := [],
      nextServiceId := 1, nextAppointmentId := 3, nextBlockId := 1, nextWindowId := 1)
  }

  // ---------- DELETE /appointments/:id and /blocked-times/:id ----------

  function KeepsAppointment(key: string): Appointment -> bool {
    (a: Appointment) => !KeyMatches(key, a.id)
  }

  function KeepsBlock(key: string): Block -> bool {
    (b: Block) => !KeyMatches(key, b.id)
  }

  /** `DELETE FROM appointments WHERE id = ?`: the rows the key names go, every other row stays, in order. */
  function DeleteAppointment(db: Db, key: string): (db2: Db)
    ensures db2 == db.(appointments := db2.appointments)
    ensures forall i :: 0 <= i < |db2.appointments| ==>
              !KeyMatches(key, db2.appointments[i].id) && db2.appointments[i] in db.appointments
    ensures forall i :: 0 <= i < |db.appointments| && !KeyMatches(key, db.appointments[i].id) ==>
              db.appointments[i] in db2.appointments
    ensures IsSubsequence(db2.appointments, db.appointments)
  {
    db.(appointments := Where(db.appointments, KeepsAppointment(key)))
  }

  /** `DELETE FROM blocked_times WHERE id = ?`. */
  function DeleteBlock(db: Db, key: string): (db2: Db)
    ensures db2 == db.(blocks := db2.blocks)
    ensures forall i :: 0 <= i < |db2.blocks| ==> !KeyMatches(key, db2.blocks[i].id) && db2.blocks[i] in db.blocks
    ensures forall i :: 0 <= i < |db.blocks| && !KeyMatches(key, db.blocks[i].id) ==> db.blocks[i] in db2.blocks
    ensures IsSubsequence(db2.blocks, db.blocks)
  {
    db.(blocks := Where(db.blocks, KeepsBlock(key)))
  }

  function NotClashing(a: Appointment, b: Appointment): bool {
    Holds(a) && Holds(b) ==> (a.date, a.time) != (b.date, b.time)
  }

  lemma DeleteAppointmentKeepsInvariants(db: Db, key: string)
    requires WellFormed(db) && NoDoubleBooking(db.appointments)
    ensures WellFormed(DeleteAppointment(db, key)) && NoDoubleBooking(DeleteAppointment(db, key).appointments)
  {
    FilterKeepsOrder(db.appointments, AppointmentId, db.nextAppointmentId, KeepsAppointment(key));
    assert Pairwise(db.appointments, NotClashing);
    WherePairwise(db.appointments, KeepsAppointment(key), NotClashing);
    var rows := DeleteAppointment(db, key).appointments;
    assert forall i, j :: 0 <= i < j < |rows| ==> NotClashing(rows[i], rows[j]);
  }

  lemma DeleteBlockKeepsWellFormed(db: Db, key: string)
    requires WellFormed(db)
    ensures WellFormed(DeleteBlock(db, key))
  {
    FilterKeepsOrder(db.blocks, BlockId, db.nextBlockId, KeepsBlock(key));
  }

  /** A deletion only ever frees starts: whatever was free stays free, and a day stops being blocked or stays so. */
  lemma DeletionsOnlyFree(db: Db, key: string, date: string, t: string)
    ensures Free(db, date, t) ==> Free(DeleteAppointment(db, key), date, t)
    ensures Free(db, date, t) ==> Free(DeleteBlock(db, key), date, t)
    ensures AllDayBlocked(DeleteBlock(db, key).blocks, date) ==> AllDayBlocked(db.blocks, date)
  {
    var db1, db2 := DeleteAppointment(db, key), DeleteBlock(db, key);
    FewerAppointmentsBookLess(db.appointments, db1.appointments, date, t);
    FewerBlocksBlockLess(db.blocks, db2.blocks, date, t);
  }

  /** Rows drawn from a table hold no start the table does not. */
  lemma FewerAppointmentsBookLess(rows: seq<Appointment>, sub: seq<Appointment>, date: string, t: string)
    requires forall i :: 0 <= i < |sub| ==> sub[i] in rows
    ensures BookedAt(sub, date, t) ==> BookedAt(rows, date, t)
  {
    if BookedAt(sub, date, t) {
      var i :| 0 <= i < |sub| && sub[i].date == date && Holds(sub[i]) && sub[i].time == t;
      var j :| 0 <= j < |rows| && rows[j] == sub[i];
    }
  }

  /** Blocks drawn from a table block nothing the table does not. */
  lemma FewerBlocksBlockLess(blocks: seq<Block>, sub: seq<Block>, date: string, t: string)
    requires forall i :: 0 <= i < |sub| ==> sub[i] in blocks
    ensures PointBlockedAt(sub, date, t) ==> PointBlockedAt(blocks, date, t)
    ensures AllDayBlocked(sub, date) ==> AllDayBlocked(blocks, date)
  {
    if PointBlockedAt(sub, date, t) {
      var i :| 0 <= i < |sub| && sub[i].date == date && sub[i].time == Some(t);
      var j :| 0 <= j < |blocks| && blocks[j] == sub[i];
    }
    if AllDayBlocked(sub, date) {
      var i :| 0 <= i < |sub| && sub[i].date == date && sub[i].allDay;
      var j :| 0 <= j < |blocks| && blocks[j] == sub[i];
    }
  }

  // ---------- POST /blocked-times ----------

  datatype AddReply = Rejected | Added | StorageError

  /** The block handler: `block_date` is required; `block_time` and `reason` fall back to null,
      `all_day` is stored as 1 or 0 by truthiness. */
  function AddBlock(db: Db, date: Option<string>, time: Option<string>, allDay: JsValue, reason: Option<string>): (out: (AddReply, Db))
    ensures out.0 == Rejected <==> !Filled(date)
    ensures out.0 != StorageError
    ensures out.0 == Rejected ==> out.1 == db
    ensures out.0 == Added ==>
              && out.1 == db.(blocks := out.1.blocks, nextBlockId := db.nextBlockId + 1)
              && |out.1.blocks| == |db.blocks| + 1 && out.1.blocks[..|db.blocks|] == db.blocks
              && var b := out.1.blocks[|db.blocks|];
                 && b.id == db.nextBlockId && b.date == date.value
                 && b.time == OrNull(time) && b.allDay == Truthy(allDay) && b.reason == OrNull(reason)
  {
    if !Filled(date) then (Rejected, db)
    else
      var b := Block(db.nextBlockId, date.value, OrNull(time), Truthy(allDay), OrNull(reason));
      (Added, db.(blocks := db.blocks + [b], nextBlockId := db.nextBlockId + 1))
  }

  lemma AddBlockKeepsWellFormed(db: Db, date: Option<string>, time: Option<string>, allDay: JsValue, reason: Option<string>)
    requires WellFormed(db)
    ensures WellFormed(AddBlock(db, date, time, allDay, reason).1)
  {
    var out := AddBlock(db, date, time, allDay, reason);
    if out.0 == Added {
      AppendKeepsOrder(db.blocks, BlockId, db.nextBlockId, out.1.blocks[|db.blocks|]);
      assert out.1.blocks == db.blocks + [out.1.blocks[|db.blocks|]];
    }
  }

  /** A new point block withdraws its start; a new all-day block withdraws the whole day. */
  lemma AddBlockWithdraws(db: Db, date: string, time: Option<string>, allDay: JsValue, reason: Option<string>, serviceKey: string)
    requires date != ""
    ensures var db2 := AddBlock(db, Some(date), time, allDay, reason).1;
            && (Filled(time) ==> !Free(db2, date, time.value))
            && (Truthy(allDay) ==> AvailableSlots(db2, date, serviceKey) in {NoHours, DayBlocked})
  {
    var db2 := AddBlock(db, Some(date), time, allDay, reason).1;
    var b := db2.blocks[|db.blocks|];
    if Filled(time) {
      assert PointBlockedAt(db2.blocks, date, time.value);
    }
    if Truthy(allDay) {
      assert AllDayBlocked(db2.blocks, date);
    }
  }

  // ---------- POST /services ----------

  /** `SELECT MAX(sort_order) FROM services`; None is SQL NULL on an empty table. */
  function MaxSortOrder(services: seq<Service>): (m: Option<int>)
    ensures m.None? <==> services == []
    ensures m.Some? ==> (forall i :: 0 <= i < |services| ==> services[i].sortOrder <= m.value)
                        && exists i :: 0 <= i < |services| && services[i].sortOrder == m.value
    decreases |services|
  {
    if services == [] then None
    else
      var rest := MaxSortOrder(services[1..]);
      if rest.None? || services[0].sortOrder >= rest.value then
        assert forall i :: 1 <= i < |services| ==> services[i] == services[1..][i - 1];
        Some(services[0].sortOrder)
      else
        assert forall i :: 1 <= i < |services| ==> services[i] == services[1..][i - 1];
        var k :| 0 <= k < |services[1..]| && services[1..][k].sortOrder == rest.value;
        assert services[k + 1].sortOrder == rest.value;
        rest
  }

  /** `(max_order || 0) + 1`: NULL counts as 0, and a maximum of 0 is 0 either way. */
  function NextSortOrder(services: seq<Service>): (n: int)
    ensures services == [] ==> n == 1
    ensures forall i :: 0 <= i < |services| ==> services[i].sortOrder < n
    ensures services != [] ==> exists i :: 0 <= i < |services| && services[i].sortOrder == n - 1
  {
    match MaxSortOrder(services)
    case None => 1
    case Some(m) => m + 1
  }

  /** The service handler: `name` is required, `description` falls back to null and a missing or zero
      `duration` to 60; the new service is active and sorts after every existing one. */
  function AddService(db: Db, name: Option<string>, description: Option<string>, duration: Option<int>): (out: (AddReply, Db))
    ensures out.0 == Rejected <==> !Filled(name)
    ensures out.0 != StorageError
    ensures out.0 == Rejected ==> out.1 == db
    ensures out.0 == Added ==>
              && out.1 == db.(services := out.1.services, nextServiceId := db.nextServiceId + 1)
              && |out.1.services| == |db.services| + 1 && out.1.services[..|db.services|] == db.services
              && var s := out.1.services[|db.services|];
                 && s.id == db.nextServiceId && s.name == name.value && s.description == OrNull(description)
                 && s.duration == (if duration.Some? && duration.value != 0 then duration.value else DefaultDuration)
                 && s.active
                 && (forall i :: 0 <= i < |db.services| ==> db.services[i].sortOrder < s.sortOrder)
                 && (db.services == [] ==> s.sortOrder == 1)
                 && (db.services != [] ==> exists i :: 0 <= i < |db.services| && db.services[i].sortOrder == s.sortOrder - 1)
  {
    if !Filled(name) then (Rejected, db)
    else
      var d := if duration.Some? && duration.value != 0 then duration.value else DefaultDuration;
      var s := Service(db.nextServiceId, name.value, OrNull(description), d, true, NextSortOrder(db.services));
      (Added, db.(services := db.services + [s], nextServiceId := db.nextServiceId + 1))
  }

  lemma AddServiceKeepsWellFormed(db: Db, name: Option<string>, description: Option<string>, duration: Option<int>)
    requires WellFormed(db)
    ensures WellFormed(AddService(db, name, description, duration).1)
  {
    var out := AddService(db, name, description, duration);
    if out.0 == Added {
      AppendKeepsOrder(db.services, ServiceId, db.nextServiceId, out.1.services[|db.services|]);
      assert out.1.services == db.services + [out.1.services[|db.services|]];
    }
  }

  /** The slots endpoint finds a new service by its id's decimal text and uses its duration. */
  lemma NewServiceIsFound(db: Db, name: Option<string>, description: Option<string>, duration: Option<int>)
    requires WellFormed(db) && Filled(name)
    ensures var db2 := AddService(db, name, description, duration).1;
            var s := db2.services[|db.services|];
            && FindService(db2.services, Decimal(s.id)) == Some(s)
            && ServiceDuration(db2.services, Decimal(s.id)) == s.duration
  {
    var db2 := AddService(db, name, description, duration).1;
    var s := db2.services[|db.services|];
    var key := Decimal(s.id);
    assert KeyMatches(key, s.id);
    forall i | 0 <= i < |db.services| ensures !KeyMatches(key, db2.services[i].id) {
      assert db2.services[i] == db.services[i];
    }
    assert forall i :: 0 <= i < |db2.services| && KeyMatches(key, db2.services[i].id) ==> i == |db.services|;
  }

  // ---------- POST /international-dates ----------

  /** The window handler: `country_code`, `start_date` and `end_date` are required; a missing
      `country_name` or `flag_emoji` violates NOT NULL (500); `city` falls back to null; `active`
      is 1 when omitted and otherwise 1 or 0 by truthiness. */
  function AddWindow(db: Db, code: Option<string>, countryName: Option<string>, flag: Option<string>,
                     start: Option<string>, end: Option<string>, city: Option<string>, active: JsValue): (out: (AddReply, Db))
    ensures out.0 == Rejected <==> !Filled(code) || !Filled(start) || !Filled(end)
    ensures out.0 == StorageError <==> Filled(code) && Filled(start) && Filled(end) && (countryName.None? || flag.None?)
    ensures out.0 != Added ==> out.1 == db
    ensures out.0 == Added ==>
              && out.1 == db.(windows := out.1.windows, nextWindowId := db.nextWindowId + 1)
              && |out.1.windows| == |db.windows| + 1 && out.1.windows[..|db.windows|] == db.windows
              && var w := out.1.windows[|db.windows|];
                 && w.id == db.nextWindowId && w.countryCode == code.value
                 && w.countryName == countryName.value && w.flagEmoji == flag.value
                 && w.startDate == start.value && w.endDate == end.value && w.city == OrNull(city)
                 && w.active == (active.Undefined? || Truthy(active))
  {
    if !Filled(code) || !Filled(start) || !Filled(end) then (Rejected, db)
    else if countryName.None? || flag.None? then (StorageError, db)
    else
      var on := if active.Undefined? then true else Truthy(active);
      var w := Window(db.nextWindowId, code.value, countryName.value, flag.value, start.value, end.value, OrNull(city), on);
      (Added, db.(windows := db.windows + [w], nextWindowId := db.nextWindowId + 1))
  }

  lemma AddWindowKeepsWellFormed(db: Db, code: Option<string>, countryName: Option<string>, flag: Option<string>,
                                 start: Option<string>, end: Option<string>, city: Option<string>, active: JsValue)
    requires WellFormed(db)
    ensures WellFormed(AddWindow(db, code, countryName, flag, start, end, city, active).1)
  {
    var out := AddWindow(db, code, countryName, flag, start, end, city, active);
    if out.0 == Added {
      AppendKeepsOrder(db.windows, WindowId, db.nextWindowId, out.1.windows[|db.windows|]);
      assert out.1.windows == db.windows + [out.1.windows[|db.windows|]];
    }
  }

  /** A new window is the one later bookings are located in exactly for the dates it covers that no
      older active window covers; where an older one does, the older one still wins. */
  lemma NewWindowLocates(db: Db, code: Option<string>, countryName: Option<string>, flag: Option<string>,
                         start: Option<string>, end: Option<string>, city: Option<string>, active: JsValue, date: string)
    requires AddWindow(db, code, countryName, flag, start, end, city, active).0 == Added
    ensures var db2 := AddWindow(db, code, countryName, flag, start, end, city, active).1;
            var w := db2.windows[|db.windows|];
            && (ActiveWindowFor(db.windows, date).Some? ==> ActiveWindowFor(db2.windows, date) == ActiveWindowFor(db.windows, date))
            && (ActiveWindowFor(db.windows, date).None? && w.active && Covers(w, date) ==> ActiveWindowFor(db2.windows, date) == Some(w))
            && (ActiveWindowFor(db.windows, date).None? && !(w.active && Covers(w, date)) ==> ActiveWindowFor(db2.windows, date).None?)
  {
    var db2 := AddWindow(db, code, countryName, flag, start, end, city, active).1;
    var w := db2.windows[|db.windows|];
    assert db2.windows == db.windows + [w];
    FirstWhereAppend(db.windows, w, (x: Window) => x.active && Covers(x, date));
  }

  // ---------- GET /stats ----------

  datatype Stats = Stats(todayCount: nat, totalCount: nat, upcomingCount: nat)

  function HeldOn(today: string): Appointment -> bool {
    (a: Appointment) => a.date == today && Holds(a)
  }

  function HeldAny(): Appointment -> bool {
    (a: Appointment) => Holds(a)
  }

  function ConfirmedFrom(today: string): Appointment -> bool {
    (a: Appointment) => LexLe(today, a.date) && a.status == Confirmed
  }

  /** The dashboard counters for the UTC calendar date `today`: appointments holding a start today,
      holding one at all, and confirmed for today or later in text order. */
  function GetStats(db: Db, today: string): (st: Stats)
    ensures st.todayCount <= st.totalCount <= |db.appointments|
    ensures st.upcomingCount <= |db.appointments|
    ensures st.todayCount == |Where(db.appointments, HeldOn(today))|
    ensures st.totalCount == |Where(db.appointments, HeldAny())|
    ensures st.upcomingCount == |Where(db.appointments, ConfirmedFrom(today))|
  {
    WhereMonotone(db.appointments, HeldOn(today), HeldAny());
    CountIsWhere(db.appointments, HeldOn(today));
    CountIsWhere(db.appointments, HeldAny());
    CountIsWhere(db.appointments, ConfirmedFrom(today));
    Stats(CountWhere(db.appointments, HeldOn(today)), CountWhere(db.appointments, HeldAny()),
          CountWhere(db.appointments, ConfirmedFrom(today)))
  }

  /** A booking for today adds exactly one to each counter; a booking for another day leaves
      `todayCount` alone. */
  lemma BookingCounted(db: Db, a: Appointment, today: string)
    requires a.status == Confirmed
    ensures var before, after := GetStats(db, today), GetStats(db.(appointments := db.appointments + [a]), today);
            && after.totalCount == before.totalCount + 1
            && after.todayCount == before.todayCount + (if a.date == today then 1 else 0)
            && after.upcomingCount == before.upcomingCount + (if LexLe(today, a.date) then 1 else 0)
  {
    WhereAppend(db.appointments, a, HeldOn(today));
    WhereAppend(db.appointments, a, HeldAny());
    WhereAppend(db.appointments, a, ConfirmedFrom(today));
  }
}
