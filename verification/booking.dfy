/**
 `POST /appointments`: a client books a start time. The request must carry a name, a phone,
 a service, a date and a time; the start must not be held by another appointment on the
 same date nor blocked; the new row is confirmed and located in the country of the travel
 window covering the date, Brazil otherwise.
 */
module Booking {
  import opened JsText
  import opened Store
  import opened Availability

  /** The request body's fields; None is a field the body does not carry. */
  datatype BookingRequest = BookingRequest(
    clientName: Option<string>, clientPhone: Option<string>, clientEmail: Option<string>,
    serviceId: Option<string>, date: Option<string>, time: Option<string>, notes: Option<string>)

  /** The `appointment` object of the 201 reply. */
  datatype Confirmation = Confirmation(
    id: nat, clientName: string, clientPhone: string, serviceName: string,
    date: string, time: string, locationCountry: string)

  datatype BookingReply =
    | MissingFields                 // 400
    | SlotTaken                     // 409, another appointment holds the start
    | SlotBlocked                   // 409, the day or the start is blocked
    | StorageError                  // 500, the insert breaks the foreign key to services
    | Booked(confirmation: Confirmation)

  datatype Outcome = Outcome(reply: BookingReply, db: Db)

  /** Every required field passes `if (!field)`. */
  predicate Complete(req: BookingRequest) {
    Filled(req.clientName) && Filled(req.clientPhone) && Filled(req.serviceId)
    && Filled(req.date) && Filled(req.time)
  }

  /** `SELECT id FROM appointments WHERE appointment_date = ? AND appointment_time = ? AND status != ?`. */
  function ExistingAt(appointments: seq<Appointment>, date: string, time: string): (r: Option<Appointment>)
    ensures r.Some? <==> BookedAt(appointments, date, time)
  {
    var r := FirstWhere(appointments, (a: Appointment) => a.date == date && a.time == time && Holds(a));
    assert BookedAt(appointments, date, time) ==> r.Some? by {
      if BookedAt(appointments, date, time) {
        var i :| 0 <= i < |appointments| && appointments[i].date == date && Holds(appointments[i])
                 && appointments[i].time == time;
        assert appointments[i].date == date && appointments[i].time == time && Holds(appointments[i]);
      }
    }
    r
  }

  /** `SELECT id FROM blocked_times WHERE block_date = ? AND (all_day = 1 OR block_time = ?)`. */
  function BlockingAt(blocks: seq<Block>, date: string, time: string): (r: Option<Block>)
    ensures r.Some? <==> AllDayBlocked(blocks, date) || PointBlockedAt(blocks, date, time)
  {
    var p := (b: Block) => b.date == date && (b.allDay || b.time == Some(time));
    var r := FirstWhere(blocks, p);
    assert AllDayBlocked(blocks, date) || PointBlockedAt(blocks, date, time) ==> r.Some? by {
      if AllDayBlocked(blocks, date) || PointBlockedAt(blocks, date, time) {
        var i :| 0 <= i < |blocks| && blocks[i].date == date && (blocks[i].allDay || blocks[i].time == Some(time));
        assert p(blocks[i]);
      }
    }
    r
  }

  /** The country of the active travel window covering the date, `'BR'` when none does. */
  function LocationFor(windows: seq<Window>, date: string): (code: string)
    ensures ActiveWindowFor(windows, date).None? ==> code == HomeCountry
    ensures ActiveWindowFor(windows, date).Some? ==> code == ActiveWindowFor(windows, date).value.countryCode
  {
    match ActiveWindowFor(windows, date)
    case None => HomeCountry
    case Some(w) => w.countryCode
  }

  /** The row the insert writes: the next id, the default status, and null for an empty e-mail or note. */
  function NewAppointment(db: Db, req: BookingRequest): (a: Appointment)
    requires Complete(req)
    ensures a.id == db.nextAppointmentId && a.status == Confirmed && Holds(a)
    ensures a.date == req.date.value && a.time == req.time.value
    ensures a.clientName == req.clientName.value && a.clientPhone == req.clientPhone.value
    ensures a.serviceId == req.serviceId.value
    ensures a.clientEmail == OrNull(req.clientEmail) && a.notes == OrNull(req.notes)
    ensures a.locationCountry == LocationFor(db.windows, req.date.value)
  {
    Appointment(
      db.nextAppointmentId, req.clientName.value, req.clientPhone.value, OrNull(req.clientEmail),
      req.serviceId.value, req.date.value, req.time.value, LocationFor(db.windows, req.date.value),
      OrNull(req.notes), Confirmed)
  }

  /** The handler. Its validations run in the source's order; every refusal leaves the datastore as it was.
      The insert of a `service_id` that names no service violates the foreign key of the appointments
      table, which the SQLite binding enforces: the statement throws, nothing is written, and the
      handler answers 500. The `''` fallback for the service name therefore never reaches a reply. */
  function Book(db: Db, req: BookingRequest): (out: Outcome)
    ensures out.reply == MissingFields <==> !Complete(req)
    ensures out.reply == SlotTaken <==>
              Complete(req) && BookedAt(db.appointments, req.date.value, req.time.value)
    ensures out.reply == SlotBlocked <==>
              Complete(req) && !BookedAt(db.appointments, req.date.value, req.time.value)
              && (AllDayBlocked(db.blocks, req.date.value) || PointBlockedAt(db.blocks, req.date.value, req.time.value))
    ensures out.reply == StorageError <==>
              Complete(req) && !BookedAt(db.appointments, req.date.value, req.time.value)
              && !AllDayBlocked(db.blocks, req.date.value) && !PointBlockedAt(db.blocks, req.date.value, req.time.value)
              && FindService(db.services, req.serviceId.value).None?
    ensures !out.reply.Booked? ==> out.db == db
    ensures out.reply.Booked? ==>
              && out.db.appointments == db.appointments + [NewAppointment(db, req)]
              && out.db.nextAppointmentId == db.nextAppointmentId + 1
              && out.db.(appointments := db.appointments, nextAppointmentId := db.nextAppointmentId) == db
    ensures out.reply.Booked? ==>
              var c := out.reply.confirmation;
              && c.id == db.nextAppointmentId
              && c.clientName == req.clientName.value && c.clientPhone == req.clientPhone.value
              && c.date == req.date.value && c.time == req.time.value
              && c.locationCountry == LocationFor(db.windows, req.date.value)
              && FindService(db.services, req.serviceId.value).Some?
              && c.serviceName == FindService(db.services, req.serviceId.value).value.name
  {
    if !Complete(req) then Outcome(MissingFields, db)
    else
      var date, time := req.date.value, req.time.value;
      if ExistingAt(db.appointments, date, time).Some? then Outcome(SlotTaken, db)
      else if BlockingAt(db.blocks, date, time).Some? then Outcome(SlotBlocked, db)
      else if FindService(db.services, req.serviceId.value).None? then Outcome(StorageError, db)
      else
        var row := NewAppointment(db, req);
        var serviceName := FindService(db.services, req.serviceId.value).value.name;
        var db2 := db.(appointments := db.appointments + [row], nextAppointmentId := db.nextAppointmentId + 1);
        Outcome(Booked(Confirmation(row.id, row.clientName, row.clientPhone, serviceName, date, time, row.locationCountry)), db2)
  }

  // ---------- the datastore invariants ----------

  /** A booking never makes two appointments hold the same start. */
  lemma BookKeepsNoDoubleBooking(db: Db, req: BookingRequest)
    requires NoDoubleBooking(db.appointments)
    ensures NoDoubleBooking(Book(db, req).db.appointments)
  {
    var out := Book(db, req);
    if out.reply.Booked? {
      var a := NewAppointment(db, req);
      var rows := out.db.appointments;
      assert !BookedAt(db.appointments, a.date, a.time);
      forall i, j | 0 <= i < j < |rows| && Holds(rows[i]) && Holds(rows[j])
        ensures (rows[i].date, rows[i].time) != (rows[j].date, rows[j].time)
      {
        if j == |db.appointments| {
          assert rows[i] == db.appointments[i] && rows[j] == a;
        } else {
          assert rows[i] == db.appointments[i] && rows[j] == db.appointments[j];
        }
      }
    }
  }

  lemma BookKeepsWellFormed(db: Db, req: BookingRequest)
    requires WellFormed(db)
    ensures WellFormed(Book(db, req).db)
  {
    var out := Book(db, req);
    if out.reply.Booked? {
      AppendKeepsOrder(db.appointments, AppointmentId, db.nextAppointmentId, NewAppointment(db, req));
    }
  }

  /** A run of booking requests, each seeing the datastore the previous one left. */
  function BookAll(db: Db, reqs: seq<BookingRequest>): Db
    decreases |reqs|
  {
    if reqs == [] then db else BookAll(Book(db, reqs[0]).db, reqs[1..])
  }

  /** However the requests interleave, no start is ever held twice, and the tables stay in id order. */
  lemma {:induction false} BookAllKeepsInvariants(db: Db, reqs: seq<BookingRequest>)
    requires WellFormed(db) && NoDoubleBooking(db.appointments)
    ensures WellFormed(BookAll(db, reqs)) && NoDoubleBooking(BookAll(db, reqs).appointments)
    decreases |reqs|
  {
    if reqs != [] {
      BookKeepsWellFormed(db, reqs[0]);
      BookKeepsNoDoubleBooking(db, reqs[0]);
      BookAllKeepsInvariants(Book(db, reqs[0]).db, reqs[1..]);
    }
  }

  // ---------- bookings and the offered slots ----------

  /** A start the slots endpoint offers can be booked, with any name, phone and existing service. */
  lemma OfferedSlotIsBookable(db: Db, date: string, serviceKey: string, t: string, req: BookingRequest)
    requires AvailableSlots(db, date, serviceKey).Slots? && t in AvailableSlots(db, date, serviceKey).slots
    requires Filled(req.clientName) && Filled(req.clientPhone) && Filled(req.serviceId)
    requires FindService(db.services, req.serviceId.value).Some?
    requires req.date == Some(date) && req.time == Some(t)
    ensures Book(db, req).reply.Booked?
  {
    OfferedSlotIsFree(db, date, serviceKey, t);
    FreeSlotIsBookable(db, req);
  }

  /** Booking an offered start with a `service_id` that names no service fails on the foreign key,
      with the datastore unchanged (the slots endpoint itself offers 60-minute starts for such a key). */
  lemma UnknownServiceRefused(db: Db, date: string, serviceKey: string, t: string, req: BookingRequest)
    requires AvailableSlots(db, date, serviceKey).Slots? && t in AvailableSlots(db, date, serviceKey).slots
    requires Filled(req.clientName) && Filled(req.clientPhone) && Filled(req.serviceId)
    requires req.date == Some(date) && req.time == Some(t)
    requires FindService(db.services, req.serviceId.value).None?
    ensures Book(db, req).reply == StorageError && Book(db, req).db == db
  {
    OfferedSlotIsFree(db, date, serviceKey, t);
  }

  lemma OfferedSlotIsFree(db: Db, date: string, serviceKey: string, t: string)
    requires AvailableSlots(db, date, serviceKey).Slots? && t in AvailableSlots(db, date, serviceKey).slots
    ensures !AllDayBlocked(db.blocks, date) && Free(db, date, t)
  {
    var slots := AvailableSlots(db, date, serviceKey).slots;
    var i :| 0 <= i < |slots| && slots[i] == t;
  }

  /** A complete request for an existing service at a free start on a day without an all-day block is accepted. */
  lemma FreeSlotIsBookable(db: Db, req: BookingRequest)
    requires Complete(req) && FindService(db.services, req.serviceId.value).Some?
    requires !AllDayBlocked(db.blocks, req.date.value) && Free(db, req.date.value, req.time.value)
    ensures Book(db, req).reply.Booked?
  {
  }

  /** Once booked, a start is no longer offered on that date, and every other start keeps its status. */
  lemma BookedSlotWithdrawn(db: Db, req: BookingRequest, serviceKey: string)
    requires Book(db, req).reply.Booked?
    ensures var date, t, db2 := req.date.value, req.time.value, Book(db, req).db;
            && !Free(db2, date, t)
            && (forall u :: u != t ==> Free(db2, date, u) == Free(db, date, u))
            && (AvailableSlots(db2, date, serviceKey).Slots? ==> t !in AvailableSlots(db2, date, serviceKey).slots)
  {
    var date, t, db2 := req.date.value, req.time.value, Book(db, req).db;
    var a := NewAppointment(db, req);
    BookedAtAppend(db.appointments, a, date, t);
    forall u | u != t ensures Free(db2, date, u) == Free(db, date, u) {
      BookedAtAppend(db.appointments, a, date, u);
    }
  }
}
