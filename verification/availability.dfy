/**
 `GET /available-slots?date=…&service_id=…`: the day's working hours, cut into starts
 every 30 minutes that leave room for the service, minus the starts that an existing
 appointment or a point block names exactly. Obstruction is equality of `HH:MM` text,
 not overlap of intervals: a 90-minute appointment at 10:00 leaves 10:30 on offer.
 */
module Availability {
  import opened JsText
  import opened Clock
  import opened Calendar
  import opened Store

  const Step := 30
  const DefaultDuration := 60

  datatype SlotsReply =
    | DateRequired                                       // 400, no `date` query parameter
    | NoHours                                            // no active working-hours row for the weekday
    | DayBlocked                                         // an all-day block on the date
    | Slots(slots: seq<string>, international: Option<Window>)

  /** The service's duration, or 60 minutes when no `service_id` is given or no service has that id. */
  function ServiceDuration(services: seq<Service>, key: string): (d: int)
    ensures key == "" || FindService(services, key).None? ==> d == DefaultDuration
    ensures key != "" && FindService(services, key).Some? ==> d == FindService(services, key).value.duration
  {
    if key == "" then DefaultDuration
    else match FindService(services, key)
      case None => DefaultDuration
      case Some(s) => s.duration
  }

  /** Candidate start minutes: from `start`, every 30 minutes, while `m + duration <= end`. */
  function Starts(start: nat, end: int, duration: int): (ms: seq<nat>)
    ensures forall i :: 0 <= i < |ms| ==> ms[i] == start + Step * i
    ensures forall i :: 0 <= i < |ms| ==> ms[i] + duration <= end
    ensures start + Step * |ms| + duration > end
    decreases end - duration - start
  {
    if start + duration > end then [] else [start] + Starts(start + Step, end, duration)
  }

  /** Every start on the 30-minute grid that leaves room for the service is generated,
      and none is when the service is longer than the window. */
  lemma StartsComplete(start: nat, end: int, duration: int, m: int)
    requires start <= m && (m - start) % Step == 0 && m + duration <= end
    ensures m in Starts(start, end, duration)
  {
    var ms := Starts(start, end, duration);
    var k := (m - start) / Step;
    assert m == start + Step * k;
    assert k < |ms|;
    assert ms[k] == m;
  }

  lemma StartsEmpty(start: nat, end: int, duration: int)
    ensures Starts(start, end, duration) == [] <==> duration > end - start
  {
  }

  /** The labels of the candidate starts, in order. */
  function SlotLabels(start: nat, end: int, duration: int): (labels: seq<string>)
    ensures |labels| == |Starts(start, end, duration)|
    ensures forall i :: 0 <= i < |labels| ==> labels[i] == FormatTime(Starts(start, end, duration)[i])
  {
    var ms := Starts(start, end, duration);
    seq(|ms|, i requires 0 <= i < |ms| => FormatTime(ms[i]))
  }

  /** The number of grid starts is fixed by where the first misfit falls. */
  lemma {:induction false} StartsLength(start: nat, end: int, duration: int, n: nat)
    requires start + Step * n + duration > end
    requires n == 0 || start + Step * (n - 1) + duration <= end
    ensures |Starts(start, end, duration)| == n
    decreases n
  {
    if n > 0 {
      StartsLength(start + Step, end, duration, n - 1);
    }
  }

  /** The slot loop as the handler writes it: walk the grid from `start` while the service
      still fits, collecting each start, then render every collected start as `HH:MM`. */
  method GenerateSlots(start: nat, end: int, duration: int) returns (slots: seq<string>)
    ensures slots == SlotLabels(start, end, duration)
  {
    var ms: seq<nat> := [];
    var m: nat := start;
    while m + duration <= end
      invariant m == start + Step * |ms|
      invariant |ms| == 0 || m - Step + duration <= end
      invariant forall i :: 0 <= i < |ms| ==> ms[i] == start + Step * i
      decreases end - duration - m
    {
      ms, m := ms + [m], m + Step;
    }
    StartsLength(start, end, duration, |ms|);
    assert ms == Starts(start, end, duration);
    slots := seq(|ms|, i requires 0 <= i < |ms| => FormatTime(ms[i]));
  }

  /** The day's candidate labels from a working-hours row; an unreadable start or end time
      (NaN in the source) makes the loop test false at once. */
  function DaySlots(wh: WorkingHours, duration: int): (r: seq<string>)
    ensures ParseTime(wh.startTime).None? || ParseTime(wh.endTime).None? ==> r == []
    ensures ParseTime(wh.startTime).Some? && ParseTime(wh.endTime).Some? ==>
              OnGrid(r, ParseTime(wh.startTime).value, ParseTime(wh.endTime).value, duration)
    ensures ParseTime(wh.startTime).Some? && ParseTime(wh.endTime).Some? ==>
              ParseTime(wh.startTime).value + Step * |r| + duration > ParseTime(wh.endTime).value
    ensures ParseTime(wh.startTime).Some? && ParseTime(wh.endTime).Some? ==>
              Rendered(r, ParseTime(wh.startTime).value)
  {
    var s, e := ParseTime(wh.startTime), ParseTime(wh.endTime);
    if s.None? || e.None? then []
    else
      LabelsReadBack(s.value, e.value, duration);
      LabelsRendered(s.value, e.value, duration);
      SlotLabels(s.value, e.value, duration)
  }

  /** The i-th label is the i-th grid start after `start`, rendered as `HH:MM`. */
  predicate Rendered(labels: seq<string>, start: nat) {
    forall i :: 0 <= i < |labels| ==> labels[i] == FormatTime(start + Step * i)
  }

  lemma LabelsRendered(start: nat, end: int, duration: int)
    ensures Rendered(SlotLabels(start, end, duration), start)
  {
    var labels, ms := SlotLabels(start, end, duration), Starts(start, end, duration);
    RenderedFromStarts(labels, ms, start);
  }

  /** Labels rendered from the grid starts are the rendered grid. */
  lemma RenderedFromStarts(labels: seq<string>, ms: seq<nat>, start: nat)
    requires |labels| == |ms|
    requires forall i :: 0 <= i < |ms| ==> labels[i] == FormatTime(ms[i])
    requires forall i :: 0 <= i < |ms| ==> ms[i] == start + Step * i
    ensures Rendered(labels, start)
  {
    forall i | 0 <= i < |labels|
      ensures labels[i] == FormatTime(start + Step * i)
    {
      assert ms[i] == start + Step * i;
    }
  }

  /** The i-th label reads back as the i-th grid start after `start`, and the service fits before `end`. */
  predicate OnGrid(labels: seq<string>, start: nat, end: int, duration: int) {
    forall i :: 0 <= i < |labels| ==> ParseTime(labels[i]) == Some(start + Step * i) && start + Step * i + duration <= end
  }

  /** Every generated label reads back as its grid start, and that start leaves room for the service. */
  lemma LabelsReadBack(start: nat, end: int, duration: int)
    ensures OnGrid(SlotLabels(start, end, duration), start, end, duration)
  {
    var labels, ms := SlotLabels(start, end, duration), Starts(start, end, duration);
    ParseFormatAll(labels, ms);
    StartsOnGrid(labels, ms, start, end, duration);
  }

  /** Labels that read back as the grid starts, each leaving room for the service, are on the grid. */
  lemma StartsOnGrid(labels: seq<string>, ms: seq<nat>, start: nat, end: int, duration: int)
    requires |labels| == |ms|
    requires forall i :: 0 <= i < |ms| ==> ParseTime(labels[i]) == Some(ms[i])
    requires forall i :: 0 <= i < |ms| ==> ms[i] == start + Step * i
    requires forall i :: 0 <= i < |ms| ==> ms[i] + duration <= end
    ensures OnGrid(labels, start, end, duration)
  {
    forall i | 0 <= i < |labels|
      ensures ParseTime(labels[i]) == Some(start + Step * i) && start + Step * i + duration <= end
    {
      assert ms[i] == start + Step * i;
    }
  }

  /** The working-hours row for the date's weekday, if the date parses and a row is active. */
  function OpeningHours(db: Db, date: string): (r: Option<WorkingHours>)
    ensures r.None? <==>
              ParseIsoDate(date).None?
              || forall i :: 0 <= i < |db.hours| ==>
                   !(db.hours[i].dayOfWeek == Weekday(ParseIsoDate(date).value) && db.hours[i].active)
    ensures r.Some? ==> ParseIsoDate(date).Some? && r.value.active && r.value in db.hours
                        && r.value.dayOfWeek == Weekday(ParseIsoDate(date).value)
    ensures r.Some? ==>
              exists i :: 0 <= i < |db.hours| && db.hours[i] == r.value
                          && forall j :: 0 <= j < i ==>
                               !(db.hours[j].dayOfWeek == Weekday(ParseIsoDate(date).value) && db.hours[j].active)
  {
    match ParseIsoDate(date)
    case None => None
    case Some(d) => HoursFor(db.hours, Weekday(d))
  }

  /** Some appointment that holds its slot starts at `time` on `date`. */
  predicate BookedAt(appointments: seq<Appointment>, date: string, time: string) {
    exists i :: 0 <= i < |appointments| && appointments[i].date == date && Holds(appointments[i])
                && appointments[i].time == time
  }

  /** An appended appointment holds exactly the start it names, if it holds one. */
  lemma BookedAtAppend(appointments: seq<Appointment>, a: Appointment, date: string, time: string)
    ensures BookedAt(appointments + [a], date, time)
        <==> BookedAt(appointments, date, time) || (a.date == date && Holds(a) && a.time == time)
  {
    var rows := appointments + [a];
    if BookedAt(rows, date, time) && !(a.date == date && Holds(a) && a.time == time) {
      var i :| 0 <= i < |rows| && rows[i].date == date && Holds(rows[i]) && rows[i].time == time;
      assert i < |appointments| && rows[i] == appointments[i];
    }
    if BookedAt(appointments, date, time) {
      var i :| 0 <= i < |appointments| && appointments[i].date == date && Holds(appointments[i])
               && appointments[i].time == time;
      assert rows[i] == appointments[i];
    }
    if a.date == date && Holds(a) && a.time == time {
      assert rows[|appointments|] == a;
    }
  }

  /** Some block on `date` names `time`. */
  predicate PointBlockedAt(blocks: seq<Block>, date: string, time: string) {
    exists i :: 0 <= i < |blocks| && blocks[i].date == date && blocks[i].time == Some(time)
  }

  predicate AllDayBlocked(blocks: seq<Block>, date: string) {
    exists i :: 0 <= i < |blocks| && blocks[i].date == date && blocks[i].allDay
  }

  /** `appointment_time` of the date's appointments whose status is not 'cancelled'. */
  function BookedTimes(appointments: seq<Appointment>, date: string): (times: seq<string>)
    ensures forall t :: t in times <==> BookedAt(appointments, date, t)
  {
    var rows := Where(appointments, (a: Appointment) => a.date == date && Holds(a));
    var times := seq(|rows|, i requires 0 <= i < |rows| => rows[i].time);
    assert forall t :: t in times ==> BookedAt(appointments, date, t) by {
      forall t | t in times ensures BookedAt(appointments, date, t) {
        var i :| 0 <= i < |rows| && rows[i].time == t;
        assert rows[i] in appointments;
      }
    }
    assert forall t :: BookedAt(appointments, date, t) ==> t in times by {
      forall t | BookedAt(appointments, date, t) ensures t in times {
        var i :| 0 <= i < |appointments| && appointments[i].date == date && Holds(appointments[i])
                 && appointments[i].time == t;
        var j :| 0 <= j < |rows| && rows[j] == appointments[i];
        assert times[j] == t;
      }
    }
    times
  }

  /** `block_time` of the date's blocks, null included. */
  function BlockTimes(blocks: seq<Block>, date: string): (times: seq<Option<string>>)
    ensures forall t :: Some(t) in times <==> PointBlockedAt(blocks, date, t)
  {
    var rows := BlocksOn(blocks, date);
    var times := seq(|rows|, i requires 0 <= i < |rows| => rows[i].time);
    assert forall t :: Some(t) in times ==> PointBlockedAt(blocks, date, t) by {
      forall t | Some(t) in times ensures PointBlockedAt(blocks, date, t) {
        var i :| 0 <= i < |rows| && rows[i].time == Some(t);
        assert rows[i] in blocks;
      }
    }
    assert forall t :: PointBlockedAt(blocks, date, t) ==> Some(t) in times by {
      forall t | PointBlockedAt(blocks, date, t) ensures Some(t) in times {
        var i :| 0 <= i < |blocks| && blocks[i].date == date && blocks[i].time == Some(t);
        var j :| 0 <= j < |rows| && rows[j] == blocks[i];
        assert times[j] == Some(t);
      }
    }
    times
  }

  /** `slots.filter(s => !bookedTimes.includes(s) && !blockedTimesList.includes(s))`. */
  function Unobstructed(slots: seq<string>, booked: seq<string>, blocked: seq<Option<string>>): (r: seq<string>)
    ensures forall i :: 0 <= i < |r| ==> r[i] in slots && r[i] !in booked && Some(r[i]) !in blocked
    ensures forall i :: 0 <= i < |slots| && slots[i] !in booked && Some(slots[i]) !in blocked ==> slots[i] in r
    ensures IsSubsequence(r, slots)
  {
    Where(slots, NotListed(booked, blocked))
  }

  function NotListed(booked: seq<string>, blocked: seq<Option<string>>): string -> bool {
    (s: string) => s !in booked && Some(s) !in blocked
  }

  /** The handler. Its checks run in the source's order: the date, the working hours, then the all-day block. */
  function AvailableSlots(db: Db, date: string, serviceKey: string): (reply: SlotsReply)
    ensures reply == DateRequired <==> date == ""
    ensures reply == NoHours <==> date != "" && OpeningHours(db, date).None?
    ensures reply == DayBlocked <==> date != "" && OpeningHours(db, date).Some? && AllDayBlocked(db.blocks, date)
    ensures reply.Slots? ==>
      var day := DaySlots(OpeningHours(db, date).value, ServiceDuration(db.services, serviceKey));
      && IsSubsequence(reply.slots, day)
      && (forall i :: 0 <= i < |reply.slots| ==>
            reply.slots[i] in day && !BookedAt(db.appointments, date, reply.slots[i])
            && !PointBlockedAt(db.blocks, date, reply.slots[i]))
      && (forall i :: (0 <= i < |day| && !BookedAt(db.appointments, date, day[i])
                       && !PointBlockedAt(db.blocks, date, day[i])) ==> day[i] in reply.slots)
      && reply.international == ActiveWindowFor(db.windows, date)
  {
    if date == "" then DateRequired
    else
      match OpeningHours(db, date)
      case None => NoHours
      case Some(wh) =>
        if AllDayBlocked(db.blocks, date) then DayBlocked
        else
          var day := DaySlots(wh, ServiceDuration(db.services, serviceKey));
          var booked, blocked := BookedTimes(db.appointments, date), BlockTimes(db.blocks, date);
          var slots := Unobstructed(day, booked, blocked);
          UnobstructedAreFree(db, date, day);
          Slots(slots, ActiveWindowFor(db.windows, date))
  }

  /** Filtering by the two lists keeps exactly the labels no held appointment and no point block names. */
  lemma UnobstructedAreFree(db: Db, date: string, day: seq<string>)
    ensures var r := Unobstructed(day, BookedTimes(db.appointments, date), BlockTimes(db.blocks, date));
            && IsSubsequence(r, day)
            && (forall i :: 0 <= i < |r| ==>
                  r[i] in day && !BookedAt(db.appointments, date, r[i]) && !PointBlockedAt(db.blocks, date, r[i]))
            && (forall i :: (0 <= i < |day| && !BookedAt(db.appointments, date, day[i])
                             && !PointBlockedAt(db.blocks, date, day[i])) ==> day[i] in r)
  {
    var booked, blocked := BookedTimes(db.appointments, date), BlockTimes(db.blocks, date);
    var r := Unobstructed(day, booked, blocked);
    forall i | 0 <= i < |r|
      ensures !BookedAt(db.appointments, date, r[i]) && !PointBlockedAt(db.blocks, date, r[i])
    {
      assert r[i] !in booked && Some(r[i]) !in blocked;
    }
  }

  // ---------- what the reply depends on ----------

  /** No appointment holding its slot and no point block names `time` on `date`. */
  predicate Free(db: Db, date: string, time: string) {
    !BookedAt(db.appointments, date, time) && !PointBlockedAt(db.blocks, date, time)
  }

  function FreeOn(db: Db, date: string): string -> bool {
    (t: string) => Free(db, date, t)
  }

  /** The offered slots are exactly the day's candidate labels that are free, in order. */
  lemma SlotsAreFreeLabels(db: Db, date: string, serviceKey: string)
    requires AvailableSlots(db, date, serviceKey).Slots?
    ensures AvailableSlots(db, date, serviceKey).slots
         == Where(DaySlots(OpeningHours(db, date).value, ServiceDuration(db.services, serviceKey)), FreeOn(db, date))
  {
    var day := DaySlots(OpeningHours(db, date).value, ServiceDuration(db.services, serviceKey));
    var booked, blocked := BookedTimes(db.appointments, date), BlockTimes(db.blocks, date);
    WhereCongruent(day, NotListed(booked, blocked), FreeOn(db, date));
  }

  /** The reply reads the appointments and blocks of the date only through which labels are free
      and whether the day is blocked: two datastores that agree there get the same reply. */
  lemma SameObstructionsSameReply(db1: Db, db2: Db, date: string, serviceKey: string)
    requires db1.hours == db2.hours && db1.services == db2.services && db1.windows == db2.windows
    requires AllDayBlocked(db1.blocks, date) == AllDayBlocked(db2.blocks, date)
    requires forall t :: Free(db1, date, t) == Free(db2, date, t)
    ensures AvailableSlots(db1, date, serviceKey) == AvailableSlots(db2, date, serviceKey)
  {
    var r1, r2 := AvailableSlots(db1, date, serviceKey), AvailableSlots(db2, date, serviceKey);
    assert OpeningHours(db1, date) == OpeningHours(db2, date);
    if r1.Slots? {
      SlotsAreFreeLabels(db1, date, serviceKey);
      SlotsAreFreeLabels(db2, date, serviceKey);
      var day := DaySlots(OpeningHours(db1, date).value, ServiceDuration(db1.services, serviceKey));
      WhereCongruent(day, FreeOn(db1, date), FreeOn(db2, date));
    }
  }

  /** A cancelled appointment frees its slot: adding one changes no reply. */
  lemma CancelledAppointmentIgnored(db: Db, a: Appointment, date: string, serviceKey: string)
    requires !Holds(a)
    ensures AvailableSlots(db.(appointments := db.appointments + [a]), date, serviceKey)
         == AvailableSlots(db, date, serviceKey)
  {
    var db2 := db.(appointments := db.appointments + [a]);
    forall t ensures Free(db2, date, t) == Free(db, date, t) {
      BookedAtAppend(db.appointments, a, date, t);
    }
    SameObstructionsSameReply(db2, db, date, serviceKey);
  }

  /** A block row with neither a time nor the all-day flag obstructs nothing. */
  lemma TimelessBlockIgnored(db: Db, b: Block, date: string, serviceKey: string)
    requires b.time.None? && !b.allDay
    ensures AvailableSlots(db.(blocks := db.blocks + [b]), date, serviceKey)
         == AvailableSlots(db, date, serviceKey)
  {
    var db2 := db.(blocks := db.blocks + [b]);
    assert forall i :: 0 <= i < |db.blocks| ==> db2.blocks[i] == db.blocks[i];
    assert AllDayBlocked(db2.blocks, date) == AllDayBlocked(db.blocks, date) by {
      if AllDayBlocked(db2.blocks, date) {
        var i :| 0 <= i < |db2.blocks| && db2.blocks[i].date == date && db2.blocks[i].allDay;
        assert i < |db.blocks|;
      }
    }
    forall t ensures Free(db2, date, t) == Free(db, date, t) {
      if PointBlockedAt(db2.blocks, date, t) {
        var i :| 0 <= i < |db2.blocks| && db2.blocks[i].date == date && db2.blocks[i].time == Some(t);
        assert i < |db.blocks|;
      }
    }
    SameObstructionsSameReply(db2, db, date, serviceKey);
  }

  // ---------- obstruction is by label, not by interval ----------

  /** Monday 2026-05-04, open 09:00 to 12:00, a 90-minute service (id 4) and one confirmed
      appointment at 10:00. The 10:00 start is withdrawn; the 10:30 start stays on offer although
      it falls inside the booked session, since only equal start labels obstruct. */
  lemma LabelMatchNotOverlap(db: Db, date: string, serviceKey: string)
    requires db == ExampleDay() && date == "2026-05-04" && serviceKey == "4"
    ensures var reply := AvailableSlots(db, date, serviceKey);
            && reply.Slots?
            && "10:30" in reply.slots
            && "10:00" !in reply.slots
  {
    ExampleOpening();
    ExampleDuration();
    ExampleLabels();
    ExampleObstructions(db, date);
    OfferedAndWithdrawn(db, date, serviceKey, db.hours[0], "10:30", "10:00");
  }

  /** Only the 10:00 label is named by an appointment of the example day. */
  lemma ExampleObstructions(db: Db, date: string)
    requires db == ExampleDay() && date == "2026-05-04"
    ensures !AllDayBlocked(db.blocks, date) && Free(db, date, "10:30")
    ensures BookedAt(db.appointments, date, "10:00")
  {
    assert db.appointments[0].time == "10:00";
  }

  /** On an open, unblocked day a free candidate label is offered and a booked one is not. */
  lemma OfferedAndWithdrawn(db: Db, date: string, serviceKey: string, wh: WorkingHours, free: string, taken: string)
    requires date != "" && OpeningHours(db, date) == Some(wh) && !AllDayBlocked(db.blocks, date)
    requires free in DaySlots(wh, ServiceDuration(db.services, serviceKey)) && Free(db, date, free)
    requires BookedAt(db.appointments, date, taken)
    ensures AvailableSlots(db, date, serviceKey).Slots?
    ensures free in AvailableSlots(db, date, serviceKey).slots
    ensures taken !in AvailableSlots(db, date, serviceKey).slots
  {
    var day := DaySlots(wh, ServiceDuration(db.services, serviceKey));
    var i :| 0 <= i < |day| && day[i] == free;
  }

  lemma ExampleOpening()
    ensures OpeningHours(ExampleDay(), "2026-05-04") == Some(ExampleDay().hours[0])
  {
    var date := "2026-05-04";
    assert date[..4] == "2026" && date[5..7] == "05" && date[8..] == "04";
    ExampleDigits();
    assert ParseIsoDate(date) == Some(Date(2026, 5, 4));
    KnownWeekdays();
  }

  lemma ExampleDigits()
    ensures ValueOf("2026") == 2026 && ValueOf("05") == 5 && ValueOf("04") == 4
  {
    assert "2026"[..3] == "202" && "202"[..2] == "20" && "20"[..1] == "2";
    assert ValueOf("2") == 2;
    assert ValueOf("20") == 20;
    assert ValueOf("202") == 202;
    assert ValueOf("05"[..1]) == 0 && ValueOf("04"[..1]) == 0;
  }

  lemma ExampleDuration()
    ensures ServiceDuration(ExampleDay().services, "4") == 90
  {
    assert KeyMatches("4", 4);
  }

  lemma ExampleHours(wh: WorkingHours)
    requires wh == ExampleDay().hours[0]
    ensures ParseTime(wh.startTime) == Some(540) && ParseTime(wh.endTime) == Some(720)
  {
    assert DigitChar(0) == '0' && DigitChar(9) == '9' && DigitChar(1) == '1' && DigitChar(2) == '2';
    ParseShapedLabel(wh.startTime, 9, 0);
    ParseShapedLabel(wh.endTime, 12, 0);
  }

  lemma ExampleLabels()
    ensures "10:30" in DaySlots(ExampleDay().hours[0], 90)
  {
    ExampleHours(ExampleDay().hours[0]);
    assert DaySlots(ExampleDay().hours[0], 90) == SlotLabels(540, 720, 90);
    ExampleGrid();
  }

  /** From 09:00 to 12:00 a 90-minute service has four starts, the last at 10:30. */
  lemma ExampleGrid()
    ensures |SlotLabels(540, 720, 90)| == 4 && SlotLabels(540, 720, 90)[3] == "10:30"
  {
    ExampleStarts();
    ExampleLabel(Starts(540, 720, 90)[3]);
  }

  lemma ExampleStarts()
    ensures |Starts(540, 720, 90)| == 4 && Starts(540, 720, 90)[3] == 630
  {
    StartsLength(540, 720, 90, 4);
  }

  /** Minute 630 renders as `10:30`; stated of a variable so that the solver does not evaluate
      the rendering of the literal. */
  lemma ExampleLabel(m: nat)
    requires m == 630
    ensures FormatTime(m) == "10:30"
  {
    var h, min := m / 60, m % 60;
    assert h == 10 && min == 30;
    PadTwoShape(h);
    PadTwoShape(min);
    ColonJoin(PadTwo(Decimal(h)), PadTwo(Decimal(min)));
  }

  function ExampleDay(): Db {
    Db(
      services := [Service(4, "Consulta", None, 90, true, 1)],
      hours := [WorkingHours(1, 1, "09:00", "12:00", true)],
      appointments := [Appointment(1, "Ana", "11999990000", None, "4", "2026-05-04", "10:00", HomeCountry, None, Confirmed)],
      blocks := [], windows := [],
      nextServiceId := 5, nextAppointmentId := 2, nextBlockId := 1, nextWindowId := 1)
  }
}
