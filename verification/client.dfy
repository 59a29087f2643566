/**
 The booking page's pure helpers: the phone-number mask applied on every keystroke, month
 navigation in the calendar, the two date renderings, the travel-window lookup that flags a
 calendar day, and the guards and step indicators of the three-step booking wizard.
 */
module Client {
  import opened JsText
  import opened Calendar
  import opened Store

  // ---------- phone mask ----------

  /** `value.replace(/\D/g, '')`. */
  function KeepDigits(s: string): (d: string)
    ensures AllDigits(d) && |d| <= |s|
    decreases |s|
  {
    if s == [] then [] else (if IsDigit(s[0]) then [s[0]] else []) + KeepDigits(s[1..])
  }

  /** One character is kept exactly when it is a digit; with KeepDigitsConcat this pins the filter down. */
  lemma KeepDigitsOne(c: char)
    ensures KeepDigits([c]) == if IsDigit(c) then [c] else []
  {
  }

  /** The filter works piecewise: the digits of a concatenation are the digits of each part. */
  lemma {:induction false} KeepDigitsConcat(a: string, b: string)
    ensures KeepDigits(a + b) == KeepDigits(a) + KeepDigits(b)
    decreases |a|
  {
    if a == [] {
      assert a + b == b;
    } else {
      assert (a + b)[0] == a[0] && (a + b)[1..] == a[1..] + b;
      KeepDigitsConcat(a[1..], b);
      var h := if IsDigit(a[0]) then [a[0]] else [];
      assert KeepDigits(a + b) == h + KeepDigits(a[1..] + b);
      assert KeepDigits(a) == h + KeepDigits(a[1..]);
    }
  }

  lemma {:induction false} KeepDigitsOfDigits(s: string)
    requires AllDigits(s)
    ensures KeepDigits(s) == s
    decreases |s|
  {
    if s != [] {
      KeepDigitsOfDigits(s[1..]);
      assert [s[0]] + s[1..] == s;
    }
  }

  /** The phone input's value after a keystroke: up to 11 digits are shown as `(AA) NNNNN-NNNN`
      as far as they go; more than 11 digits are left bare. */
  function PhoneMask(value: string): (r: string)
    ensures var d := KeepDigits(value);
            && (|d| > 11 ==> r == d)
            && (7 <= |d| <= 11 ==> r == "(" + d[..2] + ") " + d[2..7] + "-" + d[7..])
            && (3 <= |d| <= 6 ==> r == "(" + d[..2] + ") " + d[2..])
            && (1 <= |d| <= 2 ==> r == "(" + d)
            && (|d| == 0 ==> r == "")
  {
    var d := KeepDigits(value);
    if |d| <= 11 then
      if |d| > 6 then "(" + d[..2] + ") " + d[2..7] + "-" + d[7..]
      else if |d| > 2 then "(" + d[..2] + ") " + d[2..]
      else if |d| > 0 then "(" + d
      else d
    else d
  }

  /** The mask adds only punctuation: its digits are the typed digits, in order. */
  lemma PhoneMaskKeepsDigits(value: string)
    ensures KeepDigits(PhoneMask(value)) == KeepDigits(value)
  {
    var d := KeepDigits(value);
    if |d| <= 11 && |d| > 6 {
      FullMaskDigits(d[..2], d[2..7], d[7..]);
      assert d[..2] + d[2..7] + d[7..] == d;
    } else if |d| <= 11 && |d| > 2 {
      AreaMaskDigits(d[..2], d[2..]);
      assert d[..2] + d[2..] == d;
    } else if |d| <= 11 && |d| > 0 {
      OpenMaskDigits(d);
    } else {
      KeepDigitsOfDigits(d);
    }
  }

  lemma PunctuationHasNoDigits()
    ensures KeepDigits("(") == [] && KeepDigits(") ") == [] && KeepDigits("-") == []
  {
  }

  lemma FullMaskDigits(a: string, b: string, c: string)
    requires AllDigits(a) && AllDigits(b) && AllDigits(c)
    ensures KeepDigits("(" + a + ") " + b + "-" + c) == a + b + c
  {
    AreaMaskDigits(a, b);
    var x, y := "(" + a + ") " + b, "-";
    PunctuationHasNoDigits();
    KeepDigitsConcat(x, y);
    assert KeepDigits(x + y) == (a + b) + [];
    assert (a + b) + [] == a + b;
    KeepDigitsOfDigits(c);
    KeepDigitsConcat(x + y, c);
  }

  lemma AreaMaskDigits(a: string, b: string)
    requires AllDigits(a) && AllDigits(b)
    ensures KeepDigits("(" + a + ") " + b) == a + b
  {
    var x, y := "(" + a, ") ";
    OpenMaskDigits(a);
    PunctuationHasNoDigits();
    KeepDigitsConcat(x, y);
    assert KeepDigits(x + y) == a + [];
    assert a + [] == a;
    KeepDigitsOfDigits(b);
    KeepDigitsConcat(x + y, b);
  }

  lemma OpenMaskDigits(a: string)
    requires AllDigits(a)
    ensures KeepDigits("(" + a) == a
  {
    PunctuationHasNoDigits();
    KeepDigitsOfDigits(a);
    KeepDigitsConcat("(", a);
  }

  /** Re-running the mask on its own output (the next input event) changes nothing. */
  lemma PhoneMaskIdempotent(value: string)
    ensures PhoneMask(PhoneMask(value)) == PhoneMask(value)
  {
    PhoneMaskKeepsDigits(value);
  }

  // ---------- month navigation ----------

  /** The calendar's slice of the page state; `month` is 0-based as `getMonth()` returns it. */
  datatype CalendarState = CalendarState(month: int, year: int, selectedDate: Option<string>, selectedTime: Option<string>)

  /** `changeMonth(dir)`: the month moves by dir, wrapping into the neighbouring year, and the
      selected date and time are cleared. The wrap sets the month to 0 or 11 rather than reducing
      it, so it is a month step only for the -1 and +1 the arrows pass. */
  function ChangeMonth(st: CalendarState, dir: int): (r: CalendarState)
    ensures r.selectedDate.None? && r.selectedTime.None?
    ensures 0 <= st.month <= 11 && (dir == 1 || dir == -1) ==>
              0 <= r.month <= 11 && r.year * 12 + r.month == st.year * 12 + st.month + dir
  {
    var m := st.month + dir;
    if m > 11 then CalendarState(0, st.year + 1, None, None)
    else if m < 0 then CalendarState(11, st.year - 1, None, None)
    else CalendarState(m, st.year, None, None)
  }

  /** Forward then back returns to the same month. */
  lemma ChangeMonthInverse(st: CalendarState)
    requires 0 <= st.month <= 11
    ensures var back := ChangeMonth(ChangeMonth(st, 1), -1);
            back.month == st.month && back.year == st.year
    ensures var fwd := ChangeMonth(ChangeMonth(st, -1), 1);
            fwd.month == st.month && fwd.year == st.year
  {
  }

  // ---------- date renderings ----------

  /** The i-th piece of a split, or the text `undefined` a missing piece interpolates as. */
  function Piece(parts: seq<string>, i: nat): string {
    if i < |parts| then parts[i] else "undefined"
  }

  /** `formatDateBR`: `YYYY-MM-DD` to `DD/MM/YYYY` by splitting on '-'. */
  function FormatDateBR(s: string): (r: string)
    ensures IsoShaped(s) ==> r == s[8..] + "/" + s[5..7] + "/" + s[..4]
  {
    var parts := Split(s, '-');
    IsoSplitWhenShaped(s);
    Piece(parts, 2) + "/" + Piece(parts, 1) + "/" + Piece(parts, 0)
  }

  lemma IsoSplitWhenShaped(s: string)
    ensures IsoShaped(s) ==> Split(s, '-') == [s[..4], s[5..7], s[8..]]
  {
    if IsoShaped(s) {
      IsoSplit(s);
    }
  }

  /** An ISO date splits into its year, month and day. */
  lemma IsoSplit(s: string)
    requires IsoShaped(s)
    ensures Split(s, '-') == [s[..4], s[5..7], s[8..]]
  {
    var y, m, d := s[..4], s[5..7], s[8..];
    assert forall i :: 0 <= i < |y| ==> IsDigit(y[i]);
    assert '-' !in y && '-' !in m && '-' !in d;
    assert s == y + ['-'] + (m + ['-'] + d);
    SplitCons(y, '-', m + ['-'] + d);
    SplitCons(m, '-', d);
    SplitNoSeparator(d, '-');
  }

  /** The decimal text of a four-digit year is four characters. */
  lemma DecimalLength(n: nat)
    ensures n < 10 ==> |Decimal(n)| == 1
    ensures 10 <= n < 100 ==> |Decimal(n)| == 2
    ensures 100 <= n < 1000 ==> |Decimal(n)| == 3
    ensures 1000 <= n < 10000 ==> |Decimal(n)| == 4
    decreases n
  {
    if n >= 10 {
      DecimalLength(n / 10);
    }
  }

  /** Four digits, '-', two digits, '-', two digits read back as a date. */
  lemma IsoFromPieces(y: string, m: string, d: string)
    requires |y| == 4 && |m| == 2 && |d| == 2 && AllDigits(y) && AllDigits(m) && AllDigits(d)
    ensures var r := y + "-" + m + "-" + d;
            IsoShaped(r) && r[..4] == y && r[5..7] == m && r[8..] == d
  {
    var r := y + "-" + m + "-" + d;
    assert r[..4] == y && r[5..7] == m && r[8..] == d;
  }

  lemma IsoParsesBack(y: string, m: string, d: string)
    requires |y| == 4 && |m| == 2 && |d| == 2 && AllDigits(y) && AllDigits(m) && AllDigits(d)
    requires 1 <= ValueOf(m) <= 12 && 1 <= ValueOf(d) <= 31
    ensures ParseIsoDate(y + "-" + m + "-" + d) == Some(Date(ValueOf(y), ValueOf(m), ValueOf(d)))
  {
    IsoFromPieces(y, m, d);
    DigitsBound(y);
  }

  /** Four decimal digits stay below 10000. */
  lemma DigitsBound(y: string)
    requires |y| == 4 && AllDigits(y)
    ensures ValueOf(y) <= 9999
  {
    var a := y[..3];
    var b := a[..2];
    var c := b[..1];
    assert c[..0] == [];
    assert ValueOf(c) <= 9;
    assert ValueOf(b) <= 99;
    assert ValueOf(a) <= 999;
  }

  /** `formatDateISO` on a calendar cell's date: the year's decimal digits, then the 1-based month
      and the day, each zero-padded to two digits. */
  function FormatDateISO(year: nat, monthIndex: int, day: int): (r: string)
    requires 0 <= monthIndex <= 11 && 1 <= day <= 31
    ensures 1000 <= year <= 9999 ==> IsoShaped(r) && ParseIsoDate(r) == Some(Date(year, monthIndex + 1, day))
  {
    var y, m, d := Decimal(year), PadTwo(Decimal(monthIndex + 1)), PadTwo(Decimal(day));
    if 1000 <= year <= 9999 then
      DecimalLength(year);
      PadTwoValue(monthIndex + 1);
      PadTwoValue(day);
      IsoFromPieces(y, m, d);
      IsoParsesBack(y, m, d);
      y + "-" + m + "-" + d
    else
      y + "-" + m + "-" + d
  }

  /** Formatting a calendar date as ISO and then for display gives `DD/MM/YYYY`. */
  lemma IsoThenBR(year: nat, monthIndex: int, day: int)
    requires 1000 <= year <= 9999 && 0 <= monthIndex <= 11 && 1 <= day <= 31
    ensures FormatDateBR(FormatDateISO(year, monthIndex, day))
         == PadTwo(Decimal(day)) + "/" + PadTwo(Decimal(monthIndex + 1)) + "/" + Decimal(year)
  {
    var y, m, d := Decimal(year), PadTwo(Decimal(monthIndex + 1)), PadTwo(Decimal(day));
    DecimalLength(year);
    PadTwoValue(monthIndex + 1);
    PadTwoValue(day);
    assert FormatDateISO(year, monthIndex, day) == y + "-" + m + "-" + d;
    PiecesToBR(y, m, d);
  }

  /** Four, two and two digits joined with '-' are shown as day, month and year joined with '/'. */
  lemma PiecesToBR(y: string, m: string, d: string)
    requires |y| == 4 && |m| == 2 && |d| == 2 && AllDigits(y) && AllDigits(m) && AllDigits(d)
    ensures FormatDateBR(y + "-" + m + "-" + d) == d + "/" + m + "/" + y
  {
    IsoFromPieces(y, m, d);
  }

  // ---------- the travel flag on a calendar day ----------

  /** `internationalDates.find(d => dateStr >= d.start_date && dateStr <= d.end_date)`. */
  function CalendarWindow(windows: seq<Window>, date: string): (r: Option<Window>)
    ensures r.None? <==> forall i :: 0 <= i < |windows| ==> !Covers(windows[i], date)
    ensures r.Some? ==> exists i :: 0 <= i < |windows| && windows[i] == r.value && Covers(r.value, date)
                          && forall j :: 0 <= j < i ==> !Covers(windows[j], date)
  {
    FirstWhere(windows, (w: Window) => Covers(w, date))
  }

  /** The page receives only active windows, and over those the calendar flags a day with the same
      window the server locates a booking in, when both see the windows in the same order. */
  lemma CalendarAgreesWithServer(windows: seq<Window>, date: string)
    requires forall i :: 0 <= i < |windows| ==> windows[i].active
    ensures CalendarWindow(windows, date) == ActiveWindowFor(windows, date)
    decreases |windows|
  {
    if windows != [] {
      CalendarAgreesWithServer(windows[1..], date);
    }
  }

  // ---------- the booking wizard ----------

  /** A step indicator: its `data-step` number and its two classes. */
  datatype StepMark = StepMark(number: int, active: bool, completed: bool)

  datatype Wizard = Wizard(
    panel: int, marks: seq<StepMark>,
    selectedService: Option<string>, selectedDate: Option<string>, selectedTime: Option<string>)

  datatype StepOutcome = Refused(reason: string) | Moved(wizard: Wizard)

  /** Each indicator is active exactly on the target step and completed exactly below it. */
  function MarkSteps(marks: seq<StepMark>, step: int): (r: seq<StepMark>)
    ensures |r| == |marks|
    ensures forall i :: 0 <= i < |r| ==> r[i].number == marks[i].number
    ensures forall i :: 0 <= i < |r| ==> (r[i].active <==> marks[i].number == step)
    ensures forall i :: 0 <= i < |r| ==> (r[i].completed <==> marks[i].number < step)
  {
    seq(|marks|, i requires 0 <= i < |marks| => StepMark(marks[i].number, marks[i].number == step, marks[i].number < step))
  }

  /** `bookingNextStep(step)`, with `serviceChoice` the service select's current value: step 2 needs
      a service, step 3 a date and a time; a refusal shows a toast and changes nothing. */
  function NextStep(w: Wizard, step: int, serviceChoice: string): (out: StepOutcome)
    ensures out.Refused? <==> (step == 2 && serviceChoice == "")
                              || (step == 3 && (!Filled(w.selectedDate) || !Filled(w.selectedTime)))
    ensures out.Moved? ==>
              && out.wizard.panel == step
              && out.wizard.marks == MarkSteps(w.marks, step)
              && out.wizard.selectedDate == w.selectedDate && out.wizard.selectedTime == w.selectedTime
              && out.wizard.selectedService == (if step == 2 then Some(serviceChoice) else w.selectedService)
  {
    if step == 2 && serviceChoice == "" then Refused("Selecione um serviço")
    else
      var w2 := if step == 2 then w.(selectedService := Some(serviceChoice)) else w;
      if step == 3 && (!Filled(w2.selectedDate) || !Filled(w2.selectedTime)) then Refused("Selecione uma data e horário")
      else Moved(w2.(panel := step, marks := MarkSteps(w2.marks, step)))
  }

  /** With distinct step numbers, at most one indicator is active after a move, and the summary
      panel is reached only with a date and a time chosen. */
  lemma NextStepMarksOneStep(w: Wizard, step: int, serviceChoice: string)
    requires forall i, j :: 0 <= i < j < |w.marks| ==> w.marks[i].number != w.marks[j].number
    requires NextStep(w, step, serviceChoice).Moved?
    ensures var m := NextStep(w, step, serviceChoice).wizard.marks;
            forall i, j :: 0 <= i < |m| && 0 <= j < |m| && m[i].active && m[j].active ==> i == j
    ensures step == 3 ==> Filled(NextStep(w, step, serviceChoice).wizard.selectedDate)
                          && Filled(NextStep(w, step, serviceChoice).wizard.selectedTime)
  {
  }

  /** Moving to the same step twice is the same as moving once. */
  lemma NextStepIdempotent(w: Wizard, step: int, serviceChoice: string)
    requires NextStep(w, step, serviceChoice).Moved?
    ensures NextStep(NextStep(w, step, serviceChoice).wizard, step, serviceChoice) == NextStep(w, step, serviceChoice)
  {
  }
}
