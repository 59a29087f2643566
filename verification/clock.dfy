/**
 Times of day as the booking engine handles them: minutes since midnight internally,
 `HH:MM` text at every boundary (working-hours rows, slot labels, appointment times).
 */
module Clock {
  import opened JsText

  /** The slot label for minute m: zero-padded hours, a colon, zero-padded minutes.
      Hours are not reduced modulo 24 and are not truncated past two digits. */
  function FormatTime(m: nat): (r: string)
    ensures LabelShaped(r)
  {
    Label(m / 60, m % 60)
  }

  /** `HH:MM` for h hours and min minutes. */
  function Label(h: nat, min: nat): (r: string)
    requires min < 60
    ensures LabelShaped(r)
  {
    PadTwoShape(min);
    JoinLabel(PadTwo(Decimal(h)), PadTwo(Decimal(min)))
  }

  /** At least five characters, with the colon third from the end. */
  predicate LabelShaped(r: string) {
    |r| >= 5 && r[|r| - 3] == ':'
  }

  /** Hours text, a colon, and two characters of minutes. */
  function JoinLabel(hh: string, mm: string): (r: string)
    requires |hh| >= 2 && |mm| == 2
    ensures LabelShaped(r)
    ensures |r| == |hh| + 3 && r[..|hh|] == hh && r[|hh|] == ':' && r[|hh| + 1..] == mm
  {
    hh + ":" + mm
  }

  /** Minute of the day at h hours and min minutes. */
  function Minutes(h: nat, min: nat): nat {
    h * 60 + min
  }

  /** `const [h, min] = t.split(':').map(Number); h * 60 + min`, with None for NaN:
      a missing second piece or a piece that is not all digits. */
  function ParseTime(t: string): (r: Option<nat>)
    ensures r.Some? ==> |Split(t, ':')| >= 2
    ensures ':' !in t ==> r.None?
  {
    var parts := Split(t, ':');
    NoColonOnePiece(t);
    if |parts| < 2 || !AllDigits(parts[0]) || !AllDigits(parts[1]) then None
    else Some(Minutes(ValueOf(parts[0]), ValueOf(parts[1])))
  }

  lemma NoColonOnePiece(t: string)
    ensures ':' !in t ==> |Split(t, ':')| == 1
  {
    if ':' !in t {
      SplitNoSeparator(t, ':');
    }
  }

  lemma DigitsHaveNoColon(s: string)
    requires AllDigits(s)
    ensures ':' !in s
  {
  }

  /** Two digit runs around one colon parse as hours and minutes. */
  lemma ParseDigitPair(hh: string, mm: string)
    requires AllDigits(hh) && AllDigits(mm)
    ensures ParseTime(hh + ":" + mm) == Some(Minutes(ValueOf(hh), ValueOf(mm)))
  {
    DigitsHaveNoColon(hh);
    DigitsHaveNoColon(mm);
    var t := hh + ":" + mm;
    assert t == hh + [':'] + mm;
    SplitCons(hh, ':', mm);
    SplitNoSeparator(mm, ':');
    var parts := Split(t, ':');
    assert parts == [hh, mm];
    assert |parts| == 2 && parts[0] == hh && parts[1] == mm;
    assert AllDigits(parts[0]) && AllDigits(parts[1]);
  }

  /** Reading a label back gives its minute: `split(':')` then `h * 60 + min` undoes FormatTime. */
  lemma ParseFormat(m: nat)
    ensures ParseTime(FormatTime(m)) == Some(m)
  {
    var h, min := m / 60, m % 60;
    ParseLabel(h, min);
    assert Minutes(h, min) == m;
  }

  /** Labels rendered from a list of starts read back as those starts, one by one. */
  lemma ParseFormatAll(labels: seq<string>, ms: seq<nat>)
    requires |labels| == |ms| && forall i :: 0 <= i < |ms| ==> labels[i] == FormatTime(ms[i])
    ensures forall i :: 0 <= i < |ms| ==> ParseTime(labels[i]) == Some(ms[i])
  {
    forall i | 0 <= i < |ms|
      ensures ParseTime(labels[i]) == Some(ms[i])
    {
      ParseFormat(ms[i]);
    }
  }

  lemma ParseLabel(h: nat, min: nat)
    requires min < 60
    ensures ParseTime(Label(h, min)) == Some(Minutes(h, min))
  {
    PadTwoValue(h);
    PadTwoValue(min);
    ParseDigitPair(PadTwo(Decimal(h)), PadTwo(Decimal(min)));
  }

  /** Two minutes share a label only if they are the same minute. */
  lemma FormatInjective(a: nat, b: nat)
    requires FormatTime(a) == FormatTime(b)
    ensures a == b
  {
    ParseFormat(a);
    ParseFormat(b);
  }

  lemma LabelShape(h: nat, min: nat)
    requires h < 100 && min < 60
    ensures Label(h, min) == [DigitChar(h / 10), DigitChar(h % 10), ':', DigitChar(min / 10), DigitChar(min % 10)]
  {
    PadTwoShape(h);
    PadTwoShape(min);
    ColonJoin(PadTwo(Decimal(h)), PadTwo(Decimal(min)));
  }

  /** A five-character label of two-digit hours and minutes reads back as its minute. */
  lemma ParseShapedLabel(t: string, h: nat, min: nat)
    requires h < 100 && min < 60
    requires t == [DigitChar(h / 10), DigitChar(h % 10), ':', DigitChar(min / 10), DigitChar(min % 10)]
    ensures ParseTime(t) == Some(Minutes(h, min))
  {
    LabelShape(h, min);
    ParseLabel(h, min);
  }

  /** Below 100 hours the label is exactly five characters: two hour digits, ':', two minute digits. */
  lemma FormatShape(m: nat)
    requires m < 6000
    ensures var h, min := m / 60, m % 60;
            FormatTime(m) == [DigitChar(h / 10), DigitChar(h % 10), ':', DigitChar(min / 10), DigitChar(min % 10)]
  {
    var h, min := m / 60, m % 60;
    assert h < 100;
    LabelShape(h, min);
  }

  lemma ColonJoin(a: string, b: string)
    requires |a| == 2 && |b| == 2
    ensures a + ":" + b == [a[0], a[1], ':', b[0], b[1]]
  {
  }
}
