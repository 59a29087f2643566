/**
 The fragment of JavaScript (and SQLite) value semantics the booking engine relies on:
 truthiness of request fields, `Number()` on decimal text, `toString()` and
 `padStart(2, '0')` on small naturals, `split` on one character, and the ordering
 both runtimes use for text.
 */
module JsText {

  datatype Option<T> = None | Some(value: T)

  /** A request-body value, for the fields whose truthiness or undefinedness a handler tests. */
  datatype JsValue = Undefined | Null | Bool(b: bool) | Num(n: int) | Str(s: string)

  /** JavaScript's `!!v` (NaN is not modelled). */
  predicate Truthy(v: JsValue) {
    match v
    case Undefined => false
    case Null => false
    case Bool(b) => b
    case Num(n) => n != 0
    case Str(s) => s != ""
  }

  /** An optional text field passes `if (!field)`: present, not null and not empty. */
  predicate Filled(t: Option<string>) {
    t.Some? && t.value != ""
  }

  /** `field || null` for an optional text field. */
  function OrNull(t: Option<string>): (r: Option<string>)
    ensures r.Some? <==> Filled(t)
    ensures r.Some? ==> t == r
  {
    if Filled(t) then t else None
  }

  // ---------- first match, filter and count over sequences ----------

  /** `.find(p)`, and `.get()` of a query over rows kept in id order. */
  function FirstWhere<T(==)>(s: seq<T>, p: T -> bool): (r: Option<T>)
    ensures r.None? <==> forall i :: 0 <= i < |s| ==> !p(s[i])
    ensures r.Some? ==> exists i :: 0 <= i < |s| && s[i] == r.value && p(s[i])
                                    && forall j :: 0 <= j < i ==> !p(s[j])
  {
    if s == [] then None
    else if p(s[0]) then Some(s[0])
    else
      var r := FirstWhere(s[1..], p);
      if r.Some? then
        var i :| 0 <= i < |s[1..]| && s[1..][i] == r.value && p(s[1..][i])
                 && forall j :: 0 <= j < i ==> !p(s[1..][j]);
        assert s[i + 1] == r.value;
        assert forall j :: 0 <= j < i + 1 ==> !p(s[j]) by {
          forall j | 0 <= j < i + 1 ensures !p(s[j]) {
            if j > 0 { assert s[j] == s[1..][j - 1]; }
          }
        }
        r
      else
        r
  }

  /** A row appended at the end is found only when no earlier row matches. */
  lemma {:induction false} FirstWhereAppend<T>(s: seq<T>, x: T, p: T -> bool)
    ensures FirstWhere(s + [x], p) == if FirstWhere(s, p).Some? then FirstWhere(s, p) else if p(x) then Some(x) else None
    decreases |s|
  {
    if s == [] {
      assert [x][1..] == [];
    } else {
      assert (s + [x])[0] == s[0];
      assert (s + [x])[1..] == s[1..] + [x];
      FirstWhereAppend(s[1..], x, p);
    }
  }

  /** `.filter(p)`, and the rows a `WHERE` clause selects, in their original order. */
  function Where<T(==)>(s: seq<T>, p: T -> bool): (r: seq<T>)
    ensures |r| <= |s|
    ensures forall i :: 0 <= i < |r| ==> r[i] in s && p(r[i])
    ensures forall i :: 0 <= i < |s| && p(s[i]) ==> s[i] in r
    ensures IsSubsequence(r, s)
  {
    if s == [] then []
    else if p(s[0]) then [s[0]] + Where(s[1..], p)
    else Where(s[1..], p)
  }

  /** `SELECT COUNT(*) ... WHERE p`: one for each row the predicate accepts. */
  function CountWhere<T>(s: seq<T>, p: T -> bool): (n: nat)
    ensures n <= |s|
    ensures n == 0 <==> forall i :: 0 <= i < |s| ==> !p(s[i])
    ensures n == |s| <==> forall i :: 0 <= i < |s| ==> p(s[i])
  {
    if s == [] then 0
    else
      var rest := CountWhere(s[1..], p);
      assert forall i :: 1 <= i < |s| ==> s[i] == s[1..][i - 1];
      (if p(s[0]) then 1 else 0) + rest
  }

  /** The count and the filter agree: `COUNT(*)` counts exactly the rows the same WHERE selects. */
  lemma {:induction false} CountIsWhere<T>(s: seq<T>, p: T -> bool)
    ensures CountWhere(s, p) == |Where(s, p)|
    decreases |s|
  {
    if s != [] {
      CountIsWhere(s[1..], p);
    }
  }

  /** r is s with some elements dropped and the rest kept in order. */
  ghost predicate IsSubsequence<T>(r: seq<T>, s: seq<T>)
    decreases |s|
  {
    if r == [] then true
    else if s == [] then false
    else if r[0] == s[0] then IsSubsequence(r[1..], s[1..])
    else IsSubsequence(r, s[1..])
  }

  lemma {:induction false} WhereAppend<T>(s: seq<T>, x: T, p: T -> bool)
    ensures Where(s + [x], p) == Where(s, p) + (if p(x) then [x] else [])
    decreases |s|
  {
    if s == [] {
      assert [x][1..] == [];
    } else {
      assert (s + [x])[0] == s[0];
      assert (s + [x])[1..] == s[1..] + [x];
      WhereAppend(s[1..], x, p);
    }
  }

  /** The present values of f over s, in order: what an inner join keeps of a table. */
  function Collect<T, U>(s: seq<T>, f: T -> Option<U>): (r: seq<U>)
    ensures |r| <= |s|
    ensures (forall i :: 0 <= i < |s| ==> f(s[i]).Some?) ==> |r| == |s|
    decreases |s|
  {
    if s == [] then []
    else (if f(s[0]).Some? then [f(s[0]).value] else []) + Collect(s[1..], f)
  }

  /** Every collected value is the value of some element. */
  lemma {:induction false} CollectSound<T, U>(s: seq<T>, f: T -> Option<U>, j: int)
    requires 0 <= j < |Collect(s, f)|
    ensures exists k :: 0 <= k < |s| && f(s[k]) == Some(Collect(s, f)[j])
    decreases |s|
  {
    var r, rest := Collect(s, f), Collect(s[1..], f);
    if f(s[0]).Some? && j == 0 {
      assert f(s[0]) == Some(r[0]);
    } else {
      var j' := if f(s[0]).Some? then j - 1 else j;
      assert r[j] == rest[j'];
      CollectSound(s[1..], f, j');
      var k :| 0 <= k < |s[1..]| && f(s[1..][k]) == Some(rest[j']);
      assert s[1..][k] == s[k + 1];
    }
  }

  /** Every element with a value has it collected. */
  lemma {:induction false} CollectComplete<T, U>(s: seq<T>, f: T -> Option<U>, i: int)
    requires 0 <= i < |s| && f(s[i]).Some?
    ensures f(s[i]).value in Collect(s, f)
    decreases |s|
  {
    var r, rest := Collect(s, f), Collect(s[1..], f);
    if i > 0 {
      assert s[1..][i - 1] == s[i];
      CollectComplete(s[1..], f, i - 1);
      assert f(s[i]).value in rest;
    }
  }

  /** Every earlier element stands in relation rel to every later one. */
  predicate Pairwise<T>(s: seq<T>, rel: (T, T) -> bool) {
    forall i, j :: 0 <= i < j < |s| ==> rel(s[i], s[j])
  }

  /** Dropping elements keeps a pairwise relation. */
  lemma {:induction false} WherePairwise<T>(s: seq<T>, p: T -> bool, rel: (T, T) -> bool)
    requires Pairwise(s, rel)
    ensures Pairwise(Where(s, p), rel)
    decreases |s|
  {
    if s != [] {
      var tail := s[1..];
      assert Pairwise(tail, rel) by {
        forall i, j | 0 <= i < j < |tail| ensures rel(tail[i], tail[j]) {
          assert tail[i] == s[i + 1] && tail[j] == s[j + 1];
        }
      }
      WherePairwise(tail, p, rel);
      if p(s[0]) {
        var rest := Where(tail, p);
        var r := [s[0]] + rest;
        assert r == Where(s, p);
        forall k | 0 <= k < |rest| ensures rel(s[0], rest[k]) {
          var j :| 0 <= j < |tail| && tail[j] == rest[k];
          assert s[j + 1] == tail[j];
        }
        forall a, b | 0 <= a < b < |r| ensures rel(r[a], r[b]) {
          if a == 0 {
            assert r[b] == rest[b - 1];
          } else {
            assert r[a] == rest[a - 1] && r[b] == rest[b - 1];
          }
        }
      }
    }
  }

  /** Two conditions that agree on every element select the same rows. */
  lemma {:induction false} WhereCongruent<T>(s: seq<T>, p: T -> bool, q: T -> bool)
    requires forall i :: 0 <= i < |s| ==> p(s[i]) == q(s[i])
    ensures Where(s, p) == Where(s, q)
    decreases |s|
  {
    if s != [] {
      assert forall i :: 0 <= i < |s[1..]| ==> s[1..][i] == s[i + 1];
      WhereCongruent(s[1..], p, q);
    }
  }

  /** Filtering by a stronger condition never selects more rows. */
  lemma {:induction false} WhereMonotone<T>(s: seq<T>, p: T -> bool, q: T -> bool)
    requires forall x :: p(x) ==> q(x)
    ensures |Where(s, p)| <= |Where(s, q)|
    decreases |s|
  {
    if s != [] {
      WhereMonotone(s[1..], p, q);
    }
  }

  // ---------- digits, Number() and toString() ----------

  predicate IsDigit(c: char) {
    '0' <= c <= '9'
  }

  predicate AllDigits(s: string) {
    forall i :: 0 <= i < |s| ==> IsDigit(s[i])
  }

  function DigitValue(c: char): (d: nat)
    requires IsDigit(c)
    ensures d < 10
  {
    (c as int) - ('0' as int)
  }

  function DigitChar(d: nat): (c: char)
    requires d < 10
    ensures IsDigit(c) && DigitValue(c) == d
  {
    (('0' as int) + d) as char
  }

  /** The value of a string of decimal digits; the empty string has value 0, as `Number('')` does. */
  function ValueOf(s: string): nat
    requires AllDigits(s)
    decreases |s|
  {
    if s == [] then 0 else 10 * ValueOf(s[..|s| - 1]) + DigitValue(s[|s| - 1])
  }

  /** `Number(s)` on text: the decimal value of an all-digit string, None standing for NaN. */
  function ToNumber(s: string): (r: Option<nat>)
    ensures r.Some? <==> AllDigits(s)
  {
    if AllDigits(s) then Some(ValueOf(s)) else None
  }

  /** `n.toString()` for a natural number: its shortest decimal digits. */
  function Decimal(n: nat): (r: string)
    ensures 1 <= |r| && AllDigits(r)
    ensures ValueOf(r) == n
    ensures n < 10 ==> r == [DigitChar(n)]
    decreases n
  {
    if n < 10 then [DigitChar(n)]
    else
      var r := Decimal(n / 10) + [DigitChar(n % 10)];
      assert r[..|r| - 1] == Decimal(n / 10);
      r
  }

  lemma DecimalTwoDigits(n: nat)
    requires 10 <= n < 100
    ensures Decimal(n) == [DigitChar(n / 10), DigitChar(n % 10)]
  {
  }

  /** `s.padStart(2, '0')`: left-pads to length two, never truncates. */
  function PadTwo(s: string): (r: string)
    ensures |r| == if |s| >= 2 then |s| else 2
    ensures r[|r| - |s|..] == s
  {
    if |s| == 0 then "00" else if |s| == 1 then "0" + s else s
  }

  lemma {:induction false} LeadingZero(s: string)
    requires AllDigits(s)
    ensures AllDigits("0" + s) && ValueOf("0" + s) == ValueOf(s)
    decreases |s|
  {
    var t := "0" + s;
    if s != [] {
      assert t[..|t| - 1] == "0" + s[..|s| - 1];
      LeadingZero(s[..|s| - 1]);
    }
  }

  /** Padding the digits of n with zeros still reads back as n. */
  lemma PadTwoValue(n: nat)
    ensures AllDigits(PadTwo(Decimal(n))) && ValueOf(PadTwo(Decimal(n))) == n
  {
    var d := Decimal(n);
    if |d| == 1 {
      LeadingZero(d);
    }
  }

  /** The two characters of a zero-padded number below 100. */
  lemma PadTwoShape(n: nat)
    requires n < 100
    ensures PadTwo(Decimal(n)) == [DigitChar(n / 10), DigitChar(n % 10)]
  {
    if n >= 10 {
      DecimalTwoDigits(n);
    }
  }

  // ---------- split on one character ----------

  /** `s.split(sep)` with a one-character separator: the pieces between occurrences of sep. */
  function Split(s: string, sep: char): (parts: seq<string>)
    ensures |parts| >= 1
    ensures forall i :: 0 <= i < |parts| ==> sep !in parts[i]
    decreases |s|
  {
    if s == [] then [""]
    else
      var rest := Split(s[1..], sep);
      if s[0] == sep then [""] + rest
      else [[s[0]] + rest[0]] + rest[1..]
  }

  /** `parts.join(sep)`. */
  function Join(parts: seq<string>, sep: char): string
    requires |parts| >= 1
    decreases |parts|
  {
    if |parts| == 1 then parts[0] else parts[0] + [sep] + Join(parts[1..], sep)
  }

  /** Splitting loses nothing: joining the pieces back gives the original text. */
  lemma {:induction false} JoinSplit(s: string, sep: char)
    ensures Join(Split(s, sep), sep) == s
    decreases |s|
  {
    if s != [] {
      JoinSplit(s[1..], sep);
      var rest := Split(s[1..], sep);
      if s[0] != sep {
        if |rest| == 1 {
        } else {
          assert ([[s[0]] + rest[0]] + rest[1..])[1..] == rest[1..];
          assert rest == [rest[0]] + rest[1..];
        }
      }
    }
  }

  lemma {:induction false} SplitNoSeparator(s: string, sep: char)
    requires sep !in s
    ensures Split(s, sep) == [s]
    decreases |s|
  {
    if s != [] {
      assert s[0] != sep;
      SplitNoSeparator(s[1..], sep);
      assert [s[0]] + s[1..] == s;
    }
  }

  /** A leading piece free of the separator is cut off at the first separator. */
  lemma {:induction false} SplitCons(a: string, sep: char, b: string)
    requires sep !in a
    ensures Split(a + [sep] + b, sep) == [a] + Split(b, sep)
    decreases |a|
  {
    var s := a + [sep] + b;
    if a == [] {
      assert s[1..] == b;
    } else {
      assert s[1..] == a[1..] + [sep] + b;
      SplitCons(a[1..], sep, b);
      assert [a[0]] + a[1..] == a;
    }
  }

  // ---------- text order ----------

  /** The order JavaScript's `<=` and SQLite's binary collation give text: the first differing
      character decides, and a proper prefix comes first. */
  predicate LexLe(a: string, b: string)
    decreases |a|
  {
    if a == [] then true
    else if b == [] then false
    else if a[0] != b[0] then a[0] < b[0]
    else LexLe(a[1..], b[1..])
  }

  predicate LexLt(a: string, b: string) {
    LexLe(a, b) && a != b
  }

  lemma {:induction false} LexLeReflexive(a: string)
    ensures LexLe(a, a)
    decreases |a|
  {
    if a != [] {
      LexLeReflexive(a[1..]);
    }
  }

  lemma {:induction false} LexLeTotal(a: string, b: string)
    ensures LexLe(a, b) || LexLe(b, a)
    decreases |a|
  {
    if a != [] && b != [] && a[0] == b[0] {
      LexLeTotal(a[1..], b[1..]);
    }
  }

  lemma {:induction false} LexLeAntisymmetric(a: string, b: string)
    requires LexLe(a, b) && LexLe(b, a)
    ensures a == b
    decreases |a|
  {
    if a != [] && b != [] {
      LexLeAntisymmetric(a[1..], b[1..]);
      assert a == [a[0]] + a[1..] && b == [b[0]] + b[1..];
    }
  }

  lemma {:induction false} LexLeTransitive(a: string, b: string, c: string)
    requires LexLe(a, b) && LexLe(b, c)
    ensures LexLe(a, c)
    decreases |a|
  {
    if a != [] && b != [] && c != [] && a[0] == b[0] && b[0] == c[0] {
      LexLeTransitive(a[1..], b[1..], c[1..]);
    }
  }
}
