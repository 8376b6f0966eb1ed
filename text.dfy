/** Text handling shared by the printer driver and the correction engine:
    an Option type, substring search, whitespace stripping as Python's
    str.strip() does it, ASCII lower-casing, digit strings, and decimal
    numbers with their textual rendering. */
module Text {

  datatype Option<T> = None | Some(value: T)

  /** The first present value in ms at or after `from`. */
  function FirstSome<T>(ms: seq<Option<T>>, from: nat): (r: Option<T>)
    requires from <= |ms|
    ensures r.None? <==> forall i :: from <= i < |ms| ==> ms[i].None?
    ensures r.Some? ==> exists i :: from <= i < |ms| && ms[i] == r && forall j :: from <= j < i ==> ms[j].None?
    decreases |ms| - from
  {
    if from == |ms| then None
    else if ms[from].Some? then ms[from]
    else FirstSome(ms, from + 1)
  }

  /** The first present value is the one at p when none precedes it. */
  lemma FirstSomeAt<T>(ms: seq<Option<T>>, from: nat, p: nat)
    requires from <= p < |ms| && ms[p].Some?
    requires forall j :: from <= j < p ==> ms[j].None?
    ensures FirstSome(ms, from) == ms[p]
  {
  }

  // ---------------------------------------------------------------------
  // Characters

  predicate IsDigit(c: char) { '0' <= c <= '9' }

  function DigitValue(c: char): (d: nat)
    requires IsDigit(c)
    ensures d < 10
  {
    c as int - '0' as int
  }

  function DigitChar(d: nat): (c: char)
    requires d < 10
    ensures IsDigit(c) && DigitValue(c) == d
  {
    ('0' as int + d) as char
  }

  /** The characters Python treats as whitespace, both in str.strip() and
      in the regular-expression class \s. */
  predicate IsSpace(c: char) {
    || c == ' '
    || '\t' <= c <= '\r'                       // \t \n \v \f \r
    || '\U{1c}' <= c <= '\U{1f}'               // file, group, record, unit separators
    || c == '\U{85}' || c == '\U{a0}' || c == '\U{1680}'
    || '\U{2000}' <= c <= '\U{200a}'
    || c == '\U{2028}' || c == '\U{2029}' || c == '\U{202f}'
    || c == '\U{205f}' || c == '\U{3000}'
  }

  function LowerChar(c: char): char {
    if 'A' <= c <= 'Z' then (c as int + 32) as char else c
  }

  /** ASCII lower-casing. */
  function Lower(s: string): string {
    seq(|s|, i requires 0 <= i < |s| => LowerChar(s[i]))
  }

  /** Every occurrence of `from` replaced by `to`, as str.replace does for
      single characters. */
  function ReplaceChar(s: string, from: char, to: char): string {
    seq(|s|, i requires 0 <= i < |s| => if s[i] == from then to else s[i])
  }

  // ---------------------------------------------------------------------
  // Substrings and stripping

  predicate OccursAt(s: string, p: string, i: nat) {
    i + |p| <= |s| && s[i..i + |p|] == p
  }

  /** Python's `p in s` for strings: a search for p from position 0. */
  predicate Contains(s: string, p: string) {
    ContainsFrom(s, p, 0)
  }

  /** p occurs in s at position i or later. */
  predicate ContainsFrom(s: string, p: string, i: nat)
    decreases |s| - i
  {
    i + |p| <= |s| && (OccursAt(s, p, i) || ContainsFrom(s, p, i + 1))
  }

  lemma {:induction false} ContainsFromSpec(s: string, p: string, i: nat)
    ensures ContainsFrom(s, p, i) <==> exists j: nat :: i <= j && OccursAt(s, p, j)
    decreases |s| - i
  {
    if i + |p| <= |s| {
      ContainsFromSpec(s, p, i + 1);
      if exists j: nat :: i <= j && OccursAt(s, p, j) {
        var j: nat :| i <= j && OccursAt(s, p, j);
        if j > i {
          assert i + 1 <= j;
        }
      }
    }
  }

  /** The search finds p exactly when p occurs somewhere in s. */
  lemma ContainsSpec(s: string, p: string)
    ensures Contains(s, p) <==> exists j: nat :: OccursAt(s, p, j)
  {
    ContainsFromSpec(s, p, 0);
  }

  function StripLeft(s: string): string
    decreases |s|
  {
    if s != [] && IsSpace(s[0]) then StripLeft(s[1..]) else s
  }

  function StripRight(s: string): string
    decreases |s|
  {
    if s != [] && IsSpace(s[|s| - 1]) then StripRight(s[..|s| - 1]) else s
  }

  /** StripLeft removes the longest whitespace prefix. */
  lemma {:induction false} StripLeftSpec(s: string)
    ensures var r := StripLeft(s);
      && |r| <= |s| && r == s[|s| - |r|..]
      && (forall j :: 0 <= j < |s| - |r| ==> IsSpace(s[j]))
      && (r != [] ==> !IsSpace(r[0]))
    decreases |s|
  {
    if s != [] && IsSpace(s[0]) {
      StripLeftSpec(s[1..]);
    }
  }

  /** StripRight removes the longest whitespace suffix. */
  lemma {:induction false} StripRightSpec(s: string)
    ensures var r := StripRight(s);
      && |r| <= |s| && r == s[..|r|]
      && (forall j :: |r| <= j < |s| ==> IsSpace(s[j]))
      && (r != [] ==> !IsSpace(r[|r| - 1]))
    decreases |s|
  {
    if s != [] && IsSpace(s[|s| - 1]) {
      StripRightSpec(s[..|s| - 1]);
    }
  }

  /** str.strip(): leading and trailing whitespace removed. */
  function Strip(s: string): string {
    StripRight(StripLeft(s))
  }

  /** A line strips to nothing exactly when all of it is whitespace. */
  lemma StripEmpty(s: string)
    ensures Strip(s) == [] <==> forall j :: 0 <= j < |s| ==> IsSpace(s[j])
  {
    var l := StripLeft(s);
    StripLeftSpec(s);
    StripRightSpec(l);
    if Strip(s) == [] {
      assert l == [];
    }
  }

  // ---------------------------------------------------------------------
  // Digit strings

  predicate AllDigits(ds: string) {
    forall k :: 0 <= k < |ds| ==> IsDigit(ds[k])
  }

  /** int() of a string of decimal digits. */
  function DigitsValue(ds: string): nat
    requires AllDigits(ds)
    decreases |ds|
  {
    if ds == [] then 0 else DigitsValue(ds[..|ds| - 1]) * 10 + DigitValue(ds[|ds| - 1])
  }

  function Pow10(n: nat): (r: nat)
    ensures r >= 1
  {
    if n == 0 then 1 else 10 * Pow10(n - 1)
  }

  lemma {:induction false} DigitsValueAppend(a: string, b: string)
    requires AllDigits(a) && AllDigits(b)
    ensures AllDigits(a + b)
    ensures DigitsValue(a + b) == DigitsValue(a) * Pow10(|b|) + DigitsValue(b)
    decreases |b|
  {
    assert AllDigits(a + b) by {
      forall k | 0 <= k < |a + b| ensures IsDigit((a + b)[k]) {
        if k < |a| { assert (a + b)[k] == a[k]; } else { assert (a + b)[k] == b[k - |a|]; }
      }
    }
    if b == [] {
      assert a + b == a;
    } else {
      var b' := b[..|b| - 1];
      assert (a + b)[..|a + b| - 1] == a + b';
      assert (a + b)[|a + b| - 1] == b[|b| - 1];
      DigitsValueAppend(a, b');
      assert DigitsValue(a + b) == DigitsValue(a + b') * 10 + DigitValue(b[|b| - 1]);
      assert DigitsValue(b) == DigitsValue(b') * 10 + DigitValue(b[|b| - 1]);
      assert Pow10(|b|) == Pow10(|b'|) * 10;
      ShiftDigit(DigitsValue(a), Pow10(|b'|), DigitsValue(b'), DigitValue(b[|b| - 1]));
    }
  }

  lemma ShiftDigit(x: int, p: int, y: int, c: int)
    ensures (x * p + y) * 10 + c == x * (p * 10) + (y * 10 + c)
  {
  }

  /** The decimal digits of n, without leading zeros (str(n)). */
  function NatText(n: nat): (r: string)
    ensures |r| >= 1 && AllDigits(r)
    decreases n
  {
    if n < 10 then [DigitChar(n)] else NatText(n / 10) + [DigitChar(n % 10)]
  }

  lemma {:induction false} NatTextValue(n: nat)
    ensures DigitsValue(NatText(n)) == n
    decreases n
  {
    if n >= 10 {
      NatTextValue(n / 10);
      DigitsValueAppend(NatText(n / 10), [DigitChar(n % 10)]);
    }
  }

  /** Left-pads with '0' up to the given width. */
  function ZeroPad(t: string, width: nat): (r: string)
    requires AllDigits(t)
    ensures AllDigits(r)
    ensures |r| == if |t| >= width then |t| else width
    ensures DigitsValue(r) == DigitsValue(t)
    decreases width - |t|
  {
    if |t| >= width then t
    else
      DigitsValueAppend("0", t);
      ZeroPad("0" + t, width)
  }

  function Abs(n: int): nat { if n < 0 then -n else n }

  /** str(n) for a Python int. */
  function IntText(n: int): string {
    (if n < 0 then "-" else "") + NatText(Abs(n))
  }

  // ---------------------------------------------------------------------
  // Decimal numbers

  /** A decimal number `units / 10^scale`: the value of a number written
      with `scale` digits after the point. */
  datatype Decimal = Decimal(units: int, scale: nat)

  function Value(d: Decimal): real {
    d.units as real / Pow10(d.scale) as real
  }

  /** Adds a whole number, keeping the number of fractional digits. */
  function Plus(d: Decimal, delta: int): (r: Decimal)
    ensures r.scale == d.scale
    ensures Value(r) == Value(d) + delta as real
  {
    var p := Pow10(d.scale) as real;
    assert (d.units + delta * Pow10(d.scale)) as real == d.units as real + delta as real * p;
    assert (d.units as real + delta as real * p) / p == d.units as real / p + delta as real;
    Decimal(d.units + delta * Pow10(d.scale), d.scale)
  }

  /** The same number with the trailing zeros of its fraction dropped. */
  function Shortest(d: Decimal): (r: Decimal)
    ensures Value(r) == Value(d)
    ensures r.scale <= d.scale && (d.units >= 0 ==> r.units >= 0)
    ensures r.scale == 0 || r.units % 10 != 0
    decreases d.scale
  {
    if d.scale > 0 && d.units % 10 == 0 then
      var q := d.units / 10;
      assert Pow10(d.scale) == 10 * Pow10(d.scale - 1);
      ScaleDown(q, Pow10(d.scale - 1));
      Shortest(Decimal(q, d.scale - 1))
    else d
  }

  lemma ScaleDown(q: int, p: nat)
    requires p >= 1
    ensures (10 * q) as real / (10 * p) as real == q as real / p as real
  {
    assert (10 * q) as real == 10.0 * q as real;
    assert (10 * p) as real == 10.0 * p as real;
  }

  /** The text of a Python float of a few significant digits, as str()
      gives it: the shortest decimal digits, with at least one after the
      point. */
  function FloatText(d: Decimal): string {
    Render(Shortest(d))
  }

  /** A Python number argument: an int or a float. */
  datatype Number = IntNum(i: int) | FloatNum(d: Decimal)

  /** str() of a Python number: an int prints without a point, a float as
      FloatText does. */
  function NumberText(n: Number): string {
    match n
    case IntNum(i) => IntText(i)
    case FloatNum(d) => FloatText(d)
  }

  /** Reading a non-negative float's text back with \d+\.?\d* consumes all
      of it and gives the same value. */
  lemma FloatTextReadsBack(d: Decimal)
    requires d.units >= 0
    ensures NumberAt(FloatText(d), 0).Some?
    ensures NumberAt(FloatText(d), 0).value.1 == |FloatText(d)|
    ensures Value(NumberAt(FloatText(d), 0).value.0) == Value(d)
  {
    RenderReadsBack(Shortest(d));
  }

  /** The greedy digit run \d* from i: where it ends, and the digits read
      after those already read (`acc`), most significant first. */
  function DigitRun(s: string, i: nat, acc: nat): (r: (nat, nat))
    requires i <= |s|
    ensures i <= r.0 <= |s|
    decreases |s| - i
  {
    if i < |s| && IsDigit(s[i]) then DigitRun(s, i + 1, acc * 10 + DigitValue(s[i])) else (i, acc)
  }

  /** The number the greedy pattern \d+\.?\d* matches at position i, with the
      index just past the match; None when s[i] is not a digit. The digits
      after the point continue the units, one more fractional place each. */
  function NumberAt(s: string, i: nat): (r: Option<(Decimal, nat)>)
    requires i <= |s|
    ensures r.Some? ==> i < r.value.1 <= |s|
  {
    var (j, whole) := DigitRun(s, i, 0);
    if j == i then None
    else if j < |s| && s[j] == '.' then
      var (k, units) := DigitRun(s, j + 1, whole);
      Some((Decimal(units, k - j - 1), k))
    else Some((Decimal(whole, 0), j))
  }

  /** The text of a decimal number: its digits with a point and at least one
      fractional digit, as a Python float prints a short decimal. */
  function Render(d: Decimal): string {
    (if d.units < 0 then "-" else "") + Pointed(ZeroPad(NatText(Abs(d.units)), d.scale + 1), d.scale)
  }

  /** Digits with a point inserted `scale` places from the right (".0"
      appended when there are none). */
  function Pointed(digits: string, scale: nat): string
    requires |digits| > scale
  {
    if scale == 0 then digits + ".0"
    else digits[..|digits| - scale] + "." + digits[|digits| - scale..]
  }

  /** The greedy digit run from i over the digit text t held there, when no
      digit follows it, ends right after t and reads t's digits after the
      ones read before. */
  lemma {:induction false} DigitRunOver(s: string, i: nat, t: string, acc: nat)
    requires i + |t| <= |s| && AllDigits(t)
    requires forall k :: 0 <= k < |t| ==> s[i + k] == t[k]
    requires i + |t| == |s| || !IsDigit(s[i + |t|])
    ensures DigitRun(s, i, acc) == (i + |t|, acc * Pow10(|t|) + DigitsValue(t))
    decreases |t|
  {
    if t == [] {
      assert DigitsValue(t) == 0;
    } else {
      var rest := t[1..];
      assert s[i + 0] == t[0];
      assert forall k :: 0 <= k < |rest| ==> s[i + 1 + k] == rest[k] by {
        forall k | 0 <= k < |rest| ensures s[i + 1 + k] == rest[k] { assert s[i + (k + 1)] == t[k + 1]; }
      }
      assert AllDigits(rest) by { forall k | 0 <= k < |rest| ensures IsDigit(rest[k]) { assert rest[k] == t[k + 1]; } }
      DigitRunOver(s, i + 1, rest, acc * 10 + DigitValue(t[0]));
      assert [t[0]] + rest == t;
      DigitsValueAppend([t[0]], rest);
      assert DigitsValue([t[0]]) == DigitValue(t[0]) by { assert [t[0]][..0] == []; }
      assert Pow10(|t|) == 10 * Pow10(|rest|);
      DigitRunStep(acc, DigitValue(t[0]), Pow10(|rest|), DigitsValue(rest));
    }
  }

  lemma DigitRunStep(acc: int, c: int, p: int, v: int)
    ensures (acc * 10 + c) * p + v == acc * (10 * p) + (c * p + v)
  {
  }

  lemma AllDigitsAppend(a: string, b: string)
    requires AllDigits(a) && AllDigits(b)
    ensures AllDigits(a + b)
  {
    forall k | 0 <= k < |a + b| ensures IsDigit((a + b)[k]) {
      if k < |a| { assert (a + b)[k] == a[k]; } else { assert (a + b)[k] == b[k - |a|]; }
    }
  }

  /** s holds the text t at position i. */
  predicate TextAt(s: string, i: nat, t: string) {
    i + |t| <= |s| && forall k :: 0 <= k < |t| ==> s[i + k] == t[k]
  }

  lemma TextAtSlice(s: string, i: nat, t: string)
    requires i + |t| <= |s|
    ensures TextAt(s, i, t) <==> s[i..i + |t|] == t
  {
    if TextAt(s, i, t) {
      assert forall k :: 0 <= k < |t| ==> s[i..i + |t|][k] == t[k];
    }
  }

  lemma TextAtAppend(a: string, b: string)
    ensures TextAt(a + b, |a|, b)
  {
    forall k | 0 <= k < |b| ensures (a + b)[|a| + k] == b[k] {}
  }

  /** A text made of two parts holds each part at its place. */
  lemma TextAtSplit(s: string, i: nat, a: string, b: string)
    requires TextAt(s, i, a + b)
    ensures TextAt(s, i, a) && TextAt(s, i + |a|, b)
  {
    forall k | 0 <= k < |a| ensures s[i + k] == a[k] { assert (a + b)[k] == a[k]; }
    forall k | 0 <= k < |b| ensures s[i + |a| + k] == b[k] { assert (a + b)[|a| + k] == b[k]; }
  }

  /** Text held somewhere is contained. */
  lemma ContainsByText(s: string, p: string, j: nat)
    requires TextAt(s, j, p)
    ensures Contains(s, p)
  {
    TextAtSlice(s, j, p);
    assert OccursAt(s, p, j);
    ContainsSpec(s, p);
  }

  /** p is not contained when no two positions of s, m apart, hold p's first
      and m-th characters. */
  lemma NotContainsByPair(s: string, p: string, m: nat)
    requires 0 < m < |p|
    requires forall j :: 0 <= j && j + m < |s| ==> s[j] != p[0] || s[j + m] != p[m]
    ensures !Contains(s, p)
  {
    ContainsSpec(s, p);
    forall j: nat ensures !OccursAt(s, p, j) {
      if j + |p| <= |s| {
        assert s[j..j + |p|][0] == s[j];
        assert s[j..j + |p|][m] == s[j + m];
      }
    }
  }

  /** The greedy number pattern at position i of s reads `whole.frac` when
      s holds that text there and no digit follows. */
  lemma NumberAtInside(s: string, i: nat, whole: string, frac: string)
    requires |whole| >= 1 && AllDigits(whole) && AllDigits(frac)
    requires TextAt(s, i, whole + "." + frac)
    requires var e := i + |whole| + 1 + |frac|; e == |s| || !IsDigit(s[e])
    ensures AllDigits(whole + frac)
    ensures NumberAt(s, i)
         == Some((Decimal(DigitsValue(whole + frac), |frac|), i + |whole| + 1 + |frac|))
  {
    TextAtSplit(s, i, whole + ".", frac);
    TextAtSplit(s, i, whole, ".");
    assert s[i + |whole| + 0] == "."[0];
    NumberAtPieces(s, i, whole, frac);
  }

  lemma NumberAtPieces(s: string, i: nat, whole: string, frac: string)
    requires |whole| >= 1 && AllDigits(whole) && AllDigits(frac)
    requires TextAt(s, i, whole) && i + |whole| < |s| && s[i + |whole|] == '.'
    requires TextAt(s, i + |whole| + 1, frac)
    requires var e := i + |whole| + 1 + |frac|; e == |s| || !IsDigit(s[e])
    ensures AllDigits(whole + frac)
    ensures NumberAt(s, i)
         == Some((Decimal(DigitsValue(whole + frac), |frac|), i + |whole| + 1 + |frac|))
  {
    var j := i + |whole|;
    WholeRun(s, i, whole);
    FractionRun(s, j, whole, frac);
    NumberFromRuns(s, i, j, j + 1 + |frac|, DigitsValue(whole), DigitsValue(whole + frac));
  }

  /** The digits before the point, read from nothing. */
  lemma WholeRun(s: string, i: nat, whole: string)
    requires i + |whole| < |s| && AllDigits(whole)
    requires forall k :: 0 <= k < |whole| ==> s[i + k] == whole[k]
    requires s[i + |whole|] == '.'
    ensures DigitRun(s, i, 0) == (i + |whole|, DigitsValue(whole))
  {
    DigitRunOver(s, i, whole, 0);
  }

  /** The digits after the point continue the value of those before it. */
  lemma FractionRun(s: string, j: nat, whole: string, frac: string)
    requires j + 1 + |frac| <= |s| && AllDigits(whole) && AllDigits(frac)
    requires forall k :: 0 <= k < |frac| ==> s[j + 1 + k] == frac[k]
    requires j + 1 + |frac| == |s| || !IsDigit(s[j + 1 + |frac|])
    ensures AllDigits(whole + frac)
    ensures DigitRun(s, j + 1, DigitsValue(whole)) == (j + 1 + |frac|, DigitsValue(whole + frac))
  {
    DigitRunOver(s, j + 1, frac, DigitsValue(whole));
    DigitsValueAppend(whole, frac);
  }

  /** The pattern's reading when a digit run, a point and a second digit
      run were found. */
  lemma NumberFromRuns(s: string, i: nat, j: nat, k: nat, w: nat, u: nat)
    requires i < j < |s| && s[j] == '.'
    requires DigitRun(s, i, 0) == (j, w) && j + 1 <= |s| && DigitRun(s, j + 1, w) == (k, u)
    ensures NumberAt(s, i) == Some((Decimal(u, k - j - 1), k))
  {
  }

  /** A rendered non-negative number is a digit run, a point and a digit
      run whose digits, read as a decimal, have the number's value. */
  lemma RenderParts(d: Decimal) returns (whole: string, frac: string)
    requires d.units >= 0
    ensures Render(d) == whole + "." + frac
    ensures |whole| >= 1 && AllDigits(whole) && AllDigits(frac) && AllDigits(whole + frac)
    ensures Value(Decimal(DigitsValue(whole + frac), |frac|)) == Value(d)
    ensures d.scale >= 1 ==> Decimal(DigitsValue(whole + frac), |frac|) == d
  {
    var digits := ZeroPad(NatText(d.units), d.scale + 1);
    assert DigitsValue(digits) == d.units && |digits| > d.scale && AllDigits(digits) by {
      NatTextValue(d.units);
    }
    assert Render(d) == Pointed(digits, d.scale);
    if d.scale == 0 {
      whole, frac := digits, "0";
      WholeValue(digits);
    } else {
      var point := |digits| - d.scale;
      whole, frac := digits[..point], digits[point..];
      SplitDigits(digits, point);
      assert Decimal(DigitsValue(whole + frac), |frac|) == d;
    }
  }

  /** A whole number m written with one fractional zero has the value m. */
  lemma WholeValue(digits: string)
    requires |digits| >= 1 && AllDigits(digits)
    ensures AllDigits(digits + "0")
    ensures Value(Decimal(DigitsValue(digits + "0"), 1)) == DigitsValue(digits) as real
  {
    var m := DigitsValue(digits);
    DigitsValueAppend(digits, "0");
    assert DigitsValue("0") == 0 by { assert "0"[..0] == []; }
    assert Pow10(1) == 10;
    assert (m * 10) as real == m as real * 10.0;
  }

  lemma SplitDigits(digits: string, point: nat)
    requires point <= |digits| && AllDigits(digits)
    ensures digits[..point] + digits[point..] == digits
    ensures AllDigits(digits[..point]) && AllDigits(digits[point..])
  {
    assert forall k :: 0 <= k < point ==> digits[..point][k] == digits[k];
    assert forall k :: 0 <= k < |digits| - point ==> digits[point..][k] == digits[point + k];
  }

  /** The greedy number pattern, run at position i over the text of a
      rendered non-negative number that no digit follows, consumes exactly
      that text and reads back the same value. */
  lemma NumberAtRendered(s: string, i: nat, d: Decimal)
    requires d.units >= 0
    requires TextAt(s, i, Render(d))
    requires var e := i + |Render(d)|; e == |s| || !IsDigit(s[e])
    ensures NumberAt(s, i).Some?
    ensures NumberAt(s, i).value.1 == i + |Render(d)|
    ensures Value(NumberAt(s, i).value.0) == Value(d)
  {
    var whole, frac := RenderParts(d);
    NumberAtInside(s, i, whole, frac);
  }

  /** With at least one fractional digit the rendering is read back as the
      very same decimal: same digits, same number of fractional places. */
  lemma ReadRendered(s: string, i: nat, d: Decimal)
    requires d.units >= 0 && d.scale >= 1
    requires TextAt(s, i, Render(d))
    requires var e := i + |Render(d)|; e == |s| || !IsDigit(s[e])
    ensures NumberAt(s, i) == Some((d, i + |Render(d)|))
  {
    var whole, frac := RenderParts(d);
    NumberAtInside(s, i, whole, frac);
  }

  /** Wherever the text r stands with no digit right after it, the number
      pattern reads exactly r, as the decimal d. */
  ghost predicate ReadsAs(r: string, d: Decimal) {
    forall s: string, p: nat {:trigger TextAt(s, p, r)} ::
      TextAt(s, p, r) && (p + |r| == |s| || !IsDigit(s[p + |r|])) ==> NumberAt(s, p) == Some((d, p + |r|))
  }

  /** Digits, a point and digits read as the decimal with those digits and
      as many fractional places as there are digits after the point. */
  lemma PointedReadsAs(whole: string, frac: string)
    requires |whole| >= 1 && AllDigits(whole) && AllDigits(frac)
    ensures AllDigits(whole + frac)
    ensures ReadsAs(whole + "." + frac, Decimal(DigitsValue(whole + frac), |frac|))
  {
    AllDigitsAppend(whole, frac);
    var r := whole + "." + frac;
    forall s: string, p: nat | TextAt(s, p, r) && (p + |r| == |s| || !IsDigit(s[p + |r|]))
      ensures NumberAt(s, p) == Some((Decimal(DigitsValue(whole + frac), |frac|), p + |r|))
    {
      ReadPointed(s, p, whole, frac, r, Decimal(DigitsValue(whole + frac), |frac|));
    }
  }

  lemma ReadPointed(s: string, p: nat, whole: string, frac: string, r: string, d: Decimal)
    requires |whole| >= 1 && AllDigits(whole) && AllDigits(frac) && AllDigits(whole + frac)
    requires r == whole + "." + frac && d == Decimal(DigitsValue(whole + frac), |frac|)
    requires TextAt(s, p, r) && (p + |r| == |s| || !IsDigit(s[p + |r|]))
    ensures NumberAt(s, p) == Some((d, p + |r|))
  {
    NumberAtInside(s, p, whole, frac);
  }

  lemma RenderReadsAs(d: Decimal)
    requires d.units >= 0 && d.scale >= 1
    ensures ReadsAs(Render(d), d)
  {
    forall s: string, p: nat | TextAt(s, p, Render(d)) && (p + |Render(d)| == |s| || !IsDigit(s[p + |Render(d)|]))
      ensures NumberAt(s, p) == Some((d, p + |Render(d)|))
    {
      ReadRendered(s, p, d);
    }
  }

  /** Reading back a rendered non-negative number with the pattern
      \d+\.?\d* consumes all of the text and gives the same value. */
  lemma RenderReadsBack(d: Decimal)
    requires d.units >= 0
    ensures NumberAt(Render(d), 0).Some?
    ensures NumberAt(Render(d), 0).value.1 == |Render(d)|
    ensures Value(NumberAt(Render(d), 0).value.0) == Value(d)
  {
    assert TextAt(Render(d), 0, Render(d));
    NumberAtRendered(Render(d), 0, d);
  }
}
