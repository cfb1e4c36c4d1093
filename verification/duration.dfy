/**
  The duration formatter of the stopwatch: `formatTime` turns a count of
  milliseconds into the text `HH:MM:SS.mmm` shown on the time label and in
  the split label. The count is split into hours, minutes, seconds and
  milliseconds by three nested `divmod`s, and each part is printed in
  decimal, zero-padded to width 2 (hours, minutes, seconds) or 3
  (milliseconds). Hours are not reduced modulo 24, so they may take more
  than two digits.

  Python's `divmod(x, d)` for a positive `d` floors; for `x >= 0` this is
  the same as Dafny's `/` and `%`.
 */
module DurationFormat {

  datatype Option<T> = None | Some(value: T)

  const MsPerHour: nat := 3600000
  const MsPerMinute: nat := 60000
  const MsPerSecond: nat := 1000

  /** The four parts of a millisecond count, in the order they are printed. */
  datatype Clock = Clock(hours: nat, minutes: nat, seconds: nat, millis: nat)

  /** The number of milliseconds a Clock stands for. */
  function Total(c: Clock): nat {
    c.hours * MsPerHour + c.minutes * MsPerMinute + c.seconds * MsPerSecond + c.millis
  }

  /** Every part below hours is within its unit. */
  predicate Normal(c: Clock) {
    c.minutes < 60 && c.seconds < 60 && c.millis < 1000
  }

  /** The nested divmod: hours, then minutes of the rest, then seconds and milliseconds. */
  function Decompose(ms: nat): (c: Clock)
    ensures Normal(c)
    ensures Total(c) == ms
  {
    var hours, rest := ms / MsPerHour, ms % MsPerHour;
    var minutes, rest' := rest / MsPerMinute, rest % MsPerMinute;
    Clock(hours, minutes, rest' / MsPerSecond, rest' % MsPerSecond)
  }

  /** Decompose is the only normal split of a count: it inverts Total. */
  lemma DecomposeTotal(c: Clock)
    requires Normal(c)
    ensures Decompose(Total(c)) == c
  {
    // The solver finds this unaided on some seeds only; the three
    // uniqueness steps below make it find it on every seed.
    var ms := Total(c);
    var rest := c.minutes * MsPerMinute + c.seconds * MsPerSecond + c.millis;
    var rest' := c.seconds * MsPerSecond + c.millis;
    DivModUnique(ms, MsPerHour, c.hours, rest);
    DivModUnique(rest, MsPerMinute, c.minutes, rest');
    DivModUnique(rest', MsPerSecond, c.seconds, c.millis);
  }

  /** Quotient and remainder are determined by the equation they satisfy. */
  lemma DivModUnique(x: nat, d: nat, q: nat, r: nat)
    requires 0 <= r < d
    requires x == q * d + r
    ensures x / d == q && x % d == r
  {
    var q', r' := x / d, x % d;
    assert q' * d + r' == q * d + r;
    if q' < q {
      var k := q - q';
      assert q * d == q' * d + k * d;
      MulAtLeast(k, d);
    } else if q' > q {
      var k := q' - q;
      assert q' * d == q * d + k * d;
      MulAtLeast(k, d);
    }
  }

  lemma MulAtLeast(k: nat, d: nat)
    requires k >= 1
    ensures k * d >= d
  {
    assert k * d == (k - 1) * d + d;
  }

  // Decimal digits

  predicate IsDigit(ch: char) {
    '0' <= ch <= '9'
  }

  predicate AllDigits(s: string) {
    forall i :: 0 <= i < |s| ==> IsDigit(s[i])
  }

  function DigitChar(d: nat): (ch: char)
    requires d < 10
    ensures IsDigit(ch)
  {
    ('0' as int + d) as char
  }

  function DigitValue(ch: char): nat
    requires IsDigit(ch)
  {
    ch as int - '0' as int
  }

  function Pow10(k: nat): nat {
    if k == 0 then 1 else 10 * Pow10(k - 1)
  }

  /** The decimal text of n without leading zeros, as Python's `str(n)` for n >= 0. */
  function Digits(n: nat): (s: string)
    ensures |s| >= 1 && AllDigits(s)
    ensures s[0] == '0' <==> n == 0
    ensures n == 0 ==> s == "0"
  {
    if n < 10 then [DigitChar(n)] else Digits(n / 10) + [DigitChar(n % 10)]
  }

  /** The number a string of decimal digits denotes (the empty string denotes 0). */
  function Value(s: string): nat
    requires AllDigits(s)
  {
    if s == [] then 0 else Value(s[..|s| - 1]) * 10 + DigitValue(s[|s| - 1])
  }

  function Zeros(k: nat): (s: string)
    ensures |s| == k
  {
    seq(k, _ => '0')
  }

  /** The format `{n:0<width>d}`: the digits of n, padded on the left with zeros to `width`. */
  function ZeroPad(n: nat, width: nat): (s: string)
    ensures |s| == if |Digits(n)| < width then width else |Digits(n)|
  {
    var d := Digits(n);
    (if |d| < width then Zeros(width - |d|) else []) + d
  }

  /** formatTime: `{hours:02d}:{minutes:02d}:{seconds:02d}.{milliseconds:03d}`. */
  function FormatTime(ms: nat): (s: string)
    ensures |s| >= 12
  {
    var c := Decompose(ms);
    ZeroPad(c.hours, 2) + ":" + ZeroPad(c.minutes, 2) + ":" + ZeroPad(c.seconds, 2) + "." + ZeroPad(c.millis, 3)
  }

  /** The text of the split label after a split of `delta` with total `total`. */
  function SplitLabel(delta: nat, total: nat): (s: string)
    ensures |s| >= 45
    ensures s[..12] == "Last Split: " && s[|s| - 1] == ')'
  {
    LabelText(FormatTime(delta), FormatTime(total))
  }

  function LabelText(a: string, b: string): string {
    "Last Split: " + a + " (Total: " + b + ")"
  }

  /**
    Reads back a text of the shape `H…H:MM:SS.mmm` (at least two hour digits)
    as a millisecond count; None when the text has another shape.
   */
  function ParseTime(s: string): Option<nat> {
    if |s| < 12 then None
    else
      var n := |s|;
      var hh, mm, ss, fff := s[..n - 10], s[n - 9..n - 7], s[n - 6..n - 4], s[n - 3..];
      if s[n - 10] == ':' && s[n - 7] == ':' && s[n - 4] == '.'
         && AllDigits(hh) && AllDigits(mm) && AllDigits(ss) && AllDigits(fff)
      then Some(Value(hh) * MsPerHour + Value(mm) * MsPerMinute + Value(ss) * MsPerSecond + Value(fff))
      else None
  }

  // Lemmas about the digit helpers

  lemma {:induction false} ValueOfDigits(n: nat)
    ensures Value(Digits(n)) == n
  {
    if n >= 10 {
      var d := Digits(n);
      assert d[..|d| - 1] == Digits(n / 10);
      ValueOfDigits(n / 10);
    }
  }

  lemma {:induction false} ValueOfZeros(k: nat)
    ensures AllDigits(Zeros(k)) && Value(Zeros(k)) == 0
  {
    if k > 0 {
      assert Zeros(k)[..k - 1] == Zeros(k - 1);
      ValueOfZeros(k - 1);
    }
  }

  /** Leading zeros do not change the value of a digit string. */
  lemma {:induction false} ValueLeadingZeros(k: nat, t: string)
    requires AllDigits(t)
    ensures AllDigits(Zeros(k) + t) && Value(Zeros(k) + t) == Value(t)
  {
    ValueOfZeros(k);
    if t == [] {
      assert Zeros(k) + t == Zeros(k);
    } else {
      var s := Zeros(k) + t;
      assert s[..|s| - 1] == Zeros(k) + t[..|t| - 1];
      ValueLeadingZeros(k, t[..|t| - 1]);
    }
  }

  lemma {:induction false} Pow10AtLeastTen(k: nat)
    requires k >= 1
    ensures Pow10(k) >= 10
  {
    if k > 1 {
      Pow10AtLeastTen(k - 1);
    }
  }

  /** Digits(n) has at most k digits exactly when n < 10^k. */
  lemma {:induction false} DigitsLength(n: nat, k: nat)
    requires k >= 1
    ensures |Digits(n)| <= k <==> n < Pow10(k)
  {
    Pow10AtLeastTen(k);
    if n >= 10 && k > 1 {
      DigitsLength(n / 10, k - 1);
      assert n / 10 < Pow10(k - 1) <==> n < 10 * Pow10(k - 1);
    }
  }

  /** A zero-padded field ends with the digits of n, and everything before them is '0'. */
  lemma ZeroPadLayout(n: nat, width: nat)
    ensures var s, d := ZeroPad(n, width), Digits(n);
      s[|s| - |d|..] == d && forall i :: 0 <= i < |s| - |d| ==> s[i] == '0'
  {
  }

  /** A zero-padded field: its width, its characters and its value. */
  lemma ZeroPadFacts(n: nat, width: nat)
    ensures AllDigits(ZeroPad(n, width))
    ensures Value(ZeroPad(n, width)) == n
    ensures |ZeroPad(n, width)| >= width
    ensures |ZeroPad(n, width)| == width <==> (width >= 1 && n < Pow10(width))
  {
    var d := Digits(n);
    ValueOfDigits(n);
    if |d| < width {
      ValueLeadingZeros(width - |d|, d);
    } else {
      assert ZeroPad(n, width) == d;
    }
    if width >= 1 {
      DigitsLength(n, width);
    }
  }

  // Lemmas about FormatTime

  /**
    The shape of formatTime's text: the zero-padded hours (at least two
    digits), then ":", two minute digits, ":", two second digits, "." and
    three millisecond digits; every character other than the three
    separators is a digit.
   */
  lemma FormatTimeShape(ms: nat)
    ensures var s, c := FormatTime(ms), Decompose(ms);
      var n := |s|;
      n >= 12
      && s[..n - 10] == ZeroPad(c.hours, 2)
      && s[n - 10] == ':' && s[n - 7] == ':' && s[n - 4] == '.'
      && s[n - 9..n - 7] == ZeroPad(c.minutes, 2)
      && s[n - 6..n - 4] == ZeroPad(c.seconds, 2)
      && s[n - 3..] == ZeroPad(c.millis, 3)
      && (forall i :: 0 <= i < n && i != n - 10 && i != n - 7 && i != n - 4 ==> IsDigit(s[i]))
  {
    var c := Decompose(ms);
    var hh, mm, ss, fff := ZeroPad(c.hours, 2), ZeroPad(c.minutes, 2), ZeroPad(c.seconds, 2), ZeroPad(c.millis, 3);
    ZeroPadFacts(c.hours, 2);
    ZeroPadFacts(c.minutes, 2);
    ZeroPadFacts(c.seconds, 2);
    ZeroPadFacts(c.millis, 3);
    var s := FormatTime(ms);
    var h := |hh|;
    assert s == hh + ":" + mm + ":" + ss + "." + fff;
    assert |s| == h + 10;
    assert s[..h] == hh;
    assert s[h + 1..h + 3] == mm;
    assert s[h + 4..h + 6] == ss;
    assert s[h + 7..] == fff;
    forall i | 0 <= i < |s| && i != h && i != h + 3 && i != h + 6
      ensures IsDigit(s[i])
    {
      if i < h {
        assert s[i] == hh[i];
      } else if i < h + 3 {
        assert s[i] == mm[i - h - 1];
      } else if i < h + 6 {
        assert s[i] == ss[i - h - 4];
      } else {
        assert s[i] == fff[i - h - 7];
      }
    }
  }

  /** The text is exactly 12 characters long exactly when ms is below 100 hours. */
  lemma FormatTimeLength(ms: nat)
    ensures |FormatTime(ms)| == 12 <==> ms < 360000000
    ensures |FormatTime(ms)| >= 12
  {
    var c := Decompose(ms);
    FormatTimeShape(ms);
    ZeroPadFacts(c.hours, 2);
    assert Pow10(2) == 100;
    assert c.hours < 100 <==> ms < 360000000;
  }

  /** The initial text of the time label is formatTime(0). */
  lemma FormatTimeZero()
    ensures FormatTime(0) == "00:00:00.000"
  {
    assert Decompose(0) == Clock(0, 0, 0, 0);
    assert ZeroPad(0, 2) == "00";
    assert ZeroPad(0, 3) == "000";
  }

  /** Reading formatTime's text back as h*3600000 + m*60000 + s*1000 + ms recovers the count. */
  lemma ParseFormatTime(ms: nat)
    ensures ParseTime(FormatTime(ms)) == Some(ms)
  {
    var c := Decompose(ms);
    FormatTimeShape(ms);
    ZeroPadFacts(c.hours, 2);
    ZeroPadFacts(c.minutes, 2);
    ZeroPadFacts(c.seconds, 2);
    ZeroPadFacts(c.millis, 3);
  }

  /** Different counts give different texts. */
  lemma FormatTimeInjective(a: nat, b: nat)
    requires FormatTime(a) == FormatTime(b)
    ensures a == b
  {
    ParseFormatTime(a);
    ParseFormatTime(b);
  }

  /** No character of formatTime's text is a space. */
  lemma FormatTimeNoSpace(ms: nat)
    ensures NoSpace(FormatTime(ms))
  {
    FormatTimeShape(ms);
  }

  predicate NoSpace(s: string) {
    forall i :: 0 <= i < |s| ==> s[i] != ' '
  }

  /** In `Last Split: A (Total: B)` with no space in A, the first space after the prefix ends A. */
  lemma LabelSpaces(a: string, b: string)
    requires NoSpace(a)
    ensures var s := LabelText(a, b);
      s[12 + |a|] == ' ' && forall i :: 12 <= i < 12 + |a| ==> s[i] != ' '
  {
    var s := LabelText(a, b);
    forall i | 12 <= i < 12 + |a| ensures s[i] != ' ' {
      assert s[i] == a[i - 12];
    }
  }

  /** A text `Last Split: A (Total: B)` with no space in A determines A and B. */
  lemma LabelTextParts(a: string, b: string, a': string, b': string)
    requires NoSpace(a) && NoSpace(a')
    requires LabelText(a, b) == LabelText(a', b')
    ensures a == a' && b == b'
  {
    var s, s' := LabelText(a, b), LabelText(a', b');
    LabelSpaces(a, b);
    LabelSpaces(a', b');
    assert |a| == |a'|;
    assert a == s[12..12 + |a|];
    assert a' == s'[12..12 + |a|];
    assert b == s[21 + |a|..|s| - 1];
    assert b' == s'[21 + |a|..|s| - 1];
  }

  /** The split label determines both the split delta and the total it shows. */
  lemma SplitLabelInjective(delta: nat, total: nat, delta': nat, total': nat)
    requires SplitLabel(delta, total) == SplitLabel(delta', total')
    ensures delta == delta' && total == total'
  {
    FormatTimeNoSpace(delta);
    FormatTimeNoSpace(delta');
    LabelTextParts(FormatTime(delta), FormatTime(total), FormatTime(delta'), FormatTime(total'));
    FormatTimeInjective(delta, delta');
    FormatTimeInjective(total, total');
  }
}
