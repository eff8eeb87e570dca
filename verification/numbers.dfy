/** 32-bit signed integers as C# sees them, the `"D"`/`"D<n>"` decimal
    format of `int.ToString`, and `int.TryParse` with the default
    `NumberStyles.Integer` under a culture whose signs are `+` and `-`. */
module Numbers {
  import opened Results

  const MinInt32: int := -0x8000_0000
  const MaxInt32: int := 0x7FFF_FFFF
  const TwoTo32: int := 0x1_0000_0000

  predicate IsInt32(x: int) {
    MinInt32 <= x <= MaxInt32
  }

  /** Result of an unchecked C# `int` operation whose exact value is `x`:
      two's-complement wrap-around. */
  function Wrap32(x: int): (r: int)
    ensures IsInt32(r)
    ensures (x - r) % TwoTo32 == 0
    ensures IsInt32(x) ==> r == x
  {
    (x - MinInt32) % TwoTo32 + MinInt32
  }

  // ---------------------------------------------------------------- digits

  predicate IsDigit(c: char) {
    '0' <= c <= '9'
  }

  predicate AllDigits(s: string) {
    forall i :: 0 <= i < |s| ==> IsDigit(s[i])
  }

  function DigitChar(d: nat): (c: char)
    requires d < 10
    ensures IsDigit(c) && DigitValue(c) == d
  {
    (('0' as int) + d) as char
  }

  function DigitValue(c: char): nat
    requires IsDigit(c)
  {
    (c as int) - ('0' as int)
  }

  function Pow10(k: nat): (p: nat)
    ensures p >= 1
  {
    if k == 0 then 1 else 10 * Pow10(k - 1)
  }

  /** The number a string of decimal digits denotes (leading zeros allowed). */
  function ValueOf(s: string): nat
    requires AllDigits(s)
  {
    if |s| == 0 then 0 else ValueOf(s[..|s| - 1]) * 10 + DigitValue(s[|s| - 1])
  }

  /** Shortest decimal rendering of `n`: "0" for zero, otherwise no leading
      zero. Its length is the number of decimal digits of `n`. */
  function Digits(n: nat): (s: string)
    ensures |s| >= 1 && AllDigits(s)
    ensures ValueOf(s) == n
    ensures n > 0 ==> s[0] != '0'
    decreases n
  {
    if n < 10 then [DigitChar(n)]
    else
      var s := Digits(n / 10) + [DigitChar(n % 10)];
      assert s[..|s| - 1] == Digits(n / 10);
      s
  }

  /** `Digits(n)` has `k` characters exactly when `n` has `k` decimal digits. */
  lemma {:induction false} DigitsLength(n: nat)
    ensures n < Pow10(|Digits(n)|)
    ensures |Digits(n)| > 1 ==> Pow10(|Digits(n)| - 1) <= n
    decreases n
  {
    if n >= 10 {
      DigitsLength(n / 10);
      assert |Digits(n)| == |Digits(n / 10)| + 1;
    }
  }

  /** `k` copies of `c`. */
  function Repeat(c: char, k: nat): (s: string)
    ensures |s| == k && forall i :: 0 <= i < k ==> s[i] == c
  {
    if k == 0 then [] else [c] + Repeat(c, k - 1)
  }

  /** `s.PadLeft(width, c)`: `s` behind as many `c` as make it `width` long;
      never shortens `s`. */
  function PadLeft(s: string, width: nat, c: char): (r: string)
    ensures |r| == if |s| >= width then |s| else width
  {
    if |s| >= width then s else Repeat(c, width - |s|) + s
  }

  /** Leading zeros do not change the value of a digit string. */
  lemma {:induction false} ValueOfLeadingZeros(k: nat, s: string)
    requires AllDigits(s)
    ensures AllDigits(Repeat('0', k) + s)
    ensures ValueOf(Repeat('0', k) + s) == ValueOf(s)
    decreases |s|, k
  {
    var z := Repeat('0', k) + s;
    if |s| == 0 {
      assert z == Repeat('0', k);
      if k > 0 {
        assert z[..|z| - 1] == Repeat('0', k - 1) + s;
        ValueOfLeadingZeros(k - 1, s);
      }
    } else {
      assert z[..|z| - 1] == Repeat('0', k) + s[..|s| - 1];
      ValueOfLeadingZeros(k, s[..|s| - 1]);
    }
  }

  /** Equal values and no leading zeros make equal digit strings. */
  lemma {:induction false} DigitsUnique(n: nat, s: string)
    requires AllDigits(s) && |s| >= 1 && ValueOf(s) == n
    requires |s| > 1 ==> s[0] != '0'
    ensures s == Digits(n)
    decreases |s|
  {
    var last := DigitValue(s[|s| - 1]);
    var init := s[..|s| - 1];
    assert n == ValueOf(init) * 10 + last;
    if |s| == 1 {
      assert n == last;
      assert s == [DigitChar(n)];
    } else {
      assert init[0] == s[0];
      if ValueOf(init) == 0 {
        LeadingDigitPositive(init);
        assert false;
      }
      assert n / 10 == ValueOf(init) && n % 10 == last;
      DigitsUnique(n / 10, init);
      assert s == init + [s[|s| - 1]];
    }
  }

  /** A digit string that starts with a non-zero digit denotes a positive number. */
  lemma {:induction false} LeadingDigitPositive(s: string)
    requires AllDigits(s) && |s| >= 1 && s[0] != '0'
    ensures ValueOf(s) > 0
    decreases |s|
  {
    if |s| > 1 {
      assert s[..|s| - 1][0] == s[0];
      LeadingDigitPositive(s[..|s| - 1]);
    }
  }

  // ------------------------------------------------------------- rendering

  /** `n.ToString("D" + minDigits)`: a minus sign for negative values, then
      the magnitude in decimal, zero-padded on the left to at least
      `minDigits` digits. `minDigits == 0` is plain `n.ToString()`. */
  function FormatD(n: int, minDigits: nat): (r: string)
    ensures |r| >= 1 && |r| >= minDigits
    ensures r[0] == '-' <==> n < 0
  {
    if n < 0 then "-" + PadLeft(Digits(-n), minDigits, '0')
    else PadLeft(Digits(n), minDigits, '0')
  }

  /** The rendering of a non-negative number is a zero-padded digit string of
      the number's value: at least `minDigits` long and never truncated. */
  lemma FormatNonNegative(n: int, minDigits: nat)
    requires n >= 0
    ensures AllDigits(FormatD(n, minDigits))
    ensures ValueOf(FormatD(n, minDigits)) == n
    ensures |FormatD(n, minDigits)| == if |Digits(n)| >= minDigits then |Digits(n)| else minDigits
  {
    var d := Digits(n);
    if |d| < minDigits {
      assert FormatD(n, minDigits) == Repeat('0', minDigits - |d|) + d;
      ValueOfLeadingZeros(minDigits - |d|, d);
    }
  }

  /** Once a non-negative number has `minDigits` digits or more it is
      rendered without any padding. */
  lemma FormatUnpadded(n: int, minDigits: nat)
    requires n >= Pow10(minDigits)
    ensures FormatD(n, minDigits) == Digits(n)
  {
    if |Digits(n)| < minDigits {
      DigitsLength(n);
      Pow10Monotone(|Digits(n)|, minDigits);
    }
  }

  lemma {:induction false} Pow10Monotone(a: nat, b: nat)
    requires a <= b
    ensures Pow10(a) <= Pow10(b)
    decreases b
  {
    if a < b {
      Pow10Monotone(a, b - 1);
    }
  }

  /** `ToString()` of an `int` is injective: distinct values render differently. */
  lemma FormatInjective(n: int, m: int)
    requires FormatD(n, 0) == FormatD(m, 0)
    ensures n == m
  {
    var s := FormatD(n, 0);
    if n < 0 && m < 0 {
      assert Digits(-n) == s[1..] == Digits(-m);
    } else if n >= 0 && m >= 0 {
      assert ValueOf(Digits(n)) == ValueOf(Digits(m));
    }
  }

  // --------------------------------------------------------------- parsing

  /** The characters `NumberStyles.AllowLeadingWhite`/`AllowTrailingWhite`
      skip: U+0009 to U+000D and U+0020. */
  predicate IsWhite(c: char) {
    c == ' ' || '\t' <= c <= '\r'
  }

  function TrimStartWhite(s: string): (r: string)
  {
    if |s| > 0 && IsWhite(s[0]) then TrimStartWhite(s[1..]) else s
  }

  function TrimEndWhite(s: string): (r: string)
  {
    if |s| > 0 && IsWhite(s[|s| - 1]) then TrimEndWhite(s[..|s| - 1]) else s
  }

  /** .NET tolerates any run of NUL characters at the very end of a number. */
  function TrimEndNul(s: string): (r: string)
  {
    if |s| > 0 && s[|s| - 1] == '\0' then TrimEndNul(s[..|s| - 1]) else s
  }

  /** The value of a sign-and-digits core, if it is one. */
  function ParseSigned(t: string): Option<int> {
    if |t| > 0 && t[0] == '-' && |t[1..]| > 0 && AllDigits(t[1..]) then
      var magnitude: int := ValueOf(t[1..]);
      Some(-magnitude)
    else if |t| > 0 && t[0] == '+' && |t[1..]| > 0 && AllDigits(t[1..]) then Some(ValueOf(t[1..]))
    else if |t| > 0 && AllDigits(t) then Some(ValueOf(t))
    else None
  }

  /** `int.TryParse(s, out v)`: accepts `white* [+|-] digit+ white* NUL*` whose
      value fits in 32 bits, and fails on everything else. */
  function TryParseInt32(s: string): (r: Option<int>)
    ensures r.Some? ==> IsInt32(r.value)
  {
    var core := TrimEndWhite(TrimEndNul(TrimStartWhite(s)));
    match ParseSigned(core)
    case Some(v) => if IsInt32(v) then Some(v) else None
    case None => None
  }

  /** Without a minus sign nothing parses to a negative number. */
  lemma ParseWithoutMinus(s: string)
    requires '-' !in s
    ensures TryParseInt32(s).Some? ==> TryParseInt32(s).value >= 0
  {
    var start := TrimStartWhite(s);
    var core := TrimEndWhite(TrimEndNul(start));
    TrimStartKeepsOut(s, '-');
    TrimEndNulKeepsOut(start, '-');
    TrimEndWhiteKeepsOut(TrimEndNul(start), '-');
    if |core| > 0 {
      assert core[0] != '-';
    }
  }

  /** Trimming adds no character. */
  lemma {:induction false} TrimStartKeepsOut(s: string, c: char)
    requires c !in s
    ensures c !in TrimStartWhite(s)
    decreases |s|
  {
    if |s| > 0 && IsWhite(s[0]) {
      assert c !in s[1..];
      TrimStartKeepsOut(s[1..], c);
    }
  }

  lemma {:induction false} TrimEndWhiteKeepsOut(s: string, c: char)
    requires c !in s
    ensures c !in TrimEndWhite(s)
    decreases |s|
  {
    if |s| > 0 && IsWhite(s[|s| - 1]) {
      assert c !in s[..|s| - 1];
      TrimEndWhiteKeepsOut(s[..|s| - 1], c);
    }
  }

  lemma {:induction false} TrimEndNulKeepsOut(s: string, c: char)
    requires c !in s
    ensures c !in TrimEndNul(s)
    decreases |s|
  {
    if |s| > 0 && s[|s| - 1] == '\0' {
      assert c !in s[..|s| - 1];
      TrimEndNulKeepsOut(s[..|s| - 1], c);
    }
  }

  /** `int.TryParse` reads back every rendering of a non-negative `int`,
      however much zero padding it carries. */
  lemma ParseFormat(n: int, minDigits: nat)
    requires 0 <= n <= MaxInt32
    ensures TryParseInt32(FormatD(n, minDigits)) == Some(n)
  {
    FormatNonNegative(n, minDigits);
    ParseDigits(FormatD(n, minDigits));
  }

  /** A plain digit string parses to its value when that fits in 32 bits. */
  lemma ParseDigits(s: string)
    requires |s| > 0 && AllDigits(s) && ValueOf(s) <= MaxInt32
    ensures TryParseInt32(s) == Some(ValueOf(s))
  {
    assert IsDigit(s[0]) && IsDigit(s[|s| - 1]);
    TrimDigits(s);
    SignlessDigits(s);
  }

  /** Nothing is trimmed from a string that starts and ends with a digit. */
  lemma TrimDigits(s: string)
    requires |s| > 0 && IsDigit(s[0]) && IsDigit(s[|s| - 1])
    ensures TrimEndWhite(TrimEndNul(TrimStartWhite(s))) == s
  {
    assert TrimStartWhite(s) == s;
    assert TrimEndNul(s) == s;
  }

  /** A digit string is an unsigned number core. */
  lemma SignlessDigits(s: string)
    requires |s| > 0 && AllDigits(s)
    ensures ParseSigned(s) == Some(ValueOf(s))
  {
    assert IsDigit(s[0]);
  }
}
