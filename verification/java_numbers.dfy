/** Java's fixed-width integers and their decimal text: the `int`/`long`
    ranges, two's-complement wrap-around for `int` subtraction and for the
    `long -> int` narrowing cast, `Long.toString`, and
    `Long.parseLong`/`Integer.parseInt` restricted to ASCII digits. */
module JavaNumbers {
  import opened Wrappers

  const INT_MIN: int := -0x8000_0000
  const INT_MAX: int := 0x7fff_ffff
  const LONG_MIN: int := -0x8000_0000_0000_0000
  const LONG_MAX: int := 0x7fff_ffff_ffff_ffff

  predicate InInt(x: int) { INT_MIN <= x <= INT_MAX }
  predicate InLong(x: int) { LONG_MIN <= x <= LONG_MAX }

  /** The `int` that two's-complement arithmetic leaves from `x`: the value in
      the 32-bit range congruent to `x` modulo 2^32. This is what `a - b` on
      two `int`s and `(int) someLong` produce. */
  function WrapInt32(x: int): (r: int)
    ensures InInt(r)
    ensures (r - x) % 0x1_0000_0000 == 0
    ensures InInt(x) ==> r == x
  {
    (x - INT_MIN) % 0x1_0000_0000 + INT_MIN
  }

  /** The `long` that two's-complement narrowing leaves from `x`, as
      `BigDecimal.longValue` keeps the low 64 bits of the integer part. */
  function WrapInt64(x: int): (r: int)
    ensures InLong(r)
    ensures (r - x) % 0x1_0000_0000_0000_0000 == 0
    ensures InLong(x) ==> r == x
  {
    (x - LONG_MIN) % 0x1_0000_0000_0000_0000 + LONG_MIN
  }

  function DigitChar(d: int): (c: char)
    requires 0 <= d < 10
    ensures '0' <= c <= '9'
  {
    ('0' as int + d) as char
  }

  predicate IsDigit(c: char) { '0' <= c <= '9' }

  function DigitValue(c: char): (d: int)
    requires IsDigit(c)
    ensures 0 <= d < 10 && DigitChar(d) == c
  {
    c as int - '0' as int
  }

  /** The shortest decimal spelling of a natural number. */
  function NatToDigits(n: nat): (r: string)
    ensures |r| > 0
    ensures AllDigits(r)
    ensures |r| > 1 ==> r[0] != '0'
  {
    if n < 10 then [DigitChar(n)] else NatToDigits(n / 10) + [DigitChar(n % 10)]
  }

  predicate AllDigits(s: string) {
    forall k :: 0 <= k < |s| ==> IsDigit(s[k])
  }

  /** The number an all-digit string spells, most significant digit first. */
  function DigitsValue(s: string): (v: nat)
    requires AllDigits(s)
  {
    if |s| == 0 then 0 else DigitsValue(s[..|s| - 1]) * 10 + DigitValue(s[|s| - 1])
  }

  lemma {:induction false} DigitsRoundTrip(n: nat)
    ensures DigitsValue(NatToDigits(n)) == n
  {
    if n >= 10 {
      DigitsRoundTrip(n / 10);
      var s := NatToDigits(n);
      assert s[..|s| - 1] == NatToDigits(n / 10);
    }
  }

  /** `Long.toString(x)` / `Integer.toString(x)`. */
  function IntToString(x: int): (r: string)
    ensures |r| > 0
    ensures x >= 0 ==> IsDigit(r[0])
    ensures x < 0 ==> r[0] == '-'
  {
    if x < 0 then "-" + NatToDigits(-x) else NatToDigits(x)
  }

  /** The text after an optional leading sign. */
  function Unsigned(s: string): (r: string)
    requires |s| > 0
    ensures |r| <= |s| && |s| - |r| <= 1 && r == s[|s| - |r|..]
    ensures |s| - |r| == 1 <==> s[0] == '-' || s[0] == '+'
  {
    if s[0] == '-' || s[0] == '+' then s[1..] else s
  }

  /** The common core of `Long.parseLong` and `Integer.parseInt`: an optional
      `+` or `-`, then at least one digit and nothing else, and the value must
      lie in `[lo, hi]`; anything else is a NumberFormatException carrying
      the input. No blanks are skipped. */
  function ParseInRange(s: string, lo: int, hi: int): (r: Result<int>)
    ensures r.Ok? ==> lo <= r.value <= hi
    ensures r.Err? ==> r.error == NumberFormat(s)
    ensures |s| == 0 ==> r.Err?
  {
    if |s| == 0 then Err(NumberFormat(s))
    else
      var neg := s[0] == '-';
      var digits := Unsigned(s);
      if |digits| == 0 || !AllDigits(digits) then Err(NumberFormat(s))
      else
        var magnitude: int := DigitsValue(digits);
        var v := if neg then -magnitude else magnitude;
        if lo <= v <= hi then Ok(v) else Err(NumberFormat(s))
  }

  /** `Long.parseLong(s)`. */
  function ParseLong(s: string): (r: Result<int>)
    ensures r.Ok? ==> InLong(r.value)
    ensures r.Err? ==> r.error == NumberFormat(s)
  {
    ParseInRange(s, LONG_MIN, LONG_MAX)
  }

  /** `Integer.parseInt(s)`. */
  function ParseInt(s: string): (r: Result<int>)
    ensures r.Ok? ==> InInt(r.value)
    ensures r.Err? ==> r.error == NumberFormat(s)
  {
    ParseInRange(s, INT_MIN, INT_MAX)
  }

  /** What the parser makes of a sign followed by nothing but digits. */
  lemma ParseSignedDigits(d: string, neg: bool, lo: int, hi: int)
    requires |d| > 0 && AllDigits(d)
    ensures var m: int := DigitsValue(d); var v := if neg then -m else m;
      ParseInRange((if neg then "-" else "") + d, lo, hi)
        == if lo <= v <= hi then Ok(v) else Err(NumberFormat((if neg then "-" else "") + d))
  {
    var s := (if neg then "-" else "") + d;
    assert Unsigned(s) == d;
  }

  /** Parsing gives back every number `toString` prints, within the range. */
  lemma ParseToString(x: int, lo: int, hi: int)
    requires lo <= x <= hi
    ensures ParseInRange(IntToString(x), lo, hi) == Ok(x)
  {
    var m: nat := if x < 0 then -x else x;
    DigitsRoundTrip(m);
    ParseSignedDigits(NatToDigits(m), x < 0, lo, hi);
    if x >= 0 {
      assert "" + NatToDigits(m) == IntToString(x);
    }
  }

  lemma ParseLongToString(x: int)
    requires InLong(x)
    ensures ParseLong(IntToString(x)) == Ok(x)
  {
    ParseToString(x, LONG_MIN, LONG_MAX);
  }

  lemma ParseIntToString(x: int)
    requires InInt(x)
    ensures ParseInt(IntToString(x)) == Ok(x)
  {
    ParseToString(x, INT_MIN, INT_MAX);
  }

  /** A string holding a blank never parses: `parseLong(" 1")` fails. */
  lemma ParseRejectsBlanks(s: string, k: int, lo: int, hi: int)
    requires 0 <= k < |s| && s[k] == ' '
    ensures ParseInRange(s, lo, hi).Err?
  {
    var d := Unsigned(s);
    var j := k - (|s| - |d|);
    assert 0 <= j < |d| && d[j] == ' ';
  }
}
