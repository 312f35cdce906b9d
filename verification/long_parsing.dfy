/** Kotlin's `String.toLongOrNull()` in radix 10, and `mapNotNull` over it: how the
    stored source-id strings are read back as ids. */
module LongParsing {
  import opened Wrappers

  const LONG_MIN: int := -0x8000_0000_0000_0000
  const LONG_MAX: int := 0x7FFF_FFFF_FFFF_FFFF

  predicate IsDigit(c: char)
  {
    '0' <= c <= '9'
  }

  predicate AllDigits(s: string)
  {
    forall i :: 0 <= i < |s| ==> IsDigit(s[i])
  }

  function DigitValue(c: char): nat
    requires IsDigit(c)
  {
    c as int - '0' as int
  }

  function DigitChar(d: nat): char
    requires d < 10
  {
    ('0' as int + d) as char
  }

  /** The value of a string of decimal digits, most significant first. */
  function DigitsValue(s: string): nat
    requires AllDigits(s)
    decreases |s|
  {
    if s == [] then 0 else DigitsValue(s[..|s| - 1]) * 10 + DigitValue(s[|s| - 1])
  }

  /** `toLongOrNull()`: an optional `-` or `+`, then at least one digit and
      nothing else, and a value that fits in a Long; anything else is null. */
  function ParseLong(s: string): (r: Option<int>)
    ensures r.Some? ==> LONG_MIN <= r.value <= LONG_MAX
    ensures r.Some? ==> exists i :: 0 <= i < |s| && IsDigit(s[i])
  {
    if |s| == 0 then None
    else
      var digits := if s[0] == '-' || s[0] == '+' then s[1..] else s;
      if |digits| == 0 || !AllDigits(digits) then None
      else
        assert IsDigit(s[|s| - 1]);
        var magnitude: int := DigitsValue(digits);
        var v: int := if s[0] == '-' then -magnitude else magnitude;
        if LONG_MIN <= v <= LONG_MAX then Some(v) else None
  }

  /** Decimal digits of a natural number, without leading zeros. */
  function NatToDigits(n: nat): (s: string)
    ensures |s| > 0 && AllDigits(s)
    decreases n
  {
    if n < 10 then [DigitChar(n)] else NatToDigits(n / 10) + [DigitChar(n % 10)]
  }

  /** `Long.toString()`. */
  function LongToString(n: int): string
  {
    if n < 0 then "-" + NatToDigits(-n) else NatToDigits(n)
  }

  /** `mapNotNull { it.toLongOrNull() }`: the entries that parse, in order. */
  function ParseIds(ss: seq<string>): (ids: seq<int>)
    ensures |ids| <= |ss|
    decreases |ss|
  {
    if ss == [] then []
    else
      var rest := ParseIds(ss[..|ss| - 1]);
      match ParseLong(ss[|ss| - 1])
      case None => rest
      case Some(v) => rest + [v]
  }

  // ---------------------------------------------------------------- lemmas

  lemma {:induction false} DigitsRoundTrip(n: nat)
    ensures DigitsValue(NatToDigits(n)) == n
    decreases n
  {
    if n >= 10 {
      var s := NatToDigits(n);
      assert s[..|s| - 1] == NatToDigits(n / 10);
      DigitsRoundTrip(n / 10);
    }
  }

  /** Every Long written out in decimal parses back to itself. */
  lemma ParseLongRoundTrip(n: int)
    requires LONG_MIN <= n <= LONG_MAX
    ensures ParseLong(LongToString(n)) == Some(n)
  {
    var s := LongToString(n);
    if n < 0 {
      assert s[1..] == NatToDigits(-n);
      DigitsRoundTrip(-n);
    } else {
      var d := NatToDigits(n);
      assert d == s && IsDigit(d[0]);
      DigitsRoundTrip(n);
    }
  }

  /** A lone sign, a stray character and a value beyond the Long range all give
      null. */
  lemma ParseLongRejects(s: string)
    ensures ParseLong("") == None && ParseLong("-") == None && ParseLong("+") == None
    ensures (exists i :: 0 < i < |s| && !IsDigit(s[i])) ==> ParseLong(s) == None
    ensures |s| > 0 && !IsDigit(s[0]) && s[0] != '-' && s[0] != '+' ==> ParseLong(s) == None
    ensures AllDigits(s) && DigitsValue(s) > LONG_MAX ==> ParseLong(s) == None
  {
    if s != [] && AllDigits(s) {
      assert !(s[0] == '-' || s[0] == '+') by { assert IsDigit(s[0]); }
    }
  }

  /** An id is kept exactly when some entry parses to it; entries that do not
      parse are dropped. */
  lemma {:induction false} ParseIdsMembership(ss: seq<string>, x: int)
    ensures x in ParseIds(ss) <==> exists s :: s in ss && ParseLong(s) == Some(x)
    decreases |ss|
  {
    if ss != [] {
      var init := ss[..|ss| - 1];
      ParseIdsMembership(init, x);
      assert ss == init + [ss[|ss| - 1]];
      if exists s :: s in ss && ParseLong(s) == Some(x) {
        var s :| s in ss && ParseLong(s) == Some(x);
        if s != ss[|ss| - 1] {
          assert s in init;
        }
      }
    }
  }
}
