/**
 * `parsePort` of main.go: the port segment of the request path, read as a
 * base-10 signed 32-bit integer (strconv.ParseInt(port, 10, 32)), with the
 * default game port when it is empty or does not parse.
 */
module Port {
  import opened Wire

  const DefaultPort: int := 25565
  const MinInt32: int := -0x8000_0000
  const MaxInt32: int := 0x7FFF_FFFF

  predicate IsDigit(c: char)
  {
    '0' <= c <= '9'
  }

  predicate AllDigits(s: string)
  {
    forall i :: 0 <= i < |s| ==> IsDigit(s[i])
  }

  /** The value of a run of decimal digits, accumulated from the left. */
  function DecimalValue(s: string): (r: nat)
    requires AllDigits(s)
  {
    if s == [] then 0 else 10 * DecimalValue(s[..|s| - 1]) + (s[|s| - 1] as int - '0' as int)
  }

  /**
   * Strconv.ParseInt(s, 10, 32), with every error (empty input, a sign
   * with no digits, a character that is not a digit, a value outside the
   * 32-bit range) as None: parsePort treats them all alike.
   */
  function ParseInt32(s: string): (r: Option<int>)
    ensures r.Some? ==> MinInt32 <= r.value <= MaxInt32
  {
    if s == [] then None
    else
      var neg := s[0] == '-';
      var digits := if s[0] == '+' || s[0] == '-' then s[1..] else s;
      if digits == [] || !AllDigits(digits) then None
      else
        var u: int := DecimalValue(digits);
        if !neg && u > MaxInt32 then None
        else if neg && u > -MinInt32 then None
        else Some(if neg then -u else u)
  }

  function ParsePort(port: string): (r: int)
    ensures port == [] ==> r == DefaultPort
    ensures MinInt32 <= r <= MaxInt32
    ensures ParseInt32(port).None? ==> r == DefaultPort
  {
    if port == [] then DefaultPort
    else
      match ParseInt32(port)
      case Some(v) => v
      case None => DefaultPort
  }

  // ---------------------------------------------------------------------
  // Decimal text of an integer, strconv.Itoa, as the reference the parser
  // is checked against.

  function DigitChar(d: nat): (c: char)
    requires d < 10
    ensures IsDigit(c) && c as int - '0' as int == d
  {
    ('0' as int + d) as char
  }

  /** The decimal digits of n, most significant first, without leading zeros. */
  function Decimal(n: nat): (s: string)
    ensures |s| >= 1 && AllDigits(s)
    ensures |s| > 1 ==> s[0] != '0'
  {
    if n < 10 then [DigitChar(n)] else Decimal(n / 10) + [DigitChar(n % 10)]
  }

  function FormatInt(n: int): (s: string)
  {
    if n < 0 then "-" + Decimal(-n) else Decimal(n)
  }

  lemma {:induction false} DecimalValueOfDecimal(n: nat)
    ensures DecimalValue(Decimal(n)) == n
  {
    if n >= 10 {
      var s := Decimal(n);
      assert s[..|s| - 1] == Decimal(n / 10);
      DecimalValueOfDecimal(n / 10);
    }
  }

  /**
   * A non-empty run of digits with no sign: its value when that lies in the
   * 32-bit range, otherwise no value.
   */
  lemma ParseInt32Unsigned(digits: string)
    requires digits != [] && AllDigits(digits)
    ensures ParseInt32(digits) ==
      if DecimalValue(digits) <= MaxInt32 then Some(DecimalValue(digits)) else None
  {
    assert IsDigit(digits[0]);
  }

  /**
   * A sign followed by a non-empty run of digits: the value, negated after a
   * minus sign, when it lies in the 32-bit range, otherwise no value.
   */
  lemma ParseInt32Signed(sign: char, digits: string)
    requires sign == '+' || sign == '-'
    requires digits != [] && AllDigits(digits)
    ensures ParseInt32([sign] + digits) ==
      var u: int := DecimalValue(digits);
      if sign == '-' then (if u <= -MinInt32 then Some(-u) else None)
      else (if u <= MaxInt32 then Some(u) else None)
  {
    assert ([sign] + digits)[1..] == digits;
  }

  /** Every 32-bit integer written in decimal parses back to itself. */
  lemma ParsePortOfFormatInt(n: int)
    requires MinInt32 <= n <= MaxInt32
    ensures ParsePort(FormatInt(n)) == n
  {
    if n < 0 {
      DecimalValueOfDecimal(-n);
      ParseInt32Signed('-', Decimal(-n));
    } else {
      DecimalValueOfDecimal(n);
      ParseInt32Unsigned(Decimal(n));
    }
  }

  /** An explicit plus sign is accepted. */
  lemma ParsePortPlusSign(n: nat)
    requires n <= MaxInt32
    ensures ParsePort("+" + Decimal(n)) == n
  {
    DecimalValueOfDecimal(n);
    ParseInt32Signed('+', Decimal(n));
  }

  /** A decimal integer outside the signed 32-bit range gives the default. */
  lemma ParsePortOutOfRange(n: int)
    requires n < MinInt32 || MaxInt32 < n
    ensures ParsePort(FormatInt(n)) == DefaultPort
  {
    if n < 0 {
      DecimalValueOfDecimal(-n);
      ParseInt32Signed('-', Decimal(-n));
    } else {
      DecimalValueOfDecimal(n);
      ParseInt32Unsigned(Decimal(n));
    }
  }

  /**
   * A character that is neither a digit nor a leading sign gives the
   * default, and so does a sign with nothing after it.
   */
  lemma ParsePortNotDecimal(s: string, k: nat)
    requires k < |s| && !IsDigit(s[k])
    requires k == 0 ==> (s[0] != '+' && s[0] != '-') || |s| == 1
    ensures ParsePort(s) == DefaultPort
  {
    if k > 0 && (s[0] == '+' || s[0] == '-') {
      assert s[1..][k - 1] == s[k];
    }
  }

  lemma ParsePortExamples()
    ensures ParsePort("") == DefaultPort
    ensures ParsePort("abc") == DefaultPort
  {
    ParsePortNotDecimal("abc", 0);
  }

  /** The default port of the Bedrock edition, written out. */
  lemma ParsePortBedrock()
    ensures ParsePort("19132") == 19132
  {
    ParseInt32Unsigned("19132");
    assert "19132"[..4] == "1913" && "1913"[..3] == "191";
    assert "191"[..2] == "19" && "19"[..1] == "1" && "1"[..0] == "";
  }
}
