/** `ip2long`: the dotted-quad address text to the integer the index is searched with. */
module Address {
  import opened Outcomes
  import opened Text

  predicate IsDigit(c: char)
  {
    '0' <= c <= '9'
  }

  /** A non-empty run of decimal digits, the only unsigned syntax `strconv.ParseInt(_, 10, _)` takes. */
  predicate IsDigits(s: string)
  {
    |s| > 0 && forall i :: 0 <= i < |s| ==> IsDigit(s[i])
  }

  /** Digits, optionally preceded by one '+' or '-'. */
  predicate IsSignedDecimal(s: string)
  {
    IsDigits(s) || (|s| > 0 && (s[0] == '+' || s[0] == '-') && IsDigits(s[1..]))
  }

  /** The value of a digit string, most significant digit first. */
  function DigitsValue(s: string): (n: nat)
    requires forall i :: 0 <= i < |s| ==> IsDigit(s[i])
    decreases |s|
  {
    if s == [] then 0
    else
      var last := s[|s| - 1];
      assert IsDigit(last);
      DigitsValue(s[..|s| - 1]) * 10 + (last as int - '0' as int)
  }

  /**
   * The value `strconv.ParseInt(s, 10, 64)` returns when its error is ignored, as `ip2long`
   * does: a signed decimal is read, and anything else gives 0. The clamping it does on int64
   * overflow is not modelled.
   */
  function ParseDecimal(s: string): (r: int)
    ensures !IsSignedDecimal(s) ==> r == 0
    ensures IsDigits(s) ==> r >= 0
  {
    if IsDigits(s) then DigitsValue(s)
    else if |s| > 0 && s[0] == '+' && IsDigits(s[1..]) then DigitsValue(s[1..])
    else if |s| > 0 && s[0] == '-' && IsDigits(s[1..]) then -(DigitsValue(s[1..]) as int)
    else 0
  }

  function DigitChar(d: nat): (c: char)
    requires d < 10
    ensures IsDigit(c) && c as int - '0' as int == d
  {
    ('0' as int + d) as char
  }

  /** The shortest decimal spelling of `n`: the partner that `ParseDecimal` inverts. */
  function DecimalString(n: nat): (s: string)
    ensures IsDigits(s)
    decreases n
  {
    if n < 10 then [DigitChar(n)] else DecimalString(n / 10) + [DigitChar(n % 10)]
  }

  lemma {:induction false} DigitsValueOfDecimalString(n: nat)
    ensures DigitsValue(DecimalString(n)) == n
    decreases n
  {
    var s := DecimalString(n);
    if n >= 10 {
      DigitsValueOfDecimalString(n / 10);
      assert s[..|s| - 1] == DecimalString(n / 10);
    }
  }

  /** Parsing the decimal spelling of a natural number gives the number back. */
  lemma ParseDecimalOfDecimalString(n: nat)
    ensures ParseDecimal(DecimalString(n)) == n
  {
    DigitsValueOfDecimalString(n);
  }

  /** The four parts of an address text with value `a0*2^24 + a1*2^16 + a2*2^8 + a3`. */
  function QuadValue(a0: int, a1: int, a2: int, a3: int): int
  {
    a0 * 0x100_0000 + a1 * 0x1_0000 + a2 * 0x100 + a3
  }

  /**
   * What `ip2long` returns: a format error unless the text splits on '.' into exactly four
   * parts, and otherwise the parts' values shifted left by 24, 16, 8 and 0 bits and summed.
   * A part is not checked against 0..255.
   */
  function ParseAddress(ipStr: string): (r: Result<int>)
  {
    var bits := Split(ipStr, '.');
    if |bits| != 4 then Failure(AddressFormat)
    else Success(QuadValue(ParseDecimal(bits[0]), ParseDecimal(bits[1]),
                           ParseDecimal(bits[2]), ParseDecimal(bits[3])))
  }

  /** `bit << uint(24-8*i)` in the loop of `ip2long`, for part `i` of four (no int64 wrap). */
  function ShiftedPart(bits: seq<string>, i: nat): int
    requires i < |bits| && i < 4
  {
    ParseDecimal(bits[i]) * (if i == 0 then 0x100_0000 else if i == 1 then 0x1_0000 else if i == 2 then 0x100 else 1)
  }

  /** The sum of the first `n` shifted parts: what the loop of `ip2long` has after `n` rounds. */
  function ShiftedSum(bits: seq<string>, n: nat): int
    requires n <= |bits| && n <= 4
  {
    if n == 0 then 0 else ShiftedSum(bits, n - 1) + ShiftedPart(bits, n - 1)
  }

  /** `ip2long`, with the accumulating loop of the source. */
  method Ip2Long(ipStr: string) returns (r: Result<int>)
    ensures r == ParseAddress(ipStr)
  {
    var bits := Split(ipStr, '.');
    if |bits| != 4 {
      return Failure(AddressFormat);
    }
    var sum := 0;
    for i := 0 to 4
      invariant sum == ShiftedSum(bits, i)
    {
      sum := sum + ShiftedPart(bits, i);
    }
    assert ShiftedSum(bits, 2) == ShiftedPart(bits, 0) + ShiftedPart(bits, 1);
    assert ShiftedSum(bits, 4) == ShiftedSum(bits, 2) + ShiftedPart(bits, 2) + ShiftedPart(bits, 3);
    return Success(sum);
  }

  /** `ip2long` fails exactly when the text does not hold three '.' characters. */
  lemma FormatErrorIffNotThreeDots(ipStr: string)
    ensures ParseAddress(ipStr).Failure? <==> Count(ipStr, '.') != 3
    ensures ParseAddress(ipStr).Failure? ==> ParseAddress(ipStr).error == AddressFormat
  {
    SplitLength(ipStr, '.');
  }

  /** The dotted-quad spelling of four numbers, e.g. "202.102.9.110". */
  function DottedQuad(a0: nat, a1: nat, a2: nat, a3: nat): string
  {
    Join([DecimalString(a0), DecimalString(a1), DecimalString(a2), DecimalString(a3)], '.')
  }

  /**
   * Every dotted quad parses, to the value of its four numbers; numbers above 255 are
   * accepted too, so "256.0.0.0" gives 2^32.
   */
  lemma DottedQuadRoundTrip(a0: nat, a1: nat, a2: nat, a3: nat)
    ensures ParseAddress(DottedQuad(a0, a1, a2, a3)) == Success(QuadValue(a0, a1, a2, a3))
  {
    var parts := [DecimalString(a0), DecimalString(a1), DecimalString(a2), DecimalString(a3)];
    forall i | 0 <= i < 4
      ensures '.' !in parts[i]
    {
      assert forall j :: 0 <= j < |parts[i]| ==> parts[i][j] != '.' by {
        assert IsDigits(parts[i]);
      }
    }
    SplitJoin(parts, '.');
    ParseDecimalOfDecimalString(a0);
    ParseDecimalOfDecimalString(a1);
    ParseDecimalOfDecimalString(a2);
    ParseDecimalOfDecimalString(a3);
  }
}
