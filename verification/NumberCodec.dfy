/** Numbers: the text of small integers and what parse_number makes of a number in the input. */
module NumberCodec {
  import opened Bytes
  import opened JsonTree

  // ---- printing ----

  predicate IsDigit(c: Byte) { ZERO <= c <= NINE }

  function Digits(n: nat): (s: CString)
    ensures |s| > 0 && forall i :: 0 <= i < |s| ==> IsDigit(s[i])
  {
    if n < 10 then [ZERO + n] else Digits(n / 10) + [ZERO + n % 10]
  }

  /** What "%1.15g" prints for an integer in range. */
  function Decimal(n: SmallInt): (s: CString)
    ensures |s| > 0 && (IsDigit(s[0]) || s[0] == MINUS)
  {
    if n < 0 then [MINUS] + Digits(-n) else Digits(n)
  }

  // ---- parsing ----

  /** parse_number copies at most this many characters for strtod. */
  const NUMBER_LIMIT: nat := 63

  predicate IsNumberByte(c: Byte) {
    IsDigit(c) || c == PLUS || c == MINUS || c == LOWER_E || c == UPPER_E || c == DOT
  }

  function NumberRun(r: CString, limit: nat): (n: nat)
    ensures n <= limit && n <= |r|
  {
    if limit == 0 || r == [] || !IsNumberByte(r[0]) then 0 else 1 + NumberRun(r[1..], limit - 1)
  }

  function DigitRun(s: CString): (n: nat)
    ensures n <= |s|
    ensures forall i :: 0 <= i < n ==> IsDigit(s[i])
    ensures n < |s| ==> !IsDigit(s[n])
  {
    if s == [] || !IsDigit(s[0]) then 0 else 1 + DigitRun(s[1..])
  }

  function SignLength(s: CString): (n: nat)
    ensures n <= |s|
  {
    if s != [] && (s[0] == MINUS || s[0] == PLUS) then 1 else 0
  }

  /** The length of the fraction: a point and the digits after it. */
  function FractionLength(s: CString): (n: nat)
    ensures n <= |s|
  {
    if s != [] && s[0] == DOT then 1 + DigitRun(s[1..]) else 0
  }

  /** The length of the exponent; without digits there is none. */
  function ExponentLength(s: CString): (n: nat)
    ensures n <= |s|
  {
    if s != [] && (s[0] == LOWER_E || s[0] == UPPER_E) then
      var sign := SignLength(s[1..]);
      var digits := DigitRun(s[1 + sign..]);
      if digits == 0 then 0 else 1 + sign + digits
    else 0
  }

  /** The part of a number token that strtod uses up; 0 when it finds no number. */
  function StrtodLength(s: CString): (n: nat)
    ensures n <= |s|
  {
    var sign := SignLength(s);
    var whole := DigitRun(s[sign..]);
    var fraction := FractionLength(s[sign + whole..]);
    var mantissa := sign + whole + fraction;
    if whole + fraction == 0 || (whole == 0 && fraction == 1) then 0
    else mantissa + ExponentLength(s[mantissa..])
  }

  function DigitsValue(s: CString): int {
    if s == [] then 0 else DigitsValue(s[..|s| - 1]) * 10 + (s[|s| - 1] - ZERO)
  }

  predicate IsInteger(s: CString) {
    var sign := if s != [] && s[0] == MINUS then 1 else 0;
    |s| > sign && DigitRun(s[sign..]) == |s| - sign
  }

  function IntegerValue(s: CString): int {
    if s != [] && s[0] == MINUS then -DigitsValue(s[1..]) else DigitsValue(s)
  }

  /** The number a lexeme denotes. "-0" is not the integer 0: the double keeps its sign. */
  function NumberOf(lexeme: CString): Json {
    var n := IntegerValue(lexeme);
    if IsInteger(lexeme) && -INT_LIMIT < n < INT_LIMIT && (n == 0 ==> lexeme[0] != MINUS)
    then Num(n) else Real(lexeme)
  }

  datatype ReadNum = ReadNum(value: Json, consumed: nat)

  function ReadNumber(r: CString): (x: Option<ReadNum>)
    ensures x.Some? ==> 0 < x.value.consumed <= |r|
    ensures x.Some? ==> x.value.value.Num? || x.value.value.Real?
  {
    var token := r[..NumberRun(r, NUMBER_LIMIT)];
    var n := StrtodLength(token);
    if n == 0 then None else Some(ReadNum(NumberOf(token[..n]), n))
  }

  // ---- round trip ----

  function Pow10(k: nat): nat {
    if k == 0 then 1 else 10 * Pow10(k - 1)
  }

  lemma {:induction false} DigitsAreFew(n: nat, k: nat)
    requires n < Pow10(k) && k > 0
    ensures |Digits(n)| <= k
  {
    if n >= 10 { DigitsAreFew(n / 10, k - 1); }
  }

  lemma {:induction false} ValueOfDigits(n: nat)
    ensures DigitsValue(Digits(n)) == n
  {
    if n >= 10 {
      ValueOfDigits(n / 10);
      assert Digits(n)[..|Digits(n)| - 1] == Digits(n / 10);
    }
  }

  lemma {:induction false} RunOverDigits(s: CString, rest: CString)
    requires forall i :: 0 <= i < |s| ==> IsDigit(s[i])
    requires rest == [] || !IsDigit(rest[0])
    ensures DigitRun(s + rest) == |s|
  {
    if s == [] {
      assert s + rest == rest;
    } else {
      RunOverDigits(s[1..], rest);
      assert (s + rest)[1..] == s[1..] + rest;
    }
  }

  lemma {:induction false} RunOverNumber(s: CString, rest: CString, limit: nat)
    requires forall i :: 0 <= i < |s| ==> IsNumberByte(s[i])
    requires rest == [] || !IsNumberByte(rest[0])
    requires |s| <= limit
    ensures NumberRun(s + rest, limit) == |s|
  {
    if s == [] {
      assert s + rest == rest;
    } else {
      RunOverNumber(s[1..], rest, limit - 1);
      assert (s + rest)[1..] == s[1..] + rest;
    }
  }

  lemma {:induction false} DecimalIsOneLexeme(n: SmallInt)
    ensures StrtodLength(Decimal(n)) == |Decimal(n)|
    ensures NumberOf(Decimal(n)) == Num(n)
    ensures |Decimal(n)| <= 16
  {
    var s := Decimal(n);
    var m: nat := if n < 0 then -n else n;
    var sign := if n < 0 then 1 else 0;
    assert s[sign..] == Digits(m);
    assert Pow10(15) == INT_LIMIT;
    DigitsAreFew(m, 15);
    ValueOfDigits(m);
    RunOverDigits(Digits(m), []);
    assert Digits(m) + [] == Digits(m);
    assert SignLength(s) == sign;
    assert s[|s|..] == [];
    assert n >= 0 ==> s[0..] == s;
  }

  /** Every integer in range reads back as itself when a byte that cannot be part of a number follows. */
  lemma {:induction false} NumberRoundTrip(n: SmallInt, rest: CString)
    requires rest == [] || !IsNumberByte(rest[0])
    ensures ReadNumber(Decimal(n) + rest) == Some(ReadNum(Num(n), |Decimal(n)|))
  {
    DecimalIsOneLexeme(n);
    RunOverNumber(Decimal(n), rest, NUMBER_LIMIT);
    assert (Decimal(n) + rest)[..|Decimal(n)|] == Decimal(n);
    assert Decimal(n)[..|Decimal(n)|] == Decimal(n);
  }
}
