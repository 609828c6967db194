/** The number tokens the parser takes and the numbers they stand for, written independently of the code. */
module NumberSyntax {
  import opened Bytes
  import opened JsonTree
  import opened NumberCodec

  // ---- tokens ----

  predicate AllDigits(s: CString) {
    forall i :: 0 <= i < |s| ==> 48 <= s[i] <= 57
  }

  predicate IsExponent(s: CString) {
    s == [] ||
    (&& (s[0] == 101 || s[0] == 69)
     && var d := if |s| > 1 && (s[1] == 43 || s[1] == 45) then 2 else 1;
     && d < |s| && AllDigits(s[d..]))
  }

  /** A sign up to `a`, whole digits up to `b`, a fraction up to `c`, and an exponent. */
  predicate NumberParts(s: CString, a: nat, b: nat, c: nat) {
    && a <= b <= c <= |s|
    && (a == 0 || (a == 1 && s[0] == 45)) && AllDigits(s[a..b])
    && (c == b || (s[b] == 46 && AllDigits(s[b + 1..c]))) && (b > a || c > b + 1)
    && IsExponent(s[c..])
  }

  /**
   * A number as the parser takes it: a token of section 6 of RFC 8259, but leading zeros are allowed, and the digits
   * on one side of the point may be missing.
   */
  predicate NumberText(s: CString) {
    |s| <= 63 && exists a: nat, b: nat, c: nat :: a <= b <= c <= |s| && NumberParts(s, a, b, c)
  }

  // ---- values ----

  function TenTo(k: nat): nat {
    if k == 0 then 1 else 10 * TenTo(k - 1)
  }

  /** The number a row of digits stands for, by the place of each digit. */
  function PlaceValue(s: CString): int {
    if s == [] then 0 else (s[0] - 48) * TenTo(|s| - 1) + PlaceValue(s[1..])
  }

  /** A sign at most, and digits. */
  predicate IsWhole(s: CString) {
    s != [] && if s[0] == 45 then |s| > 1 && AllDigits(s[1..]) else AllDigits(s)
  }

  function WholeValue(s: CString): int {
    if s != [] && s[0] == 45 then -PlaceValue(s[1..]) else PlaceValue(s)
  }

  /** Whole numbers below 10^15 are known by value, but for "-0"; any other by its text. */
  predicate NumberMeans(s: CString, j: Json) {
    var n := WholeValue(s);
    if IsWhole(s) && -1_000_000_000_000_000 < n < 1_000_000_000_000_000 && !(n == 0 && s[0] == 45)
    then j.Num? && j.n == n else j == Real(s)
  }

  // ---- the parser of numbers ----

  lemma {:induction false} PlaceValueOfSnoc(s: CString, d: CByte)
    ensures PlaceValue(s + [d]) == 10 * PlaceValue(s) + (d - 48)
  {
    var t := s + [d];
    if s == [] {
      assert t[1..] == [] && TenTo(0) == 1;
    } else {
      assert t[1..] == s[1..] + [d];
      PlaceValueOfSnoc(s[1..], d);
      assert TenTo(|s|) == 10 * TenTo(|s| - 1);
    }
  }

  lemma {:induction false} ValueByPlaces(s: CString)
    ensures DigitsValue(s) == PlaceValue(s)
    decreases |s|
  {
    if s != [] {
      var n := |s| - 1;
      ValueByPlaces(s[..n]);
      PlaceValueOfSnoc(s[..n], s[n]);
      assert s == s[..n] + [s[n]];
    }
  }

  lemma {:induction false} RunOfDigits(s: CString, i: nat, j: nat)
    requires i <= j <= |s| && AllDigits(s[i..j]) && (j < |s| ==> !IsDigit(s[j]))
    ensures DigitRun(s[i..]) == j - i
  {
    assert s[i..] == s[i..j] + s[j..];
    RunOverDigits(s[i..j], s[j..]);
  }

  lemma {:induction false} WholeIsInteger(s: CString)
    ensures IsInteger(s) <==> IsWhole(s)
    ensures IntegerValue(s) == WholeValue(s)
  {
    var sign := if s != [] && s[0] == MINUS then 1 else 0;
    assert s[0..] == s;
    ValueByPlaces(s);
    if sign == 1 { ValueByPlaces(s[1..]); }
    if IsWhole(s) {
      assert s[sign..|s|] == s[sign..];
      RunOfDigits(s, sign, |s|);
    }
  }

  lemma {:induction false} NumberOfMeans(s: CString, j: Json)
    ensures NumberOf(s) == j <==> NumberMeans(s, j)
  {
    hide IsInteger, IsWhole, IntegerValue, WholeValue;
    WholeIsInteger(s);
    if s == [] { NothingIsWhole(); }
  }

  lemma {:induction false} NothingIsWhole()
    ensures !IsWhole([])
  {
  }

  lemma {:induction false} ExponentTaken(s: CString)
    requires s != [] && IsExponent(s)
    ensures ExponentLength(s) == |s|
  {
    var d := if |s| > 1 && (s[1] == 43 || s[1] == 45) then 2 else 1;
    assert s[d..|s|] == s[d..];
    RunOfDigits(s, d, |s|);
    assert d == 1 ==> SignLength(s[1..]) == 0 && s[1..][0] == s[1];
  }

  /** A number token is taken whole by strtod. */
  lemma {:induction false} TokenTakenWhole(s: CString, a: nat, b: nat, c: nat)
    requires NumberParts(s, a, b, c)
    ensures StrtodLength(s) == |s| > 0
  {
    hide SignLength, DigitRun, FractionLength, ExponentLength, AllDigits, IsExponent;
    SignOf(s, a, b, c);
    AfterDigits(s, a, b, c);
    RunOfDigits(s, a, b);
    FractionOf(s, a, b, c);
    if c < |s| { ExponentTaken(s[c..]); } else { NoExponent(s[c..]); }
    StrtodByParts(s, a, b, c);
  }

  lemma {:induction false} StrtodByParts(s: CString, a: nat, b: nat, c: nat)
    requires a <= b <= c <= |s| && (b > a || c > b + 1)
    requires SignLength(s) == a && DigitRun(s[a..]) == b - a && FractionLength(s[b..]) == c - b
    ensures StrtodLength(s) == c + ExponentLength(s[c..])
  {
    hide SignLength, DigitRun, FractionLength, ExponentLength;
  }

  lemma {:induction false} NoExponent(s: CString)
    requires s == []
    ensures ExponentLength(s) == 0
  {
  }

  lemma {:induction false} SignOf(s: CString, a: nat, b: nat, c: nat)
    requires NumberParts(s, a, b, c)
    ensures SignLength(s) == a
  {
    if a == 0 && s != [] {
      assert b > 0 ==> s[0] == s[0..b][0];
      assert s[c..] != [] ==> s[c] == s[c..][0];
    }
  }

  lemma {:induction false} AfterDigits(s: CString, a: nat, b: nat, c: nat)
    requires NumberParts(s, a, b, c)
    ensures b < |s| ==> !IsDigit(s[b])
    ensures c < |s| ==> !IsDigit(s[c]) && s[c] != DOT
  {
    assert c < |s| ==> s[c] == s[c..][0];
  }

  lemma {:induction false} FractionOf(s: CString, a: nat, b: nat, c: nat)
    requires NumberParts(s, a, b, c)
    ensures FractionLength(s[b..]) == c - b
  {
    AfterDigits(s, a, b, c);
    if b < c {
      RunOfDigits(s, b + 1, c);
      assert s[b..][1..] == s[b + 1..];
    }
  }

  lemma {:induction false} TokenBytes(s: CString, a: nat, b: nat, c: nat)
    requires NumberParts(s, a, b, c)
    ensures forall i :: 0 <= i < |s| ==> IsNumberByte(s[i])
  {
    forall i | 0 <= i < |s| ensures IsNumberByte(s[i]) {
      if a <= i < b {
        assert s[i] == s[a..b][i - a];
      } else if b < i < c {
        assert s[i] == s[b + 1..c][i - b - 1];
      } else if c <= i {
        var x := s[c..];
        var d := if |x| > 1 && (x[1] == 43 || x[1] == 45) then 2 else 1;
        assert s[i] == x[i - c];
        if d <= i - c { assert x[i - c] == x[d..][i - c - d]; }
      }
    }
  }

  /** Every number token is read whole, as the number it means, when nothing that could go on with it follows. */
  lemma {:induction false} TokenIsRead(s: CString, rest: CString, j: Json)
    requires NumberText(s) && NumberMeans(s, j) && (rest == [] || !IsNumberByte(rest[0]))
    ensures s != [] && (s[0] == 45 || 48 <= s[0] <= 57 || s[0] == 46)
    ensures j.Num? || j.Real?
    ensures ReadNumber(s + rest) == Some(ReadNum(j, |s|))
  {
    hide StrtodLength, NumberOf, NumberMeans, NumberRun, IsNumberByte;
    var a: nat, b: nat, c: nat :| a <= b <= c <= |s| && NumberParts(s, a, b, c);
    TokenTakenWhole(s, a, b, c);
    TokenBytes(s, a, b, c);
    TokenStart(s, a, b, c);
    NumberOfMeans(s, j);
    KindOfNumber(s, j);
    RunOverNumber(s, rest, NUMBER_LIMIT);
    assert (s + rest)[..|s|] == s && s[..|s|] == s;
  }

  /** Of a text that begins with a number token at least a part is read. */
  lemma {:induction false} PrefixIsRead(s: CString, rest: CString)
    requires NumberText(s)
    ensures ReadNumber(s + rest).Some?
  {
    hide StrtodLength, NumberOf, NumberRun, IsNumberByte;
    var a: nat, b: nat, c: nat :| a <= b <= c <= |s| && NumberParts(s, a, b, c);
    TokenBytes(s, a, b, c);
    LongerRun(s, rest, NUMBER_LIMIT);
    var token := (s + rest)[..NumberRun(s + rest, NUMBER_LIMIT)];
    assert token == s + token[|s|..];
    LongerTokenTaken(s, token[|s|..], a, b, c);
  }

  lemma {:induction false} LongerRun(s: CString, rest: CString, limit: nat)
    requires |s| <= limit && forall i :: 0 <= i < |s| ==> IsNumberByte(s[i])
    ensures NumberRun(s + rest, limit) >= |s|
  {
    if s != [] {
      assert (s + rest)[1..] == s[1..] + rest;
      LongerRun(s[1..], rest, limit - 1);
    }
  }

  lemma {:induction false} LongerTokenTaken(s: CString, rest: CString, a: nat, b: nat, c: nat)
    requires NumberParts(s, a, b, c)
    ensures StrtodLength(s + rest) > 0
  {
    hide ExponentLength;
    var t := s + rest;
    TokenStart(s, a, b, c);
    SignOf(s, a, b, c);
    if b > a {
      assert t[a..][0] == s[a..b][0];
    } else {
      assert t[a] == 46 && t[a..][0] == 46 && t[a..][1..] == t[a + 1..];
      assert t[a + 1..][0] == s[b + 1..c][0];
    }
  }

  lemma {:induction false} KindOfNumber(s: CString, j: Json)
    requires NumberMeans(s, j)
    ensures j.Num? || j.Real?
  {
  }

  lemma {:induction false} TokenStart(s: CString, a: nat, b: nat, c: nat)
    requires NumberParts(s, a, b, c)
    ensures s != [] && (s[0] == 45 || 48 <= s[0] <= 57 || s[0] == 46)
  {
    if a == 0 && b > 0 { assert s[0] == s[0..b][0]; }
  }

  /** And nothing but a number token is read. */
  lemma {:induction false} ReadIsToken(r: CString)
    requires ReadNumber(r).Some? && r != [] && r[0] != PLUS
    ensures var x := ReadNumber(r).value;
            x.consumed <= |r| && NumberText(r[..x.consumed]) && NumberMeans(r[..x.consumed], x.value)
  {
    hide StrtodLength, NumberOf, NumberMeans, NumberRun;
    var token := r[..NumberRun(r, NUMBER_LIMIT)];
    var n := StrtodLength(token);
    assert token[..n] == r[..n];
    assert token[0] == r[0];
    TakenIsToken(token);
    NumberOfMeans(token[..n], ReadNumber(r).value.value);
  }

  lemma {:induction false} TakenIsToken(s: CString)
    requires s != [] && s[0] != PLUS && 0 < StrtodLength(s) <= 63
    ensures NumberText(s[..StrtodLength(s)])
  {
    hide ExponentLength, DigitRun, FractionLength, AllDigits, IsExponent;
    var a := SignLength(s);
    var b := a + DigitRun(s[a..]);
    var c := b + FractionLength(s[b..]);
    var n := StrtodLength(s);
    RunIsDigits(s, a, n);
    FractionIsDigits(s, b, n);
    ExponentIsOne(s[c..]);
    assert s[..n][c..] == s[c..][..n - c];
    assert NumberParts(s[..n], a, b, c);
  }

  lemma {:induction false} RunIsDigits(s: CString, i: nat, n: nat)
    requires i <= |s| && i + DigitRun(s[i..]) <= n <= |s|
    ensures AllDigits(s[..n][i..i + DigitRun(s[i..])])
  {
    hide DigitRun;
    var digits := s[..n][i..i + DigitRun(s[i..])];
    forall k | 0 <= k < |digits| ensures 48 <= digits[k] <= 57 {
      assert digits[k] == s[i..][k] && IsDigit(s[i..][k]);
    }
  }

  lemma {:induction false} FractionIsDigits(s: CString, b: nat, n: nat)
    requires b <= |s| && b + FractionLength(s[b..]) <= n <= |s|
    ensures var c := b + FractionLength(s[b..]);
            c == b || (s[..n][b] == 46 && AllDigits(s[..n][b + 1..c]))
  {
    hide DigitRun;
    if FractionLength(s[b..]) > 0 {
      assert s[b..][1..] == s[b + 1..];
      RunIsDigits(s, b + 1, n);
    }
  }

  lemma {:induction false} ExponentIsOne(s: CString)
    ensures IsExponent(s[..ExponentLength(s)])
  {
    var n := ExponentLength(s);
    if n > 0 {
      var t := s[..n];
      var sign := SignLength(s[1..]);
      var run := DigitRun(s[1 + sign..]);
      assert sign == 1 ==> t[1] == s[1] == s[1..][0];
      assert s[1..][sign..] == s[1 + sign..];
      assert forall i :: 1 + sign <= i < n ==> t[i] == s[1 + sign..][i - 1 - sign];
      assert IsDigit(s[1 + sign..][0]);
      assert sign == 0 ==> t[1] == s[1 + sign..][0];
      assert AllDigits(t[1 + sign..]);
    }
  }

  // ---- the printer of numbers ----

  /** A whole number is printed as the shortest row of digits that stands for it, behind a sign if it is negative. */
  lemma {:induction false} DecimalIsShortest(n: SmallInt, s: CString)
    ensures IsWhole(Decimal(n)) && WholeValue(Decimal(n)) == n && NumberText(Decimal(n))
    ensures IsWhole(s) && WholeValue(s) == n ==> |Decimal(n)| <= |s|
  {
    var d := Decimal(n);
    var m: nat := if n < 0 then -n else n;
    assert Digits(m) == if n < 0 then d[1..] else d;
    ValueByPlaces(Digits(m));
    ValueOfDigits(m);
    DecimalIsOneLexeme(n);
    TakenIsToken(d);
    assert d[..|d|] == d;
    if IsWhole(s) && WholeValue(s) == n {
      if s[0] == 45 {
        ValueIsNat(s[1..]);
        ShortestDigits(m, s[1..]);
      } else {
        ValueIsNat(s);
        ShortestDigits(m, s);
      }
    }
  }

  lemma {:induction false} ValueIsNat(s: CString)
    requires AllDigits(s)
    ensures 0 <= PlaceValue(s) < TenTo(|s|)
  {
    if s != [] {
      ValueIsNat(s[1..]);
      var c: int := s[0];
      OneDigit(c - 48, TenTo(|s| - 1));
    }
  }

  lemma {:induction false} OneDigit(d: int, p: nat)
    requires 0 <= d <= 9
    ensures 0 <= d * p <= 9 * p
  {
  }

  lemma {:induction false} ShortestDigits(m: nat, s: CString)
    requires s != [] && AllDigits(s) && PlaceValue(s) == m
    ensures |Digits(m)| <= |s|
  {
    ValueIsNat(s);
    FewDigits(m, |s|);
  }

  lemma {:induction false} FewDigits(m: nat, k: nat)
    requires m < TenTo(k) && k > 0
    ensures |Digits(m)| <= k
  {
    if m >= 10 { FewDigits(m / 10, k - 1); }
  }
}
