/** Decimal text as the C++ library writes and reads it: std::to_string, and the scan shared by strtol-style
    conversions and formatted stream extraction (leading space, one optional sign, digits). */
module Decimal {

  predicate IsDigit(c: char) {
    '0' <= c <= '9'
  }

  predicate IsSpace(c: char) {
    c == ' ' || '\t' <= c <= '\r'
  }

  function DigitOf(d: nat): char
    requires d < 10
  {
    '0' + d as char
  }

  function ValueOf(c: char): nat
    requires IsDigit(c)
  {
    (c - '0') as nat
  }

  predicate AllDigits(s: string) {
    forall i :: 0 <= i < |s| ==> IsDigit(s[i])
  }

  /** The number a string of digits stands for. */
  function Value(s: string): nat
    requires AllDigits(s)
  {
    if s == [] then 0 else 10 * Value(s[..|s| - 1]) + ValueOf(s[|s| - 1])
  }

  function Digits(n: nat): (s: string)
    ensures s != [] && AllDigits(s)
  {
    if n < 10 then [DigitOf(n)] else Digits(n / 10) + [DigitOf(n % 10)]
  }

  /** std::to_string of an integer. */
  function ToText(n: int): string {
    if n < 0 then "-" + Digits(-n) else Digits(n)
  }

  lemma {:induction false} DigitsValue(n: nat)
    ensures Value(Digits(n)) == n
  {
    if n >= 10 { DigitsValue(n / 10); }
  }

  /** How many leading characters are digits. */
  function DigitRun(s: string): (k: nat)
    ensures k <= |s| && AllDigits(s[..k]) && (k < |s| ==> !IsDigit(s[k]))
  {
    if s == [] || !IsDigit(s[0]) then 0
    else
      var k := DigitRun(s[1..]);
      assert s[..k + 1] == [s[0]] + s[1..][..k];
      k + 1
  }

  function SpaceRun(s: string): (k: nat)
    ensures k <= |s| && (k < |s| ==> !IsSpace(s[k])) && forall i :: 0 <= i < k ==> IsSpace(s[i])
  {
    if s == [] || !IsSpace(s[0]) then 0 else 1 + SpaceRun(s[1..])
  }

  /** digits == 0 means that no number was found; end is where the scan stopped. */
  datatype Scan = Scan(negative: bool, magnitude: nat, digits: nat, end: nat) {
    function Number(): int {
      if negative then 0 - magnitude else magnitude
    }
  }

  function ScanNumber(s: string): (r: Scan)
    ensures r.end <= |s| && r.digits <= r.end
  {
    var space := SpaceRun(s);
    var signed := space < |s| && (s[space] == '-' || s[space] == '+');
    var start := if signed then space + 1 else space;
    var k := DigitRun(s[start..]);
    Scan(signed && s[space] == '-', Value(s[start..][..k]), k, start + k)
  }

  lemma AllDigitsRun(s: string)
    requires AllDigits(s)
    ensures DigitRun(s) == |s| && s[..DigitRun(s)] == s
  {
    assert DigitRun(s) == |s|;
  }

  lemma PlainScans(s: string)
    requires AllDigits(s) && s != []
    ensures ScanNumber(s) == Scan(false, Value(s), |s|, |s|)
  {
    assert IsDigit(s[0]) && SpaceRun(s) == 0;
    assert s[0..] == s;
    AllDigitsRun(s);
  }

  lemma NegativeScans(s: string)
    requires AllDigits(s) && s != []
    ensures ScanNumber("-" + s) == Scan(true, Value(s), |s|, |s| + 1)
  {
    var t := "-" + s;
    assert SpaceRun(t) == 0;
    assert t[1..] == s;
    AllDigitsRun(s);
  }

  /** The scan reads back what to_string wrote, to the last character. */
  lemma TextScans(n: int)
    ensures var r := ScanNumber(ToText(n)); r.digits > 0 && r.end == |ToText(n)| && r.Number() == n
    ensures ScanNumber(ToText(n)).negative <==> n < 0
  {
    if n < 0 {
      DigitsValue(-n);
      NegativeScans(Digits(-n));
    } else {
      DigitsValue(n);
      PlainScans(Digits(n));
    }
  }

  /** A string is space, an optional sign, at least one digit, and a rest that goes on with no digit. */
  ghost predicate Writes(s: string, space: string, sign: string, digits: string, rest: string) {
    && s == space + (sign + (digits + rest))
    && (forall i :: 0 <= i < |space| ==> space[i] == ' ' || 9 <= space[i] as int <= 13)
    && (sign == "" || sign == "+" || sign == "-")
    && digits != "" && AllDigits(digits) && (rest == "" || !IsDigit(rest[0]))
  }

  /** The number so written. */
  ghost function Written(sign: string, digits: string): int {
    if !AllDigits(digits) then 0 else if sign == "-" then 0 - Value(digits) else Value(digits)
  }

  lemma {:induction false} SpacesRun(space: string, rest: string)
    requires forall i :: 0 <= i < |space| ==> IsSpace(space[i])
    requires rest == "" || !IsSpace(rest[0])
    ensures SpaceRun(space + rest) == |space|
  {
    if space == "" {
      assert space + rest == rest;
    } else {
      assert (space + rest)[1..] == space[1..] + rest;
      SpacesRun(space[1..], rest);
    }
  }

  lemma {:induction false} DigitsRun(digits: string, rest: string)
    requires AllDigits(digits) && (rest == "" || !IsDigit(rest[0]))
    ensures DigitRun(digits + rest) == |digits|
  {
    if digits == "" {
      assert digits + rest == rest;
    } else {
      assert (digits + rest)[1..] == digits[1..] + rest;
      DigitsRun(digits[1..], rest);
    }
  }

  /** The scan reads any such string: the sign, the value of the digits, and where they end. */
  lemma WrittenScans(s: string, space: string, sign: string, digits: string, rest: string)
    requires Writes(s, space, sign, digits, rest)
    ensures AllDigits(digits) && digits != ""
    ensures ScanNumber(s) == Scan(sign == "-", Value(digits), |digits|, |space| + |sign| + |digits|)
    ensures ScanNumber(s).Number() == Written(sign, digits)
  {
    hide Value, SpaceRun, DigitRun, Writes, AllDigits, ScanNumber;
    WrittenParts(s, space, sign, digits, rest);
    ScanFrom(s, |space|, |space| + |sign|, |digits|);
  }

  /** The scan, once space, sign and digits are found. */
  lemma ScanFrom(s: string, space: nat, start: nat, k: nat)
    requires SpaceRun(s) == space < |s| && start <= |s|
    requires start == if s[space] == '-' || s[space] == '+' then space + 1 else space
    requires DigitRun(s[start..]) == k <= |s| - start
    ensures AllDigits(s[start..][..k])
    ensures ScanNumber(s) == Scan(s[space] == '-', Value(s[start..][..k]), k, start + k)
  {
    hide Value, SpaceRun, DigitRun;
  }

  lemma WrittenParts(s: string, space: string, sign: string, digits: string, rest: string)
    requires Writes(s, space, sign, digits, rest)
    ensures AllDigits(digits) && digits != "" && (sign == "" || sign == "+" || sign == "-")
    ensures SpaceRun(s) == |space| < |s| && |space| + |sign| <= |s|
    ensures (s[|space|] == '-' <==> sign == "-") && (s[|space|] == '+' <==> sign == "+")
    ensures DigitRun(s[|space| + |sign|..]) == |digits| <= |s| - |space| - |sign|
    ensures s[|space| + |sign|..][..|digits|] == digits
  {
    hide SpaceRun, DigitRun, AllDigits;
    var body := digits + rest;
    var tail := sign + body;
    SignFirst(sign, digits, rest);
    SpacesRun(space, tail);
    assert s[|space|] == tail[0];
    DropConcat(space, tail, |sign|);
    DropConcat(sign, body, 0);
    DigitsRun(digits, rest);
    assert body[..|digits|] == digits;
  }

  lemma SignFirst(sign: string, digits: string, rest: string)
    requires (sign == "" || sign == "+" || sign == "-") && digits != "" && AllDigits(digits)
    ensures var tail := sign + (digits + rest);
            && !IsSpace(tail[0]) && (tail[0] == '-' <==> sign == "-") && (tail[0] == '+' <==> sign == "+")
  {
    assert IsDigit(digits[0]);
    var tail := sign + (digits + rest);
    if sign == "" { assert tail[0] == digits[0]; } else { assert tail[0] == sign[0]; }
  }

  lemma DropConcat(a: string, b: string, k: nat)
    requires k <= |b|
    ensures (a + b)[|a| + k..] == b[k..] && (k == 0 ==> b[k..] == b)
  {
  }

  /** Without a digit behind the space and the sign no number is found. */
  lemma NothingScans(s: string, space: string, sign: string, rest: string)
    requires s == space + sign + rest && (forall i :: 0 <= i < |space| ==> IsSpace(space[i]))
    requires sign == "+" || sign == "-" || (sign == "" && (rest == "" || (!IsSpace(rest[0]) && rest[0] !in "+-")))
    requires rest == "" || !IsDigit(rest[0])
    ensures ScanNumber(s).digits == 0
  {
    hide SpaceRun, DigitRun;
    var tail := sign + rest;
    assert s == space + tail;
    SpacesRun(space, tail);
    assert tail != "" ==> s[|space|] == tail[0];
    assert s[|space| + |sign|..] == rest;
    DigitsRun("", rest);
    assert "" + rest == rest;
  }

  /** Leading zeros do not count, so every string of digits has the value of the number it prints. */
  lemma {:induction false} LeadingZeros(zeros: nat, n: nat)
    ensures var s := seq(zeros, _ => '0') + Digits(n); AllDigits(s) && Value(s) == n
    decreases n
  {
    var front := seq(zeros, _ => '0');
    var s := front + Digits(n);
    if n < 10 {
      assert s[..|s| - 1] == front;
      ZerosValue(zeros);
    } else {
      LeadingZeros(zeros, n / 10);
      assert s[..|s| - 1] == front + Digits(n / 10);
    }
  }

  lemma {:induction false} ZerosValue(zeros: nat)
    ensures var s := seq(zeros, _ => '0'); AllDigits(s) && Value(s) == 0
  {
    if zeros > 0 {
      ZerosValue(zeros - 1);
      assert seq(zeros, _ => '0')[..zeros - 1] == seq(zeros - 1, _ => '0');
    }
  }

  /** Printed numbers have no leading zero, and a minus sign exactly when negative. */
  lemma {:induction false} TextCanonical(n: nat)
    ensures Digits(n)[0] == '0' <==> n == 0
    ensures n == 0 ==> Digits(n) == "0"
    ensures n > 0 ==> ToText(0 - n) == "-" + ToText(n)
    decreases n
  {
    if n >= 10 { TextCanonical(n / 10); }
  }
}
