/** The text form of annotation parameter values: to_string and from_string over the integer, enumeration,
    string, boolean and character members of the union. */
module AnnotationText {
  import opened Basics
  import opened Decimal
  import opened Optional

  datatype Kind = Boolean | Byte | Int16 | Uint16 | Int32 | Uint32 | Int64 | Uint64 | Char8 | Enum | String8 | NoKind

  /** The union: the discriminator and the selected member; without a kind the string member stands in. */
  datatype Value = Flag(b: bool) | Number(kind: Kind, n: int) | Text(s: string) | Untyped(s: string) {
    function Discriminator(): Kind {
      match this
      case Flag(_) => Boolean
      case Number(k, _) => k
      case Text(_) => String8
      case Untyped(_) => NoKind
    }

    /** The member's C++ type can hold the number. */
    ghost predicate Fits() {
      Number? ==> kind != Boolean && kind != String8 && kind != NoKind && Lowest(kind) <= n <= Highest(kind)
    }
  }

  function Bits(kind: Kind): nat {
    match kind
    case Byte => 8
    case Char8 => 8
    case Int16 => 16
    case Uint16 => 16
    case Int64 => 64
    case Uint64 => 64
    case _ => 32
  }

  predicate Signed(kind: Kind) {
    kind == Int16 || kind == Int32 || kind == Int64 || kind == Enum || kind == Char8
  }

  /** 2 to the power of the width. */
  function Span(bits: nat): int {
    if bits == 8 then 0x100 else if bits == 16 then 0x1_0000
    else if bits == 64 then 0x1_0000_0000_0000_0000 else 0x1_0000_0000
  }

  function Lowest(kind: Kind): int {
    if Signed(kind) then -(Span(Bits(kind)) / 2) else 0
  }

  function Highest(kind: Kind): int {
    if Signed(kind) then Span(Bits(kind)) / 2 - 1 else Span(Bits(kind)) - 1
  }

  /** static_cast to the member's type: reduction modulo the width, then the sign. */
  function Cast(kind: Kind, x: int): int {
    var m := x % Span(Bits(kind));
    if Signed(kind) && m >= Span(Bits(kind)) / 2 then m - Span(Bits(kind)) else m
  }

  /** std::stoi and std::stoll: None when they throw. */
  function SignedConversion(s: string, bits: nat): Option<int> {
    var r := ScanNumber(s);
    if r.digits > 0 && -(Span(bits) / 2) <= r.Number() < Span(bits) / 2 then Some(r.Number()) else None
  }

  /** std::stoul and std::stoull: a minus sign negates modulo 2^64. */
  function UnsignedConversion(s: string): Option<int> {
    var r := ScanNumber(s);
    if r.digits > 0 && r.magnitude < Span(64) then Some(r.Number() % Span(64)) else None
  }

  /** to_string */
  function Print(v: Value): string {
    match v
    case Flag(b) => if b then "true" else "false"
    case Number(_, n) => ToText(n)
    case Text(s) => s
    case Untyped(s) => s
  }

  /** from_string under a discriminator: None when the conversion throws. */
  function Parse(kind: Kind, s: string): Option<Value> {
    match kind
    case Boolean => Some(Flag(s != "0"))
    case String8 => Some(Text(s))
    case NoKind => Some(Text(s))
    case Char8 => Some(Number(Char8, Cast(Char8, if s == [] then 0 else s[0] as int)))
    case Int16 => Store(kind, SignedConversion(s, 32))
    case Int32 => Store(kind, SignedConversion(s, 32))
    case Int64 => Store(kind, SignedConversion(s, 64))
    case _ => Store(kind, UnsignedConversion(s))
  }

  function Store(kind: Kind, x: Option<int>): Option<Value> {
    if x.None? then None else Some(Number(kind, Cast(kind, x.value)))
  }

  /** The integer kinds, with the ranges of their C++ types. */
  ghost predicate IsInteger(kind: Kind) {
    kind != Boolean && kind != Char8 && kind != String8 && kind != NoKind
  }

  lemma KindRanges()
    ensures Lowest(Byte) == 0 && Highest(Byte) == 255
    ensures Lowest(Int16) == -32768 && Highest(Int16) == 32767 && Lowest(Uint16) == 0 && Highest(Uint16) == 65535
    ensures Lowest(Int32) == Lowest(Enum) == -0x8000_0000 && Highest(Int32) == Highest(Enum) == 0x7FFF_FFFF
    ensures Lowest(Uint32) == 0 && Highest(Uint32) == 0xFFFF_FFFF
    ensures Lowest(Int64) == -0x8000_0000_0000_0000 && Highest(Int64) == 0x7FFF_FFFF_FFFF_FFFF
    ensures Lowest(Uint64) == 0 && Highest(Uint64) == 0xFFFF_FFFF_FFFF_FFFF
  {
  }

  /** A cast changes a number by a multiple of the width and lands in the range of the kind. */
  lemma CastMeans(kind: Kind, x: int)
    ensures Lowest(kind) <= Cast(kind, x) <= Highest(kind)
    ensures exists q: int :: Cast(kind, x) == x + q * Span(Bits(kind))
  {
    var m := Span(Bits(kind));
    assert x == x / m * m + x % m;
    var q := if Signed(kind) && x % m >= m / 2 then -(x / m) - 1 else -(x / m);
    assert Cast(kind, x) == x + q * m;
  }

  /** Under an integer kind any written number is read, whatever space, sign and rest there is: it throws exactly
      when the number is out of range for the conversion, and otherwise stores the cast of it. */
  lemma ParseReads(kind: Kind, s: string, space: string, sign: string, digits: string, rest: string)
    requires IsInteger(kind) && Writes(s, space, sign, digits, rest)
    ensures var n := Written(sign, digits);
            && ((kind == Int16 || kind == Int32) ==> (Parse(kind, s).None? <==> !(-0x8000_0000 <= n < 0x8000_0000)))
            && (kind == Int64 ==>
                  (Parse(kind, s).None? <==> !(-0x8000_0000_0000_0000 <= n < 0x8000_0000_0000_0000)))
            && (kind != Int16 && kind != Int32 && kind != Int64 ==>
                  (Parse(kind, s).None? <==> Decimal.Value(digits) >= 0x1_0000_0000_0000_0000))
    ensures Lowest(kind) <= Written(sign, digits) <= Highest(kind) ==>
              Parse(kind, s) == Some(Number(kind, Written(sign, digits)))
  {
    hide ScanNumber, Writes, Decimal.Value;
    WrittenScans(s, space, sign, digits, rest);
    var n := Written(sign, digits);
    if Lowest(kind) <= n <= Highest(kind) {
      if kind == Enum && n < 0 {
        EnumWraps(n);
      } else {
        CastFits(kind, n);
        if n >= 0 { DivModUnique(n, Span(64), 0, n); }
      }
    }
  }

  /** Under an integer kind a text without a number throws. */
  lemma ParseThrows(kind: Kind, s: string)
    requires IsInteger(kind) && ScanNumber(s).digits == 0
    ensures Parse(kind, s).None?
  {
    hide ScanNumber;
  }

  /** A value of an integer kind survives being printed and parsed under the same discriminator; negative
      enumerators do so through the wrap-around of stoul and the narrowing cast. */
  lemma NumberRoundTrip(kind: Kind, n: int)
    requires kind != Char8
    requires Number(kind, n).Fits()
    ensures Parse(kind, Print(Number(kind, n))) == Some(Number(kind, n))
  {
    hide ScanNumber, ToText;
    TextScans(n);
    if kind == Enum && n < 0 { EnumWraps(n); } else { CastFits(kind, n); }
    assert Print(Number(kind, n)) == ToText(n);
    if Signed(kind) && kind != Enum {
      assert SignedConversion(ToText(n), if kind == Int64 then 64 else 32) == Some(n);
    } else {
      assert UnsignedConversion(ToText(n)) == Some(n % Span(64));
    }
  }

  lemma CastFits(kind: Kind, n: int)
    requires Lowest(kind) <= n <= Highest(kind)
    ensures Cast(kind, n) == n
  {
    var m := Span(Bits(kind));
    if n < 0 { DivModUnique(n, m, -1, n + m); } else { DivModUnique(n, m, 0, n); }
  }

  lemma EnumWraps(n: int)
    requires -0x8000_0000 <= n < 0
    ensures Cast(Enum, n % Span(64)) == n
  {
    DivModUnique(n, Span(64), -1, n + Span(64));
    DivModUnique(n + Span(64), Span(32), Span(32) - 1, n + Span(32));
  }

  /** What survives being printed and parsed: every integer, enumerator and string, the boolean true, and the
      character 5. */
  predicate Survives(v: Value) {
    match v
    case Flag(b) => b
    case Number(kind, n) => kind == Char8 ==> n == 53
    case Text(_) => true
    case Untyped(_) => false
  }

  /** The round trip, exactly: a value comes back under its own discriminator if and only if it is one of those. */
  lemma RoundTrip(v: Value)
    requires v.Fits()
    ensures Parse(v.Discriminator(), Print(v)) == Some(v) <==> Survives(v)
  {
    hide ToText, Cast, UnsignedConversion, SignedConversion;
    match v
    case Flag(b) => BooleanRoundTrip(b);
    case Number(kind, n) => if kind == Char8 { CharRoundTrip(n); } else { NumberRoundTrip(kind, n); }
    case _ =>
  }

  /** Booleans print as words but parse against "0": the round trip holds for true and for true only. */
  lemma BooleanRoundTrip(b: bool)
    ensures Parse(Boolean, Print(Flag(b))) == Some(Flag(b)) <==> b
  {
    assert "false"[0] != "0"[0];
  }

  /** Characters print as numbers but parse as a first character: among all 256 codes only 53, whose decimal
      text starts with the character 53 itself, survives. */
  lemma CharRoundTrip(c: int)
    requires Number(Char8, c).Fits()
    ensures Parse(Char8, Print(Number(Char8, c))) == Some(Number(Char8, c)) <==> c == 53
  {
    hide ToText, Digits;
    LeadingCharacter(c);
    CastFits(Char8, c);
    CastFits(Char8, ToText(c)[0] as int);
  }

  lemma LeadingCharacter(c: int)
    requires -128 <= c < 128
    ensures ToText(c) != []
    ensures ToText(c)[0] as int ==
            if c < 0 then 45 else if c < 10 then 48 + c else if c < 100 then 48 + c / 10 else 49
  {
    if c >= 10 {
      assert c < 100 ==> Digits(c / 10) == [DigitOf(c / 10)];
      assert c >= 100 ==> c / 10 / 10 == 1 && Digits(c / 10) == [DigitOf(1)] + [DigitOf(c / 10 % 10)];
    }
  }

  // ---------------------------------------------------------------------------------------------
  // The class: a discriminator and one member per kind

  class AnnotationParameterValue {
    var d: Kind
    var booleanValue: bool
    var byteValue: int
    var int16Value: int
    var uint16Value: int
    var int32Value: int
    var uint32Value: int
    var int64Value: int
    var uint64Value: int
    var charValue: int
    var enumeratedValue: int
    var string8Value: string

    constructor ()
      ensures d == NoKind && string8Value == ""
    {
      d, booleanValue, string8Value := NoKind, false, "";
      byteValue, int16Value, uint16Value, int32Value, uint32Value := 0, 0, 0, 0, 0;
      int64Value, uint64Value, charValue, enumeratedValue := 0, 0, 0, 0;
    }

    /** The selected member. */
    function Selected(): (v: Value)
      reads this
      ensures v.Discriminator() == d
    {
      match d
      case Boolean => Flag(booleanValue)
      case Byte => Number(d, byteValue)
      case Int16 => Number(d, int16Value)
      case Uint16 => Number(d, uint16Value)
      case Int32 => Number(d, int32Value)
      case Uint32 => Number(d, uint32Value)
      case Int64 => Number(d, int64Value)
      case Uint64 => Number(d, uint64Value)
      case Char8 => Number(d, charValue)
      case Enum => Number(d, enumeratedValue)
      case String8 => Text(string8Value)
      case NoKind => Untyped(string8Value)
    }

    /** to_string */
    method ToString() returns (s: string)
      ensures s == Print(Selected())
      ensures d == Boolean ==> s == if booleanValue then "true" else "false"
      ensures d == String8 || d == NoKind ==> s == string8Value
      ensures Selected().Number? ==>
                var r := ScanNumber(s); r.digits > 0 && r.end == |s| && r.Number() == Selected().n
    {
      if Selected().Number? { TextScans(Selected().n); }
      hide ToText, ScanNumber;
      match d
      case Boolean => s := if booleanValue then "true" else "false";
      case Byte => s := ToText(byteValue);
      case Int16 => s := ToText(int16Value);
      case Uint16 => s := ToText(uint16Value);
      case Int32 => s := ToText(int32Value);
      case Uint32 => s := ToText(uint32Value);
      case Int64 => s := ToText(int64Value);
      case Uint64 => s := ToText(uint64Value);
      case Char8 => s := ToText(charValue);
      case Enum => s := ToText(enumeratedValue);
      case String8 => s := string8Value;
      case NoKind => s := string8Value;
    }

    /** from_string: the selected member becomes what the text reads as, no other one changes, and nothing at all
        does when a conversion throws.  On the text of a value of this kind that is this value if and only if the
        value survives. */
    method FromString(s: string) returns (threw: bool)
      modifies this
      ensures var r := Parse(old(d), s);
              threw == r.None? && Selected() == if r.None? then old(Selected()) else r.value
      ensures forall v: Value :: v.Fits() && v.Discriminator() == old(d) && s == Print(v) ==>
                (!threw && Selected() == v <==> Survives(v))
      ensures old(d) == Boolean ==> !threw && d == Boolean && (booleanValue <==> s != "0")
      ensures old(d) == String8 || old(d) == NoKind ==> !threw && d == String8 && string8Value == s
      ensures old(d) == Char8 && s != "" && s[0] as int < 128 ==> !threw && d == Char8 && charValue == s[0] as int
      ensures old(d) == Char8 && s == "" ==> !threw && d == Char8 && charValue == 0
      ensures forall space, sign, digits, rest :: Writes(s, space, sign, digits, rest) && IsInteger(old(d)) ==>
                (Lowest(old(d)) <= Written(sign, digits) <= Highest(old(d)) ==>
                   !threw && Selected() == Number(old(d), Written(sign, digits)))
      ensures IsInteger(old(d)) && ScanNumber(s).digits == 0 ==> threw
      ensures old(d) != Boolean ==> booleanValue == old(booleanValue)
      ensures old(d) != Byte ==> byteValue == old(byteValue)
      ensures old(d) != Int16 ==> int16Value == old(int16Value)
      ensures old(d) != Uint16 ==> uint16Value == old(uint16Value)
      ensures old(d) != Int32 ==> int32Value == old(int32Value)
      ensures old(d) != Uint32 ==> uint32Value == old(uint32Value)
      ensures old(d) != Int64 ==> int64Value == old(int64Value)
      ensures old(d) != Uint64 ==> uint64Value == old(uint64Value)
      ensures old(d) != Char8 ==> charValue == old(charValue)
      ensures old(d) != Enum ==> enumeratedValue == old(enumeratedValue)
      ensures old(d) != String8 && old(d) != NoKind ==> string8Value == old(string8Value)
    {
      hide ToText, ScanNumber, Print, Survives, Writes, Written, Cast, SignedConversion, UnsignedConversion;
      ParseMeans(d, s);
      threw := false;
      match d
      case Boolean =>
        var val := Lower(s);
        LowerZero(s);
        booleanValue := val != "0" || val == "true";
      case Byte =>
        var x := UnsignedConversion(s);
        if x.None? { return true; }
        byteValue := Cast(Byte, x.value);
      case Int16 =>
        var x := SignedConversion(s, 32);
        if x.None? { return true; }
        int16Value := Cast(Int16, x.value);
      case Uint16 =>
        var x := UnsignedConversion(s);
        if x.None? { return true; }
        uint16Value := Cast(Uint16, x.value);
      case Int32 =>
        var x := SignedConversion(s, 32);
        if x.None? { return true; }
        int32Value := Cast(Int32, x.value);
      case Uint32 =>
        var x := UnsignedConversion(s);
        if x.None? { return true; }
        uint32Value := Cast(Uint32, x.value);
      case Int64 =>
        var x := SignedConversion(s, 64);
        if x.None? { return true; }
        int64Value := Cast(Int64, x.value);
      case Uint64 =>
        var x := UnsignedConversion(s);
        if x.None? { return true; }
        uint64Value := Cast(Uint64, x.value);
      case Char8 =>
        charValue := Cast(Char8, if s == [] then 0 else s[0] as int);
      case Enum =>
        var x := UnsignedConversion(s);
        if x.None? { return true; }
        enumeratedValue := Cast(Enum, x.value);
      case String8 =>
        string8Value := s;
      case NoKind =>
        string8Value, d := s, String8;  // the setter selects its member
    }
  }

  /** What Parse gives, by the text alone. */
  lemma ParseMeans(kind: Kind, s: string)
    ensures forall v: Value :: v.Fits() && v.Discriminator() == kind && s == Print(v) ==>
              (Parse(kind, s) == Some(v) <==> Survives(v))
    ensures forall space, sign, digits, rest :: Writes(s, space, sign, digits, rest) && IsInteger(kind) ==>
              (Lowest(kind) <= Written(sign, digits) <= Highest(kind) ==>
                 Parse(kind, s) == Some(Number(kind, Written(sign, digits))))
    ensures IsInteger(kind) && ScanNumber(s).digits == 0 ==> Parse(kind, s).None?
    ensures kind == Char8 && s != "" && s[0] as int < 128 ==> Cast(Char8, s[0] as int) == s[0] as int
    ensures Cast(Char8, 0) == 0
  {
    CastFits(Char8, 0);
    hide ToText, ScanNumber, Print, Survives, Writes, Written, Parse, Cast;
    forall v: Value | v.Fits() && v.Discriminator() == kind && s == Print(v)
      ensures Parse(kind, s) == Some(v) <==> Survives(v)
    {
      RoundTrip(v);
    }
    forall space, sign, digits, rest | Writes(s, space, sign, digits, rest) && IsInteger(kind)
      ensures Lowest(kind) <= Written(sign, digits) <= Highest(kind) ==>
                Parse(kind, s) == Some(Number(kind, Written(sign, digits)))
    {
      ParseReads(kind, s, space, sign, digits, rest);
    }
    if IsInteger(kind) && ScanNumber(s).digits == 0 { ParseThrows(kind, s); }
    if kind == Char8 && s != "" && s[0] as int < 128 { CastFits(Char8, s[0] as int); }
  }

  /** std::tolower over a string. */
  function Lower(s: string): (r: string)
    ensures |r| == |s|
  {
    seq(|s|, i requires 0 <= i < |s| => if 'A' <= s[i] <= 'Z' then s[i] - 'A' + 'a' else s[i])
  }

  /** Lowering makes no string "0" that was not. */
  lemma LowerZero(s: string)
    ensures Lower(s) == "0" <==> s == "0"
  {
    if |s| == 1 {
      assert Lower(s)[0] == if 'A' <= s[0] <= 'Z' then s[0] - 'A' + 'a' else s[0];
      assert s == [s[0]] && Lower(s) == [Lower(s)[0]];
    }
  }
}
