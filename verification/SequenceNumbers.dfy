/** SequenceNumber_t: a 64-bit count kept as a signed high and an unsigned low 32-bit word. */
module SequenceNumbers {
  import opened Basics

  const MAX_HIGH := 0x7FFF_FFFF

  datatype SequenceNumber = SequenceNumber(high: int, low: int) {
    ghost predicate Valid() {
      -MAX_HIGH - 1 <= high <= MAX_HIGH && 0 <= low < WORD
    }

    /** The number the two words stand for. */
    ghost function Value(): int {
      high * WORD + low
    }
  }

  predicate Less(a: SequenceNumber, b: SequenceNumber) {
    if a.high == b.high then a.low < b.low else a.high < b.high
  }

  /** operator +: the low word wraps and a wrap carries into the high word. */
  function Plus(s: SequenceNumber, inc: int): SequenceNumber
    requires s.Valid() && 0 <= inc < WORD
  {
    var low := (s.low + inc) % WORD;
    SequenceNumber(if low < s.low then s.high + 1 else s.high, low)
  }

  /** operator -: the low word wraps and a wrap borrows from the high word. */
  function Minus(s: SequenceNumber, dec: int): SequenceNumber
    requires s.Valid() && 0 <= dec < WORD
  {
    SequenceNumber(if dec > s.low then s.high - 1 else s.high, (s.low - dec) % WORD)
  }

  /** The comparison operators are those of the represented numbers, so a tracker may count in integers. */
  lemma OrderIsNumeric(a: SequenceNumber, b: SequenceNumber)
    requires a.Valid() && b.Valid()
    ensures Less(a, b) <==> a.Value() < b.Value()
    ensures a == b <==> a.Value() == b.Value()
  {
    if a.high < b.high { assert (b.high - a.high) * WORD >= WORD; }
    if a.high > b.high { assert (a.high - b.high) * WORD >= WORD; }
  }

  /** Adding and subtracting are exact for as long as the result still has a high word. */
  lemma PlusMinusAreNumeric(s: SequenceNumber, d: int)
    requires s.Valid() && 0 <= d < WORD
    ensures Plus(s, d).Value() == s.Value() + d
    ensures Minus(s, d).Value() == s.Value() - d
    ensures Plus(s, d).Valid() <==> s.Value() + d < (MAX_HIGH + 1) * WORD
    ensures Minus(s, d).Valid() <==> s.Value() - d >= -(MAX_HIGH + 1) * WORD
    ensures Plus(s, d).Valid() ==> Minus(Plus(s, d), d) == s
  {
    assert s.low + d < WORD ==> (s.low + d) % WORD == s.low + d;
    assert s.low + d >= WORD ==> (s.low + d) % WORD == s.low + d - WORD;
    assert s.low < d ==> (s.low - d) % WORD == s.low - d + WORD;
  }

  /** What the operators assert before they touch the high word. */
  predicate PlusAsserts(s: SequenceNumber, inc: int) {
    (s.low + inc) % WORD < s.low ==> MAX_HIGH > s.high
  }

  predicate MinusAsserts(s: SequenceNumber, dec: int) {
    dec > s.low ==> 0 < s.high
  }

  /** The assertion of + is exactly that the result fits.  That of - is exactly that the result is not negative, for
      a number that is not; from a negative high word it lets nothing be borrowed, even where the result fits. */
  lemma AssertsMean(s: SequenceNumber, d: int)
    requires s.Valid() && 0 <= d < WORD
    ensures PlusAsserts(s, d) <==> Plus(s, d).Valid()
    ensures s.high >= 0 ==> (MinusAsserts(s, d) <==> Minus(s, d).Value() >= 0)
    ensures s.high < 0 ==> (MinusAsserts(s, d) <==> Minus(s, d).high == s.high)
  {
    PlusMinusAreNumeric(s, d);
    assert s.high > 0 ==> s.high * WORD >= WORD;
  }
}
