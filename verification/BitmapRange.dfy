/** BitmapRange, the 256-bit sliding set behind SequenceNumberSet_t: a base, a highest allowed item, a count of
    significant bits and eight 32-bit words, the lowest item in the most significant bit.  A word is its 32 bits,
    most significant first. */
module BitmapRange {
  import opened Ascending
  import opened Basics

  const NBITS := 256
  const NITEMS := 8

  type Word = seq<bool>

  // ---------------------------------------------------------------------------------------------
  // Word operations

  function Fill(b: bool): (w: Word)
    ensures |w| == 32 && forall j :: 0 <= j < 32 ==> w[j] == b
  {
    seq(32, _ => b)
  }

  /** w >> n */
  function ShiftRight(w: Word, n: nat): (r: Word)
    requires |w| == 32 && n <= 32
    ensures |r| == 32 && forall j :: 0 <= j < 32 ==> r[j] == (j >= n && w[j - n])
  {
    seq(32, j requires 0 <= j < 32 => j >= n && w[j - n])
  }

  /** w << n */
  function ShiftLeft(w: Word, n: nat): (r: Word)
    requires |w| == 32 && n <= 32
    ensures |r| == 32 && forall j :: 0 <= j < 32 ==> r[j] == (j + n < 32 && w[j + n])
  {
    seq(32, j requires 0 <= j < 32 => j + n < 32 && w[j + n])
  }

  function Or(v: Word, w: Word): (r: Word)
    requires |v| == |w| == 32
    ensures |r| == 32 && forall j :: 0 <= j < 32 ==> r[j] == (v[j] || w[j])
  {
    seq(32, j requires 0 <= j < 32 => v[j] || w[j])
  }

  function And(v: Word, w: Word): (r: Word)
    requires |v| == |w| == 32
    ensures |r| == 32 && forall j :: 0 <= j < 32 ==> r[j] == (v[j] && w[j])
  {
    seq(32, j requires 0 <= j < 32 => v[j] && w[j])
  }

  // ---------------------------------------------------------------------------------------------
  // The abstract set

  /** No bit is set from numBits on. */
  ghost predicate Bounded(bits: seq<bool>, numBits: nat) {
    |bits| == NBITS && numBits <= NBITS && forall k :: numBits <= k < NBITS ==> !bits[k]
  }

  /** numBits ends at the last set bit, which is what empty() and max() rely on. */
  ghost predicate Tight(bits: seq<bool>, numBits: nat)
    requires Bounded(bits, numBits)
  {
    numBits > 0 ==> bits[numBits - 1]
  }

  /** bits[k] stands for the item base + k. */
  datatype Bitmap = Bitmap(base: int, rangeMax: int, numBits: nat, bits: seq<bool>) {
    ghost predicate Valid() {
      base <= rangeMax < base + NBITS && Bounded(bits, numBits)
    }

    ghost predicate Holds(item: int)
      requires |bits| == NBITS
    {
      base <= item < base + NBITS && bits[item - base]
    }
  }

  /** The empty range of the base-only constructor. */
  function Empty(base: int): (b: Bitmap)
    ensures b.Valid() && b.base == base && forall item: int :: !b.Holds(item)
  {
    Bitmap(base, base + NBITS - 1, 0, seq(NBITS, _ => false))
  }

  /** add */
  function AddItem(b: Bitmap, item: int): Bitmap
    requires |b.bits| == NBITS && b.rangeMax < b.base + NBITS
  {
    if b.base <= item <= b.rangeMax
    then b.(numBits := Max(item - b.base + 1, b.numBits), bits := b.bits[item - b.base := true])
    else b
  }

  /** What add_range sets: every item of [start, past) within the 256 of the bitmap. */
  function AddSpan(b: Bitmap, start: int, past: int): Bitmap
    requires |b.bits| == NBITS
  {
    var lo := Max(b.base, start);
    var hi := if past >= b.base + NBITS then b.base + NBITS else past;
    if lo >= hi then b
    else b.(numBits := Max(b.numBits, hi - b.base),
            bits := seq(NBITS, k requires 0 <= k < NBITS => b.bits[k] || lo <= b.base + k < hi))
  }

  /** The loop that add_range is documented to be equivalent to. */
  function AddEach(b: Bitmap, start: int, past: int): (r: Bitmap)
    requires |b.bits| == NBITS && b.rangeMax < b.base + NBITS
    ensures |r.bits| == NBITS && r.base == b.base && r.rangeMax == b.rangeMax
    decreases past - start
  {
    if start >= past then b else AddItem(AddEach(b, start, past - 1), past - 1)
  }

  class BitmapRange {
    var base: int
    var rangeMax: int
    var numBits: nat
    var bitmap: seq<Word>  // a std::array: a value of eight words inside the object

    ghost predicate Shaped()
      reads this
    {
      WordsOk(bitmap)
    }

    ghost function State(): (b: Bitmap)
      requires Shaped()
      reads this
      ensures |b.bits| == NBITS
    {
      Bitmap(base, rangeMax, numBits, Bits(bitmap))
    }

    /** The empty range from a base on, with at most maxBits above it. */
    constructor (base: int, maxBits: nat)
      ensures Shaped()
      ensures State() == Empty(base).(rangeMax := base + (if maxBits < NBITS - 1 then maxBits else NBITS - 1))
    {
      this.base, numBits := base, 0;
      rangeMax := base + if maxBits < NBITS - 1 then maxBits else NBITS - 1;
      bitmap := seq(NITEMS, _ => Fill(false));
    }

    /** is_set */
    method IsSet(item: int) returns (r: bool)
      requires Shaped() && State().Valid()
      ensures r <==> State().Holds(item) && item <= rangeMax
    {
      if item >= base && rangeMax >= item {
        var diff := item - base;
        if diff < numBits {
          assert State().bits[diff] == bitmap[diff / 32][diff % 32];
          return bitmap[diff / 32][diff % 32];
        }
      }
      return false;
    }

    /** add: exactly the items in the allowed range are added. */
    method Add(item: int) returns (added: bool)
      requires Shaped() && State().Valid()
      modifies this`numBits, this`bitmap
      ensures Shaped() && State() == AddItem(old(State()), item) && (added <==> base <= item <= rangeMax)
      ensures State().Valid()
      ensures forall i: int :: State().Holds(i) <==> old(State()).Holds(i) || (i == item && added)
      ensures old(Tight(Bits(bitmap), numBits)) ==> Tight(Bits(bitmap), numBits)
    {
      if item >= base && rangeMax >= item {
        var diff := item - base;
        numBits := Max(diff + 1, numBits);
        ghost var was := Bits(bitmap);
        bitmap := bitmap[diff / 32 := bitmap[diff / 32][diff % 32 := true]];
        assert Bits(bitmap) == was[diff := true];
        return true;
      }
      return false;
    }

    /** add_range: whole words first, then the part of a word that is left, set exactly the wanted bits. */
    method AddRange(start: int, past: int)
      requires Shaped()
      modifies this`numBits, this`bitmap
      ensures Shaped() && State() == AddSpan(old(State()), start, past)
    {
      var min := if base >= start then base else start;
      var max := if past >= base + NBITS then base + NBITS else past;
      if min >= max { return; }
      var offset, nBits := min - base, max - min;
      numBits := if numBits > offset + nBits then numBits else offset + nBits;
      SetBits(offset, nBits);
    }

    /** base_update: the difference of the bases passes through a uint32_t, then the words slide. */
    method BaseUpdate(newBase: int)
      requires Shaped() && State().Valid()
      modifies this
      ensures Shaped() && State() == Rebased(old(State()), newBase)
      ensures base == newBase && rangeMax == if newBase == old(base) then old(rangeMax) else newBase + 255
    {
      hide Bits, Slid, Bounded, Distance, SlidCount;
      if newBase == base { return; }
      Distances(base, newBase);
      if newBase > base {
        ShiftMapLeft((newBase - base) % WORD);
      } else {
        ShiftMapRight((base - newBase) % WORD);
      }
      base, rangeMax := newBase, newBase + NBITS - 1;
    }

    method ShiftMapLeft(n: nat)
      requires Shaped() && State().Valid()
      modifies this`numBits, this`bitmap
      ensures Shaped() && Bits(bitmap) == Slid(old(Bits(bitmap)), n)
      ensures numBits == SlidCount(old(Bits(bitmap)), old(numBits), n)
    {
      hide Bits, Slid, NoBits;
      SlidLeftEmpty(Bits(bitmap), numBits, n);
      if n >= numBits {
        numBits := 0;
        Clear();
      } else {
        numBits := numBits - n;
        var items, bits := WordAndBit(n);
        SlideWordsLeft(items, bits, n);
      }
    }

    method Clear()
      requires Shaped()
      modifies this`bitmap
      ensures Shaped() && Bits(bitmap) == NoBits()
    {
      ZeroWords(0, NITEMS);
    }

    /** std::fill_n with zero over the words from lo up to hi. */
    method ZeroWords(lo: nat, hi: nat)
      requires Shaped() && lo <= hi <= NITEMS
      modifies this`bitmap
      ensures Shaped()
      ensures forall w :: 0 <= w < NITEMS ==> bitmap[w] == if lo <= w < hi then Fill(false) else old(bitmap)[w]
    {
      var i := lo;
      while i < hi
        invariant lo <= i <= hi && Shaped()
        invariant forall w :: 0 <= w < NITEMS ==> bitmap[w] == if lo <= w < i then Fill(false) else old(bitmap)[w]
      {
        bitmap := bitmap[i := Fill(false)];
        i := i + 1;
      }
    }

    /** Forward over the words, each built from a word further on and the start of the one after it. */
    method SlideWordsLeft(items: nat, bits: nat, ghost n: nat)
      requires Shaped() && items < NITEMS && bits < 32 && n == 32 * items + bits
      modifies this`bitmap
      ensures Shaped() && Bits(bitmap) == Slid(old(Bits(bitmap)), n)
    {
      hide Slid, Bits, Or, ShiftLeft, ShiftRight, LeftWord;
      ghost var was := bitmap;
      var i, m := 0, items;
      while m < NITEMS
        invariant 0 <= i <= NITEMS && m == i + items && Shaped() && m <= NITEMS
        invariant forall w :: 0 <= w < i ==> bitmap[w] == LeftWord(was, w + items, bits)
        invariant forall w :: i <= w < NITEMS ==> bitmap[w] == was[w]
      {
        var word := if bits == 0 then bitmap[m]
                    else if m + 1 < NITEMS then Or(ShiftLeft(bitmap[m], bits), ShiftRight(bitmap[m + 1], 32 - bits))
                    else ShiftLeft(bitmap[m], bits);
        LeftWordBuilt(was, m, bits);
        bitmap := bitmap[i := word];
        i, m := i + 1, m + 1;
      }
      ZeroWords(NITEMS - items, NITEMS);
      SlidLeft(was, bitmap, items, bits, n);
    }

    /** The count moves along with the bits even when there are none. */
    method ShiftMapRight(n: nat)
      requires Shaped() && State().Valid()
      modifies this`numBits, this`bitmap
      ensures Shaped() && Bits(bitmap) == Slid(old(Bits(bitmap)), 0 - n)
      ensures numBits == SlidCount(old(Bits(bitmap)), old(numBits), 0 - n)
    {
      hide Bits, Slid, NoBits, EmptyBelow, LastSet;
      SlidRightEmpty(Bits(bitmap), n);
      if n >= NBITS {
        numBits := 0;
        Clear();
      } else {
        var newNumBits := numBits + n;
        var items, bits := WordAndBit(n);
        SlideWordsRight(items, bits, n);
        numBits := newNumBits;
        if newNumBits > NBITS {
          EmptyFurtherDown(Bits(bitmap), 32 * items, n);
          CalcMaximumBitSet(NITEMS, items);
        }
      }
    }

    /** Backward over the words, each built from a word further back and the end of the one before it. */
    method SlideWordsRight(items: nat, bits: nat, ghost n: nat)
      requires Shaped() && items < NITEMS && bits < 32 && n == 32 * items + bits
      modifies this`bitmap
      ensures Shaped() && Bits(bitmap) == Slid(old(Bits(bitmap)), 0 - n)
    {
      hide Slid, Bits, Or, ShiftLeft, ShiftRight, RightWord;
      ghost var was := bitmap;
      var i, m: int := NITEMS - 1, NITEMS - 1 - items;
      while m >= 0
        invariant -1 <= m == i - items && i < NITEMS && Shaped()
        invariant forall w :: i < w < NITEMS ==> bitmap[w] == RightWord(was, w - items, bits)
        invariant forall w :: 0 <= w <= i ==> bitmap[w] == was[w]
      {
        var word := if bits == 0 then bitmap[m]
                    else if m > 0 then Or(ShiftRight(bitmap[m], bits), ShiftLeft(bitmap[m - 1], 32 - bits))
                    else ShiftRight(bitmap[m], bits);
        RightWordBuilt(was, m, bits);
        bitmap := bitmap[i := word];
        i, m := i - 1, m - 1;
      }
      ZeroWords(0, items);
      SlidRight(was, bitmap, items, bits, n);
    }

    /** calc_maximum_bit_set over the words from `least` up to `past`, when the other ones are empty. */
    method CalcMaximumBitSet(past: nat, least: nat)
      requires Shaped() && least <= past <= NITEMS
      requires EmptyBelow(Bits(bitmap), 32 * least) && EmptyFrom(Bits(bitmap), 32 * past)
      modifies this`numBits
      ensures numBits == LastSet(Bits(bitmap)) + 1
    {
      hide LastSet;
      numBits := 0;
      var i := past;
      while i > least
        invariant least <= i <= past && numBits == 0
        invariant forall k :: 32 * i <= k < NBITS ==> !Bits(bitmap)[k]
      {
        i := i - 1;
        var last := LastSet(bitmap[i]);
        if last >= 0 {
          assert Bits(bitmap)[32 * i + last];
          numBits := 32 * i + last + 1;
          return;
        }
      }
    }

    /** remove: up to max() it clears the bit, and looks for the new last one if it cleared the last.  With a count
        of 0 the uint32_t count less one wraps, so max() is far above the words; `inside` tells whether the access
        stays within them.  If it does not, the source is undefined and the model stops. */
    method Remove(item: int) returns (inside: bool)
      requires Shaped() && State().Valid()
      modifies this`numBits, this`bitmap
      ensures inside <==> RemovesInside(old(State()), item)
      ensures Shaped() && State().Valid()
      ensures inside ==> forall i: int :: State().Holds(i) <==> old(State()).Holds(i) && i != item
      ensures old(Tight(Bits(bitmap), numBits)) ==> Tight(Bits(bitmap), numBits)
    {
      hide LastSet;
      WrappedMax(State());
      var maxValue := MaxItem(base, numBits);
      if item >= base && maxValue >= item {
        var diff := item - base;
        if diff / 32 >= NITEMS { return false; }
        ghost var was := Bits(bitmap);
        bitmap := bitmap[diff / 32 := bitmap[diff / 32][diff % 32 := false]];
        assert Bits(bitmap) == was[diff := false];
        if item == maxValue {
          CalcMaximumBitSet(diff / 32 + 1, 0);
        }
      }
      inside := true;
    }

    /** min: the lowest item held, or the base if there is none. */
    method MinItem() returns (r: int)
      requires Shaped() && State().Valid()
      ensures if exists item: int :: State().Holds(item)
              then State().Holds(r) && forall item: int :: State().Holds(item) ==> r <= item
              else r == base
    {
      var item, longs := base, (numBits + 31) / 32;
      for i := 0 to longs
        invariant longs <= NITEMS && item == base + 32 * i && EmptyBelow(Bits(bitmap), 32 * i)
      {
        var offset := FirstSet(bitmap[i]);
        if offset < 32 {
          assert Bits(bitmap)[32 * i + offset];
          assert State().Holds(item + offset);
          forall k | 32 * i <= k < 32 * i + offset ensures !Bits(bitmap)[k] { assert !bitmap[i][k - 32 * i]; }
          return item + offset;
        }
        item := item + 32;
      }
      assert forall k :: 0 <= k < NBITS ==> !Bits(bitmap)[k];
      r := base;
    }

    /** for_each: the items held, each once and in ascending order. */
    method ForEach() returns (items: seq<int>)
      requires Shaped() && State().Valid()
      ensures IsAscending(items) && forall item: int :: item in items <==> State().Holds(item)
    {
      hide Bits, FirstSet;
      items := [];
      var item, longs := base, (numBits + 31) / 32;
      for i := 0 to longs
        invariant longs <= NITEMS && item == base + 32 * i && IsAscending(items)
        invariant forall n: int :: n in items <==> State().Holds(n) && n < item
      {
        var visited := VisitWord(item, bitmap[i]);
        forall n: int | item <= n < item + 32 ensures State().Holds(n) == bitmap[i][n - item] {
          BitAt(bitmap, i, n - item);
        }
        ConcatAscending(items, visited);
        items := items + visited;
        item := item + 32;
      }
    }

    /** bitmap_set: the words of a received bitmap, with its unused bits trimmed. */
    method BitmapSet(num: nat, words: seq<Word>)
      requires Shaped() && (Min(num, NBITS) + 31) / 32 <= |words| && forall w :: w in words ==> |w| == 32
      modifies this`numBits, this`bitmap
      ensures Shaped() && Bits(bitmap) == Taken(num, words) && numBits == LastSet(Bits(bitmap)) + 1
    {
      hide LastSet;
      var items := (Min(num, NBITS) + 31) / 32;
      bitmap := words[..items] + seq(NITEMS - items, _ => Fill(false));
      var shift := num % 32;
      if 0 < num && shift != 0 {
        bitmap := bitmap[items - 1 := And(bitmap[items - 1], ShiftLeft(Fill(true), 32 - shift))];
      }
      forall k | 0 <= k < NBITS ensures Bits(bitmap)[k] == Taken(num, words)[k] { TakenBit(num, words, k); }
      CalcMaximumBitSet(items, 0);
    }

    method SetBits(first: nat, count: nat)
      requires Shaped() && first + count <= NBITS && count > 0
      modifies this`bitmap
      ensures Shaped() && Bits(bitmap) == Painted(old(Bits(bitmap)), first, first + count)
    {
      ghost var was := bitmap;
      var nBits, pos, offset := count, first / 32, first % 32;
      var mask := ShiftRight(Fill(true), offset);
      var bitsInMask := 32 - offset;
      while nBits >= bitsInMask
        invariant Shaped() && |mask| == 32
        invariant 1 <= bitsInMask <= 32 && 0 <= nBits && 0 <= pos <= NITEMS
        invariant 32 * pos + (32 - bitsInMask) + nBits == first + count
        invariant first <= 32 * pos + (32 - bitsInMask)
        invariant pos == NITEMS ==> nBits == 0
        invariant forall j :: 0 <= j < 32 ==> mask[j] == (j >= 32 - bitsInMask)
        invariant forall i, j :: 0 <= i < NITEMS && 0 <= j < 32 ==>
                    bitmap[i][j] == (was[i][j] || first <= 32 * i + j < 32 * pos + (32 - bitsInMask))
      {
        bitmap := bitmap[pos := Or(bitmap[pos], mask)];
        pos := pos + 1;
        nBits := nBits - bitsInMask;
        mask := Fill(true);
        bitsInMask := 32;
      }
      if nBits > 0 {
        bitmap := bitmap[pos := Or(bitmap[pos], And(mask, ShiftLeft(Fill(true), bitsInMask - nBits)))];
      }
      BitsPainted(was, bitmap, first, first + count);
    }
  }

  /** The inner loop of for_each: the set bits of a word, highest first, each cleared once its item is visited. */
  method VisitWord(item: int, word: Word) returns (items: seq<int>)
    requires |word| == 32
    ensures IsAscending(items)
    ensures forall n: int :: n in items <==> item <= n < item + 32 && word[n - item]
  {
    items := [];
    var bits := word;
    ghost var done := 0;
    while FirstSet(bits) < 32
      invariant 0 <= done <= 32 && |bits| == 32 && IsAscending(items)
      invariant forall j :: 0 <= j < 32 ==> bits[j] == (j >= done && word[j])
      invariant forall n: int :: n in items <==> item <= n < item + done && word[n - item]
      decreases 32 - done
    {
      var offset := FirstSet(bits);
      AppendAscending(items, item + offset);
      forall j | done <= j < offset ensures !word[j] { assert !bits[j]; }
      items := items + [item + offset];
      bits := bits[offset := false];
      done := offset + 1;
    }
    forall j | done <= j < 32 ensures !word[j] { assert !bits[j]; }
  }

  lemma BitAt(words: seq<Word>, i: nat, j: nat)
    requires WordsOk(words) && i < NITEMS && j < 32
    ensures Bits(words)[32 * i + j] == words[i][j]
  {
  }

  ghost predicate WordsOk(words: seq<Word>) {
    |words| == NITEMS && forall i :: 0 <= i < NITEMS ==> |words[i]| == 32
  }

  /** All bits, the lowest item first. */
  ghost function Bits(words: seq<Word>): (bits: seq<bool>)
    requires WordsOk(words)
    ensures |bits| == NBITS
  {
    seq(NBITS, k requires 0 <= k < NBITS => words[k / 32][k % 32])
  }

  ghost function Painted(bits: seq<bool>, start: nat, past: nat): (r: seq<bool>)
    requires |bits| == NBITS
    ensures |r| == NBITS
  {
    seq(NBITS, k requires 0 <= k < NBITS => bits[k] || start <= k < past)
  }

  lemma BitsPainted(was: seq<Word>, now: seq<Word>, start: nat, past: nat)
    requires WordsOk(was) && WordsOk(now)
    requires forall i, j :: 0 <= i < NITEMS && 0 <= j < 32 ==> now[i][j] == (was[i][j] || start <= 32 * i + j < past)
    ensures Bits(now) == Painted(Bits(was), start, past)
  {
    forall k | 0 <= k < NBITS ensures Bits(now)[k] == Painted(Bits(was), start, past)[k] {
      assert k == 32 * (k / 32) + k % 32;
    }
  }

  // ---------------------------------------------------------------------------------------------
  // The documented law of add_range

  /** The loop sets the items of the span that the range allows. */
  lemma {:induction false} AddEachSets(b: Bitmap, start: int, past: int, k: nat)
    requires b.Valid() && k < NBITS
    ensures AddEach(b, start, past).bits[k] ==
            (b.bits[k] || (start <= b.base + k < past && b.base + k <= b.rangeMax))
    decreases past - start
  {
    if start < past { AddEachSets(b, start, past - 1, k); }
  }

  lemma {:induction false} AddEachCounts(b: Bitmap, start: int, past: int)
    requires b.Valid()
    ensures var lo, hi := Max(b.base, start), Min(past, b.rangeMax + 1);
            AddEach(b, start, past).numBits == if lo < hi then Max(b.numBits, hi - b.base) else b.numBits
    decreases past - start
  {
    if start < past { AddEachCounts(b, start, past - 1); }
  }

  /** Every item of the span that the bitmap has room for but the range does not allow is held already. */
  ghost predicate HeldBeyond(b: Bitmap, start: int, past: int)
    requires |b.bits| == NBITS
  {
    forall item: int :: start <= item < past && b.rangeMax < item < b.base + NBITS ==> b.Holds(item)
  }

  /** add_range is documented as equivalent to adding every item in turn.  It checks the 256 items of the
      bitmap but not the allowed maximum, so the law holds exactly for the spans that have no item beyond it, or
      only such as are held already. */
  lemma AddRangeLaw(b: Bitmap, start: int, past: int)
    requires b.Valid()
    ensures AddSpan(b, start, past) == AddEach(b, start, past) <==> HeldBeyond(b, start, past)
  {
    hide AddSpan, AddEach;
    var s, e := AddSpan(b, start, past), AddEach(b, start, past);
    AddSpanParts(b, start, past);
    AddEachCounts(b, start, past);
    if HeldBeyond(b, start, past) {
      forall k | 0 <= k < NBITS ensures s.bits[k] == e.bits[k] {
        AddEachSets(b, start, past, k);
        if start <= b.base + k < past && b.base + k > b.rangeMax { assert b.Holds(b.base + k); }
      }
      assert s.bits == e.bits;
      var lo, hi := Max(b.base, start), Min(past, b.base + NBITS);
      if lo < hi && b.rangeMax < hi - 1 { assert b.Holds(hi - 1); }
    } else {
      var item :| start <= item < past && b.rangeMax < item < b.base + NBITS && !b.Holds(item);
      AddEachSets(b, start, past, item - b.base);
      assert s.bits[item - b.base] && !e.bits[item - b.base];
    }
  }

  lemma AddSpanParts(b: Bitmap, start: int, past: int)
    requires b.Valid()
    ensures var s := AddSpan(b, start, past); var lo, hi := Max(b.base, start), Min(past, b.base + NBITS);
            && s.base == b.base && s.rangeMax == b.rangeMax && |s.bits| == NBITS
            && s.numBits == (if lo < hi then Max(b.numBits, hi - b.base) else b.numBits)
            && forall k :: 0 <= k < NBITS ==> s.bits[k] == (b.bits[k] || start <= b.base + k < past)
  {
  }

  /** ... and it can fail: with at most two items above 10 allowed, [10, 20) still puts 15 in. */
  lemma AddRangePassesMaximum()
    ensures var b := Empty(10).(rangeMax := 12);
            AddSpan(b, 10, 20).Holds(15) && !AddEach(b, 10, 20).Holds(15)
  {
    var b := Empty(10).(rangeMax := 12);
    AddEachSets(b, 10, 20, 5);
    assert AddSpan(b, 10, 20).bits[5];
  }

  /** With the default maximum, as sequence number sets have it, the law always holds. */
  lemma AddRangeLawByDefault(b: Bitmap, start: int, past: int)
    requires b.Valid() && b.rangeMax == b.base + NBITS - 1
    ensures AddSpan(b, start, past) == AddEach(b, start, past)
  {
    AddRangeLaw(b, start, past);
  }

  /** add_range keeps the bitmap valid and holds exactly the old items and the span. */
  lemma AddSpanHolds(b: Bitmap, start: int, past: int)
    requires b.Valid()
    ensures AddSpan(b, start, past).Valid() && AddSpan(b, start, past).base == b.base
    ensures Tight(b.bits, b.numBits) ==> Tight(AddSpan(b, start, past).bits, AddSpan(b, start, past).numBits)
    ensures forall item: int :: AddSpan(b, start, past).Holds(item) <==>
              b.Holds(item) || (start <= item < past && b.base <= item < b.base + NBITS)
  {
    var s := AddSpan(b, start, past);
    forall k | 0 <= k < NBITS ensures s.bits[k] == (b.bits[k] || start <= b.base + k < past) { }
    forall item: int
      ensures s.Holds(item) <==> b.Holds(item) || (start <= item < past && b.base <= item < b.base + NBITS)
    {
      if b.base <= item < b.base + NBITS {
        assert s.bits[item - b.base] == (b.bits[item - b.base] || start <= item < past);
      }
    }
  }

  // ---------------------------------------------------------------------------------------------
  // Sliding

  /** The bits seen from d items further on. */
  ghost function Slid(bits: seq<bool>, d: int): (r: seq<bool>)
    requires |bits| == NBITS
    ensures |r| == NBITS
  {
    seq(NBITS, k requires 0 <= k < NBITS => 0 <= k + d < NBITS && bits[k + d])
  }

  ghost predicate EmptyBelow(bits: seq<bool>, n: nat) {
    forall k :: 0 <= k < |bits| && k < n ==> !bits[k]
  }

  lemma EmptyFurtherDown(bits: seq<bool>, m: nat, n: nat)
    requires EmptyBelow(bits, n) && m <= n
    ensures EmptyBelow(bits, m)
  {
  }

  /** Division and remainder by 32. */
  method WordAndBit(n: nat) returns (items: nat, bits: nat)
    requires n < NBITS
    ensures items < NITEMS && bits < 32 && 32 * items + bits == n
  {
    items, bits := n / 32, n % 32;
  }

  ghost function NoBits(): (r: seq<bool>)
    ensures |r| == NBITS && forall k :: 0 <= k < NBITS ==> !r[k]
  {
    seq(NBITS, _ => false)
  }

  /** No bit is set from n on. */
  ghost predicate EmptyFrom(bits: seq<bool>, n: nat) {
    forall k :: n <= k < |bits| ==> !bits[k]
  }

  lemma SlidLeftEmpty(bits: seq<bool>, numBits: nat, n: nat)
    requires Bounded(bits, numBits)
    ensures numBits <= NBITS && (n >= numBits ==> Slid(bits, n) == NoBits())
  {
  }

  lemma SlidRightEmpty(bits: seq<bool>, n: nat)
    requires |bits| == NBITS
    ensures n >= NBITS ==> Slid(bits, 0 - n) == NoBits()
    ensures n < NBITS ==> EmptyBelow(Slid(bits, 0 - n), n)
    ensures EmptyFrom(Slid(bits, 0 - n), NBITS)
  {
  }

  /** A word of the bits seen from further on: the rest of word m and the start of the next. */
  ghost function LeftWord(was: seq<Word>, m: nat, bits: nat): (r: Word)
    requires WordsOk(was) && m < NITEMS && bits < 32
    ensures |r| == 32
  {
    seq(32, j requires 0 <= j < 32 =>
      if j + bits < 32 then was[m][j + bits] else m + 1 < NITEMS && was[m + 1][j + bits - 32])
  }

  lemma LeftWordBuilt(was: seq<Word>, m: nat, bits: nat)
    requires WordsOk(was) && m < NITEMS && bits < 32
    ensures LeftWord(was, m, bits) ==
            if bits == 0 then was[m]
            else if m + 1 < NITEMS then Or(ShiftLeft(was[m], bits), ShiftRight(was[m + 1], 32 - bits))
            else ShiftLeft(was[m], bits)
  {
  }

  lemma BitSlidLeft(was: seq<Word>, items: nat, bits: nat, k: nat)
    requires WordsOk(was) && items < NITEMS && bits < 32 && k < NBITS
    ensures k / 32 < NITEMS
    ensures Slid(Bits(was), 32 * items + bits)[k] ==
            (k / 32 + items < NITEMS && LeftWord(was, k / 32 + items, bits)[k % 32])
  {
    var w, j, at := k / 32, k % 32, k + 32 * items + bits;
    assert at == 32 * (w + items) + j + bits;
    if j + bits < 32 {
      assert at / 32 == w + items && at % 32 == j + bits;
    } else {
      assert at / 32 == w + items + 1 && at % 32 == j + bits - 32;
    }
  }

  lemma SlidLeft(was: seq<Word>, now: seq<Word>, items: nat, bits: nat, n: nat)
    requires WordsOk(was) && WordsOk(now) && items < NITEMS && bits < 32 && n == 32 * items + bits
    requires forall w :: 0 <= w < NITEMS - items ==> now[w] == LeftWord(was, w + items, bits)
    requires forall w :: NITEMS - items <= w < NITEMS ==> now[w] == Fill(false)
    ensures Bits(now) == Slid(Bits(was), n)
  {
    hide LeftWord, Slid;
    forall k | 0 <= k < NBITS ensures Bits(now)[k] == Slid(Bits(was), n)[k] {
      BitSlidLeft(was, items, bits, k);
    }
  }

  ghost function RightWord(was: seq<Word>, m: nat, bits: nat): (r: Word)
    requires WordsOk(was) && m < NITEMS && bits < 32
    ensures |r| == 32
  {
    seq(32, j requires 0 <= j < 32 => if j >= bits then was[m][j - bits] else m > 0 && was[m - 1][j - bits + 32])
  }

  lemma RightWordBuilt(was: seq<Word>, m: nat, bits: nat)
    requires WordsOk(was) && m < NITEMS && bits < 32
    ensures RightWord(was, m, bits) ==
            if bits == 0 then was[m]
            else if m > 0 then Or(ShiftRight(was[m], bits), ShiftLeft(was[m - 1], 32 - bits))
            else ShiftRight(was[m], bits)
  {
  }

  lemma BitSlidRight(was: seq<Word>, items: nat, bits: nat, k: nat)
    requires WordsOk(was) && items < NITEMS && bits < 32 && k < NBITS
    ensures k / 32 < NITEMS
    ensures Slid(Bits(was), 0 - (32 * items + bits))[k] ==
            (k / 32 >= items && RightWord(was, k / 32 - items, bits)[k % 32])
  {
    var w, j, at := k / 32, k % 32, k - 32 * items - bits;
    assert at == 32 * (w - items) + j - bits;
    if j >= bits {
      assert at / 32 == w - items && at % 32 == j - bits;
    } else {
      assert at / 32 == w - items - 1 && at % 32 == j - bits + 32;
    }
  }

  lemma SlidRight(was: seq<Word>, now: seq<Word>, items: nat, bits: nat, n: nat)
    requires WordsOk(was) && WordsOk(now) && items < NITEMS && bits < 32 && n == 32 * items + bits
    requires forall w :: items <= w < NITEMS ==> now[w] == RightWord(was, w - items, bits)
    requires forall w :: 0 <= w < items ==> now[w] == Fill(false)
    ensures Bits(now) == Slid(Bits(was), 0 - n)
  {
    hide RightWord, Slid;
    forall k | 0 <= k < NBITS ensures Bits(now)[k] == Slid(Bits(was), 0 - n)[k] {
      BitSlidRight(was, items, bits, k);
    }
  }

  /** The position of the last set bit, or -1. */
  function LastSet(w: Word): (j: int)
    ensures -1 <= j < |w| && (j >= 0 ==> w[j]) && forall k :: j < k < |w| ==> !w[k]
  {
    if w == [] then -1 else if w[|w| - 1] then |w| - 1 else LastSet(w[..|w| - 1])
  }

  /** The position of the first set bit, or the length. */
  function FirstSet(w: Word): (j: nat)
    ensures j <= |w| && (j < |w| ==> w[j]) && forall k :: 0 <= k < j ==> !w[k]
  {
    if w == [] || w[0] then 0 else 1 + FirstSet(w[1..])
  }

  /** What bitmap_set takes over: the first num bits; but with a num above 256 it trims the last word by what
      num leaves modulo 32. */
  ghost function Taken(num: nat, words: seq<Word>): (r: seq<bool>)
    requires (Min(num, NBITS) + 31) / 32 <= |words| && forall w :: w in words ==> |w| == 32
    ensures |r| == NBITS
  {
    seq(NBITS, k requires 0 <= k < NBITS =>
      k < Min(num, NBITS) && words[k / 32][k % 32] && !Trimmed(num, k))
  }

  ghost predicate Trimmed(num: nat, k: nat) {
    num > NBITS && num % 32 != 0 && k >= NBITS - 32 + num % 32
  }

  lemma TakenBit(num: nat, words: seq<Word>, k: nat)
    requires (Min(num, NBITS) + 31) / 32 <= |words| && (forall w :: w in words ==> |w| == 32) && k < NBITS
    ensures var items := (Min(num, NBITS) + 31) / 32;
            Taken(num, words)[k] ==
            (k / 32 < items && words[k / 32][k % 32]
             && !(num % 32 != 0 && k / 32 == items - 1 && k % 32 >= num % 32))
  {
    assert k == 32 * (k / 32) + k % 32 && num == 32 * (num / 32) + num % 32;
  }

  /** Every bit below the count is taken over if and only if the count is at most 256, or a multiple of 32, or no
      bit is set where the last word is trimmed. */
  lemma TakenWhole(num: nat, words: seq<Word>)
    requires (Min(num, NBITS) + 31) / 32 <= |words| && forall w :: w in words ==> |w| == 32
    ensures (forall k :: 0 <= k < Min(num, NBITS) ==> Taken(num, words)[k] == words[k / 32][k % 32]) <==>
            || num <= NBITS || num % 32 == 0
            || forall j :: num % 32 <= j < 32 ==> !words[7][j]
  {
    var taken := Taken(num, words);
    if num > NBITS && num % 32 != 0 {
      if j :| num % 32 <= j < 32 && words[7][j] {
        assert !taken[224 + j] && (224 + j) / 32 == 7 && (224 + j) % 32 == j;
      } else {
        forall k | 0 <= k < NBITS ensures taken[k] == words[k / 32][k % 32] {
          if k >= 224 { assert k / 32 == 7 && k % 32 == k - 224; }
        }
      }
    }
  }

  /** ... and it can fail: a full bitmap received with a count of 257 keeps one bit of its last word. */
  lemma FullBitmapTrimmed()
    ensures var words := seq(NITEMS, _ => Fill(true)); !Taken(257, words)[225] && Taken(256, words)[225]
  {
    assert 225 / 32 == 7 && 225 % 32 == 1;
  }

  /** Serialisation: what bitmap_get hands out is taken over by bitmap_set as the same items. */
  lemma GetThenSet(num: nat, words: seq<Word>)
    requires WordsOk(words) && Bounded(Bits(words), num)
    ensures Taken(num, words) == Bits(words)
    ensures Tight(Bits(words), num) ==> LastSet(Bits(words)) + 1 == num
  {
    forall k | 0 <= k < NBITS ensures Taken(num, words)[k] == Bits(words)[k] { }
  }

  /** How far base_update moves the bits. */
  function Distance(was: int, now: int): int {
    if now > was then (now - was) % WORD else 0 - (was - now) % WORD
  }

  lemma Distances(was: int, now: int)
    ensures now > was ==> Distance(was, now) == (now - was) % WORD >= 0
    ensures now < was ==> Distance(was, now) == 0 - (was - now) % WORD <= 0
  {
  }

  /** The count that goes with the moved bits: forward it falls with them; back it rises with them, whether or not
      there are any, and is looked for afresh only when it would pass the end. */
  ghost function SlidCount(bits: seq<bool>, numBits: nat, d: int): nat
    requires |bits| == NBITS
  {
    if d >= 0 then Max(numBits - d, 0)
    else if d <= -NBITS then 0
    else if numBits - d > NBITS then LastSet(Slid(bits, d)) + 1
    else numBits - d
  }

  /** The state after base_update. */
  ghost function Rebased(b: Bitmap, newBase: int): (r: Bitmap)
    requires |b.bits| == NBITS
    ensures |r.bits| == NBITS
  {
    if newBase == b.base then b
    else
      var d := Distance(b.base, newBase);
      Bitmap(newBase, newBase + NBITS - 1, SlidCount(b.bits, b.numBits, d), Slid(b.bits, d))
  }

  /** Exactly when the count ends at the last set bit afterwards: when it did before, and was not nothing moving
      back; when it is looked for afresh; or when all that was counted moves out. */
  lemma CountAfterUpdate(b: Bitmap, newBase: int)
    requires b.Valid()
    ensures Rebased(b, newBase).Valid()
    ensures Tight(Rebased(b, newBase).bits, Rebased(b, newBase).numBits) <==>
            var d := Distance(b.base, newBase);
            if d >= 0 then Tight(b.bits, b.numBits) || b.numBits <= d
            else d <= -NBITS || b.numBits - d > NBITS || (b.numBits > 0 && Tight(b.bits, b.numBits))
  {
    hide LastSet;
  }

  /** max(), with the count less one taken as a uint32_t. */
  function MaxItem(base: int, numBits: nat): int {
    base + (numBits - 1) % WORD
  }

  /** Something is counted, or the item is not from past the words up to the wrapped maximum. */
  predicate RemovesInside(b: Bitmap, item: int) {
    b.numBits > 0 || !(b.base + NBITS <= item < b.base + WORD)
  }

  lemma WrappedMax(b: Bitmap)
    requires b.Valid()
    ensures MaxItem(b.base, b.numBits) == if b.numBits > 0 then b.base + b.numBits - 1 else b.base + WORD - 1
  {
    if b.numBits > 0 {
      DivModUnique(b.numBits - 1, WORD, 0, b.numBits - 1);
    } else {
      DivModUnique(-1, WORD, -1, WORD - 1);
    }
  }

  /** ... as when 300 is removed from the empty set that starts at 1. */
  lemma EmptyRemovesOutside()
    ensures Empty(1).Valid() && 300 <= MaxItem(1, Empty(1).numBits) && (300 - 1) / 32 >= NITEMS
    ensures !RemovesInside(Empty(1), 300)
  {
    WrappedMax(Empty(1));
  }

  /** empty() tells whether an item is held, and max() which is the highest, as long as the count is tight. */
  lemma EmptyAndMax(b: Bitmap)
    requires b.Valid()
    ensures Tight(b.bits, b.numBits) <==>
            && (b.numBits == 0 <==> forall item: int :: !b.Holds(item))
            && (b.numBits > 0 ==> b.Holds(b.base + b.numBits - 1)
                                  && forall item: int :: b.Holds(item) ==> item <= b.base + b.numBits - 1)
  {
    if b.numBits > 0 && Tight(b.bits, b.numBits) { assert b.Holds(b.base + b.numBits - 1); }
  }

  /** base_update leaves a count but no item: forward, what is still counted is not held; back, nothing is held
      and the count still fits. */
  ghost predicate CountsNothing(b: Bitmap, newBase: int)
    requires |b.bits| == NBITS
  {
    var d := Distance(b.base, newBase);
    if d >= 0 then b.numBits > d && forall item: int :: b.Holds(item) ==> item < b.base + d
    else d > -NBITS && b.numBits - d <= NBITS && forall item: int :: !b.Holds(item)
  }

  /** empty() after base_update is right if and only if the call does not leave such a count. */
  lemma EmptyAfterUpdate(b: Bitmap, newBase: int)
    requires b.Valid()
    ensures var r := Rebased(b, newBase);
            (r.numBits == 0 <==> forall item: int :: !r.Holds(item)) <==> !CountsNothing(b, newBase)
  {
    if Distance(b.base, newBase) >= 0 { EmptyAfterForward(b, newBase); } else { EmptyAfterBack(b, newBase); }
  }

  lemma EmptyAfterForward(b: Bitmap, newBase: int)
    requires b.Valid() && Distance(b.base, newBase) >= 0
    ensures var r := Rebased(b, newBase);
            (r.numBits == 0 <==> forall item: int :: !r.Holds(item)) <==> !CountsNothing(b, newBase)
  {
    hide Slid, Distance, Bitmap.Holds;
    var d, r := Distance(b.base, newBase), Rebased(b, newBase);
    RebasedCount(b, newBase);
    if b.numBits > d && exists item: int :: b.Holds(item) && item >= b.base + d {
      var item :| b.Holds(item) && item >= b.base + d;
      HeldIsCounted(b, item);
      RebasedHolds(b, newBase, item - b.base - d + newBase);
      assert r.Holds(item - b.base - d + newBase);
    } else {
      forall item: int ensures !r.Holds(item) {
        RebasedHolds(b, newBase, item);
        HeldIsCounted(b, item - newBase + b.base + d);
      }
    }
  }

  lemma EmptyAfterBack(b: Bitmap, newBase: int)
    requires b.Valid() && Distance(b.base, newBase) < 0
    ensures var r := Rebased(b, newBase);
            (r.numBits == 0 <==> forall item: int :: !r.Holds(item)) <==> !CountsNothing(b, newBase)
  {
    var d, r := Distance(b.base, newBase), Rebased(b, newBase);
    CountAfterUpdate(b, newBase);
    RebasedCount(b, newBase);
    hide Slid, Distance, LastSet, Bitmap.Holds;
    if d > -NBITS && b.numBits - d > NBITS {
      EmptyAndMax(r);
    } else if d > -NBITS && exists item: int :: b.Holds(item) {
      var item :| b.Holds(item);
      HeldIsCounted(b, item);
      RebasedHolds(b, newBase, item - b.base - d + newBase);
      assert r.Holds(item - b.base - d + newBase);
    } else {
      forall item: int ensures !r.Holds(item) {
        RebasedHolds(b, newBase, item);
        HeldIsCounted(b, item - newBase + b.base + d);
      }
    }
  }

  lemma HeldIsCounted(b: Bitmap, item: int)
    requires b.Valid()
    ensures b.Holds(item) ==> b.base <= item < b.base + b.numBits
  {
  }

  lemma RebasedCount(b: Bitmap, newBase: int)
    requires b.Valid()
    ensures Rebased(b, newBase).numBits == SlidCount(b.bits, b.numBits, Distance(b.base, newBase))
  {
    hide LastSet, Slid;
  }

  /** Where an item of the moved range comes from. */
  lemma RebasedHolds(b: Bitmap, newBase: int, item: int)
    requires b.Valid()
    ensures Rebased(b, newBase).Holds(item) <==>
            newBase <= item < newBase + NBITS && b.Holds(item - newBase + b.base + Distance(b.base, newBase))
  {
    hide LastSet;
    if newBase <= item < newBase + NBITS { assert |Rebased(b, newBase).bits| > item - newBase; }
  }

  /** From an exact count that goes wrong only when an empty range moves back by less than its width ... */
  lemma EmptyAfterExactUpdate(b: Bitmap, newBase: int)
    requires b.Valid() && Tight(b.bits, b.numBits)
    ensures CountsNothing(b, newBase) <==> b.numBits == 0 && -NBITS < Distance(b.base, newBase) < 0
  {
    if b.numBits > 0 { assert b.Holds(b.base + b.numBits - 1); }
  }

  /** ... as the empty range from 10 does when it is moved to 5: it then counts five items. */
  lemma EmptyMovedBack()
    ensures var r := Rebased(Empty(10), 5); r.numBits == 5 && forall item: int :: !r.Holds(item)
  {
  }

  /** What a sliding window promises: exactly the held items that lie in the new window are still held. */
  ghost predicate KeepsWindow(b: Bitmap, newBase: int, r: Bitmap)
    requires |b.bits| == NBITS && |r.bits| == NBITS
  {
    forall item: int :: r.Holds(item) <==> b.Holds(item) && newBase <= item < newBase + NBITS
  }

  /** Up to a jump of 2^32 items the window keeps exactly what it should. */
  lemma WindowKept(b: Bitmap, newBase: int)
    requires b.Valid() && -WORD < newBase - b.base < WORD
    ensures KeepsWindow(b, newBase, Rebased(b, newBase))
  {
    var r := Rebased(b, newBase);
    forall item: int ensures r.Holds(item) <==> b.Holds(item) && newBase <= item < newBase + NBITS {
      if newBase != b.base && newBase <= item < newBase + NBITS {
        assert r.bits[item - newBase] == Slid(b.bits, newBase - b.base)[item - newBase];
      }
    }
  }

  /** A moved window is open: every item of it can be added, and is_set tells exactly what is held. */
  lemma MovedWindowOpen(b: Bitmap, newBase: int, item: int)
    requires b.Valid() && newBase != b.base
    ensures var r := Rebased(b, newBase);
            && r.Valid() && (r.Holds(item) ==> item <= r.rangeMax)
            && (newBase <= item < newBase + 256 <==> AddItem(r, item).Holds(item))
  {
    hide LastSet;
    CountAfterUpdate(b, newBase);
  }

  /** A longer jump forward goes wrong exactly when some held item is not below the remainder modulo 2^32: the
      window should be empty, but what is left of the bits reappears at the new base. */
  lemma LongJumpForward(b: Bitmap, newBase: int)
    requires b.Valid() && newBase - b.base >= WORD
    ensures KeepsWindow(b, newBase, Rebased(b, newBase)) <==>
            forall item: int :: b.Holds(item) ==> item - b.base < (newBase - b.base) % WORD
  {
    var d, r := (newBase - b.base) % WORD, Rebased(b, newBase);
    forall item: int | b.Holds(item) && item - b.base >= d ensures r.Holds(newBase + (item - b.base) - d) {
      assert r.bits[item - b.base - d] == b.bits[item - b.base];
    }
    forall item: int | r.Holds(item) ensures b.Holds(item - newBase + d + b.base) {
      assert r.bits[item - newBase];
    }
  }

  /** A longer jump back goes wrong exactly when some held item, moved by the remainder, stays in the window. */
  lemma LongJumpBack(b: Bitmap, newBase: int)
    requires b.Valid() && b.base - newBase >= WORD
    ensures KeepsWindow(b, newBase, Rebased(b, newBase)) <==>
            forall item: int :: b.Holds(item) ==> item + (b.base - newBase) % WORD >= b.base + NBITS
  {
    var d, r := (b.base - newBase) % WORD, Rebased(b, newBase);
    forall item: int | b.Holds(item) && item + d < b.base + NBITS
      ensures r.Holds(newBase + (item - b.base) + d)
    {
      assert r.bits[item - b.base + d] == b.bits[item - b.base];
    }
    forall item: int | r.Holds(item) ensures b.Holds(item - newBase - d + b.base) {
      assert r.bits[item - newBase];
    }
  }

  /** ... as an item at 7 does when the base jumps by exactly 2^32 either way. */
  lemma LongJumpsGoWrong()
    ensures var b := AddItem(Empty(0), 7);
            && b.Valid() && !KeepsWindow(b, WORD, Rebased(b, WORD)) && !KeepsWindow(b, -WORD, Rebased(b, -WORD))
  {
    var b := AddItem(Empty(0), 7);
    assert b.Holds(7);
    assert WORD % WORD == 0;
    LongJumpForward(b, WORD);
    LongJumpBack(b, -WORD);
  }
}
