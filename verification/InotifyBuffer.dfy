/** The Unix event buffer of the file watcher: variable-length inotify records packed back to back, and the
    walk of monitor_directory over them.  Bytes and names are sequences of numbers from 0 to 255. */
module InotifyBuffer {
  import opened Basics

  const EVENT_SIZE := 16
  const IN_MODIFY := 0x2
  const IN_CREATE := 0x100
  const IN_DELETE := 0x200

  type Name = seq<int>

  datatype Event = Added | Removed | Modified

  /** One record as the kernel means it: the name field is the name and then at least one zero byte. */
  datatype Record = Record(wd: int, mask: int, cookie: int, name: Name, pad: nat) {
    ghost predicate WellFormed() {
      && 0 <= wd < WORD && 0 <= mask < WORD && 0 <= cookie < WORD && Len() < WORD
      && 0 !in name && (name != [] ==> pad > 0)
    }

    function Len(): nat {
      |name| + pad
    }
  }

  // ---------------------------------------------------------------------------------------------
  // Bytes

  function Word(v: int): (b: seq<int>)
    ensures |b| == 4
  {
    [v % 0x100, v / 0x100 % 0x100, v / 0x1_0000 % 0x100, v / 0x100_0000 % 0x100]
  }

  function WordAt(buffer: seq<int>, i: nat): int
    requires i + 4 <= |buffer|
  {
    buffer[i] + 0x100 * buffer[i + 1] + 0x1_0000 * buffer[i + 2] + 0x100_0000 * buffer[i + 3]
  }

  function Encode(r: Record): (b: seq<int>)
    ensures |b| == EVENT_SIZE + r.Len()
  {
    Word(r.wd) + Word(r.mask) + Word(r.cookie) + Word(r.Len()) + r.name + Zeros(r.pad)
  }

  function EncodeAll(rs: seq<Record>): seq<int> {
    if rs == [] then [] else EncodeAll(rs[..|rs| - 1]) + Encode(rs[|rs| - 1])
  }

  /** event->name as a C string: up to the first zero byte. */
  function CString(buffer: seq<int>, i: nat): Name
    requires i <= |buffer|
    decreases |buffer| - i
  {
    if i == |buffer| || buffer[i] == 0 then [] else [buffer[i]] + CString(buffer, i + 1)
  }

  lemma WordReads(v: int)
    requires 0 <= v < WORD
    ensures WordAt(Word(v), 0) == v
  {
    assert v / 0x1_0000 == v / 0x100 / 0x100 && v / 0x100_0000 == v / 0x100 / 0x100 / 0x100;
  }

  lemma WordMoves(a: seq<int>, b: seq<int>, i: nat, j: nat)
    requires i + 4 <= |a| && j + 4 <= |b|
    requires a[i..i + 4] == b[j..j + 4]
    ensures WordAt(a, i) == WordAt(b, j)
  {
    var x, y := a[i..i + 4], b[j..j + 4];
    assert x[0] == y[0] && x[1] == y[1] && x[2] == y[2] && x[3] == y[3];
  }

  lemma {:induction false} CStringReads(buffer: seq<int>, i: nat, name: Name)
    requires i + |name| < |buffer| && buffer[i..i + |name|] == name
    requires 0 !in name && buffer[i + |name|] == 0
    ensures CString(buffer, i) == name
    decreases |name|
  {
    if name != [] {
      assert buffer[i] == buffer[i..i + |name|][0] == name[0];
      assert buffer[i + 1..i + |name|] == buffer[i..i + |name|][1..] == name[1..];
      assert name[0] in name;
      CStringReads(buffer, i + 1, name[1..]);
      assert name == [name[0]] + name[1..];
    }
  }

  /** Reading the fields of a record anywhere in a buffer gives back what was encoded there. */
  lemma RecordReads(buffer: seq<int>, i: nat, r: Record)
    requires r.WellFormed() && i + |Encode(r)| <= |buffer| && buffer[i..i + |Encode(r)|] == Encode(r)
    ensures WordAt(buffer, i + 4) == r.mask && WordAt(buffer, i + 12) == r.Len()
    ensures r.Len() > 0 ==> CString(buffer, i + EVENT_SIZE) == r.name
  {
    hide Word, WordAt, CString, Encode;
    var e := Encode(r);
    EncodedFields(r);
    SliceMoves(buffer, i, e, 4, 8);
    SliceMoves(buffer, i, e, 12, 16);
    WordMoves(buffer, Word(r.mask), i + 4, 0);
    WordReads(r.mask);
    WordMoves(buffer, Word(r.Len()), i + 12, 0);
    WordReads(r.Len());
    if r.Len() > 0 {
      SliceMoves(buffer, i, e, 16, 16 + |r.name|);
      assert buffer[i..i + |e|][16 + |r.name|] == 0;
      CStringReads(buffer, i + EVENT_SIZE, r.name);
    }
  }

  lemma SliceMoves(buffer: seq<int>, i: nat, e: seq<int>, lo: nat, hi: nat)
    requires lo <= hi <= |e| && i + |e| <= |buffer| && buffer[i..i + |e|] == e
    ensures buffer[i + lo..i + hi] == e[lo..hi]
  {
    forall k | lo <= k < hi ensures buffer[i + k] == e[k] { assert buffer[i..i + |e|][k] == e[k]; }
  }

  /** Words are little-endian. */
  lemma WordBytes()
    ensures Word(0x1234_5678) == [0x78, 0x56, 0x34, 0x12] && WordAt([0x78, 0x56, 0x34, 0x12], 0) == 0x1234_5678
  {
    assert 0x1234_5678 / 0x100 % 0x100 == 0x56 && 0x1234_5678 / 0x1_0000 % 0x100 == 0x34;
  }

  /** Where the fields of a record are. */
  lemma EncodedFields(r: Record)
    requires r.WellFormed()
    ensures Encode(r)[4..8] == Word(r.mask) && Encode(r)[12..16] == Word(r.Len())
    ensures r.Len() > 0 ==>
              16 + |r.name| < |Encode(r)| && Encode(r)[16..16 + |r.name|] == r.name && Encode(r)[16 + |r.name|] == 0
  {
    hide Word;
  }

  // ---------------------------------------------------------------------------------------------
  // Which records are reported

  predicate Has(mask: int, bit: int)
    requires bit > 0
  {
    mask / bit % 2 == 1
  }

  /** A mask has a bit whatever is set above and below it: for bit == 2^n, q is the mask shifted right by n. */
  lemma HasMeans(q: nat, r: nat, bit: int)
    requires 0 <= r < bit
    ensures Has(q * bit + r, bit) <==> q % 2 == 1
  {
    DivModUnique(q * bit + r, bit, q, r);
  }

  predicate Passes(r: Record, filter: Name -> bool) {
    r.Len() > 0 && filter(r.name)
  }

  predicate CreatesOrDeletes(r: Record) {
    Has(r.mask, IN_CREATE) || Has(r.mask, IN_DELETE)
  }

  predicate OnlyModifies(r: Record) {
    !CreatesOrDeletes(r) && Has(r.mask, IN_MODIFY)
  }

  function EventOf(r: Record): Event {
    if Has(r.mask, IN_CREATE) then Added else if Has(r.mask, IN_DELETE) then Removed else Modified
  }

  /** A record is reported when its name passes and it creates or deletes, or is the first passing record of
      the buffer that only modifies. */
  ghost predicate Reported(rs: seq<Record>, i: nat, filter: Name -> bool)
    requires i < |rs|
  {
    && Passes(rs[i], filter)
    && (CreatesOrDeletes(rs[i]) || (OnlyModifies(rs[i]) && !ModifiedBefore(rs, i, filter)))
  }

  ghost predicate ModifiedBefore(rs: seq<Record>, n: nat, filter: Name -> bool)
    requires n <= |rs|
  {
    exists j :: 0 <= j < n && Passes(rs[j], filter) && OnlyModifies(rs[j])
  }

  /** The reported records among the first n, in order. */
  ghost function Report(rs: seq<Record>, n: nat, filter: Name -> bool): seq<(Name, Event)>
    requires n <= |rs|
  {
    if n == 0 then []
    else Report(rs, n - 1, filter) +
         if Reported(rs, n - 1, filter) then [(rs[n - 1].name, EventOf(rs[n - 1]))] else []
  }

  lemma {:induction false} EncodedPrefix(rs: seq<Record>, k: nat)
    requires k < |rs|
    ensures |EncodeAll(rs[..k])| + |Encode(rs[k])| == |EncodeAll(rs[..k + 1])| <= |EncodeAll(rs)|
    ensures EncodeAll(rs)[|EncodeAll(rs[..k])|..|EncodeAll(rs[..k + 1])|] == Encode(rs[k])
    ensures k + 1 < |rs| ==> |EncodeAll(rs[..k + 1])| < |EncodeAll(rs)|
    decreases |rs|
  {
    assert rs[..k + 1][..k] == rs[..k];
    if k + 1 < |rs| {
      var front := rs[..|rs| - 1];
      EncodedPrefix(front, k);
      assert front[..k] == rs[..k] && front[..k + 1] == rs[..k + 1];
    } else {
      assert rs[..k + 1] == rs;
    }
  }

  /** The walk of monitor_directory: it meets every record once, stays aligned over records without a name,
      stops exactly at the length read, and reports exactly the reported records in order. */
  method Walk(buffer: seq<int>, length: nat, filter: Name -> bool, ghost rs: seq<Record>)
    returns (parsed: seq<(Name, Event)>)
    requires length <= |buffer| && buffer[..length] == EncodeAll(rs)
    requires forall r :: r in rs ==> r.WellFormed()
    ensures parsed == Report(rs, |rs|, filter)
  {
    hide EncodeAll, WordAt, CString, Has, Report, ModifiedBefore, Encode;
    parsed := [];
    var i := 0;
    var alreadyModified := false;
    ghost var k := 0;
    NothingWalked(rs, filter);
    while i < length
      invariant 0 <= k <= |rs| && i == |EncodeAll(rs[..k])| <= length
      invariant k == |rs| <==> i == length
      invariant parsed == Report(rs, k, filter)
      invariant alreadyModified <==> ModifiedBefore(rs, k, filter)
    {
      StepOver(buffer, length, rs, k);
      parsed, alreadyModified := Visit(buffer, i, filter, parsed, alreadyModified, rs, k);
      i := i + EVENT_SIZE + WordAt(buffer, i + 12);
      k := k + 1;
    }
  }

  lemma NothingWalked(rs: seq<Record>, filter: Name -> bool)
    ensures |EncodeAll(rs[..0])| == 0 && (rs == [] <==> |EncodeAll(rs)| == 0)
    ensures Report(rs, 0, filter) == [] && !ModifiedBefore(rs, 0, filter)
  {
    if rs != [] { assert |Encode(rs[|rs| - 1])| > 0; }
  }

  /** One round of the walk: what the record at i adds to the parsed events. */
  method Visit(buffer: seq<int>, i: nat, filter: Name -> bool, before: seq<(Name, Event)>, modified: bool,
               ghost rs: seq<Record>, ghost k: nat)
    returns (parsed: seq<(Name, Event)>, alreadyModified: bool)
    requires k < |rs| && i + EVENT_SIZE <= |buffer|
    requires WordAt(buffer, i + 4) == rs[k].mask && WordAt(buffer, i + 12) == rs[k].Len()
    requires rs[k].Len() > 0 ==> CString(buffer, i + EVENT_SIZE) == rs[k].name
    requires before == Report(rs, k, filter) && (modified <==> ModifiedBefore(rs, k, filter))
    ensures parsed == Report(rs, k + 1, filter) && (alreadyModified <==> ModifiedBefore(rs, k + 1, filter))
  {
    hide WordAt, CString, Has, Report, ModifiedBefore;
    parsed, alreadyModified := before, modified;
    var mask, len := WordAt(buffer, i + 4), WordAt(buffer, i + 12);
    if len != 0 {
      var changedFile := CString(buffer, i + EVENT_SIZE);
      if filter(changedFile) {
        if Has(mask, IN_CREATE) {
          parsed := parsed + [(changedFile, Added)];
        } else if Has(mask, IN_DELETE) {
          parsed := parsed + [(changedFile, Removed)];
        } else if Has(mask, IN_MODIFY) && !alreadyModified {
          alreadyModified := true;
          parsed := parsed + [(changedFile, Modified)];
        }
      }
    }
    ReportNext(rs, k, filter);
  }

  /** What a record adds to the report, by its mask: with bit 0x100 an added event, otherwise with 0x200 a removed one,
      otherwise with 0x2 a modified one if no earlier passing record was of that sort; whatever other bits are set, and
      only if it has a name that passes. */
  lemma ReportMeans(rs: seq<Record>, i: nat, filter: Name -> bool)
    requires i < |rs|
    ensures Report(rs, 0, filter) == []
    ensures var name, mask := rs[i].name, rs[i].mask;
            Report(rs, i + 1, filter) == Report(rs, i, filter) +
            if !(rs[i].Len() > 0 && filter(name)) then []
            else if mask / 0x100 % 2 == 1 then [(name, Added)]
            else if mask / 0x200 % 2 == 1 then [(name, Removed)]
            else if mask / 0x2 % 2 == 1 && forall j :: 0 <= j < i ==> !ModifiesOnly(rs[j], filter)
            then [(name, Modified)]
            else []
    ensures forall r: Record :: ModifiesOnly(r, filter) <==>
              && r.Len() > 0 && filter(r.name)
              && r.mask / 0x100 % 2 != 1 && r.mask / 0x200 % 2 != 1 && r.mask / 0x2 % 2 == 1
  {
    assert (exists j :: 0 <= j < i && ModifiesOnly(rs[j], filter)) <==> ModifiedBefore(rs, i, filter);
  }

  /** A passing record that modifies and does nothing else. */
  ghost predicate ModifiesOnly(r: Record, filter: Name -> bool) {
    Passes(r, filter) && OnlyModifies(r)
  }

  /** A created directory, which has a further bit, is reported as added. */
  lemma CreatedDirectory(filter: Name -> bool)
    requires filter([97])
    ensures Report([Record(1, 0x4000_0100, 0, [97], 15)], 1, filter) == [([97], Added)]
  {
    ReportMeans([Record(1, 0x4000_0100, 0, [97], 15)], 0, filter);
    HasMeans(0x40_0001, 0, 0x100);
  }

  lemma ReportNext(rs: seq<Record>, k: nat, filter: Name -> bool)
    requires k < |rs|
    ensures var r := rs[k]; var before, after := Report(rs, k, filter), Report(rs, k + 1, filter);
            if !Passes(r, filter) then after == before
            else if Has(r.mask, IN_CREATE) then after == before + [(r.name, Added)]
            else if Has(r.mask, IN_DELETE) then after == before + [(r.name, Removed)]
            else if Has(r.mask, IN_MODIFY) && !ModifiedBefore(rs, k, filter) then after == before + [(r.name, Modified)]
            else after == before
    ensures ModifiedBefore(rs, k + 1, filter) <==>
            ModifiedBefore(rs, k, filter) || (Passes(rs[k], filter) && OnlyModifies(rs[k]))
  {
    hide Has;
  }

  /** At the start of record k the buffer decodes to record k, and the step over it leads to record k + 1. */
  lemma StepOver(buffer: seq<int>, length: nat, rs: seq<Record>, k: nat)
    requires length <= |buffer| && buffer[..length] == EncodeAll(rs)
    requires (forall r :: r in rs ==> r.WellFormed()) && k < |rs|
    ensures var i := |EncodeAll(rs[..k])|;
            && i + EVENT_SIZE <= length
            && WordAt(buffer, i + 4) == rs[k].mask && WordAt(buffer, i + 12) == rs[k].Len()
            && (rs[k].Len() > 0 ==> CString(buffer, i + EVENT_SIZE) == rs[k].name)
            && i + EVENT_SIZE + rs[k].Len() == |EncodeAll(rs[..k + 1])| <= length
            && (k + 1 < |rs| ==> |EncodeAll(rs[..k + 1])| < length)
            && (k + 1 == |rs| ==> |EncodeAll(rs[..k + 1])| == length)
  {
    hide EncodeAll, WordAt, CString;
    var i := |EncodeAll(rs[..k])|;
    EncodedPrefix(rs, k);
    assert rs[..|rs|] == rs;
    assert buffer[i..i + |Encode(rs[k])|] == buffer[..length][i..i + |Encode(rs[k])|] == Encode(rs[k]);
    assert rs[k] in rs;
    RecordReads(buffer, i, rs[k]);
  }
}
