/** The received-change tracker: the highest sequence number seen and the vector of gaps below it.
    Sequence numbers are counted as integers (module SequenceNumbers says why that is exact). */
module ReceivedChanges {
  import opened Ascending

  const INT_MAX := 0x7FFF_FFFF

  datatype Tracker = Tracker(largest: int, missing: seq<int>)

  // ---------------------------------------------------------------------------------------------
  // The backward scan

  /** The scan of missingSequenceNumberReceived on any vector: from the end towards the front, stopping at
      the first element that is not above s; it finds s only if that element is s. */
  function BackScan(v: seq<int>, s: int): (at: int)
    ensures -1 <= at < |v|
  {
    if v == [] then -1
    else if v[|v| - 1] == s then |v| - 1
    else if v[|v| - 1] < s then -1
    else BackScan(v[..|v| - 1], s)
  }

  /** What the early exit costs on an arbitrary vector: s is found exactly where it is followed by larger
      elements only. */
  lemma {:induction false} BackScanFinds(v: seq<int>, s: int, i: nat)
    requires i < |v|
    ensures BackScan(v, s) == i <==> v[i] == s && forall j :: i < j < |v| ==> v[j] > s
  {
    var front := v[..|v| - 1];
    if v[|v| - 1] > s && i < |front| { BackScanFinds(front, s, i); }
  }

  /** On an ascending vector the early exit costs nothing: the scan is a full membership search. */
  lemma BackScanIsSearch(v: seq<int>, s: int)
    requires IsAscending(v)
    ensures BackScan(v, s) >= 0 <==> s in v
    ensures BackScan(v, s) >= 0 ==> v[BackScan(v, s)] == s
  {
    if s in v {
      var i :| 0 <= i < |v| && v[i] == s;
      BackScanFinds(v, s, i);
    }
    if BackScan(v, s) >= 0 { BackScanFinds(v, s, BackScan(v, s)); }
  }

  /** ... and off ascending vectors it can miss. */
  lemma BackScanCanMiss()
    ensures 3 in [3, 1] && BackScan([3, 1], 3) == -1
  {
  }

  function EraseAt(v: seq<int>, i: nat): seq<int>
    requires i < |v|
  {
    v[..i] + v[i + 1..]
  }

  // ---------------------------------------------------------------------------------------------
  // One call of add

  function Add(t: Tracker, s: int): (Tracker, bool) {
    if s > t.largest then (Tracker(s, t.missing + Range(t.largest + 1, s)), true)
    else if s == t.largest then (t, false)
    else
      var at := BackScan(t.missing, s);
      if at < 0 then (t, false) else (t.(missing := EraseAt(t.missing, at)), true)
  }

  class ReceivedChanges {
    var largest: int
    var missing: seq<int>

    function State(): Tracker
      reads this
    {
      Tracker(largest, missing)
    }

    constructor (base: int)
      ensures State() == Tracker(base, [])
    {
      largest, missing := base, [];
    }

    /** add; the loop counter of insertMissingSequenceNumbers is an int, so one gap must fit in it. */
    method AddNumber(s: int) returns (accepted: bool)
      requires s - largest <= INT_MAX
      modifies this
      ensures (State(), accepted) == Add(old(State()), s)
    {
      if s > largest {
        accepted := InsertMissingSequenceNumbers(s);
      } else if s == largest {
        accepted := false;
      } else {
        accepted := MissingSequenceNumberReceived(s);
      }
    }

    method InsertMissingSequenceNumbers(s: int) returns (accepted: bool)
      requires 0 < s - largest <= INT_MAX
      modifies this
      ensures accepted && largest == s && missing == old(missing) + Range(old(largest) + 1, s)
    {
      var i := 1;
      while largest + i < s
        invariant 1 <= i <= s - largest <= INT_MAX && largest == old(largest)
        invariant missing == old(missing) + Range(largest + 1, largest + i)
      {
        missing := missing + [largest + i];
        i := i + 1;
      }
      largest := s;
      return true;
    }

    method MissingSequenceNumberReceived(s: int) returns (accepted: bool)
      modifies this`missing
      ensures var at := BackScan(old(missing), s);
              && accepted == (at >= 0)
              && missing == if at >= 0 then EraseAt(old(missing), at) else old(missing)
    {
      var it := |missing|;
      assert missing[..it] == missing;
      while it > 0
        invariant 0 <= it <= |missing| && missing == old(missing)
        invariant BackScan(missing, s) == BackScan(missing[..it], s)
      {
        it := it - 1;
        assert missing[..it + 1][..it] == missing[..it];
        if missing[it] == s {
          missing := EraseAt(missing, it);
          return true;
        }
        if missing[it] < s { return false; }
      }
      return false;
    }
  }

  // ---------------------------------------------------------------------------------------------
  // Whole runs

  function Run(base: int, adds: seq<int>): Tracker {
    if adds == [] then Tracker(base, [])
    else Add(Run(base, adds[..|adds| - 1]), adds[|adds| - 1]).0
  }

  /** What the tracker stands for: the highest number, and exactly the numbers below it that never came. */
  ghost predicate Tracks(t: Tracker, base: int, adds: set<int>) {
    && IsAscending(t.missing)
    && base <= t.largest && (t.largest == base || t.largest in adds)
    && (forall n :: n in adds ==> n <= t.largest)
    && (forall n :: n in t.missing <==> base < n < t.largest && n !in adds)
  }

  lemma AddTracks(t: Tracker, base: int, adds: set<int>, s: int)
    requires Tracks(t, base, adds)
    ensures Tracks(Add(t, s).0, base, adds + {s})
    ensures Add(t, s).1 <==> s > base && s !in adds
  {
    var after := Add(t, s).0;
    if s > t.largest {
      ConcatAscending(t.missing, Range(t.largest + 1, s));
    } else if s < t.largest {
      BackScanIsSearch(t.missing, s);
      if s in t.missing { EraseAscending(t.missing, BackScan(t.missing, s)); }
    }
  }

  lemma EraseAscending(v: seq<int>, i: nat)
    requires IsAscending(v) && i < |v|
    ensures IsAscending(EraseAt(v, i))
    ensures forall n :: n in EraseAt(v, i) <==> n in v && n != v[i]
  {
    var r := EraseAt(v, i);
    forall n | n in v && n != v[i] ensures n in r {
      var k :| 0 <= k < |v| && v[k] == n;
      assert r[if k < i then k else k - 1] == n;
    }
    forall k | 0 <= k < |r| ensures r[k] in v && r[k] != v[i] {
      assert r[k] == v[if k < i then k else k + 1];
    }
  }

  ghost function Members(v: seq<int>): set<int> {
    set n | n in v
  }

  lemma {:induction false} RunTracks(base: int, adds: seq<int>)
    ensures Tracks(Run(base, adds), base, Members(adds))
  {
    if adds != [] {
      var front, s := adds[..|adds| - 1], adds[|adds| - 1];
      RunTracks(base, front);
      AddTracks(Run(base, front), base, Members(front), s);
      assert adds == front + [s];
      forall n ensures n in Members(adds) <==> n in Members(front) + {s} { }
    }
  }

  /** Exactly-once acceptance: over any run a number is accepted if and only if it is above the base and
      was not added before. */
  lemma AcceptedOnce(base: int, adds: seq<int>, s: int)
    ensures Add(Run(base, adds), s).1 <==> s > base && s !in adds
  {
    RunTracks(base, adds);
    AddTracks(Run(base, adds), base, Members(adds), s);
  }

  /** The final state depends only on which numbers were added: not on their order, not on repetitions. */
  lemma OrderIrrelevant(base: int, a: seq<int>, b: seq<int>)
    requires forall n :: n in a <==> n in b
    ensures Run(base, a) == Run(base, b)
  {
    RunTracks(base, a);
    RunTracks(base, b);
    forall n ensures n in Members(a) <==> n in Members(b) { }
    var s, t := Run(base, a), Run(base, b);
    assert s.largest == t.largest;
    SameMembersSame(s.missing, t.missing);
  }
}
