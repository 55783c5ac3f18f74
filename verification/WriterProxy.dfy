/** The reader-side WriterProxy: which changes of a writer are known (received, or given up as lost), kept
    as a low mark below which everything is known plus the ordered set of known numbers above it. */
module WriterProxy {
  import opened Ascending
  import opened Basics
  import Bitmaps = BitmapRange
  import Tracking = ReceivedChanges

  const INT32_MAX := 0x7FFF_FFFF
  const U64 := 0x1_0000_0000_0000_0000

  /** low: changes_from_writer_low_mark_, max: max_sequence_number_, received: changes_received_. */
  datatype Proxy = Proxy(low: int, max: int, received: seq<int>)

  ghost predicate Inv(p: Proxy) {
    && p.low <= p.max
    && IsAscending(p.received)
    && forall n :: n in p.received ==> p.low + 1 < n <= p.max
  }

  /** change_was_received */
  predicate Known(p: Proxy, n: int) {
    n <= p.low || n in p.received
  }

  // ---------------------------------------------------------------------------------------------
  // The operations as functions

  /** cleanup: swallow the numbers that now continue the low mark. */
  function Cleanup(p: Proxy): Proxy
    decreases |p.received|
  {
    if p.received != [] && p.received[0] == p.low + 1
    then Cleanup(Proxy(p.low + 1, p.max, p.received[1..]))
    else p
  }

  /** received_change_set */
  function Receive(p: Proxy, s: int): (Proxy, bool) {
    if s <= p.low then (p, false)
    else if s > p.max then
      if s == p.low + 1 then (Proxy(s, s, p.received), true)
      else (Proxy(p.low, s, p.received + [s]), true)
    else if s == p.low + 1 then (Cleanup(p.(low := s)), true)
    else if s in p.received then (p, false)
    else (p.(received := Insert(p.received, s)), true)
  }

  /** std::lower_bound on the ordered set: how many numbers are below s. */
  function CountBelow(v: seq<int>, s: int): (k: nat)
    ensures k <= |v|
    ensures forall i :: 0 <= i < k ==> v[i] < s
    ensures k < |v| ==> v[k] >= s
  {
    if v == [] || v[0] >= s then 0 else 1 + CountBelow(v[1..], s)
  }

  /** lost_changes_update, with the number of changes it gives up. */
  function Lose(p: Proxy, s: int): (Proxy, int) {
    if s <= p.low + 1 then (p, 0)
    else
      var k := CountBelow(p.received, s);
      var max := if s - 1 > p.max then s - 1 else p.max;
      (Cleanup(Proxy(s - 1, max, p.received[k..])), s - p.low - 1 - k)
  }

  /** missing_changes_update */
  function Announce(p: Proxy, s: int): Proxy {
    if s > p.low && s > p.max then p.(max := s) else p
  }

  // ---------------------------------------------------------------------------------------------
  // What one operation does to the known numbers

  /** The number of known changes above a fixed origin. */
  ghost function Weight(p: Proxy): int {
    p.low + |p.received|
  }

  ghost predicate AlmostInv(p: Proxy) {
    && p.low <= p.max
    && IsAscending(p.received)
    && forall n :: n in p.received ==> p.low < n <= p.max
  }

  lemma {:induction false} CleanupKeeps(p: Proxy)
    requires AlmostInv(p)
    ensures Inv(Cleanup(p)) && Cleanup(p).max == p.max
    ensures forall n: int :: Known(Cleanup(p), n) <==> Known(p, n)
    ensures Weight(Cleanup(p)) == Weight(p)
    decreases |p.received|
  {
    if p.received != [] {
      HeadIsLeast(p.received);
      if p.received[0] == p.low + 1 { CleanupKeeps(Proxy(p.low + 1, p.max, p.received[1..])); }
    }
  }

  /** A change is accepted exactly when it was not known, and then it becomes known and nothing else does. */
  lemma ReceiveKeeps(p: Proxy, s: int)
    requires Inv(p)
    ensures var (q, accepted) := Receive(p, s);
            && Inv(q) && q.max == (if s > p.max then s else p.max)
            && (accepted <==> !Known(p, s))
            && (forall n: int :: Known(q, n) <==> Known(p, n) || n == s)
            && Weight(q) == Weight(p) + if accepted then 1 else 0
  {
    assert p.received != [] ==> p.received[0] in p.received;
    if s > p.low {
      if s > p.max {
        if s > p.low + 1 { AppendAscending(p.received, s); }
      } else if s == p.low + 1 {
        CleanupKeeps(p.(low := s));
      } else {
        InsertAdds(p.received, s);
      }
    }
  }

  lemma DropBelow(v: seq<int>, s: int)
    requires IsAscending(v)
    ensures IsAscending(v[CountBelow(v, s)..])
    ensures forall n :: n in v[CountBelow(v, s)..] <==> n in v && n >= s
  {
    hide CountBelow;
    var k := CountBelow(v, s);
    var rest := v[k..];
    forall n ensures n in rest <==> n in v && n >= s {
      if n in rest {
        var j :| 0 <= j < |rest| && rest[j] == n;
        assert v[k + j] == n && (j > 0 ==> v[k] < v[k + j]);
      }
      if n in v && n >= s {
        var i :| 0 <= i < |v| && v[i] == n;
        assert rest[i - k] == n;
      }
    }
  }

  /** Giving up everything below s makes exactly that known, and the count it reports is the number of
      changes that were not known before. */
  lemma LoseKeeps(p: Proxy, s: int)
    requires Inv(p)
    ensures var (q, lost) := Lose(p, s);
            && Inv(q) && q.max == (if s - 1 > p.max then s - 1 else p.max)
            && (forall n: int :: Known(q, n) <==> Known(p, n) || n < s)
            && lost == |Unknown(p.received, p.low, s)|
            && Weight(q) == Weight(p) + lost
  {
    if s > p.low + 1 {
      var k := CountBelow(p.received, s);
      DropBelow(p.received, s);
      var max := if s - 1 > p.max then s - 1 else p.max;
      CleanupKeeps(Proxy(s - 1, max, p.received[k..]));
      UnknownCount(p.received, p.low, s);
    } else {
      assert Unknown(p.received, p.low, s) == {};
    }
  }

  /** The numbers strictly between lo and hi that are not in v. */
  ghost function Unknown(v: seq<int>, lo: int, hi: int): set<int> {
    set n | lo < n < hi && n !in v
  }

  lemma {:induction false} UnknownCount(v: seq<int>, lo: int, hi: int)
    requires IsAscending(v) && lo < hi && forall n :: n in v ==> lo < n
    ensures |Unknown(v, lo, hi)| == hi - lo - 1 - CountBelow(v, hi)
    decreases hi - lo
  {
    if hi == lo + 1 {
      assert Unknown(v, lo, hi) == {};
      assert v != [] ==> v[0] in v;
    } else {
      UnknownCount(v, lo, hi - 1);
      CountBelowNext(v, hi - 1);
      assert Unknown(v, lo, hi) == Unknown(v, lo, hi - 1) + if hi - 1 in v then {} else {hi - 1};
    }
  }

  lemma CountBelowNext(v: seq<int>, m: int)
    requires IsAscending(v)
    ensures CountBelow(v, m + 1) == CountBelow(v, m) + if m in v then 1 else 0
  {
    var k, c := CountBelow(v, m), CountBelow(v, m + 1);
    assert k < |v| ==> v[k] in v;
    if m in v {
      var i :| 0 <= i < |v| && v[i] == m;
      assert i == k && (k + 1 < |v| ==> v[k + 1] > m);
    } else {
      assert k < |v| ==> v[k] > m;
    }
  }

  // ---------------------------------------------------------------------------------------------
  // Whole runs

  datatype Op = Received(s: int) | Lost(s: int) | Announced(s: int)

  function Apply(p: Proxy, op: Op): Proxy {
    match op
    case Received(s) => Receive(p, s).0
    case Lost(s) => Lose(p, s).0
    case Announced(s) => Announce(p, s)
  }

  /** A run from loaded_from_storage(base). */
  function Run(base: int, ops: seq<Op>): Proxy {
    if ops == [] then Proxy(base, base, [])
    else Apply(Run(base, ops[..|ops| - 1]), ops[|ops| - 1])
  }

  /** The number an operation proves to exist. */
  function Reach(op: Op): int {
    if op.Lost? then op.s - 1 else op.s
  }

  /** The numbers an operation settles, whatever the state. */
  predicate Settles(op: Op, n: int) {
    (op.Received? && n == op.s) || (op.Lost? && n < op.s)
  }

  /** The reference meaning of a set of operations: no state, no order. */
  ghost predicate Settled(base: int, ops: set<Op>, n: int) {
    n <= base || exists op :: op in ops && Settles(op, n)
  }

  ghost predicate HighestIs(base: int, ops: set<Op>, max: int) {
    && base <= max && (forall op :: op in ops ==> Reach(op) <= max)
    && (max == base || exists op :: op in ops && Reach(op) == max)
  }

  ghost predicate Means(p: Proxy, base: int, ops: set<Op>) {
    Inv(p) && HighestIs(base, ops, p.max) && forall n: int :: Known(p, n) <==> Settled(base, ops, n)
  }

  lemma HighestAfter(base: int, ops: set<Op>, max: int, op: Op)
    requires HighestIs(base, ops, max)
    ensures HighestIs(base, ops + {op}, if Reach(op) > max then Reach(op) else max)
  {
    if Reach(op) > max {
      assert op in ops + {op};
    } else if max != base {
      var o :| o in ops && Reach(o) == max;
      assert o in ops + {op};
    }
  }

  lemma SettledAfter(base: int, ops: set<Op>, op: Op, n: int)
    ensures Settled(base, ops + {op}, n) <==> Settled(base, ops, n) || Settles(op, n)
  {
    if Settled(base, ops, n) && n > base {
      var o :| o in ops && Settles(o, n);
      assert o in ops + {op};
    }
    if Settles(op, n) { assert op in ops + {op}; }
  }

  lemma ApplyMeans(p: Proxy, base: int, ops: set<Op>, op: Op)
    requires Means(p, base, ops)
    ensures Means(Apply(p, op), base, ops + {op})
  {
    HighestAfter(base, ops, p.max, op);
    forall n: int ensures Settled(base, ops + {op}, n) <==> Settled(base, ops, n) || Settles(op, n) {
      SettledAfter(base, ops, op, n);
    }
    match op
    case Received(s) => ReceiveKeeps(p, s);
    case Lost(s) => LoseKeeps(p, s);
    case Announced(s) =>
  }

  ghost function Members(ops: seq<Op>): set<Op> {
    set op | op in ops
  }

  /** After any run the proxy is exactly what the set of operations means: its known numbers are those
      settled by some operation, and its maximum is the highest number any of them reached. */
  lemma {:induction false} RunMeans(base: int, ops: seq<Op>)
    ensures Means(Run(base, ops), base, Members(ops))
  {
    if ops != [] {
      var front, op := ops[..|ops| - 1], ops[|ops| - 1];
      RunMeans(base, front);
      ApplyMeans(Run(base, front), base, Members(front), op);
      assert ops == front + [op];
      assert Members(ops) == Members(front) + {op};
    } else {
      assert Members(ops) == {};
    }
  }

  /** Two proxies that know the same numbers and the same maximum are equal. */
  lemma KnownDetermines(p: Proxy, q: Proxy)
    requires Inv(p) && Inv(q) && p.max == q.max
    requires forall n: int :: Known(p, n) <==> Known(q, n)
    ensures p == q
  {
    assert !Known(p, p.low + 1) && !Known(q, q.low + 1);
    assert !Known(q, p.low + 1) && !Known(p, q.low + 1);
    assert p.low == q.low;
    forall n ensures n in p.received <==> n in q.received {
      assert Known(p, n) <==> Known(q, n);
    }
    SameMembersSame(p.received, q.received);
  }

  /** Delivery order does not matter: data, gaps and heartbeats may come in any order and any number of
      times; the same set of operations leaves the same proxy. */
  lemma OrderIrrelevant(base: int, a: seq<Op>, b: seq<Op>)
    requires forall op :: op in a <==> op in b
    ensures Run(base, a) == Run(base, b)
  {
    RunMeans(base, a);
    RunMeans(base, b);
    assert Members(a) == Members(b);
    var p, q := Run(base, a), Run(base, b);
    assert p.max == q.max;
    KnownDetermines(p, q);
  }

  /** Exactly-once acceptance: over any run a change is accepted if and only if it is above the base, was
      not received before and was not given up before. */
  lemma AcceptedOnce(base: int, ops: seq<Op>, s: int)
    ensures Receive(Run(base, ops), s).1 <==>
            s > base && Received(s) !in ops && forall op :: op in ops && op.Lost? ==> op.s <= s
  {
    RunMeans(base, ops);
    ReceiveKeeps(Run(base, ops), s);
    if Settled(base, Members(ops), s) && s > base {
      var op :| op in Members(ops) && Settles(op, s);
      assert op in ops;
    }
    forall op | op in ops && Settles(op, s) ensures Settled(base, Members(ops), s) { assert op in Members(ops); }
  }

  /** How many changes a run accepted, and how many it gave up. */
  function Accepted(base: int, ops: seq<Op>): int {
    if ops == [] then 0
    else
      var front, op := ops[..|ops| - 1], ops[|ops| - 1];
      Accepted(base, front) + if op.Received? && Receive(Run(base, front), op.s).1 then 1 else 0
  }

  function GivenUp(base: int, ops: seq<Op>): int {
    if ops == [] then 0
    else
      var front, op := ops[..|ops| - 1], ops[|ops| - 1];
      GivenUp(base, front) + if op.Lost? then Lose(Run(base, front), op.s).1 else 0
  }

  /** Conservation: every number the proxy knows above the base was either accepted once or given up once, never
      both and never twice. */
  lemma {:induction false} ChangesConserved(base: int, ops: seq<Op>)
    ensures var p := Run(base, ops); p.low - base + |p.received| == Accepted(base, ops) + GivenUp(base, ops)
  {
    if ops != [] {
      var front, op := ops[..|ops| - 1], ops[|ops| - 1];
      ChangesConserved(base, front);
      RunMeans(base, front);
      match op
      case Received(s) => ReceiveKeeps(Run(base, front), s);
      case Lost(s) => LoseKeeps(Run(base, front), s);
      case Announced(s) =>
    }
  }

  /** What lost_changes_update returns for a count: it is clamped to an int32_t. */
  function Clamped(lost: int): int {
    Min(lost, INT32_MAX)
  }

  /** The sum of what a run was told about its losses. */
  function Reported(base: int, ops: seq<Op>): int {
    if ops == [] then 0
    else
      var front, op := ops[..|ops| - 1], ops[|ops| - 1];
      Reported(base, front) + if op.Lost? then Clamped(Lose(Run(base, front), op.s).1) else 0
  }

  /** No call of a run gives up more changes than an int32_t can count. */
  predicate LossesFit(base: int, ops: seq<Op>) {
    if ops == [] then true
    else
      var front, op := ops[..|ops| - 1], ops[|ops| - 1];
      LossesFit(base, front) && (op.Lost? ==> Lose(Run(base, front), op.s).1 <= INT32_MAX)
  }

  /** The reported losses never exceed the changes given up ... */
  lemma {:induction false} ReportedBounded(base: int, ops: seq<Op>)
    ensures Reported(base, ops) <= GivenUp(base, ops)
    ensures Reported(base, ops) == GivenUp(base, ops) <==> LossesFit(base, ops)
  {
    if ops != [] { ReportedBounded(base, ops[..|ops| - 1]); }
  }

  /** ... so what the proxy knows above the base is what it accepted and what it reported lost if and only if no
      single loss was too large to report. */
  lemma ReportedConserved(base: int, ops: seq<Op>)
    ensures var p := Run(base, ops);
            p.low - base + |p.received| == Accepted(base, ops) + Reported(base, ops) <==> LossesFit(base, ops)
  {
    ChangesConserved(base, ops);
    ReportedBounded(base, ops);
  }

  /** That can fail: giving up the first 2^31 changes at once is reported as one less. */
  lemma LargeLossIsClamped()
    ensures var ops := [Lost(0x8000_0001)]; GivenUp(0, ops) == 0x8000_0000 && Reported(0, ops) == 0x7FFF_FFFF
  {
    var ops := [Lost(0x8000_0001)];
    assert ops[..0] == [];
    assert Run(0, []) == Proxy(0, 0, []);
  }

  /** are_there_missing_changes: the comparison of the two marks tells whether any change up to the highest
      announced one is still unknown. */
  lemma MarksTellMissing(p: Proxy)
    requires Inv(p)
    ensures p.low < p.max <==> exists n: int :: n <= p.max && !Known(p, n)
  {
    if p.low < p.max { assert !Known(p, p.low + 1); }
  }

  // ---------------------------------------------------------------------------------------------
  // The class

  class WriterProxy {
    var low: int
    var max: int
    var received: seq<int>

    function State(): Proxy
      reads this
    {
      Proxy(low, max, received)
    }

    /** A proxy after loaded_from_storage(base). */
    constructor (base: int)
      ensures State() == Proxy(base, base, []) && Inv(State())
      ensures forall n: int :: Known(State(), n) <==> n <= base
    {
      low, max, received := base, base, [];
    }

    method CleanUp()
      modifies this
      ensures State() == Cleanup(old(State()))
    {
      var chit := 0;
      while chit < |received| && received[chit] == low + 1
        invariant 0 <= chit <= |received| && received == old(received) && max == old(max)
        invariant Cleanup(Proxy(low, max, received[chit..])) == Cleanup(old(State()))
      {
        assert received[chit..][1..] == received[chit + 1..];
        chit := chit + 1;
        low := low + 1;
      }
      received := received[chit..];
    }

    /** received_change_set, and irrelevant_change_set, which is the same call. */
    method ReceivedChangeSet(s: int) returns (accepted: bool)
      requires Inv(State())
      modifies this
      ensures Inv(State()) && (State(), accepted) == Receive(old(State()), s)
      ensures accepted <==> !Known(old(State()), s)
      ensures forall n: int :: Known(State(), n) <==> Known(old(State()), n) || n == s
      ensures max == Max(old(max), s)
    {
      ReceiveKeeps(State(), s);
      if s <= low { return false; }
      if s > max {
        if s == low + 1 {
          low := s;
        } else {
          received := received + [s];
        }
        max := s;
      } else if low + 1 == s {
        low := s;
        CleanUp();
      } else {
        if s in received { return false; }
        received := Insert(received, s);
      }
      accepted := true;
    }

    /** lost_changes_update: the count is computed modulo 2^64 and clamped to an int32_t. */
    method LostChangesUpdate(s: int) returns (lost: int)
      requires Inv(State()) && 0 <= low && max < U64 / 2 && s < U64 / 2
      modifies this
      ensures Inv(State()) && State() == Lose(old(State()), s).0
      ensures forall n: int :: Known(State(), n) <==> Known(old(State()), n) || n < s
      ensures max == Max(old(max), s - 1)
      ensures lost == Clamped(|Unknown(old(received), old(low), s)|)
    {
      lost := 0;
      LoseKeeps(State(), s);
      if s > low + 1 {
        var it := LowerBound(s);
        var tmp := CountLost(s, it);
        lost := if tmp > INT32_MAX then INT32_MAX else tmp;
        received := received[it..];
        low := s - 1;
        if low > max { max := low; }
        CleanUp();
      }
    }

    /** The unsigned 64-bit arithmetic of the lost count never loses anything to wrap-around. */
    method CountLost(s: int, it: nat) returns (tmp: int)
      requires Inv(State()) && 0 <= low && max < U64 / 2 && s < U64 / 2
      requires it <= s - (low + 1) && (received == [] ==> it == 0)
      ensures tmp == s - (low + 1) - it
    {
      if received != [] {
        assert received[0] in received;
        tmp := (received[0] - (low + 1)) % U64;
        tmp := (tmp + s - received[0] - it) % U64;
      } else {
        tmp := (s - (low + 1)) % U64;
      }
    }

    method LowerBound(s: int) returns (it: nat)
      ensures it == CountBelow(received, s)
    {
      it := 0;
      while it < |received| && received[it] < s
        invariant 0 <= it <= |received|
        invariant CountBelow(received, s) == it + CountBelow(received[it..], s)
      {
        assert received[it..][1..] == received[it + 1..];
        it := it + 1;
      }
    }

    method MissingChangesUpdate(s: int)
      requires Inv(State())
      modifies this
      ensures Inv(State()) && State() == Announce(old(State()), s)
      ensures low == old(low) && received == old(received) && max == Max(old(max), s)
    {
      if s > low {
        if s > max { max := s; }
      }
    }

    /** missing_changes: the set sent in an acknowledgement starts right above the low mark and names exactly
        the unknown changes among the next 256, up to the highest announced one.  It is empty, by its own count,
        exactly when nothing is missing. */
    method MissingChanges() returns (sns: Bitmaps.Bitmap)
      requires Inv(State())
      ensures sns.Valid() && sns.base == low + 1
      ensures forall n: int :: sns.Holds(n) <==> low < n <= max && n <= low + 256 && !Known(State(), n)
      ensures Bitmaps.Tight(sns.bits, sns.numBits) && (sns.numBits == 0 <==> low == max)
    {
      var first := low + 1;
      var limit := Min(first + 256, max + 1);
      sns := Bitmaps.Empty(first);
      hide Bitmaps.AddSpan, Bitmaps.Bitmap.Holds;
      var i := 0;
      while i < |received|
        invariant 0 <= i <= |received| && sns.Valid() && sns.base == low + 1
        invariant Bitmaps.Tight(sns.bits, sns.numBits)
        invariant if i == 0 then first == low + 1 else first == Min(received[i - 1], limit) + 1 < limit
        invariant forall n: int :: sns.Holds(n) <==> low < n < first && n < limit && n !in received
      {
        assert received[i] in received;
        var s := Min(received[i], limit);
        Bitmaps.AddSpanHolds(sns, first, s);
        sns := Bitmaps.AddSpan(sns, first, s);
        first := s + 1;
        i := i + 1;
        if first >= limit { break; }
      }
      if first < limit {
        Bitmaps.AddSpanHolds(sns, first, limit);
        sns := Bitmaps.AddSpan(sns, first, limit);
      }
      Bitmaps.EmptyAndMax(sns);
      assert low < max ==> sns.Holds(low + 1);
    }
  }

  /** The two bookkeepings of the repository agree: on any run of received numbers from one base they accept
      the same numbers ... */
  lemma TrackersAcceptAlike(base: int, adds: seq<int>, s: int)
    ensures Tracking.Add(Tracking.Run(base, adds), s).1 == Receive(Run(base, AsReceived(adds)), s).1
  {
    Tracking.AcceptedOnce(base, adds, s);
    AcceptedOnce(base, AsReceived(adds), s);
    ReceivedAlike(adds, s);
  }

  /** ... and the gap vector of one holds exactly the unknown numbers of the other. */
  lemma TrackersMissAlike(base: int, adds: seq<int>)
    ensures var t, p := Tracking.Run(base, adds), Run(base, AsReceived(adds));
            t.largest == p.max && forall n: int :: n in t.missing <==> n <= p.max && !Known(p, n)
  {
    var ops := AsReceived(adds);
    var t, p := Tracking.Run(base, adds), Run(base, ops);
    Tracking.RunTracks(base, adds);
    RunMeans(base, ops);
    if p.max > base {
      var op :| op in Members(ops) && Reach(op) == p.max;
      ReceivedAlike(adds, p.max);
      assert p.max in Tracking.Members(adds);
    }
    if t.largest > base {
      ReceivedAlike(adds, t.largest);
      assert Received(t.largest) in Members(ops);
    }
    forall n: int ensures n in t.missing <==> n <= p.max && !Known(p, n) {
      SettledByReceiving(base, adds, n);
    }
  }

  lemma ReceivedAlike(adds: seq<int>, n: int)
    ensures Received(n) in AsReceived(adds) <==> n in adds
  {
    if n in adds {
      var i :| 0 <= i < |adds| && adds[i] == n;
      assert AsReceived(adds)[i] == Received(n);
    }
  }

  lemma SettledByReceiving(base: int, adds: seq<int>, n: int)
    ensures Settled(base, Members(AsReceived(adds)), n) <==> n <= base || n in adds
  {
    ReceivedAlike(adds, n);
    if n in adds { assert Received(n) in Members(AsReceived(adds)) && Settles(Received(n), n); }
  }

  function AsReceived(adds: seq<int>): (ops: seq<Op>)
    ensures |ops| == |adds| && forall i :: 0 <= i < |adds| ==> ops[i] == Received(adds[i])
  {
    seq(|adds|, i requires 0 <= i < |adds| => Received(adds[i]))
  }
}
