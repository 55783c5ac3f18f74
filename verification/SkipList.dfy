/** The skip list of utils/futureCode: nodes with one forward pointer per level, a head node of full height
    and one tail pointer per level.  `Obj` is an integer here; only `<` and `==` on it are used. */
module SkipList {

  import opened Optional

  class SkipNode {
    const height: nat
    const data: Option<int>  // None in the head node
    const fwd: array<SkipNode?>

    constructor (obj: Option<int>, level: nat)
      ensures height == level && data == obj
      ensures fresh(fwd) && fwd.Length == level
      ensures forall x :: 0 <= x < level ==> fwd[x] == null
    {
      height, data := level, obj;
      fwd := new SkipNode?[level](_ => null);
    }
  }

  // ---------------------------------------------------------------------------------------------
  // The abstract list: its nodes in level-0 order.  Heights and data never change, so nothing in this
  // part reads the heap.

  ghost predicate Distinct(ns: seq<SkipNode>) {
    forall i, j :: 0 <= i < j < |ns| ==> ns[i] != ns[j]
  }

  /** The nodes that reach level x, in order. */
  ghost function Above(ns: seq<SkipNode>, x: nat): seq<SkipNode> {
    if ns == [] then []
    else if ns[0].height > x then [ns[0]] + Above(ns[1..], x)
    else Above(ns[1..], x)
  }

  /** The first node that reaches level x. */
  ghost function FirstAbove(ns: seq<SkipNode>, x: nat): SkipNode? {
    if ns == [] then null
    else if ns[0].height > x then ns[0]
    else FirstAbove(ns[1..], x)
  }

  /** The last node that reaches level x. */
  ghost function LastAbove(ns: seq<SkipNode>, x: nat): SkipNode? {
    if ns == [] then null
    else if ns[|ns| - 1].height > x then ns[|ns| - 1]
    else LastAbove(ns[..|ns| - 1], x)
  }

  /** The first node behind n that reaches level x. */
  ghost function SuccAt(ns: seq<SkipNode>, n: SkipNode, x: nat): SkipNode? {
    if ns == [] then null
    else if ns[0] == n then FirstAbove(ns[1..], x)
    else SuccAt(ns[1..], n, x)
  }

  lemma {:induction false} FirstConcat(a: seq<SkipNode>, b: seq<SkipNode>, x: nat)
    ensures FirstAbove(a + b, x) == if FirstAbove(a, x) != null then FirstAbove(a, x) else FirstAbove(b, x)
  {
    if a == [] {
      assert a + b == b;
    } else {
      assert (a + b)[1..] == a[1..] + b;
      FirstConcat(a[1..], b, x);
    }
  }

  lemma {:induction false} SuccConcat(a: seq<SkipNode>, b: seq<SkipNode>, n: SkipNode, x: nat)
    ensures SuccAt(a + b, n, x) ==
            if n !in a then SuccAt(b, n, x)
            else if SuccAt(a, n, x) != null then SuccAt(a, n, x)
            else FirstAbove(b, x)
  {
    if a == [] {
      assert a + b == b;
    } else {
      assert (a + b)[1..] == a[1..] + b;
      if a[0] == n { FirstConcat(a[1..], b, x); } else { SuccConcat(a[1..], b, n, x); }
    }
  }

  lemma {:induction false} LastConcat(a: seq<SkipNode>, b: seq<SkipNode>, x: nat)
    ensures LastAbove(a + b, x) == if LastAbove(b, x) != null then LastAbove(b, x) else LastAbove(a, x)
  {
    if b == [] {
      assert a + b == a;
    } else {
      assert (a + b)[..|a + b| - 1] == a + b[..|b| - 1];
      LastConcat(a, b[..|b| - 1], x);
    }
  }

  /** The last node that reaches a level is one of the nodes, and no other node lacks a successor there. */
  lemma {:induction false} LastIsTheEnd(ns: seq<SkipNode>, n: SkipNode, x: nat)
    requires Distinct(ns) && n in ns && n.height > x
    ensures LastAbove(ns, x) != null && LastAbove(ns, x) in ns && LastAbove(ns, x).height > x
    ensures SuccAt(ns, n, x) == null <==> n == LastAbove(ns, x)
  {
    var a, z := ns[..|ns| - 1], ns[|ns| - 1];
    assert ns == a + [z];
    SuccConcat(a, [z], n, x);
    if n in a { LastIsTheEnd(a, n, x); }
  }

  lemma {:induction false} FirstIsMember(ns: seq<SkipNode>, x: nat)
    ensures FirstAbove(ns, x) != null ==> FirstAbove(ns, x) in ns && FirstAbove(ns, x).height > x
  {
    if ns != [] { FirstIsMember(ns[1..], x); }
  }

  /** A successor lies strictly behind its node. */
  lemma {:induction false} SuccIsBehind(ns: seq<SkipNode>, k: nat, x: nat)
    requires Distinct(ns) && k < |ns|
    ensures SuccAt(ns, ns[k], x) == FirstAbove(ns[k + 1..], x)
  {
    if k > 0 {
      assert ns[1..][k - 1] == ns[k] && ns[1..][k..] == ns[k + 1..];
      SuccIsBehind(ns[1..], k - 1, x);
    }
  }

  lemma {:induction false} LastIsMember(ns: seq<SkipNode>, x: nat)
    ensures LastAbove(ns, x) != null ==> LastAbove(ns, x) in ns && LastAbove(ns, x).height > x
    ensures LastAbove(ns, x) == null <==> FirstAbove(ns, x) == null
  {
    if ns != [] {
      var a, z := ns[..|ns| - 1], ns[|ns| - 1];
      assert ns == a + [z];
      FirstConcat(a, [z], x);
      LastIsMember(a, x);
    }
  }

  ghost function Next(a: seq<SkipNode>, i: nat): SkipNode? {
    if i < |a| then a[i] else null
  }

  /** Following successors at level x visits exactly the nodes that reach level x, once each and in order. */
  lemma {:induction false} SuccsVisitAbove(ns: seq<SkipNode>, x: nat)
    requires Distinct(ns)
    ensures var a := Above(ns, x);
            && Distinct(a) && (forall n :: n in a ==> n in ns && n.height > x)
            && FirstAbove(ns, x) == Next(a, 0)
            && (forall i :: 0 <= i < |a| ==> SuccAt(ns, a[i], x) == Next(a, i + 1))
            && LastAbove(ns, x) == if a == [] then null else a[|a| - 1]
  {
    if ns != [] {
      SuccsVisitAbove(ns[1..], x);
      assert ns == [ns[0]] + ns[1..];
      LastConcat([ns[0]], ns[1..], x);
      LastIsMember(ns[1..], x);
      assert ns[0] !in ns[1..];
    }
  }

  lemma {:induction false} AboveConcat(a: seq<SkipNode>, b: seq<SkipNode>, x: nat)
    ensures Above(a + b, x) == Above(a, x) + Above(b, x)
  {
    if a == [] {
      assert a + b == b;
    } else {
      AboveConcat(a[1..], b, x);
      assert (a + b)[0] == a[0] && (a + b)[1..] == a[1..] + b;
      ConsConcat(a[0], Above(a[1..], x), Above(b, x));
    }
  }

  lemma ConsConcat(n: SkipNode, u: seq<SkipNode>, v: seq<SkipNode>)
    ensures [n] + (u + v) == [n] + u + v
  {
  }

  /** A level below every height has all nodes. */
  lemma {:induction false} AboveAll(ns: seq<SkipNode>, x: nat)
    requires forall n :: n in ns ==> n.height > x
    ensures Above(ns, x) == ns
  {
    if ns != [] { AboveAll(ns[1..], x); }
  }

  /** The level-x pointers from the head on visit `chain`, without repetition, and end in null. */
  ghost predicate IsLevel(head: SkipNode, chain: seq<SkipNode>, x: nat)
    reads head.fwd, set n | n in chain :: n.fwd
  {
    && x < head.fwd.Length && head !in chain && Distinct(chain)
    && (forall n :: n in chain ==> x < n.fwd.Length)
    && head.fwd[x] == Next(chain, 0)
    && (forall i :: 0 <= i < |chain| ==> chain[i].fwd[x] == Next(chain, i + 1))
  }

  /** The walk along a level, head included: it has no repetition, each pointer leads to its next node, and past the
      last one there is null. */
  lemma WalkIsChain(head: SkipNode, chain: seq<SkipNode>, x: nat)
    requires IsLevel(head, chain, x)
    ensures Distinct([head] + chain) && Next([head] + chain, 0) == head
  {
    forall i, j | 0 <= i < j < |[head] + chain| ensures ([head] + chain)[i] != ([head] + chain)[j] {
      assert ([head] + chain)[j] == chain[j - 1];
    }
  }

  lemma WalkStep(head: SkipNode, chain: seq<SkipNode>, x: nat, pos: nat)
    requires IsLevel(head, chain, x) && Next([head] + chain, pos) != null
    ensures var walk := [head] + chain;
            && pos < |walk| && Next(walk, pos) == walk[pos]
            && x < walk[pos].fwd.Length && walk[pos].fwd[x] == Next(walk, pos + 1)
  {
    if pos > 0 { assert ([head] + chain)[pos] == chain[pos - 1]; }
  }

  lemma WalkEnds(walk: seq<SkipNode>, pos: nat)
    requires pos <= |walk| && Next(walk, pos) == null
    ensures walk[..pos] == walk
  {
  }

  /** Each level is a subsequence of every level below it. */
  lemma {:induction false} LevelsNest(ns: seq<SkipNode>, x: nat, y: nat)
    requires y <= x
    ensures Above(Above(ns, y), x) == Above(ns, x)
  {
    if ns != [] { LevelsNest(ns[1..], x, y); }
  }

  // ---------------------------------------------------------------------------------------------
  // Sorted lists and the search

  ghost predicate AllHaveData(ns: seq<SkipNode>) {
    forall n :: n in ns ==> n.data.Some?
  }

  ghost predicate Sorted(ns: seq<SkipNode>)
    requires AllHaveData(ns)
  {
    forall i, j :: 0 <= i < j < |ns| ==> ns[i].data.value <= ns[j].data.value
  }

  /** The stored keys, in list order. */
  ghost function Keys(ns: seq<SkipNode>): seq<int>
    requires AllHaveData(ns)
  {
    seq(|ns|, i requires 0 <= i < |ns| => ns[i].data.value)
  }

  /** Every level of a sorted list is sorted. */
  lemma {:induction false} LevelsSorted(ns: seq<SkipNode>, x: nat)
    requires AllHaveData(ns) && Sorted(ns)
    ensures forall n :: n in Above(ns, x) ==> n in ns
    ensures AllHaveData(Above(ns, x)) && Sorted(Above(ns, x))
  {
    if ns != [] {
      LevelsSorted(ns[1..], x);
      assert forall n :: n in ns[1..] ==> ns[0].data.value <= n.data.value;
    }
  }

  /** A linear scan: how many leading nodes are below obj. */
  ghost function ScanBelow(ns: seq<SkipNode>, obj: int): (b: nat)
    requires AllHaveData(ns)
    ensures b <= |ns|
    ensures forall i :: 0 <= i < b ==> ns[i].data.value < obj
    ensures b < |ns| ==> ns[b].data.value >= obj
  {
    if ns == [] || ns[0].data.value >= obj then 0 else 1 + ScanBelow(ns[1..], obj)
  }

  /** In a sorted list the nodes below obj are exactly the scanned ones. */
  lemma BelowIsScanned(ns: seq<SkipNode>, obj: int, k: nat)
    requires AllHaveData(ns) && Sorted(ns) && k < |ns|
    ensures ns[k].data.value < obj <==> k < ScanBelow(ns, obj)
  {
  }

  lemma KeyAbsent(ns: seq<SkipNode>, obj: int)
    requires AllHaveData(ns) && Sorted(ns)
    requires ScanBelow(ns, obj) < |ns| && ns[ScanBelow(ns, obj)].data.value != obj
    ensures obj !in Keys(ns)
  {
    forall k | 0 <= k < |ns| ensures Keys(ns)[k] != obj { BelowIsScanned(ns, obj, k); }
  }

  lemma SortedBetween(ns: seq<SkipNode>, at: nat, n: SkipNode)
    requires AllHaveData(ns) && Sorted(ns) && at <= |ns| && n.data.Some?
    requires forall k :: 0 <= k < at ==> ns[k].data.value <= n.data.value
    requires forall k :: at <= k < |ns| ==> n.data.value <= ns[k].data.value
    ensures AllHaveData(ns[..at] + [n] + ns[at..]) && Sorted(ns[..at] + [n] + ns[at..])
  {
    var after := ns[..at] + [n] + ns[at..];
    assert forall m :: m in after ==> m in ns || m == n;
    forall i, j | 0 <= i < j < |after| ensures after[i].data.value <= after[j].data.value {
      assert after[i] == if i < at then ns[i] else if i == at then n else ns[i - 1];
      assert after[j] == if j < at then ns[j] else if j == at then n else ns[j - 1];
    }
  }

  /** A node put at the scanned position keeps the list sorted. */
  lemma InsertSorted(ns: seq<SkipNode>, obj: int, n: SkipNode)
    requires AllHaveData(ns) && Sorted(ns) && n.data == Some(obj)
    ensures var at := ScanBelow(ns, obj); var after := ns[..at] + [n] + ns[at..];
            AllHaveData(after) && Sorted(after)
  {
    forall k | ScanBelow(ns, obj) <= k < |ns| ensures obj <= ns[k].data.value { BelowIsScanned(ns, obj, k); }
    SortedBetween(ns, ScanBelow(ns, obj), n);
  }

  lemma InsertKeys(ns: seq<SkipNode>, at: nat, n: SkipNode)
    requires AllHaveData(ns) && at <= |ns| && n.data.Some?
    ensures var after := ns[..at] + [n] + ns[at..];
            AllHaveData(after) && multiset(Keys(after)) == multiset(Keys(ns)) + multiset{n.data.value}
  {
    var after := ns[..at] + [n] + ns[at..];
    assert forall m :: m in after ==> m in ns || m == n;
    assert Keys(after) == Keys(ns)[..at] + [n.data.value] + Keys(ns)[at..];
    assert Keys(ns) == Keys(ns)[..at] + Keys(ns)[at..];
  }

  ghost predicate NoneTaller(ns: seq<SkipNode>, bound: nat) {
    forall n :: n in ns ==> n.height <= bound
  }

  lemma NothingAbove(ns: seq<SkipNode>, bound: nat)
    requires NoneTaller(ns, bound)
    ensures forall x: nat :: x >= bound ==> LastAbove(ns, x) == null
  {
    forall x: nat | x >= bound ensures LastAbove(ns, x) == null { LastIsMember(ns, x); }
  }

  /** A level that some node of `a` reaches starts inside `a`. */
  lemma TallAhead(a: seq<SkipNode>, b: seq<SkipNode>, x: nat)
    requires Distinct(a + b) && !NoneTaller(a, x)
    ensures FirstAbove(a + b, x) != null && FirstAbove(a + b, x) in a
  {
    assert forall i, j :: 0 <= i < j < |a| ==> a[i] == (a + b)[i] && a[j] == (a + b)[j];
    var n :| n in a && n.height > x;
    LastIsTheEnd(a, n, x);
    LastIsMember(a, x);
    FirstIsMember(a, x);
    FirstConcat(a, b, x);
  }

  /** The raised height bounds the nodes again, and a node put ahead of the last one leaves that the last. */
  lemma InsertedBounded(ns: seq<SkipNode>, at: nat, obj: int, lvl: nat, after: seq<SkipNode>, bound: nat)
    requires IsInserted(ns, at, obj, lvl, after) && at < |ns| && NoneTaller(ns, bound)
    ensures NoneTaller(after, if lvl > bound then lvl else bound) && after[|after| - 1] == ns[|ns| - 1]
    ensures forall n :: n in after ==> n in ns || n == after[at]
  {
  }

  /** The keys of a run that were not there, each once, in the order of the run. */
  ghost function NewKeys(was: seq<int>, objs: seq<int>): seq<int> {
    if objs == [] then []
    else
      var front, z := objs[..|objs| - 1], objs[|objs| - 1];
      NewKeys(was, front) + if z in was || z in front then [] else [z]
  }

  lemma {:induction false} NewKeysMembers(was: seq<int>, objs: seq<int>, key: int)
    ensures key in NewKeys(was, objs) <==> key in objs && key !in was
  {
    if objs != [] {
      NewKeysMembers(was, objs[..|objs| - 1], key);
      assert objs == objs[..|objs| - 1] + [objs[|objs| - 1]];
    }
  }

  lemma NewKeysNext(was: seq<int>, objs: seq<int>, k: nat)
    requires k < |objs|
    ensures NewKeys(was, objs[..k + 1]) ==
            NewKeys(was, objs[..k]) + if objs[k] in was || objs[k] in objs[..k] then [] else [objs[k]]
  {
    assert objs[..k + 1][..k] == objs[..k];
  }

  /** A run reported exactly the keys that were new when they came, and added exactly those. */
  ghost predicate RunAdds(was: seq<int>, objs: seq<int>, oks: seq<bool>, keys: seq<int>) {
    && |oks| == |objs|
    && (forall k :: 0 <= k < |objs| ==> (oks[k] <==> objs[k] !in was && objs[k] !in objs[..k]))
    && multiset(keys) == multiset(was) + multiset(NewKeys(was, objs))
  }

  lemma RunAddsKeeps(was: seq<int>, objs: seq<int>, oks: seq<bool>, keys: seq<int>, key: int)
    requires RunAdds(was, objs, oks, keys)
    ensures key in was ==> key in keys
  {
    assert key in was ==> key in multiset(was) && key in multiset(keys);
  }

  lemma RunAddsNext(was: seq<int>, objs: seq<int>, k: nat, oks: seq<bool>, before: seq<int>, ok: bool,
                    keys: seq<int>)
    requires k < |objs| && RunAdds(was, objs[..k], oks, before) && (ok <==> objs[k] !in before)
    requires multiset(keys) == multiset(before) + if ok then multiset{objs[k]} else multiset{}
    ensures RunAdds(was, objs[..k + 1], oks + [ok], keys)
  {
    hide NewKeys;
    var z, front, more := objs[k], NewKeys(was, objs[..k]), NewKeys(was, objs[..k + 1]);
    assert ok <==> z !in was && z !in objs[..k] by {
      NewKeysMembers(was, objs[..k], z);
      assert z in before <==> z in multiset(before);
    }
    assert multiset(more) == multiset(front) + if ok then multiset{z} else multiset{} by {
      NewKeysNext(was, objs, k);
      assert more == front + if ok then [z] else [];
    }
    NewReported(was, objs, k, oks, ok);
  }

  lemma NewReported(was: seq<int>, objs: seq<int>, k: nat, oks: seq<bool>, ok: bool)
    requires k < |objs| && |oks| == k && (ok <==> objs[k] !in was && objs[k] !in objs[..k])
    requires forall j :: 0 <= j < k ==> (oks[j] <==> objs[..k][j] !in was && objs[..k][j] !in objs[..k][..j])
    ensures forall j :: 0 <= j < k + 1 ==>
              ((oks + [ok])[j] <==> objs[..k + 1][j] !in was && objs[..k + 1][j] !in objs[..k + 1][..j])
  {
    forall j | 0 <= j < k + 1
      ensures (oks + [ok])[j] <==> objs[..k + 1][j] !in was && objs[..k + 1][j] !in objs[..k + 1][..j]
    {
      assert objs[..k + 1][..j] == objs[..j];
      if j < k { assert objs[..k][..j] == objs[..j] && objs[..k][j] == objs[j]; }
    }
  }

  /** `after` is `ns` with one new node of the given object and height at position `at`. */
  ghost predicate IsInserted(ns: seq<SkipNode>, at: nat, obj: int, lvl: nat, after: seq<SkipNode>) {
    && at <= |ns| && |after| == |ns| + 1
    && after == ns[..at] + [after[at]] + ns[at..]
    && after[at].data == Some(obj) && after[at].height == lvl
  }

  /** The last node of level x among ns, or the head. */
  ghost function LastOrHead(head: SkipNode, ns: seq<SkipNode>, x: nat): SkipNode {
    if LastAbove(ns, x) == null then head else LastAbove(ns, x)
  }

  /** What a node's level-x pointer holds in a linked list; position 0 is the head, position k+1 is ns[k]. */
  ghost function Ahead(ns: seq<SkipNode>, pos: nat, x: nat): SkipNode?
    requires pos <= |ns|
  {
    FirstAbove(ns[pos..], x)
  }

  /** One step of the search at level x stays below obj and moves strictly forward. */
  lemma SearchStep(ns: seq<SkipNode>, obj: int, pos: nat, x: nat) returns (next: nat)
    requires AllHaveData(ns) && Sorted(ns) && pos <= ScanBelow(ns, obj)
    requires var n := Ahead(ns, pos, x); n != null && n.data.Some? && n.data.value < obj
    ensures pos < next <= ScanBelow(ns, obj) && ns[next - 1] == Ahead(ns, pos, x) && ns[next - 1].height > x
  {
    hide FirstAbove, Sorted, ScanBelow;
    var rest := ns[pos..];
    FirstIsMember(rest, x);
    var i :| 0 <= i < |rest| && rest[i] == FirstAbove(rest, x);
    assert rest[i] == ns[pos + i];
    next := pos + i + 1;
    BelowIsScanned(ns, obj, next - 1);
  }

  lemma LastBeforeGap(head: SkipNode, a: seq<SkipNode>, gap: seq<SkipNode>, x: nat)
    requires FirstAbove(gap, x) == null
    requires a != [] ==> a[|a| - 1].height > x
    ensures LastOrHead(head, a + gap, x) == if a == [] then head else a[|a| - 1]
  {
    LastIsMember(gap, x);
    LastConcat(a, gap, x);
  }

  /** No level-x node lies between a position and the first scanned-out node. */
  lemma NothingBetween(ns: seq<SkipNode>, obj: int, pos: nat, x: nat)
    requires AllHaveData(ns) && pos <= ScanBelow(ns, obj)
    requires var n := Ahead(ns, pos, x); n != null ==> n.data.Some? && n.data.value >= obj
    ensures FirstAbove(ns[pos..ScanBelow(ns, obj)], x) == null
  {
    var b := ScanBelow(ns, obj);
    var mid := ns[pos..b];
    assert ns[pos..] == mid + ns[b..];
    FirstConcat(mid, ns[b..], x);
    FirstIsMember(mid, x);
    assert forall i :: 0 <= i < |mid| ==> mid[i] == ns[pos + i];
  }

  /** Where the search leaves level x it stands on the last level-x node below obj. */
  lemma SearchEnd(head: SkipNode, ns: seq<SkipNode>, obj: int, pos: nat, x: nat)
    requires AllHaveData(ns) && pos <= ScanBelow(ns, obj)
    requires pos > 0 ==> ns[pos - 1].height > x
    requires var n := Ahead(ns, pos, x); n != null ==> n.data.Some? && n.data.value >= obj
    ensures LastOrHead(head, ns[..ScanBelow(ns, obj)], x) == if pos == 0 then head else ns[pos - 1]
  {
    var b := ScanBelow(ns, obj);
    NothingBetween(ns, obj, pos, x);
    LastBeforeGap(head, ns[..pos], ns[pos..b], x);
    assert ns[..b] == ns[..pos] + ns[pos..b];
  }

  // ---------------------------------------------------------------------------------------------
  // The heap shape

  ghost predicate Shape(head: SkipNode, ns: seq<SkipNode>, maxHeight: nat) {
    && maxHeight >= 1
    && head.fwd.Length == head.height == maxHeight
    && head !in ns && Distinct(ns)
    && (forall n :: n in ns ==> NodeShape(head, n, maxHeight))
    && (forall n, m :: n in ns && m in ns && n != m ==> n.fwd != m.fwd)
  }

  ghost predicate NodeShape(head: SkipNode, n: SkipNode, maxHeight: nat) {
    n.data.Some? && n.fwd.Length == n.height && 1 <= n.height <= maxHeight && n.fwd != head.fwd
  }

  ghost function Arrays(head: SkipNode, ns: seq<SkipNode>): set<array<SkipNode?>> {
    {head.fwd} + set n | n in ns :: n.fwd
  }

  /** Every forward pointer leads to the next node that reaches its level. */
  ghost predicate Linked(head: SkipNode, ns: seq<SkipNode>, maxHeight: nat)
    requires Shape(head, ns, maxHeight)
    reads Arrays(head, ns)
  {
    && (forall x :: 0 <= x < maxHeight ==> head.fwd[x] == FirstAbove(ns, x))
    && (forall n, x :: n in ns && 0 <= x < n.height ==> n.fwd[x] == SuccAt(ns, n, x))
  }

  lemma AppendShape(head: SkipNode, ns: seq<SkipNode>, tmp: SkipNode, maxHeight: nat)
    requires Shape(head, ns, maxHeight) && tmp != head && tmp !in ns
    requires NodeShape(head, tmp, maxHeight) && tmp.fwd !in Arrays(head, ns)
    ensures Shape(head, ns + [tmp], maxHeight)
  {
    assert forall n :: n in ns + [tmp] <==> n in ns || n == tmp;
    assert forall n :: n in ns ==> n.fwd in Arrays(head, ns);
  }

  /** Once the new node hangs behind the end of every level it reaches, the extended list is linked. */
  lemma AppendLinked(head: SkipNode, ns: seq<SkipNode>, tmp: SkipNode, maxHeight: nat)
    requires Shape(head, ns, maxHeight) && Shape(head, ns + [tmp], maxHeight)
    requires tmp !in ns && NodeShape(head, tmp, maxHeight)
    requires forall x :: 0 <= x < tmp.height ==> tmp.fwd[x] == null
    requires forall x :: 0 <= x < maxHeight ==>
               head.fwd[x] == if x < tmp.height && FirstAbove(ns, x) == null then tmp else FirstAbove(ns, x)
    requires forall n, x :: n in ns && 0 <= x < n.height ==>
               n.fwd[x] == if x < tmp.height && SuccAt(ns, n, x) == null then tmp else SuccAt(ns, n, x)
    ensures Linked(head, ns + [tmp], maxHeight)
  {
    forall x | 0 <= x < maxHeight ensures head.fwd[x] == FirstAbove(ns + [tmp], x) { FirstConcat(ns, [tmp], x); }
    forall n, x | n in ns + [tmp] && 0 <= x < n.height ensures n.fwd[x] == SuccAt(ns + [tmp], n, x) {
      SuccConcat(ns, [tmp], n, x);
    }
  }

  lemma InsertShape(head: SkipNode, a: seq<SkipNode>, b: seq<SkipNode>, tmp: SkipNode, maxHeight: nat)
    requires Shape(head, a + b, maxHeight) && tmp != head && tmp !in a + b
    requires NodeShape(head, tmp, maxHeight) && tmp.fwd !in Arrays(head, a + b)
    ensures Shape(head, a + [tmp] + b, maxHeight)
  {
    var ns := a + [tmp] + b;
    assert forall n :: n in ns <==> n in a + b || n == tmp;
    assert forall n :: n in a + b ==> n.fwd in Arrays(head, a + b);
    forall i, j | 0 <= i < j < |ns| ensures ns[i] != ns[j] {
      var i', j' := if i <= |a| then i else i - 1, if j <= |a| then j else j - 1;
      if i == |a| { assert ns[j] in a + b; }
      else if j == |a| { assert ns[i] in a + b; }
      else { assert ns[i] == (a + b)[i'] && ns[j] == (a + b)[j']; }
    }
  }

  /** The pointers of a list `a + b` with `tmp` spliced in between at the levels it reaches. */
  ghost predicate Spliced(head: SkipNode, a: seq<SkipNode>, b: seq<SkipNode>, tmp: SkipNode, maxHeight: nat, upTo: nat)
    requires Shape(head, a + b, maxHeight) && NodeShape(head, tmp, maxHeight)
    reads Arrays(head, a + b), tmp.fwd
  {
    && (forall x :: 0 <= x < maxHeight ==>
          head.fwd[x] == if x < upTo && FirstAbove(a, x) == null then tmp else FirstAbove(a + b, x))
    && (forall n, x :: n in a + b && 0 <= x < n.height ==>
          n.fwd[x] == if x < upTo && n in a && SuccAt(a, n, x) == null then tmp else SuccAt(a + b, n, x))
    && (forall x :: 0 <= x < upTo && x < tmp.height ==> tmp.fwd[x] == FirstAbove(b, x))
  }

  lemma SplicedIsLinked(head: SkipNode, a: seq<SkipNode>, b: seq<SkipNode>, tmp: SkipNode, maxHeight: nat)
    requires Shape(head, a + b, maxHeight) && Shape(head, a + [tmp] + b, maxHeight) && tmp !in a + b
    requires NodeShape(head, tmp, maxHeight)
    requires Spliced(head, a, b, tmp, maxHeight, tmp.height)
    ensures Linked(head, a + [tmp] + b, maxHeight)
  {
    var ns := a + [tmp] + b;
    forall x | 0 <= x < maxHeight ensures head.fwd[x] == FirstAbove(ns, x) {
      FirstConcat(a + [tmp], b, x);
      FirstConcat(a, [tmp], x);
      FirstConcat(a, b, x);
    }
    forall n, x | n in ns && 0 <= x < n.height ensures n.fwd[x] == SuccAt(ns, n, x) {
      SuccConcat(a + [tmp], b, n, x);
      SuccConcat(a, [tmp], n, x);
      SuccConcat(a, b, n, x);
      FirstConcat([tmp], b, x);
    }
  }

  /** The predecessor at level x is the one node of `a` (or the head) whose pointer leaves `a`. */
  lemma SplicePoint(head: SkipNode, a: seq<SkipNode>, b: seq<SkipNode>, x: nat)
    requires Distinct(a + b)
    ensures LastAbove(a, x) == null ==> FirstAbove(a, x) == null && FirstAbove(a + b, x) == FirstAbove(b, x)
    ensures LastAbove(a, x) != null ==>
              FirstAbove(a, x) != null && LastAbove(a, x) in a && SuccAt(a + b, LastAbove(a, x), x) == FirstAbove(b, x)
    ensures forall n :: n in a && n.height > x ==> (SuccAt(a, n, x) == null <==> n == LastAbove(a, x))
  {
    assert forall i, j :: 0 <= i < j < |a| ==> a[i] == (a + b)[i] && a[j] == (a + b)[j];
    LastIsMember(a, x);
    FirstConcat(a, b, x);
    forall n | n in a && n.height > x ensures SuccAt(a, n, x) == null <==> n == LastAbove(a, x) {
      LastIsTheEnd(a, n, x);
    }
    if LastAbove(a, x) != null { SuccConcat(a, b, LastAbove(a, x), x); }
  }

  /** Linking behind the last nodes of `a`, level by level, is splicing in between `a` and `b`. */
  lemma BehindPreds(head: SkipNode, a: seq<SkipNode>, b: seq<SkipNode>, tmp: SkipNode, maxHeight: nat,
                    preds: seq<SkipNode>)
    requires Shape(head, a + b, maxHeight) && NodeShape(head, tmp, maxHeight) && |preds| == tmp.height
    requires forall x :: 0 <= x < |preds| ==> preds[x] == LastOrHead(head, a, x)
    requires forall x :: 0 <= x < |preds| ==>
               tmp.fwd[x] == if preds[x] == head then FirstAbove(a + b, x) else SuccAt(a + b, preds[x], x)
    requires forall x :: 0 <= x < maxHeight ==>
               head.fwd[x] == if x < |preds| && preds[x] == head then tmp else FirstAbove(a + b, x)
    requires forall n, x :: n in a + b && 0 <= x < n.height ==>
               n.fwd[x] == if x < |preds| && preds[x] == n then tmp else SuccAt(a + b, n, x)
    ensures Spliced(head, a, b, tmp, maxHeight, tmp.height)
  {
    hide FirstAbove, LastAbove, SuccAt;
    forall x | 0 <= x < maxHeight
      ensures head.fwd[x] == if x < tmp.height && FirstAbove(a, x) == null then tmp else FirstAbove(a + b, x)
    {
      SplicePoint(head, a, b, x);
    }
    forall n: SkipNode, x: int | n in a + b && 0 <= x < n.height
      ensures n.fwd[x] == if x < tmp.height && n in a && SuccAt(a, n, x) == null then tmp else SuccAt(a + b, n, x)
    {
      SplicePoint(head, a, b, x);
    }
    forall x | 0 <= x < tmp.height ensures tmp.fwd[x] == FirstAbove(b, x) {
      SplicePoint(head, a, b, x);
    }
  }

  /** How many nodes of a level stay ahead of a node that insert links: below the current height c those ahead of
      its place, from there up none. */
  ghost function Kept(ns: seq<SkipNode>, at: nat, c: nat, x: nat): nat
    requires at <= |ns|
  {
    if x < c then |Above(ns[..at], x)| else 0
  }

  /** A level after insert: the old one, with the new node exactly once if it reaches the level. */
  ghost function LevelAfter(ns: seq<SkipNode>, at: nat, c: nat, tmp: SkipNode, x: nat): seq<SkipNode>
    requires at <= |ns|
  {
    AboveConcat(ns[..at], ns[at..], x);
    assert ns == ns[..at] + ns[at..];
    var a, p := Above(ns, x), Kept(ns, at, c, x);
    if x < tmp.height then a[..p] + [tmp] + a[p..] else a
  }

  /** The node recorded for a level is the last one that stays ahead. */
  lemma RecordedIsLastKept(head: SkipNode, ns: seq<SkipNode>, at: nat, c: nat, x: nat)
    requires Distinct(ns) && at <= |ns|
    ensures var a, p := Above(ns, x), Kept(ns, at, c, x);
            p <= |a| && (if x < c then LastOrHead(head, ns[..at], x) else head) == if p == 0 then head else a[p - 1]
  {
    hide FirstAbove, LastAbove, SuccAt;
    AboveConcat(ns[..at], ns[at..], x);
    assert ns == ns[..at] + ns[at..];
    SuccsVisitAbove(ns[..at], x);
  }

  /** b is a with tmp once more, at position p. */
  ghost predicate OneMore(a: seq<SkipNode>, p: nat, tmp: SkipNode, b: seq<SkipNode>) {
    p <= |a| && b == a[..p] + [tmp] + a[p..]
  }

  /** Linking behind the p-th node of a level puts the new node there and keeps the rest of the level. */
  lemma LinkedBehind(head: SkipNode, a: seq<SkipNode>, p: nat, tmp: SkipNode, b: seq<SkipNode>, x: nat)
    requires OneMore(a, p, tmp, b) && Distinct(b) && head !in b
    requires x < head.fwd.Length && x < tmp.fwd.Length && forall n :: n in a ==> x < n.fwd.Length
    requires head.fwd[x] == if p == 0 then tmp else Next(a, 0)
    requires forall i :: 0 <= i < |a| ==> a[i].fwd[x] == if i + 1 == p then tmp else Next(a, i + 1)
    requires tmp.fwd[x] == Next(a, p)
    ensures IsLevel(head, b, x)
  {
    assert Next(b, 0) == if p == 0 then tmp else Next(a, 0);
    hide Distinct, OneMore, Next;
    forall i | 0 <= i < |b| ensures x < b[i].fwd.Length && b[i].fwd[x] == Next(b, i + 1) {
      OneMoreAt(a, p, tmp, b, i);
    }
    forall n | n in b ensures x < n.fwd.Length {
      var i :| 0 <= i < |b| && b[i] == n;
    }
  }

  lemma OneMoreAt(a: seq<SkipNode>, p: nat, tmp: SkipNode, b: seq<SkipNode>, i: nat)
    requires OneMore(a, p, tmp, b) && i < |b|
    ensures i < p ==> i < |a| && b[i] == a[i] && Next(b, i + 1) == if i + 1 == p then tmp else Next(a, i + 1)
    ensures i == p ==> b[i] == tmp && Next(b, i + 1) == Next(a, p)
    ensures i > p ==> b[i] == a[i - 1] && Next(b, i + 1) == Next(a, i)
  {
  }

  lemma WithOneMore(a: seq<SkipNode>, p: nat, tmp: SkipNode)
    requires Distinct(a) && tmp !in a && p <= |a|
    ensures var b := a[..p] + [tmp] + a[p..];
            OneMore(a, p, tmp, b) && Distinct(b) && forall n :: n in b <==> n in a || n == tmp
  {
    var b := a[..p] + [tmp] + a[p..];
    assert a == a[..p] + a[p..];
    forall i, j | 0 <= i < j < |b| ensures b[i] != b[j] {
      var i', j' := if i < p then i else i - 1, if j < p then j else j - 1;
      if i != p && j != p { assert b[i] == a[i'] && b[j] == a[j']; }
    }
  }

  /** The pointers that the linking loop leaves, level by level. */
  lemma LevelLinked(head: SkipNode, ns: seq<SkipNode>, tmp: SkipNode, maxHeight: nat, preds: seq<SkipNode>,
                    at: nat, c: nat, x: nat)
    requires Shape(head, ns, maxHeight) && x < maxHeight && at <= |ns| && tmp != head && tmp !in ns
    requires |preds| == tmp.height == tmp.fwd.Length
    requires x < |preds| ==> preds[x] == if x < c then LastOrHead(head, ns[..at], x) else head
    requires x < |preds| ==>
               tmp.fwd[x] == if preds[x] == head then FirstAbove(ns, x) else SuccAt(ns, preds[x], x)
    requires head.fwd[x] == if x < |preds| && preds[x] == head then tmp else FirstAbove(ns, x)
    requires forall n :: n in ns && x < n.height ==>
               n.fwd[x] == if x < |preds| && preds[x] == n then tmp else SuccAt(ns, n, x)
    ensures IsLevel(head, LevelAfter(ns, at, c, tmp, x), x)
  {
    hide FirstAbove, LastAbove, SuccAt, Above, LastOrHead;
    SuccsVisitAbove(ns, x);
    var a, p := Above(ns, x), Kept(ns, at, c, x);
    RecordedIsLastKept(head, ns, at, c, x);
    if x < |preds| {
      forall i | 0 <= i < |a| ensures a[i].fwd[x] == if i + 1 == p then tmp else Next(a, i + 1) {
        assert a[i] in a;
      }
      WithOneMore(a, p, tmp);
      LinkedBehind(head, a, p, tmp, a[..p] + [tmp] + a[p..], x);
    } else {
      forall i | 0 <= i < |a| ensures a[i].fwd[x] == Next(a, i + 1) { assert a[i] in a; }
    }
  }

  /** newLevel's draw: one plus the run of successful coins, capped by the maximum height. */
  ghost function Level(coins: nat -> bool, from: nat, maxHeight: nat): (lvl: nat)
    requires 1 <= from
    ensures from <= lvl && (from <= maxHeight ==> lvl <= maxHeight)
    ensures forall i :: from <= i < lvl ==> coins(i)
    ensures from <= maxHeight ==> lvl == maxHeight || !coins(lvl)
    decreases maxHeight - from
  {
    if coins(from) && from < maxHeight then Level(coins, from + 1, maxHeight) else from
  }

  class SkipList {
    const maxHeight: nat
    var currHeight: nat
    const head: SkipNode
    const tails: array<SkipNode?>
    ghost var nodes: seq<SkipNode>

    ghost predicate Valid()
      reads this, Arrays(head, nodes)
    {
      && Shape(head, nodes, maxHeight)
      && tails.Length == maxHeight && tails !in Arrays(head, nodes)
      && Linked(head, nodes, maxHeight)
    }

    ghost predicate TailsValid()
      requires tails.Length == maxHeight
      reads this, tails
    {
      forall x :: 0 <= x < maxHeight ==> tails[x] == LastOrHead(head, nodes, x)
    }

    constructor (maxHeight: nat)
      requires maxHeight >= 1
      ensures Valid() && TailsValid()
      ensures nodes == [] && this.maxHeight == maxHeight && currHeight == 0
      ensures fresh(head) && fresh(head.fwd) && fresh(tails)
    {
      this.maxHeight, currHeight := maxHeight, 0;
      var h := new SkipNode(None, maxHeight);
      head := h;
      tails := new SkipNode?[maxHeight](_ => h);
      nodes := [];
    }

    /** newLevel: every draw before the level succeeded, and the level is the maximum or its draw failed. */
    method NewLevel(coins: nat -> bool) returns (lvl: nat)
      requires maxHeight >= 1
      ensures lvl == Level(coins, 1, maxHeight)
      ensures 1 <= lvl <= maxHeight && (forall i :: 1 <= i < lvl ==> coins(i)) && (lvl == maxHeight || !coins(lvl))
    {
      lvl := 1;
      while coins(lvl) && lvl < maxHeight
        invariant 1 <= lvl <= maxHeight
        invariant Level(coins, lvl, maxHeight) == Level(coins, 1, maxHeight)
      {
        lvl := lvl + 1;
      }
    }

    /** The loop of insert_at_end: at every level below its height the new node is hung behind the tail. */
    method LinkTails(tmp: SkipNode)
      requires Valid() && TailsValid()
      requires tmp.fwd !in Arrays(head, nodes) && tmp.fwd != tails
      requires tmp.height <= maxHeight
      modifies tails, Arrays(head, nodes)
      ensures forall x :: 0 <= x < maxHeight ==> tails[x] == if x < tmp.height then tmp else LastOrHead(head, nodes, x)
      ensures forall x :: 0 <= x < maxHeight ==>
                head.fwd[x] == if x < tmp.height && FirstAbove(nodes, x) == null then tmp else FirstAbove(nodes, x)
      ensures forall n, x :: n in nodes && 0 <= x < n.height ==>
                n.fwd[x] == if x < tmp.height && SuccAt(nodes, n, x) == null then tmp else SuccAt(nodes, n, x)
    {
      hide FirstAbove, LastAbove, SuccAt;
      forall x: nat
        ensures var n := LastAbove(nodes, x);
                (n != null ==> n in nodes && n.height > x) && (n == null <==> FirstAbove(nodes, x) == null)
      {
        LastIsMember(nodes, x);
      }
      forall n, x: nat | n in nodes && x < n.height ensures SuccAt(nodes, n, x) == null <==> n == LastAbove(nodes, x)
      { LastIsTheEnd(nodes, n, x); }
      var x := 0;
      while x < tmp.height
        invariant 0 <= x <= tmp.height
        invariant forall y :: 0 <= y < maxHeight ==> tails[y] == if y < x then tmp else LastOrHead(head, nodes, y)
        invariant forall y :: 0 <= y < maxHeight ==>
                    head.fwd[y] == if y < x && FirstAbove(nodes, y) == null then tmp else FirstAbove(nodes, y)
        invariant forall n, y :: n in nodes && 0 <= y < n.height ==>
                    n.fwd[y] == if y < x && SuccAt(nodes, n, y) == null then tmp else SuccAt(nodes, n, y)
      {
        tails[x].fwd[x] := tmp;
        tails[x] := tmp;
        x := x + 1;
      }
    }

    /** insert_at_end: one node is appended at every level below its height, and nothing else moves. */
    method InsertAtEnd(obj: int, coins: nat -> bool) returns (ok: bool)
      requires Valid() && TailsValid()
      modifies this, tails, Arrays(head, nodes)
      ensures Valid() && TailsValid() && ok && currHeight == old(currHeight)
      ensures |nodes| == |old(nodes)| + 1 && nodes[..|old(nodes)|] == old(nodes)
      ensures var n := nodes[|old(nodes)|];
              fresh(n) && fresh(n.fwd) && n.data == Some(obj) && n.height == Level(coins, 1, maxHeight)
    {
      var lvl := NewLevel(coins);
      var tmp := new SkipNode(Some(obj), lvl);
      LinkTails(tmp);
      AppendShape(head, nodes, tmp, maxHeight);
      AppendLinked(head, nodes, tmp, maxHeight);
      forall x | 0 <= x < maxHeight ensures tails[x] == LastOrHead(head, nodes + [tmp], x) {
        LastConcat(nodes, [tmp], x);
      }
      nodes := nodes + [tmp];
      ok := true;
    }

    /** What keeps insert inside its arrays: the search starts below the maximum height, and the node it
        compares with exists. */
    ghost predicate InsertGuards(obj: int)
      requires Shape(head, nodes, maxHeight)
      reads this
    {
      currHeight < maxHeight && ScanBelow(nodes, obj) < |nodes|
    }

    /** When a node of height lvl ends up in its place: insert records the head at every level from currHeight
        up, so no node ahead of the place may reach those levels. */
    ghost predicate PlacesWell(obj: int, lvl: nat)
      requires Shape(head, nodes, maxHeight)
      reads this
    {
      lvl > currHeight ==> NoneTaller(nodes[..ScanBelow(nodes, obj)], currHeight)
    }

    /** The inner loop of the search: along level h, from a position below obj to the last one below obj. */
    method SearchLevel(obj: int, h: nat, from: SkipNode, ghost start: nat) returns (tmp: SkipNode, ghost pos: nat)
      requires Valid() && Sorted(nodes) && h < maxHeight
      requires start <= ScanBelow(nodes, obj) && from == if start == 0 then head else nodes[start - 1]
      requires start > 0 ==> from.height > h
      ensures start <= pos <= ScanBelow(nodes, obj) && tmp == if pos == 0 then head else nodes[pos - 1]
      ensures pos > 0 ==> tmp.height > h
      ensures tmp == LastOrHead(head, nodes[..ScanBelow(nodes, obj)], h)
    {
      tmp, pos := from, start;
      PointsAhead(pos, h);
      while tmp.fwd[h] != null && tmp.fwd[h].data.value < obj
        invariant start <= pos <= ScanBelow(nodes, obj)
        invariant tmp == if pos == 0 then head else nodes[pos - 1]
        invariant pos > 0 ==> tmp.height > h
        invariant h < tmp.fwd.Length && tmp.fwd[h] == Ahead(nodes, pos, h)
        invariant tmp.fwd[h] != null ==> tmp.fwd[h].data.Some?
        decreases |nodes| - pos
      {
        pos := SearchStep(nodes, obj, pos, h);
        tmp := tmp.fwd[h];
        PointsAhead(pos, h);
      }
      SearchEnd(head, nodes, obj, pos, h);
    }

    /** The search of insert: top-down over the levels it agrees, level by level, with a linear scan. */
    method FindPredecessors(obj: int) returns (updateVec: array<SkipNode?>, tmp: SkipNode)
      requires Valid() && Sorted(nodes) && currHeight < maxHeight
      ensures fresh(updateVec) && updateVec.Length == maxHeight
      ensures forall h :: 0 <= h <= currHeight ==> updateVec[h] == LastOrHead(head, nodes[..ScanBelow(nodes, obj)], h)
      ensures tmp == updateVec[0]
    {
      hide FirstAbove, LastAbove, SuccAt;
      updateVec := new SkipNode?[maxHeight](_ => null);
      tmp := head;
      ghost var pos := 0;
      var h: int := currHeight;
      while h >= 0
        invariant -1 <= h <= currHeight
        invariant 0 <= pos <= ScanBelow(nodes, obj) && tmp == if pos == 0 then head else nodes[pos - 1]
        invariant h >= 0 && pos > 0 ==> tmp.height > h
        invariant forall g :: h < g <= currHeight ==>
                    updateVec[g] == LastOrHead(head, nodes[..ScanBelow(nodes, obj)], g)
        invariant h == -1 ==> tmp == updateVec[0]
      {
        tmp, pos := SearchLevel(obj, h, tmp, pos);
        updateVec[h] := tmp;
        h := h - 1;
      }
    }

    /** In a linked list the level-x pointer at a position is the first node ahead that reaches level x. */
    lemma PointsAhead(pos: nat, x: nat)
      requires Valid() && pos <= |nodes| && x < maxHeight && (pos > 0 ==> nodes[pos - 1].height > x)
      ensures var n := if pos == 0 then head else nodes[pos - 1];
              && x < n.fwd.Length && n.fwd[x] == Ahead(nodes, pos, x)
              && (n.fwd[x] != null ==> n.fwd[x] in nodes && n.fwd[x].data.Some?)
    {
      FirstIsMember(nodes[pos..], x);
      if pos == 0 {
        assert nodes[0..] == nodes;
      } else {
        SuccIsBehind(nodes, pos - 1, x);
        assert nodes[pos - 1] in nodes;
      }
    }

    /** preds[x] is the head or a node, and has a pointer of level x. */
    ghost predicate OnLevels(preds: seq<SkipNode>)
      reads this`nodes
    {
      forall x :: 0 <= x < |preds| ==> (preds[x] == head || preds[x] in nodes) && x < preds[x].fwd.Length
    }

    /** The linking loop of insert: at each level the new node goes behind the recorded one, and no other
        pointer moves. */
    method Splice(tmp: SkipNode, updateVec: array<SkipNode?>, ghost preds: seq<SkipNode>)
      requires Valid() && tmp.fwd !in Arrays(head, nodes) && |preds| == tmp.fwd.Length <= updateVec.Length
      requires updateVec !in Arrays(head, nodes) && updateVec != tmp.fwd
      requires OnLevels(preds) && forall x :: 0 <= x < |preds| ==> updateVec[x] == preds[x]
      modifies tmp.fwd, Arrays(head, nodes)
      ensures forall x :: 0 <= x < |preds| ==> tmp.fwd[x] == old(preds[x].fwd[x])
      ensures forall x :: 0 <= x < head.fwd.Length ==>
                head.fwd[x] == if x < |preds| && preds[x] == head then tmp else old(head.fwd[x])
      ensures forall n, x :: n in nodes && 0 <= x < n.fwd.Length ==>
                n.fwd[x] == if x < |preds| && preds[x] == n then tmp else old(n.fwd[x])
    {
      hide FirstAbove, LastAbove, SuccAt;
      var i := 0;
      while i < tmp.fwd.Length
        invariant 0 <= i <= |preds|
        invariant forall x :: 0 <= x < i ==> tmp.fwd[x] == old(preds[x].fwd[x])
        invariant forall x :: 0 <= x < head.fwd.Length ==>
                    head.fwd[x] == if x < i && preds[x] == head then tmp else old(head.fwd[x])
        invariant forall n, x :: n in nodes && 0 <= x < n.fwd.Length ==>
                    n.fwd[x] == if x < i && preds[x] == n then tmp else old(n.fwd[x])
      {
        tmp.fwd[i] := updateVec[i].fwd[i];
        updateVec[i].fwd[i] := tmp;
        i := i + 1;
      }
      assert i == |preds|;
    }

    /** insert's bookkeeping for a node taller than the current height. */
    method RaiseHeight(lvl: nat, updateVec: array<SkipNode?>)
      requires lvl < maxHeight && updateVec.Length == maxHeight && currHeight < maxHeight
      modifies this`currHeight, updateVec
      ensures currHeight == if lvl > old(currHeight) then lvl else old(currHeight)
      ensures forall x :: 0 <= x < lvl ==> updateVec[x] == if x < old(currHeight) then old(updateVec[x]) else head
    {
      if lvl > currHeight {
        var i := currHeight;
        while i <= lvl
          invariant currHeight <= i <= lvl + 1 && currHeight == old(currHeight)
          invariant forall x :: 0 <= x < currHeight ==> updateVec[x] == old(updateVec[x])
          invariant forall x :: currHeight <= x < i ==> updateVec[x] == head
        {
          updateVec[i] := head;
          i := i + 1;
        }
        currHeight := lvl;
      }
    }

    /** A new node behind the recorded ones: every level is the old one with the node once; at position `at` of the
        list if the recorded ones are the last ones ahead of it. */
    method PlaceNode(obj: int, lvl: nat, updateVec: array<SkipNode?>, ghost at: nat, ghost c: nat)
      returns (tmp: SkipNode)
      requires Valid() && at <= |nodes| && 1 <= lvl <= maxHeight == updateVec.Length
      requires updateVec !in Arrays(head, nodes) && updateVec != tails
      requires forall x :: 0 <= x < lvl ==> updateVec[x] == Recorded(at, lvl, c)[x]
      modifies this`nodes, Arrays(head, nodes)
      ensures fresh(tmp) && fresh(tmp.fwd) && tmp.data == Some(obj) && tmp.height == tmp.fwd.Length == lvl
      ensures forall x :: 0 <= x < maxHeight ==> IsLevel(head, LevelAfter(old(nodes), at, c, tmp, x), x)
      ensures old(ArePreds(Recorded(at, lvl, c), at)) ==>
                Valid() && nodes == old(nodes)[..at] + [tmp] + old(nodes)[at..]
      ensures forall x :: 0 <= x < lvl && c <= x ==>
                x < head.fwd.Length && head.fwd[x] == tmp && tmp.fwd[x] == old(head.fwd[x])
    {
      hide FirstAbove, LastAbove, SuccAt, LevelAfter, LastOrHead;
      ghost var preds := Recorded(at, lvl, c);
      RecordedOnLevels(at, lvl, c);
      tmp := new SkipNode(Some(obj), lvl);
      Splice(tmp, updateVec, preds);
      forall x | 0 <= x < maxHeight ensures IsLevel(head, LevelAfter(nodes, at, c, tmp, x), x) {
        LevelLinked(head, nodes, tmp, maxHeight, preds, at, c, x);
      }
      if old(ArePreds(preds, at)) {
        ghost var a, b := nodes[..at], nodes[at..];
        assert nodes == a + b;
        BehindPreds(head, a, b, tmp, maxHeight, preds);
        InsertShape(head, a, b, tmp, maxHeight);
        SplicedIsLinked(head, a, b, tmp, maxHeight);
        nodes := a + [tmp] + b;
      }
    }

    /** preds are the last nodes ahead of position `at`, level by level. */
    ghost predicate ArePreds(preds: seq<SkipNode>, at: nat)
      requires at <= |nodes|
      reads this`nodes
    {
      forall x :: 0 <= x < |preds| ==> preds[x] == LastOrHead(head, nodes[..at], x)
    }

    /** What updateVec holds when insert links: the last nodes ahead below the current height c, the head from
        there up if the new node is taller. */
    ghost function Recorded(at: nat, lvl: nat, c: nat): (preds: seq<SkipNode>)
      requires at <= |nodes|
      reads this`nodes
      ensures |preds| == lvl
    {
      var a := nodes[..at];
      seq(lvl, x requires 0 <= x < lvl => if x < c then LastOrHead(head, a, x) else head)
    }

    lemma RecordedOnLevels(at: nat, lvl: nat, c: nat)
      requires Valid() && at <= |nodes| && lvl <= maxHeight
      ensures OnLevels(Recorded(at, lvl, c))
    {
      hide FirstAbove, LastAbove, SuccAt;
      forall x | 0 <= x < lvl
        ensures var p := Recorded(at, lvl, c)[x]; (p == head || p in nodes) && x < p.fwd.Length
      {
        LastIsMember(nodes[..at], x);
        assert forall n :: n in nodes[..at] ==> n in nodes;
      }
    }

    /** The recorded nodes are the right ones exactly when no node ahead reaches the levels where the head was
        recorded. */
    lemma RecordedWell(obj: int, lvl: nat)
      requires Valid() && PlacesWell(obj, lvl)
      ensures ArePreds(Recorded(ScanBelow(nodes, obj), lvl, currHeight), ScanBelow(nodes, obj))
    {
      hide FirstAbove, LastAbove, SuccAt;
      if lvl > currHeight { NothingAbove(nodes[..ScanBelow(nodes, obj)], currHeight); }
    }

    /** ... and otherwise the first node of the level at currHeight is below obj. */
    lemma RecordedBadly(obj: int, lvl: nat)
      requires Valid() && currHeight < maxHeight && !PlacesWell(obj, lvl)
      ensures var n := head.fwd[currHeight]; n != null && n.data.Some? && n.data.value < obj
    {
      hide FirstAbove, LastAbove, SuccAt;
      var at := ScanBelow(nodes, obj);
      assert nodes == nodes[..at] + nodes[at..];
      TallAhead(nodes[..at], nodes[at..], currHeight);
      assert forall n :: n in nodes[..at] ==> n in nodes;
    }

    /** Level x starts with obj although the node behind it is below obj. */
    ghost predicate Descends(obj: int, x: nat)
      reads head.fwd, if x < head.fwd.Length && head.fwd[x] != null then {head.fwd[x].fwd} else {}
    {
      && x < head.fwd.Length && head.fwd[x] != null
      && head.fwd[x].data == Some(obj) && x < head.fwd[x].fwd.Length
      && var next := head.fwd[x].fwd[x]; next != null && next.data.Some? && next.data.value < obj
    }

    /** The second half of insert: draw a level, raise the height if needed, place the node. */
    method InsertAbsent(obj: int, coins: nat -> bool, updateVec: array<SkipNode?>) returns (added: SkipNode)
      requires Valid() && Sorted(nodes) && InsertGuards(obj) && Level(coins, 1, maxHeight) < maxHeight
      requires updateVec !in Arrays(head, nodes) && updateVec.Length == maxHeight && updateVec != tails
      requires forall x :: 0 <= x <= currHeight ==>
                 updateVec[x] == LastOrHead(head, nodes[..ScanBelow(nodes, obj)], x)
      modifies this, Arrays(head, nodes), updateVec
      ensures var lvl := Level(coins, 1, maxHeight);
              currHeight == if lvl > old(currHeight) then lvl else old(currHeight)
      ensures fresh(added) && fresh(added.fwd) && added.data == Some(obj) && added.height == Level(coins, 1, maxHeight)
      ensures forall x :: 0 <= x < maxHeight ==>
                IsLevel(head, LevelAfter(old(nodes), ScanBelow(old(nodes), obj), old(currHeight), added, x), x)
      ensures var lvl, at := Level(coins, 1, maxHeight), ScanBelow(old(nodes), obj);
              if old(PlacesWell(obj, lvl))
              then Valid() && IsInserted(old(nodes), at, obj, lvl, nodes) && nodes[at] == added
              else Descends(obj, old(currHeight))
    {
      hide FirstAbove, LastAbove, SuccAt, LastOrHead, LevelAfter, IsLevel;
      var lvl := NewLevel(coins);
      ghost var at, c := ScanBelow(nodes, obj), currHeight;
      if PlacesWell(obj, lvl) { RecordedWell(obj, lvl); } else { RecordedBadly(obj, lvl); }
      RaiseHeight(lvl, updateVec);
      added := PlaceNode(obj, lvl, updateVec, at, c);
    }

    /** insert: it refuses exactly the keys already present.  Otherwise every level is the old one with the new node
        once, if the node reaches it.  The node is at the scanned position of every level if PlacesWell; if not, a
        level is left out of order. */
    method Insert(obj: int, coins: nat -> bool) returns (ok: bool, ghost added: SkipNode?)
      requires Valid() && Sorted(nodes) && InsertGuards(obj)
      requires obj !in Keys(nodes) ==> Level(coins, 1, maxHeight) < maxHeight
      modifies this, Arrays(head, nodes)
      ensures ok <==> obj !in old(Keys(nodes))
      ensures !ok ==> Valid() && nodes == old(nodes) && currHeight == old(currHeight)
      ensures var lvl := Level(coins, 1, maxHeight);
              ok ==> currHeight == if lvl > old(currHeight) then lvl else old(currHeight)
      ensures ok ==>
                && added != null && fresh(added) && fresh(added.fwd)
                && added.data == Some(obj) && added.height == Level(coins, 1, maxHeight)
                && forall x :: 0 <= x < maxHeight ==>
                     IsLevel(head, LevelAfter(old(nodes), ScanBelow(old(nodes), obj), old(currHeight), added, x), x)
      ensures var lvl, at := Level(coins, 1, maxHeight), ScanBelow(old(nodes), obj);
              ok && old(PlacesWell(obj, lvl)) ==>
                && Valid() && IsInserted(old(nodes), at, obj, lvl, nodes) && nodes[at] == added
                && Sorted(nodes) && multiset(Keys(nodes)) == multiset(old(Keys(nodes))) + multiset{obj}
      ensures ok && !old(PlacesWell(obj, Level(coins, 1, maxHeight))) ==> Descends(obj, old(currHeight))
    {
      hide FirstAbove, LastAbove, SuccAt, LevelAfter, IsLevel;
      var updateVec, tmp := FindPredecessors(obj);
      ghost var at := ScanBelow(nodes, obj);
      SuccessorOfScan(at);
      tmp := tmp.fwd[0];
      if tmp.data.value == obj {
        assert Keys(nodes)[at] == obj;
        return false, null;
      }
      KeyAbsent(nodes, obj);
      added := InsertAbsent(obj, coins, updateVec);
      if old(PlacesWell(obj, Level(coins, 1, maxHeight))) {
        InsertSorted(old(nodes), obj, nodes[at]);
        InsertKeys(old(nodes), at, nodes[at]);
      }
      ok := true;
    }

    /** A linked list that starts a level out of order is not sorted, so the two outcomes of an accepted insert
        exclude each other. */
    lemma DescendsUnsorted(obj: int, x: nat)
      requires Valid() && Descends(obj, x)
      ensures !Sorted(nodes)
    {
      LevelChain(x);
      if Sorted(nodes) {
        LevelsSorted(nodes, x);
      }
    }

    /** A whole run of insert on a list that its current height bounds, with no key above the last one: it is
        sorted and linked all along, each call says whether its key was new, and exactly the new keys are added. */
    method InsertRun(objs: seq<int>, draws: seq<nat -> bool>) returns (oks: seq<bool>)
      requires Valid() && Sorted(nodes) && Bounded() && |draws| == |objs|
      requires nodes != [] && forall k :: 0 <= k < |objs| ==> objs[k] <= nodes[|nodes| - 1].data.value
      requires forall k :: 0 <= k < |objs| && objs[k] !in Keys(nodes) ==> Level(draws[k], 1, maxHeight) < maxHeight
      modifies this, Arrays(head, nodes)
      ensures Valid() && Sorted(nodes) && Bounded() && RunAdds(old(Keys(nodes)), objs, oks, Keys(nodes))
    {
      assert AllHaveData(nodes);
      oks := [];
      ghost var last, was := nodes[|nodes| - 1], Keys(nodes);
      assert RunAdds(was, objs[..0], oks, was);
      hide Shape, Linked, RunAdds, Keys, Sorted, Arrays, Level;
      var k := 0;
      while k < |objs|
        invariant 0 <= k <= |objs| && Valid() && AllHaveData(nodes) && Sorted(nodes) && Bounded()
        invariant forall a :: a in Arrays(head, nodes) ==> a in old(Arrays(head, nodes)) || fresh(a)
        invariant nodes != [] && nodes[|nodes| - 1] == last
        invariant RunAdds(was, objs[..k], oks, Keys(nodes))
      {
        ghost var before := Keys(nodes);
        RunAddsKeeps(was, objs[..k], oks, before, objs[k]);
        var ok := InsertBounded(objs[k], draws[k]);
        RunAddsNext(was, objs, k, oks, before, ok, Keys(nodes));
        oks := oks + [ok];
        k := k + 1;
      }
      assert objs[..k] == objs;
    }

    /** currHeight bounds every level and leaves room above. */
    ghost predicate Bounded()
      reads this
    {
      currHeight < maxHeight && NoneTaller(nodes, currHeight)
    }

    method InsertBounded(obj: int, coins: nat -> bool) returns (ok: bool)
      requires Valid() && Sorted(nodes) && Bounded()
      requires obj !in Keys(nodes) ==> Level(coins, 1, maxHeight) < maxHeight
      requires nodes != [] && obj <= nodes[|nodes| - 1].data.value
      modifies this, Arrays(head, nodes)
      ensures Valid() && AllHaveData(nodes) && Sorted(nodes) && Bounded()
      ensures nodes != [] && nodes[|nodes| - 1] == old(nodes[|nodes| - 1])
      ensures forall a :: a in Arrays(head, nodes) ==> a in old(Arrays(head, nodes)) || fresh(a)
      ensures ok <==> obj !in old(Keys(nodes))
      ensures multiset(Keys(nodes)) == multiset(old(Keys(nodes))) + if ok then multiset{obj} else multiset{}
    {
      hide FirstAbove, LastAbove, SuccAt, Level, Linked, Sorted, Keys, LevelAfter, IsLevel;
      ghost var at, lvl := ScanBelow(nodes, obj), Level(coins, 1, maxHeight);
      BelowIsScanned(nodes, obj, |nodes| - 1);
      BoundedPlacesWell(obj, lvl);
      ghost var added;
      ok, added := Insert(obj, coins);
      if ok { InsertedBounded(old(nodes), at, obj, lvl, nodes, old(currHeight)); }
    }

    /** A current height that bounds every node's height makes every insertion go well. */
    lemma BoundedPlacesWell(obj: int, lvl: nat)
      requires Valid() && NoneTaller(nodes, currHeight)
      ensures PlacesWell(obj, lvl)
    {
      assert forall n :: n in nodes[..ScanBelow(nodes, obj)] ==> n in nodes;
    }

    /** After the search the level-0 pointer leads to the first node that is not below obj. */
    lemma SuccessorOfScan(at: nat)
      requires Valid() && at < |nodes|
      ensures LastOrHead(head, nodes[..at], 0) == if at == 0 then head else nodes[at - 1]
      ensures var n := if at == 0 then head else nodes[at - 1]; n.fwd.Length > 0 && n.fwd[0] == nodes[at]
      ensures nodes[at].data.Some?
    {
      assert nodes[at] in nodes;
      if at > 0 { assert nodes[at - 1] in nodes; }
      PointsAhead(at, 0);
      assert nodes[at..][0] == nodes[at];
      assert nodes[..at] == nodes[..at] + [];
      LastBeforeGap(head, nodes[..at], [], 0);
    }

    /** Constructing and appending leave currHeight at 0.  From there an absent key goes to its place if and
        only if that place is the front. */
    lemma AfterAppendingOnlyFront(obj: int, lvl: nat)
      requires Valid() && currHeight == 0 && lvl >= 1
      ensures PlacesWell(obj, lvl) <==> ScanBelow(nodes, obj) == 0
    {
      if ScanBelow(nodes, obj) > 0 {
        assert nodes[0] in nodes[..ScanBelow(nodes, obj)] && nodes[0] in nodes;
      }
    }

    /** At every level the pointers from the head visit exactly the nodes taller than the level, once each and
        in list order, and end in null; the tail pointer is the last of them, or the head. */
    lemma LevelChain(x: nat)
      requires Valid() && x < maxHeight
      ensures var a := Above(nodes, x);
              && IsLevel(head, a, x) && (forall n :: n in a ==> n in nodes)
              && (TailsValid() ==> tails[x] == if a == [] then head else a[|a| - 1])
    {
      SuccsVisitAbove(nodes, x);
    }

    /** A whole run of insert_at_end: the list holds the appended objects behind the old ones, each with the
        height drawn for it. */
    method AppendRun(objs: seq<int>, draws: seq<nat -> bool>)
      requires Valid() && TailsValid() && |draws| == |objs|
      modifies this, tails, Arrays(head, nodes)
      ensures Valid() && TailsValid() && currHeight == old(currHeight)
      ensures |nodes| == |old(nodes)| + |objs| && nodes[..|old(nodes)|] == old(nodes)
      ensures forall k :: 0 <= k < |objs| ==>
                var n := nodes[|old(nodes)| + k]; n.data == Some(objs[k]) && n.height == Level(draws[k], 1, maxHeight)
    {
      var k := 0;
      while k < |objs|
        invariant 0 <= k <= |objs| && Valid() && TailsValid() && currHeight == old(currHeight)
        invariant forall a :: a in Arrays(head, nodes) ==> a in old(Arrays(head, nodes)) || fresh(a)
        invariant |nodes| == |old(nodes)| + k && nodes[..|old(nodes)|] == old(nodes)
        invariant forall j :: 0 <= j < k ==>
                    var n := nodes[|old(nodes)| + j];
                    n.data == Some(objs[j]) && n.height == Level(draws[j], 1, maxHeight)
      {
        ghost var was := nodes;
        var ok := InsertAtEnd(objs[k], draws[k]);
        assert nodes == was + [nodes[|was|]];
        k := k + 1;
      }
    }

    /** The level-0 pointers of a linked list visit all of its nodes. */
    lemma WholeLevel()
      requires Valid()
      ensures IsLevel(head, nodes, 0)
    {
      LevelChain(0);
      AboveAll(nodes, 0);
    }

    /** The destructor: the walk deletes the head and whatever the level-0 pointers visit, each exactly once. */
    method Destroy(ghost chain: seq<SkipNode>) returns (deleted: seq<SkipNode>)
      requires IsLevel(head, chain, 0)
      ensures deleted == [head] + chain && Distinct(deleted)
    {
      hide IsLevel, Next;
      deleted := [];
      var tmp: SkipNode? := head;
      ghost var walk, pos := [head] + chain, 0;
      WalkIsChain(head, chain, 0);
      while tmp != null
        invariant 0 <= pos <= |walk| && tmp == Next(walk, pos) && deleted == walk[..pos]
        decreases |walk| - pos
      {
        WalkStep(head, chain, 0, pos);
        var nxt := tmp.fwd[0];
        deleted := deleted + [tmp];
        tmp := nxt;
        pos := pos + 1;
      }
      WalkEnds(walk, pos);
    }

    /** Whether insert puts a key in its place or not, the destructor then deletes the head, every old node and the
        new one, each exactly once. */
    method InsertThenDestroy(obj: int, coins: nat -> bool) returns (deleted: seq<SkipNode>)
      requires Valid() && Sorted(nodes) && InsertGuards(obj)
      requires obj !in Keys(nodes) && Level(coins, 1, maxHeight) < maxHeight
      modifies this, Arrays(head, nodes)
      ensures Distinct(deleted) && |deleted| == |old(nodes)| + 2
      ensures head in deleted && (forall n :: n in old(nodes) ==> n in deleted)
      ensures exists n :: n in deleted && fresh(n) && n.data == Some(obj)
    {
      hide FirstAbove, LastAbove, SuccAt, Level, Linked, IsLevel, Keys, Sorted;
      ghost var was, at, c := nodes, ScanBelow(nodes, obj), currHeight;
      AboveAll(nodes, 0);
      var ok, added := Insert(obj, coins);
      ghost var chain, p := LevelAfter(was, at, c, added, 0), Kept(was, at, c, 0);
      AllKept(was, at, c, added);
      assert IsLevel(head, chain, 0);
      deleted := Destroy(chain);
      assert added in deleted;
    }
  }

  lemma AllKept(ns: seq<SkipNode>, at: nat, c: nat, tmp: SkipNode)
    requires at <= |ns| && tmp.height > 0 && forall n :: n in ns ==> n.height > 0
    ensures var chain := LevelAfter(ns, at, c, tmp, 0);
            |chain| == |ns| + 1 && tmp in chain && forall n :: n in ns ==> n in chain
  {
    AboveAll(ns, 0);
    var p := Kept(ns, at, c, 0);
    AboveConcat(ns[..at], ns[at..], 0);
    assert ns == ns[..at] + ns[at..];
    assert ns == ns[..p] + ns[p..];
  }

  /** Insert can misplace a key in a public run: behind 1 and 3, each of height 1, the key 2 comes first. */
  method InsertMisplaces() returns (list: SkipList)
    ensures fresh(list) && list.Descends(2, 0)
  {
    list := new SkipList(2);
    var ok := list.InsertAtEnd(1, _ => false);
    ok := list.InsertAtEnd(3, _ => false);
    list.AfterAppendingOnlyFront(2, 1);
    ghost var added;
    ok, added := list.Insert(2, _ => false);
  }

  /** A public run that works throughout: append a key that stays the last one, insert a smaller one that is at
      least as tall, and from then on any run of insert up to that last key. */
  method PublicRun(maxHeight: nat, last: int, first: int, objs: seq<int>, draws: seq<nat -> bool>)
    returns (list: SkipList)
    requires maxHeight >= 2 && first < last && |draws| == |objs| + 2
    requires forall k :: 0 <= k < |draws| ==> Level(draws[k], 1, maxHeight) < maxHeight
    requires Level(draws[0], 1, maxHeight) <= Level(draws[1], 1, maxHeight)
    requires forall k :: 0 <= k < |objs| ==> objs[k] <= last
    ensures list.Valid() && Sorted(list.nodes)
    ensures multiset(Keys(list.nodes)) == multiset([first, last]) + multiset(NewKeys([first, last], objs))
  {
    list := new SkipList(maxHeight);
    var ok := list.InsertAtEnd(last, draws[0]);
    list.AfterAppendingOnlyFront(first, Level(draws[1], 1, maxHeight));
    ghost var added;
    ok, added := list.Insert(first, draws[1]);
    assert Keys(list.nodes) == [first, last];
    var oks := list.InsertRun(objs, draws[2..]);
  }
}
