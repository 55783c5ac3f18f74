/** Strictly ascending sequences: the contents of an ordered set, or of a vector that is kept in order. */
module Ascending {

  ghost predicate IsAscending(v: seq<int>) {
    forall i, j :: 0 <= i < j < |v| ==> v[i] < v[j]
  }

  /** An ascending sequence is determined by its members. */
  lemma {:induction false} SameMembersSame(a: seq<int>, b: seq<int>)
    requires IsAscending(a) && IsAscending(b)
    requires forall n :: n in a <==> n in b
    ensures a == b
  {
    assert a != [] ==> a[0] in a;
    assert b != [] ==> b[0] in b;
    if a != [] && b != [] {
      var x, y := a[|a| - 1], b[|b| - 1];
      assert x in a && y in b;
      assert x == y;
      var a', b' := a[..|a| - 1], b[..|b| - 1];
      forall n ensures n in a' <==> n in b' {
        if n in a' { assert n in a && n < x; assert n in b; }
        if n in b' { assert n in b && n < y; assert n in a; }
      }
      SameMembersSame(a', b');
    }
  }

  lemma AppendAscending(v: seq<int>, n: int)
    requires IsAscending(v) && forall m :: m in v ==> m < n
    ensures IsAscending(v + [n])
  {
    assert forall i :: 0 <= i < |v| ==> v[i] in v;
  }

  lemma ConcatAscending(a: seq<int>, b: seq<int>)
    requires IsAscending(a) && IsAscending(b) && forall x, y :: x in a && y in b ==> x < y
    ensures IsAscending(a + b)
  {
    forall i, j | 0 <= i < j < |a + b| ensures (a + b)[i] < (a + b)[j] {
      if i < |a| && j >= |a| { assert a[i] in a && b[j - |a|] in b; }
    }
  }

  lemma PrependAscending(n: int, v: seq<int>)
    requires IsAscending(v) && forall m :: m in v ==> n < m
    ensures IsAscending([n] + v)
  {
    assert forall i :: 0 <= i < |v| ==> v[i] in v;
  }

  /** The numbers from lo up to but not including hi. */
  function Range(lo: int, hi: int): (r: seq<int>)
    ensures IsAscending(r)
    ensures forall n :: n in r <==> lo <= n < hi
    ensures |r| == if lo < hi then hi - lo else 0
    decreases hi - lo
  {
    if lo >= hi then []
    else
      var r := Range(lo, hi - 1);
      AppendAscending(r, hi - 1);
      r + [hi - 1]
  }

  /** std::set insertion into an ascending sequence. */
  function Insert(v: seq<int>, n: int): seq<int> {
    if v == [] || n < v[0] then [n] + v
    else if n == v[0] then v
    else [v[0]] + Insert(v[1..], n)
  }

  lemma {:induction false} InsertAdds(v: seq<int>, n: int)
    requires IsAscending(v)
    ensures IsAscending(Insert(v, n))
    ensures forall m :: m in Insert(v, n) <==> m in v || m == n
    ensures |Insert(v, n)| == if n in v then |v| else |v| + 1
  {
    if v != [] {
      HeadIsLeast(v);
      if n < v[0] {
        PrependAscending(n, v);
      } else if n > v[0] {
        InsertAdds(v[1..], n);
        PrependAscending(v[0], Insert(v[1..], n));
      }
    }
  }

  lemma HeadIsLeast(v: seq<int>)
    requires IsAscending(v) && v != []
    ensures v == [v[0]] + v[1..] && v[0] in v && IsAscending(v[1..])
    ensures forall m :: m in v[1..] ==> v[0] < m
    ensures forall m :: m in v <==> m == v[0] || m in v[1..]
  {
    assert v == [v[0]] + v[1..];
  }
}
