/** The loanable sequence of dynamic data: elements are created and deleted through the type support, the
    buffer is either owned or on loan.  An element is the number of the createData call that made it. */
module LoanableSequence {

  datatype Buffer = Null | Own | Loaned(id: int)

  /** A caller's operation; the buffer of a loan may be null. */
  datatype Op = Length(n: int) | Loan(buffer: Buffer, newMaximum: int, newLength: int) | Unloan

  function Count(v: seq<int>, id: int): nat {
    if v == [] then 0 else Count(v[..|v| - 1], id) + if v[|v| - 1] == id then 1 else 0
  }

  lemma {:induction false} CountConcat(a: seq<int>, b: seq<int>, id: int)
    ensures Count(a + b, id) == Count(a, id) + Count(b, id)
  {
    if b == [] {
      assert a + b == a;
    } else {
      assert (a + b)[..|a + b| - 1] == a + b[..|b| - 1];
      CountConcat(a, b[..|b| - 1], id);
    }
  }

  /** What the slots hold and what was deleted is, together, every element ever created, once. */
  ghost predicate Balanced(data: seq<int>, deleted: seq<int>, created: nat) {
    forall id: int :: Count(data, id) + Count(deleted, id) == if 0 <= id < created then 1 else 0
  }

  /** The elements of k consecutive createData calls. */
  function Fresh(first: nat, k: nat): (r: seq<int>)
    ensures |r| == k && forall i :: 0 <= i < k ==> r[i] == first + i
  {
    if k == 0 then [] else Fresh(first, k - 1) + [first + k - 1]
  }

  lemma {:induction false} FreshOnce(first: nat, k: nat, id: int)
    ensures Count(Fresh(first, k), id) == if first <= id < first + k then 1 else 0
  {
    if k > 0 { FreshOnce(first, k - 1, id); }
  }

  lemma BalancedCreate(data: seq<int>, deleted: seq<int>, created: nat, k: nat)
    requires Balanced(data, deleted, created)
    ensures Balanced(data + Fresh(created, k), deleted, created + k)
  {
    forall id: int
      ensures Count(data + Fresh(created, k), id) + Count(deleted, id) == if 0 <= id < created + k then 1 else 0
    {
      CountConcat(data, Fresh(created, k), id);
      FreshOnce(created, k, id);
      assert Count(data, id) + Count(deleted, id) == if 0 <= id < created then 1 else 0;
    }
  }

  lemma BalancedDelete(data: seq<int>, deleted: seq<int>, created: nat)
    requires Balanced(data, deleted, created)
    ensures Balanced([], deleted + data, created)
  {
    forall id: int
      ensures Count([], id) + Count(deleted + data, id) == if 0 <= id < created then 1 else 0
    {
      CountConcat(deleted, data, id);
      assert Count(data, id) + Count(deleted, id) == if 0 <= id < created then 1 else 0;
    }
  }

  class Sequence {
    var maximum: int
    var length: int
    var elements: Buffer
    var hasOwnership: bool
    var data: seq<int>  // data_; -1 is a null pointer
    // the type support
    var created: nat
    var deleted: seq<int>

    /** Nothing is leaked, deleted twice or shared between slots. */
    ghost predicate Valid()
      reads this
    {
      && 0 <= maximum && length <= maximum
      && Balanced(data, deleted, created)
      && (if hasOwnership then |data| == maximum && elements == (if maximum == 0 then Null else Own)
          else data == [] && elements.Loaned? && maximum > 0)
    }

    constructor ()
      ensures Valid() && hasOwnership && maximum == length == 0 && created == 0 && deleted == []
    {
      maximum, length, elements, hasOwnership, data, created, deleted := 0, 0, Null, true, [], 0, [];
    }

    /** resize: earlier slots keep their elements, every new slot gets a new one. */
    method Resize(newMaximum: int)
      requires Valid() && hasOwnership && newMaximum > maximum
      modifies this
      ensures Valid() && hasOwnership && maximum == newMaximum && length == old(length)
      ensures data[..old(maximum)] == old(data) && deleted == old(deleted)
      ensures created == old(created) + (newMaximum - old(maximum))
      ensures data == old(data) + Fresh(old(created), newMaximum - old(maximum))
    {
      hide Balanced;
      var nulls := seq(newMaximum - |data|, _ => -1);
      data := data + nulls;
      elements := Own;
      while maximum < newMaximum
        invariant old(maximum) <= maximum <= newMaximum
        invariant length == old(length) && hasOwnership && elements == Own && deleted == old(deleted)
        invariant created == old(created) + (maximum - old(maximum))
        invariant data == old(data) + Fresh(old(created), maximum - old(maximum)) + nulls[maximum - old(maximum)..]
      {
        data := data[maximum := created];
        created := created + 1;
        maximum := maximum + 1;
      }
      assert data == old(data) + Fresh(old(created), newMaximum - old(maximum));
      BalancedCreate(old(data), deleted, old(created), newMaximum - old(maximum));
    }

    /** release: every element is deleted and the sequence is empty and owned again. */
    method Release()
      requires Valid() && hasOwnership
      modifies this
      ensures Valid() && hasOwnership && maximum == length == 0 && elements == Null && data == []
      ensures created == old(created) && deleted == old(deleted) + old(data)
    {
      hide Balanced;
      BalancedDelete(data, deleted, created);
      assert deleted + [] == deleted;
      if elements != Null {
        var n := 0;
        while n < maximum
          invariant 0 <= n <= maximum == |data| && data == old(data) && created == old(created)
          invariant deleted == old(deleted) + data[..n]
        {
          assert data[..n + 1] == data[..n] + [data[n]];
          deleted := deleted + [data[n]];
          n := n + 1;
        }
        assert data[..n] == data;
        data := [];
      }
      maximum, length, elements, hasOwnership := 0, 0, Null, true;
    }

    /** length: it succeeds exactly when the slots are there or may be created. */
    method SetLength(n: int) returns (ok: bool)
      requires Valid()
      modifies this
      ensures Valid() && hasOwnership == old(hasOwnership)
      ensures ok <==> n >= 0 && (n <= old(maximum) || old(hasOwnership))
      ensures ok ==> length == n && maximum == if n > old(maximum) then n else old(maximum)
      ensures |data| >= |old(data)| && data[..|old(data)|] == old(data) && deleted == old(deleted)
      ensures !ok ==> maximum == old(maximum) && length == old(length)
      ensures !ok || n <= old(maximum) ==> data == old(data) && elements == old(elements) && created == old(created)
      ensures ok && n > old(maximum) ==> created == old(created) + (n - old(maximum)) && elements == Own
    {
      if n < 0 { return false; }
      if n <= maximum {
        length := n;
        return true;
      }
      if !hasOwnership { return false; }
      Resize(n);
      length := n;
      return true;
    }

    method MakeLoan(buffer: Buffer, newMaximum: int, newLength: int) returns (ok: bool)
      requires Valid() && buffer != Own
      modifies this
      ensures Valid() && created == old(created) && deleted == old(deleted) && data == old(data)
      ensures ok <==> && !(old(hasOwnership) && old(maximum) > 0)
                      && buffer != Null && 1 <= newMaximum && newLength <= newMaximum
      ensures ok ==> elements == buffer && maximum == newMaximum && length == newLength && !hasOwnership
      ensures !ok ==> elements == old(elements) && maximum == old(maximum) && length == old(length)
                      && hasOwnership == old(hasOwnership)
    {
      if hasOwnership && maximum > 0 { return false; }
      if buffer == Null || newMaximum < newLength || newMaximum < 1 { return false; }
      maximum, length, elements, hasOwnership := newMaximum, newLength, buffer, false;
      return true;
    }

    method ReturnLoan() returns (buffer: Buffer)
      requires Valid()
      modifies this
      ensures Valid() && created == old(created) && deleted == old(deleted) && hasOwnership
      ensures if old(hasOwnership) then buffer == Null && data == old(data) && maximum == old(maximum)
                                        && length == old(length) && elements == old(elements)
              else buffer == old(elements) && maximum == length == 0 && elements == Null
    {
      if hasOwnership { return Null; }
      buffer := elements;
      maximum, length, elements, hasOwnership := 0, 0, Null, true;
    }

    /** The destructor: a sequence on loan is left alone, an owned one is released; either way every element
        ever created has now been deleted exactly once. */
    method Destroy()
      requires Valid()
      modifies this
      ensures created == old(created)
      ensures Balanced([], deleted, created)
    {
      if elements != Null && !hasOwnership {
        return;
      }
      Release();
    }

    /** A whole lifetime: any operations in any order, then destruction. */
    method Lifetime(ops: seq<Op>)
      requires Valid()
      requires forall i :: 0 <= i < |ops| && ops[i].Loan? ==> ops[i].buffer != Own
      modifies this
      ensures forall id: int :: Count(deleted, id) == if 0 <= id < created then 1 else 0
    {
      for i := 0 to |ops|
        invariant Valid()
      {
        match ops[i]
        case Length(n) => var ok := SetLength(n);
        case Loan(b, m, l) => var ok := MakeLoan(b, m, l);
        case Unloan => var b := ReturnLoan();
      }
      Destroy();
      assert forall id: int :: Count([], id) == 0;
    }
  }
}
