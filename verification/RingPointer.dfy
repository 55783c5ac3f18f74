/** The 32-bit ring pointers of MultiProducerConsumerRingBuffer: bit 31 is a loop flag, bits 0 to 30
    are a cell index.  The loop flag is what lets `read_p == write_p` mean "empty" and never "full". */
module RingPointer {
  import opened Basics

  const LOOP_BIT := 0x8000_0000
  const MAX_CELLS := 0x8000_0000

  ghost predicate ValidCells(total: int) {
    1 <= total <= MAX_CELLS
  }

  /** get_pointer_value: the cell index of a pointer. */
  function PointerValue(pointer: nat): nat {
    pointer % LOOP_BIT
  }

  /** inc_pointer: the next cell, flipping the loop flag when the index wraps to zero. */
  function IncPointer(pointer: nat, total: int): nat
    requires ValidCells(total)
  {
    var value := (PointerValue(pointer) + 1) % total;
    var flag := if value == 0 then 1 - pointer / LOOP_BIT % 2 else pointer / LOOP_BIT % 2;
    flag * LOOP_BIT + value
  }

  /** pointer_to_head: the write pointer one loop back, moved over the free cells. */
  function PointerToHead(writeP: nat, free: nat, total: int): nat
    requires ValidCells(total)
  {
    var value := PointerValue(writeP);
    var previousLoop := 1 - writeP / LOOP_BIT % 2;
    var flag := if value + free >= total then 1 - previousLoop else previousLoop;
    flag * LOOP_BIT + (value + free) % total
  }

  /** The cell of the k-th entry ever pushed. */
  ghost function Slot(k: nat, total: int): (c: nat)
    requires ValidCells(total)
    ensures c < total
  {
    k % total
  }

  /** The pointer that stands for the k-th entry ever pushed. */
  ghost function Encode(k: nat, total: int): nat
    requires ValidCells(total)
  {
    k / total % 2 * LOOP_BIT + k % total
  }

  lemma EncodeParts(k: nat, total: int)
    requires ValidCells(total)
    ensures PointerValue(Encode(k, total)) == Slot(k, total)
    ensures Encode(k, total) / LOOP_BIT % 2 == k / total % 2
  {
    DivModUnique(Encode(k, total), LOOP_BIT, k / total % 2, k % total);
  }

  /** Incrementing the encoded pointer is incrementing the entry number. */
  lemma IncPointerEncodes(k: nat, total: int)
    requires ValidCells(total)
    ensures IncPointer(Encode(k, total), total) == Encode(k + 1, total)
  {
    EncodeParts(k, total);
    var q, r := k / total, k % total;
    assert k == q * total + r;
    if r + 1 < total {
      DivModUnique(k + 1, total, q, r + 1);
      DivModUnique(r + 1, total, 0, r + 1);
    } else {
      assert (q + 1) * total == q * total + total;
      DivModUnique(k + 1, total, q + 1, 0);
      DivModUnique(r + 1, total, 1, 0);
    }
  }

  /** An entry and the one `d <= total` later share a cell exactly when they are a whole lap apart. */
  lemma SlotApart(k: nat, d: nat, total: int)
    requires ValidCells(total) && d <= total
    ensures Slot(k + d, total) == Slot(k, total) <==> d == 0 || d == total
    ensures d == total ==> (k + d) / total == k / total + 1
  {
    var q, r := k / total, k % total;
    assert k == q * total + r;
    assert (q + 1) * total == q * total + total;
    if r + d < total {
      DivModUnique(k + d, total, q, r + d);
    } else {
      DivModUnique(k + d, total, q + 1, r + d - total);
    }
  }

  /** Inside one lap (at most `total` entries apart) equal pointers mean equal entries: a full buffer is
      never mistaken for an empty one. */
  lemma EncodeInjective(i: nat, j: nat, total: int)
    requires ValidCells(total)
    requires i <= j <= i + total
    ensures Encode(i, total) == Encode(j, total) <==> i == j
  {
    EncodeParts(i, total);
    EncodeParts(j, total);
    SlotApart(i, j - i, total);
  }

  /** pointer_to_head finds the oldest entry still held: `free` cells ahead of the write pointer, one lap back. */
  lemma PointerToHeadEncodes(written: nat, free: nat, total: int)
    requires ValidCells(total)
    requires free <= total && written + free >= total
    ensures PointerToHead(Encode(written, total), free, total) == Encode(written + free - total, total)
  {
    EncodeParts(written, total);
    var q, r := written / total, written % total;
    assert written == q * total + r;
    assert (q + 1) * total == q * total + total;
    assert (q - 1) * total == q * total - total;
    if r + free < total {
      DivModUnique(written + free - total, total, q - 1, r + free);
      DivModUnique(r + free, total, 0, r + free);
    } else {
      DivModUnique(written + free - total, total, q, r + free - total);
      DivModUnique(r + free, total, 1, r + free - total);
    }
  }
}
