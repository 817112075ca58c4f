/**
 Positions in the output stream and the slots of the ring buffer that hold them.
 */
module RingArithmetic {

  function Slot(pos: nat, size: nat): (slot: nat)
    requires 0 < size
    ensures slot < size
  {
    pos % size
  }

  lemma DivisionUnique(size: nat, q1: int, r1: nat, q2: int, r2: nat)
    requires q1 * size + r1 == q2 * size + r2 && r1 < size && r2 < size
    ensures q1 == q2 && r1 == r2
  {
    assert (q1 - q2) * size == r2 - r1;
    if q1 - q2 >= 1 {
      MulAtLeast(q1 - q2, size);
    } else if q2 - q1 >= 1 {
      MulAtLeast(q2 - q1, size);
    }
  }

  lemma MulAtLeast(d: int, size: nat)
    requires d >= 1
    ensures d * size >= size
  {
  }

  lemma SlotForward(pos: nat, j: nat, size: nat)
    requires 0 < size && Slot(pos, size) + j < size
    ensures Slot(pos + j, size) == Slot(pos, size) + j
  {
    DivisionUnique(size, (pos + j) / size, (pos + j) % size, pos / size, pos % size + j);
  }

  /** Two positions less than one ring apart never share a slot. */
  lemma SlotsDiffer(a: nat, b: nat, size: nat)
    requires 0 < size && a < b < a + size
    ensures Slot(a, size) != Slot(b, size)
  {
    if a % size == b % size {
      DivisionUnique(size, b / size - a / size, 0, 0, b - a);
    }
  }
}
