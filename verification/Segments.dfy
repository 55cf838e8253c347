// Cutting a text into units: a unit that begins at `i` ends at `end(i)`, and the next begins there.
module Segments {
  /** The start of the unit that holds position `i`, walking units from `from`. */
  function StartFrom(end: nat -> nat, from: nat, i: nat): (a: nat)
    requires from <= i
    ensures from <= a <= i && (a < end(a) ==> i < end(a))
    decreases i - from
  {
    if end(from) <= from || i < end(from) then from else StartFrom(end, end(from), i)
  }

  /** The start of the unit that holds position `i`. */
  function Start(end: nat -> nat, i: nat): (a: nat)
    ensures a <= i && (a < end(a) ==> i < end(a))
  {
    StartFrom(end, 0, i)
  }

  lemma {:induction false} WalkThrough(end: nat -> nat, from: nat, a: nat, i: nat)
    requires from <= a <= i && StartFrom(end, from, a) == a
    ensures StartFrom(end, from, i) == StartFrom(end, a, i)
    decreases a - from
  {
    if from < a {
      WalkThrough(end, end(from), a, i);
    }
  }

  /** From the start of a unit, its positions belong to it, and where it ends a unit starts. */
  lemma Covers(end: nat -> nat, a: nat)
    requires a < end(a) && Start(end, a) == a
    ensures forall i :: a <= i < end(a) ==> Start(end, i) == a
    ensures Start(end, end(a)) == end(a)
  {
    forall i: nat | a <= i ensures Start(end, i) == StartFrom(end, a, i) {
      WalkThrough(end, 0, a, i);
    }
  }

  /** What `Start` finds is the start of a unit. */
  lemma {:induction false} StartsUnit(end: nat -> nat, from: nat, i: nat)
    requires from <= i && Start(end, from) == from
    ensures var a := StartFrom(end, from, i); Start(end, a) == a
    decreases i - from
  {
    if from < end(from) <= i {
      Covers(end, from);
      StartsUnit(end, end(from), i);
    }
  }
}
