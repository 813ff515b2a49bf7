/**
 `CInterlockedIntT::operator*=` and `operator/=`: retry loops around a compare-and-swap, while
 other threads write to the same variable.
 */
module Interlocked {
  import opened SpinRWLock

  datatype Op = Times(multiplier: nat) | DividedBy(divisor: nat)
  {
    predicate Valid() {
      DividedBy? ==> divisor != 0
    }

    /** The new value, for T = uint32. */
    function Of(original: nat): nat
      requires Valid()
    {
      match this
      case Times(m) => original * m % 0x1_0000_0000
      case DividedBy(d) => original / d
    }
  }

  /** A product less what does not fit 32 bits, and the whole part of a quotient. */
  lemma OpIs(op: Op, original: nat)
    requires op.Valid()
    ensures op.Times? ==>
      && op.Of(original) < 0x1_0000_0000
      && exists k: nat :: op.Of(original) + k * 0x1_0000_0000 == original * op.multiplier
    ensures op.DividedBy? ==>
      op.Of(original) * op.divisor <= original < op.Of(original) * op.divisor + op.divisor
  {
    match op
    case Times(m) =>
      var x := original * m;
      assert x % 0x1_0000_0000 + x / 0x1_0000_0000 * 0x1_0000_0000 == x;
    case DividedBy(d) =>
      assert original == original / d * d + original % d;
  }

  /** What round i loads: other threads leave others[i] in the variable between its load and its swap. */
  function Loaded(v: nat, others: seq<nat>, i: nat): nat
    requires i <= |others|
  {
    if i == 0 then v else others[i - 1]
  }

  class InterlockedInt {
    var value: nat

    method AssignIf(cas: Cas, conditionValue: nat, newValue: nat) returns (swapped: bool)
      modifies this
      ensures (value, swapped) == SpinRWLock.AssignIf(cas, old(value), newValue, conditionValue)
    {
      var (v, ok) := SpinRWLock.AssignIf(cas, value, newValue, conditionValue);
      value := v;
      swapped := ok;
    }

    /**
     The loop takes effect once, on the latest value that anyone wrote, and no write is lost: it
     retries for as long as the variable has changed under it.
     */
    method Update(op: Op, others: seq<nat>) returns (round: nat)
      requires op.Valid()
      modifies this
      ensures round <= |others|
      ensures forall i | 0 <= i < round :: others[i] != Loaded(old(value), others, i)
      ensures round < |others| ==> others[round] == Loaded(old(value), others, round)
      ensures value == op.Of(Loaded(old(value), others, round))
    {
      round := 0;
      while true
        invariant round <= |others| && value == Loaded(old(value), others, round)
        invariant forall i | 0 <= i < round :: others[i] != Loaded(old(value), others, i)
        decreases |others| - round
      {
        var original := value;
        var result := op.Of(original);
        if round < |others| {
          value := others[round];
        }
        var swapped := AssignIf(Intended, original, result);
        if swapped {
          return;
        }
        round := round + 1;
      }
    }

    /**
     With the arguments in the order they are passed, the loop never applies the operation: all it
     ever stores is a value that was in the variable before. Undisturbed it changes nothing, and it
     gives up after the first round or, when the value is 0, runs on for ever.
     */
    method UpdateLiteral(op: Op, others: seq<nat>, rounds: nat) returns (ended: bool)
      requires op.Valid()
      modifies this
      ensures value in [old(value)] + others
      ensures others == [] ==> value == old(value) && (ended <==> rounds > 0 && old(value) != 0)
    {
      hide Op.Of;
      ended := false;
      for i := 0 to rounds
        invariant value in [old(value)] + others && !ended
        invariant others == [] ==> value == old(value) && (i > 0 ==> value == 0)
      {
        var original := value;
        var result := op.Of(original);
        if i < |others| {
          value := others[i];
        }
        ended := AssignIf(Literal, original, result);
        if ended {
          return;
        }
      }
    }
  }

  /** A round of the loop as written, with cell in the variable at the swap, is right if nothing would change. */
  lemma LiteralUpdateIsRightIff(op: Op, loaded: nat, cell: nat)
    requires op.Valid()
    ensures AssignIf(Literal, cell, op.Of(loaded), loaded) == AssignIf(Intended, cell, op.Of(loaded), loaded)
      <==> op.Of(loaded) != 0 && (if cell == loaded then op.Of(loaded) == loaded else cell == 0)
  {
    hide Op.Of;
    LiteralIsIntendedIff(cell, op.Of(loaded), loaded);
  }

  /** It undoes another thread's write exactly if that thread wrote the result that the loop was about to store. */
  lemma LiteralLosesAWriteIff(op: Op, loaded: nat, cell: nat)
    requires op.Valid()
    ensures AssignIf(Literal, cell, op.Of(loaded), loaded).0 != cell <==> cell != loaded && cell == op.Of(loaded)
    ensures AssignIf(Literal, 10, Times(2).Of(5), 5) == (5, true)
  {
  }
}
