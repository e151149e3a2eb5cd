/** Block allocation never runs dry in this model: block numbers are unbounded. */
module FreeBlocks {
  lemma {:induction false} Bounded(used: set<int>) returns (top: int)
    ensures forall b :: b in used ==> b < top
    decreases |used|
  {
    if b: int :| b in used {
      top := Bounded(used - {b});
      assert forall x :: x in used ==> x == b || x in used - {b};
      top := if b < top then top else b + 1;
    } else {
      top := 0;
    }
  }

  /** From some block on all are free. */
  lemma {:induction false} FreeRunExists(used: set<int>, lo: nat) returns (b: nat)
    ensures b > lo && forall x :: x >= b ==> x !in used
  {
    var top := Bounded(used);
    b := if top > lo then top else lo + 1;
  }
}
