/**
  The two combinators the engine is built from, over any carry type:
  `jax.lax.scan` driven by an input sequence it ignores, and plain iteration
  of a function. Their laws are proved once here, with the step left
  abstract.
*/
module Scanning {

  /**
    lax.scan(step, carry, zeros(n)) for a step that returns its new carry as
    its output as well: the n carries that follow `carry`, in order.
  */
  function Scan<A>(step: A -> A, carry: A, n: nat): (ys: seq<A>)
    ensures |ys| == n
    decreases n
  {
    if n == 0 then [] else [step(carry)] + Scan(step, step(carry), n - 1)
  }

  /** `f` applied k times to `x`. */
  function Iterate<A>(f: A -> A, x: A, k: nat): A
    decreases k
  {
    if k == 0 then x else f(Iterate(f, x, k - 1))
  }

  /** Starting one application later is the same as applying once more. */
  lemma {:induction false} IterateShift<A>(f: A -> A, x: A, k: nat)
    ensures Iterate(f, f(x), k) == Iterate(f, x, k + 1)
  {
    if k > 0 {
      IterateShift(f, x, k - 1);
    }
  }

  /** Output k of the scan is the step applied k+1 times to the initial carry. */
  lemma {:induction false} ScanIsIterate<A>(step: A -> A, carry: A, n: nat, k: nat)
    requires k < n
    ensures Scan(step, carry, n)[k] == Iterate(step, carry, k + 1)
  {
    var rest := Scan(step, step(carry), n - 1);
    assert Scan(step, carry, n) == [step(carry)] + rest;
    if k > 0 {
      ScanIsIterate(step, step(carry), n - 1, k - 1);
      IterateShift(step, carry, k);
    }
  }

  /**
    When `step` acts on encoded values as `f` acts on the values themselves,
    iterating `step` from an encoded value is encoding the iterate of `f`.
  */
  lemma {:induction false} IterateConjugate<A, B>(step: A -> A, f: B -> B, encode: B -> A, x: B, k: nat)
    requires forall b :: step(encode(b)) == encode(f(b))
    ensures Iterate(step, encode(x), k) == encode(Iterate(f, x, k))
  {
    if k > 0 {
      IterateConjugate(step, f, encode, x, k - 1);
    }
  }

  /** A property that `f` preserves holds of every iterate. */
  lemma {:induction false} IterateInvariant<A>(f: A -> A, inv: A -> bool, x: A, k: nat)
    requires inv(x)
    requires forall y {:trigger f(y)} :: inv(y) ==> inv(f(y))
    ensures inv(Iterate(f, x, k))
  {
    if k > 0 {
      IterateInvariant(f, inv, x, k - 1);
    }
  }
}
