/** The 32-bit xorshift generator that picks batch sizes. */
module XorShift {

  function Left13(x: bv32): bv32 { x ^ (x << 13) }

  function Right17(x: bv32): bv32 { Mix(x, Top(x)) }

  function Top(x: bv32): bv32 { x >> 17 }

  function Mix(a: bv32, b: bv32): bv32 { a ^ b }

  function Left5(x: bv32): bv32 { x ^ (x << 5) }

  function Step(x: bv32): bv32
  {
    Left5(Right17(Left13(x)))
  }

  lemma Left13Injective(x: bv32, y: bv32)
    requires Left13(x) == Left13(y)
    ensures x == y
  {
  }

  lemma Left5Injective(x: bv32, y: bv32)
    requires Left5(x) == Left5(y)
    ensures x == y
  {
  }

  lemma MixCancels(a: bv32, b: bv32)
    ensures Mix(Mix(a, b), b) == a
  {
  }

  lemma Right17KeepsTop(x: bv32)
    ensures Top(Right17(x)) == Top(x)
  {
  }

  lemma Right17Injective(x: bv32, y: bv32)
    requires Right17(x) == Right17(y)
    ensures x == y
  {
    hide Mix, Top;
    Right17KeepsTop(x);
    Right17KeepsTop(y);
    MixCancels(x, Top(x));
    MixCancels(y, Top(y));
  }

  lemma StepInjective(x: bv32, y: bv32)
    requires Step(x) == Step(y)
    ensures x == y
  {
    hide Left13, Right17, Left5;
    Left5Injective(Right17(Left13(x)), Right17(Left13(y)));
    Right17Injective(Left13(x), Left13(y));
    Left13Injective(x, y);
  }

  lemma StepOfZero()
    ensures Step(0) == 0
  {
  }

  lemma StepKeepsNonZero(x: bv32)
    requires x != 0
    ensures Step(x) != 0
  {
    hide Step;
    StepOfZero();
    if Step(x) == Step(0) {
      StepInjective(x, 0);
    }
  }

  const SEED: bv32 := 12345

  /** The state after `n` draws from the seed. */
  function State(n: nat): bv32
  {
    if n == 0 then SEED else Step(State(n - 1))
  }

  /** Over any run from the seed the state is never zero. */
  lemma {:induction false} StateNonZero(n: nat)
    ensures State(n) != 0
  {
    hide Step;
    if n > 0 {
      StateNonZero(n - 1);
      StepKeepsNonZero(State(n - 1));
    }
  }

  /** A state that recurs does so only because the seed itself recurs. */
  lemma {:induction false} RecurrenceReachesSeed(m: nat, n: nat)
    requires m <= n && State(m) == State(n)
    ensures State(n - m) == SEED
    decreases m
  {
    hide Step;
    if m > 0 {
      StepInjective(State(m - 1), State(n - 1));
      RecurrenceReachesSeed(m - 1, n - 1);
    }
  }

  class XorShift32 {
    var state: bv32
    ghost var draws: nat

    ghost predicate Valid()
      reads this
    {
      state == State(draws)
    }

    constructor ()
      ensures Valid() && draws == 0
    {
      state, draws := 12345, 0;
    }

    /** Advances the generator; the value is its new state. */
    method Next() returns (r: nat)
      requires Valid()
      modifies this
      ensures Valid() && draws == old(draws) + 1
      ensures r == state as nat
      ensures state == Step(old(state)) && state != 0
    {
      hide Left13, Right17, Left5;
      StateNonZero(draws + 1);
      state := Left13(state);
      state := Right17(state);
      state := Left5(state);
      draws := draws + 1;
      r := state as nat;
    }
  }
}
