/**
 * The deterministic Park-Miller (Lehmer) generator the fuzz test uses to
 * choose a scalar type per field, and to replay the same choices when it
 * reads the objects back.
 */
module Lcg {

  const InitialSeed: nat := 48271
  const Multiplier: nat := 279470273
  const Modulus: nat := 4294967291
  const U32: nat := 0x1_0000_0000
  const U64: nat := 0x1_0000_0000_0000_0000

  /**
   * One step of the generator as written: the product is formed in uint64,
   * reduced modulo 4294967291, and the remainder converted to uint32.
   */
  function Step(x: nat): (r: nat)
    ensures r < Modulus && r < U32
  {
    ((x * Multiplier) % U64 % Modulus) % U32
  }

  /** For a uint32 state neither the uint64 product nor the uint32 conversion loses anything. */
  lemma StepExact(x: nat)
    requires x < U32
    ensures x * Multiplier < U64
    ensures Step(x) == (x * Multiplier) % Modulus
  {
    assert x * Multiplier <= (U32 - 1) * Multiplier by {
      MulLeft(x, U32 - 1, Multiplier);
    }
    var m := (x * Multiplier) % Modulus;
    assert m < Modulus < U32;
  }

  lemma MulLeft(a: nat, b: nat, c: nat)
    requires a <= b
    ensures a * c <= b * c
  {
  }

  /** The generator's state after n steps from seed. */
  function StateAfter(seed: nat, n: nat): nat
  {
    if n == 0 then seed else Step(StateAfter(seed, n - 1))
  }

  /** The first n results of Next from a generator holding seed. */
  function Outputs(seed: nat, n: nat): (r: seq<nat>)
    ensures |r| == n
    ensures forall i | 0 <= i < n :: r[i] < Modulus
    ensures n > 0 ==> r[n - 1] == StateAfter(seed, n)
  {
    if n == 0 then [] else Outputs(seed, n - 1) + [StateAfter(seed, n)]
  }

  /** Every result is also the state that produces the next one. */
  lemma {:induction false} OutputsChain(seed: nat, n: nat, i: nat)
    requires 0 < i < n
    ensures Outputs(seed, n)[i] == Step(Outputs(seed, n)[i - 1])
  {
    if i < n - 1 {
      OutputsChain(seed, n - 1, i);
    } else {
      assert Outputs(seed, n)[i] == StateAfter(seed, n);
      assert Outputs(seed, n)[i - 1] == Outputs(seed, n - 1)[i - 1] == StateAfter(seed, n - 1);
    }
  }

  /** The generator: a uint32 updated in place through a pointer. */
  class LCG {
    var state: nat

    ghost predicate Valid()
      reads this
    {
      state < U32
    }

    /** NewLCG */
    constructor ()
      ensures Valid() && state == InitialSeed
    {
      state := InitialSeed;
    }

    method Reset()
      modifies this
      ensures Valid() && state == InitialSeed
    {
      state := InitialSeed;
    }

    /** Stores the next value as the new state and returns it. */
    method Next() returns (n: nat)
      requires Valid()
      modifies this
      ensures Valid() && state == n
      ensures n == Step(old(state)) && n == (old(state) * Multiplier) % Modulus
    {
      StepExact(state);
      n := ((state * Multiplier) % U64 % Modulus) % U32;
      state := n;
    }
  }

  /**
   * The fuzz test's draws: `count` choices `Next() % kinds` from a new
   * generator, then, after re-seeding, the same number again. Both runs are
   * the generator's output sequence reduced modulo kinds, so they agree.
   */
  method ReplayChoices(count: nat, kinds: nat) returns (first: seq<nat>, second: seq<nat>)
    requires kinds > 0
    ensures |first| == count && first == second
    ensures forall i | 0 <= i < count :: first[i] == Outputs(InitialSeed, count)[i] % kinds
    ensures forall i | 0 <= i < count :: first[i] < kinds
  {
    var l := new LCG();
    first := Draw(l, count, kinds);
    l.Reset();
    second := Draw(l, count, kinds);
  }

  /** `count` draws of `Next() % kinds` from l. */
  method Draw(l: LCG, count: nat, kinds: nat) returns (cs: seq<nat>)
    requires l.Valid() && kinds > 0
    modifies l
    ensures l.Valid()
    ensures |cs| == count
    ensures forall i | 0 <= i < count :: cs[i] == Outputs(old(l.state), count)[i] % kinds
  {
    ghost var seed := l.state;
    cs := [];
    var i := 0;
    while i < count
      invariant 0 <= i <= count
      invariant l.Valid() && l.state == StateAfter(seed, i)
      invariant |cs| == i
      invariant forall j | 0 <= j < i :: cs[j] == Outputs(seed, i)[j] % kinds
    {
      var n := l.Next();
      assert Outputs(seed, i + 1) == Outputs(seed, i) + [n];
      cs := cs + [n % kinds];
      i := i + 1;
    }
    assert forall j | 0 <= j < count :: Outputs(seed, count)[j] == Outputs(seed, count)[j];
  }
}
