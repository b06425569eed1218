/** The seedable generator of a load plan (crates/harness/src/plan.rs:175-191). */
module SplitMix {
  import Hash

  /** What one step adds to the state. */
  const GAMMA: bv64 := 0x9e37_79b9_7f4a_7c15

  /** How many numbers a fraction of 53 bits can hold. */
  const FRACTIONS: nat := 0x20_0000_0000_0000

  function Step(state: bv64): bv64 {
    state + GAMMA
  }

  /** What the generator yields in `state`, before it steps on. */
  function Output(state: bv64): bv64 {
    Hash.Mix(Step(state))
  }

  function Natural(z: bv64): nat {
    z as nat
  }

  /** The top 53 bits of `z` as a number in `[0, 1)`. */
  function Fraction(z: bv64): (r: real)
    ensures 0.0 <= r < 1.0
  {
    TopBits(z);
    Natural53((z >> 11) as bv53) as real / FRACTIONS as real
  }

  function Natural53(z: bv53): (n: nat)
    ensures n < FRACTIONS
  {
    z as nat
  }

  lemma TopBits(z: bv64)
    ensures z >> 11 < 0x20_0000_0000_0000
  {
  }

  /** `n` steps from `state`. */
  function StepsFrom(state: bv64, n: nat): bv64 {
    if n == 0 then state else Step(StepsFrom(state, n - 1))
  }

  lemma {:induction false} StepFirst(state: bv64, n: nat)
    ensures StepsFrom(Step(state), n) == StepsFrom(state, n + 1)
  {
    if n > 0 {
      StepFirst(state, n - 1);
    }
  }

  /** The numbers a generator yields one after another, each read as the caller needs it. */
  datatype Numbers = Numbers(fraction: nat -> real, natural: nat -> nat)

  function NumbersOf(seed: bv64): Numbers {
    Numbers((n: nat) => Fraction(Output(StepsFrom(seed, n))), (n: nat) => Natural(Output(StepsFrom(seed, n))))
  }

  lemma FractionsOf(seed: bv64)
    ensures forall n :: 0.0 <= NumbersOf(seed).fraction(n) < 1.0
  {
  }

  /** `numbers` and `taken` are history: what the seed yields, and how much of it was drawn. */
  class SplitMix64 {
    var state: bv64
    ghost const numbers: Numbers
    ghost var taken: nat

    ghost predicate Valid()
      reads this
    {
      forall n {:trigger Output(StepsFrom(state, n))} ::
        var z := Output(StepsFrom(state, n));
        numbers.fraction(taken + n) == Fraction(z) && numbers.natural(taken + n) == Natural(z)
    }

    constructor (seed: bv64)
      ensures Valid() && numbers == NumbersOf(seed) && taken == 0
    {
      state, numbers, taken := seed, NumbersOf(seed), 0;
    }

    method Next() returns (z: bv64)
      requires Valid()
      modifies this
      ensures Valid() && taken == old(taken) + 1
      ensures Natural(z) == numbers.natural(old(taken)) && Fraction(z) == numbers.fraction(old(taken))
    {
      ghost var before := state;
      state := Step(state);
      z := Hash.TimesFirst(Hash.Fold30(state));
      z := Hash.TimesSecond(Hash.Fold27(z));
      z := Hash.Fold31(z);
      assert z == Output(StepsFrom(before, 0));
      taken := taken + 1;
      forall n: nat
        ensures StepsFrom(state, n) == StepsFrom(before, n + 1)
      {
        StepFirst(before, n);
      }
    }

    method Unit() returns (r: real)
      requires Valid()
      modifies this
      ensures Valid() && taken == old(taken) + 1 && r == numbers.fraction(old(taken))
    {
      var z := Next();
      r := Fraction(z);
    }
  }

  /** What the first seven states of seed 1 yield. */
  lemma OutputsOfOne()
    ensures Output(0x0000_0000_0000_0001) == 0x910a_2dec_8902_5cc1
    ensures Output(0x9e37_79b9_7f4a_7c16) == 0xbeeb_8da1_658e_ec67
    ensures Output(0x3c6e_f372_fe94_f82b) == 0xf893_a2ee_fb32_555e
    ensures Output(0xdaa6_6d2c_7ddf_7440) == 0x71c1_8690_ee42_c90b
    ensures Output(0x78dd_e6e5_fd29_f055) == 0x71bb_54d8_d101_b5b9
    ensures Output(0x1715_609f_7c74_6c6a) == 0xc34d_0bff_9015_0280
    ensures Output(0xb54c_da58_fbbe_e87f) == 0xe099_ec6c_d736_3ca5
  {
  }

  lemma StepsOfOne()
    ensures Step(0x0000_0000_0000_0001) == 0x9e37_79b9_7f4a_7c16
    ensures Step(0x9e37_79b9_7f4a_7c16) == 0x3c6e_f372_fe94_f82b
    ensures Step(0x3c6e_f372_fe94_f82b) == 0xdaa6_6d2c_7ddf_7440
    ensures Step(0xdaa6_6d2c_7ddf_7440) == 0x78dd_e6e5_fd29_f055
    ensures Step(0x78dd_e6e5_fd29_f055) == 0x1715_609f_7c74_6c6a
    ensures Step(0x1715_609f_7c74_6c6a) == 0xb54c_da58_fbbe_e87f
  {
  }

  lemma TopIsHigh(z: bv64)
    requires z >= 0x2000_0000_0000_0000
    ensures Fraction(z) >= 0.125
  {
    assert (z >> 11) as bv53 >= 0x4_0000_0000_0000;
  }

  lemma StatesOfOne()
    ensures StepsFrom(1, 0) == 0x0000_0000_0000_0001
    ensures StepsFrom(1, 1) == 0x9e37_79b9_7f4a_7c16
    ensures StepsFrom(1, 2) == 0x3c6e_f372_fe94_f82b
    ensures StepsFrom(1, 3) == 0xdaa6_6d2c_7ddf_7440
    ensures StepsFrom(1, 4) == 0x78dd_e6e5_fd29_f055
    ensures StepsFrom(1, 5) == 0x1715_609f_7c74_6c6a
    ensures StepsFrom(1, 6) == 0xb54c_da58_fbbe_e87f
  {
    StepsOfOne();
    assert StepsFrom(1, 1) == Step(StepsFrom(1, 0));
    assert StepsFrom(1, 2) == Step(StepsFrom(1, 1));
    assert StepsFrom(1, 3) == Step(StepsFrom(1, 2));
    assert StepsFrom(1, 4) == Step(StepsFrom(1, 3));
    assert StepsFrom(1, 5) == Step(StepsFrom(1, 4));
    assert StepsFrom(1, 6) == Step(StepsFrom(1, 5));
  }

  lemma OutputsAreHigh()
    ensures Fraction(Output(0x0000_0000_0000_0001)) >= 0.125
    ensures Fraction(Output(0x9e37_79b9_7f4a_7c16)) >= 0.125
    ensures Fraction(Output(0x3c6e_f372_fe94_f82b)) >= 0.125
    ensures Fraction(Output(0xdaa6_6d2c_7ddf_7440)) >= 0.125
    ensures Fraction(Output(0x78dd_e6e5_fd29_f055)) >= 0.125
    ensures Fraction(Output(0x1715_609f_7c74_6c6a)) >= 0.125
    ensures Fraction(Output(0xb54c_da58_fbbe_e87f)) >= 0.125
  {
    hide Output;
    OutputsOfOne();
    TopIsHigh(0x910a_2dec_8902_5cc1);
    TopIsHigh(0xbeeb_8da1_658e_ec67);
    TopIsHigh(0xf893_a2ee_fb32_555e);
    TopIsHigh(0x71c1_8690_ee42_c90b);
    TopIsHigh(0x71bb_54d8_d101_b5b9);
    TopIsHigh(0xc34d_0bff_9015_0280);
    TopIsHigh(0xe099_ec6c_d736_3ca5);
  }

  /** Of seed 1, the first seven numbers all lie at or above an eighth. */
  lemma SeedOneStartsHigh()
    ensures forall n :: 0 <= n < 7 ==> NumbersOf(1).fraction(n) >= 0.125
  {
    hide Output, Fraction, StepsFrom;
    OutputsAreHigh();
    StatesOfOne();
    forall n | 0 <= n < 7
      ensures NumbersOf(1).fraction(n) >= 0.125
    {
      assert n == 0 || n == 1 || n == 2 || n == 3 || n == 4 || n == 5 || n == 6;
    }
  }

  // ----- seed 2 -----

  lemma StepsOfTwo()
    ensures Step(0x0000_0000_0000_0002) == 0x9e37_79b9_7f4a_7c17
    ensures Step(0x9e37_79b9_7f4a_7c17) == 0x3c6e_f372_fe94_f82c
    ensures Step(0x3c6e_f372_fe94_f82c) == 0xdaa6_6d2c_7ddf_7441
    ensures Step(0xdaa6_6d2c_7ddf_7441) == 0x78dd_e6e5_fd29_f056
    ensures Step(0x78dd_e6e5_fd29_f056) == 0x1715_609f_7c74_6c6b
    ensures Step(0x1715_609f_7c74_6c6b) == 0xb54c_da58_fbbe_e880
    ensures Step(0xb54c_da58_fbbe_e880) == 0x5384_5412_7b09_6495
    ensures Step(0x5384_5412_7b09_6495) == 0xf1bb_cdcb_fa53_e0aa
    ensures Step(0xf1bb_cdcb_fa53_e0aa) == 0x8ff3_4785_799e_5cbf
    ensures Step(0x8ff3_4785_799e_5cbf) == 0x2e2a_c13e_f8e8_d8d4
    ensures Step(0x2e2a_c13e_f8e8_d8d4) == 0xcc62_3af8_7833_54e9
    ensures Step(0xcc62_3af8_7833_54e9) == 0x6a99_b4b1_f77d_d0fe
    ensures Step(0x6a99_b4b1_f77d_d0fe) == 0x08d1_2e6b_76c8_4d13
    ensures Step(0x08d1_2e6b_76c8_4d13) == 0xa708_a824_f612_c928
    ensures Step(0xa708_a824_f612_c928) == 0x4540_21de_755d_453d
    ensures Step(0x4540_21de_755d_453d) == 0xe377_9b97_f4a7_c152
    ensures Step(0xe377_9b97_f4a7_c152) == 0x81af_1551_73f2_3d67
    ensures Step(0x81af_1551_73f2_3d67) == 0x1fe6_8f0a_f33c_b97c
    ensures Step(0x1fe6_8f0a_f33c_b97c) == 0xbe1e_08c4_7287_3591
  {
  }

  lemma StatesOfTwo()
    ensures StepsFrom(2, 1) == 0x9e37_79b9_7f4a_7c17
    ensures StepsFrom(2, 3) == 0xdaa6_6d2c_7ddf_7441
    ensures StepsFrom(2, 5) == 0x1715_609f_7c74_6c6b
    ensures StepsFrom(2, 9) == 0x8ff3_4785_799e_5cbf
    ensures StepsFrom(2, 11) == 0xcc62_3af8_7833_54e9
    ensures StepsFrom(2, 15) == 0x4540_21de_755d_453d
    ensures StepsFrom(2, 19) == 0xbe1e_08c4_7287_3591
  {
    StepsOfTwo();
    assert StepsFrom(2, 1) == Step(StepsFrom(2, 0));
    assert StepsFrom(2, 2) == Step(StepsFrom(2, 1));
    assert StepsFrom(2, 3) == Step(StepsFrom(2, 2));
    assert StepsFrom(2, 4) == Step(StepsFrom(2, 3));
    assert StepsFrom(2, 5) == Step(StepsFrom(2, 4));
    assert StepsFrom(2, 6) == Step(StepsFrom(2, 5));
    assert StepsFrom(2, 7) == Step(StepsFrom(2, 6));
    assert StepsFrom(2, 8) == Step(StepsFrom(2, 7));
    assert StepsFrom(2, 9) == Step(StepsFrom(2, 8));
    assert StepsFrom(2, 10) == Step(StepsFrom(2, 9));
    assert StepsFrom(2, 11) == Step(StepsFrom(2, 10));
    assert StepsFrom(2, 12) == Step(StepsFrom(2, 11));
    assert StepsFrom(2, 13) == Step(StepsFrom(2, 12));
    assert StepsFrom(2, 14) == Step(StepsFrom(2, 13));
    assert StepsFrom(2, 15) == Step(StepsFrom(2, 14));
    assert StepsFrom(2, 16) == Step(StepsFrom(2, 15));
    assert StepsFrom(2, 17) == Step(StepsFrom(2, 16));
    assert StepsFrom(2, 18) == Step(StepsFrom(2, 17));
    assert StepsFrom(2, 19) == Step(StepsFrom(2, 18));
  }

  lemma ParitiesAt()
    ensures Natural(Output(0x9e37_79b9_7f4a_7c17)) % 2 == 0
    ensures Natural(Output(0xdaa6_6d2c_7ddf_7441)) % 2 == 0
    ensures Natural(Output(0x1715_609f_7c74_6c6b)) % 2 == 1
    ensures Natural(Output(0x8ff3_4785_799e_5cbf)) % 2 == 0
    ensures Natural(Output(0xcc62_3af8_7833_54e9)) % 2 == 1
    ensures Natural(Output(0x4540_21de_755d_453d)) % 2 == 1
    ensures Natural(Output(0xbe1e_08c4_7287_3591)) % 2 == 1
  {
  }

  /** Of seed 2, which of the numbers that decide a delay are odd. */
  lemma SeedTwoParities()
    ensures var natural := NumbersOf(2).natural;
      && natural(1) % 2 == 0 && natural(3) % 2 == 0 && natural(5) % 2 == 1 && natural(9) % 2 == 0
      && natural(11) % 2 == 1 && natural(15) % 2 == 1 && natural(19) % 2 == 1
  {
    hide Output, Natural, StepsFrom;
    StatesOfTwo();
    ParitiesAt();
  }
}
