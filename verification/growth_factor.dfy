/**
 * A step sequence whose value grows geometrically by a fixed factor per step
 * and is capped at a final value, together with a step counter.
 */
module GrowthFactor {

  /** The running position: the step counter and the current value. */
  datatype Cursor = Cursor(step: nat, value: real)

  datatype GrowthFactorStepSequence = GrowthFactorStepSequence(
    initialValue: real,
    finalValue: real,
    growthFactor: real,
    initialStep: nat,
    current: Cursor)

  /**
   * The constructor stores its four arguments. The cursor before the first
   * start is initialised by the base class and the class header, which are not
   * part of this model, so it is passed in.
   */
  function Construct(initialValue: real, finalValue: real, growthFactor: real, initialStep: nat, unstarted: Cursor)
    : (s: GrowthFactorStepSequence)
    ensures s.initialValue == initialValue && s.finalValue == finalValue
    ensures s.growthFactor == growthFactor && s.initialStep == initialStep
    ensures s.current == unstarted
  {
    GrowthFactorStepSequence(initialValue, finalValue, growthFactor, initialStep, unstarted)
  }

  /** Same parameters, possibly a different cursor. */
  predicate SameParameters(a: GrowthFactorStepSequence, b: GrowthFactorStepSequence) {
    && a.initialValue == b.initialValue
    && a.finalValue == b.finalValue
    && a.growthFactor == b.growthFactor
    && a.initialStep == b.initialStep
  }

  /** start rewinds the cursor to the initial step and value, whatever it was. */
  function Start(s: GrowthFactorStepSequence): (r: GrowthFactorStepSequence)
    ensures r.current.step == s.initialStep && r.current.value == s.initialValue
    ensures SameParameters(r, s)
  {
    s.(current := Cursor(s.initialStep, s.initialValue))
  }

  /** Because start ignores the prior cursor, starting twice is starting once. */
  lemma StartIdempotent(s: GrowthFactorStepSequence)
    ensures Start(Start(s)) == Start(s)
  {
  }

  function Min(a: real, b: real): (m: real)
    ensures m <= a && m <= b && (m == a || m == b)
  {
    if a <= b then a else b
  }

  /** A value grown once by factor g. */
  function Scale(v: real, g: real): real {
    v * g
  }

  /** step multiplies the value by the growth factor, caps it at the final value, and advances the counter. */
  function Step(s: GrowthFactorStepSequence): (r: GrowthFactorStepSequence)
    ensures r.current.value <= s.finalValue
    ensures r.current.value <= Scale(s.current.value, s.growthFactor)
    ensures r.current.value == s.finalValue || r.current.value == Scale(s.current.value, s.growthFactor)
    ensures r.current.step == s.current.step + 1
    ensures SameParameters(r, s)
  {
    s.(current := Cursor(s.current.step + 1, Min(Scale(s.current.value, s.growthFactor), s.finalValue)))
  }

  /** n consecutive steps. */
  function Run(s: GrowthFactorStepSequence, n: nat): GrowthFactorStepSequence
  {
    if n == 0 then s else Step(Run(s, n - 1))
  }

  /** x grown n times by factor g. */
  function Grown(x: real, g: real, n: nat): real
  {
    if n == 0 then x else Scale(Grown(x, g, n - 1), g)
  }

  lemma {:induction false} RunParameters(s: GrowthFactorStepSequence, n: nat)
    ensures SameParameters(Run(s, n), s)
  {
    if n > 0 {
      RunParameters(s, n - 1);
    }
  }

  /** n steps after start the counter reads initialStep + n; the parameters never change. */
  lemma {:induction false} RunStepCount(s: GrowthFactorStepSequence, n: nat)
    ensures Run(Start(s), n).current.step == s.initialStep + n
    ensures SameParameters(Run(Start(s), n), s)
  {
    if n > 0 {
      RunStepCount(s, n - 1);
    }
  }

  /** After at least one step the value never exceeds the final value. */
  lemma RunCapped(s: GrowthFactorStepSequence, n: nat)
    requires n >= 1
    ensures Run(s, n).current.value <= s.finalValue
  {
    RunParameters(s, n - 1);
  }

  /** Growing the cap by a factor of at least one does not bring it below the cap. */
  lemma CapGrowsPastItself(f: real, g: real)
    requires g >= 1.0 && f >= 0.0
    ensures Scale(f, g) >= f
  {
    assert f * g - f == f * (g - 1.0);
  }

  /** With a factor of at least one and a non-negative cap, reaching the cap is permanent. */
  lemma {:induction false} CapIsAbsorbing(s: GrowthFactorStepSequence, n: nat)
    requires s.growthFactor >= 1.0 && s.finalValue >= 0.0
    requires s.current.value == s.finalValue
    ensures Run(s, n).current.value == s.finalValue
  {
    if n > 0 {
      CapIsAbsorbing(s, n - 1);
      RunParameters(s, n - 1);
      CapGrowsPastItself(s.finalValue, s.growthFactor);
    }
  }

  /** Capping before or after growing by a factor of at least one gives the same capped value. */
  lemma CapCommutesWithGrowth(a: real, f: real, g: real)
    requires g >= 1.0 && f >= 0.0
    ensures Min(Scale(Min(a, f), g), f) == Min(Scale(a, g), f)
  {
    if a > f {
      CapGrowsPastItself(f, g);
      assert a * g >= f * g by {
        assert a * g - f * g == (a - f) * g;
      }
    }
  }

  /**
   * Closed form: with a factor of at least one and a non-negative cap, the
   * value n >= 1 steps after start is the initial value grown n times, capped.
   */
  lemma {:induction false} RunClosedForm(s: GrowthFactorStepSequence, n: nat)
    requires s.growthFactor >= 1.0 && s.finalValue >= 0.0
    requires n >= 1
    ensures Run(Start(s), n).current.value == Min(Grown(s.initialValue, s.growthFactor, n), s.finalValue)
  {
    RunStepCount(s, n - 1);
    if n > 1 {
      RunClosedForm(s, n - 1);
      CapCommutesWithGrowth(Grown(s.initialValue, s.growthFactor, n - 1), s.finalValue, s.growthFactor);
    }
  }
}
