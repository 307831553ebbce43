/** The Q15 PID controller (the branch for cores without the SIMD instructions). */
module Pid {
  import opened Arithmetic
  import opened Common
  import opened Saturation

  datatype Gains = Gains(kp: int, ki: int, kd: int) {
    function A0(): int { kp + ki + kd }
    function A1(): int { -kp - 2 * kd }
    function A2(): int { kd }

    // The derived gains fit their q15_t fields.
    predicate InRange() {
      -0x8000 <= A0() <= 0x7FFF && -0x8000 <= A1() <= 0x7FFF && -0x8000 <= A2() <= 0x7FFF
    }
  }

  // x[n-1], x[n-2] and y[n-1]
  datatype State = State(x1: Int16, x2: Int16, y1: Int16)

  // The accumulator of arm_pid_q15.
  function Accumulate(g: Gains, st: State, x: Int16): int {
    g.A0() * x + g.A1() * st.x1 + g.A2() * st.x2 + 0x8000 * st.y1
  }

  function Output(g: Gains, st: State, x: Int16): Int16 {
    Clamp(Accumulate(g, st, x) / 0x8000, -0x8000, 0x7FFF)
  }

  // The law of the controller: of the 16-bit numbers the output is the one nearest to the shifted sum.
  lemma OutputNearest(g: Gains, st: State, x: Int16)
    ensures Nearest(Output(g, st, x),
                    (g.A0() * x + g.A1() * st.x1 + g.A2() * st.x2 + 0x8000 * st.y1) / 0x8000, -0x8000, 0x7FFF)
  {
    ClampNearest(Output(g, st, x), Accumulate(g, st, x) / 0x8000, -0x8000, 0x7FFF);
  }

  // The state after a sequence of samples from reset.
  function Run(g: Gains, xs: seq<Int16>): State {
    if xs == [] then State(0, 0, 0)
    else
      var st, x := Run(g, xs[..|xs| - 1]), xs[|xs| - 1];
      State(x, st.x1, Output(g, st, x))
  }

  lemma RunStep(g: Gains, xs: seq<Int16>, x: Int16)
    ensures var st := Run(g, xs); Run(g, xs + [x]) == State(x, st.x1, Output(g, st, x))
  {
    assert (xs + [x])[..|xs|] == xs;
  }

  lemma MulBounds(a: int, x: int)
    requires -0x8000 <= a <= 0x7FFF && -0x8000 <= x <= 0x7FFF
    ensures -0x4000_0000 <= a * x <= 0x4000_0000
  {
    if a >= 0 {
      MulMonotone(a, -0x8000, x);
      MulMonotone(a, x, 0x7FFF);
    } else {
      MulMonotone(-a, -0x8000, x);
      MulMonotone(-a, x, 0x7FFF);
      assert (-a) * x == -(a * x);
    }
  }

  lemma MulMonotone(a: int, x: int, y: int)
    requires a >= 0 && x <= y
    ensures a * x <= a * y
  {
    assert a * (y - x) >= 0;
  }

  // The value handed to __SSAT always fits its 32-bit parameter.
  lemma NoOverflow(g: Gains, st: State, x: Int16)
    requires g.InRange()
    ensures INT32_MIN <= g.A0() * x <= INT32_MAX
    ensures INT32_MIN <= g.A1() * st.x1 <= INT32_MAX
    ensures INT32_MIN <= g.A2() * st.x2 <= INT32_MAX
    ensures -0x2_0000 <= Accumulate(g, st, x) / 0x8000 <= 0x2_0000
  {
    MulBounds(g.A0(), x);
    MulBounds(g.A1(), st.x1);
    MulBounds(g.A2(), st.x2);
  }

  class Instance {
    const gains: Gains
    const state: array<Int16>

    ghost predicate Valid() {
      gains.InRange() && state.Length == 3
    }

    ghost function Model(): State
      requires Valid()
      reads state
    {
      State(state[0], state[1], state[2])
    }

    constructor (gains: Gains)
      requires gains.InRange()
      ensures Valid() && this.gains == gains && fresh(state) && Model() == Run(gains, [])
    {
      this.gains := gains;
      state := new Int16[3](_ => 0);
    }

    // arm_pid_q15
    method Process(x: Int16) returns (out: Int16)
      requires Valid()
      modifies state
      ensures var y1: int := old(state[2]);
              var sum := gains.A0() * x + gains.A1() * old(state[0]) + gains.A2() * old(state[1]) + y1 * 0x8000;
              Nearest(out, sum / 0x8000, -0x8000, 0x7FFF)
      ensures out == Output(gains, old(Model()), x)
      ensures Model() == State(x, old(Model()).x1, out)
      ensures forall xs :: old(Model()) == Run(gains, xs) ==> Model() == Run(gains, xs + [x])
    {
      hide Run, Nearest, Clamp;
      NoOverflow(gains, Model(), x);
      OutputNearest(gains, Model(), x);
      var acc := gains.A0() * x;
      acc := acc + gains.A1() * state[0];
      acc := acc + gains.A2() * state[1];
      var y1: int := state[2];
      acc := acc + y1 * 0x8000;
      Pow2Values();
      out := Ssat(acc / 0x8000, 16);
      state[1] := state[0];
      state[0] := x;
      state[2] := out;
      forall xs | old(Model()) == Run(gains, xs)
        ensures Model() == Run(gains, xs + [x])
      {
        RunStep(gains, xs, x);
      }
    }
  }

  // ---------- the incremental form is the positional law ----------

  function Sum(xs: seq<Int16>): int {
    if xs == [] then 0 else Sum(xs[..|xs| - 1]) + xs[|xs| - 1]
  }

  // The sample k before the last, zero before the start.
  function Past(xs: seq<Int16>, k: nat): int {
    if k < |xs| then xs[|xs| - 1 - k] else 0
  }

  // Kp*x[n] + Ki*(x[0] + ... + x[n]) + Kd*(x[n] - x[n-1])
  function Positional(g: Gains, xs: seq<Int16>): int {
    g.kp * Past(xs, 0) + g.ki * Sum(xs) + g.kd * (Past(xs, 0) - Past(xs, 1))
  }

  predicate Unsaturated(g: Gains, xs: seq<Int16>)
  {
    xs == [] ||
    var n := |xs| - 1;
    Unsaturated(g, xs[..n]) && -0x8000 <= Accumulate(g, Run(g, xs[..n]), xs[n]) / 0x8000 <= 0x7FFF
  }

  lemma {:induction false} StateIsPast(g: Gains, xs: seq<Int16>)
    ensures Run(g, xs).x1 == Past(xs, 0) && Run(g, xs).x2 == Past(xs, 1)
  {
    if xs != [] {
      StateIsPast(g, xs[..|xs| - 1]);
    }
  }

  // One sample adds exactly A0*x[n] + A1*x[n-1] + A2*x[n-2] to the positional law.
  lemma Telescope(g: Gains, xs: seq<Int16>)
    requires xs != []
    ensures var n := |xs| - 1;
            Positional(g, xs) == Positional(g, xs[..n])
              + g.A0() * xs[n] + g.A1() * Past(xs[..n], 0) + g.A2() * Past(xs[..n], 1)
  {
    var n := |xs| - 1;
    var x, x1, x2, s := xs[n], Past(xs[..n], 0), Past(xs[..n], 1), Sum(xs[..n]);
    assert Past(xs, 0) == x && Past(xs, 1) == x1 && Sum(xs) == s + x;
    assert g.ki * (s + x) == g.ki * s + g.ki * x;
    assert g.kd * (x - x1) == g.kd * x - g.kd * x1;
    assert g.kd * (x1 - x2) == g.kd * x1 - g.kd * x2;
  }

  // After any run of n samples without saturation the output is the positional law, less a
  // truncation of at least 0 and below n units in the last place.
  lemma {:induction false} IncrementalIsPositional(g: Gains, xs: seq<Int16>)
    requires Unsaturated(g, xs)
    ensures 0 <= Positional(g, xs) - 0x8000 * Run(g, xs).y1 <= |xs| * 0x7FFF
  {
    if xs != [] {
      var n := |xs| - 1;
      IncrementalIsPositional(g, xs[..n]);
      StateIsPast(g, xs[..n]);
      Telescope(g, xs);
      var acc := Accumulate(g, Run(g, xs[..n]), xs[n]);
      assert Run(g, xs).y1 == acc / 0x8000;
    }
  }
}
