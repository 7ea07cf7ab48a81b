/** The phase accumulator (numerically controlled oscillator) of the Modulate block:
    two registers, `stop` and the freqWidth-bit phase `z`, both committed at every
    clock edge from the values they held before it. */
module Nco {
  import opened FixedPoint

  /** Width of the frequency word and of `z` when the block is built without one. */
  const DefaultFreqWidth: nat := 32

  /** The two registers of the accumulator. */
  datatype NcoState = NcoState(z: nat, stop: bool)

  /** `z` fits its freqWidth-bit register. */
  predicate Valid(freqWidth: nat, s: NcoState)
  {
    s.z < Pow2(freqWidth)
  }

  /** Both registers come up as 0 (z = 0, stop clear). */
  const Reset: NcoState := NcoState(0, false)

  /** One clock edge with frequency word `freq` on the register's output. `stop`
      latches `freq == 0`; `z` is cleared if the OLD `stop` was set, and otherwise
      takes `z + freq` without its carry. */
  function Step(freqWidth: nat, s: NcoState, freq: nat): (r: NcoState)
    ensures Valid(freqWidth, r)
  {
    NcoState(if s.stop then 0 else Wrap(s.z + freq, freqWidth), freq == 0)
  }

  /** The registers after one clock edge per entry of `freqs`, in order. */
  function Run(freqWidth: nat, s: NcoState, freqs: seq<nat>): (r: NcoState)
    ensures Valid(freqWidth, s) ==> Valid(freqWidth, r)
    decreases |freqs|
  {
    if freqs == [] then s
    else Step(freqWidth, Run(freqWidth, s, freqs[..|freqs| - 1]), freqs[|freqs| - 1])
  }

  /** The frequency word held at f for k clock edges. */
  function Repeat(f: nat, k: nat): (r: seq<nat>)
    ensures |r| == k && forall i :: 0 <= i < k ==> r[i] == f
  {
    seq(k, _ => f)
  }

  /** The accumulator as a register pair updated in place. */
  class PhaseAccumulator {
    const freqWidth: nat
    var z: nat
    var stop: bool

    ghost predicate Valid()
      reads this
    {
      z < Pow2(freqWidth)
    }

    /** The current register values. */
    function Current(): (s: NcoState)
      reads this
      ensures s.z == z && s.stop == stop
    {
      NcoState(z, stop)
    }

    constructor (freqWidth: nat := DefaultFreqWidth)
      ensures this.freqWidth == freqWidth && Valid()
      ensures Current() == Reset
    {
      this.freqWidth := freqWidth;
      z, stop := 0, false;
    }

    /** One clock edge. `freq` is the value of the freqWidth-bit frequency register.
        Both right-hand sides are evaluated from the registers as they were before
        the edge. */
    method Tick(freq: nat)
      requires Valid() && freq < Pow2(freqWidth)
      modifies this
      ensures Valid()
      ensures stop == (freq == 0)
      ensures z == if old(stop) then 0 else (old(z) + freq) % Pow2(freqWidth)
      ensures !old(stop) ==> z == old(z) + freq || z == old(z) + freq - Pow2(freqWidth)
      ensures Current() == Step(freqWidth, old(Current()), freq)
    {
      if !stop {
        AccumulateWhenRunning(freqWidth, z, freq);
      }
      z, stop := if stop then 0 else (z + freq) % Pow2(freqWidth), freq == 0;
    }

    /** |freqs| clock edges, the register holding freqs[i] at the i-th. */
    method RunTicks(freqs: seq<nat>)
      requires Valid() && forall i :: 0 <= i < |freqs| ==> freqs[i] < Pow2(freqWidth)
      modifies this
      ensures Valid()
      ensures Current() == Run(freqWidth, old(Current()), freqs)
    {
      ghost var start := Current();
      for i := 0 to |freqs|
        invariant Valid()
        invariant Current() == Run(freqWidth, start, freqs[..i])
      {
        assert freqs[..i + 1][..i] == freqs[..i];
        Tick(freqs[i]);
      }
      assert freqs[..|freqs|] == freqs;
    }
  }

  /** Running over a concatenation is running over each part in turn. */
  lemma {:induction false} RunAppend(freqWidth: nat, s: NcoState, a: seq<nat>, b: seq<nat>)
    ensures Run(freqWidth, s, a + b) == Run(freqWidth, Run(freqWidth, s, a), b)
    decreases |b|
  {
    if b != [] {
      var b' := b[..|b| - 1];
      assert (a + b)[..|a + b| - 1] == a + b';
      RunAppend(freqWidth, s, a, b');
    } else {
      assert a + b == a;
    }
  }

  /** The stop flag lags the frequency word by one clock edge: after any non-empty
      run it holds whether the LAST word was zero, whatever the earlier words and the
      starting state. */
  lemma StopLags(freqWidth: nat, s: NcoState, freqs: seq<nat>)
    requires |freqs| >= 1
    ensures Run(freqWidth, s, freqs).stop == (freqs[|freqs| - 1] == 0)
  {
  }

  /** So `z` reacts to a zero frequency word one edge late: at edge i >= 1 it is
      cleared exactly when word i-1 was zero, and otherwise accumulates word i. */
  lemma ZLags(freqWidth: nat, s: NcoState, freqs: seq<nat>, i: nat)
    requires 1 <= i < |freqs|
    ensures Run(freqWidth, s, freqs[..i + 1]).z ==
      if freqs[i - 1] == 0 then 0 else Wrap(Run(freqWidth, s, freqs[..i]).z + freqs[i], freqWidth)
  {
    assert freqs[..i + 1][..i] == freqs[..i];
    StopLags(freqWidth, s, freqs[..i]);
  }

  /** With stop set, the next `z` is 0 whatever `z` and the frequency word were. */
  lemma ResetWhenStopped(freqWidth: nat, z1: nat, z2: nat, f1: nat, f2: nat)
    ensures Step(freqWidth, NcoState(z1, true), f1).z == 0
    ensures Step(freqWidth, NcoState(z1, true), f1).z == Step(freqWidth, NcoState(z2, true), f2).z
  {
  }

  /** With stop clear, `z` advances by the frequency word modulo 2^freqWidth. */
  lemma AccumulateWhenRunning(freqWidth: nat, z: nat, f: nat)
    requires z < Pow2(freqWidth) && f < Pow2(freqWidth)
    ensures Step(freqWidth, NcoState(z, false), f).z ==
      if z + f < Pow2(freqWidth) then z + f else z + f - Pow2(freqWidth)
  {
    if z + f < Pow2(freqWidth) {
      ModUnique(z + f, Pow2(freqWidth), 0, z + f);
    } else {
      ModUnique(z + f, Pow2(freqWidth), 1, z + f - Pow2(freqWidth));
    }
  }

  /** Closed-form ramp: from the reset state, holding a non-zero word F for k edges
      leaves z = k*F mod 2^freqWidth, with stop clear. */
  lemma {:induction false} Ramp(freqWidth: nat, f: nat, k: nat)
    requires f != 0
    ensures Run(freqWidth, Reset, Repeat(f, k)) == NcoState(Wrap(k * f, freqWidth), false)
  {
    if k > 0 {
      var before := (k - 1) * f;
      assert before + f == k * f;
      assert Repeat(f, k)[..k - 1] == Repeat(f, k - 1);
      Ramp(freqWidth, f, k - 1);
      var prev := Run(freqWidth, Reset, Repeat(f, k - 1));
      assert Run(freqWidth, Reset, Repeat(f, k)) == Step(freqWidth, prev, f);
      WrapAdd(before, f, freqWidth);
      assert Wrap(prev.z + f, freqWidth) == Wrap(k * f, freqWidth);
    } else {
      assert Repeat(f, 0) == [];
      ModUnique(0, Pow2(freqWidth), 0, 0);
    }
  }

  /** Leaving a stop: whatever the state before, after j >= 1 edges with word 0 and
      then k >= 1 edges with a non-zero word F, z = (k-1)*F mod 2^freqWidth. The phase
      restarts from zero rather than resuming, and holds 0 one extra edge first. */
  lemma Restart(freqWidth: nat, s: NcoState, j: nat, f: nat, k: nat)
    requires j >= 1 && f != 0 && k >= 1
    ensures Run(freqWidth, s, Repeat(0, j) + Repeat(f, k)) == NcoState(Wrap((k - 1) * f, freqWidth), false)
  {
    RunAppend(freqWidth, s, Repeat(0, j), Repeat(f, k));
    StopLags(freqWidth, s, Repeat(0, j));
    var stopped := Run(freqWidth, s, Repeat(0, j));
    assert Repeat(f, k) == [f] + Repeat(f, k - 1);
    RunAppend(freqWidth, stopped, [f], Repeat(f, k - 1));
    assert [f][..0] == [];
    assert Run(freqWidth, stopped, [f]) == Reset;
    Ramp(freqWidth, f, k - 1);
  }

  /** Pinned at zero: holding word 0, the first edge adds 0 (z unchanged unless stop
      was already set) and sets stop; from the second edge on z is 0. */
  lemma {:induction false} PinnedAtZero(freqWidth: nat, s: NcoState, k: nat)
    requires Valid(freqWidth, s) && k >= 1
    ensures Run(freqWidth, s, Repeat(0, k)).stop
    ensures Run(freqWidth, s, Repeat(0, k)).z == if k == 1 && !s.stop then s.z else 0
  {
    assert Repeat(0, k)[..k - 1] == Repeat(0, k - 1);
    if k == 1 {
      ModUnique(s.z, Pow2(freqWidth), 0, s.z);
    } else {
      PinnedAtZero(freqWidth, s, k - 1);
    }
  }

  /** The ramp repeats after 2^freqWidth edges. */
  lemma RampPeriodic(freqWidth: nat, f: nat, k: nat)
    requires f != 0
    ensures Run(freqWidth, Reset, Repeat(f, k + Pow2(freqWidth))) == Run(freqWidth, Reset, Repeat(f, k))
  {
    Ramp(freqWidth, f, k + Pow2(freqWidth));
    Ramp(freqWidth, f, k);
    WrapPeriodMul(k, f, freqWidth);
  }

  lemma WrapPeriodMul(k: nat, f: nat, n: nat)
    ensures Wrap((k + Pow2(n)) * f, n) == Wrap(k * f, n)
  {
    var m := Pow2(n);
    assert (k + m) * f == k * f + f * m;
    WrapPeriod(k * f, f, n);
  }
}
