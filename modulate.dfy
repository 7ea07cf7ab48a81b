/** The combinational glue of the Demodulate and Modulate blocks around their shared
    rotator. `width` is the width of the blocks' x and y samples (two's complement);
    the rotator's ports are width+1 bits wide and signed. The rotator itself is not
    modelled: its output xo enters as a parameter. */
module Modulate {
  import opened FixedPoint
  import Nco

  /** The inputs presented to the rotator on one clock cycle, as the signed
      (width+1)-bit values its ports hold. */
  datatype RotatorInput = RotatorInput(xi: int, zi: int)

  /** Lowest bit of `z` kept by the slice z[-width:]. Like a list slice, a negative start
      reaching past the left end of the signal is clipped to bit 0. */
  function SliceStart(freqWidth: nat, width: nat): (lo: nat)
    ensures lo <= freqWidth
    ensures freqWidth - lo == if freqWidth >= width then width else freqWidth
  {
    if freqWidth >= width then freqWidth - width else 0
  }

  /** The unsigned width-bit `phase` signal driven from the top bits of the accumulator. */
  function Phase(z: nat, freqWidth: nat, width: nat): (p: nat)
    ensures p < Pow2(width)
  {
    Wrap(Slice(z, SliceStart(freqWidth, width), freqWidth), width)
  }

  /** For an accumulator at least as wide as the phase, `phase` is `z` shifted right by
      the surplus bits, and the bits dropped are exactly the low ones. */
  lemma PhaseIsTopBits(z: nat, freqWidth: nat, width: nat)
    requires width <= freqWidth && z < Pow2(freqWidth)
    ensures Phase(z, freqWidth, width) == z / Pow2(freqWidth - width)
    ensures z == Phase(z, freqWidth, width) * Pow2(freqWidth - width) + z % Pow2(freqWidth - width)
  {
    var lo := freqWidth - width;
    SliceTop(z, lo, freqWidth);
    var sl := Slice(z, lo, freqWidth);
    assert freqWidth - lo == width;
    ModUnique(sl, Pow2(width), 0, sl);
  }

  /** For an accumulator narrower than the phase, the whole of `z` is zero-extended. */
  lemma PhaseOfNarrowAccumulator(z: nat, freqWidth: nat, width: nat)
    requires freqWidth < width && z < Pow2(freqWidth)
    ensures Phase(z, freqWidth, width) == z
  {
    SliceTop(z, 0, freqWidth);
    assert z / Pow2(0) == z;
    Pow2Monotone(freqWidth, width);
    ModUnique(z, Pow2(width), 0, z);
  }

  /** Angle input of Modulate: `phase << 1` assigned to the (width+1)-bit port. */
  function ModulateAngle(phase: nat, width: nat): (zi: int)
    ensures InSigned(zi, width + 1)
  {
    AssignSigned(phase * 2, width + 1)
  }

  /** Angle input of Demodulate: `(phase + delay) << 1` assigned to the (width+1)-bit
      port, which drops the carry of the sum. */
  function DemodulateAngle(phase: nat, delay: nat, width: nat): (zi: int)
    ensures InSigned(zi, width + 1)
  {
    AssignSigned((phase + delay) * 2, width + 1)
  }

  /** Doubling a width-bit angle and keeping width+1 bits is reduction modulo one turn. */
  lemma DoubleWraps(v: nat, width: nat)
    ensures Wrap(v * 2, width + 1) == 2 * Wrap(v, width)
  {
    var m := Pow2(width);
    assert Pow2(width + 1) == 2 * m;
    var q, r := v / m, v % m;
    assert v * 2 == q * (2 * m) + 2 * r;
    ModUnique(v * 2, 2 * m, q, 2 * r);
  }

  /** Modulate's angle pattern is twice the phase: the shift never truncates. */
  lemma ModulateAngleExact(phase: nat, width: nat)
    requires phase < Pow2(width)
    ensures Wrap(ModulateAngle(phase, width), width + 1) == 2 * phase
  {
    AssignSignedExact(phase * 2, width + 1);
    DoubleWraps(phase, width);
    ModUnique(phase, Pow2(width), 0, phase);
  }

  /** Demodulate's angle pattern is twice (phase + delay) reduced modulo one turn. */
  lemma DemodulateAngleWraps(phase: nat, delay: nat, width: nat)
    ensures Wrap(DemodulateAngle(phase, delay, width), width + 1) == 2 * Wrap(phase + delay, width)
  {
    AssignSignedExact((phase + delay) * 2, width + 1);
    DoubleWraps(phase + delay, width);
  }

  /** The delay register rotates the reference: Demodulate presents the rotator with
      the angle Modulate would present for the phase advanced by `delay` modulo one
      turn. With zero delay both blocks present the same angle for the same phase. */
  lemma DelayRotatesReference(phase: nat, delay: nat, width: nat)
    ensures DemodulateAngle(phase, delay, width) == ModulateAngle(Wrap(phase + delay, width), width)
  {
    var w := Wrap(phase + delay, width);
    DoubleWraps(phase + delay, width);
    DoubleWraps(w, width);
    ModUnique(w, Pow2(width), 0, w);
  }

  /** x input of Modulate: the unsigned amplitude register plus the signed sample,
      assigned to the (width+1)-bit signed port. */
  function ModulateXIn(amp: nat, x: int, width: nat): (xi: int)
    requires width >= 1
    ensures InSigned(xi, width + 1)
  {
    AssignSigned(amp + x, width + 1)
  }

  /** The port always holds amp + x modulo 2^(width+1), and holds it exactly if and only
      if the sum stays below 2^width; a larger sum wraps to a negative value. */
  lemma ModulateXInExact(amp: nat, x: int, width: nat)
    requires width >= 1 && amp < Pow2(width) && InSigned(x, width)
    ensures Wrap(ModulateXIn(amp, x, width), width + 1) == Wrap(amp + x, width + 1)
    ensures ModulateXIn(amp, x, width) == amp + x <==> amp + x < Pow2(width)
    ensures amp + x >= Pow2(width) ==> ModulateXIn(amp, x, width) == amp + x - Pow2(width + 1)
  {
    AssignSignedExact(amp + x, width + 1);
    assert Pow2(width) == 2 * Pow2(width - 1);
    assert Pow2(width + 1) == 2 * Pow2(width);
    if amp + x >= Pow2(width) {
      ModUnique(amp + x, Pow2(width + 1), 0, amp + x);
    }
  }

  /** x input of Demodulate: the signed sample assigned to the wider signed port. */
  function DemodulateXIn(x: int, width: nat): (xi: int)
    requires width >= 1
    ensures InSigned(xi, width + 1)
  {
    AssignSigned(x, width + 1)
  }

  /** Sign extension into the wider port keeps the sample's value. */
  lemma DemodulateXInExact(x: int, width: nat)
    requires width >= 1 && InSigned(x, width)
    ensures DemodulateXIn(x, width) == x
  {
    assert Pow2(width) == 2 * Pow2(width - 1);
    AssignSignedExact(x, width + 1);
  }

  /** Output of both blocks: the rotator's x output shifted right by one into the
      width-bit signed y. */
  function Output(xo: int, width: nat): (y: int)
    requires width >= 1
    ensures InSigned(y, width)
  {
    AssignSigned(ShiftRight1(xo), width)
  }

  /** For any value the (width+1)-bit port can carry, y is xo halved and rounded towards
      minus infinity, with nothing lost to the narrower y. */
  lemma OutputHalves(xo: int, width: nat)
    requires width >= 1 && InSigned(xo, width + 1)
    ensures 2 * Output(xo, width) <= xo <= 2 * Output(xo, width) + 1
  {
    ShiftRight1Narrows(xo, width);
    AssignSignedExact(ShiftRight1(xo), width);
  }

  /** Everything Modulate feeds the rotator in one cycle, from the accumulator `z`,
      the amplitude register and the sample: the angle pattern is twice the phase
      slice of `z`, and the x input is amp + x unless that sum reaches 2^width. */
  function ModulateRotatorInput(freqWidth: nat, width: nat, z: nat, amp: nat, x: int): (r: RotatorInput)
    requires width >= 1
    ensures InSigned(r.xi, width + 1) && InSigned(r.zi, width + 1)
    ensures Wrap(r.zi, width + 1) == 2 * Phase(z, freqWidth, width)
    ensures amp < Pow2(width) && InSigned(x, width) ==> (r.xi == amp + x <==> amp + x < Pow2(width))
  {
    var p := Phase(z, freqWidth, width);
    ModulateAngleExact(p, width);
    var r := RotatorInput(ModulateXIn(amp, x, width), ModulateAngle(p, width));
    if amp < Pow2(width) && InSigned(x, width) then ModulateXInExact(amp, x, width); r else r
  }

  /** Everything Demodulate feeds the rotator in one cycle, from the external phase,
      the delay register and the sample: the angle pattern is twice (phase + delay)
      modulo one turn, and the x input is the sample itself. */
  function DemodulateRotatorInput(width: nat, phase: nat, delay: nat, x: int): (r: RotatorInput)
    requires width >= 1
    ensures InSigned(r.xi, width + 1) && InSigned(r.zi, width + 1)
    ensures Wrap(r.zi, width + 1) == 2 * Wrap(phase + delay, width)
    ensures InSigned(x, width) ==> r.xi == x
  {
    DemodulateAngleWraps(phase, delay, width);
    var r := RotatorInput(DemodulateXIn(x, width), DemodulateAngle(phase, delay, width));
    if InSigned(x, width) then DemodulateXInExact(x, width); r else r
  }

  /** From reset, with the frequency word held at F != 0 for k edges, Modulate's angle
      pattern is twice the top width bits of k*F mod 2^freqWidth. */
  lemma ModulateAngleOfRamp(freqWidth: nat, width: nat, f: nat, k: nat, amp: nat, x: int)
    requires 1 <= width <= freqWidth && f != 0
    ensures Wrap(ModulateRotatorInput(freqWidth, width,
                   Nco.Run(freqWidth, Nco.Reset, Nco.Repeat(f, k)).z, amp, x).zi, width + 1)
            == 2 * (Wrap(k * f, freqWidth) / Pow2(freqWidth - width))
  {
    Nco.Ramp(freqWidth, f, k);
    var z := Wrap(k * f, freqWidth);
    PhaseIsTopBits(z, freqWidth, width);
    ModulateAngleExact(Phase(z, freqWidth, width), width);
  }
}
