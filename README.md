# redpid Modulate / Demodulate core in Dafny

This project models the per-clock arithmetic around the CORDIC rotator in the
redpid lock-in/PID gateware. The model has four parts:

- **The phase accumulator of `Modulate`.** This is the numerically controlled oscillator. It has two registers, the `stop` flag and the `freq_width`-bit phase `z`. The frequency word is 32 bits wide unless the block is built with another width.
- **The combinational glue of `Modulate` and `Demodulate`.** This covers the phase slice, the rotator's angle and x inputs, and the halved output.
- **The integer semantics of fixed-width signals.** Assignment to an n-bit signal keeps the low n bits, a signed signal reads them as two's complement, and `>>` on a signed value rounds towards minus infinity.
- **The bank-index table of the top level.** It is checked to be decodable and collision-free.

Files:

- `fixed_point.dfy` (module `FixedPoint`): powers of two, truncation, two's complement, bit slices, arithmetic shift, and the arithmetic lemmas about them.
- `nco.dfy` (module `Nco`): the accumulator.
  - The register pair is the datatype `NcoState`.
  - One clock edge is the function `Step`, and a run of edges is `Run`.
  - The class `PhaseAccumulator` has fields `z` and `stop`, a `Tick` method that commits both registers together from their previous values, and `RunTicks`, which drives several edges.
  - Lemmas about `Run`: the lag of `stop`, the closed-form ramp, restart after a stop, pinning at zero, and periodicity.
- `modulate.dfy` (module `Modulate`): the comb assignments of both blocks.
- `csr_map.dfy` (module `CsrMap`): the bank-index table.

Modelling conventions:

- **Register state.** Both registers start at 0, which is the hardware reset value. All registers commit at once at a clock edge, so `z` is updated from the value `stop` held before the edge. A change of the frequency word to or from 0 therefore reaches `z` one edge late.
- **Phase slice.** The slice `z[-width:]` follows list-slice bounds: it starts at bit `max(freq_width - width, 0)`.
- **Port widths.** The rotator is built with `width + 1`-bit ports. We assume these ports are signed, as in the usual CORDIC core. The x and y samples are taken as signed `width`-bit values. The `amp`, `delay` and `freq` registers and the `phase` signal are unsigned.
- **Rotator output.** The rotator's output `xo` enters as a parameter.

Consequences of the registered `stop` flag, which a design that tested `freq == 0` directly would not have:

- The code latches `freq == 0` into the `stop` register (gateware/modulate.py:55-56) before it decides between clearing and accumulating `z`, so that choice lags the frequency word by one edge (`Nco.StopLags`, `Nco.ZLags`).
- When `freq` becomes 0, `z` is not 0 on every following edge: the first such edge still adds 0, leaving `z` unchanged, and only the second clears it (`Nco.PinnedAtZero`).
- Coming out of a stop, `z` holds 0 for one more edge before it ramps (`Nco.Restart`).

## Model

| member | source | states |
|---|---|---|
| Nco.Step | gateware/modulate.py:53-62 | one clock edge always leaves `z` inside its `freq_width`-bit register |
| Nco.Run | gateware/modulate.py:53-62 | any run of edges from a valid state keeps `z` inside its register |
| Nco.PhaseAccumulator.constructor | gateware/modulate.py:45-54 | both registers come up as 0 (`z = 0`, `stop` clear); the width defaults to 32 bits, as the block's `freq_width` does |
| Nco.PhaseAccumulator.Tick | gateware/modulate.py:53-62 | new `stop` is `freq == 0`; new `z` is 0 if the old `stop` was set, else `(z + freq) mod 2^freq_width`; when running, the new `z` is `z + freq` or `z + freq - 2^freq_width` (the carry dropped); the register invariant is kept; the new state is `Step` of the old one |
| Nco.PhaseAccumulator.RunTicks | gateware/modulate.py:55-62 | after one edge per frequency word, the registers equal `Run` of the starting registers over those words |
| Nco.StopLags | gateware/modulate.py:55-56 | after any non-empty run, `stop` is whether the last word seen was 0, whatever came before |
| Nco.ZLags | gateware/modulate.py:55-60 | at edge i >= 1, `z` is cleared exactly when word i-1 was 0, and otherwise accumulates word i modulo 2^freq_width |
| Nco.ResetWhenStopped | gateware/modulate.py:57-58 | with `stop` set, the next `z` is 0, independent of the previous `z` and of the frequency word |
| Nco.AccumulateWhenRunning | gateware/modulate.py:59-60 | with `stop` clear, the next `z` is `z + freq` if that fits, else `z + freq - 2^freq_width` (the carry is dropped) |
| Nco.Ramp | gateware/modulate.py:55-60 | from reset, holding `freq = F != 0` for k edges gives `z = k*F mod 2^freq_width` with `stop` clear |
| Nco.Restart | gateware/modulate.py:55-60 | from any state, j >= 1 edges of word 0 then k >= 1 edges of `F != 0` give `z = (k-1)*F mod 2^freq_width`: the phase restarts from 0 and does not resume |
| Nco.PinnedAtZero | gateware/modulate.py:55-60 | holding `freq = 0` sets `stop`; after the first edge `z` is unchanged (0 if it was already stopped), and from the second edge on `z` is 0 |
| Nco.RampPeriodic | gateware/modulate.py:53-60 | the ramp from reset repeats after 2^freq_width edges |
| FixedPoint.Wrap | gateware/modulate.py:60 | what an unsigned n-bit signal holds after an assignment: a value below 2^n that differs from the assigned value by a multiple of 2^n (the carry of `z + freq` is dropped this way) |
| FixedPoint.AssignSigned | gateware/modulate.py:70 | what a signed n-bit signal holds after an assignment: a value of the n-bit two's-complement range; `FixedPoint.AssignSignedExact` adds that it agrees with the assigned value modulo 2^n, and equals it exactly when that value is in range |
| FixedPoint.ShiftRight1 | gateware/modulate.py:72 | `>> 1` on a signed value: the result `r` satisfies `2r <= v <= 2r + 1`, i.e. floor halving |
| Modulate.SliceStart | gateware/modulate.py:69 | the slice `z[-width:]` starts at a bit inside `z` and keeps `width` bits, or all `freq_width` bits of `z` when `z` is narrower than `phase` (the start is clipped to bit 0) |
| Modulate.ModulateAngle | gateware/modulate.py:71 | Modulate's angle port holds a signed `(width+1)`-bit value; `Modulate.ModulateAngleExact` gives its pattern |
| Modulate.DemodulateAngle | gateware/modulate.py:39 | Demodulate's angle port holds a signed `(width+1)`-bit value; `Modulate.DemodulateAngleWraps` gives its pattern |
| Modulate.ModulateXIn | gateware/modulate.py:70 | Modulate's x port holds a signed `(width+1)`-bit value; `Modulate.ModulateXInExact` gives it exactly |
| Modulate.DemodulateXIn | gateware/modulate.py:38 | Demodulate's x port holds a signed `(width+1)`-bit value; `Modulate.DemodulateXInExact` shows it is the sample |
| Modulate.Output | gateware/modulate.py:72 | `y` of both blocks (line 40 for Demodulate) always fits the signed `width`-bit sample; `Modulate.OutputHalves` shows it is `xo` halved |
| Modulate.Phase | gateware/modulate.py:69 | `phase` lies in [0, 2^width) |
| Modulate.PhaseIsTopBits | gateware/modulate.py:69 | when `freq_width >= width`: `phase = z div 2^(freq_width - width)`, and `z = phase * 2^(freq_width - width) + z mod 2^(freq_width - width)` |
| Modulate.PhaseOfNarrowAccumulator | gateware/modulate.py:69 | when `freq_width < width`: `phase = z`, because the slice is clipped to the whole of `z` |
| Modulate.ModulateAngleExact | gateware/modulate.py:64-71 | Modulate's `(width+1)`-bit angle pattern is exactly `2*phase`, with no truncation |
| Modulate.DemodulateAngleWraps | gateware/modulate.py:33-39 | Demodulate's `(width+1)`-bit angle pattern is `2*((phase + delay) mod 2^width)`: the carry of the sum is lost, so the angle wraps modulo one turn |
| Modulate.DelayRotatesReference | gateware/modulate.py:39 | Demodulate's angle equals Modulate's angle for the phase advanced by `delay` modulo one turn; with zero delay the two angles coincide |
| Modulate.ModulateXInExact | gateware/modulate.py:70 | the rotator's x input holds `amp + x` modulo 2^(width+1); it holds `amp + x` exactly if and only if `amp + x < 2^width`, and otherwise holds `amp + x - 2^(width+1)` |
| Modulate.DemodulateXInExact | gateware/modulate.py:38 | the rotator's x input holds the sample `x` unchanged (sign extension) |
| Modulate.OutputHalves | gateware/modulate.py:72 | in both blocks (line 40 for Demodulate), for any rotator output `xo` the port can carry, `y` is `xo` halved and rounded towards minus infinity (`2y <= xo <= 2y+1`), and it fits `y` without truncation |
| Modulate.ModulateRotatorInput | gateware/modulate.py:68-71 | both rotator inputs of Modulate fit the signed `(width+1)`-bit ports; the angle pattern is twice the phase slice of `z`; for in-range `amp` and `x` the x input is `amp + x` if and only if the sum is below 2^width |
| Modulate.DemodulateRotatorInput | gateware/modulate.py:37-39 | both rotator inputs of Demodulate fit the signed `(width+1)`-bit ports; the angle pattern is `2*((phase + delay) mod 2^width)`; for an in-range sample the x input is the sample itself |
| Modulate.ModulateAngleOfRamp | gateware/modulate.py:53-71 | from reset with `freq = F != 0` for k edges, Modulate's angle pattern is `2 * ((k*F mod 2^freq_width) div 2^(freq_width - width))` |
| CsrMap.Index | gateware/redpid.py:31-63 | each bank's index, as the table assigns it, is below 32 |
| CsrMap.IndexValid | gateware/redpid.py:25-63 | every bank index in the static table is below 32, and no two banks share an index |

## Left out

- The CORDIC rotator is not part of this model (cordic.py, imported at gateware/modulate.py:21, is not modelled). Its micro-rotations, arctangent table, gain, guard bits and pipeline latency of `width + 1` stages are absent. Only its port widths are used, and its x output is a parameter of `Modulate.Output`.
- The `Filter` base class (filter.py) is not modelled. Its `x` and `y` are taken to be signed `width`-bit samples. If they were unsigned, only the signed reading in `ModulateXIn`, `DemodulateXIn` and `Output` would change.
- Host writes to the `amp`, `delay` and `freq` registers, and the register bus behind them, are not modelled. The registers' current values are parameters of the functions and of `Tick`.
- `Nco.PhaseAccumulator.Tick` requires the frequency word to fit `freq_width` bits, because it is the content of a `freq_width`-bit register.
- The rest of gateware/redpid.py is not modelled, together with the modules it calls (pitaya_ps.py, pid.py, slow.py, xadc.py and the others it imports). This covers pin requests, the black-box scope and generator instances, bank generation, the interconnect, clock-domain crossing, cross-connect routing, and the control chains. From that file, only the bank-index table is modelled, with the bank names as an enumeration.
