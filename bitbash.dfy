/**
 * The shared-loop pulse scheduler of bitbash.c.
 *
 * A fixed table of drive records is updated in place by the control
 * operations (setup, play, stop) and by the busy-polling loop, which on every
 * pass adds the ticks elapsed since the previous pass to each active drive's
 * accumulator and, once the accumulator reaches the drive's wavelength, emits
 * one step pulse.  Pin writes are recorded as events instead of being sent to
 * the GPIO library.
 */
module BitBash {
  import opened Signals

  /** Number of slots in the record table (`fddmon[5]`). */
  const FDD_COUNT := 5

  /** One drive record (`struct FDDMon`); `wIndex` is the phase accumulator. */
  datatype FddMon = FddMon(
    index: int, direction: int, active: int, step: int, dir: int,
    wavelength: int, wIndex: int, state: int)

  /** One call of the GPIO write primitive: `pin` driven to `level`. */
  datatype PinWrite = PinWrite(pin: int, level: int)

  /** What the loop keeps true of every record it advances. */
  predicate Sane(m: FddMon)
  {
    && 0 <= m.index < REVERSAL_LIMIT
    && IsLevel(m.state) && IsLevel(m.direction)
    && 0 <= m.wIndex
  }

  /** Whether an active record emits a step pulse on a pass with `elapsed` ticks. */
  predicate Fires(m: FddMon, elapsed: int)
  {
    m.active != 0 && m.wIndex + elapsed >= m.wavelength
  }

  /**
   * One record during one pass of the polling loop: the record afterwards and
   * the pin writes made for it, in order.
   */
  function Advance(m: FddMon, elapsed: int): (r: (FddMon, seq<PinWrite>))
    // an inactive record is skipped entirely
    ensures m.active == 0 ==> r == (m, [])
    // pins, wavelength and the active flag are never touched by the loop
    ensures r.0.step == m.step && r.0.dir == m.dir
    ensures r.0.wavelength == m.wavelength && r.0.active == m.active
    // a pulse happens exactly when the accumulator reaches the wavelength;
    // the step pin gets the level from before the toggle, and the excess is dropped
    ensures Fires(m, elapsed) ==>
      && |r.1| >= 1 && r.1[0] == PinWrite(m.step, m.state)
      && r.0.wIndex == 0 && r.0.state == Not(m.state)
    ensures !Fires(m, elapsed) ==>
      r.1 == [] && r.0.state == m.state && r.0.index == m.index && r.0.direction == m.direction
      && (m.active != 0 ==> r.0.wIndex == m.wIndex + elapsed)
    // at most one pulse and one direction write per record and pass; the
    // direction write carries the level from before the flip
    ensures |r.1| <= 2
    ensures |r.1| == 2 <==> Fires(m, elapsed) && m.index + 1 == REVERSAL_LIMIT
    ensures |r.1| == 2 ==>
      r.1[1] == PinWrite(m.dir, m.direction) && r.0.direction == Not(m.direction) && r.0.index == 0
    ensures Fires(m, elapsed) && m.index + 1 != REVERSAL_LIMIT ==>
      r.0.index == m.index + 1 && r.0.direction == m.direction
    // the loop keeps every record sane, and after a pass an active record is
    // strictly below its wavelength
    ensures Sane(m) && elapsed >= 0 ==> Sane(r.0)
    ensures Sane(m) && elapsed >= 0 && m.active != 0 && m.wavelength > 0 ==>
      0 <= r.0.wIndex < m.wavelength
  {
    if m.active == 0 then (m, [])
    else
      var acc := m.(wIndex := m.wIndex + elapsed);
      if acc.wIndex < acc.wavelength then (acc, [])
      else
        var pulsed := acc.(wIndex := 0, state := Not(acc.state), index := acc.index + 1);
        if pulsed.index == REVERSAL_LIMIT then
          (pulsed.(index := 0, direction := Not(pulsed.direction)),
           [PinWrite(m.step, m.state), PinWrite(m.dir, m.direction)])
        else (pulsed, [PinWrite(m.step, m.state)])
  }

  /**
   * One whole pass over a table of records: each record advanced in order of
   * its slot, and the pin writes of slot 0 first, then slot 1, and so on.
   */
  function Pass(ms: seq<FddMon>, elapsed: int): (r: (seq<FddMon>, seq<PinWrite>))
    ensures |r.0| == |ms|
    ensures forall x :: 0 <= x < |ms| ==> r.0[x] == Advance(ms[x], elapsed).0
    ensures |r.1| <= 2 * |ms|
    ensures (forall x :: 0 <= x < |ms| ==> ms[x].active == 0) ==> r == (ms, [])
    decreases |ms|
  {
    if ms == [] then ([], [])
    else
      var prev := Pass(ms[..|ms| - 1], elapsed);
      var last := Advance(ms[|ms| - 1], elapsed);
      assert ms == ms[..|ms| - 1] + [ms[|ms| - 1]];
      (prev.0 + [last.0], prev.1 + last.1)
  }

  /**
   * The pin writes of a pass over a table split at any slot are those of the
   * lower slots followed by those of the upper slots: channels are visited
   * in ascending order.
   */
  lemma {:induction false} PassInChannelOrder(lo: seq<FddMon>, hi: seq<FddMon>, elapsed: int)
    ensures Pass(lo + hi, elapsed).1 == Pass(lo, elapsed).1 + Pass(hi, elapsed).1
    decreases |hi|
  {
    if hi == [] {
      assert lo + hi == lo;
    } else {
      var init, last := hi[..|hi| - 1], hi[|hi| - 1];
      assert lo + hi == (lo + init) + [last];
      assert init + [last] == hi;
      PassAppend(lo + init, last, elapsed);
      PassAppend(init, last, elapsed);
      PassInChannelOrder(lo, init, elapsed);
      Regroup(Pass(lo, elapsed).1, Pass(init, elapsed).1, Advance(last, elapsed).1);
    }
  }

  lemma Regroup(a: seq<PinWrite>, b: seq<PinWrite>, c: seq<PinWrite>)
    ensures (a + b) + c == a + (b + c)
  {
  }

  /** A pass over one more slot ends with that slot's writes. */
  lemma PassAppend(ms: seq<FddMon>, m: FddMon, elapsed: int)
    ensures Pass(ms + [m], elapsed).1 == Pass(ms, elapsed).1 + Advance(m, elapsed).1
  {
    assert (ms + [m])[..|ms|] == ms;
  }

  /** Extending the table by one slot extends the pass by that slot's record. */
  lemma PassStep(ms: seq<FddMon>, x: nat, elapsed: int)
    requires x < |ms|
    ensures Pass(ms[..x + 1], elapsed).0 == Pass(ms[..x], elapsed).0 + [Advance(ms[x], elapsed).0]
    ensures Pass(ms[..x + 1], elapsed).1 == Pass(ms[..x], elapsed).1 + Advance(ms[x], elapsed).1
  {
    assert ms[..x + 1][..x] == ms[..x];
  }

  /** A pass keeps every record of the table sane. */
  lemma PassKeepsSane(ms: seq<FddMon>, elapsed: int)
    requires elapsed >= 0
    requires forall x :: 0 <= x < |ms| ==> Sane(ms[x])
    ensures forall x :: 0 <= x < |Pass(ms, elapsed).0| ==> Sane(Pass(ms, elapsed).0[x])
  {
    var r := Pass(ms, elapsed);
    forall x | 0 <= x < |r.0| ensures Sane(r.0[x]) {
      assert r.0[x] == Advance(ms[x], elapsed).0;
    }
  }

  /**
   * `n` consecutive passes over one record, each one tick after the previous:
   * the record afterwards and the number of step pulses it emitted.
   */
  function RunTicks(m: FddMon, n: nat): (r: (FddMon, nat))
    ensures r.1 <= n
    ensures r.0.wavelength == m.wavelength && r.0.active == m.active
  {
    if n == 0 then (m, 0)
    else
      var prev := RunTicks(m, n - 1);
      (Advance(prev.0, 1).0, prev.1 + if Fires(prev.0, 1) then 1 else 0)
  }

  /** Running `a` passes and then `b` more is running `a + b` passes. */
  lemma {:induction false} RunTicksAdditive(m: FddMon, a: nat, b: nat)
    ensures RunTicks(m, a + b).0 == RunTicks(RunTicks(m, a).0, b).0
    ensures RunTicks(m, a + b).1 == RunTicks(m, a).1 + RunTicks(RunTicks(m, a).0, b).1
    decreases b
  {
    if b > 0 {
      RunTicksAdditive(m, a, b - 1);
    }
  }

  /**
   * Right after a pulse (accumulator 0), with one tick per pass, the next
   * pulse comes exactly `wavelength` passes later and none before it.
   */
  lemma {:induction false} PulseSpacing(m: FddMon, j: nat)
    requires m.active != 0 && m.wavelength > 0 && m.wIndex == 0
    requires j <= m.wavelength
    ensures RunTicks(m, j).1 == (if j == m.wavelength then 1 else 0)
    ensures RunTicks(m, j).0.wIndex == (if j == m.wavelength then 0 else j)
  {
    if j > 0 {
      PulseSpacing(m, j - 1);
    }
  }

  lemma MulSucc(k: nat, w: nat)
    ensures k * w + w == (k + 1) * w
  {
  }

  /**
   * Starting right after a pulse, `k * wavelength` one-tick passes emit
   * exactly `k` pulses and end right after a pulse again.
   */
  lemma {:induction false} PulseCount(m: FddMon, k: nat)
    requires m.active != 0 && m.wavelength > 0 && m.wIndex == 0
    ensures RunTicks(m, k * m.wavelength).1 == k
    ensures RunTicks(m, k * m.wavelength).0.wIndex == 0
  {
    if k > 0 {
      var w := m.wavelength;
      var before := (k - 1) * w;
      MulSucc(k - 1, w);
      PulseCount(m, k - 1);
      var mid := RunTicks(m, before);
      RunTicksAdditive(m, before, w);
      PulseSpacing(mid.0, w);
    }
  }

  /**
   * `play_fdd` primes the accumulator with the wavelength: with one tick per
   * pass the first pulse comes on the very next pass and then every
   * `wavelength` passes, so `1 + k * w` passes give `k + 1` pulses.
   */
  lemma PrimedPulses(m: FddMon, w: int, k: nat)
    requires w > 0
    ensures RunTicks(m.(active := 1, wIndex := w, wavelength := w), 1 + k * w).1 == k + 1
  {
    var p := m.(active := 1, wIndex := w, wavelength := w);
    assert Fires(p, 1);
    RunTicksAdditive(p, 1, k * w);
    PulseCount(RunTicks(p, 1).0, k);
  }

  /**
   * `setup_fddmon`: zeroes the oscillator state of one record, binds its pins
   * and drives both pins low.
   */
  method SetupFddmon(fddmon: array<FddMon>, token: int, step: int, dir: int)
    returns (writes: seq<PinWrite>)
    requires 0 <= token < fddmon.Length
    modifies fddmon
    ensures writes == [PinWrite(step, 0), PinWrite(dir, 0)]
    ensures fddmon[token] == old(fddmon[token]).(
      index := 0, wIndex := 0, direction := 0, active := 0, state := 0, step := step, dir := dir)
    ensures Sane(fddmon[token])
    ensures forall x :: 0 <= x < fddmon.Length && x != token ==> fddmon[x] == old(fddmon[x])
  {
    writes := [PinWrite(step, 0), PinWrite(dir, 0)];
    fddmon[token] := fddmon[token].(index := 0);
    fddmon[token] := fddmon[token].(wIndex := 0);
    fddmon[token] := fddmon[token].(direction := 0);
    fddmon[token] := fddmon[token].(active := 0);
    fddmon[token] := fddmon[token].(state := 0);
    fddmon[token] := fddmon[token].(step := step);
    fddmon[token] := fddmon[token].(dir := dir);
  }

  /**
   * `play_fdd`: activates one record with a new wavelength and primes its
   * accumulator so that the next pass pulses whatever the elapsed time.
   */
  method PlayFdd(fddmon: array<FddMon>, token: int, wavelength: int)
    requires 0 <= token < fddmon.Length
    modifies fddmon
    ensures fddmon[token] == old(fddmon[token]).(active := 1, wIndex := wavelength, wavelength := wavelength)
    ensures forall elapsed :: elapsed >= 0 ==> Fires(fddmon[token], elapsed)
    ensures forall x :: 0 <= x < fddmon.Length && x != token ==> fddmon[x] == old(fddmon[x])
  {
    fddmon[token] := fddmon[token].(active := 1);
    fddmon[token] := fddmon[token].(wIndex := wavelength);
    fddmon[token] := fddmon[token].(wavelength := wavelength);
  }

  /**
   * `stop_fdd`: deactivates one record and nothing else, so the step count,
   * direction, level and accumulator survive until the next `play_fdd`.
   */
  method StopFdd(fddmon: array<FddMon>, token: int)
    requires 0 <= token < fddmon.Length
    modifies fddmon
    ensures fddmon[token] == old(fddmon[token]).(active := 0)
    ensures forall elapsed :: Advance(fddmon[token], elapsed) == (fddmon[token], [])
    ensures forall x :: 0 <= x < fddmon.Length && x != token ==> fddmon[x] == old(fddmon[x])
  {
    fddmon[token] := fddmon[token].(active := 0);
  }

  /**
   * One pass of the polling loop of `_play_fdd_loop`, given the ticks elapsed
   * since the previous pass.  Records are updated field by field in place.
   */
  method PlayFddLoopPass(fddmon: array<FddMon>, elapsed: int) returns (writes: seq<PinWrite>)
    requires fddmon.Length == FDD_COUNT
    modifies fddmon
    ensures (fddmon[..], writes) == Pass(old(fddmon[..]), elapsed)
  {
    ghost var before := fddmon[..];
    writes := [];
    for x := 0 to FDD_COUNT
      invariant fddmon[x..] == before[x..]
      invariant (fddmon[..x], writes) == Pass(before[..x], elapsed)
    {
      ghost var done := fddmon[..x];
      ghost var writesBefore := writes;
      var mon, emitted := AdvanceRecord(fddmon[x], elapsed);
      writes := writes + emitted;
      fddmon[x] := mon;
      assert fddmon[..x + 1] == done + [mon];
      PassSnoc(before, x, elapsed, done, writesBefore, mon, emitted);
    }
    assert before[..FDD_COUNT] == before;
    assert fddmon[..FDD_COUNT] == fddmon[..];
  }

  /** The body of the polling loop for one record: its fields updated one by one. */
  method AdvanceRecord(m: FddMon, elapsed: int) returns (mon: FddMon, emitted: seq<PinWrite>)
    ensures (mon, emitted) == Advance(m, elapsed)
  {
    mon := m;
    emitted := [];
    if mon.active != 0 {
      mon := mon.(wIndex := mon.wIndex + elapsed);
      if mon.wIndex >= mon.wavelength {
        mon := mon.(wIndex := 0);
        emitted := [PinWrite(mon.step, mon.state)];
        mon := mon.(state := Not(mon.state));
        mon := mon.(index := mon.index + 1);
        if mon.index == REVERSAL_LIMIT {
          mon := mon.(index := 0);
          emitted := emitted + [PinWrite(mon.dir, mon.direction)];
          mon := mon.(direction := Not(mon.direction));
          assert emitted == [PinWrite(m.step, m.state), PinWrite(m.dir, m.direction)];
        }
      }
    }
  }

  /** Advancing slot `x` after the pass over the lower slots is the pass over one more slot. */
  lemma PassSnoc(ms: seq<FddMon>, x: nat, elapsed: int, done: seq<FddMon>, writes: seq<PinWrite>,
                 mon: FddMon, emitted: seq<PinWrite>)
    requires x < |ms| && (done, writes) == Pass(ms[..x], elapsed)
    requires (mon, emitted) == Advance(ms[x], elapsed)
    ensures (done + [mon], writes + emitted) == Pass(ms[..x + 1], elapsed)
  {
    PassStep(ms, x, elapsed);
  }
}
