/**
 * The per-drive waveform stepper of lib.c.
 *
 * Each playing drive has its own loop that waits for the next duration of a
 * waveform table, then writes its step and direction pins, toggles its step
 * level and counts the step, reversing direction every 120 steps.  The table
 * of per-drive records (`fddmon[8]`) is shared with the control operations.
 * Pin writes and waits are recorded as events; one iteration of the loop is
 * one call of `LocalPlayIteration`.
 */
module WaveLoop {
  import opened Signals

  /** Number of slots in the record table (`fddmon[8]`). */
  const FDD_COUNT := 8

  /** One drive record (`struct FDDMon` of lib.c). */
  datatype FddMon = FddMon(index: int, direction: int, active: int)

  /** What the loop hands to the outside world: a pin write or a wait. */
  datatype Event = Write(pin: int, level: int) | Delay(duration: int)

  /** The argument record handed to a drive's loop (`struct FDDARGS`). */
  class FddArgs {
    var token: int
    var step: int
    var dir: int
    var wavesize: int
    var wave: array<int>

    constructor (token: int, step: int, dir: int, wavesize: int, wave: array<int>)
      ensures this.token == token && this.step == step && this.dir == dir
      ensures this.wavesize == wavesize && this.wave == wave
    {
      this.token := token;
      this.step := step;
      this.dir := dir;
      this.wavesize := wavesize;
      this.wave := wave;
    }
  }

  /**
   * The state one iteration of the loop works on: the loop's locals
   * `position` and `state`, and the drive's record.
   */
  datatype LoopState = LoopState(position: int, state: int, mon: FddMon)

  /** What the loop keeps true, for a table of `wavesize` durations. */
  predicate Sane(s: LoopState, wavesize: int)
  {
    && 0 <= s.position < wavesize
    && IsLevel(s.state) && IsLevel(s.mon.direction)
    && 0 <= s.mon.index < REVERSAL_LIMIT
  }

  /** The state a drive's loop starts from, given its record. */
  function Start(mon: FddMon): LoopState
  {
    LoopState(0, 0, mon.(active := 1))
  }

  /**
   * One iteration of the loop body: the state afterwards and the events of
   * that iteration, in order.
   */
  function Step(s: LoopState, step: int, dir: int, wave: seq<int>, wavesize: int): (r: (LoopState, seq<Event>))
    requires 0 < wavesize <= |wave| && 0 <= s.position < wavesize
    // first the wait for the current duration of the table, then the step
    // pin with the level from before the toggle, then the direction pin with
    // the direction from before the step is counted
    ensures |r.1| >= 3
    ensures r.1[0] == Delay(wave[s.position])
    ensures r.1[1] == Write(step, s.state) && r.1[2] == Write(dir, s.mon.direction)
    // the table is walked cyclically and the level toggles every time
    ensures r.0.position == (s.position + 1) % wavesize && r.0.state == Not(s.state)
    // a reversal happens exactly on the 120th counted step and announces the
    // new direction; otherwise the step is just counted
    ensures |r.1| == 4 <==> s.mon.index + 1 == REVERSAL_LIMIT
    ensures |r.1| == 4 ==>
      r.0.mon == s.mon.(index := 0, direction := Not(s.mon.direction))
      && r.1[3] == Write(dir, Not(s.mon.direction))
    ensures |r.1| == 3 ==> r.0.mon == s.mon.(index := s.mon.index + 1)
    ensures Sane(s, wavesize) ==> Sane(r.0, wavesize)
  {
    var delay := Delay(wave[s.position]);
    var position := (s.position + 1) % wavesize;
    var writes := [Write(step, s.state), Write(dir, s.mon.direction)];
    var counted := s.mon.(index := s.mon.index + 1);
    if counted.index == REVERSAL_LIMIT then
      var flipped := counted.(direction := Not(counted.direction), index := 0);
      (LoopState(position, Not(s.state), flipped), [delay] + writes + [Write(dir, flipped.direction)])
    else
      (LoopState(position, Not(s.state), counted), [delay] + writes)
  }

  /** `k` iterations of the loop body from `s`. */
  function Iterate(s: LoopState, step: int, dir: int, wave: seq<int>, wavesize: int, k: nat): (r: LoopState)
    requires 0 < wavesize <= |wave| && 0 <= s.position < wavesize
    ensures 0 <= r.position < wavesize
    ensures Sane(s, wavesize) ==> Sane(r, wavesize)
  {
    if k == 0 then s
    else Step(Iterate(s, step, dir, wave, wavesize, k - 1), step, dir, wave, wavesize).0
  }

  /**
   * From the start of the loop, the k-th iteration (counting from 0) waits
   * for `wave[k % wavesize]`: the table is cycled in order from its first
   * entry.  The level alternates 0, -1, 0, ... starting from 0.
   */
  lemma {:induction false} CyclesTable(mon: FddMon, step: int, dir: int, wave: seq<int>, wavesize: int, k: nat)
    requires 0 < wavesize <= |wave|
    ensures Iterate(Start(mon), step, dir, wave, wavesize, k).position == k % wavesize
    ensures Step(Iterate(Start(mon), step, dir, wave, wavesize, k), step, dir, wave, wavesize).1[0]
            == Delay(wave[k % wavesize])
    ensures Iterate(Start(mon), step, dir, wave, wavesize, k).state == (if k % 2 == 0 then 0 else -1)
  {
    if k > 0 {
      CyclesTable(mon, step, dir, wave, wavesize, k - 1);
      var prev := Iterate(Start(mon), step, dir, wave, wavesize, k - 1);
      var next := Step(prev, step, dir, wave, wavesize).0;
      assert Iterate(Start(mon), step, dir, wave, wavesize, k) == next;
      CycleStep(prev.position, prev.state, next.position, next.state, k - 1, wavesize);
    }
  }

  /** One iteration moves to the next table entry and the other level. */
  lemma CycleStep(p: int, level: int, p': int, level': int, k: nat, w: int)
    requires w > 0 && p == k % w && level == (if k % 2 == 0 then 0 else -1)
    requires p' == (p + 1) % w && level' == Not(level)
    ensures p' == (k + 1) % w && level' == (if (k + 1) % 2 == 0 then 0 else -1)
  {
    ModSucc(k, w);
    ParitySucc(k);
  }

  lemma ParitySucc(a: nat)
    ensures (a + 1) % 2 == 1 - a % 2
  {
  }

  /** Euclidean division is unique: quotient and remainder are determined. */
  lemma DivModUnique(a: int, m: int, q: int, r: int)
    requires m > 0 && a == q * m + r && 0 <= r < m
    ensures a % m == r && a / m == q
  {
    var q0, r0 := a / m, a % m;
    assert a == q0 * m + r0;
    assert (q - q0) * m == r0 - r;
    if q - q0 >= 1 {
      MulAtLeast(q - q0, m);
    } else if q0 - q >= 1 {
      MulAtLeast(q0 - q, m);
    }
  }

  lemma MulAtLeast(d: int, m: int)
    requires d >= 1 && m > 0
    ensures d * m >= m
  {
  }

  lemma ModSucc(a: nat, m: int)
    requires m > 0
    ensures (a % m + 1) % m == (a + 1) % m
  {
    var q, r := a / m, a % m;
    assert a == q * m + r;
    if r + 1 < m {
      DivModUnique(a + 1, m, q, r + 1);
      DivModUnique(r + 1, m, 0, r + 1);
    } else {
      assert a + 1 == (q + 1) * m + 0;
      DivModUnique(a + 1, m, q + 1, 0);
      DivModUnique(m, m, 1, 0);
    }
  }

  /**
   * The step counter after `k` iterations is the starting count plus `k`
   * taken modulo 120, and the direction has flipped once for every 120
   * steps counted.
   */
  lemma {:induction false} CountsSteps(s: LoopState, step: int, dir: int, wave: seq<int>, wavesize: int, k: nat)
    requires 0 < wavesize <= |wave| && Sane(s, wavesize)
    ensures Iterate(s, step, dir, wave, wavesize, k).mon.index == (s.mon.index + k) % REVERSAL_LIMIT
    ensures Iterate(s, step, dir, wave, wavesize, k).mon.direction ==
      (if ((s.mon.index + k) / REVERSAL_LIMIT) % 2 == 0 then s.mon.direction else Not(s.mon.direction))
    ensures Iterate(s, step, dir, wave, wavesize, k).mon.active == s.mon.active
  {
    if k > 0 {
      CountsSteps(s, step, dir, wave, wavesize, k - 1);
      var prev := Iterate(s, step, dir, wave, wavesize, k - 1);
      var next := Step(prev, step, dir, wave, wavesize).0;
      assert Iterate(s, step, dir, wave, wavesize, k) == next;
      CountStep(prev.mon, next.mon, s.mon.index + k - 1, s.mon.direction);
    }
  }

  /** One counted step advances the count and the direction by one step. */
  lemma CountStep(mon: FddMon, mon': FddMon, n: nat, d0: int)
    requires mon.index == n % REVERSAL_LIMIT
    requires mon.direction == (if (n / REVERSAL_LIMIT) % 2 == 0 then d0 else Not(d0))
    requires mon.index + 1 == REVERSAL_LIMIT ==> mon' == mon.(index := 0, direction := Not(mon.direction))
    requires mon.index + 1 != REVERSAL_LIMIT ==> mon' == mon.(index := mon.index + 1)
    ensures mon'.index == (n + 1) % REVERSAL_LIMIT && mon'.active == mon.active
    ensures mon'.direction == (if ((n + 1) / REVERSAL_LIMIT) % 2 == 0 then d0 else Not(d0))
  {
    DivModSucc(n);
    ParitySucc(n / REVERSAL_LIMIT);
  }

  lemma DivModSucc(n: nat)
    ensures (n % REVERSAL_LIMIT + 1 == REVERSAL_LIMIT) ==>
      (n + 1) % REVERSAL_LIMIT == 0 && (n + 1) / REVERSAL_LIMIT == n / REVERSAL_LIMIT + 1
    ensures (n % REVERSAL_LIMIT + 1 != REVERSAL_LIMIT) ==>
      (n + 1) % REVERSAL_LIMIT == n % REVERSAL_LIMIT + 1 && (n + 1) / REVERSAL_LIMIT == n / REVERSAL_LIMIT
  {
  }

  /**
   * `setup_fddmon`: zeroes the step count, direction and active flag of one
   * record and drives both pins low; other records are untouched.
   */
  method SetupFddmon(fddmon: array<FddMon>, token: int, step: int, dir: int)
    returns (writes: seq<Event>)
    requires 0 <= token < fddmon.Length
    modifies fddmon
    ensures writes == [Write(step, 0), Write(dir, 0)]
    ensures fddmon[token] == FddMon(0, 0, 0)
    ensures forall x :: 0 <= x < fddmon.Length && x != token ==> fddmon[x] == old(fddmon[x])
  {
    writes := [Write(step, 0), Write(dir, 0)];
    fddmon[token] := fddmon[token].(index := 0);
    fddmon[token] := fddmon[token].(direction := 0);
    fddmon[token] := fddmon[token].(active := 0);
  }

  /**
   * `play_fdd`: packs the token, the pins, the table size and the very same
   * table into a freshly allocated argument record for the drive's loop.
   */
  method PlayFdd(token: int, stepPin: int, dirPin: int, wavesize: int, wave: array<int>)
    returns (args: FddArgs)
    ensures fresh(args)
    ensures args.token == token && args.step == stepPin && args.dir == dirPin
    ensures args.wavesize == wavesize && args.wave == wave
  {
    args := new FddArgs(token, stepPin, dirPin, wavesize, wave);
  }

  /** `stop_fdd`: clears the active flag of one record and nothing else. */
  method StopFdd(fddmon: array<FddMon>, token: int)
    requires 0 <= token < fddmon.Length
    modifies fddmon
    ensures fddmon[token] == old(fddmon[token]).(active := 0)
    ensures forall x :: 0 <= x < fddmon.Length && x != token ==> fddmon[x] == old(fddmon[x])
  {
    fddmon[token] := fddmon[token].(active := 0);
  }

  /**
   * Entry of a drive's loop (`local_play_fdd` before its `while`): marks the
   * record active and starts at the first table entry with level 0.
   */
  method LocalPlayStart(fddmon: array<FddMon>, args: FddArgs) returns (position: int, state: int)
    requires 0 <= args.token < fddmon.Length
    modifies fddmon
    ensures LoopState(position, state, fddmon[args.token]) == Start(old(fddmon[args.token]))
    ensures forall x :: 0 <= x < fddmon.Length && x != args.token ==> fddmon[x] == old(fddmon[x])
  {
    state := 0;
    position := 0;
    fddmon[args.token] := fddmon[args.token].(active := 1);
  }

  /**
   * One turn of the `while` loop of `local_play_fdd`: the guard reads the
   * active flag; when it is set, the body runs once.  The loop's locals come
   * in as `position` and `state` and go out updated.
   */
  method LocalPlayIteration(fddmon: array<FddMon>, args: FddArgs, position: int, state: int)
    returns (running: bool, position': int, state': int, events: seq<Event>)
    requires 0 <= args.token < fddmon.Length
    requires 0 < args.wavesize <= args.wave.Length && 0 <= position < args.wavesize
    modifies fddmon
    ensures running == (old(fddmon[args.token].active) == 1)
    ensures !running ==>
      position' == position && state' == state && events == [] && fddmon[args.token] == old(fddmon[args.token])
    ensures running ==>
      (LoopState(position', state', fddmon[args.token]), events)
      == Step(LoopState(position, state, old(fddmon[args.token])), args.step, args.dir,
              args.wave[..], args.wavesize)
    ensures forall x :: 0 <= x < fddmon.Length && x != args.token ==> fddmon[x] == old(fddmon[x])
  {
    var token := args.token;
    position', state', events := position, state, [];
    running := fddmon[token].active == 1;
    if running {
      events := events + [Delay(args.wave[position'])];
      position' := position' + 1;
      position' := position' % args.wavesize;

      events := events + [Write(args.step, state')];
      events := events + [Write(args.dir, fddmon[token].direction)];
      state' := Not(state');
      fddmon[token] := fddmon[token].(index := fddmon[token].index + 1);
      if fddmon[token].index == REVERSAL_LIMIT {
        fddmon[token] := fddmon[token].(direction := Not(fddmon[token].direction));
        fddmon[token] := fddmon[token].(index := 0);
        events := events + [Write(args.dir, fddmon[token].direction)];
      }
      ghost var expected := Step(LoopState(position, state, old(fddmon[token])), args.step, args.dir,
                                 args.wave[..], args.wavesize);
      assert position' == expected.0.position;
      assert state' == expected.0.state;
      assert fddmon[token] == expected.0.mon;
      assert events == expected.1;
    }
  }
}
