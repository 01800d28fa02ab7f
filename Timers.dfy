/**
 * The delay timer DT and the sound timer ST: two unsigned counters that
 * `step` moves towards zero, one unit at a time, without wrapping.
 */
module Timers {
  import opened Types

  /** One `step` of a single timer: a positive value goes down by exactly one, 0 stays 0. */
  function Tick(t: u32): (r: u32)
    ensures t > 0 ==> r + 1 == t
    ensures t == 0 ==> r == 0
  {
    if t > 0 then t - 1 else t
  }

  /** A timer's value after `k` calls of `step` from value `t`. */
  function Ticks(t: u32, k: nat): (r: u32)
    ensures r <= t
    ensures k > 0 && t > 0 ==> r < t
    decreases k
  {
    if k == 0 then t else Tick(Ticks(t, k - 1))
  }

  /** `k` steps from `t` leave `max(t - k, 0)`: the timer saturates at zero. */
  lemma {:induction false} TicksSaturate(t: u32, k: nat)
    ensures Ticks(t, k) == if t >= k then t - k else 0
    decreases k
  {
    if k > 0 {
      TicksSaturate(t, k - 1);
    }
  }

  /** Timers never increase under `step`: more steps never give a larger value. */
  lemma TicksNeverIncrease(t: u32, k: nat, l: nat)
    requires k <= l
    ensures Ticks(t, l) <= Ticks(t, k) <= t
  {
    TicksSaturate(t, k);
    TicksSaturate(t, l);
  }

  /** Stepping `a` times and then `b` times is stepping `a + b` times. */
  lemma TicksCompose(t: u32, a: nat, b: nat)
    ensures Ticks(Ticks(t, a), b) == Ticks(t, a + b)
  {
    TicksSaturate(t, a);
    TicksSaturate(Ticks(t, a), b);
    TicksSaturate(t, a + b);
  }

  class Timers {
    var dt: u32
    var st: u32

    /** Both timers start at 0. */
    constructor ()
      ensures dt == 0 && st == 0
    {
      dt, st := 0, 0;
    }

    /** `getDelayTimer`: the current DT. */
    method GetDelayTimer() returns (t: u32)
      ensures t == dt
    {
      t := dt;
    }

    /** `getSoundTimer`: the current ST. */
    method GetSoundTimer() returns (t: u32)
      ensures t == st
    {
      t := st;
    }

    /** `setDelayTimer(t)`: DT := t, ST untouched. */
    method SetDelayTimer(t: u32)
      modifies this
      ensures dt == t && st == old(st)
    {
      dt := t;
    }

    /** `setSoundTimer(t)`: ST := t, DT untouched. */
    method SetSoundTimer(t: u32)
      modifies this
      ensures st == t && dt == old(dt)
    {
      st := t;
    }

    /** `step`: each positive timer goes down by one, independently of the other. */
    method Step()
      modifies this
      ensures dt == Tick(old(dt)) && st == Tick(old(st))
    {
      if dt > 0 {
        dt := dt - 1;
      }
      if st > 0 {
        st := st - 1;
      }
    }

    /** Setting DT and then reading it back yields the value set; ST is untouched. */
    method SetThenGetDelayTimer(t: u32) returns (r: u32)
      modifies this
      ensures r == t && dt == t && st == old(st)
    {
      SetDelayTimer(t);
      r := GetDelayTimer();
    }

    /** Setting ST and then reading it back yields the value set; DT is untouched. */
    method SetThenGetSoundTimer(t: u32) returns (r: u32)
      modifies this
      ensures r == t && st == t && dt == old(dt)
    {
      SetSoundTimer(t);
      r := GetSoundTimer();
    }
  }
}
