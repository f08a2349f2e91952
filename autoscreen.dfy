/** Hotkey scheduler: after a start delay, sends a key a fixed number of
    times at a fixed interval. It never sleeps; the host calls `Tick`
    with the current time, and each call sends every key press whose
    time has come. The sender is injected; here the keys it was handed
    are recorded, in order, in `sent`. */
module AutoScreen {
  import opened Common

  datatype State = Idle | Countdown | Running | Done | Stopped

  datatype ConfigError = BadCount | BadInterval | BadStartDelay

  /** The constructor's validation, in the order the source checks. */
  function ConfigCheck(count: int, interval: real, startDelay: real): (e: Option<ConfigError>)
    ensures e.None? <==> count > 0 && interval > 0.0 && startDelay >= 0.0
    ensures e == Some(BadCount) <==> count <= 0
    ensures e == Some(BadInterval) <==> count > 0 && interval <= 0.0
    ensures e == Some(BadStartDelay) <==> count > 0 && interval > 0.0 && startDelay < 0.0
  {
    if count <= 0 then Some(BadCount)
    else if interval <= 0.0 then Some(BadInterval)
    else if startDelay < 0.0 then Some(BadStartDelay)
    else None
  }

  /** `next_fire or now`: an absent next-fire time, and also 0.0, which
      Python treats as false, stand for `now`. */
  function OrNow(nextFire: Option<real>, now: real): real {
    if nextFire.None? || nextFire.value == 0.0 then now else nextFire.value
  }

  /** The catch-up loop of `tick` in the running state: how many keys it
      sends and the next-fire time it leaves. */
  function CatchUp(remaining: nat, nextFire: Option<real>, now: real, interval: real): (r: (nat, Option<real>))
    requires interval > 0.0
    ensures r.0 <= remaining
    ensures r.0 == remaining || now < OrNow(r.1, now)
    ensures r.0 == 0 ==> r.1 == nextFire
    ensures r.0 > 0 ==> r.1.Some?
    decreases remaining
  {
    if remaining > 0 && now >= OrNow(nextFire, now) then
      var (k, nf) := CatchUp(remaining - 1, Some(OrNow(nextFire, now) + interval), now, interval);
      (k + 1, nf)
    else (0, nextFire)
  }

  /** Point `k` of the schedule anchored at `f`: `k` intervals after `f`. */
  function Point(f: real, interval: real, k: nat): real
    decreases k
  {
    if k == 0 then f else Point(f, interval, k - 1) + interval
  }

  lemma {:induction false} PointClosedForm(f: real, interval: real, k: nat)
    ensures Point(f, interval, k) == f + k as real * interval
    decreases k
  {
    if k > 0 {
      PointClosedForm(f, interval, k - 1);
    }
  }

  /** Point `k` of the schedule from `f + interval` is point `k + 1` from `f`. */
  lemma {:induction false} ScheduleShift(f: real, interval: real, k: nat)
    ensures Point(f + interval, interval, k) == Point(f, interval, k + 1)
    decreases k
  {
    if k > 0 {
      ScheduleShift(f, interval, k - 1);
    }
  }

  /** With a positive next-fire time the schedule stays anchored: the loop
      sends one key per schedule point `f`, `f + interval`, ... that is
      not later than `now`, up to `remaining`, and the next fire is the
      first point not yet used. */
  lemma {:induction false} CatchUpAnchored(remaining: nat, f: real, now: real, interval: real)
    requires interval > 0.0 && f > 0.0
    ensures var r := CatchUp(remaining, Some(f), now, interval);
            && r.1 == Some(Point(f, interval, r.0))
            && (r.0 == remaining || now < Point(f, interval, r.0))
            && (r.0 > 0 ==> Point(f, interval, r.0 - 1) <= now)
    decreases remaining
  {
    var r := CatchUp(remaining, Some(f), now, interval);
    assert OrNow(Some(f), now) == f;
    if remaining > 0 && now >= f {
      var g := f + interval;
      CatchUpAnchored(remaining - 1, g, now, interval);
      var r' := CatchUp(remaining - 1, Some(g), now, interval);
      assert r == (r'.0 + 1, r'.1);
      ScheduleShift(f, interval, r'.0);
      if r'.0 > 0 {
        ScheduleShift(f, interval, r'.0 - 1);
      } else {
        assert Point(f, interval, 0) == f;
      }
    } else {
      assert r == (0, Some(f));
    }
  }

  /** Catch-up in one call: three presses two seconds apart, started
      without delay at a positive time, all go out when the first tick
      comes five seconds late. */
  lemma CatchUpScenario(t0: real)
    requires t0 > 0.0
    ensures CatchUp(3, Some(t0), t0 + 5.0, 2.0) == (3, Some(t0 + 6.0))
  {
    CatchUpAnchored(3, t0, t0 + 5.0, 2.0);
    PointClosedForm(t0, 2.0, 2);
    PointClosedForm(t0, 2.0, 3);
  }

  /** The `or now` quirk: a schedule anchored at time 0.0 is taken as
      absent, so a late tick sends once and re-anchors at `now + interval`
      instead of catching up. */
  lemma ZeroAnchorFiresOnce(remaining: nat, now: real, interval: real)
    requires interval > 0.0 && remaining > 0 && now + interval > 0.0
    ensures CatchUp(remaining, Some(0.0), now, interval) == (1, Some(now + interval))
  {
    CatchUpAnchored(remaining - 1, now + interval, now, interval);
  }

  /** `k` copies of the key, as handed to the sender. */
  function Repeat(key: string, k: nat): (s: seq<string>)
    ensures |s| == k && forall i :: 0 <= i < k ==> s[i] == key
  {
    seq(k, _ => key)
  }

  class AutoScreener {
    const count: int
    const interval: real
    const startDelay: real
    const key: string

    var state: State
    var remaining: int
    var nextFire: Option<real>
    var startedAt: Option<real>
    /** The keys handed to the sender so far. */
    var sent: seq<string>

    /** Idle only before the first start; counting down or running with
        presses left and a next-fire time; done with none left. */
    ghost predicate Valid()
      reads this
    {
      && ConfigCheck(count, interval, startDelay).None?
      && 0 <= remaining <= count
      && (state == Idle ==> remaining == count && nextFire.None?)
      && (state == Countdown || state == Running ==> remaining > 0 && nextFire.Some?)
      && (state == Done ==> remaining == 0)
    }

    constructor (count: int, interval: real, startDelay: real, key: string)
      requires ConfigCheck(count, interval, startDelay).None?
      ensures Valid()
      ensures this.count == count && this.interval == interval && this.startDelay == startDelay && this.key == key
      ensures state == Idle && remaining == count && nextFire.None? && startedAt.None? && sent == []
    {
      this.count := count;
      this.interval := interval;
      this.startDelay := startDelay;
      this.key := key;
      state := Idle;
      remaining := count;
      nextFire := None;
      startedAt := None;
      sent := [];
    }

    /** `AutoScreener(...)`: a bad argument raises before any state exists. */
    static method Create(count: int, interval: real, startDelay: real, key: string)
      returns (r: Result<AutoScreener, ConfigError>)
      ensures r.Failure? <==> ConfigCheck(count, interval, startDelay).Some?
      ensures r.Failure? ==> r.error == ConfigCheck(count, interval, startDelay).value
      ensures r.Success? ==>
                && fresh(r.value) && r.value.Valid() && r.value.state == Idle
                && r.value.remaining == count && r.value.sent == []
                && r.value.count == count && r.value.interval == interval
                && r.value.startDelay == startDelay && r.value.key == key
                && r.value.nextFire.None? && r.value.startedAt.None?
    {
      var e := ConfigCheck(count, interval, startDelay);
      if e.Some? {
        return Failure(e.value);
      }
      var s := new AutoScreener(count, interval, startDelay, key);
      return Success(s);
    }

    /** The `remaining` property: never negative. */
    function Remaining(): (r: int)
      reads this
      ensures r >= 0 && r >= remaining
      ensures r == remaining || r == 0
    {
      if remaining < 0 then 0 else remaining
    }

    /** seconds_to_next: zero before the first start, otherwise how long
        until the next fire, never negative. */
    function SecondsToNext(now: real): (r: real)
      reads this
      ensures r >= 0.0
      ensures nextFire.None? ==> r == 0.0
      ensures nextFire.Some? ==> (r > 0.0 <==> now < nextFire.value)
      ensures nextFire.Some? && now < nextFire.value ==> r == nextFire.value - now
    {
      if nextFire.None? then 0.0
      else if nextFire.value - now > 0.0 then nextFire.value - now
      else 0.0
    }

    /** start: anchor the schedule at `now + start_delay` with every press
        still to send; count down first only when there is a delay. */
    method Start(now: real)
      requires Valid()
      modifies this
      ensures Valid()
      ensures startedAt == Some(now) && nextFire == Some(now + startDelay) && remaining == count
      ensures state == (if startDelay > 0.0 then Countdown else Running)
      ensures sent == old(sent)
    {
      startedAt := Some(now);
      nextFire := Some(now + startDelay);
      remaining := count;
      state := if startDelay > 0.0 then Countdown else Running;
    }

    /** stop: from any state; later ticks do nothing. */
    method Stop()
      requires Valid()
      modifies this
      ensures Valid()
      ensures state == Stopped
      ensures remaining == old(remaining) && nextFire == old(nextFire) && startedAt == old(startedAt)
      ensures sent == old(sent)
    {
      state := Stopped;
    }

    /** press_hotkey: hand the key to the sender. */
    method PressHotkey()
      modifies this
      ensures sent == old(sent) + [key]
      ensures state == old(state) && remaining == old(remaining) && nextFire == old(nextFire)
      ensures startedAt == old(startedAt)
    {
      sent := sent + [key];
    }

    /** tick: nothing happens when idle, done or stopped; a countdown whose
        time has come starts running; running sends one key per passed
        schedule point, each advancing the next fire by exactly `interval`,
        and is done when no press is left. Returns the state, the
        remaining count and the seconds to the next fire. */
    method Tick(now: real) returns (st: State, rem: int, secs: real)
      requires Valid()
      modifies this
      ensures Valid()
      ensures st == state && rem == Remaining() && rem == remaining
      ensures startedAt == old(startedAt)
      ensures old(state) == Idle || old(state) == Done || old(state) == Stopped ==>
                && state == old(state) && remaining == old(remaining) && nextFire == old(nextFire)
                && sent == old(sent) && secs == 0.0
      ensures old(state) == Countdown || old(state) == Running ==>
                var go := old(state) == Running || now >= OrNow(old(nextFire), now);
                var (k, nf) := if go then CatchUp(old(remaining), old(nextFire), now, interval)
                               else (0, old(nextFire));
                && remaining == old(remaining) - k
                && nextFire == nf
                && sent == old(sent) + Repeat(key, k)
                && state == (if !go then Countdown else if remaining == 0 then Done else Running)
                && secs == SecondsToNext(now)
      ensures remaining <= old(remaining)
    {
      if state == Done || state == Stopped || state == Idle {
        return state, Remaining(), 0.0;
      }
      if state == Countdown {
        if now >= OrNow(nextFire, now) {
          state := Running;
        }
      }
      if state == Running {
        while remaining > 0 && now >= OrNow(nextFire, now)
          invariant 0 <= remaining <= old(remaining)
          invariant nextFire.Some?
          invariant state == Running && startedAt == old(startedAt)
          invariant var (k, nf) := CatchUp(remaining, nextFire, now, interval);
                    CatchUp(old(remaining), old(nextFire), now, interval)
                      == (old(remaining) - remaining + k, nf)
          invariant sent == old(sent) + Repeat(key, old(remaining) - remaining)
          decreases remaining
        {
          PressHotkey();
          remaining := remaining - 1;
          nextFire := Some(OrNow(nextFire, now) + interval);
        }
        if remaining == 0 {
          state := Done;
        }
      }
      return state, Remaining(), SecondsToNext(now);
    }
  }
}
