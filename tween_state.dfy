/** The JMTween of utils.js as a state machine over values: one record holds every field
    the tween updates, and each operation is a function from the old record to the new one.
    The class in module Tween is proved to follow these functions; the lemmas here say
    what the machine does over many frames: where the fields land, how many times a yoyo
    reverses, and when callbacks fire. */
module TweenState {
  import opened TweenProps
  import Seqs

  /** What `tickThis` currently points at: `firstTick`, `tailTick`, or the no-op `complete` installs. */
  datatype TickMode = FirstTick | TailTick | Idle

  /** A callback invocation, with the target object it was handed. */
  datatype Event =
    | OnWaitComplete(target: map<string, real>)
    | OnUpdate(target: map<string, real>)
    | OnComplete(target: map<string, real>)

  /** The tween's fields, except the reference to the chained tween. Callbacks are recorded
      by whether one is registered (`has...`) and by the log of their invocations. */
  datatype Tween = Tween(
    target: map<string, real>,
    totalTime: int,
    properties: seq<Property>,
    hasWait: bool,
    waitTime: int,
    isYoyo: bool,
    isLoop: bool,
    repeat: real,
    easing: Seqs.Option<real -> real>,
    startTime: int,
    endTime: int,
    tickMode: TickMode,
    running: bool,
    hasOnUpdate: bool,
    hasOnComplete: bool,
    hasOnWaitComplete: bool,
    events: seq<Event>)

  /** Once timed, the window is exactly one duration long. */
  predicate Timed(s: Tween) {
    s.tickMode == TailTick ==> s.endTime == s.startTime + s.totalTime
  }

  predicate Valid(s: Tween) {
    Timed(s) && AllConsistent(s.properties)
  }

  /** `new JMTween(object, totalTime)`. */
  function Initial(target: map<string, real>, totalTime: int): (s: Tween)
    ensures Valid(s)
  {
    Tween(target, totalTime, [], false, 0, false, false, 0.0, Seqs.None, 0, 0, FirstTick, false,
          false, false, false, [])
  }

  /** `start()`: resolve every entry, write the start values, mark running.
      (Registering with the registry is the class's part.) */
  function Started(s: Tween): (r: Tween)
    ensures AllConsistent(r.properties) && r.running
    ensures Timed(s) ==> Timed(r)
  {
    var (ps, o) := StartFold(s.properties, s.target);
    StartFoldConsistent(s.properties, s.target);
    s.(properties := ps, target := o, running := true)
  }

  /** `reset()`: back to `firstTick`; a non-zero wait is armed again. */
  function AfterReset(s: Tween): Tween {
    s.(tickMode := FirstTick, hasWait := s.hasWait || s.waitTime != 0)
  }

  /** `firstTick(time)`: fix the window from this frame's time, then hand over to `tailTick`. */
  function FirstTicked(s: Tween, time: int): (r: Tween)
    ensures Timed(r) && r.tickMode == TailTick
    ensures r.startTime == if s.hasWait then time + s.waitTime else time
  {
    var st := if s.hasWait then time + s.waitTime else time;
    s.(startTime := st, endTime := st + s.totalTime, tickMode := TailTick)
  }

  /** The wait boundary at the head of `tailTick`: the first frame past `startTime` clears
      the wait and fires `onWaitComplete` if one is registered. */
  function WaitChecked(s: Tween, time: int): (r: Tween)
    ensures s.hasWait && time > s.startTime ==>
      !r.hasWait && r.events == s.events + (if s.hasOnWaitComplete then [OnWaitComplete(s.target)] else [])
    ensures !(s.hasWait && time > s.startTime) ==> r == s
    ensures r == s.(hasWait := r.hasWait, events := r.events)
  {
    if s.hasWait && time > s.startTime then
      s.(hasWait := false, events := s.events + (if s.hasOnWaitComplete then [OnWaitComplete(s.target)] else []))
    else s
  }

  /** The progress fraction `(time - startTime) / totalTime` of a frame inside the window:
      it lies in (0, 1], and the division is never by zero. */
  function Progress(time: int, startTime: int, totalTime: int): (r: real)
    requires startTime < time <= startTime + totalTime
    ensures 0.0 < r <= 1.0
  {
    (time - startTime) as real / totalTime as real
  }

  /** `raw` through the easing function, or `raw` itself when none is set. */
  function Eased(easing: Seqs.Option<real -> real>, raw: real): real {
    match easing
    case Some(f) => f(raw)
    case None => raw
  }

  /** An interpolation frame: every entry writes its value at this progress, then `onUpdate` fires. */
  function Advanced(s: Tween, time: int): (r: Tween)
    requires s.startTime < time <= s.startTime + s.totalTime
    ensures r.events == s.events + (if s.hasOnUpdate then [OnUpdate(r.target)] else [])
    ensures r == s.(target := r.target, events := r.events)
  {
    var raw := Progress(time, s.startTime, s.totalTime);
    var o := Assign(s.target, Frame(s.properties, raw, Eased(s.easing, raw)));
    s.(target := o, events := s.events + (if s.hasOnUpdate then [OnUpdate(o)] else []))
  }

  /** Whether `complete` ends the tween rather than replaying it. */
  predicate Finishes(s: Tween) {
    !(s.isLoop && s.repeat > 0.0) && !(s.isYoyo && s.repeat > 0.0)
  }

  /** `complete(time)`: snap every field to its end; then a loop repeat costs 1 and restarts
      through `reset`, a yoyo repeat costs 0.5 and reverses the entries, and otherwise the
      tween stops and `onComplete` fires. (Leaving the registry and starting the chained
      tween are the class's part.) */
  function CompletedAt(s: Tween, time: int): (r: Tween)
    ensures r.target == Snapped(s.target, s.properties)
    ensures r.isYoyo == s.isYoyo && r.isLoop == s.isLoop && r.hasOnComplete == s.hasOnComplete
    ensures s.isLoop && s.repeat > 0.0 ==> r.repeat == s.repeat - 1.0 && r.properties == s.properties && r.tickMode == FirstTick
    ensures !(s.isLoop && s.repeat > 0.0) && s.isYoyo && s.repeat > 0.0 ==>
      r.repeat == s.repeat - 0.5 && r.properties == Reversed(s.properties) && r.tickMode == s.tickMode
    ensures Finishes(s) ==> !r.running && r.tickMode == Idle && r.properties == s.properties
    ensures r.events == s.events + (if Finishes(s) && s.hasOnComplete then [OnComplete(r.target)] else [])
  {
    var snapped := s.(target := Snapped(s.target, s.properties));
    if s.isLoop && s.repeat > 0.0 then Restarted(snapped, time)
    else if s.isYoyo && s.repeat > 0.0 then Turned(snapped, time)
    else Finished(snapped)
  }

  /** The loop branch of `complete`: one repeat used, `reset()`, a new window from `time`. */
  function Restarted(s: Tween, time: int): (r: Tween)
    ensures r.repeat == s.repeat - 1.0 && r.tickMode == FirstTick
    ensures r == s.(repeat := r.repeat, tickMode := FirstTick, hasWait := r.hasWait,
                    startTime := r.startTime, endTime := r.endTime)
  {
    AfterReset(s.(repeat := s.repeat - 1.0)).(startTime := time, endTime := time + s.totalTime)
  }

  /** `Restarted` field by field: the repeat count, the tick mode, the wait flag and the window change. */
  lemma RestartedFields(s: Tween, t: Tween, time: int)
    requires t.repeat == s.repeat - 1.0 && t.tickMode == FirstTick
    requires t.hasWait == (s.hasWait || s.waitTime != 0)
    requires t.startTime == time && t.endTime == time + s.totalTime
    requires t == s.(repeat := t.repeat, tickMode := t.tickMode, hasWait := t.hasWait,
                     startTime := t.startTime, endTime := t.endTime)
    ensures t == Restarted(s, time)
  {
  }

  /** The yoyo branch of `complete`: half a repeat used, the entries reversed, a new window from `time`. */
  function Turned(s: Tween, time: int): (r: Tween)
    ensures r.repeat == s.repeat - 0.5 && r.properties == Reversed(s.properties)
    ensures r.startTime == time && r.endTime == time + s.totalTime
    ensures r == s.(repeat := r.repeat, properties := r.properties, startTime := r.startTime, endTime := r.endTime)
  {
    s.(repeat := s.repeat - 0.5, properties := Reversed(s.properties),
       startTime := time, endTime := time + s.totalTime)
  }

  /** The last branch of `complete`: not running, no more ticks, `onComplete` called. */
  function Finished(s: Tween): (r: Tween)
    ensures !r.running && r.tickMode == Idle
    ensures r.events == s.events + (if s.hasOnComplete then [OnComplete(s.target)] else [])
    ensures r == s.(running := false, tickMode := Idle, events := r.events)
  {
    s.(running := false, tickMode := Idle,
       events := s.events + (if s.hasOnComplete then [OnComplete(s.target)] else []))
  }

  /** `tailTick(time)`: the wait boundary, then completion past the window, an interpolation
      frame inside it, and nothing before it. */
  function TailTicked(s: Tween, time: int): (r: Tween)
    requires Timed(s) && s.tickMode == TailTick
    ensures time <= s.startTime && time <= s.endTime ==> r == s
    ensures time > s.endTime ==> r.target == Snapped(s.target, s.properties)
    ensures s.startTime < time <= s.endTime ==> !r.hasWait && r.properties == s.properties && r.tickMode == TailTick
    ensures |r.events| > |s.events| && r.events[|r.events| - 1].OnUpdate? ==> s.startTime < time <= s.endTime
  {
    var w := WaitChecked(s, time);
    if time > w.endTime then CompletedAt(w, time)
    else if time > w.startTime then Advanced(w, time)
    else w
  }

  /** One call of `tickThis(time)`. */
  function Ticked(s: Tween, time: int): Tween
    requires Timed(s)
  {
    match s.tickMode
    case FirstTick => FirstTicked(s, time)
    case TailTick => TailTicked(s, time)
    case Idle => s
  }

  /** What a completed tween does to the tween chained to it: `reset()`, `start()`, then its
      first tick at the same frame time. */
  function Chained(s: Tween, time: int): (r: Tween)
    ensures r.tickMode == TailTick && r.running && Timed(r)
  {
    FirstTicked(Started(AfterReset(s)), time)
  }

  // ---------------------------------------------------------------------------------------
  // Invariants

  lemma CompletedValid(s: Tween, time: int)
    requires AllConsistent(s.properties)
    ensures Valid(CompletedAt(s, time))
  {
    ReversedKeys(s.properties);
  }

  /** Every tick keeps the tween valid. */
  lemma TickedValid(s: Tween, time: int)
    requires Valid(s)
    ensures Valid(Ticked(s, time))
  {
    if s.tickMode == TailTick {
      var w := WaitChecked(s, time);
      if time > w.endTime {
        CompletedValid(w, time);
      }
    }
  }

  // ---------------------------------------------------------------------------------------
  // Replays

  /** `k` successive completions at the same frame time (interpolation frames in between
      leave the entries, the counter and the replay flags alone). */
  function CompleteTimes(s: Tween, k: nat, time: int): Tween
    decreases k
  {
    if k == 0 then s else CompleteTimes(CompletedAt(s, time), k - 1, time)
  }

  /** `k` completions keep the replay flags and the registered callbacks. */
  lemma {:induction false} CompleteTimesKeeps(s: Tween, k: nat, time: int)
    ensures var t := CompleteTimes(s, k, time);
      t.isYoyo == s.isYoyo && t.isLoop == s.isLoop && t.hasOnComplete == s.hasOnComplete
    decreases k
  {
    if k > 0 {
      CompleteTimesKeeps(CompletedAt(s, time), k - 1, time);
    }
  }

  /** One yoyo completion. */
  lemma YoyoStep(s: Tween, time: int)
    requires s.isYoyo && !s.isLoop && s.repeat > 0.0
    ensures var r := CompletedAt(s, time);
      && r.isYoyo && !r.isLoop && r.repeat == s.repeat - 0.5 && r.properties == Reversed(s.properties)
  {
  }

  /** The entries after `k` reversals. */
  function ReversedTimes(props: seq<Property>, k: nat): seq<Property> {
    if k == 0 then props else Reversed(ReversedTimes(props, k - 1))
  }

  /** Reversing is an involution, so only the parity of the count matters. */
  lemma {:induction false} ReversedTimesParity(props: seq<Property>, k: nat)
    requires AllConsistent(props)
    ensures ReversedTimes(props, k) == if k % 2 == 1 then Reversed(props) else props
  {
    if k > 1 {
      var t := ReversedTimes(props, k - 2);
      ReversedTimesParity(props, k - 2);
      assert (k - 2) % 2 == k % 2;
      ReversedKeys(props);
      ReversedTwice(t);
      assert ReversedTimes(props, k) == Reversed(Reversed(t));
    }
  }

  /** Each of `k` completions of a yoyo with at least `k` halves left costs half a repeat
      and reverses the entries. */
  lemma {:induction false} YoyoSteps(s: Tween, k: nat, time: int)
    requires s.isYoyo && !s.isLoop && s.repeat >= k as real / 2.0
    ensures CompleteTimes(s, k, time).repeat == s.repeat - k as real / 2.0
    ensures CompleteTimes(s, k, time).properties == ReversedTimes(s.properties, k)
    decreases k
  {
    if k > 0 {
      YoyoSteps(s, k - 1, time);
      CompleteTimesSplit(s, k - 1, time);
      CompleteTimesKeeps(s, k - 1, time);
      YoyoStep(CompleteTimes(s, k - 1, time), time);
    }
  }

  /** Before its counter runs out, no completion of a yoyo finishes it. */
  lemma {:induction false} YoyoReplays(s: Tween, m: nat, time: int)
    requires s.isYoyo && !s.isLoop && s.repeat == m as real / 2.0
    ensures forall k :: 0 <= k < m ==> !Finishes(CompleteTimes(s, k, time))
    decreases m
  {
    if m > 0 {
      var s' := CompletedAt(s, time);
      YoyoStep(s, time);
      YoyoReplays(s', m - 1, time);
      forall k | 0 <= k < m ensures !Finishes(CompleteTimes(s, k, time)) {
        if k > 0 {
          assert CompleteTimes(s, k, time) == CompleteTimes(s', k - 1, time);
        }
      }
    }
  }

  /** `yoyo(true, n)` for a whole `n >= 1` (the counter starts at `n - 0.5`): the first
      `2n - 1` completions each reverse the entries, the next one finishes, and it leaves
      every animated field on its original start value, stopped, with `onComplete` fired
      once if registered. */
  lemma YoyoEndsOnStart(s: Tween, n: nat, time: int)
    requires n >= 1 && s.isYoyo && !s.isLoop && s.repeat == n as real - 0.5
    requires AllConsistent(s.properties) && KeysDistinct(s.properties)
    ensures forall k :: 0 <= k < 2 * n - 1 ==> !Finishes(CompleteTimes(s, k, time))
    ensures Finishes(CompleteTimes(s, 2 * n - 1, time))
    ensures var f := CompleteTimes(s, 2 * n, time);
      && f.tickMode == Idle && !f.running
      && (forall i :: 0 <= i < |s.properties| ==>
            s.properties[i].key in f.target && f.target[s.properties[i].key] == s.properties[i].start)
      && f.events == CompleteTimes(s, 2 * n - 1, time).events + (if s.hasOnComplete then [OnComplete(f.target)] else [])
  {
    YoyoSteps(s, 2 * n - 1, time);
    ReversedTimesParity(s.properties, 2 * n - 1);
    YoyoReplays(s, 2 * n - 1, time);
    CompleteTimesKeeps(s, 2 * n - 1, time);
    var t := CompleteTimes(s, 2 * n - 1, time);
    assert (2 * n - 1) % 2 == 1;
    assert t.properties == Reversed(s.properties);
    assert Finishes(t);
    CompleteTimesSplit(s, 2 * n - 1, time);
    var f := CompletedAt(t, time);
    assert CompleteTimes(s, 2 * n, time) == f;
    SnapReversedIsStart(t.target, s.properties);
  }

  lemma {:induction false} CompleteTimesSplit(s: Tween, k: nat, time: int)
    ensures CompleteTimes(s, k + 1, time) == CompletedAt(CompleteTimes(s, k, time), time)
    decreases k
  {
    if k > 0 {
      CompleteTimesSplit(CompletedAt(s, time), k - 1, time);
    }
  }

  /** `loop(true, n)` for a whole `n`: the first `n` completions restart the tween (each
      re-arming a non-zero wait), the next one finishes, and the fields end on their END
      values: a loop does not bring the target back to where it started. */
  lemma {:induction false} LoopEndsOnEnd(s: Tween, n: nat, time: int)
    requires s.isLoop && s.repeat == n as real
    requires KeysDistinct(s.properties)
    decreases n
    ensures forall k :: 0 <= k < n ==> !Finishes(CompleteTimes(s, k, time))
    ensures forall k :: 1 <= k <= n ==> CompleteTimes(s, k, time).tickMode == FirstTick
    ensures Finishes(CompleteTimes(s, n, time)) && CompleteTimes(s, n, time).properties == s.properties
    ensures var f := CompleteTimes(s, n + 1, time);
      && f.tickMode == Idle && !f.running
      && (forall i :: 0 <= i < |s.properties| ==>
            s.properties[i].key in f.target && f.target[s.properties[i].key] == s.properties[i].end)
  {
    if n > 0 {
      var s' := CompletedAt(s, time);
      LoopEndsOnEnd(s', n - 1, time);
      forall k | 0 <= k < n ensures !Finishes(CompleteTimes(s, k, time)) {
        if k > 0 { assert CompleteTimes(s, k, time) == CompleteTimes(s', k - 1, time); }
      }
      forall k | 1 <= k <= n ensures CompleteTimes(s, k, time).tickMode == FirstTick {
        if k > 1 { assert CompleteTimes(s, k, time) == CompleteTimes(s', k - 1, time); }
      }
    } else {
      SnappedFields(s.target, s.properties);
    }
  }

  // ---------------------------------------------------------------------------------------
  // The wait callback

  function WaitFires(events: seq<Event>): nat {
    if |events| == 0 then 0
    else WaitFires(events[..|events| - 1]) + (if events[|events| - 1].OnWaitComplete? then 1 else 0)
  }

  lemma {:induction false} WaitFiresAppend(a: seq<Event>, b: seq<Event>)
    ensures WaitFires(a + b) == WaitFires(a) + WaitFires(b)
  {
    if |b| > 0 {
      WaitFiresAppend(a, b[..|b| - 1]);
      assert (a + b)[..|a + b| - 1] == a + b[..|b| - 1];
    } else {
      assert a + b == a;
    }
  }

  /** The tween after each of a series of frames. */
  function Run(s: Tween, times: seq<int>): (r: Tween)
    requires Valid(s)
    ensures Valid(r)
  {
    if |times| == 0 then s
    else
      var t := Run(s, times[..|times| - 1]);
      TickedValid(t, times[|times| - 1]);
      Ticked(t, times[|times| - 1])
  }

  function B2N(b: bool): nat { if b then 1 else 0 }

  /** `r` extends `s`'s callback log. */
  predicate Grows(s: Tween, r: Tween) {
    |s.events| <= |r.events| && r.events[..|s.events|] == s.events
  }

  /** The `onWaitComplete` calls logged from `s` to `r`, plus a wait still armed in `r`, are
      no more than the wait armed in `s` and `extra` waits armed again on the way. */
  predicate WithinBudget(s: Tween, r: Tween, extra: nat)
    requires Grows(s, r)
  {
    WaitFires(r.events[|s.events|..]) + B2N(r.hasWait) <= B2N(s.hasWait) + extra
  }

  lemma BudgetTrans(a: Tween, b: Tween, c: Tween, e1: nat, e2: nat)
    requires Grows(a, b) && WithinBudget(a, b, e1)
    requires Grows(b, c) && WithinBudget(b, c, e2)
    ensures Grows(a, c) && WithinBudget(a, c, e1 + e2)
  {
    FiresTrans(a, b, c);
  }

  /** A step that logs at most one event, and not a wait completion. */
  lemma QuietStep(s: Tween, r: Tween, e: Event)
    requires !e.OnWaitComplete?
    requires r.events == s.events || r.events == s.events + [e]
    ensures Grows(s, r) && WaitFires(r.events[|s.events|..]) == 0
  {
    if r.events == s.events {
      assert r.events[|s.events|..] == [];
    } else {
      assert r.events[|s.events|..] == [e];
      assert [e][..0] == [];
    }
  }

  /** The wait boundary logs one `onWaitComplete` exactly when it clears an armed wait that
      has a callback registered. */
  lemma WaitStep(s: Tween, time: int)
    ensures var w := WaitChecked(s, time);
      Grows(s, w) && WaitFires(w.events[|s.events|..]) == B2N(s.hasWait && time > s.startTime && s.hasOnWaitComplete)
      && WithinBudget(s, w, 0)
  {
    var w := WaitChecked(s, time);
    if w.events == s.events {
      assert w.events[|s.events|..] == [];
    } else {
      assert w.events[|s.events|..] == [OnWaitComplete(s.target)];
      assert [OnWaitComplete(s.target)][..0] == [];
    }
  }

  /** The wait completions logged over two steps add up. */
  lemma FiresTrans(a: Tween, b: Tween, c: Tween)
    requires Grows(a, b) && Grows(b, c)
    ensures Grows(a, c)
    ensures WaitFires(c.events[|a.events|..]) == WaitFires(b.events[|a.events|..]) + WaitFires(c.events[|b.events|..])
  {
    assert c.events[..|a.events|] == b.events[..|b.events|][..|a.events|];
    assert c.events[|a.events|..] == b.events[|a.events|..] + c.events[|b.events|..];
    WaitFiresAppend(b.events[|a.events|..], c.events[|b.events|..]);
  }

  /** Whether the frame at `time` completes a loop with repeats left, which `reset()` re-arms. */
  predicate Restarting(s: Tween, time: int) {
    s.tickMode == TailTick && time > s.endTime && s.isLoop && s.repeat > 0.0
  }

  /** The end of a frame past the wait boundary: completion, interpolation, or nothing. None
      of them logs a wait completion, and only a loop restart can arm the wait again. */
  lemma TailStep(w: Tween, time: int)
    requires Timed(w) && w.tickMode == TailTick
    ensures var r := if time > w.endTime then CompletedAt(w, time)
                     else if time > w.startTime then Advanced(w, time) else w;
      && r.isLoop == w.isLoop && Grows(w, r) && WaitFires(r.events[|w.events|..]) == 0
      && (r.hasWait ==> w.hasWait || Restarting(w, time))
  {
    if time > w.endTime {
      var r := CompletedAt(w, time);
      QuietStep(w, r, OnComplete(r.target));
    } else if time > w.startTime {
      var r := Advanced(w, time);
      QuietStep(w, r, OnUpdate(r.target));
    } else {
      QuietStep(w, w, OnUpdate(w.target));
    }
  }

  /** One frame fires `onWaitComplete` exactly when it is a `tailTick` past the start of the
      window with the wait still armed and a callback registered. */
  lemma WaitFiresWhenDue(s: Tween, time: int)
    requires Valid(s)
    ensures var r := Ticked(s, time);
      Grows(s, r) && WaitFires(r.events[|s.events|..]) ==
        B2N(s.tickMode == TailTick && s.hasWait && time > s.startTime && s.hasOnWaitComplete)
  {
    var r := Ticked(s, time);
    if s.tickMode == TailTick {
      TailTickFires(s, time);
    } else {
      QuietStep(s, r, OnUpdate(r.target));
    }
  }

  lemma TailTickFires(s: Tween, time: int)
    requires Timed(s) && s.tickMode == TailTick
    ensures var r := TailTicked(s, time);
      Grows(s, r) && WaitFires(r.events[|s.events|..]) == B2N(s.hasWait && time > s.startTime && s.hasOnWaitComplete)
  {
    var w := WaitChecked(s, time);
    WaitStep(s, time);
    TailStep(w, time);
    FiresTrans(s, w, TailTicked(s, time));
  }

  /** One frame never fires `onWaitComplete` without consuming an armed wait; a loop restart,
      which re-arms the wait, allows one more. */
  lemma TickWaitBudget(s: Tween, time: int)
    requires Valid(s)
    ensures Ticked(s, time).isLoop == s.isLoop
    ensures Grows(s, Ticked(s, time)) && WithinBudget(s, Ticked(s, time), B2N(Restarting(s, time)))
  {
    var r := Ticked(s, time);
    if s.tickMode == TailTick {
      TailTickBudget(s, time);
    } else {
      QuietStep(s, r, OnUpdate(r.target));
    }
  }

  lemma TailTickBudget(s: Tween, time: int)
    requires Timed(s) && s.tickMode == TailTick
    ensures var r := TailTicked(s, time);
      r.isLoop == s.isLoop && Grows(s, r) && WithinBudget(s, r, B2N(Restarting(s, time)))
  {
    var w := WaitChecked(s, time);
    var r := TailTicked(s, time);
    WaitStep(s, time);
    TailStep(w, time);
    assert WithinBudget(w, r, B2N(Restarting(s, time)));
    BudgetTrans(s, w, r, 0, B2N(Restarting(s, time)));
  }

  /** The loop restarts over a series of frames. */
  function Restarts(s: Tween, times: seq<int>): nat
    requires Valid(s)
  {
    if |times| == 0 then 0
    else
      var init := times[..|times| - 1];
      Restarts(s, init) + B2N(Restarting(Run(s, init), times[|times| - 1]))
  }

  /** Over any series of frames, `onWaitComplete` fires at most once for the wait armed at the
      start and once for each loop restart's `reset()`. */
  lemma {:induction false} WaitFiresPerRestart(s: Tween, times: seq<int>)
    requires Valid(s)
    ensures var r := Run(s, times);
      r.isLoop == s.isLoop && Grows(s, r) && WithinBudget(s, r, Restarts(s, times))
  {
    if |times| > 0 {
      var init := times[..|times| - 1];
      WaitFiresPerRestart(s, init);
      var t := Run(s, init);
      TickWaitBudget(t, times[|times| - 1]);
      BudgetTrans(s, t, Run(s, times), Restarts(s, init), B2N(Restarting(t, times[|times| - 1])));
    } else {
      assert s.events[|s.events|..] == [];
    }
  }

  /** A tween that does not loop never restarts. */
  lemma {:induction false} NoLoopNoRestarts(s: Tween, times: seq<int>)
    requires Valid(s) && !s.isLoop
    ensures Restarts(s, times) == 0
  {
    if |times| > 0 {
      var init := times[..|times| - 1];
      NoLoopNoRestarts(s, init);
      WaitFiresPerRestart(s, init);
    }
  }

  /** Without a loop to re-arm it, `onWaitComplete` fires at most once over any series of
      frames after a `start` or `reset`, and never when no wait is armed. */
  lemma WaitFiresAtMostOnce(s: Tween, times: seq<int>)
    requires Valid(s) && !s.isLoop
    ensures var r := Run(s, times);
      && !r.isLoop
      && |s.events| <= |r.events| && r.events[..|s.events|] == s.events
      && WaitFires(r.events[|s.events|..]) + B2N(r.hasWait) <= B2N(s.hasWait)
  {
    WaitFiresPerRestart(s, times);
    NoLoopNoRestarts(s, times);
  }

  // ---------------------------------------------------------------------------------------
  // Frames and completions

  /** A frame that does not complete the tween keeps its entries, its counter and its replay
      flags, so only completions move a replay forward. */
  lemma FrameKeepsReplay(s: Tween, time: int)
    requires Timed(s) && !(s.tickMode == TailTick && time > s.endTime)
    ensures var r := Ticked(s, time);
      r.properties == s.properties && r.repeat == s.repeat && r.isYoyo == s.isYoyo && r.isLoop == s.isLoop
  {
    if s.tickMode == TailTick {
      var w := WaitChecked(s, time);
      if time > w.startTime {
        var a := Advanced(w, time);
        assert a.properties == s.properties && a.repeat == s.repeat;
      }
    }
  }

  /** A frame past the window is the completion of `complete(time)`, except for the wait flag
      and the callback log, which the wait boundary before it may change. */
  lemma CompletionFrame(s: Tween, time: int)
    requires Timed(s) && s.tickMode == TailTick && time > s.endTime
    ensures var r := Ticked(s, time);
      r == CompletedAt(s, time).(hasWait := r.hasWait, events := r.events)
  {
  }
}
