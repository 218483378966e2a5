/** The JMTween class of utils.js as a Dafny class: a tween owns its target object and its
    property list and updates them in place; a registry (the static `_tweens` list) holds
    the running tweens. Every method is proved to move the tween's fields exactly as the
    value-level machine in module TweenState does, so the lemmas proved there (where the
    fields land, how a yoyo or loop replays, when callbacks fire) hold of the class. */
module Tween {
  import opened TweenProps
  import TS = TweenState
  import Seqs

  /** `JMTween._tweens`, with `_add` and `_remove`. The animation-frame scheduling that
      `_add` triggers is not part of this model. */
  class Registry {
    var tweens: seq<JMTween>

    constructor()
      ensures tweens == []
    {
      tweens := [];
    }

    /** `_add`: push, even when the tween is already registered. */
    method Add(t: JMTween)
      modifies this
      ensures tweens == old(tweens) + [t]
    {
      tweens := tweens + [t];
    }

    /** `_remove`: find the tween with `indexOf` and splice that one slot out. */
    method Remove(t: JMTween)
      modifies this
      ensures tweens == Seqs.RemoveFirst(old(tweens), t)
    {
      var index := Seqs.IndexOf(tweens, t);
      if index >= 0 {
        Seqs.SpliceFirst(tweens, t, index);
        tweens := tweens[..index] + tweens[index + 1..];
      } else {
        Seqs.RemoveFirstMultiset(tweens, t);
      }
    }
  }

  class JMTween {
    var target: map<string, real>
    var totalTime: int
    var properties: seq<Property>
    var hasWait: bool
    var waitTime: int
    var isYoyo: bool
    var isLoop: bool
    var repeat: real
    var easingFn: Seqs.Option<real -> real>
    var startTime: int
    var endTime: int
    var tickMode: TS.TickMode
    var running: bool
    var hasOnUpdate: bool
    var hasOnComplete: bool
    var hasOnWaitComplete: bool
    var events: seq<TS.Event>
    var next: JMTween?

    /** The tween's fields as a value. */
    function State(): TS.Tween
      reads this
    {
      TS.Tween(target, totalTime, properties, hasWait, waitTime, isYoyo, isLoop, repeat, easingFn,
               startTime, endTime, tickMode, running, hasOnUpdate, hasOnComplete, hasOnWaitComplete, events)
    }

    predicate Valid()
      reads this
    {
      TS.Valid(State())
    }

    /** `new JMTween(object, totalTime = 200)`. */
    constructor(obj: map<string, real>, duration: int := 200)
      ensures State() == TS.Initial(obj, duration) && next == null && Valid()
    {
      target, totalTime, properties := obj, duration, [];
      hasWait, waitTime, isYoyo, isLoop, repeat, easingFn := false, 0, false, false, 0.0, Seqs.None;
      startTime, endTime, tickMode, running := 0, 0, TS.FirstTick, false;
      hasOnUpdate, hasOnComplete, hasOnWaitComplete, events := false, false, false, [];
      next := null;
    }

    // ------------------------------------------------------------------------------------
    // Configuration

    /** `onUpdate(callback)`: `registered` is the callback's truthiness, so a missing or `null`
        callback unregisters the one before. */
    method OnUpdate(registered: bool)
      modifies this`hasOnUpdate
      ensures State() == old(State()).(hasOnUpdate := registered)
    {
      hasOnUpdate := registered;
    }

    /** `onComplete(callback)`: `registered` is the callback's truthiness, so a missing or `null`
        callback unregisters the one before. */
    method OnComplete(registered: bool)
      modifies this`hasOnComplete
      ensures State() == old(State()).(hasOnComplete := registered)
    {
      hasOnComplete := registered;
    }

    /** `onWaitComplete(callback)`: `registered` is the callback's truthiness, so a missing or `null`
        callback unregisters the one before. */
    method OnWaitComplete(registered: bool)
      modifies this`hasOnWaitComplete
      ensures State() == old(State()).(hasOnWaitComplete := registered)
    {
      hasOnWaitComplete := registered;
    }

    /** `yoyo(b = true, repeat = 1)`: the counter counts halves, so it starts half a repeat down. */
    method Yoyo(b: bool := true, count: real := 1.0)
      modifies this`isYoyo, this`repeat
      ensures State() == old(State()).(isYoyo := b, repeat := count - 0.5)
    {
      isYoyo := b;
      repeat := count - 0.5;
    }

    /** `loop(b = true, repeat = 1)`. */
    method Loop(b: bool := true, count: real := 1.0)
      modifies this`isLoop, this`repeat
      ensures State() == old(State()).(isLoop := b, repeat := count)
    {
      isLoop := b;
      repeat := count;
    }

    /** `wait(time)`: arm a delay before the first frame. */
    method Wait(ms: int)
      modifies this`waitTime, this`hasWait
      ensures State() == old(State()).(waitTime := ms, hasWait := true)
    {
      waitTime := ms;
      hasWait := true;
    }

    /** `over(time)`: a new duration. The window of a tween already ticking keeps its old end,
        so validity is kept only before the first tick. */
    method Over(ms: int)
      modifies this`totalTime
      ensures State() == old(State()).(totalTime := ms)
      ensures old(tickMode) != TS.TailTick && old(Valid()) ==> Valid()
    {
      totalTime := ms;
    }

    method Easing(f: real -> real)
      modifies this`easingFn
      ensures State() == old(State()).(easing := Seqs.Some(f))
    {
      easingFn := Seqs.Some(f);
    }

    /** `to`, `from`, `colorTo` and `colorFrom`: one entry per key, in key order. */
    method Push(props: seq<(string, real)>, eased: bool, isFrom: bool, isColor: bool)
      modifies this`properties
      ensures State() == old(State()).(properties := old(properties) + Pushed(props, eased, isFrom, isColor))
      ensures old(Valid()) ==> Valid()
    {
      var i := 0;
      while i < |props|
        invariant 0 <= i <= |props|
        invariant properties == old(properties) + Pushed(props[..i], eased, isFrom, isColor)
      {
        properties := properties + [NewProperty(props[i].0, props[i].1, eased, isFrom, isColor)];
        assert Pushed(props[..i + 1], eased, isFrom, isColor)
            == Pushed(props[..i], eased, isFrom, isColor) + [NewProperty(props[i].0, props[i].1, eased, isFrom, isColor)];
        i := i + 1;
      }
      assert props[..i] == props;
      NewPropertiesConsistent(props, eased, isFrom, isColor);
    }

    method To(props: seq<(string, real)>, eased: bool := true)
      modifies this`properties
      ensures State() == old(State()).(properties := old(properties) + Pushed(props, eased, false, false))
      ensures old(Valid()) ==> Valid()
    {
      Push(props, eased, false, false);
    }

    method From(props: seq<(string, real)>, eased: bool := true)
      modifies this`properties
      ensures State() == old(State()).(properties := old(properties) + Pushed(props, eased, true, false))
      ensures old(Valid()) ==> Valid()
    {
      Push(props, eased, true, false);
    }

    method ColorTo(props: seq<(string, real)>, eased: bool := true)
      modifies this`properties
      ensures State() == old(State()).(properties := old(properties) + Pushed(props, eased, false, true))
      ensures old(Valid()) ==> Valid()
    {
      Push(props, eased, false, true);
    }

    method ColorFrom(props: seq<(string, real)>, eased: bool := true)
      modifies this`properties
      ensures State() == old(State()).(properties := old(properties) + Pushed(props, eased, true, true))
      ensures old(Valid()) ==> Valid()
    {
      Push(props, eased, true, true);
    }

    /** `chain(nextObj, totalTime)`: a new tween on another object runs after this one. */
    method Chain(obj: map<string, real>, duration: int := 200) returns (t: JMTween)
      modifies this`next
      ensures fresh(t) && next == t && t.State() == TS.Initial(obj, duration) && t.next == null
      ensures State() == old(State())
    {
      t := new JMTween(obj, duration);
      next := t;
    }

    /** `chainTween(tween)`: an existing tween runs after this one. */
    method ChainTween(t: JMTween) returns (r: JMTween)
      modifies this`next
      ensures next == t && r == t && State() == old(State())
    {
      next := t;
      r := t;
    }

    // ------------------------------------------------------------------------------------
    // Running

    /** `stop()`: not running, and out of the registry. */
    method Stop(reg: Registry)
      modifies this`running, reg
      ensures State() == old(State()).(running := false)
      ensures reg.tweens == Seqs.RemoveFirst(old(reg.tweens), this)
    {
      running := false;
      reg.Remove(this);
    }

    /** `reset()`. */
    method Reset()
      modifies this`tickMode, this`hasWait
      ensures State() == TS.AfterReset(old(State()))
    {
      tickMode := TS.FirstTick;
      if waitTime != 0 {
        hasWait := true;
      }
    }

    /** The loop of `start()`: resolve every entry in order, writing its start value to the target. */
    method ResolveAll()
      modifies this`properties, this`target
      ensures (properties, target) == StartFold(old(properties), old(target))
    {
      var i := 0;
      while i < |properties|
        invariant 0 <= i <= |properties| == |old(properties)|
        invariant properties[i..] == old(properties)[i..]
        invariant StartFold(old(properties)[..i], old(target)) == (properties[..i], target)
      {
        assert old(properties)[..i + 1][..i] == old(properties)[..i];
        assert properties[i] == old(properties)[i];
        ghost var prev := properties;
        assert prev[i + 1..] == old(properties)[i + 1..] by {
          assert prev[i + 1..] == prev[i..][1..] && old(properties)[i + 1..] == old(properties)[i..][1..];
        }
        var q := Resolve(properties[i], target);
        properties := properties[i := q];
        target := target[q.key := q.start];
        assert properties[i + 1..] == prev[i + 1..];
        assert properties[..i + 1] == properties[..i] + [q];
        i := i + 1;
      }
      assert old(properties)[..i] == old(properties);
      assert properties[..i] == properties;
    }

    /** `start()`: resolve the entries, then register. */
    method Start(reg: Registry)
      modifies this`running, this`properties, this`target, reg
      ensures State() == TS.Started(old(State()))
      ensures reg.tweens == old(reg.tweens) + [this]
      ensures old(Valid()) ==> Valid()
    {
      running := true;
      ResolveAll();
      reg.Add(this);
    }

    /** `firstTick(time)`. */
    method FirstTick(time: int)
      modifies this`startTime, this`endTime, this`tickMode
      ensures State() == TS.FirstTicked(old(State()), time)
    {
      if hasWait {
        startTime := time + waitTime;
      } else {
        startTime := time;
      }
      endTime := startTime + totalTime;
      tickMode := TS.TailTick;
    }

    /** `reverseProps()`: swap every entry's endpoints in place. */
    method ReverseProps()
      modifies this`properties
      ensures State() == old(State()).(properties := Reversed(old(properties)))
    {
      var i := 0;
      while i < |properties|
        invariant 0 <= i <= |properties| == |old(properties)|
        invariant properties[..i] == Reversed(old(properties))[..i]
        invariant properties[i..] == old(properties)[i..]
        modifies this`properties
      {
        properties := properties[i := Swap(properties[i])];
        i := i + 1;
      }
      assert properties == Reversed(old(properties));
    }

    /** The chained tween's part in finishing from the fields `c`: the registry loses this
        tween and gains the chained one, which is reset, started and ticked once. */
    twostate predicate ChainedFrom(c: TS.Tween, time: int, reg: Registry)
      reads this, reg, next
    {
      && next == old(next)
      && (next != null ==> next.next == old(next.next))
      && if next == null then
           State() == c && reg.tweens == Seqs.RemoveFirst(old(reg.tweens), this)
         else if next == this then
           State() == TS.Chained(c, time) && reg.tweens == Seqs.RemoveFirst(old(reg.tweens), this) + [this]
         else
           State() == c && next.State() == TS.Chained(old(next.State()), time)
           && reg.tweens == Seqs.RemoveFirst(old(reg.tweens), this) + [next]
    }

    /** The outcome of `complete(time)` run from the fields `w`: a replay, or the end of the
        tween and the start of the chained one. */
    twostate predicate CompletedFrom(w: TS.Tween, time: int, reg: Registry)
      reads this, reg, next
    {
      var c := TS.CompletedAt(w, time);
      if !TS.Finishes(w) then
        && State() == c && reg.tweens == old(reg.tweens) && next == old(next)
        && (next != null && next != this ==> next.State() == old(next.State()))
      else ChainedFrom(c, time, reg)
    }

    /** The first loop of `complete`: every field gets its entry's end value. */
    method SnapAll()
      modifies this`target
      ensures target == Snapped(old(target), properties)
    {
      var i := 0;
      while i < |properties|
        invariant 0 <= i <= |properties|
        invariant target == Assign(old(target), Ends(properties)[..i])
      {
        assert Ends(properties)[..i + 1][..i] == Ends(properties)[..i];
        target := target[properties[i].key := properties[i].end];
        i := i + 1;
      }
      assert Ends(properties)[..i] == Ends(properties);
    }

    /** The last branch of `complete`: stop, leave the registry, call `onComplete`, then run
        the chained tween. */
    method Finish(time: int, reg: Registry)
      modifies this, reg, next
      ensures ChainedFrom(TS.Finished(old(State())), time, reg)
    {
      Halt(reg);
      if next != null {
        RunNext(time, reg);
      }
    }

    method Halt(reg: Registry)
      modifies this`running, this`tickMode, this`events, reg
      ensures State() == TS.Finished(old(State()))
      ensures reg.tweens == Seqs.RemoveFirst(old(reg.tweens), this)
    {
      running := false;
      reg.Remove(this);
      tickMode := TS.Idle;
      if hasOnComplete {
        events := events + [TS.OnComplete(target)];
      }
    }

    /** The chained tween's `reset()`, `start()` and `tickThis(time)`; the reset has just
        pointed its `tickThis` at `firstTick`. */
    method RunNext(time: int, reg: Registry)
      requires next != null
      modifies next, reg
      ensures next == old(next) && next.State() == TS.Chained(old(next.State()), time)
      ensures next.next == old(next.next)
      ensures reg.tweens == old(reg.tweens) + [next]
    {
      var n := next;
      n.Reset();
      n.Start(reg);
      n.FirstTick(time);
    }

    /** `complete(time)`: snap every field to its end, then replay, or finish: leave the
        registry, stop ticking, call `onComplete`, and reset, start and tick the chained tween. */
    method Complete(time: int, reg: Registry)
      modifies this, reg, next
      ensures CompletedFrom(old(State()), time, reg)
    {
      SnapAll();
      if isLoop && repeat > 0.0 {
        Restart(time);
      } else if isYoyo && repeat > 0.0 {
        Turn(time);
      } else {
        Finish(time, reg);
      }
    }

    /** The loop branch of `complete`. */
    method Restart(time: int)
      modifies this`repeat, this`tickMode, this`hasWait, this`startTime, this`endTime
      ensures State() == TS.Restarted(old(State()), time)
    {
      repeat := repeat - 1.0;
      Reset();
      startTime := time;
      endTime := startTime + totalTime;
      TS.RestartedFields(old(State()), State(), time);
    }

    /** The yoyo branch of `complete`. */
    method Turn(time: int)
      modifies this`repeat, this`properties, this`startTime, this`endTime
      ensures State() == TS.Turned(old(State()), time)
    {
      repeat := repeat - 0.5;
      ReverseProps();
      startTime := time;
      endTime := startTime + totalTime;
    }

    /** The outcome of `tailTick(time)` run from the fields `s`. */
    twostate predicate TailTickedFrom(s: TS.Tween, time: int, reg: Registry)
      requires TS.Timed(s) && s.tickMode == TS.TailTick
      reads this, reg, next
    {
      if time > s.endTime then CompletedFrom(TS.WaitChecked(s, time), time, reg)
      else
        && State() == TS.TailTicked(s, time) && reg.tweens == old(reg.tweens) && next == old(next)
        && (next != null && next != this ==> next.State() == old(next.State()))
    }

    /** The head of `tailTick`: the first frame past `startTime` ends the wait. */
    method CheckWait(time: int)
      modifies this`hasWait, this`events
      ensures State() == TS.WaitChecked(old(State()), time)
    {
      if hasWait && time > startTime {
        hasWait := false;
        if hasOnWaitComplete {
          events := events + [TS.OnWaitComplete(target)];
        }
      }
    }

    /** The interpolation loop of `tailTick`. */
    method ApplyFrame(raw: real, eased: real)
      modifies this`target
      ensures target == Assign(old(target), Frame(properties, raw, eased))
    {
      var i := 0;
      while i < |properties|
        invariant 0 <= i <= |properties|
        invariant target == Assign(old(target), Frame(properties, raw, eased)[..i])
      {
        assert Frame(properties, raw, eased)[..i + 1][..i] == Frame(properties, raw, eased)[..i];
        var p := properties[i];
        target := target[p.key := Value(p, Percent(p, raw, eased))];
        i := i + 1;
      }
      assert Frame(properties, raw, eased)[..i] == Frame(properties, raw, eased);
    }

    /** `tailTick(time)`: the wait boundary, then completion, an interpolation frame, or nothing. */
    method TailTick(time: int, reg: Registry)
      requires Valid() && tickMode == TS.TailTick
      modifies this, reg, next
      ensures TailTickedFrom(old(State()), time, reg)
    {
      CheckWait(time);
      if time > endTime {
        Complete(time, reg);
      } else if time > startTime {
        var raw := TS.Progress(time, startTime, totalTime);
        ApplyFrame(raw, TS.Eased(easingFn, raw));
        if hasOnUpdate {
          events := events + [TS.OnUpdate(target)];
        }
      }
    }

    /** `tickThis(time)`: the registry calls it once per animation frame. */
    method Tick(time: int, reg: Registry)
      requires Valid()
      modifies this, reg, next
      ensures old(tickMode) == TS.FirstTick ==>
        State() == TS.FirstTicked(old(State()), time) && reg.tweens == old(reg.tweens)
      ensures old(tickMode) == TS.Idle ==> State() == old(State()) && reg.tweens == old(reg.tweens)
      ensures old(tickMode) == TS.TailTick ==> TailTickedFrom(old(State()), time, reg)
      ensures next == old(next) && (next != null && next != this && old(tickMode) != TS.TailTick ==> next.State() == old(next.State()))
    {
      match tickMode
      case FirstTick => FirstTick(time);
      case TailTick => TailTick(time, reg);
      case Idle =>
    }
  }

  /** Freshly pushed entries are consistent: their endpoints and increments are all zero. */
  lemma NewPropertiesConsistent(props: seq<(string, real)>, eased: bool, isFrom: bool, isColor: bool)
    ensures AllConsistent(Pushed(props, eased, isFrom, isColor))
  {
    assert Colour.Delta(0.0, 0.0) == Colour.Rgb(0, 0, 0) by {
      Colour.ChannelsOfNat(0);
    }
  }
}
