/** The property list of a JMTween (utils.js): what `to`, `from`, `colorTo` and `colorFrom`
    push, how `start` resolves each entry against the target object, how a frame and the
    completion write the target, and how `reverseProps` swaps an entry for a yoyo pass.
    The target object is a map from field names to numbers. */
module TweenProps {
  import Colour

  /** The literal an entry was given: `to: v` (animate from the current field to `v`) or
      `from: v` (animate from `v` to the current field). */
  datatype Mode = To(value: real) | From(value: real)

  /** One element of `properties`. `start`, `end`, `inc` (scalar) and `incRgb` (colour) are
      filled in by `start()`; before that they hold 0. */
  datatype Property = Property(key: string, eased: bool, mode: Mode, isColor: bool,
                               start: real, end: real, inc: real, incRgb: Colour.Rgb)

  /** The entry pushed for one key of the object handed to `to`/`from`/`colorTo`/`colorFrom`. */
  function NewProperty(key: string, value: real, eased: bool, isFrom: bool, isColor: bool): Property {
    Property(key, eased, if isFrom then From(value) else To(value), isColor, 0.0, 0.0, 0.0, Colour.Rgb(0, 0, 0))
  }

  /** The entries pushed, in key order, for the pairs of one call. */
  function Pushed(props: seq<(string, real)>, eased: bool, isFrom: bool, isColor: bool): seq<Property>
  {
    seq(|props|, i requires 0 <= i < |props| => NewProperty(props[i].0, props[i].1, eased, isFrom, isColor))
  }

  /** `object[key] || 0`: a missing field reads as 0. */
  function Field(obj: map<string, real>, key: string): real {
    if key in obj then obj[key] else 0.0
  }

  /** The increments `start()` and `reverseProps()` recompute: per channel for a colour,
      a scalar difference otherwise (the other kind is left as it was). */
  function Increments(p: Property): Property {
    if p.isColor then p.(incRgb := Colour.Delta(p.start, p.end)) else p.(inc := p.end - p.start)
  }

  /** The increments agree with the endpoints. */
  predicate Consistent(p: Property) {
    if p.isColor then p.incRgb == Colour.Delta(p.start, p.end) else p.inc == p.end - p.start
  }

  predicate AllConsistent(props: seq<Property>) {
    forall i :: 0 <= i < |props| ==> Consistent(props[i])
  }

  predicate KeysDistinct(props: seq<Property>) {
    forall i, j :: 0 <= i < j < |props| ==> props[i].key != props[j].key
  }

  /** What `start()` does with one entry, given the object as it is when the entry's turn comes. */
  function Resolve(p: Property, obj: map<string, real>): (r: Property)
    ensures Consistent(r)
    ensures r.key == p.key && r.eased == p.eased && r.mode == p.mode && r.isColor == p.isColor
  {
    var q := match p.mode
      case To(v) => p.(start := Field(obj, p.key), end := v)
      case From(v) => p.(start := v, end := Field(obj, p.key));
    Increments(q)
  }

  /** `start()`'s loop over the entries: each is resolved against the object as the earlier
      entries left it, and then its start value is written to its field. */
  function StartFold(props: seq<Property>, obj: map<string, real>): (r: (seq<Property>, map<string, real>))
    ensures |r.0| == |props|
  {
    if |props| == 0 then ([], obj)
    else
      var (ps, o) := StartFold(props[..|props| - 1], obj);
      var q := Resolve(props[|props| - 1], o);
      (ps + [q], o[q.key := q.start])
  }

  /** Writing fields in order; a later write to the same key wins. */
  function Assign(obj: map<string, real>, kvs: seq<(string, real)>): map<string, real> {
    if |kvs| == 0 then obj
    else Assign(obj, kvs[..|kvs| - 1])[kvs[|kvs| - 1].0 := kvs[|kvs| - 1].1]
  }

  /** The writes of `complete`: every field gets its entry's `end`. */
  function Ends(props: seq<Property>): seq<(string, real)>
  {
    seq(|props|, i requires 0 <= i < |props| => (props[i].key, props[i].end))
  }

  /** The target after `complete` snaps it. */
  function Snapped(obj: map<string, real>, props: seq<Property>): map<string, real> {
    Assign(obj, Ends(props))
  }

  /** An entry flagged `eased` follows the easing curve, the others the raw progress. */
  function Percent(p: Property, raw: real, eased: real): real {
    if p.eased then eased else raw
  }

  /** The value a frame writes for one entry at the given progress. */
  function Value(p: Property, percent: real): real {
    if p.isColor then Colour.Step(p.start, p.incRgb, percent) else p.start + p.inc * percent
  }

  /** The writes of one interpolation frame. */
  function Frame(props: seq<Property>, raw: real, eased: real): seq<(string, real)>
  {
    seq(|props|, i requires 0 <= i < |props| => (props[i].key, Value(props[i], Percent(props[i], raw, eased))))
  }

  /** `reverseProps` on one entry: swap the endpoints and recompute the increments. */
  function Swap(p: Property): (r: Property)
    ensures Consistent(r)
    ensures r.start == p.end && r.end == p.start
  {
    Increments(p.(start := p.end, end := p.start))
  }

  /** `reverseProps` on every entry, in order. */
  function Reversed(props: seq<Property>): seq<Property>
  {
    seq(|props|, i requires 0 <= i < |props| => Swap(props[i]))
  }

  /** The keys written by a list of writes. */
  function KeysOf(kvs: seq<(string, real)>): set<string> {
    set i | 0 <= i < |kvs| :: kvs[i].0
  }

  /** The keys named by a list of entries. */
  function KeySet(props: seq<Property>): set<string> {
    set i | 0 <= i < |props| :: props[i].key
  }

  lemma KeysOfSnoc(kvs: seq<(string, real)>)
    requires |kvs| > 0
    ensures KeysOf(kvs) == KeysOf(kvs[..|kvs| - 1]) + {kvs[|kvs| - 1].0}
  {
    var init := kvs[..|kvs| - 1];
    forall k | k in KeysOf(kvs) ensures k in KeysOf(init) + {kvs[|kvs| - 1].0} {
      var i :| 0 <= i < |kvs| && kvs[i].0 == k;
      if i < |kvs| - 1 { assert init[i] == kvs[i]; }
    }
    forall k | k in KeysOf(init) ensures k in KeysOf(kvs) {
      var i :| 0 <= i < |init| && init[i].0 == k;
      assert kvs[i] == init[i];
    }
  }

  lemma KeySetSnoc(props: seq<Property>)
    requires |props| > 0
    ensures KeySet(props) == KeySet(props[..|props| - 1]) + {props[|props| - 1].key}
  {
    var init := props[..|props| - 1];
    forall k | k in KeySet(props) ensures k in KeySet(init) + {props[|props| - 1].key} {
      var i :| 0 <= i < |props| && props[i].key == k;
      if i < |props| - 1 { assert init[i] == props[i]; }
    }
    forall k | k in KeySet(init) ensures k in KeySet(props) {
      var i :| 0 <= i < |init| && init[i].key == k;
      assert props[i] == init[i];
    }
  }

  // ---------------------------------------------------------------------------------------
  // Lemmas

  /** Writing distinct keys in any order: each key ends up with its own value, every other
      field keeps its value, and no field disappears. */
  lemma {:induction false} AssignDistinct(obj: map<string, real>, kvs: seq<(string, real)>)
    requires forall i, j :: 0 <= i < j < |kvs| ==> kvs[i].0 != kvs[j].0
    ensures Assign(obj, kvs).Keys == obj.Keys + KeysOf(kvs)
    ensures forall i :: 0 <= i < |kvs| ==> Assign(obj, kvs)[kvs[i].0] == kvs[i].1
    ensures forall k :: k in obj && k !in KeysOf(kvs) ==> Assign(obj, kvs)[k] == obj[k]
  {
    if |kvs| > 0 {
      var init := kvs[..|kvs| - 1];
      AssignDistinct(obj, init);
      KeysOfSnoc(kvs);
      forall i | 0 <= i < |kvs| - 1 ensures Assign(obj, kvs)[kvs[i].0] == kvs[i].1 {
        assert init[i] == kvs[i];
      }
    }
  }

  /** `start()` writes exactly the named fields: the object gains the entries' keys and every
      other field is untouched. */
  lemma {:induction false} StartWrites(props: seq<Property>, obj: map<string, real>)
    ensures var o := StartFold(props, obj).1;
      && o.Keys == obj.Keys + KeySet(props)
      && (forall k :: k in obj && k !in KeySet(props) ==> o[k] == obj[k])
  {
    if |props| > 0 {
      StartWrites(props[..|props| - 1], obj);
      KeySetSnoc(props);
    }
  }

  /** The key-wise outcome of `start()` when the entries name distinct fields: every entry is
      resolved against the object as it was before the call (a `to` entry, `to: 0` included,
      runs from the current field, 0 when absent, to its literal; a `from` entry from its
      literal to the current field), and every named field holds its entry's start value. */
  lemma {:induction false} StartResolves(props: seq<Property>, obj: map<string, real>)
    requires KeysDistinct(props)
    ensures var (ps, o) := StartFold(props, obj);
      && (forall i :: 0 <= i < |props| ==> ps[i] == Resolve(props[i], obj))
      && (forall i :: 0 <= i < |props| ==> props[i].key in o && o[props[i].key] == ps[i].start)
  {
    if |props| > 0 {
      var init := props[..|props| - 1];
      var last := props[|props| - 1];
      assert KeysDistinct(init);
      StartResolves(init, obj);
      var (ps, o) := StartFold(init, obj);
      var q := Resolve(last, o);
      assert q == Resolve(last, obj) by {
        StartWrites(init, obj);
        assert last.key !in KeySet(init);
        assert Field(o, last.key) == Field(obj, last.key);
      }
      var o' := o[q.key := q.start];
      forall i | 0 <= i < |props| ensures (ps + [q])[i] == Resolve(props[i], obj) {
        if i < |init| {
          assert (ps + [q])[i] == ps[i] && props[i] == init[i];
        } else {
          assert (ps + [q])[i] == q;
        }
      }
      forall i | 0 <= i < |props| ensures props[i].key in o' && o'[props[i].key] == (ps + [q])[i].start {
        if i < |init| { assert props[i] == init[i]; }
      }
    }
  }

  /** Every entry's start value is its own key's final value after `start()` and the entries'
      meaning in the `to` and `from` cases, spelled out. */
  lemma StartEndpoints(props: seq<Property>, obj: map<string, real>, i: nat)
    requires KeysDistinct(props) && i < |props|
    ensures var p := StartFold(props, obj).0[i];
      match props[i].mode
      case To(v) => p.start == Field(obj, props[i].key) && p.end == v
      case From(v) => p.start == v && p.end == Field(obj, props[i].key)
  {
    StartResolves(props, obj);
  }

  /** The resolved list is consistent: every increment matches its endpoints. */
  lemma {:induction false} StartFoldConsistent(props: seq<Property>, obj: map<string, real>)
    ensures AllConsistent(StartFold(props, obj).0)
    ensures forall i :: 0 <= i < |props| ==> StartFold(props, obj).0[i].key == props[i].key
  {
    if |props| > 0 {
      StartFoldConsistent(props[..|props| - 1], obj);
    }
  }

  /** After a snap with distinct keys, each field holds its entry's `end`. */
  lemma SnappedFields(obj: map<string, real>, props: seq<Property>)
    requires KeysDistinct(props)
    ensures forall i :: 0 <= i < |props| ==>
      props[i].key in Snapped(obj, props) && Snapped(obj, props)[props[i].key] == props[i].end
  {
    var kvs := Ends(props);
    forall i, j | 0 <= i < j < |kvs| ensures kvs[i].0 != kvs[j].0 { }
    AssignDistinct(obj, kvs);
    forall i | 0 <= i < |props| ensures props[i].key in KeysOf(kvs) {
      assert kvs[i].0 == props[i].key;
    }
  }

  /** Snapping to the ends of the reversed entries writes every field's original start. */
  lemma SnapReversedIsStart(obj: map<string, real>, props: seq<Property>)
    requires KeysDistinct(props)
    ensures forall i :: 0 <= i < |props| ==>
      props[i].key in Snapped(obj, Reversed(props)) && Snapped(obj, Reversed(props))[props[i].key] == props[i].start
  {
    var rs := Reversed(props);
    ReversedKeys(props);
    SnappedFields(obj, rs);
    forall i | 0 <= i < |props| ensures rs[i].key == props[i].key && rs[i].end == props[i].start {
      assert rs[i] == Swap(props[i]);
    }
  }

  /** A whole number held as a real. */
  predicate IsNat(x: real) {
    x >= 0.0 && x == x.Floor as real
  }

  /** With consistent increments, a frame at progress 0 writes the entry's start and at
      progress 1 its end; for a colour this holds when both endpoints are whole non-negative numbers. */
  lemma ValueEndpoints(p: Property)
    requires Consistent(p)
    requires p.isColor ==> IsNat(p.start) && IsNat(p.end)
    ensures Value(p, 0.0) == p.start && Value(p, 1.0) == p.end
  {
    if p.isColor {
      var s, e := p.start.Floor, p.end.Floor;
      Colour.StepEndpoints(s, e);
    }
  }

  /** A frame at progress 1 lands every field on the same value as the completion snap. */
  lemma {:induction false} FrameAtOneIsSnap(obj: map<string, real>, props: seq<Property>, eased: real)
    requires AllConsistent(props)
    requires forall i :: 0 <= i < |props| ==> props[i].isColor ==> IsNat(props[i].start) && IsNat(props[i].end)
    requires forall i :: 0 <= i < |props| ==> props[i].eased ==> eased == 1.0
    ensures Assign(obj, Frame(props, 1.0, eased)) == Snapped(obj, props)
  {
    forall i | 0 <= i < |props| ensures Frame(props, 1.0, eased)[i] == Ends(props)[i] {
      ValueEndpoints(props[i]);
    }
    assert Frame(props, 1.0, eased) == Ends(props);
  }

  /** `reverseProps` applied twice restores every entry's start, end and increments. */
  lemma SwapTwice(p: Property)
    requires Consistent(p)
    ensures Swap(Swap(p)) == p
  {
  }

  lemma ReversedTwice(props: seq<Property>)
    requires AllConsistent(props)
    ensures Reversed(Reversed(props)) == props
  {
    forall i | 0 <= i < |props| ensures Reversed(Reversed(props))[i] == props[i] {
      SwapTwice(props[i]);
    }
  }

  /** A reversed list is consistent and names the same keys. */
  lemma ReversedKeys(props: seq<Property>)
    ensures AllConsistent(Reversed(props))
    ensures KeysDistinct(props) ==> KeysDistinct(Reversed(props))
  {
  }
}
