/**
 * The activity scheduler: class ActivityManager (its execution lists, the
 * round-robin core counter and the per-frame passes), class Activity with
 * its Timer and Tween specialisations (one class, told apart by `kind`), and
 * the objects tweens and timers work on, seen through the reflection
 * accessor as a map from member name to value.
 *
 * Callbacks are recorded in the manager's event log: every hook appends an
 * event naming the activity and the hook, in the order the source calls them.
 * The clock is a parameter: `frameDelta` stands for Time.deltaTime, `clockMs`
 * for DateTime.UtcNow in milliseconds and `isPlaying` for Application.isPlaying.
 */
module Scheduler {
  import opened Wrappers
  import opened IndexedRemoval
  import opened Registry
  import opened TweenValues
  import opened Numerics

  // ------------------------------------------------------------ targets

  /** Tween.Target: how a tween reaches its target (Material is not part of this model). */
  datatype TargetKind = DefaultTarget | TransformTarget | ComponentTarget

  /** Reflection.Get<T>: the member's value read as T, default(T) when there is no such field or property. */
  function Lookup(attrs: map<string, Value>, name: string, f: Format): (v: Value)
    ensures HasFormat(v, f)
    ensures name !in attrs ==> v == Default(f)
  {
    if name in attrs then Coerce(attrs[name], f) else Default(f)
  }

  /** Reflection.Set: writes an existing field or property and does nothing when there is none. */
  function Store(attrs: map<string, Value>, name: string, v: Value): (r: map<string, Value>)
    ensures r.Keys == attrs.Keys
    ensures name in attrs ==> r[name] == v
    ensures forall n :: n in attrs && n != name ==> r[n] == attrs[n]
  {
    if name in attrs then attrs[name := v] else attrs
  }

  /** A value stored under an existing member reads back unchanged as its own type; other members are untouched. */
  lemma LookupStore(attrs: map<string, Value>, name: string, other: string, v: Value, f: Format)
    requires HasFormat(v, f)
    ensures name in attrs ==> Lookup(Store(attrs, name, v), name, f) == v
    ensures name !in attrs ==> Lookup(Store(attrs, name, v), name, f) == Default(f)
    ensures other != name ==> Lookup(Store(attrs, name, v), other, f) == Lookup(attrs, other, f)
  {
  }

  /** An object a tween or a timer works on: its fields and properties by name, and its method names. */
  class Target {
    var attrs: map<string, Value>
    const methods: set<string>
    const kind: TargetKind

    constructor (attrs: map<string, Value>, methods: set<string>, kind: TargetKind)
      ensures this.attrs == attrs && this.methods == methods && this.kind == kind
    {
      this.attrs := attrs;
      this.methods := methods;
      this.kind := kind;
    }

    /** Reflection.Contains: a field, a property or a method of that name exists. */
    predicate Contains(name: string)
      reads this
    {
      name in attrs || name in methods
    }

    /** Reflection.Set on this object. */
    method Set(name: string, v: Value)
      modifies this
      ensures attrs == Store(old(attrs), name, v)
    {
      if name in attrs {
        attrs := attrs[name := v];
      }
    }
  }

  /** The members of a target, none for a null one. */
  function Attrs(t: Target?): map<string, Value>
    reads t
  {
    if t == null then map[] else t.attrs
  }

  /**
   * The validity check of Tween.OnStart as written: None when it throws.
   * Reflection.Contains asks the target for its type before `valid` is
   * assigned, so a null target raises instead of being reported invalid.
   */
  function StartValidityAsWritten(target: Target?, property: string): (r: Option<bool>)
    reads target
    ensures r.None? <==> target == null
    ensures r.Some? ==> (r.value <==> target.Contains(property))
  {
    if target == null then None else Some(target.Contains(property))
  }

  /** The check evidently intended, and the one TweenStart performs: a null target is invalid. */
  function StartValidity(target: Target?, property: string): (v: bool)
    reads target
    ensures v ==> target != null
    ensures target != null ==> (v <==> property in target.attrs || property in target.methods)
  {
    target != null && target.Contains(property)
  }

  /**
   * The two checks agree on every non-null target; on a null one the code
   * as written throws where the intended check reports the tween invalid.
   */
  lemma NullTargetThrows(target: Target?, property: string)
    ensures target == null ==> StartValidityAsWritten(target, property).None? && !StartValidity(target, property)
    ensures target != null ==> StartValidityAsWritten(target, property) == Some(StartValidity(target, property))
  {
  }

  // ------------------------------------------------------------ events

  /**
   * The hooks an activity runs, each logged when it is entered. The delegate
   * paired with a hook (OnActivityStart, OnActivityExecute, OnTimerComplete,
   * OnActivityStop) fires when the hook returns, after the events nested in it.
   */
  datatype Hook =
    | Started            // OnStart
    | Executed           // OnExecute
    | Stepped(step: int) // OnTimerStep, seeing the step before the increment
    | Completed          // OnComplete
    | Stopped            // OnStop
    | Lerped(ratio: real)
    | Invoked(methodName: string)
    | Sampled(value: Value)

  /** One entry of the callback trace: an activity's hook, or a node's frame callback. */
  datatype Event = Fired(activity: Activity, hook: Hook) | Called(node: Node, frame: Frame)

  /** The Stopped events of a sequence of stopped activities, in order. */
  function StopEvents(xs: seq<Activity>): (es: seq<Event>)
    ensures |es| == |xs|
    ensures forall k :: 0 <= k < |xs| ==> es[k] == Fired(xs[k], Stopped)
  {
    if xs == [] then [] else StopEvents(xs[..|xs| - 1]) + [Fired(xs[|xs| - 1], Stopped)]
  }

  lemma StopEventsSnoc(xs: seq<Activity>, x: Activity)
    ensures StopEvents(xs + [x]) == StopEvents(xs) + [Fired(x, Stopped)]
  {
    assert (xs + [x])[..|xs|] == xs;
  }

  /** The frame callbacks of a list of nodes, in order. */
  function CallEvents(ns: seq<Node>, f: Frame): (es: seq<Event>)
    ensures |es| == |ns|
    ensures forall k :: 0 <= k < |ns| ==> es[k] == Called(ns[k], f)
  {
    if ns == [] then [] else CallEvents(ns[..|ns| - 1], f) + [Called(ns[|ns| - 1], f)]
  }

  // ------------------------------------------------------------ clock and progress

  /**
   * The deltaTime of a tick. On Unity time it is Time.deltaTime; otherwise
   * the wall-clock time since the previous tick, in seconds, and 1/60 when
   * that is not positive.
   */
  function TickDelta(unityTime: bool, frameDelta: real, sinceStartMs: real, lastTickMs: real): (d: real)
    ensures unityTime ==> d == frameDelta
    ensures !unityTime ==> d > 0.0
    ensures !unityTime && sinceStartMs > lastTickMs ==> d == (sinceStartMs - lastTickMs) / 1000.0
    ensures !unityTime && sinceStartMs <= lastTickMs ==> d == 1.0 / 60.0
  {
    if unityTime then frameDelta
    else
      var d := (sinceStartMs - lastTickMs) * 0.001;
      if d <= 0.0 then 1.0 / 60.0 else d
  }

  /** Whether a tick that adds delta to elapsed runs the start hook: elapsed crosses from <= 0 to >= 0. */
  predicate StartDue(before: real, delta: real)
  {
    before <= 0.0 && before + delta >= 0.0
  }

  /** Whether a tick that adds delta to elapsed runs the execute hook: elapsed is >= 0 afterwards. */
  predicate ExecuteDue(before: real, delta: real)
  {
    before + delta >= 0.0
  }

  /**
   * A timer's restart sets elapsed back to 0, so on a wall-clock tick of the
   * next cycle the start hook runs again, and so does the execute hook.
   */
  lemma RestartRearmsStart(unityTime: bool, frameDelta: real, sinceStartMs: real, lastTickMs: real)
    requires !unityTime || frameDelta >= 0.0
    ensures StartDue(0.0, TickDelta(unityTime, frameDelta, sinceStartMs, lastTickMs))
    ensures ExecuteDue(0.0, TickDelta(unityTime, frameDelta, sinceStartMs, lastTickMs))
  {
  }

  /**
   * The start hook never runs without the execute hook on the same tick.
   * Once executing, an activity keeps executing on every later tick with a
   * non-negative delta, and starts again only from exactly elapsed = 0.
   */
  lemma StartThenExecute(before: real, delta: real, next: real)
    requires next >= 0.0
    ensures StartDue(before, delta) ==> ExecuteDue(before, delta)
    ensures ExecuteDue(before, delta) ==> ExecuteDue(before + delta, next)
    ensures ExecuteDue(before, delta) ==> (StartDue(before + delta, next) <==> before + delta == 0.0)
  {
  }

  /**
   * Timer.progress: elapsed / duration clamped to [0, 1]; with no positive
   * duration, 1 while the timer is running and 0 otherwise.
   */
  function TimerProgress(duration: real, elapsed: real, running: bool): (r: real)
    ensures 0.0 <= r <= 1.0
    ensures duration > 0.0 ==> r == Clamp01(elapsed / duration)
    ensures duration <= 0.0 ==> (r == 1.0 <==> running && elapsed >= 0.0)
    ensures duration <= 0.0 ==> (r == 0.0 <==> !(running && elapsed >= 0.0))
  {
    var r := if duration <= 0.0 then (if running then (if elapsed >= 0.0 then 1.0 else 0.0) else 0.0)
             else elapsed / duration;
    if r < 0.0 then 0.0 else if r > 1.0 then 1.0 else r
  }

  /**
   * The ratio of the last Lerp on a tween's completing tick. Completion
   * clamps elapsed to duration and stops the tween, so OnExecute's
   * Lerp(progress * 0.999) runs with the tween no longer registered.
   */
  function FinalRatio(duration: real): real
  {
    0.999 * TimerProgress(duration, duration, false)
  }

  /**
   * On its completing tick a tween writes Lerp(1) and then overwrites it with
   * Lerp(0.999): the value left is not `to`. With no positive duration the
   * second write is Lerp(0), which puts `from` back.
   */
  lemma FinalWriteIsNotTo(f: Format, from: Value, to: Value, easing: real -> real, duration: real)
    requires IsLinear(f) && HasFormat(from, f) && HasFormat(to, f)
    ensures duration > 0.0 ==> FinalRatio(duration) == 0.999
    ensures duration <= 0.0 ==> FinalRatio(duration) == 0.0
    ensures duration <= 0.0 && easing(0.0) == 0.0 ==> LinearLerp(f, from, to, easing(FinalRatio(duration))) == from
  {
    if duration > 0.0 {
      assert duration / duration == 1.0;
    }
  }

  // ------------------------------------------------------------ activity kinds

  /**
   * Which factory built an activity, i.e. what its OnExecute, step and
   * completion callbacks do.
   */
  datatype Kind =
    | Plain                                // Activity.Run(Action<Activity>): the callback only
    | RunWhile(keep: real -> bool)         // Activity.Run(Predicate<float>): stops when keep(elapsed) is false
    | RunFor(limit: real)                  // Activity.Run(Action, duration): stops once elapsed >= duration
    | RunOnce                              // Activity.RunOnce: stops after the first execution
    | TimerSteps(notify: bool)             // Timer.Run: step callback (when given)
    | TimerInvoke(methodName: string)         // Timer.Invoke: calls a method of the target on completion
    | TimerSet(value: Value)               // Timer.Set: writes the target's property on completion
    | TimerGet(format: Format, notify: bool) // Timer.Get: reads the target's property on completion
    | TweenOf(format: Format)              // Tween.Add<T>: the specialised tween of that format
  {
    /** Whether the activity is a Timer (tweens are timers). */
    predicate IsTimer()
    {
      !(Plain? || RunWhile? || RunFor? || RunOnce?)
    }
  }

  /** Which activities a pass over the list ticks: Update takes the non-threaded ones, ThreadUpdate(c) the threaded ones on core c. */
  datatype Pass = FramePass | CorePass(core: int)

  predicate Selected(p: Pass, a: Activity)
  {
    match p
    case FramePass => !a.threaded
    case CorePass(c) => a.threaded && a.core == c
  }

  /** The activities of a list with the given name. */
  function NamedActivities(s: seq<Activity>, name: string): set<Activity>
  {
    set a | a in s && a.name == name
  }

  /** The nodes of a list with the given name. */
  function NamedNodes(s: seq<Node>, name: string): set<Node>
  {
    set n | n in s && n.name == name
  }

  /** Kill's filter: a tween, on the given target unless that is null, on the given property unless that is empty. */
  predicate KillMatch(a: Activity, target: Target?, property: string)
  {
    a.kind.TweenOf? && (target == null || a.target == target) && (property == "" || a.property == property)
  }

  /** The activities of a list that Kill(target, property) stops when it visits them. */
  function KillSet(s: seq<Activity>, target: Target?, property: string): set<Activity>
  {
    set a | a in s && KillMatch(a, target, property)
  }

  /** KillDuplicates' filter: another tween on the same target and property whose delay is over. */
  predicate Duplicate(t0: Activity, t1: Activity)
    reads t1`elapsed
  {
    t1.kind.TweenOf? && t1 != t0 && t1.target == t0.target && t1.property == t0.property && t1.elapsed >= 0.0
  }

  /** The activities of a list that KillDuplicates(t0) stops when it visits them. */
  function Duplicates(s: seq<Activity>, t0: Activity): set<Activity>
    reads (set a | a in s)`elapsed
  {
    set a | a in s && Duplicate(t0, a)
  }

  /** The tweens of a list whose delay is over (elapsed >= 0), in list order. */
  function RunningTweens(s: seq<Activity>): (r: seq<Activity>)
    reads (set a | a in s)`elapsed
    ensures |r| <= |s|
    ensures forall k :: 0 <= k < |r| ==> r[k] in s && r[k].kind.TweenOf? && r[k].elapsed >= 0.0
    ensures forall k :: 0 <= k < |s| && s[k].kind.TweenOf? && s[k].elapsed >= 0.0 ==> s[k] in r
  {
    if s == [] then []
    else
      var last := s[|s| - 1];
      RunningTweens(s[..|s| - 1]) + (if last.kind.TweenOf? && last.elapsed >= 0.0 then [last] else [])
  }

  /** The running tweens are a subsequence of the registered tweens: the tween list filtered again, by elapsed. */
  lemma {:induction false} RunningTweensInTweenOrder(s: seq<Activity>)
    ensures RunningTweens(s) == RunningTweens(Filter(s, (a: Activity) => a.kind.TweenOf?))
  {
    if s != [] {
      var init := s[..|s| - 1];
      var last := s[|s| - 1];
      RunningTweensInTweenOrder(init);
      var ts := Filter(init, (a: Activity) => a.kind.TweenOf?);
      if last.kind.TweenOf? {
        assert Filter(s, (a: Activity) => a.kind.TweenOf?) == ts + [last];
        assert (ts + [last])[..|ts|] == ts;
      } else {
        assert Filter(s, (a: Activity) => a.kind.TweenOf?) == ts;
      }
    }
  }

  // ------------------------------------------------------------ manager

  /** ActivityManager: the execution lists, the core counter and the event trace. */
  class Manager {
    var activities: seq<Activity>
    var nodes: map<ListId, seq<Node>>
    var counter: int
    const cores: int
    var log: seq<Event>

    ghost predicate Valid()
      reads this
    {
      && cores >= 1 && 0 <= counter < cores
      && Distinct(activities)
      && (forall a :: a in activities ==> a.manager == this)
      && (forall l: ListId :: l != Activities ==> l in nodes)
    }

    /** A manager with empty lists; the core counter starts at 0. */
    constructor (cores: int)
      requires cores >= 1
      ensures Valid()
      ensures this.cores == cores && counter == 0 && activities == [] && log == []
      ensures forall l :: l in nodes ==> nodes[l] == []
    {
      this.cores := cores;
      counter := 0;
      activities := [];
      log := [];
      nodes := map[Behaviours := [], Updates := [], ConditionalUpdates := [], LateUpdates := [], FixedUpdates := []];
    }

    /** nextCore: advances the counter modulo the core count and returns it. */
    method NextCore() returns (c: int)
      requires Valid()
      modifies this`counter
      ensures Valid()
      ensures c == counter && c == Registry.NextCore(old(counter), cores)
    {
      counter := Registry.NextCore(counter, cores);
      c := counter;
    }

    /** Add for an Activity: appends it unless it is already registered. */
    method AddActivity(a: Activity) returns (added: bool)
      requires Valid() && a.manager == this
      modifies this`activities
      ensures Valid()
      ensures added <==> a !in old(activities)
      ensures activities == if added then old(activities) + [a] else old(activities)
    {
      if IndexOf(activities, a) >= 0 {
        return false;
      }
      activities := activities + [a];
      added := true;
    }

    /** Remove for an Activity: List.Remove when it is registered. */
    method RemoveActivity(a: Activity) returns (found: bool)
      requires Valid()
      modifies this`activities
      ensures Valid()
      ensures found <==> a in old(activities)
      ensures activities == RemoveFirst(old(activities), a)
      ensures a !in activities
      ensures Shrinks(activities, old(activities))
    {
      var i := IndexOf(activities, a);
      if i < 0 {
        ShrinksRefl(activities);
        return false;
      }
      RemovePresent(activities, a);
      activities := RemoveFirst(activities, a);
      found := true;
    }

    /**
     * Add for any other node: None stands for the exception GetList's null
     * result causes; otherwise false when the node is already in its list.
     */
    method Add(n: Node) returns (r: Option<bool>)
      requires Valid() && GetList(n.caps) != Some(Activities)
      modifies this`nodes
      ensures Valid()
      ensures GetList(n.caps).None? ==> r.None? && nodes == old(nodes)
      ensures GetList(n.caps).Some? ==>
        var l := GetList(n.caps).value;
        && r == Some(n !in old(nodes)[l])
        && nodes == old(nodes)[l := if n in old(nodes)[l] then old(nodes)[l] else old(nodes)[l] + [n]]
    {
      var l := GetList(n.caps);
      if l.None? {
        return None;
      }
      var list := nodes[l.value];
      if IndexOf(list, n) >= 0 {
        return Some(false);
      }
      nodes := nodes[l.value := list + [n]];
      r := Some(true);
    }

    /** Remove for any other node: None for the null list, otherwise whether it was there. */
    method Remove(n: Node) returns (r: Option<bool>)
      requires Valid() && GetList(n.caps) != Some(Activities)
      modifies this`nodes
      ensures Valid()
      ensures GetList(n.caps).None? ==> r.None? && nodes == old(nodes)
      ensures GetList(n.caps).Some? ==>
        var l := GetList(n.caps).value;
        && r == Some(n in old(nodes)[l])
        && nodes == old(nodes)[l := RemoveFirst(old(nodes)[l], n)]
    {
      var l := GetList(n.caps);
      if l.None? {
        return None;
      }
      var list := nodes[l.value];
      if IndexOf(list, n) < 0 {
        assert nodes[l.value := RemoveFirst(list, n)] == nodes;
        return Some(false);
      }
      nodes := nodes[l.value := RemoveFirst(list, n)];
      r := Some(true);
    }

    /**
     * RemoveByName: drops every activity and every behaviour with that name,
     * keeping the others in order, and returns how many were dropped.
     */
    method RemoveByName(name: string) returns (k: int)
      requires Valid()
      modifies this`activities, this`nodes
      ensures Valid()
      ensures activities == Without(old(activities), NamedActivities(old(activities), name))
      ensures nodes == old(nodes)[Behaviours := Without(old(nodes)[Behaviours], NamedNodes(old(nodes)[Behaviours], name))]
      ensures k == (|old(activities)| - |activities|) + (|old(nodes)[Behaviours]| - |nodes[Behaviours]|)
    {
      ghost var d := NamedActivities(activities, name);
      var al, k1 := RemoveActivitiesNamed(activities, name);
      ShrinksWithout(activities, d);
      WithoutDistinct(activities, d);
      forall a | a in al
        ensures a in activities
      {
        WithoutIn(activities, d, a);
      }
      activities := al;
      var bl, k2 := RemoveNodesNamed(nodes[Behaviours], name);
      nodes := nodes[Behaviours := bl];
      k := k1 + k2;
    }

    /** The first loop of RemoveByName: `if (al[i].name == name) { al.RemoveAt(i--); k++; }`. */
    static method RemoveActivitiesNamed(al0: seq<Activity>, name: string) returns (al: seq<Activity>, k: int)
      ensures al == Without(al0, NamedActivities(al0, name))
      ensures k == |al0| - |al|
    {
      ghost var d := NamedActivities(al0, name);
      al := al0;
      k := 0;
      var i := 0;
      ghost var j := 0;
      while i < |al|
        invariant 0 <= i <= |al| && i <= j <= |al0|
        invariant al[..i] == Without(al0[..j], d) && al[i..] == al0[j..]
        invariant k == j - i
        decreases |al| - i
      {
        assert al0[..j + 1][..j] == al0[..j];
        assert al[i] == al0[j];
        assert al0[j] in d <==> al[i].name == name;
        if al[i].name == name {
          assert al[i + 1..] == al0[j + 1..];
          al := al[..i] + al[i + 1..];
          assert al[..i] == Without(al0[..j + 1], d);
          assert al[i..] == al0[j + 1..];
          k := k + 1;
        } else {
          assert al[..i + 1] == al[..i] + [al0[j]];
          i := i + 1;
        }
        j := j + 1;
      }
      assert al0[..j] == al0;
      assert al[..i] == al;
    }

    /** The second loop of RemoveByName, over the behaviours. */
    static method RemoveNodesNamed(bl0: seq<Node>, name: string) returns (bl: seq<Node>, k: int)
      ensures bl == Without(bl0, NamedNodes(bl0, name))
      ensures k == |bl0| - |bl|
    {
      ghost var d := NamedNodes(bl0, name);
      bl := bl0;
      k := 0;
      var i := 0;
      ghost var j := 0;
      while i < |bl|
        invariant 0 <= i <= |bl| && i <= j <= |bl0|
        invariant bl[..i] == Without(bl0[..j], d) && bl[i..] == bl0[j..]
        invariant k == j - i
        decreases |bl| - i
      {
        assert bl0[..j + 1][..j] == bl0[..j];
        assert bl[i] == bl0[j];
        if bl[i].name == name {
          assert bl[i + 1..] == bl0[j + 1..];
          bl := bl[..i] + bl[i + 1..];
          assert bl[..i] == Without(bl0[..j + 1], d);
          assert bl[i..] == bl0[j + 1..];
          k := k + 1;
        } else {
          assert bl[..i + 1] == bl[..i] + [bl0[j]];
          i := i + 1;
        }
        j := j + 1;
      }
      assert bl0[..j] == bl0;
      assert bl[..i] == bl;
    }

    /**
     * The index loop of Kill and KillDuplicates: stops every doomed entry it
     * visits. Stop shrinks the list under the loop, so the entry after each
     * stopped one moves into its slot and is passed over.
     */
    method StopSweep(doomed: set<Activity>)
      requires Valid()
      modifies this`activities, this`log
      ensures Valid()
      ensures activities == Sweep(old(activities), 0, doomed).kept
      ensures log == old(log) + StopEvents(Sweep(old(activities), 0, doomed).removed)
    {
      ghost var total := Sweep(activities, 0, doomed);
      ghost var gone: seq<Activity> := [];
      var i := 0;
      while i < |activities|
        invariant Valid()
        invariant Sweep(activities, i, doomed).kept == total.kept
        invariant gone + Sweep(activities, i, doomed).removed == total.removed
        invariant log == old(log) + StopEvents(gone)
        decreases |activities| + 1 - i
      {
        gone := SweepAt(i, doomed, gone, total, old(log));
        i := i + 1;
      }
      SweepDone(activities, i, doomed);
    }

    /** One visit of that loop: the activity in slot i is stopped when doomed, and the loop invariant carries over to i + 1. */
    method SweepAt(i: int, doomed: set<Activity>, ghost gone: seq<Activity>, ghost total: SweepResult<Activity>, ghost log0: seq<Event>)
      returns (ghost gone': seq<Activity>)
      requires Valid() && 0 <= i < |activities|
      requires Sweep(activities, i, doomed).kept == total.kept
      requires gone + Sweep(activities, i, doomed).removed == total.removed
      requires log == log0 + StopEvents(gone)
      modifies this`activities, this`log
      ensures Valid() && |activities| <= old(|activities|)
      ensures Sweep(activities, i + 1, doomed).kept == total.kept
      ensures gone' + Sweep(activities, i + 1, doomed).removed == total.removed
      ensures log == log0 + StopEvents(gone')
    {
      var a := activities[i];
      if a in doomed {
        SweepStepRemove(activities, i, doomed, gone, total);
        StopAt(i);
        StopEventsSnoc(gone, a);
        gone' := gone + [a];
      } else {
        SweepStepPass(activities, i, doomed, gone, total);
        gone' := gone;
      }
    }

    /** Stop() called on the activity in slot i: the slot closes and one Stopped event is logged. */
    method StopAt(i: int)
      requires Valid() && 0 <= i < |activities|
      modifies this`activities, this`log
      ensures Valid()
      ensures activities == old(activities[..i] + activities[i + 1..])
      ensures log == old(log) + [Fired(old(activities[i]), Stopped)]
    {
      var a := activities[i];
      RemoveFirstAt(activities, i);
      a.Stop();
    }

    /** Tween.Kill: stops the tweens matching the target (null = any) and property ("" = any) filters. */
    method Kill(target: Target?, property: string)
      requires Valid()
      modifies this`activities, this`log
      ensures Valid()
      ensures activities == Sweep(old(activities), 0, KillSet(old(activities), target, property)).kept
      ensures log == old(log) + StopEvents(Sweep(old(activities), 0, KillSet(old(activities), target, property)).removed)
    {
      StopSweep(KillSet(activities, target, property));
    }

    /** Tween.KillDuplicates: stops the other started tweens on t0's target and property. */
    method KillDuplicates(t0: Activity)
      requires Valid()
      modifies this`activities, this`log
      ensures Valid()
      ensures activities == Sweep(old(activities), 0, old(Duplicates(activities, t0))).kept
      ensures log == old(log) + StopEvents(Sweep(old(activities), 0, old(Duplicates(activities, t0))).removed)
    {
      StopSweep(Duplicates(activities, t0));
    }

    /** Tween.all: the registered tweens, in list order. */
    method AllTweens() returns (res: seq<Activity>)
      ensures res == Filter(activities, (a: Activity) => a.kind.TweenOf?)
    {
      res := [];
      var i := 0;
      while i < |activities|
        invariant 0 <= i <= |activities|
        invariant res == Filter(activities[..i], (a: Activity) => a.kind.TweenOf?)
      {
        assert activities[..i + 1][..i] == activities[..i];
        if activities[i].kind.TweenOf? {
          res := res + [activities[i]];
        }
        i := i + 1;
      }
      assert activities[..i] == activities;
    }

    /** Tween.allRunning: the registered tweens whose delay is over, in list order. */
    method AllRunning() returns (res: seq<Activity>)
      ensures |res| <= |activities|
      ensures forall t :: t in res <==> t in activities && t.kind.TweenOf? && t.elapsed >= 0.0
      ensures forall k :: 0 <= k < |res| ==> res[k] in Filter(activities, (a: Activity) => a.kind.TweenOf?)
      ensures res == RunningTweens(activities)
    {
      res := [];
      var i := 0;
      ghost var tweens := [];
      while i < |activities|
        invariant 0 <= i <= |activities|
        invariant res == RunningTweens(activities[..i])
        invariant forall t :: t in res <==> t in activities[..i] && t.kind.TweenOf? && t.elapsed >= 0.0
        invariant tweens == Filter(activities[..i], (a: Activity) => a.kind.TweenOf?)
        invariant forall t :: t in res ==> t in tweens
      {
        assert activities[..i + 1] == activities[..i] + [activities[i]];
        assert activities[..i + 1][..i] == activities[..i];
        if activities[i].kind.TweenOf? {
          tweens := tweens + [activities[i]];
          if activities[i].elapsed >= 0.0 {
            res := res + [activities[i]];
          }
        }
        i := i + 1;
      }
      assert activities[..i] == activities;
    }

    /**
     * The activity pass of Update (FramePass) or ThreadUpdate(c) (CorePass(c)):
     * `for (i = 0; i < al.Count; i++) if (selected(al[i])) al[i].OnUpdate();`.
     * Ticks may stop activities, so the list only shrinks; every activity
     * ticked was registered and selected, and when nothing is stopped the
     * ticked ones are exactly the selected ones, in list order.
     */
    method TickPass(p: Pass, isPlaying: bool, frameDelta: real, clockMs: real) returns (ghost ticked: seq<Activity>)
      requires Valid()
      modifies this`activities, this`log, set a | a in activities, set a | a in activities :: a.target
      ensures Valid()
      ensures Shrinks(activities, old(activities))
      ensures old(log) <= log
      ensures forall a :: a in ticked ==> a in old(activities) && Selected(p, a)
      ensures |activities| == |old(activities)| ==> ticked == Filter(old(activities), (a: Activity) => Selected(p, a))
    {
      ghost var orig := activities;
      ticked := [];
      ShrinksRefl(activities);
      var i := 0;
      while i < |activities|
        invariant Valid()
        invariant Shrinks(activities, orig)
        invariant old(log) <= log
        invariant forall a :: a in ticked ==> a in orig && Selected(p, a)
        invariant |activities| == |orig| ==> i <= |orig| && ticked == Filter(orig[..i], (a: Activity) => Selected(p, a))
        decreases |activities| - i
      {
        var a := activities[i];
        ghost var before := activities;
        assert a in orig by {
          WithoutIn(orig, Gone(orig, activities), a);
        }
        var ticks := TickAt(p, i, isPlaying, frameDelta, clockMs);
        if ticks {
          ticked := ticked + [a];
        }
        assert Shrinks(activities, orig) by {
          ShrinksTrans(activities, before, orig);
        }
        assert |activities| == |orig| ==> ticked == Filter(orig[..i + 1], (a: Activity) => Selected(p, a)) by {
          if |activities| == |orig| {
            ShrinksSameLength(before, orig);
            FilterSnoc(orig, i, (a: Activity) => Selected(p, a));
          }
        }
        i := i + 1;
      }
      if |activities| == |orig| {
        assert orig[..i] == orig;
      }
    }

    /** One step of the activity pass: the activity in slot i is ticked when the pass selects it. */
    method TickAt(p: Pass, i: int, isPlaying: bool, frameDelta: real, clockMs: real) returns (ticks: bool)
      requires Valid() && 0 <= i < |activities|
      modifies this`activities, this`log, activities[i], activities[i].target
      ensures Valid()
      ensures ticks == Selected(p, old(activities[i]))
      ensures Shrinks(activities, old(activities))
      ensures old(log) <= log
      ensures |activities| == |old(activities)| ==> activities == old(activities)
    {
      var a := activities[i];
      ticks := Selected(p, a);
      if ticks {
        a.OnUpdate(isPlaying, frameDelta, clockMs);
      } else {
        ShrinksRefl(activities);
      }
      if |activities| == |old(activities)| {
        ShrinksSameLength(activities, old(activities));
      }
    }

    /**
     * Update: the `updates` list, then the non-threaded activities, then the
     * behaviours (with the index kept in range, see Registry.BehaviourPass).
     * `destroyed` are the behaviours Unity has destroyed and `cond` stands for
     * their OnConditionUpdate answers.
     */
    method Update(isPlaying: bool, frameDelta: real, clockMs: real, destroyed: set<Node>, cond: Node -> bool)
      returns (ghost ticked: seq<Activity>)
      requires Valid()
      modifies this`activities, this`log, this`nodes, set a | a in activities, set a | a in activities :: a.target
      ensures Valid()
      ensures Shrinks(activities, old(activities))
      ensures forall a :: a in ticked ==> a in old(activities) && !a.threaded
      ensures |activities| == |old(activities)| ==> ticked == Filter(old(activities), (a: Activity) => Selected(FramePass, a))
      ensures nodes == old(nodes)[Behaviours := BehaviourPass(UpdateFrame, old(nodes)[Behaviours], destroyed, cond).list]
      ensures old(log) + CallEvents(old(nodes)[Updates], UpdateFrame) <= log
      ensures var ticks := BehaviourPass(UpdateFrame, old(nodes)[Behaviours], destroyed, cond).ticks;
              |ticks| <= |log| && log[|log| - |ticks|..] == CallEvents(ticks, UpdateFrame)
    {
      var ul := nodes[Updates];
      log := log + CallEvents(ul, UpdateFrame);
      ghost var afterUpdates := log;
      ticked := TickPass(FramePass, isPlaying, frameDelta, clockMs);
      var r := BehaviourPass(UpdateFrame, nodes[Behaviours], destroyed, cond);
      nodes := nodes[Behaviours := r.list];
      log := log + CallEvents(r.ticks, UpdateFrame);
      assert afterUpdates <= log;
    }

    /**
     * ThreadUpdate(core): the threaded activities on that core, ticked on the
     * wall clock (the thread abort check is not part of this model).
     */
    method ThreadUpdate(core: int, clockMs: real) returns (ghost ticked: seq<Activity>)
      requires Valid()
      modifies this`activities, this`log, set a | a in activities, set a | a in activities :: a.target
      ensures Valid()
      ensures Shrinks(activities, old(activities))
      ensures forall a :: a in ticked ==> a in old(activities) && a.threaded && a.core == core
      ensures |activities| == |old(activities)| ==> ticked == Filter(old(activities), (a: Activity) => Selected(CorePass(core), a))
    {
      ticked := TickPass(CorePass(core), false, 0.0, clockMs);
    }

    /** LateUpdate: the `late_updates` list, then the behaviours implementing ILateUpdateable. */
    method LateUpdate(destroyed: set<Node>)
      requires Valid()
      modifies this`log, this`nodes
      ensures Valid()
      ensures var r := BehaviourPass(LateFrame, old(nodes)[Behaviours], destroyed, _ => true);
              && nodes == old(nodes)[Behaviours := r.list]
              && log == old(log) + CallEvents(old(nodes)[LateUpdates], LateFrame) + CallEvents(r.ticks, LateFrame)
    {
      var r := BehaviourPass(LateFrame, nodes[Behaviours], destroyed, _ => true);
      log := log + CallEvents(nodes[LateUpdates], LateFrame) + CallEvents(r.ticks, LateFrame);
      nodes := nodes[Behaviours := r.list];
    }

    /** FixedUpdate: the `fixed_updates` list, then the behaviours implementing IFixedUpdateable. */
    method FixedUpdate(destroyed: set<Node>)
      requires Valid()
      modifies this`log, this`nodes
      ensures Valid()
      ensures var r := BehaviourPass(FixedFrame, old(nodes)[Behaviours], destroyed, _ => true);
              && nodes == old(nodes)[Behaviours := r.list]
              && log == old(log) + CallEvents(old(nodes)[FixedUpdates], FixedFrame) + CallEvents(r.ticks, FixedFrame)
    {
      var r := BehaviourPass(FixedFrame, nodes[Behaviours], destroyed, _ => true);
      log := log + CallEvents(nodes[FixedUpdates], FixedFrame) + CallEvents(r.ticks, FixedFrame);
      nodes := nodes[Behaviours := r.list];
    }
  }

  // ------------------------------------------------------------ activity

  /** Activity, Timer and Tween in one class; `kind` says which factory built it. */
  class Activity {
    const manager: Manager
    const kind: Kind
    const threaded: bool
    const core: int
    const name: string
    var elapsed: real
    var deltaTime: real
    var tick: real        // m_tick: milliseconds since Start at the previous wall-clock tick
    var startClock: real  // m_tst, in milliseconds
    var paused: bool

    // Timer
    var duration: real
    var step: int
    var count: int

    // Tween, and the timers that act on a target
    const target: Target?
    const property: string
    const targetKind: TargetKind   // the `type` tag (Default, Transform, Component, Material) the Tween constructor sets from the target (tween.cs:333-336)
    const easing: real -> real
    var valid: bool
    var from: Value
    const to: Value
    var snapshot: Value   // TransformTween's position, rotation and scale at start

    /** Activity(delay, threaded): elapsed starts at -delay; only a threaded activity takes a core. */
    constructor (manager: Manager, kind: Kind, name: string, delay: real, threaded: bool)
      requires manager.Valid() && !kind.IsTimer()
      modifies manager`counter
      ensures manager.Valid()
      ensures this.manager == manager && this.name == name && this.threaded == threaded
      ensures elapsed == -delay && !paused
      ensures threaded ==> core == manager.counter && core == Registry.NextCore(old(manager.counter), manager.cores)
      ensures !threaded ==> core == 0 && manager.counter == old(manager.counter)
      ensures target == null && duration == 0.0 && step == 0 && count == 0
    {
      var c := 0;
      if threaded {
        c := manager.NextCore();
      }
      this.manager := manager;
      this.kind := kind;
      this.threaded := threaded;
      this.core := c;
      this.name := name;
      elapsed := -delay;
      deltaTime := 0.0;
      tick := 0.0;
      startClock := 0.0;
      paused := false;
      duration := 0.0;
      step := 0;
      count := 0;
      target := null;
      property := "";
      targetKind := DefaultTarget;
      easing := r => r;
      valid := true;
      from := NoValue;
      to := NoValue;
      snapshot := NoValue;
    }

    /** Timer(duration, delay, steps, threaded): step 0, count = steps. */
    constructor Timer(manager: Manager, kind: Kind, name: string, duration: real, delay: real, steps: int,
                      threaded: bool, target: Target?, property: string)
      requires manager.Valid() && kind.IsTimer() && !kind.TweenOf?
      modifies manager`counter
      ensures manager.Valid()
      ensures this.manager == manager && this.name == name && this.threaded == threaded
      ensures elapsed == -delay && !paused
      ensures threaded ==> core == manager.counter && core == Registry.NextCore(old(manager.counter), manager.cores)
      ensures !threaded ==> core == 0 && manager.counter == old(manager.counter)
      ensures this.duration == duration && step == 0 && count == steps
      ensures this.target == target && this.property == property
    {
      var c := 0;
      if threaded {
        c := manager.NextCore();
      }
      this.manager := manager;
      this.kind := kind;
      this.threaded := threaded;
      this.core := c;
      this.name := name;
      elapsed := -delay;
      deltaTime := 0.0;
      tick := 0.0;
      startClock := 0.0;
      paused := false;
      this.duration := duration;
      step := 0;
      count := steps;
      this.target := target;
      this.property := property;
      targetKind := DefaultTarget;
      easing := r => r;
      valid := true;
      from := NoValue;
      to := NoValue;
      snapshot := NoValue;
    }

    /**
     * Tween(target, property, to, duration, delay, easing, threaded): a timer
     * of one step; a missing easing is the identity; the target type is read
     * from the target (Default for null); `valid` starts true.
     */
    constructor Tween(manager: Manager, name: string, target: Target?, property: string, format: Format, to: Value,
                      duration: real, delay: real, easing: Option<real -> real>, threaded: bool)
      requires manager.Valid() && HasFormat(to, format)
      modifies manager`counter
      ensures manager.Valid()
      ensures this.manager == manager && this.name == name && this.threaded == threaded
      ensures elapsed == -delay && !paused
      ensures threaded ==> core == manager.counter && core == Registry.NextCore(old(manager.counter), manager.cores)
      ensures !threaded ==> core == 0 && manager.counter == old(manager.counter)
      ensures kind.TweenOf? && kind.format == format
      ensures this.duration == duration && step == 0 && count == 0
      ensures this.target == target && this.property == property && this.to == to && valid
      ensures targetKind == (if target == null then DefaultTarget else target.kind)
      ensures easing.Some? ==> this.easing == easing.value
      ensures easing.None? ==> forall r :: this.easing(r) == r
    {
      var c := 0;
      if threaded {
        c := manager.NextCore();
      }
      this.manager := manager;
      this.kind := TweenOf(format);
      this.threaded := threaded;
      this.core := c;
      this.name := name;
      elapsed := -delay;
      deltaTime := 0.0;
      tick := 0.0;
      startClock := 0.0;
      paused := false;
      this.duration := duration;
      step := 0;
      count := 0;
      this.target := target;
      this.property := property;
      targetKind := if target == null then DefaultTarget else target.kind;
      var e: real -> real := if easing.Some? then easing.value else r => r;
      this.easing := e;
      valid := true;
      from := Default(format);
      this.to := to;
      snapshot := NoValue;
    }

    /** active: registered in its manager's list. */
    predicate Active()
      reads manager
    {
      this in manager.activities
    }

    /** running: the delay is over and the activity is registered. */
    predicate Running()
      reads this, manager
    {
      elapsed >= 0.0 && Active()
    }

    /** Timer.progress of this activity. */
    function Progress(): (r: real)
      reads this, manager
      ensures 0.0 <= r <= 1.0
    {
      TimerProgress(duration, elapsed, Running())
    }

    /** Start: resets the wall clock and registers the activity. */
    method Start(clockMs: real)
      requires manager.Valid()
      modifies this`startClock, this`tick, manager`activities
      ensures manager.Valid()
      ensures startClock == clockMs && tick == 0.0
      ensures manager.activities == if this in old(manager.activities) then old(manager.activities) else old(manager.activities) + [this]
    {
      startClock := clockMs;
      tick := 0.0;
      var _ := manager.AddActivity(this);
    }

    /** Stop: deregisters the activity; the stop hooks run only when it was registered. */
    method Stop()
      requires manager.Valid()
      modifies manager`activities, manager`log
      ensures manager.Valid()
      ensures manager.activities == RemoveFirst(old(manager.activities), this)
      ensures this !in manager.activities
      ensures Shrinks(manager.activities, old(manager.activities))
      ensures manager.log == old(manager.log) + StopEvent(old(manager.activities))
    {
      var found := manager.RemoveActivity(this);
      if found {
        manager.log := manager.log + [Fired(this, Stopped)];
      }
    }

    /**
     * OnUpdate: nothing while paused. Otherwise deltaTime is measured, added
     * to elapsed, the start hook runs when elapsed crosses from <= 0 to >= 0,
     * and the execute hook runs whenever elapsed >= 0 after the addition,
     * even when the start hook has just stopped the activity.
     */
    method OnUpdate(isPlaying: bool, frameDelta: real, clockMs: real)
      requires manager.Valid()
      modifies this, manager`activities, manager`log, target
      ensures manager.Valid()
      ensures Shrinks(manager.activities, old(manager.activities))
      ensures old(manager.log) <= manager.log
      ensures old(paused) ==> elapsed == old(elapsed) && deltaTime == old(deltaTime) && tick == old(tick)
      ensures old(paused) ==> manager.activities == old(manager.activities) && manager.log == old(manager.log)
      ensures !old(paused) ==> deltaTime == TickDelta(!threaded && isPlaying, frameDelta, clockMs - startClock, old(tick))
      ensures !old(paused) ==>
        var events := manager.log[|old(manager.log)|..];
        && ((|events| > 0 && events[0] == Fired(this, Started)) <==> StartDue(old(elapsed), deltaTime))
        && (Fired(this, Executed) in events <==> ExecuteDue(old(elapsed), deltaTime))
      ensures !old(paused) && !kind.IsTimer() ==> elapsed == old(elapsed) + deltaTime
    {
      if paused {
        ShrinksRefl(manager.activities);
        return;
      }
      MeasureDelta(isPlaying, frameDelta, clockMs);
      Advance();
    }

    /** The time measurement of OnUpdate: Unity's frame time, or the wall clock since the previous tick. */
    method MeasureDelta(isPlaying: bool, frameDelta: real, clockMs: real)
      modifies this`deltaTime, this`tick
      ensures deltaTime == TickDelta(!threaded && isPlaying, frameDelta, clockMs - startClock, old(tick))
      ensures tick == if !threaded && isPlaying then old(tick) else clockMs - startClock
    {
      var unityTime := if threaded then false else isPlaying;
      if unityTime {
        deltaTime := frameDelta;
      } else {
        var tms := clockMs - startClock;
        deltaTime := (tms - tick) * 0.001;
        if deltaTime <= 0.0 {
          deltaTime := 1.0 / 60.0;
        }
        tick := tms;
      }
    }

    /** The rest of OnUpdate: elapsed advances by deltaTime, then the start and execute hooks as they are due. */
    method Advance()
      requires manager.Valid()
      modifies this`elapsed, this`step, this`valid, this`from, this`snapshot, manager`activities, manager`log, target
      ensures manager.Valid()
      ensures Shrinks(manager.activities, old(manager.activities))
      ensures old(manager.log) <= manager.log
      ensures var events := manager.log[|old(manager.log)|..];
        && ((|events| > 0 && events[0] == Fired(this, Started)) <==> StartDue(old(elapsed), deltaTime))
        && (Fired(this, Executed) in events <==> ExecuteDue(old(elapsed), deltaTime))
      ensures !kind.IsTimer() ==> elapsed == old(elapsed) + deltaTime
    {
      ghost var log0 := manager.log;
      ghost var acts0 := manager.activities;
      var isn := elapsed <= 0.0;
      elapsed := elapsed + deltaTime;
      var isp := elapsed >= 0.0;
      if !isp {
        ShrinksRefl(manager.activities);
        assert manager.log[|log0|..] == [];
        return;
      }
      if isn {
        StartHook();
      } else {
        ShrinksRefl(manager.activities);
      }
      ghost var log1 := manager.log;
      ghost var acts1 := manager.activities;
      ExecuteHook();
      ShrinksTrans(manager.activities, acts1, acts0);
      ghost var events := manager.log[|log0|..];
      assert events[|log1| - |log0|] == Fired(this, Executed);
      if isn {
        assert events[0] == Fired(this, Started);
      } else {
        assert events[0] == Fired(this, Executed);
      }
    }

    /** The start hook: OnStart, then OnActivityStart. Only a tween's OnStart does something. */
    method StartHook()
      requires manager.Valid()
      modifies this`valid, this`from, this`snapshot, manager`activities, manager`log
      ensures manager.Valid()
      ensures Shrinks(manager.activities, old(manager.activities))
      ensures old(manager.log) + [Fired(this, Started)] <= manager.log
      ensures !kind.TweenOf? ==>
        && manager.log == old(manager.log) + [Fired(this, Started)]
        && manager.activities == old(manager.activities)
        && valid == old(valid) && from == old(from) && snapshot == old(snapshot)
    {
      manager.log := manager.log + [Fired(this, Started)];
      if kind.TweenOf? {
        TweenStart();
      } else {
        ShrinksRefl(manager.activities);
      }
    }

    /**
     * Tween.OnStart: the tween is valid when its target is non-null and has
     * the property; an invalid tween stops. A valid one stops the started
     * duplicates on its target and property, samples `from` from the target
     * and, for a Transform, takes the snapshot.
     */
    method TweenStart()
      requires manager.Valid() && kind.TweenOf?
      modifies this`valid, this`from, this`snapshot, manager`activities, manager`log
      ensures manager.Valid()
      ensures Shrinks(manager.activities, old(manager.activities))
      ensures valid == StartValidity(target, property)
      ensures !valid ==>
        && manager.activities == RemoveFirst(old(manager.activities), this)
        && manager.log == old(manager.log) + StopEvent(old(manager.activities))
        && from == old(from) && snapshot == old(snapshot)
      ensures valid ==>
        var doomed := old(Duplicates(manager.activities, this));
        && manager.activities == Sweep(old(manager.activities), 0, doomed).kept
        && manager.log == old(manager.log) + StopEvents(Sweep(old(manager.activities), 0, doomed).removed)
        && from == Lookup(target.attrs, property, kind.format)
        && snapshot == (if kind.format == Transform then from else old(snapshot))
    {
      ghost var acts0 := manager.activities;
      valid := StartValidity(target, property);
      if !valid {
        Stop();
        return;
      }
      ghost var doomed := Duplicates(manager.activities, this);
      manager.KillDuplicates(this);
      SweepKept(acts0, 0, doomed);
      from := Lookup(target.attrs, property, kind.format);
      if kind.format == Transform {
        snapshot := from;
      }
    }

    /** The execute hook: OnExecute, then OnActivityExecute. */
    method ExecuteHook()
      requires manager.Valid()
      modifies this`elapsed, this`step, manager`activities, manager`log, target
      ensures manager.Valid()
      ensures Shrinks(manager.activities, old(manager.activities))
      ensures old(manager.log) + [Fired(this, Executed)] <= manager.log
      ensures !kind.IsTimer() ==> elapsed == old(elapsed)
    {
      manager.log := manager.log + [Fired(this, Executed)];
      if !kind.IsTimer() {
        RunExecute();
      } else if kind.TweenOf? {
        TweenExecute();
      } else {
        TimerExecute();
      }
    }

    /** Whether the callback of Activity.Run or RunOnce stops the activity at the current elapsed time. */
    predicate CallbackStops()
      reads this`elapsed
    {
      kind.RunOnce? || (kind.RunWhile? && !kind.keep(elapsed)) || (kind.RunFor? && elapsed >= kind.limit)
    }

    /**
     * The callbacks Activity.Run and RunOnce install: RunOnce stops after one
     * execution, the predicate form when the predicate returns false, the
     * duration form once elapsed reaches the duration.
     */
    method RunExecute()
      requires manager.Valid() && !kind.IsTimer()
      modifies manager`activities, manager`log
      ensures manager.Valid()
      ensures Shrinks(manager.activities, old(manager.activities))
      ensures CallbackStops() ==>
        && manager.activities == RemoveFirst(old(manager.activities), this)
        && manager.log == old(manager.log) + StopEvent(old(manager.activities))
      ensures !CallbackStops() ==>
        manager.log == old(manager.log) && manager.activities == old(manager.activities)
    {
      if CallbackStops() {
        Stop();
      } else {
        ShrinksRefl(manager.activities);
      }
    }

    /** The events the step callback adds: Timer.Run's callback receives the step before the increment. */
    function StepEvents(s: int): seq<Event>
    {
      if kind.TimerSteps? && kind.notify then [Fired(this, Stepped(s))] else []
    }

    /** The Stopped event Stop adds when the activity is registered in `acts`. */
    function StopEvent(acts: seq<Activity>): seq<Event>
    {
      if this in acts then [Fired(this, Stopped)] else []
    }

    /** The events of the completion: the completion hook, then what Timer.Invoke or Timer.Get's callback does. */
    function CompletionEvents(attrs: map<string, Value>): seq<Event>
    {
      [Fired(this, Completed)]
      + (match kind
         case TimerInvoke(m) => if target != null then [Fired(this, Invoked(m))] else []
         case TimerGet(f, notify) => if target != null && notify then [Fired(this, Sampled(Lookup(attrs, property, f)))] else []
         case _ => [])
    }

    /**
     * Timer.OnExecute (for the timers that are not tweens): nothing before
     * elapsed reaches duration. Then elapsed is clamped to duration, the
     * step callback sees the current step, step is incremented, and either
     * the timer completes and stops (step >= count) or elapsed restarts at 0.
     */
    method TimerExecute()
      requires manager.Valid() && kind.IsTimer() && !kind.TweenOf?
      modifies this`elapsed, this`step, manager`activities, manager`log, target
      ensures manager.Valid()
      ensures Shrinks(manager.activities, old(manager.activities))
      ensures old(elapsed) < duration ==>
        && elapsed == old(elapsed) && step == old(step)
        && manager.activities == old(manager.activities) && manager.log == old(manager.log)
        && Attrs(target) == old(Attrs(target))
      ensures old(elapsed) >= duration ==> step == old(step) + 1
      ensures old(elapsed) >= duration && step < count ==>
        && elapsed == 0.0
        && manager.activities == old(manager.activities)
        && manager.log == old(manager.log) + StepEvents(old(step))
        && Attrs(target) == old(Attrs(target))
      ensures old(elapsed) >= duration && step >= count ==>
        && elapsed == duration
        && manager.activities == RemoveFirst(old(manager.activities), this)
        && manager.log == old(manager.log) + StepEvents(old(step)) + CompletionEvents(old(Attrs(target)))
                          + StopEvent(old(manager.activities))
        && Attrs(target) == if kind.TimerSet? then Store(old(Attrs(target)), property, kind.value) else old(Attrs(target))
    {
      if elapsed < duration {
        ShrinksRefl(manager.activities);
        return;
      }
      elapsed := duration;
      manager.log := manager.log + StepEvents(step);
      step := step + 1;
      if step >= count {
        Complete();
      } else {
        elapsed := 0.0;
        ShrinksRefl(manager.activities);
      }
    }

    /** A timer's completion: OnComplete and OnTimerComplete, the factory's action on a non-null target, then Stop. */
    method Complete()
      requires manager.Valid() && kind.IsTimer() && !kind.TweenOf?
      modifies manager`activities, manager`log, target
      ensures manager.Valid()
      ensures Shrinks(manager.activities, old(manager.activities))
      ensures manager.activities == RemoveFirst(old(manager.activities), this)
      ensures manager.log == old(manager.log) + CompletionEvents(old(Attrs(target))) + StopEvent(old(manager.activities))
      ensures Attrs(target) == if kind.TimerSet? then Store(old(Attrs(target)), property, kind.value) else old(Attrs(target))
    {
      manager.log := manager.log + CompletionEvents(Attrs(target));
      if target != null && kind.TimerSet? {
        target.Set(property, kind.value);
      }
      Stop();
    }

    /** The value a tween's Lerp writes for a ratio: its format's formula on the eased ratio. */
    function LerpValue(ratio: real): Option<Value>
      reads this, manager
      requires kind.TweenOf?
    {
      var f := kind.format;
      var a := Coerce(from, f);
      var b := Coerce(to, f);
      if IsLinear(f) then Some(LinearLerp(f, a, b, easing(ratio)))
      else if f == Quaternion then Some(RotationLerp(a, b, easing(Progress())))
      else if snapshot.TransformVal? && HasFormat(snapshot, Transform) && b.TransformVal? then
        Some(TransformLerp(snapshot, b, easing(Progress())))
      else None
    }

    /**
     * Lerp: writes the interpolated value into the target's property. The
     * linear formats use easing(ratio); Quaternion and Transform ignore the
     * ratio and use easing(progress).
     */
    method Lerp(ratio: real)
      requires kind.TweenOf?
      modifies manager`log, target
      ensures manager.log == old(manager.log) + [Fired(this, Lerped(ratio))]
      ensures Attrs(target) == match old(LerpValue(ratio))
                                case Some(v) => Store(old(Attrs(target)), property, v)
                                case None => old(Attrs(target))
    {
      var v := LerpValue(ratio);
      manager.log := manager.log + [Fired(this, Lerped(ratio))];
      if target != null && v.Some? {
        target.Set(property, v.value);
      }
    }

    /**
     * Tween.OnExecute: the timer logic, whose completion calls Lerp(1), then
     * Lerp(progress * 0.999). On the completing tick the second write comes
     * after Stop and replaces the first, with the ratio FinalRatio(duration).
     */
    method TweenExecute()
      requires manager.Valid() && kind.TweenOf?
      modifies this`elapsed, this`step, manager`activities, manager`log, target
      ensures manager.Valid()
      ensures Shrinks(manager.activities, old(manager.activities))
      ensures old(elapsed) < duration ==> elapsed == old(elapsed) && step == old(step)
      ensures old(elapsed) >= duration ==> step == old(step) + 1
      ensures old(elapsed) >= duration && step < count ==> elapsed == 0.0
      ensures !(old(elapsed) >= duration && step >= count) ==>
        && manager.activities == old(manager.activities)
        && manager.log == old(manager.log) + [Fired(this, Lerped(0.999 * Progress()))]
      ensures old(elapsed) >= duration && step >= count ==>
        && elapsed == duration
        && manager.activities == RemoveFirst(old(manager.activities), this)
        && manager.log == old(manager.log) + [Fired(this, Completed), Fired(this, Lerped(1.0))]
                          + StopEvent(old(manager.activities))
                          + [Fired(this, Lerped(FinalRatio(duration)))]
    {
      TweenTimer();
      if old(elapsed) >= duration && step >= count {
        assert Progress() == TimerProgress(duration, duration, false) by {
          assert !Running();
        }
      }
      Lerp(0.999 * Progress());
    }

    /** The Timer.OnExecute part of a tween's tick; a tween's completion callback is Lerp(1). */
    method TweenTimer()
      requires manager.Valid() && kind.TweenOf?
      modifies this`elapsed, this`step, manager`activities, manager`log, target
      ensures manager.Valid()
      ensures Shrinks(manager.activities, old(manager.activities))
      ensures old(elapsed) < duration ==> elapsed == old(elapsed) && step == old(step)
      ensures old(elapsed) >= duration ==> step == old(step) + 1
      ensures old(elapsed) >= duration && step < count ==> elapsed == 0.0
      ensures !(old(elapsed) >= duration && step >= count) ==>
        manager.activities == old(manager.activities) && manager.log == old(manager.log)
      ensures old(elapsed) >= duration && step >= count ==>
        && elapsed == duration && this !in manager.activities
        && manager.activities == RemoveFirst(old(manager.activities), this)
        && manager.log == old(manager.log) + [Fired(this, Completed), Fired(this, Lerped(1.0))]
                          + StopEvent(old(manager.activities))
    {
      if elapsed < duration {
        ShrinksRefl(manager.activities);
        return;
      }
      elapsed := duration;
      step := step + 1;
      if step >= count {
        TweenComplete();
      } else {
        elapsed := 0.0;
        ShrinksRefl(manager.activities);
      }
    }

    /** A tween's completion: OnComplete, Tween.OnComplete's Lerp(1), then Stop. */
    method TweenComplete()
      requires manager.Valid() && kind.TweenOf?
      modifies manager`activities, manager`log, target
      ensures manager.Valid()
      ensures Shrinks(manager.activities, old(manager.activities))
      ensures this !in manager.activities
      ensures manager.activities == RemoveFirst(old(manager.activities), this)
      ensures manager.log == old(manager.log) + [Fired(this, Completed), Fired(this, Lerped(1.0))]
                             + StopEvent(old(manager.activities))
    {
      manager.log := manager.log + [Fired(this, Completed)];
      Lerp(1.0);
      Stop();
    }
  }

  // ------------------------------------------------------------ factories

  /** Activity.Run and its variants: builds the activity and starts it. */
  method Run(manager: Manager, kind: Kind, name: string, delay: real, threaded: bool, clockMs: real) returns (a: Activity)
    requires manager.Valid() && !kind.IsTimer()
    modifies manager`counter, manager`activities
    ensures manager.Valid()
    ensures fresh(a) && a.manager == manager && a.elapsed == -delay
    ensures manager.activities == old(manager.activities) + [a]
  {
    a := new Activity(manager, kind, name, delay, threaded);
    a.Start(clockMs);
  }

  /** Timer.Run, Timer.Invoke, Timer.Set and Timer.Get: builds the timer and starts it. */
  method RunTimer(manager: Manager, kind: Kind, name: string, duration: real, delay: real, steps: int,
                  threaded: bool, target: Target?, property: string, clockMs: real) returns (t: Activity)
    requires manager.Valid() && kind.IsTimer() && !kind.TweenOf?
    modifies manager`counter, manager`activities
    ensures manager.Valid()
    ensures fresh(t) && t.manager == manager && t.elapsed == -delay
    ensures t.duration == duration && t.step == 0 && t.count == steps
    ensures manager.activities == old(manager.activities) + [t]
  {
    t := new Activity.Timer(manager, kind, name, duration, delay, steps, threaded, target, property);
    t.Start(clockMs);
  }

  /**
   * Timer.Invoke, Timer.Set and Timer.Get: a timer whose duration is the
   * given delay, with no delay and no further steps, so the action runs
   * once, on the first tick at which the delay has passed.
   */
  method RunDelayed(manager: Manager, kind: Kind, name: string, delay: real, target: Target?, property: string,
                    clockMs: real) returns (t: Activity)
    requires manager.Valid() && (kind.TimerInvoke? || kind.TimerSet? || kind.TimerGet?)
    modifies manager`counter, manager`activities
    ensures manager.Valid()
    ensures fresh(t) && t.elapsed == 0.0 && t.duration == delay && t.step == 0 && t.count == 0
    ensures manager.activities == old(manager.activities) + [t]
  {
    t := RunTimer(manager, kind, name, delay, 0.0, 0, false, target, property, clockMs);
  }

  /**
   * Tween.Add<T>: for the nine supported types builds the tween of that
   * format and starts it; for any other type registers nothing and returns null.
   */
  method AddTween(manager: Manager, name: string, target: Target?, property: string, t: TypeTag, to: Value,
                  duration: real, delay: real, easing: Option<real -> real>, threaded: bool, clockMs: real)
    returns (tw: Activity?)
    requires manager.Valid()
    requires FormatOf(t).Some? ==> HasFormat(to, FormatOf(t).value)
    modifies manager`counter, manager`activities
    ensures manager.Valid()
    ensures tw == null <==> FormatOf(t).None?
    ensures tw == null ==> manager.activities == old(manager.activities) && manager.counter == old(manager.counter)
    ensures tw != null ==>
      && fresh(tw) && tw.kind.TweenOf? && tw.kind.format == FormatOf(t).value
      && tw.target == target && tw.property == property && tw.to == to && tw.valid
      && tw.elapsed == -delay && tw.duration == duration && tw.count == 0
      && manager.activities == old(manager.activities) + [tw]
  {
    var f := FormatOf(t);
    if f.None? {
      return null;
    }
    var n := new Activity.Tween(manager, name, target, property, f.value, to, duration, delay, easing, threaded);
    n.Start(clockMs);
    tw := n;
  }
}
