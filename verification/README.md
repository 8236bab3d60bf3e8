# thelab core: activities, timers, tweens and helpers in Dafny

This project models the runtime core of the `thelab.core` Unity library.

- **ActivityManager.** A singleton that keeps execution lists:
  - the activities;
  - the `ActivityBehaviour`s;
  - the `IUpdateable`, `IConditionalUpdateable`, `ILateUpdateable` and `IFixedUpdateable` objects.

  It hands out worker cores round-robin and runs the per-frame passes (`Update`, `LateUpdate`, `FixedUpdate`, `ThreadUpdate(core)`).
- **Activity.** Something ticked every frame. It has an `elapsed` clock that starts at `-delay`. It runs a start hook when the clock crosses zero and an execute hook on every tick after that.
- **Timer.** An activity that works in steps of `duration`. It counts `step` up to `count`, calls a step callback, and completes and stops on the last step.
- **Tween.** A timer that interpolates one property of a target object from its value at start (`from`) to `to`. The curve is one of the nine value formats with an easing curve, and the tween writes the value through reflection. `Kill` and `KillDuplicates` stop tweens by target and property.
- **Helper libraries:**
  - the easing polynomials;
  - the scalar `Spline` (Linear, Catmull-Rom and cubic Bezier segments, cumulative lengths and weights, sampling by ratio or distance);
  - `DictionaryBehaviour<K,V>`, a dictionary stored as two parallel lists;
  - `Tag<T>` and its label search.

## How the model is built

- **Modules.** One Dafny module per area:
  - `Numerics`: clamping and the truncating float-to-int cast;
  - `TweenEasing`: easing curves;
  - `SplineMath` and `Splines`: the spline;
  - `IndexedRemoval`: `List.IndexOf`/`Remove` and the index loop that removes entries from a list it walks;
  - `Registry`: list choice, core counter and behaviour pass;
  - `TweenValues`: tween formats and interpolation formulas;
  - `Scheduler`: manager, activities, timers and tweens;
  - `ParallelDictionary`;
  - `Tags`.
- **`Scheduler.Manager`** is a class. It holds the activity list, the other lists (keyed by `ListId`), the core counter and an **event log**. The log replaces the callbacks: every virtual hook (`OnStart`, `OnExecute`, `OnTimerStep`, `OnComplete`, `OnStop`, a tween's `Lerp`) appends an event naming the activity and the hook when the hook is entered, so the log is an entry-order trace of those hooks. The public delegates paired with them (`OnActivityStart`, `OnActivityExecute`, `OnTimerComplete`, `OnActivityStop`) fire when their hook returns, after the events nested inside it, and have no entries of their own.
- **`Scheduler.Activity`** is one class for `Activity`, `Timer`, `Tween` and the nine specialised tweens. A constant `kind` records which factory built it and so which callbacks it carries.
- **The clock is passed in as parameters:**
  - `frameDelta` is `Time.deltaTime`;
  - `clockMs` is `DateTime.UtcNow` in milliseconds;
  - `isPlaying` is `Application.isPlaying`.
- **A tween's target** is a `Scheduler.Target`. It holds a map from member name to value (what `Reflection.Get`/`Set`/`Contains` see) and a set of method names.
- **`float` is `real`.** The cast `(int)x` is modelled as truncation toward zero, and Dafny's integers do not overflow.
- **Behaviour passes.** A behaviour or updateable object is a `Registry.Node` with its name and the interfaces it implements. Unity's "destroyed" test is a set parameter, and `OnConditionUpdate` is a function parameter.

## Model

| member | source | states |
|---|---|---|
| Numerics.Clamp01 | shangduli/Assets/thelab/core/source/math/Spline.cs:122 | Mathf.Clamp01 lands in [0,1], is the identity on [0,1], and gives 0 below and 1 above |
| Numerics.TruncToInt | shangduli/Assets/thelab/core/source/math/Spline.cs:129 | the C# cast `(int)x` truncates toward zero: the result is within one unit of x, on x's side of zero |
| TweenEasing.QuadIn | shangduli/Assets/thelab/core/source/motion/TweenEasing.cs:21 | Quad.In maps 0 to 0 and 1 to 1 and never goes negative |
| TweenEasing.QuadOut | shangduli/Assets/thelab/core/source/motion/TweenEasing.cs:27 | Quad.Out maps 0 to 0 and 1 to 1 and never exceeds 1 |
| TweenEasing.QuadOutBack | shangduli/Assets/thelab/core/source/motion/TweenEasing.cs:33 | Quad.OutBack maps 0 to 0 and 1 to 1 |
| TweenEasing.QuadBackIn | shangduli/Assets/thelab/core/source/motion/TweenEasing.cs:39 | Quad.BackIn maps 0 to 0 and 1 to 1 |
| TweenEasing.CubicIn | shangduli/Assets/thelab/core/source/motion/TweenEasing.cs:54 | Cubic.In maps 0 to 0 and 1 to 1 |
| TweenEasing.CubicOut | shangduli/Assets/thelab/core/source/motion/TweenEasing.cs:60 | Cubic.Out maps 0 to 0 and 1 to 1 |
| TweenEasing.CubicInOut | shangduli/Assets/thelab/core/source/motion/TweenEasing.cs:66 | Cubic.InOut maps 0, 1/2 and 1 to themselves |
| TweenEasing.CubicOutIn | shangduli/Assets/thelab/core/source/motion/TweenEasing.cs:72 | Cubic.OutIn maps 0, 1/2 and 1 to themselves |
| TweenEasing.CubicBackIn | shangduli/Assets/thelab/core/source/motion/TweenEasing.cs:78 | Cubic.BackIn maps 0 to 0 and 1 to 1 |
| TweenEasing.CubicOutBack | shangduli/Assets/thelab/core/source/motion/TweenEasing.cs:84 | Cubic.OutBack maps 0 to 0 and 1 to 1 |
| TweenEasing.QuarticIn | shangduli/Assets/thelab/core/source/motion/TweenEasing.cs:99 | Quartic.In maps 0 to 0 and 1 to 1 |
| TweenEasing.QuarticOut | shangduli/Assets/thelab/core/source/motion/TweenEasing.cs:105 | Quartic.Out maps 0 to 0 and 1 to 1 |
| TweenEasing.QuarticOutIn | shangduli/Assets/thelab/core/source/motion/TweenEasing.cs:111 | Quartic.OutIn maps 0 to 0 and 1 to 1 |
| TweenEasing.QuarticBackIn | shangduli/Assets/thelab/core/source/motion/TweenEasing.cs:117 | Quartic.BackIn maps 0 to 0 and 1 to 1 |
| TweenEasing.QuarticOutBack | shangduli/Assets/thelab/core/source/motion/TweenEasing.cs:123 | Quartic.OutBack maps 0 to 0 and 1 to 1 |
| TweenEasing.QuinticIn | shangduli/Assets/thelab/core/source/motion/TweenEasing.cs:138 | Quintic.In maps 0 to 0 and 1 to 1 |
| TweenEasing.QuinticOut | shangduli/Assets/thelab/core/source/motion/TweenEasing.cs:144 | Quintic.Out maps 0 to 0 and 1 to 1 |
| TweenEasing.ElasticOutBig | shangduli/Assets/thelab/core/source/motion/TweenEasing.cs:159 | Elastic.OutBig maps 0 to 0 and 1 to 1 |
| TweenEasing.ElasticOutSmall | shangduli/Assets/thelab/core/source/motion/TweenEasing.cs:165 | Elastic.OutSmall maps 0 to 0 and 1 to 1 |
| TweenEasing.ElasticInBig | shangduli/Assets/thelab/core/source/motion/TweenEasing.cs:171 | Elastic.InBig maps 0 to 0 and 1 to 1 |
| TweenEasing.ElasticInSmall | shangduli/Assets/thelab/core/source/motion/TweenEasing.cs:177 | Elastic.InSmall maps 0 to 0 and 1 to 1 |
| TweenEasing.OutIsReflectedIn | shangduli/Assets/thelab/core/source/motion/TweenEasing.cs:21-144 | for Quad, Cubic, Quartic and Quintic, Out(r) = 1 - In(1 - r) for every r |
| TweenEasing.CubicInOutSymmetric | shangduli/Assets/thelab/core/source/motion/TweenEasing.cs:66 | Cubic.InOut is 3r^2 - 2r^3 and InOut(1 - r) = 1 - InOut(r) |
| TweenEasing.QuadBackInOvershoot | shangduli/Assets/thelab/core/source/motion/TweenEasing.cs:39 | Quad.BackIn is negative on all of (0, 2/3) and equals -1/3 at 1/3 |
| TweenEasing.InCurvesStayInUnit | shangduli/Assets/thelab/core/source/motion/TweenEasing.cs:21-138 | the four In curves map [0,1] into [0,1] |
| TweenEasing.InCurvesMonotone | shangduli/Assets/thelab/core/source/motion/TweenEasing.cs:21-138 | the four In curves are non-decreasing on [0,1] |
| SplineMath.Linear | shangduli/Assets/thelab/core/source/math/Spline.cs:361 | gives v0 at r = 0, v1 at r = 1, and the constant when v0 = v1 |
| SplineMath.Catmull | shangduli/Assets/thelab/core/source/math/Spline.cs:372 | the Catmull-Rom segment passes through v1 at r = 0 and v2 at r = 1 |
| SplineMath.Bezier3 | shangduli/Assets/thelab/core/source/math/Spline.cs:383 | the cubic Bezier segment starts at v0 (r = 0) and ends at v3 (r = 1) |
| SplineMath.Lerp | shangduli/Assets/thelab/core/source/math/Spline.cs:393 | the dispatch interpolates between the sample pair its spline type uses: samples 0-1 (Linear), 1-2 (Catmull), 0-3 (Bezier) |
| SplineMath.ConstantCurves | shangduli/Assets/thelab/core/source/math/Spline.cs:372-383 | Catmull and Bezier through four equal points are constant: their weights sum to one |
| Splines.TruncDiv3 | shangduli/Assets/thelab/core/source/math/Spline.cs:261 | integer division by 3 truncates toward zero (quotient bounds on each side of zero) |
| Splines.ClampInt | shangduli/Assets/thelab/core/source/math/Spline.cs:264 | Mathf.Clamp on ints stays in [lo, hi] and keeps values already inside |
| Splines.SampleIndices | shangduli/Assets/thelab/core/source/math/Spline.cs:255-288 | SetSamples reads 2 (Linear) or 4 value indices, every one in [0, len-1] |
| Splines.SampleIndicesInterior | shangduli/Assets/thelab/core/source/math/Spline.cs:255-288 | away from the ends the window is (p, p+1), (p-1..p+2) or (p/3..p/3+3) exactly |
| Splines.PrefixSums | shangduli/Assets/thelab/core/source/math/Spline.cs:228-241 | cumulative lengths: one more entry than steps, starting at 0 |
| Splines.PrefixSumsStep | shangduli/Assets/thelab/core/source/math/Spline.cs:238-239 | each cumulative length is the previous one plus that section's measured length |
| Splines.PrefixSumsBounded | shangduli/Assets/thelab/core/source/math/Spline.cs:228-241 | with non-negative section lengths the cumulative lengths are non-decreasing and lie in [0, total] |
| Splines.Normalize | shangduli/Assets/thelab/core/source/math/Spline.cs:243-247 | weights[i] * length == lengths[i] when length > 0, and all weights are 0 otherwise |
| Splines.NormalizeInUnit | shangduli/Assets/thelab/core/source/math/Spline.cs:243-247 | lengths within [0, length] give weights in [0,1], and the last weight is 1 when length > 0 |
| Splines.FirstReaching | shangduli/Assets/thelab/core/source/math/Spline.cs:134-138 | the weight search finds the first index i >= 1 whose weight reaches r, or 0 when none does |
| Splines.Spline.constructor | shangduli/Assets/thelab/core/source/math/Spline.cs:86-103 | n zero values and weights, an 8-entry sample buffer, length 0, the given type and precision |
| Splines.Spline.Refresh | shangduli/Assets/thelab/core/source/math/Spline.cs:214-248 | lengths become the cumulative measured section lengths, length the last one, weights the normalised lengths |
| Splines.Spline.MeasureLengths | shangduli/Assets/thelab/core/source/math/Spline.cs:224-241 | the length loop fills lengths with the prefix sums of the section measures and sets the total |
| Splines.Spline.NormalizeWeights | shangduli/Assets/thelab/core/source/math/Spline.cs:242-247 | the weight loop writes weights = Normalize(lengths, length) |
| Splines.Spline.RefreshedShape | shangduli/Assets/thelab/core/source/math/Spline.cs:214-248 | after Refresh with a non-negative measure: lengths[0] = weights[0] = 0, lengths non-decreasing in [0, length], weights in [0,1], last weight 1 when length > 0 |
| Splines.Spline.SetValues | shangduli/Assets/thelab/core/source/math/Spline.cs:27-39 | the `values` setter copies the array (null as empty), reallocates lengths and weights to the same size and refreshes |
| Splines.Spline.CopyOf | shangduli/Assets/thelab/core/source/math/Spline.cs:36 | the copy loop yields a fresh array equal to its source |
| Splines.Spline.Resize | shangduli/Assets/thelab/core/source/math/Spline.cs:203-209 | n values: the first min(n, old length) are the old ones, the rest zero; the spline is refreshed |
| Splines.Spline.SetSamples | shangduli/Assets/thelab/core/source/math/Spline.cs:255-288 | the sample buffer starts with the clamped window of values and is unchanged beyond it |
| Splines.Spline.SegmentOf | shangduli/Assets/thelab/core/source/math/Spline.cs:134-138 | the search loop returns FirstReaching over the weights |
| Splines.Spline.LocalRatio | shangduli/Assets/thelab/core/source/math/Spline.cs:142-145 | the local ratio is in [0,1]; it is 1 when the two weights coincide, and otherwise the position of r between them |
| Splines.Spline.Plan | shangduli/Assets/thelab/core/source/math/Spline.cs:124-148 | weighted: a window index in range and a ratio in [0,1]; unweighted: the fractional part, in [0,1) |
| Splines.Spline.GetNormalized | shangduli/Assets/thelab/core/source/math/Spline.cs:117-149 | no value (the source throws) for an empty spline; the single value for one; otherwise the curve through Plan's window at Plan's ratio |
| Splines.Spline.SampleUniform | shangduli/Assets/thelab/core/source/math/Spline.cs:124-131 | the unweighted branch samples the window at (int)p and uses the fractional part of p |
| Splines.Spline.SampleWeighted | shangduli/Assets/thelab/core/source/math/Spline.cs:132-148 | the weighted branch samples the window before the first reaching weight at the clamped local ratio |
| Splines.Spline.Get | shangduli/Assets/thelab/core/source/math/Spline.cs:156-160 | sampling by distance fails exactly for an empty spline and returns the only value of a one-value spline; otherwise it samples the weighted curve at the distance clamped to [0, length] divided by the length (ratio 0 when the length is not positive) |
| Splines.Spline.GetRatioInUnit | shangduli/Assets/thelab/core/source/math/Spline.cs:158-159 | with a positive length the distance clamped to [0, length] gives a ratio in [0,1] |
| IndexedRemoval.IndexOf | shangduli/Assets/thelab/core/source/system/ActivityManager.cs:99 | List.IndexOf: -1 exactly when absent, otherwise a slot holding x with no earlier x |
| IndexedRemoval.IndexOfUnique | shangduli/Assets/thelab/core/source/system/ActivityManager.cs:99 | a slot holding x with no earlier x is the index IndexOf returns |
| IndexedRemoval.RemoveFirst | shangduli/Assets/thelab/core/source/system/ActivityManager.cs:112 | List.Remove: unchanged when absent, otherwise one element shorter with exactly one x fewer (as a multiset) |
| IndexedRemoval.WithoutIn | shangduli/Assets/thelab/core/source/system/ActivityManager.cs:121-129 | an entry survives a name removal exactly when it was present and not removed |
| IndexedRemoval.WithoutDistinct | shangduli/Assets/thelab/core/source/system/ActivityManager.cs:121-129 | removing entries keeps the activity list free of repetitions |
| IndexedRemoval.RemoveFirstIsWithout | shangduli/Assets/thelab/core/source/system/ActivityManager.cs:112 | in a list without repetitions List.Remove(x) removes exactly x and keeps the order |
| IndexedRemoval.RemoveFirstAt | shangduli/Assets/thelab/core/source/system/ActivityManager.cs:112 | in a list without repetitions removing the entry at slot i closes that slot |
| IndexedRemoval.ShrinksTrans | shangduli/Assets/thelab/core/source/system/ActivityManager.cs:195-196 | two passes that each only remove entries together only remove entries |
| IndexedRemoval.Sweep | shangduli/Assets/thelab/core/source/motion/tween.cs:225-231 | the index loop that stops doomed entries never grows the list |
| IndexedRemoval.SweepSound | shangduli/Assets/thelab/core/source/motion/tween.cs:225-231 | the loop removes only doomed entries and keeps every entry that is not doomed, and the prefix before the start stays put |
| IndexedRemoval.SweepSkipsNext | shangduli/Assets/thelab/core/source/motion/tween.cs:225-231 | of two adjacent doomed entries the loop removes the first and passes over the second |
| IndexedRemoval.SweepIsolated | shangduli/Assets/thelab/core/source/motion/tween.cs:225-231 | when no two doomed entries are adjacent the loop removes every doomed entry |
| IndexedRemoval.SweepKept | shangduli/Assets/thelab/core/source/motion/tween.cs:225-231 | the loop leaves a list without repetitions that only lost entries |
| IndexedRemoval.SweepRemovedExactly | shangduli/Assets/thelab/core/source/motion/tween.cs:225-231 | an entry is reported stopped exactly when it is gone from the list |
| IndexedRemoval.Filter | shangduli/Assets/thelab/core/source/motion/tween.cs:115-128 | keeps exactly the entries satisfying the test, and no more entries than there were |
| Registry.GetList | shangduli/Assets/thelab/core/source/system/ActivityManager.cs:136-145 | each list is chosen exactly when the object has that interface and none of higher priority; null exactly when it has none |
| Registry.ActivityNeverInUpdates | shangduli/Assets/thelab/core/source/system/ActivityManager.cs:139-140 | an Activity, although IUpdateable, goes to the activity list and never to `updates` |
| Registry.NextCore | shangduli/Assets/thelab/core/source/system/ActivityManager.cs:89 | one read of nextCore yields a core in [0, cores): the next one, wrapping from the last to 0 |
| Registry.CountsUp | shangduli/Assets/thelab/core/source/system/ActivityManager.cs:89 | before the last core, k reads advance the counter by exactly k |
| Registry.ReadsCompose | shangduli/Assets/thelab/core/source/system/ActivityManager.cs:89 | a reads followed by b reads are a + b reads |
| Registry.FullCycle | shangduli/Assets/thelab/core/source/system/ActivityManager.cs:89 | `cores` reads bring the counter back to where it started |
| Registry.RoundRobin | shangduli/Assets/thelab/core/source/system/ActivityManager.cs:89 | the sequence of cores handed out is periodic with period `cores` |
| Registry.BehaviourPassAsWritten | shangduli/Assets/thelab/core/source/system/ActivityManager.cs:198-204 | the behaviour loop as written never grows the list (None stands for the exception) |
| Registry.BehaviourPass | shangduli/Assets/thelab/core/source/system/ActivityManager.cs:198-204 | the corrected behaviour pass: neither the list left nor the callbacks made exceed the list |
| Registry.BehaviourPassFilters | shangduli/Assets/thelab/core/source/system/ActivityManager.cs:198-204 | the pass keeps exactly the live entries that do not decline, and calls back exactly the live entries with the frame's interface, in order |
| Registry.DestroyedFirstThrows | shangduli/Assets/thelab/core/source/system/ActivityManager.cs:201-202 | as written, a destroyed first entry makes the loop read slot -1 |
| Registry.DestroyedSecondTicksPreviousTwice | shangduli/Assets/thelab/core/source/system/ActivityManager.cs:201-202 | as written, a destroyed entry after an updateable one gets the earlier one called back twice; the corrected pass calls it once |
| Registry.AsWrittenAgreesWithoutDestroyed | shangduli/Assets/thelab/core/source/system/ActivityManager.cs:198-204 | with no destroyed entries the loop as written and the corrected pass agree |
| TweenValues.FormatOf | shangduli/Assets/thelab/core/source/motion/tween.cs:161-172 | Add<T> builds a tween exactly for the nine supported types |
| TweenValues.TagOf | shangduli/Assets/thelab/core/source/motion/tween.cs:278-289 | every Format stands for one supported type |
| TweenValues.FormatOfTagOf | shangduli/Assets/thelab/core/source/motion/tween.cs:161-172 | each format is reached by exactly its own type |
| TweenValues.ConstructorFormat | shangduli/Assets/thelab/core/source/motion/tween.cs:44-56 | the Tween<T> constructor tags the matching format, and leaves Format.Float for other types |
| TweenValues.Default | shangduli/Assets/thelab/core/source/motion/TweenTarget.cs:192-196 | default(T) has the format's type, and is null exactly for Transform |
| TweenValues.Coerce | shangduli/Assets/thelab/core/source/motion/tween.cs:75 | a stored value read as T is kept when it has T's type; a value of another type reads as default(T), where the source's cast throws (see Left out) |
| TweenValues.LerpReal | shangduli/Assets/thelab/core/source/motion/TweenTarget.cs:27 | FloatTween writes `from` at eased ratio 0 and `to` at 1 |
| TweenValues.LerpRealBetween | shangduli/Assets/thelab/core/source/motion/TweenTarget.cs:27 | for an eased ratio in [0,1] the float written lies between from and to |
| TweenValues.LerpVector | shangduli/Assets/thelab/core/source/motion/TweenTarget.cs:71-137 | the vector and colour tweens keep the dimension and write from at 0 and to at 1 |
| TweenValues.LerpVectorBetween | shangduli/Assets/thelab/core/source/motion/TweenTarget.cs:71-137 | each component written lies between the two end components |
| TweenValues.LerpInt | shangduli/Assets/thelab/core/source/motion/TweenTarget.cs:49 | IntTween writes from at eased ratio 0 and to at 1 |
| TweenValues.LerpIntTruncatesTowardZero | shangduli/Assets/thelab/core/source/motion/TweenTarget.cs:49 | the int cast truncates toward zero: halfway from 0 to -3 is -1, to 3 is 1 |
| TweenValues.LinearLerp | shangduli/Assets/thelab/core/source/motion/TweenTarget.cs:27-137 | every linear format writes a value of its own type, `from` at eased ratio 0 and `to` at 1 |
| TweenValues.RectEdgesIndependent | shangduli/Assets/thelab/core/source/motion/TweenTarget.cs:234-243 | RectTween moves each edge independently: an edge equal at both ends stays put |
| TweenValues.RotationLerp | shangduli/Assets/thelab/core/source/motion/TweenTarget.cs:159 | QuaternionTween writes a slerp at the eased ratio it is given |
| TweenValues.TransformLerp | shangduli/Assets/thelab/core/source/motion/TweenTarget.cs:202-212 | TransformTween moves position and scale from the snapshot (at 0) to `to` (at 1) and slerps the rotation |
| Scheduler.Lookup | shangduli/Assets/thelab/core/source/motion/tween.cs:75 | Reflection.Get<T> returns a value of type T, default(T) for a missing member; a member of another type also reads as default(T), where the source's cast throws (see Left out) |
| Scheduler.Store | shangduli/Assets/thelab/core/source/motion/TweenTarget.cs:27 | Reflection.Set changes the named existing member only and never adds members |
| Scheduler.LookupStore | shangduli/Assets/thelab/core/source/motion/TweenTarget.cs:27 | a value stored under an existing member reads back unchanged; other members read as before |
| Scheduler.Target.Set | shangduli/Assets/thelab/core/source/motion/TweenTarget.cs:27 | a write through reflection updates the target's members as Store does |
| Scheduler.StartValidityAsWritten | shangduli/Assets/thelab/core/source/motion/tween.cs:348-355 | the validity check as written throws exactly for a null target |
| Scheduler.StartValidity | shangduli/Assets/thelab/core/source/motion/tween.cs:346-368 | a tween is valid only with a non-null target, and then exactly when the target has the property as a field, property or method |
| Scheduler.NullTargetThrows | shangduli/Assets/thelab/core/source/motion/tween.cs:348-355 | the written check and the intended one agree on every non-null target and differ on null |
| Scheduler.StopEvents | shangduli/Assets/thelab/core/source/system/Activity.cs:180-188 | one Stopped event per stopped activity, in stopping order |
| Scheduler.CallEvents | shangduli/Assets/thelab/core/source/system/ActivityManager.cs:192-193 | one callback per listed node, in list order |
| Scheduler.TickDelta | shangduli/Assets/thelab/core/source/system/Activity.cs:206-217 | Unity time gives Time.deltaTime; the wall clock gives the seconds since the previous tick, or 1/60 when that is not positive, and so is always positive |
| Scheduler.RestartRearmsStart | shangduli/Assets/thelab/core/source/system/Timer.cs:151-155 | after a timer resets elapsed to 0, the next tick runs the start hook again, and the execute hook |
| Scheduler.StartThenExecute | shangduli/Assets/thelab/core/source/system/Activity.cs:218-230 | a start never comes without an execute on the same tick; executing continues on later ticks; a later start needs elapsed exactly 0 |
| Scheduler.TimerProgress | shangduli/Assets/thelab/core/source/system/Timer.cs:115 | progress is in [0,1]; elapsed/duration clamped when duration > 0; otherwise 1 exactly when running with elapsed >= 0, else 0 |
| Scheduler.FinalWriteIsNotTo | shangduli/Assets/thelab/core/source/motion/tween.cs:373-385 | the last write of a completing tween is at ratio 0.999 (duration > 0) or 0 (otherwise); the latter puts `from` back |
| Scheduler.Manager.constructor | shangduli/Assets/thelab/core/source/system/ActivityManager.cs:89-90 | empty lists, an empty event log, and the core counter at 0 |
| Scheduler.Manager.NextCore | shangduli/Assets/thelab/core/source/system/ActivityManager.cs:89 | a read of nextCore advances the counter as Registry.NextCore and returns the new value |
| Scheduler.Manager.AddActivity | shangduli/Assets/thelab/core/source/system/ActivityManager.cs:96-102 | appends the activity and returns true exactly when it was not registered; otherwise nothing changes |
| Scheduler.Manager.RemoveActivity | shangduli/Assets/thelab/core/source/system/ActivityManager.cs:108-114 | returns true exactly when the activity was registered, and it is no longer registered afterwards |
| Scheduler.Manager.Add | shangduli/Assets/thelab/core/source/system/ActivityManager.cs:96-102 | throws for an object of no list; otherwise appends it to its own list and returns true exactly when absent |
| Scheduler.Manager.Remove | shangduli/Assets/thelab/core/source/system/ActivityManager.cs:108-114 | throws for an object of no list; otherwise removes it from its list and returns whether it was there |
| Scheduler.Manager.RemoveByName | shangduli/Assets/thelab/core/source/system/ActivityManager.cs:121-129 | removes every activity and behaviour with the name, keeps the others in order, returns how many went |
| Scheduler.Manager.RemoveActivitiesNamed | shangduli/Assets/thelab/core/source/system/ActivityManager.cs:125 | the `RemoveAt(i--)` loop leaves exactly the activities with other names, in order, and counts the removals |
| Scheduler.Manager.RemoveNodesNamed | shangduli/Assets/thelab/core/source/system/ActivityManager.cs:127 | the same loop over the behaviours |
| Scheduler.Manager.StopSweep | shangduli/Assets/thelab/core/source/motion/tween.cs:225-231 | the list after the stop loop is Sweep's, and one Stopped event is logged per entry Sweep removes |
| Scheduler.Manager.Kill | shangduli/Assets/thelab/core/source/motion/tween.cs:222-233 | stops, through the skipping loop, the tweens matching the target filter (null = any) and property filter ("" = any) |
| Scheduler.Manager.KillDuplicates | shangduli/Assets/thelab/core/source/motion/tween.cs:239-252 | stops, through the skipping loop, the other started tweens on the same target and property |
| Scheduler.Manager.AllTweens | shangduli/Assets/thelab/core/source/motion/tween.cs:115-128 | `all` is exactly the registered tweens, in list order |
| Scheduler.RunningTweens | shangduli/Assets/thelab/core/source/motion/tween.cs:133-147 | the running tweens of a list: each is a tween of the list with elapsed >= 0, and every such tween is there |
| Scheduler.RunningTweensInTweenOrder | shangduli/Assets/thelab/core/source/motion/tween.cs:133-147 | `allRunning` keeps the order of `all`: filtering the tween list by elapsed gives the same sequence |
| Scheduler.Manager.AllRunning | shangduli/Assets/thelab/core/source/motion/tween.cs:133-147 | `allRunning` is exactly RunningTweens of the activity list: the registered tweens with elapsed >= 0, in list order |
| Scheduler.Manager.TickPass | shangduli/Assets/thelab/core/source/system/ActivityManager.cs:195-196 | with callbacks that start no activity (see Left out), the pass only removes activities and ticks only registered, selected ones; when nothing stops, it ticks exactly the selected ones in order |
| Scheduler.Manager.Update | shangduli/Assets/thelab/core/source/system/ActivityManager.cs:190-205 | `updates` callbacks first, then only non-threaded activities ticked (when nothing stops, exactly the non-threaded ones in list order; callbacks start no activity, see Left out), then the behaviour pass's list and callbacks |
| Scheduler.Manager.ThreadUpdate | shangduli/Assets/thelab/core/source/system/ActivityManager.cs:221-226 | ticks only threaded activities on that core, all of them when none stops |
| Scheduler.Manager.LateUpdate | shangduli/Assets/thelab/core/source/system/ActivityManager.cs:233-244 | the `late_updates` callbacks, then the behaviour pass's list and callbacks for ILateUpdateable |
| Scheduler.Manager.FixedUpdate | shangduli/Assets/thelab/core/source/system/ActivityManager.cs:249-260 | the `fixed_updates` callbacks, then the behaviour pass's list and callbacks for IFixedUpdateable |
| Scheduler.Activity.constructor | shangduli/Assets/thelab/core/source/system/Activity.cs:168-175 | elapsed = -delay, not paused; only a threaded activity takes a core from nextCore |
| Scheduler.Activity.Timer | shangduli/Assets/thelab/core/source/system/Timer.cs:127-132 | the activity constructor's guarantees plus duration, step 0 and count = steps |
| Scheduler.Activity.Tween | shangduli/Assets/thelab/core/source/motion/tween.cs:327-337 | identity easing for a missing one, valid = true, the target kind read from the target (the default kind for null), count 0 so the first step completes it |
| Scheduler.Activity.Progress | shangduli/Assets/thelab/core/source/system/Timer.cs:115 | a timer's progress lies in [0,1] |
| Scheduler.Activity.Start | shangduli/Assets/thelab/core/source/system/Activity.cs:193-198 | resets the wall clock and registers the activity once |
| Scheduler.Activity.Stop | shangduli/Assets/thelab/core/source/system/Activity.cs:180-188 | deregisters the activity; the Stopped event is logged only when it was registered, so a second Stop does nothing |
| Scheduler.Activity.OnUpdate | shangduli/Assets/thelab/core/source/system/Activity.cs:203-231 | paused: nothing changes. Otherwise deltaTime as TickDelta; the start hook runs first exactly when elapsed crosses from <= 0 to >= 0; the execute hook runs exactly when elapsed ends >= 0 |
| Scheduler.Activity.MeasureDelta | shangduli/Assets/thelab/core/source/system/Activity.cs:206-217 | deltaTime is TickDelta; the wall-clock mark moves only on the wall-clock branch |
| Scheduler.Activity.Advance | shangduli/Assets/thelab/core/source/system/Activity.cs:218-230 | elapsed advances by deltaTime, with the start and execute hooks exactly as due |
| Scheduler.Activity.StartHook | shangduli/Assets/thelab/core/source/system/Activity.cs:221-225 | logs Started; only a tween's OnStart changes anything else |
| Scheduler.Activity.TweenStart | shangduli/Assets/thelab/core/source/motion/tween.cs:65-91 | valid iff StartValidity; an invalid tween stops; a valid one stops its started duplicates, samples `from` from the target and, for a Transform, takes the snapshot |
| Scheduler.Activity.ExecuteHook | shangduli/Assets/thelab/core/source/system/Activity.cs:226-230 | logs Executed, then runs the kind's OnExecute |
| Scheduler.Activity.RunExecute | shangduli/Assets/thelab/core/source/system/Activity.cs:52-101 | the Run and RunOnce callbacks stop the activity exactly when their stop condition holds, and change nothing otherwise |
| Scheduler.Activity.TimerExecute | shangduli/Assets/thelab/core/source/system/Timer.cs:137-157 | nothing before elapsed reaches duration; then step callback on the old step and step + 1; then either elapsed resets to 0, or completion, the factory's action and Stop, in that order |
| Scheduler.Activity.Complete | shangduli/Assets/thelab/core/source/system/Timer.cs:144-150 | completion events, the Set write on a non-null target, then Stop |
| Scheduler.Activity.Lerp | shangduli/Assets/thelab/core/source/motion/TweenTarget.cs:27-243 | logs the ratio and writes the format's interpolated value into the target's property |
| Scheduler.Activity.TweenExecute | shangduli/Assets/thelab/core/source/motion/tween.cs:373-385 | the timer step, then Lerp(0.999 * progress); on the completing tick Lerp(1) is followed, after Stop, by Lerp(FinalRatio) |
| Scheduler.Activity.TweenTimer | shangduli/Assets/thelab/core/source/motion/tween.cs:382-385 | a tween's timer part: its completion calls Lerp(1) and then stops |
| Scheduler.Run | shangduli/Assets/thelab/core/source/system/Activity.cs:36-101 | Activity.Run/RunOnce register a fresh activity whose elapsed is -delay |
| Scheduler.RunTimer | shangduli/Assets/thelab/core/source/system/Timer.cs:23-29 | Timer.Run registers a fresh timer with the given duration and step count, starting at step 0 |
| Scheduler.RunDelayed | shangduli/Assets/thelab/core/source/system/Timer.cs:40-95 | Invoke, Set and Get use the delay as the duration, with no delay and count 0, so the action runs once |
| Scheduler.AddTween | shangduli/Assets/thelab/core/source/motion/tween.cs:161-179 | returns null and registers nothing exactly for an unsupported type; otherwise registers a fresh valid tween of the matching format |
| ParallelDictionary.Lookup | shangduli/Assets/thelab/core/source/dictionary/DictionaryBehaviour.cs:32 | the getter returns the value at the key's first index, null when absent |
| ParallelDictionary.AssignThenLookup | shangduli/Assets/thelab/core/source/dictionary/DictionaryBehaviour.cs:33-51 | after setting a non-null value the key reads back that value |
| ParallelDictionary.AssignKeepsOthers | shangduli/Assets/thelab/core/source/dictionary/DictionaryBehaviour.cs:33-51 | setting one key leaves what every other key reads unchanged |
| ParallelDictionary.AssignNullRemoves | shangduli/Assets/thelab/core/source/dictionary/DictionaryBehaviour.cs:38-49 | with no repeated keys, null removes a present key's pair or appends a null pair for an absent one; the key then reads null |
| ParallelDictionary.AssignNullExposesDuplicate | shangduli/Assets/thelab/core/source/dictionary/DictionaryBehaviour.cs:38-41 | with a repeated key, null removes only the first pair and the second value shows through |
| ParallelDictionary.ToMap | shangduli/Assets/thelab/core/source/dictionary/DictionaryBehaviour.cs:78-83 | the `instance` dictionary has exactly the listed keys |
| ParallelDictionary.ToMapAgreesWithLookup | shangduli/Assets/thelab/core/source/dictionary/DictionaryBehaviour.cs:78-83 | with no repeated keys `instance` agrees with the indexer on every key |
| ParallelDictionary.ToMapKeepsLastDuplicate | shangduli/Assets/thelab/core/source/dictionary/DictionaryBehaviour.cs:81 | with a repeated key `instance` keeps the last value while the indexer reads the first |
| ParallelDictionary.InstanceRoundTrip | shangduli/Assets/thelab/core/source/dictionary/DictionaryBehaviour.cs:78-91 | the dictionary built from a list of pairs maps each key to the value of its last pair |
| ParallelDictionary.DictionaryBehaviour.constructor | shangduli/Assets/thelab/core/source/dictionary/DictionaryBehaviour.cs:150-154 | after Awake both lists are empty; default(K) and default(V) are fixed at construction |
| ParallelDictionary.DictionaryBehaviour.Count | shangduli/Assets/thelab/core/source/dictionary/DictionaryBehaviour.cs:97 | Count is the number of keys |
| ParallelDictionary.DictionaryBehaviour.ContainsKey | shangduli/Assets/thelab/core/source/dictionary/DictionaryBehaviour.cs:104-107 | ContainsKey(k) exactly when k occurs in the keys |
| ParallelDictionary.DictionaryBehaviour.Get | shangduli/Assets/thelab/core/source/dictionary/DictionaryBehaviour.cs:32 | a non-null read implies the key is present |
| ParallelDictionary.DictionaryBehaviour.Set | shangduli/Assets/thelab/core/source/dictionary/DictionaryBehaviour.cs:33-51 | the lists equal Assign's; a non-null value reads back; every other key reads as before; the lists stay parallel |
| ParallelDictionary.DictionaryBehaviour.Add | shangduli/Assets/thelab/core/source/dictionary/DictionaryBehaviour.cs:128-134 | appends the pair without looking for the key; the lists stay parallel |
| ParallelDictionary.DictionaryBehaviour.AddDefault | shangduli/Assets/thelab/core/source/dictionary/DictionaryBehaviour.cs:121 | appends default(K) with default(V), a constant of the dictionary (null for a reference type, the zero value for a value type) |
| ParallelDictionary.DictionaryBehaviour.RemoveAt | shangduli/Assets/thelab/core/source/dictionary/DictionaryBehaviour.cs:140-145 | drops slot i from both lists, and does nothing for an index out of range |
| ParallelDictionary.DictionaryBehaviour.Clear | shangduli/Assets/thelab/core/source/dictionary/DictionaryBehaviour.cs:112-116 | both lists empty |
| ParallelDictionary.DictionaryBehaviour.Pairs | shangduli/Assets/thelab/core/source/dictionary/DictionaryBehaviour.cs:57-64 | the pairs getter returns (keys[i], values[i]) for every i, in order |
| ParallelDictionary.DictionaryBehaviour.SetPairs | shangduli/Assets/thelab/core/source/dictionary/DictionaryBehaviour.cs:66-70 | as written: null clears; an empty dictionary stays unchanged; a non-empty one gets every pair appended and then the loop runs past the argument |
| ParallelDictionary.DictionaryBehaviour.Instance | shangduli/Assets/thelab/core/source/dictionary/DictionaryBehaviour.cs:78-83 | the `instance` getter builds ToMap of the lists, whose keys are exactly the contained ones |
| ParallelDictionary.DictionaryBehaviour.SetInstance | shangduli/Assets/thelab/core/source/dictionary/DictionaryBehaviour.cs:85-91 | as written: null does nothing, and any dictionary leaves both lists empty |
| ParallelDictionary.DictionaryBehaviour.AppendPairs | shangduli/Assets/thelab/core/source/dictionary/DictionaryBehaviour.cs:66-70 | the corrected `pairs` setter appends every given pair in order |
| ParallelDictionary.DictionaryBehaviour.LoadInstance | shangduli/Assets/thelab/core/source/dictionary/DictionaryBehaviour.cs:85-91 | the corrected `instance` setter makes the lists exactly the given pairs |
| Tags.EmptyQueryMatches | shangduli/Assets/thelab/core/source/tag/Tag.cs:66-79 | an empty query matches in the non-precise test |
| Tags.PreciseIgnoresMultiplicity | shangduli/Assets/thelab/core/source/tag/Tag.cs:68-78 | [a, a] precisely matches the stored [a, b] although the multisets differ |
| Tags.PreciseIsCountedMatch | shangduli/Assets/thelab/core/source/tag/Tag.cs:68-78 | the precise test is the non-precise test plus equal counts |
| Tags.Tag.constructor | shangduli/Assets/thelab/core/source/tag/Tag.cs:26 | a tag with the given label and values |
| Tags.Tag.Count | shangduli/Assets/thelab/core/source/tag/Tag.cs:42 | Count is the number of tag values |
| Tags.Tag.Get | shangduli/Assets/thelab/core/source/tag/Tag.cs:35 | the index getter returns one of the tag values |
| Tags.Tag.Set | shangduli/Assets/thelab/core/source/tag/Tag.cs:36 | the index setter writes slot p and leaves every other slot and the count unchanged |
| Tags.Tag.Contains | shangduli/Assets/thelab/core/source/tag/Tag.cs:49 | Contains(t) exactly when some slot holds t |
| Tags.Tag.Match | shangduli/Assets/thelab/core/source/tag/Tag.cs:66-79 | the nested loops answer Matches: counts equal when precise, and every queried value present |
| Tags.Tag.MatchAll | shangduli/Assets/thelab/core/source/tag/Tag.cs:56 | Match(params) is the non-precise test: true exactly when every queried value is contained |
| Tags.Labelled | shangduli/Assets/thelab/core/source/tag/Tag.cs:97-103 | keeps exactly the queried tags with the wanted label, and no more than were queried |
| Tags.FindAll | shangduli/Assets/thelab/core/source/tag/Tag.cs:97-103 | the search loop returns Labelled: exactly the tags with that label, in query order |

## Left out

- Worker threads are not modelled: `ThreadStart`, the `Thread.Sleep` loop, thread priority and the abort check at the top of `ThreadUpdate` (ActivityManager.cs:150-170, 212-220). They are concurrency; only the core filter of `ThreadUpdate` is modelled, as a sequential pass.
- The time source is a set of parameters: `Time.deltaTime`, `DateTime.UtcNow` and `Application.isPlaying`.
- `Reflection` is not part of this model. A target is a map from member name to value plus a set of method names:
  - `Get` reads the map (default(T) when the member is missing; see `Scheduler.Lookup` below for a member of another type);
  - `Set` writes an existing member only (see `Scheduler.Store` below for a value of another type);
  - `Contains` tests both.
- The Material target of tweens is not modelled (`GetFloat`/`HasProperty` and the like).
- `Timer.Invoke` does not call anything. The call is logged as an `Invoked` event, so a missing method's exception in `Reflection.Invoke` is not modelled. `Timer.InvokeThread` is `Invoke` on a threaded timer and has no factory of its own here.
- `Activity.Run(Func<bool>)` is covered by the `RunWhile` kind. The model gives the predicate the elapsed time, and the `Func<bool>` form ignores it.
- `Quaternion.Slerp` is not computed. It is kept as the symbolic term `Slerp(from, to, t)`.
- `Spline.MeasureStep`, `Distance` and `MoveTowards` are floating-point geometry. The section measure is a function parameter, and its non-negativity is a hypothesis of the lemmas that need it. Only the scalar (`float`) spline and the scalar curve formulas are modelled; the vector, colour and quaternion overloads are not.
- `float` rounding is not modelled: arithmetic is on `real`.
- Unity object plumbing is not modelled: the singleton lookup of `ActivityManager.instance`, `ActivityBehaviour` enable/disable hooks, `Debug.LogWarning`, and the `name` built from the type name and hash code (a parameter here).
- `DictionaryBehaviour` lists that are null before `Awake` are not modelled; the model starts after `Awake`. The C# `Dictionary` given to the `instance` setter arrives as its list of pairs, in enumeration order.
- `Tag.FindAll` takes the result of `GameObject.FindObjectsOfType` as a parameter.
- Scheduler.Activity.TweenExecute: says nothing about the target's members; `Lerp` states each write.
- Scheduler.Manager.TickPass: states exactly which activities were ticked only when no tick stopped an activity. Otherwise it states that the ticked ones were registered and selected.
- Scheduler.Activity.Lerp: a TransformTween writes its position, rotation and scale as one value into the target's member. The source instead mutates the Transform object held in `from`, so aliasing between that Transform and other members is not modelled. Likewise the `to` of a TransformTween is a Transform object whose position, rotation and scale the source re-reads on every Lerp (TweenTarget.cs:205-207), so a tween toward a moving Transform follows it. The model reads `to` once, when the tween is added, and interpolates toward that fixed value.
- Scheduler.Activity.Lerp: on a null target the source throws a NullReferenceException, because `Reflection.Set` starts with `GetType()` on the target (Reflection.cs:173). The model writes nothing instead. This path is reached: a tween found invalid by `OnStart` stops, but `OnExecute` still runs on the same tick (Activity.cs:218-229) and calls `Lerp` (tween.cs:373-377).
- Scheduler.Activity.Lerp: a `TransformTween` whose `from` or `to` is not a Transform (null, for instance because an invalid tween never sampled it) throws a NullReferenceException at TweenTarget.cs:195 and 204-211. `LerpValue` gives None there, and the model writes nothing.
- TweenValues.Coerce: a stored value of another type than T throws an InvalidCastException in `Reflection.Get` (the `(U)(object)` casts at Reflection.cs:90 and 92). The model reads it as default(T) instead.
- Scheduler.Lookup: like `Coerce`, a member holding a value of another type reads as default(T) where the source throws an InvalidCastException (Reflection.cs:90, 92).
- Tags.Tag.Get: an index outside the list throws an ArgumentOutOfRangeException in the `List` indexer (Tag.cs:35). The model requires the index to be in range.
- Tags.Tag.Set: the same for the setter (Tag.cs:36): an index out of range throws, and the model requires it in range.
- Splines.Spline.constructor: `new T[p_length]` throws an OverflowException for a negative length (Spline.cs:88). The model takes the length as a `nat`.
- Splines.Spline.Resize: the same exception for a negative length (Spline.cs:205). The model takes a `nat`.
- ParallelDictionary.DictionaryBehaviour.Get: for an absent key the getter returns `(V)(object)null` (DictionaryBehaviour.cs:32). That cast throws a NullReferenceException when V is a value type. The model returns None (null) for every V.
- Splines.Spline.Refresh: the source measures each section through `GetNormalized(…, false)` (Spline.cs:307-308), which also overwrites the sample window. The model's `Refresh` leaves `samples` alone. Every sampling rewrites the window before reading it, so no result depends on this.
- Scheduler.Manager.Update: like `TickPass`, it states exactly which activities were ticked only when no tick stopped an activity.
- Scheduler.Manager.TickPass: callbacks are log entries and run no user code. The Run predicates, the public delegates, the methods `Timer.Invoke` calls and the setter `Timer.Set` reaches cannot start or stop activities here. In the source they can. An activity started by a callback is appended (Activity.cs:193-198), and the loop re-reads `al.Count` (ActivityManager.cs:196), so the source ticks it in the same frame. A callback that stops other entries shifts the index. The contract's "only removes" and "ticked ones were in the old list" hold for the model's callbacks only.
- Scheduler.Manager.Update: the same as for `TickPass`. Its activity pass does not tick activities that callbacks start mid-pass, and its callbacks stop nothing but their own activity.
- Scheduler.Store: `Reflection.Set` passes no implicit number cast and calls `SetValue` directly (Reflection.cs:186, 215). A value whose type differs from the member's throws an ArgumentException there. The model writes any value into an existing member.
- Scheduler.Target.Set: the same type mismatch throws in the source and is a plain write in the model.
- Scheduler.Activity.Complete: `Timer.Set` passes an arbitrary object (Timer.cs:72-75). When its type differs from the member's, the source throws before `Stop`. The model writes it and stops.
- ParallelDictionary.DictionaryBehaviour.Instance: the getter's `res[keys[i]] = values[i]` throws an ArgumentNullException for a null key, such as the null default(K) that `Add()` stores for a reference type K. `ToMap` accepts every key.
- ParallelDictionary.ToMap: the same null-key exception is not modelled.
- Scheduler.AddTween: for an unsupported type with a null target, the source's warning message dereferences the target and throws. The model returns null.

Two behaviours of the code that the model keeps as written:
- `Timer.Invoke`, `Set` and `Get` take a parameter named `p_delay` and pass it to the Timer constructor as the duration, with count 0 (Timer.cs:40, 72, 89). The action therefore runs once, when `elapsed` first reaches that duration (`Scheduler.RunDelayed`).
- The `instance` setter clears the lists and then loads nothing, because the `pairs` setter's loop is bounded by `values.Count` (DictionaryBehaviour.cs:69, 85-91); see Findings.

## Findings

| source | as written | input that shows it | evidently intended | confidence | as-written member | corrected member |
|---|---|---|---|---|---|---|
| shangduli/Assets/thelab/core/source/system/ActivityManager.cs:201-203 | after `bl.RemoveAt(i--)` for a destroyed behaviour the loop goes on to use `bl[i]` with the decremented index (also at lines 241-242 and 257-258) | behaviours [m, n] with m updateable and n destroyed: m is called back twice; a destroyed first entry reads `bl[-1]` and throws | drop the destroyed entry and move on to the next one without a callback | high (not executed) | Registry.DestroyedSecondTicksPreviousTwice | Registry.BehaviourPassFilters |
| shangduli/Assets/thelab/core/source/motion/tween.cs:348-355 | `Reflection.Contains(target, property)` is called before `instance_ok` is consulted, and it calls `GetType()` on the target | `Tween.Add<float>(null, "x", 1f, easing)`: the first tick with elapsed >= 0 throws a NullReferenceException from OnStart instead of marking the tween invalid and stopping it | a null target makes the tween invalid, and it stops. On that same tick `OnExecute` still runs, and its `Lerp` dereferences the null target again (Reflection.cs:173); the target test in `Scheduler.Activity.Lerp` is a second correction, listed under Left out | high (not executed) | Scheduler.StartValidityAsWritten | Scheduler.StartValidity |
| shangduli/Assets/thelab/core/source/dictionary/DictionaryBehaviour.cs:69 | the `pairs` setter loops while `i < values.Count` (the dictionary's own list) instead of the argument's count | `instance = d` for any non-empty `d`: after `Clear`, `values.Count` is 0, so the dictionary is left empty; `pairs = ps` on a non-empty dictionary appends `ps` and then reads past its end | append every given pair, so that `instance = d` loads `d` | high (not executed) | ParallelDictionary.DictionaryBehaviour.SetInstance | ParallelDictionary.DictionaryBehaviour.LoadInstance |
