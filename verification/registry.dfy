/**
 * The pure side of ActivityManager: which execution list a node belongs to,
 * the round-robin core counter, and the per-frame pass over the
 * ActivityBehaviour list (as written, and with the index kept in range).
 */
module Registry {
  import opened Wrappers
  import opened IndexedRemoval

  /**
   * What a registered object is: an ActivityBehaviour, an Activity, and which of
   * IUpdateable, IConditionalUpdateable, ILateUpdateable, IFixedUpdateable it implements.
   */
  datatype Caps = Caps(behaviour: bool, activity: bool, updateable: bool,
                       conditional: bool, late: bool, fixed: bool)

  /** The manager's execution lists. */
  datatype ListId = Behaviours | Activities | Updates | ConditionalUpdates | LateUpdates | FixedUpdates

  /** GetList: the first list in priority order the object qualifies for; None stands for null. */
  function GetList(c: Caps): (l: Option<ListId>)
    ensures l == Some(Behaviours) <==> c.behaviour
    ensures l == Some(Activities) <==> !c.behaviour && c.activity
    ensures l == Some(Updates) <==> !c.behaviour && !c.activity && c.updateable
    ensures l == Some(ConditionalUpdates) <==> !c.behaviour && !c.activity && !c.updateable && c.conditional
    ensures l == Some(LateUpdates) <==>
      !c.behaviour && !c.activity && !c.updateable && !c.conditional && c.late
    ensures l == Some(FixedUpdates) <==>
      !c.behaviour && !c.activity && !c.updateable && !c.conditional && !c.late && c.fixed
    ensures l == None <==> !(c.behaviour || c.activity || c.updateable || c.conditional || c.late || c.fixed)
  {
    if c.behaviour then Some(Behaviours)
    else if c.activity then Some(Activities)
    else if c.updateable then Some(Updates)
    else if c.conditional then Some(ConditionalUpdates)
    else if c.late then Some(LateUpdates)
    else if c.fixed then Some(FixedUpdates)
    else None
  }

  /** Every Activity implements IUpdateable, yet it is registered in the activity list, never in `updates`. */
  lemma ActivityNeverInUpdates(c: Caps)
    requires c.activity && c.updateable && !c.behaviour
    ensures GetList(c) == Some(Activities) && GetList(c) != Some(Updates)
  {
  }

  /** One read of nextCore: the counter advanced by one, modulo the core count. */
  function NextCore(m: int, cores: int): (r: int)
    requires cores >= 1
    ensures 0 <= r < cores
    ensures 0 <= m < cores - 1 ==> r == m + 1
    ensures m == cores - 1 ==> r == 0
  {
    (m + 1) % cores
  }

  /** The counter after k reads of nextCore. */
  function ReadsOfNextCore(m: int, cores: int, k: nat): (r: int)
    requires cores >= 1
  {
    if k == 0 then m else NextCore(ReadsOfNextCore(m, cores, k - 1), cores)
  }

  /** Before the counter reaches the last core, each read moves it one core on. */
  lemma {:induction false} CountsUp(m: int, cores: int, k: nat)
    requires cores >= 1 && 0 <= m && m + k < cores
    ensures ReadsOfNextCore(m, cores, k) == m + k
  {
    if k > 0 {
      CountsUp(m, cores, k - 1);
    }
  }

  /** a reads followed by b reads are a + b reads. */
  lemma {:induction false} ReadsCompose(m: int, cores: int, a: nat, b: nat)
    requires cores >= 1
    ensures ReadsOfNextCore(m, cores, a + b) == ReadsOfNextCore(ReadsOfNextCore(m, cores, a), cores, b)
  {
    if b > 0 {
      ReadsCompose(m, cores, a, b - 1);
    }
  }

  /** After `cores` reads the counter is back where it started: every core is handed out once per cycle. */
  lemma FullCycle(m: int, cores: int)
    requires cores >= 1 && 0 <= m < cores
    ensures ReadsOfNextCore(m, cores, cores) == m
  {
    CountsUp(m, cores, cores - m - 1);
    ReadsCompose(m, cores, cores - m - 1, 1);
    assert ReadsOfNextCore(m, cores, cores - m) == 0;
    CountsUp(0, cores, m);
    ReadsCompose(m, cores, cores - m, m);
  }

  /** The sequence of cores handed out repeats with period `cores`. */
  lemma RoundRobin(m: int, cores: int, k: nat)
    requires cores >= 1 && 0 <= m < cores
    ensures ReadsOfNextCore(m, cores, k + cores) == ReadsOfNextCore(m, cores, k)
  {
    ReadsCompose(m, cores, cores, k);
    FullCycle(m, cores);
  }

  /** A node on a manager list: identity, name and capabilities. */
  datatype Node = Node(id: nat, name: string, caps: Caps)

  /** The three Unity callbacks that walk the behaviour list. */
  datatype Frame = UpdateFrame | LateFrame | FixedFrame

  /** Whether a node is called back in a given frame callback. */
  predicate TicksIn(f: Frame, n: Node)
  {
    match f
    case UpdateFrame => n.caps.updateable
    case LateFrame => n.caps.late
    case FixedFrame => n.caps.fixed
  }

  /** Whether a node's OnConditionUpdate is consulted (only in Update) and answers false. */
  predicate Declines(f: Frame, n: Node, cond: Node -> bool)
  {
    f == UpdateFrame && n.caps.conditional && !cond(n)
  }

  /** Result of a behaviour pass: the list afterwards and the nodes called back, in order. */
  datatype PassResult = PassResult(list: seq<Node>, ticks: seq<Node>)

  /**
   * The behaviour loop as written:
   *   if (!bl[i]) bl.RemoveAt(i--);
   *   if (bl[i] is I...) bl[i].On...();
   *   if (bl[i] is IConditionalUpdateable && !OnConditionUpdate()) bl.RemoveAt(i--);
   * After dropping a destroyed entry the index points at the previous entry
   * (or at -1, which throws). None stands for the thrown exception.
   */
  function BehaviourPassAsWritten(f: Frame, bl: seq<Node>, i: nat, destroyed: set<Node>, cond: Node -> bool): (r: Option<PassResult>)
    requires i <= |bl|
    ensures r.Some? ==> |r.value.list| <= |bl|
    decreases 2 * |bl| - i
  {
    if i == |bl| then Some(PassResult(bl, []))
    else
      var bl1 := if bl[i] in destroyed then bl[..i] + bl[i + 1..] else bl;
      var j := if bl[i] in destroyed then i - 1 else i;
      if j < 0 then None
      else
        var n := bl1[j];
        var bl2 := if Declines(f, n, cond) then bl1[..j] + bl1[j + 1..] else bl1;
        var k := if Declines(f, n, cond) then j - 1 else j;
        var rest := BehaviourPassAsWritten(f, bl2, k + 1, destroyed, cond);
        if rest.None? then None
        else Some(PassResult(rest.value.list, (if TicksIn(f, n) then [n] else []) + rest.value.ticks))
  }

  /**
   * The behaviour loop with the index kept in range: a destroyed entry is
   * dropped without a callback, every other entry is called back when it
   * implements the frame's interface, and in Update dropped when its
   * OnConditionUpdate answers false.
   */
  function BehaviourPass(f: Frame, bl: seq<Node>, destroyed: set<Node>, cond: Node -> bool): (r: PassResult)
    ensures |r.list| <= |bl| && |r.ticks| <= |bl|
  {
    if bl == [] then PassResult([], [])
    else
      var n := bl[0];
      var rest := BehaviourPass(f, bl[1..], destroyed, cond);
      PassResult((if n !in destroyed && !Declines(f, n, cond) then [n] else []) + rest.list,
                 (if n !in destroyed && TicksIn(f, n) then [n] else []) + rest.ticks)
  }

  /**
   * The corrected pass keeps exactly the live entries that do not decline, and
   * calls back exactly the live entries implementing the frame's interface, in list order.
   */
  lemma {:induction false} BehaviourPassFilters(f: Frame, bl: seq<Node>, destroyed: set<Node>, cond: Node -> bool)
    ensures BehaviourPass(f, bl, destroyed, cond).list == Filter(bl, n => n !in destroyed && !Declines(f, n, cond))
    ensures BehaviourPass(f, bl, destroyed, cond).ticks == Filter(bl, n => n !in destroyed && TicksIn(f, n))
  {
    if bl != [] {
      BehaviourPassFilters(f, bl[1..], destroyed, cond);
      assert bl == [bl[0]] + bl[1..];
      FilterCons(bl[0], bl[1..], n => n !in destroyed && !Declines(f, n, cond));
      FilterCons(bl[0], bl[1..], n => n !in destroyed && TicksIn(f, n));
    }
  }

  /** A destroyed entry in the first slot makes the loop index slot -1. */
  lemma DestroyedFirstThrows(f: Frame, n: Node, cond: Node -> bool)
    ensures BehaviourPassAsWritten(f, [n], 0, {n}, cond) == None
  {
  }

  /** A destroyed entry after an updateable one makes the loop call the earlier one back twice. */
  lemma DestroyedSecondTicksPreviousTwice(m: Node, n: Node, cond: Node -> bool)
    requires m != n && m.caps.updateable && !m.caps.conditional
    ensures BehaviourPassAsWritten(UpdateFrame, [m, n], 0, {n}, cond) == Some(PassResult([m], [m, m]))
    ensures BehaviourPass(UpdateFrame, [m, n], {n}, cond) == PassResult([m], [m])
  {
    var bl := [m, n];
    var bl1 := bl[..1] + bl[2..];
    assert bl[1] == n && bl1 == [m] && bl1[0] == m;
    UnfoldDestroyed(UpdateFrame, bl, 1, {n}, cond);
    assert BehaviourPassAsWritten(UpdateFrame, bl1, 1, {n}, cond) == Some(PassResult([m], []));
    assert TicksIn(UpdateFrame, m) && !Declines(UpdateFrame, m, cond);
    assert [m] + [] == [m] && [m] + [m] == [m, m];
    assert BehaviourPassAsWritten(UpdateFrame, bl, 1, {n}, cond) == Some(PassResult([m], [m]));
    UnfoldLive(UpdateFrame, bl, 0, {n}, cond);
    assert BehaviourPassAsWritten(UpdateFrame, bl, 0, {n}, cond) == Some(PassResult([m], [m, m]));
  }

  /** With no destroyed entries the loop as written and the corrected loop agree. */
  lemma {:induction false} AsWrittenAgreesWithoutDestroyed(f: Frame, bl: seq<Node>, i: nat, destroyed: set<Node>, cond: Node -> bool)
    requires i <= |bl|
    requires forall n :: n in bl ==> n !in destroyed
    ensures BehaviourPassAsWritten(f, bl, i, destroyed, cond)
         == Some(PassResult(bl[..i] + BehaviourPass(f, bl[i..], destroyed, cond).list,
                            BehaviourPass(f, bl[i..], destroyed, cond).ticks))
    decreases |bl| - i, 1
  {
    if i == |bl| {
      assert bl[..i] == bl;
      assert bl[i..] == [];
      assert BehaviourPass(f, [], destroyed, cond) == PassResult([], []);
      assert BehaviourPassAsWritten(f, bl, i, destroyed, cond) == Some(PassResult(bl, []));
      assert bl[..i] + [] == bl;
    } else {
      AgreeStep(f, bl, i, destroyed, cond);
    }
  }

  /** One step of AsWrittenAgreesWithoutDestroyed, at a slot holding a live entry. */
  lemma {:induction false} AgreeStep(f: Frame, bl: seq<Node>, i: nat, destroyed: set<Node>, cond: Node -> bool)
    requires i < |bl|
    requires forall n :: n in bl ==> n !in destroyed
    ensures BehaviourPassAsWritten(f, bl, i, destroyed, cond)
         == Some(PassResult(bl[..i] + BehaviourPass(f, bl[i..], destroyed, cond).list,
                            BehaviourPass(f, bl[i..], destroyed, cond).ticks))
    decreases |bl| - i, 0
  {
    var n := bl[i];
    var tail := bl[i + 1..];
    assert bl[i..][1..] == tail;
    UnfoldLive(f, bl, i, destroyed, cond);
    if Declines(f, n, cond) {
      var bl2 := bl[..i] + tail;
      assert forall x :: x in bl2 ==> x in bl;
      assert bl2[..i] == bl[..i];
      assert bl2[i..] == tail;
      AsWrittenAgreesWithoutDestroyed(f, bl2, i, destroyed, cond);
      var rest := BehaviourPass(f, tail, destroyed, cond);
      assert [] + rest.list == rest.list;
      assert BehaviourPass(f, bl[i..], destroyed, cond).list == rest.list;
    } else {
      assert bl[i + 1..] == tail;
      AsWrittenAgreesWithoutDestroyed(f, bl, i + 1, destroyed, cond);
      ConcatSlot(bl, i, BehaviourPass(f, tail, destroyed, cond).list);
    }
  }

  /** Moving one entry across the boundary between prefix and rest. */
  lemma ConcatSlot<T>(s: seq<T>, i: nat, t: seq<T>)
    requires i < |s|
    ensures s[..i + 1] + t == s[..i] + ([s[i]] + t)
  {
    assert s[..i + 1] == s[..i] + [s[i]];
  }

  /** The loop as written at a slot holding a live entry: call it back, maybe drop it, move on. */
  lemma UnfoldLive(f: Frame, bl: seq<Node>, i: nat, destroyed: set<Node>, cond: Node -> bool)
    requires i < |bl| && bl[i] !in destroyed
    ensures var n := bl[i];
            var rest := if Declines(f, n, cond)
                        then BehaviourPassAsWritten(f, bl[..i] + bl[i + 1..], i, destroyed, cond)
                        else BehaviourPassAsWritten(f, bl, i + 1, destroyed, cond);
            BehaviourPassAsWritten(f, bl, i, destroyed, cond)
            == if rest.None? then None
               else Some(PassResult(rest.value.list, (if TicksIn(f, n) then [n] else []) + rest.value.ticks))
  {
  }

  /** The loop as written at a slot holding a destroyed entry: drop it, then work on the previous slot. */
  lemma UnfoldDestroyed(f: Frame, bl: seq<Node>, i: nat, destroyed: set<Node>, cond: Node -> bool)
    requires 0 < i < |bl| && bl[i] in destroyed
    ensures var bl1 := bl[..i] + bl[i + 1..];
            var n := bl1[i - 1];
            var rest := if Declines(f, n, cond)
                        then BehaviourPassAsWritten(f, bl1[..i - 1] + bl1[i..], i - 1, destroyed, cond)
                        else BehaviourPassAsWritten(f, bl1, i, destroyed, cond);
            BehaviourPassAsWritten(f, bl, i, destroyed, cond)
            == if rest.None? then None
               else Some(PassResult(rest.value.list, (if TicksIn(f, n) then [n] else []) + rest.value.ticks))
  {
  }

  /** Filtering a list with a known first entry. */
  lemma {:induction false} FilterCons<T>(x: T, t: seq<T>, p: T -> bool)
    ensures Filter([x] + t, p) == (if p(x) then [x] else []) + Filter(t, p)
    decreases |t|
  {
    if t == [] {
      assert [x] + t == [x];
      assert [x][..0] == [];
    } else {
      var s := [x] + t;
      var last := t[|t| - 1];
      assert s[..|s| - 1] == [x] + t[..|t| - 1];
      assert s[|s| - 1] == last;
      var tail := if p(last) then [last] else [];
      assert Filter(s, p) == Filter([x] + t[..|t| - 1], p) + tail;
      FilterCons(x, t[..|t| - 1], p);
      assert Filter(t, p) == Filter(t[..|t| - 1], p) + tail;
    }
  }
}
