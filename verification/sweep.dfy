/**
 * List operations shared by the scheduler: List.IndexOf, List.Remove, the
 * order-preserving removal of a set of entries, and the index loop
 * `for (i = 0; i < l.Count; i++) if (doomed(l[i])) l.Remove(l[i]);` whose
 * removals shift the following entry into the slot the increment then passes.
 */
module IndexedRemoval {

  /** No entry occurs twice. */
  ghost predicate Distinct<T>(s: seq<T>)
  {
    forall i, j :: 0 <= i < j < |s| ==> s[i] != s[j]
  }

  /** List.IndexOf: the first position holding x, or -1. */
  function IndexOf<T(==)>(s: seq<T>, x: T): (i: int)
    ensures -1 <= i < |s|
    ensures i == -1 <==> x !in s
    ensures 0 <= i ==> s[i] == x && x !in s[..i]
  {
    if |s| == 0 then -1
    else if s[0] == x then 0
    else
      var j := IndexOf(s[1..], x);
      assert s[1..] == s[1..];
      if j < 0 then -1
      else
        assert s[..j + 1] == [s[0]] + s[1..][..j];
        j + 1
  }

  /** The first index of x is the one before which x does not occur. */
  lemma IndexOfUnique<T>(s: seq<T>, x: T, i: nat)
    requires i < |s| && s[i] == x && x !in s[..i]
    ensures IndexOf(s, x) == i
  {
  }

  /** List.Remove(x): drops the first occurrence of x; the list is unchanged when x is absent. */
  function RemoveFirst<T(==)>(s: seq<T>, x: T): (r: seq<T>)
    ensures x !in s ==> r == s
    ensures x in s ==> |r| == |s| - 1 && multiset(r) == multiset(s) - multiset{x}
  {
    var i := IndexOf(s, x);
    if i < 0 then s
    else
      assert s == s[..i] + [x] + s[i + 1..];
      s[..i] + s[i + 1..]
  }

  /** The entries of s that are not in d, in their original order. */
  function Without<T(==)>(s: seq<T>, d: set<T>): (r: seq<T>)
    ensures |r| <= |s|
  {
    if s == [] then []
    else Without(s[..|s| - 1], d) + (if s[|s| - 1] in d then [] else [s[|s| - 1]])
  }

  /** An entry survives the removal exactly when it was present and not removed. */
  lemma {:induction false} WithoutIn<T>(s: seq<T>, d: set<T>, x: T)
    ensures x in Without(s, d) <==> x in s && x !in d
  {
    if s != [] {
      WithoutIn(s[..|s| - 1], d, x);
      assert s == s[..|s| - 1] + [s[|s| - 1]];
    }
  }

  /** The entries of s missing from t. */
  function Gone<T(==)>(s: seq<T>, t: seq<T>): set<T>
  {
    set x | x in s && x !in t
  }

  /** t is s with some entries removed and the rest left in order. */
  ghost predicate Shrinks<T>(t: seq<T>, s: seq<T>)
  {
    t == Without(s, Gone(s, t))
  }

  /** Removing two sets one after the other removes their union. */
  lemma {:induction false} WithoutWithout<T>(s: seq<T>, a: set<T>, b: set<T>)
    ensures Without(Without(s, a), b) == Without(s, a + b)
  {
    if s != [] {
      var init := s[..|s| - 1];
      var last := s[|s| - 1];
      WithoutWithout(init, a, b);
      var tail := if last in a then [] else [last];
      assert Without(s, a) == Without(init, a) + tail;
      WithoutAppend(Without(init, a), tail, b);
    }
  }

  /** Only the part of d that meets s matters. */
  lemma {:induction false} WithoutExt<T>(s: seq<T>, a: set<T>, b: set<T>)
    requires forall x :: x in s ==> (x in a <==> x in b)
    ensures Without(s, a) == Without(s, b)
  {
    if s != [] {
      WithoutExt(s[..|s| - 1], a, b);
    }
  }

  /** Nothing removed means nothing changed. */
  lemma {:induction false} WithoutSameLength<T>(s: seq<T>, d: set<T>)
    requires |Without(s, d)| == |s|
    ensures Without(s, d) == s
  {
    if s != [] {
      var init := s[..|s| - 1];
      var last := s[|s| - 1];
      assert Without(s, d) == Without(init, d) + (if last in d then [] else [last]);
      assert |Without(init, d)| <= |init|;
      if last !in d {
        WithoutSameLength(init, d);
        assert s == init + [last];
      }
    }
  }

  /** Removing entries keeps a list free of repetitions. */
  lemma {:induction false} WithoutDistinct<T>(s: seq<T>, d: set<T>)
    requires Distinct(s)
    ensures Distinct(Without(s, d))
  {
    if s != [] {
      var init := s[..|s| - 1];
      var last := s[|s| - 1];
      assert Distinct(init);
      WithoutDistinct(init, d);
      assert last !in init;
      WithoutIn(init, d, last);
    }
  }

  /** Removing nothing that occurs in s leaves s unchanged. */
  lemma {:induction false} WithoutNothing<T>(s: seq<T>, d: set<T>)
    requires forall x :: x in s ==> x !in d
    ensures Without(s, d) == s
  {
    if s != [] {
      WithoutNothing(s[..|s| - 1], d);
    }
  }

  /** Without distributes over concatenation. */
  lemma {:induction false} WithoutAppend<T>(s: seq<T>, t: seq<T>, d: set<T>)
    ensures Without(s + t, d) == Without(s, d) + Without(t, d)
    decreases |t|
  {
    if t == [] {
      assert s + t == s;
    } else {
      var init := t[..|t| - 1];
      assert (s + t)[..|s + t| - 1] == s + init;
      WithoutAppend(s, init, d);
    }
  }

  /** In a list without repetitions an entry does not occur again after its position. */
  lemma {:induction false} NotLater<T>(s: seq<T>, i: int)
    requires Distinct(s) && 0 <= i < |s|
    ensures s[i] !in s[i + 1..]
  {
    var post := s[i + 1..];
    forall k | 0 <= k < |post|
      ensures post[k] != s[i]
    {
      assert post[k] == s[i + 1 + k];
    }
  }

  /** Removing x from pre + [x] + post, where x occurs in neither part, leaves pre + post. */
  lemma {:induction false} WithoutMiddle<T>(pre: seq<T>, x: T, post: seq<T>)
    requires x !in pre && x !in post
    ensures Without(pre + [x] + post, {x}) == pre + post
  {
    assert Without(pre + [x], {x}) == pre by {
      WithoutAppend(pre, [x], {x});
      assert Without([x], {x}) == [] by {
        assert [x][..0] == [];
      }
      WithoutNothing(pre, {x});
    }
    assert Without(post, {x}) == post by {
      WithoutNothing(post, {x});
    }
    WithoutAppend(pre + [x], post, {x});
  }

  /** In a list without repetitions, List.Remove(x) removes exactly x. */
  lemma {:induction false} RemoveFirstIsWithout<T>(s: seq<T>, x: T)
    requires Distinct(s)
    ensures RemoveFirst(s, x) == Without(s, {x})
  {
    var i := IndexOf(s, x);
    if i < 0 {
      WithoutNothing(s, {x});
    } else {
      NotLater(s, i);
      assert s == s[..i] + [x] + s[i + 1..];
      WithoutMiddle(s[..i], x, s[i + 1..]);
    }
  }

  /** In a list without repetitions, List.Remove of the entry in slot i closes that slot. */
  lemma {:induction false} RemoveFirstAt<T>(s: seq<T>, i: nat)
    requires Distinct(s) && i < |s|
    ensures RemoveFirst(s, s[i]) == s[..i] + s[i + 1..]
    ensures Distinct(s[..i] + s[i + 1..])
  {
    var t := s[..i] + s[i + 1..];
    forall a, b | 0 <= a < b < |t|
      ensures t[a] != t[b]
    {
      var a' := if a < i then a else a + 1;
      var b' := if b < i then b else b + 1;
      assert t[a] == s[a'] && t[b] == s[b'];
    }
  }

  /** List.Remove of a present entry in a list without repetitions: the entry goes, nothing else does. */
  lemma RemovePresent<T>(s: seq<T>, x: T)
    requires Distinct(s) && x in s
    ensures Distinct(RemoveFirst(s, x)) && x !in RemoveFirst(s, x)
    ensures Shrinks(RemoveFirst(s, x), s)
    ensures forall y :: y in RemoveFirst(s, x) ==> y in s
  {
    var i := IndexOf(s, x);
    assert Distinct(RemoveFirst(s, x)) by {
      RemoveFirstAt(s, i);
    }
    assert RemoveFirst(s, x) == Without(s, {x}) by {
      RemoveFirstIsWithout(s, x);
    }
    ShrinksWithout(s, {x});
    WithoutIn(s, {x}, x);
    forall y | y in RemoveFirst(s, x)
      ensures y in s
    {
      WithoutIn(s, {x}, y);
    }
  }

  /** A list shrinks from itself. */
  lemma {:induction false} ShrinksRefl<T>(s: seq<T>)
    ensures Shrinks(s, s)
  {
    WithoutNothing(s, Gone(s, s));
  }

  /** Removing a set of entries shrinks the list. */
  lemma {:induction false} ShrinksWithout<T>(s: seq<T>, d: set<T>)
    ensures Shrinks(Without(s, d), s)
  {
    forall x | x in s
      ensures x in d <==> x in Gone(s, Without(s, d))
    {
      WithoutIn(s, d, x);
    }
    WithoutExt(s, d, Gone(s, Without(s, d)));
  }

  /** Shrinking twice is shrinking. */
  lemma {:induction false} ShrinksTrans<T>(u: seq<T>, t: seq<T>, s: seq<T>)
    requires Shrinks(u, t) && Shrinks(t, s)
    ensures Shrinks(u, s)
  {
    WithoutWithout(s, Gone(s, t), Gone(t, u));
    forall x | x in s
      ensures x in Gone(s, t) + Gone(t, u) <==> x in Gone(s, u)
    {
      WithoutIn(t, Gone(t, u), x);
    }
    WithoutExt(s, Gone(s, t) + Gone(t, u), Gone(s, u));
  }

  /** A shrunk list as long as the original is the original. */
  lemma {:induction false} ShrinksSameLength<T>(t: seq<T>, s: seq<T>)
    requires Shrinks(t, s) && |t| == |s|
    ensures t == s
  {
    WithoutSameLength(s, Gone(s, t));
  }

  /** Outcome of an index loop that removes entries: the list afterwards, the removed and the visited entries. */
  datatype SweepResult<T> = SweepResult(kept: seq<T>, removed: seq<T>, visited: seq<T>)

  /**
   * `for (i = start; i < l.Count; i++) if (l[i] in doomed) remove l[i];`
   * A removal moves the next entry into slot i, and the increment passes over it.
   */
  function Sweep<T(==)>(s: seq<T>, i: nat, doomed: set<T>): (r: SweepResult<T>)
    ensures |r.kept| <= |s|
    decreases |s| - i
  {
    if i >= |s| then SweepResult(s, [], [])
    else if s[i] in doomed then
      var s' := s[..i] + s[i + 1..];
      var r := Sweep(s', i + 1, doomed);
      SweepResult(r.kept, [s[i]] + r.removed, [s[i]] + r.visited)
    else
      var r := Sweep(s, i + 1, doomed);
      SweepResult(r.kept, r.removed, [s[i]] + r.visited)
  }

  /** One visit of the loop: a doomed entry is dropped from its slot, any other is passed. */
  lemma SweepVisit<T>(s: seq<T>, i: nat, doomed: set<T>)
    requires i < |s|
    ensures s[i] in doomed ==>
      && Sweep(s, i, doomed).kept == Sweep(s[..i] + s[i + 1..], i + 1, doomed).kept
      && Sweep(s, i, doomed).removed == [s[i]] + Sweep(s[..i] + s[i + 1..], i + 1, doomed).removed
    ensures s[i] !in doomed ==>
      && Sweep(s, i, doomed).kept == Sweep(s, i + 1, doomed).kept
      && Sweep(s, i, doomed).removed == Sweep(s, i + 1, doomed).removed
  {
  }

  /** The sweep's loop invariant carried over a visit that removes the entry at slot i. */
  lemma SweepStepRemove<T>(s: seq<T>, i: nat, doomed: set<T>, gone: seq<T>, total: SweepResult<T>)
    requires i < |s| && s[i] in doomed
    requires Sweep(s, i, doomed).kept == total.kept && gone + Sweep(s, i, doomed).removed == total.removed
    ensures Sweep(s[..i] + s[i + 1..], i + 1, doomed).kept == total.kept
    ensures (gone + [s[i]]) + Sweep(s[..i] + s[i + 1..], i + 1, doomed).removed == total.removed
  {
    SweepVisit(s, i, doomed);
    var rest := Sweep(s[..i] + s[i + 1..], i + 1, doomed).removed;
    assert (gone + [s[i]]) + rest == gone + ([s[i]] + rest);
  }

  /** The sweep's loop invariant carried over a visit that keeps the entry at slot i. */
  lemma SweepStepPass<T>(s: seq<T>, i: nat, doomed: set<T>, gone: seq<T>, total: SweepResult<T>)
    requires i < |s| && s[i] !in doomed
    requires Sweep(s, i, doomed).kept == total.kept && gone + Sweep(s, i, doomed).removed == total.removed
    ensures Sweep(s, i + 1, doomed).kept == total.kept
    ensures gone + Sweep(s, i + 1, doomed).removed == total.removed
  {
    SweepVisit(s, i, doomed);
  }

  /** The loop's exit: past the end nothing more is removed. */
  lemma SweepDone<T>(s: seq<T>, i: nat, doomed: set<T>)
    requires i >= |s|
    ensures Sweep(s, i, doomed).kept == s && Sweep(s, i, doomed).removed == []
  {
  }

  /**
   * The loop removes only doomed entries and visits only entries of the list;
   * entries that are not doomed all survive it, and those before `i` keep their place.
   */
  lemma SweepSound<T>(s: seq<T>, i: nat, doomed: set<T>)
    ensures forall x :: x in Sweep(s, i, doomed).removed ==> x in doomed && x in s
    ensures forall x :: x in Sweep(s, i, doomed).visited ==> x in s
    ensures forall x :: x in s && x !in doomed ==> x in Sweep(s, i, doomed).kept
    ensures i <= |s| ==> i <= |Sweep(s, i, doomed).kept| && Sweep(s, i, doomed).kept[..i] == s[..i]
  {
    SweepMembers(s, i, doomed);
    if i <= |s| {
      SweepKeepsPrefix(s, i, doomed);
    }
  }

  /** Membership half of SweepSound. */
  lemma {:induction false} SweepMembers<T>(s: seq<T>, i: nat, doomed: set<T>)
    ensures forall x :: x in Sweep(s, i, doomed).removed ==> x in doomed && x in s
    ensures forall x :: x in Sweep(s, i, doomed).visited ==> x in s
    ensures forall x :: x in s && x !in doomed ==> x in Sweep(s, i, doomed).kept
    decreases |s| - i
  {
    if i < |s| {
      if s[i] in doomed {
        var s' := s[..i] + s[i + 1..];
        SweepMembers(s', i + 1, doomed);
        assert forall x :: x in s' ==> x in s;
        assert forall x :: x in s && x != s[i] ==> x in s' by {
          assert s == s[..i] + [s[i]] + s[i + 1..];
        }
      } else {
        SweepMembers(s, i + 1, doomed);
      }
    }
  }

  /** The entries before the starting slot keep their place through the loop. */
  lemma {:induction false} SweepKeepsPrefix<T>(s: seq<T>, i: nat, doomed: set<T>)
    requires i <= |s|
    ensures i <= |Sweep(s, i, doomed).kept| && Sweep(s, i, doomed).kept[..i] == s[..i]
    decreases |s| - i
  {
    if i < |s| {
      if s[i] in doomed {
        var s' := s[..i] + s[i + 1..];
        if i + 1 <= |s'| {
          SweepKeepsPrefix(s', i + 1, doomed);
          assert s'[..i + 1][..i] == s[..i];
        } else {
          assert Sweep(s', i + 1, doomed).kept == s';
          assert s'[..i] == s[..i];
        }
      } else {
        SweepKeepsPrefix(s, i + 1, doomed);
        assert s[..i + 1][..i] == s[..i];
      }
    }
  }

  /** Two doomed entries side by side: the loop removes the first and passes over the second. */
  lemma {:induction false} SweepSkipsNext<T>(a: T, b: T)
    requires a != b
    ensures Sweep([a, b], 0, {a, b}) == SweepResult([b], [a], [a])
  {
    assert [a, b][..0] + [a, b][1..] == [b];
  }

  /** No two adjacent entries from position i on are both doomed. */
  ghost predicate Isolated<T>(s: seq<T>, i: nat, doomed: set<T>)
  {
    forall k :: i <= k && k + 1 < |s| ==> !(s[k] in doomed && s[k + 1] in doomed)
  }

  /** Removal from a list with a known first entry. */
  lemma {:induction false} WithoutCons<T>(x: T, t: seq<T>, d: set<T>)
    ensures Without([x] + t, d) == (if x in d then [] else [x]) + Without(t, d)
  {
    WithoutAppend([x], t, d);
    assert [x][..0] == [];
  }

  /** Dropping slot i keeps the isolation of the entries after it. */
  lemma {:induction false} IsolatedAfterRemoval<T>(s: seq<T>, i: nat, doomed: set<T>)
    requires i < |s| && Isolated(s, i, doomed)
    ensures Isolated(s[..i] + s[i + 1..], i + 1, doomed)
  {
    var s' := s[..i] + s[i + 1..];
    forall k | i + 1 <= k && k + 1 < |s'|
      ensures !(s'[k] in doomed && s'[k + 1] in doomed)
    {
      assert s'[k] == s[k + 1] && s'[k + 1] == s[k + 2];
    }
  }

  /** When no two doomed entries are adjacent, the loop removes every doomed entry from position i on. */
  lemma {:induction false} SweepIsolated<T>(s: seq<T>, i: nat, doomed: set<T>)
    requires i <= |s| && Isolated(s, i, doomed)
    ensures Sweep(s, i, doomed).kept == s[..i] + Without(s[i..], doomed)
    decreases |s| - i, 1
  {
    if i == |s| {
      assert s[..i] == s;
    } else if s[i] in doomed {
      SweepIsolatedRemoving(s, i, doomed);
    } else {
      SweepIsolated(s, i + 1, doomed);
      assert s[..i + 1] == s[..i] + [s[i]];
      assert s[i..] == [s[i]] + s[i + 1..];
      WithoutCons(s[i], s[i + 1..], doomed);
    }
  }

  /** SweepIsolated when the entry at slot i is doomed. */
  lemma {:induction false} SweepIsolatedRemoving<T>(s: seq<T>, i: nat, doomed: set<T>)
    requires i < |s| && Isolated(s, i, doomed) && s[i] in doomed
    ensures Sweep(s, i, doomed).kept == s[..i] + Without(s[i..], doomed)
    decreases |s| - i, 0
  {
    var s' := s[..i] + s[i + 1..];
    SweepVisit(s, i, doomed);
    if i + 1 < |s| {
      assert s[i + 1] !in doomed;
      IsolatedAfterRemoval(s, i, doomed);
      SweepIsolated(s', i + 1, doomed);
      SpliceAt(s, i);
      WithoutPastDoomed(s, i, doomed);
      var w := Without(s[i + 2..], doomed);
      assert (s[..i] + [s[i + 1]]) + w == s[..i] + ([s[i + 1]] + w);
    } else {
      assert s' == s[..i];
      WithoutPastDoomed(s, i, doomed);
    }
  }

  /** The list with slot i dropped, split after slot i. */
  lemma SpliceAt<T>(s: seq<T>, i: nat)
    requires i + 1 < |s|
    ensures (s[..i] + s[i + 1..])[..i + 1] == s[..i] + [s[i + 1]]
    ensures (s[..i] + s[i + 1..])[i + 1..] == s[i + 2..]
  {
  }

  /** Removing from a suffix that starts with a doomed entry followed by a kept one. */
  lemma WithoutPastDoomed<T>(s: seq<T>, i: nat, doomed: set<T>)
    requires i < |s| && s[i] in doomed
    ensures i + 1 == |s| ==> Without(s[i..], doomed) == []
    ensures i + 1 < |s| && s[i + 1] !in doomed ==> Without(s[i..], doomed) == [s[i + 1]] + Without(s[i + 2..], doomed)
  {
    assert s[i..] == [s[i]] + s[i + 1..];
    WithoutCons(s[i], s[i + 1..], doomed);
    if i + 1 < |s| {
      assert s[i + 1..] == [s[i + 1]] + s[i + 2..];
      WithoutCons(s[i + 1], s[i + 2..], doomed);
    } else {
      assert s[i + 1..] == [];
    }
  }

  /** In a list without repetitions the loop leaves a shrunk list without repetitions. */
  lemma {:induction false} SweepKept<T>(s: seq<T>, i: nat, doomed: set<T>)
    requires Distinct(s)
    ensures Shrinks(Sweep(s, i, doomed).kept, s)
    ensures Distinct(Sweep(s, i, doomed).kept)
    decreases |s| - i
  {
    var r := Sweep(s, i, doomed);
    if i >= |s| {
      ShrinksRefl(s);
    } else if s[i] in doomed {
      var s' := s[..i] + s[i + 1..];
      DropSlot(s, i);
      WithoutDistinct(s, {s[i]});
      ShrinksWithout(s, {s[i]});
      SweepKept(s', i + 1, doomed);
      ShrinksTrans(r.kept, s', s);
    } else {
      SweepKept(s, i + 1, doomed);
    }
  }

  /** Dropping slot i of a list without repetitions removes exactly s[i]. */
  lemma {:induction false} DropSlot<T>(s: seq<T>, i: nat)
    requires Distinct(s) && i < |s|
    ensures s[..i] + s[i + 1..] == Without(s, {s[i]})
    ensures s[i] !in s[..i] + s[i + 1..]
    ensures forall x :: x in s && x != s[i] ==> x in s[..i] + s[i + 1..]
  {
    assert s[..i] + s[i + 1..] == Without(s, {s[i]}) by {
      RemoveFirstAt(s, i);
      RemoveFirstIsWithout(s, s[i]);
    }
    assert s[i] !in s[..i] + s[i + 1..] by {
      NotLater(s, i);
      assert s[i] !in s[..i];
    }
    assert s == s[..i] + [s[i]] + s[i + 1..];
  }

  /** In a list without repetitions the entries the loop reports as removed are exactly those gone from it. */
  lemma {:induction false} SweepRemovedExactly<T>(s: seq<T>, i: nat, doomed: set<T>)
    requires Distinct(s)
    ensures forall x :: x in s ==> (x in Sweep(s, i, doomed).kept <==> x !in Sweep(s, i, doomed).removed)
    decreases |s| - i
  {
    var r := Sweep(s, i, doomed);
    if i < |s| {
      if s[i] in doomed {
        var s' := s[..i] + s[i + 1..];
        DropSlot(s, i);
        WithoutDistinct(s, {s[i]});
        SweepRemovedExactly(s', i + 1, doomed);
        SweepKept(s', i + 1, doomed);
        WithoutIn(s', Gone(s', r.kept), s[i]);
      } else {
        SweepRemovedExactly(s, i + 1, doomed);
      }
    }
  }

  /** The entries of s that satisfy p, in order. */
  function Filter<T>(s: seq<T>, p: T -> bool): (r: seq<T>)
    ensures |r| <= |s|
    ensures forall x :: x in r ==> x in s && p(x)
    ensures forall x :: x in s && p(x) ==> x in r
  {
    if s == [] then []
    else Filter(s[..|s| - 1], p) + (if p(s[|s| - 1]) then [s[|s| - 1]] else [])
  }

  /** Filtering one more entry of a prefix. */
  lemma FilterSnoc<T>(s: seq<T>, i: nat, p: T -> bool)
    requires i < |s|
    ensures Filter(s[..i + 1], p) == Filter(s[..i], p) + (if p(s[i]) then [s[i]] else [])
  {
    assert s[..i + 1][..i] == s[..i];
  }
}
