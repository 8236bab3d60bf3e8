/**
 * Tag and Tag<T>: a component marking an object with a label and a list of
 * tag values, the membership tests on that list, and the label search.
 */
module Tags {

  /** Whether every queried tag occurs in `tags`; the precise form also wants as many queried tags as stored ones. */
  predicate Matches<T(==)>(tags: seq<T>, precise: bool, ts: seq<T>)
  {
    (!precise || |ts| == |tags|) && forall i :: 0 <= i < |ts| ==> ts[i] in tags
  }

  /** An empty query matches every non-precise test. */
  lemma EmptyQueryMatches<T>(tags: seq<T>)
    ensures Matches(tags, false, [])
  {
  }

  /**
   * The precise test counts entries but compares them as sets: [a, a]
   * precisely matches the stored [a, b] although b is never asked for.
   */
  lemma PreciseIgnoresMultiplicity<T>(a: T, b: T)
    requires a != b
    ensures Matches([a, b], true, [a, a])
    ensures multiset([a, a]) != multiset([a, b])
  {
    assert multiset([a, a])[a] == 2;
  }

  /** Precise matching is the non-precise test plus equal counts. */
  lemma PreciseIsCountedMatch<T>(tags: seq<T>, ts: seq<T>)
    ensures Matches(tags, true, ts) <==> |ts| == |tags| && Matches(tags, false, ts)
  {
  }

  /**
   * Tag<T> with the field `label` of its base class Tag (named `tagLabel`
   * here, `label` being a Dafny keyword) and its list of tag values.
   */
  class Tag<T(==)> {
    var tagLabel: string
    var tags: seq<T>

    constructor (tagLabel: string, tags: seq<T>)
      ensures this.tagLabel == tagLabel && this.tags == tags
    {
      this.tagLabel := tagLabel;
      this.tags := tags;
    }

    /** Count: the number of tag values. */
    function Count(): (n: nat)
      reads this
      ensures n == |tags|
    {
      |tags|
    }

    /** The index getter; an index out of range throws in the source. */
    function Get(p: int): (t: T)
      reads this
      requires 0 <= p < |tags|
      ensures t in tags
    {
      tags[p]
    }

    /** The index setter: replaces the value at p and nothing else. */
    method Set(p: int, t: T)
      requires 0 <= p < |tags|
      modifies this`tags
      ensures tags == old(tags)[p := t]
      ensures |tags| == |old(tags)| && Get(p) == t
      ensures forall q :: 0 <= q < |tags| && q != p ==> Get(q) == old(Get(q))
    {
      tags := tags[p := t];
    }

    /** Contains: the value occurs in the list. */
    function Contains(t: T): (b: bool)
      reads this
      ensures b <==> exists i :: 0 <= i < |tags| && tags[i] == t
    {
      t in tags
    }

    /**
     * Match(precise, ts): false at once when precise and the counts differ;
     * otherwise, for every queried value, a scan of the whole list for it.
     */
    method Match(precise: bool, ts: seq<T>) returns (r: bool)
      ensures r == Matches(tags, precise, ts)
    {
      if precise && |ts| != |tags| {
        return false;
      }
      var i := 0;
      while i < |ts|
        invariant 0 <= i <= |ts|
        invariant forall k :: 0 <= k < i ==> ts[k] in tags
      {
        var found := false;
        var j := 0;
        while j < |tags|
          invariant 0 <= j <= |tags|
          invariant found <==> ts[i] in tags[..j]
        {
          assert tags[..j + 1] == tags[..j] + [tags[j]];
          if tags[j] == ts[i] {
            found := true;
          }
          j := j + 1;
        }
        assert tags[..j] == tags;
        if !found {
          return false;
        }
        i := i + 1;
      }
      return true;
    }

    /** Match(params ts): the non-precise test. */
    method MatchAll(ts: seq<T>) returns (r: bool)
      ensures r == Matches(tags, false, ts)
      ensures r <==> forall t :: t in ts ==> Contains(t)
    {
      r := Match(false, ts);
      if !r {
        var i :| 0 <= i < |ts| && ts[i] !in tags;
        assert !Contains(ts[i]);
      }
    }
  }

  /** The tags of a query whose label is the given one, in query order. */
  function Labelled<T>(query: seq<Tag<T>>, wanted: string): (r: seq<Tag<T>>)
    reads set t | t in query
    ensures |r| <= |query|
    ensures forall t :: t in r ==> t in query && t.tagLabel == wanted
    ensures forall t :: t in query && t.tagLabel == wanted ==> t in r
  {
    if query == [] then []
    else
      var last := query[|query| - 1];
      Labelled(query[..|query| - 1], wanted) + (if last.tagLabel == wanted then [last] else [])
  }

  /**
   * Tag.FindAll(label): the scene search GameObject.FindObjectsOfType is
   * given as `query`; keeps the tags with that label in query order.
   */
  method FindAll<T>(query: seq<Tag<T>>, wanted: string) returns (res: seq<Tag<T>>)
    ensures res == Labelled(query, wanted)
    ensures forall t :: t in res <==> t in query && t.tagLabel == wanted
  {
    res := [];
    var i := 0;
    while i < |query|
      invariant 0 <= i <= |query|
      invariant res == Labelled(query[..i], wanted)
    {
      assert query[..i + 1][..i] == query[..i];
      if query[i].tagLabel == wanted {
        res := res + [query[i]];
      }
      i := i + 1;
    }
    assert query[..i] == query;
  }
}
