/** Enumerating an Exclude selector as ascending points and ranges (src/exclude.cpp, const_iterator). */
module ExcludeRanges {
  import opened Results
  import opened NameComponents
  import opened ExcludeMaps

  /** `from` is negative infinity for fromInfinity, `to` is None for toInfinity. */
  datatype Range = Range(from: Key, to: Option<Component>)

  predicate InRange(r: Range, x: Component)
  {
    !Above(r.from, At(x)) && (r.to.Some? ==> !Above(At(x), At(r.to.value)))
  }

  /** const_iterator::update, with the reverse iterator at entry n - 1. */
  function RangeAt(e: Entries, n: nat): Range
    requires 0 < n <= |e|
    requires e[n - 1].key.At? || e[n - 1].any
    requires n > 1 ==> e[n - 2].key.At?
  {
    if e[n - 1].any then
      Range(e[n - 1].key, if n == 1 then None else Some(e[n - 2].key.component))
    else Range(e[n - 1].key, Some(e[n - 1].key.component))
  }

  /** How many entries operator++ passes: the low and the high end of a range, or a single point. */
  function Step(e: Entries, n: nat): nat
    requires 0 < n <= |e|
  {
    if e[n - 1].any && n > 1 then 2 else 1
  }

  lemma KeysAreComponents(e: Entries, i: nat)
    requires Sorted(e) && i + 1 < |e|
    ensures e[i].key.At?
  {
    assert Above(e[i].key, e[i + 1].key);
  }

  /** What begin()..end() yields for the first n entries, lowest first. */
  ghost function Ranges(e: Entries, n: nat): seq<Range>
    requires Valid(e) && n <= |e|
  {
    if n == 0 then []
    else
      if n > 1 then KeysAreComponents(e, n - 2); [RangeAt(e, n)] + Ranges(e, n - Step(e, n))
      else [RangeAt(e, n)]
  }

  lemma IsExcludedPrefix(e: Entries, m: nat, n: nat, x: Component)
    requires m <= n <= |e|
    ensures IsExcluded(e[..n], x)
       <==> if LowerBound(e[..m], At(x)) < m then IsExcluded(e[..m], x) else IsExcluded(e[m..n], x)
  {
    assert e[..n] == e[..m] + e[m..n];
    IsExcludedConcat(e[..m], e[m..n], x);
  }

  /** Every range yielded begins at one of the entries still ahead. */
  lemma {:induction false} RangesBeginAhead(e: Entries, n: nat, k: nat)
    requires Valid(e) && n <= |e| && k < |Ranges(e, n)|
    ensures n > 0 && !Above(e[n - 1].key, Ranges(e, n)[k].from)
  {
    hide Rank, LowerBound;
    if k > 0 {
      if n > 1 {
        KeysAreComponents(e, n - 2);
      }
      var m := n - Step(e, n);
      RangesBeginAhead(e, m, k - 1);
      assert Ranges(e, n)[k] == Ranges(e, m)[k - 1];
      assert Above(e[m - 1].key, e[n - 1].key);
    }
  }

  /** Whenever operator++ skips an entry as the high limit of a range although it begins another one, that
      range holds nothing beyond its ends: its next greater key is the immediate next component. */
  ghost predicate SkipsNothing(e: Entries, n: nat)
    requires Valid(e) && n <= |e|
  {
    n <= 1 ||
    (KeysAreComponents(e, n - 2);
     && (e[n - 1].any && e[n - 2].any ==> n > 2 && e[n - 3].key == At(Next(e[n - 2].key.component)))
     && SkipsNothing(e, n - Step(e, n)))
  }

  /** Nothing is skipped when consecutive ranges have been combined. */
  lemma {:induction false} CombinedSkipsNothing(e: Entries, n: nat)
    requires Valid(e) && Combined(e) && n <= |e|
    ensures SkipsNothing(e, n)
  {
    hide Rank, LowerBound;
    if n > 1 {
      KeysAreComponents(e, n - 2);
      assert !(e[n - 2].any && e[n - 2 + 1].any);
      CombinedSkipsNothing(e, n - Step(e, n));
    }
  }

  /** The ranges are exactly the excluded set, when consecutive ranges have been combined. */
  lemma RangesAreExact(e: Entries, x: Component)
    requires Valid(e) && Combined(e)
    ensures IsExcluded(e, x) <==> exists k :: 0 <= k < |Ranges(e, |e|)| && InRange(Ranges(e, |e|)[k], x)
  {
    CombinedSkipsNothing(e, |e|);
    RangesHold(e, |e|, x);
    assert e[..|e|] == e;
  }

  /** begin()..end() is exact, for all components, if and only if no skipped entry begins a range of its own
      with something in it. */
  lemma EnumerationIsExactIff(e: Entries)
    requires Valid(e)
    ensures (forall x: Component :: IsExcluded(e, x) <==>
                                      exists k :: 0 <= k < |Ranges(e, |e|)| && InRange(Ranges(e, |e|)[k], x))
       <==> SkipsNothing(e, |e|)
  {
    hide IsExcluded, InRange, Ranges, SkipsNothing;
    assert e[..|e|] == e;
    if SkipsNothing(e, |e|) {
      forall x: Component
        ensures IsExcluded(e, x) <==> exists k :: 0 <= k < |Ranges(e, |e|)| && InRange(Ranges(e, |e|)[k], x)
      {
        RangesHold(e, |e|, x);
      }
    } else {
      var _ := SkippedIsMissed(e, |e|);
    }
  }

  /** Otherwise the component right after the key of such an entry is excluded and in no range. */
  lemma {:induction false} SkippedIsMissed(e: Entries, n: nat) returns (x: Component)
    requires Valid(e) && n <= |e| && !SkipsNothing(e, n)
    ensures IsExcluded(e[..n], x) && forall k :: 0 <= k < |Ranges(e, n)| ==> !InRange(Ranges(e, n)[k], x)
  {
    hide Rank, LowerBound;
    KeysAreComponents(e, n - 2);
    var m := n - Step(e, n);
    assert Ranges(e, n) == [RangeAt(e, n)] + Ranges(e, m);
    if e[n - 1].any && e[n - 2].any && !(n > 2 && e[n - 3].key == At(Next(e[n - 2].key.component))) {
      x := Next(e[n - 2].key.component);
      NextIsBetween(e, n);
      CoveredIsFound(e[..n], n - 2, x);
      forall k | 0 <= k < |Ranges(e, m)|
        ensures !InRange(Ranges(e, m)[k], x)
      {
        RangesBeginAhead(e, m, k);
      }
    } else {
      x := SkippedIsMissed(e, m);
      ExcludedIsAhead(e[..m], x);
      IsExcludedPrefix(e, m, n, x);
      NotInLastRange(e, n, x);
    }
  }

  lemma ExcludedIsAhead(e: Entries, x: Component)
    requires IsExcluded(e, x)
    ensures LowerBound(e, At(x)) < |e|
  {
  }

  lemma NextIsBetween(e: Entries, n: nat)
    requires Valid(e) && 1 < n <= |e| && e[n - 2].key.At? && e[n - 2].any
    requires n > 2 ==> e[n - 3].key != At(Next(e[n - 2].key.component))
    ensures var x := Next(e[n - 2].key.component);
            Above(At(x), e[n - 2].key) && (n > 2 ==> Above(e[n - 3].key, At(x))) && Covers(e[..n], n - 2, x)
  {
    NextRank(e[n - 2].key.component);
    if n > 2 {
      assert Above(e[n - 3].key, e[n - 2].key);
      RankIsCanonical(e[n - 3].key.component, Next(e[n - 2].key.component));
    }
  }

  lemma {:induction false} RangesHold(e: Entries, n: nat, x: Component)
    requires Valid(e) && n <= |e| && SkipsNothing(e, n)
    ensures IsExcluded(e[..n], x) <==> exists k :: 0 <= k < |Ranges(e, n)| && InRange(Ranges(e, n)[k], x)
  {
    hide Rank;
    if n > 0 {
      if n > 1 {
        KeysAreComponents(e, n - 2);
      }
      var m := n - Step(e, n);
      var rs := Ranges(e, n);
      RangesHold(e, m, x);
      IsExcludedPrefix(e, m, n, x);
      if LowerBound(e[..m], At(x)) >= m {
        LastRange(e, n, x);
        assert m > 0 ==> Above(e[..m][m - 1].key, At(x));
        forall k | 0 <= k < |Ranges(e, m)|
          ensures !InRange(Ranges(e, m)[k], x)
        {
          RangesBeginAhead(e, m, k);
        }
      } else {
        NotInLastRange(e, n, x);
      }
      assert rs == [RangeAt(e, n)] + Ranges(e, m);
      if k :| 0 <= k < |Ranges(e, m)| && InRange(Ranges(e, m)[k], x) {
        assert rs[k + 1] == Ranges(e, m)[k];
      }
      if InRange(RangeAt(e, n), x) {
        assert rs[0] == RangeAt(e, n);
      }
    }
  }

  lemma LastRange(e: Entries, n: nat, x: Component)
    requires Valid(e) && 0 < n <= |e| && SkipsNothing(e, n) && (n > 1 ==> e[n - 2].key.At?)
    requires LowerBound(e[..n - Step(e, n)], At(x)) >= n - Step(e, n)
    ensures IsExcluded(e[n - Step(e, n)..n], x) <==> InRange(RangeAt(e, n), x)
  {
    hide Rank;
    var m := n - Step(e, n);
    var last := e[m..n];
    if n > 1 {
      assert Above(e[n - 2].key, e[n - 1].key);
      if e[n - 1].any && e[n - 2].any {
        assert Above(e[..m][m - 1].key, At(x));
        NextRank(e[n - 2].key.component);
      }
    }
    AboveIsCanonical(last[0].key, At(x));
    AboveIsCanonical(last[|last| - 1].key, At(x));
    if |last| == 2 {
      assert last[1..] == [last[1]];
    }
  }

  lemma NotInLastRange(e: Entries, n: nat, x: Component)
    requires Valid(e) && 0 < n <= |e| && (n > 1 ==> e[n - 2].key.At?)
    requires LowerBound(e[..n - Step(e, n)], At(x)) < n - Step(e, n)
    ensures !InRange(RangeAt(e, n), x)
  {
    hide Rank, LowerBound;
    var m := n - Step(e, n);
    var a := LowerBound(e[..m], At(x));
    assert e[..m][a] == e[a] && Above(e[a].key, e[m].key);
    assert m == n - 1 || Above(e[m].key, e[n - 1].key);
  }

  /** The ranges ascend and are disjoint. */
  lemma {:induction false} RangesAscend(e: Entries, n: nat, k: nat, l: nat)
    requires Valid(e) && n <= |e| && k < l < |Ranges(e, n)|
    ensures Ranges(e, n)[k].to.Some? && Above(Ranges(e, n)[l].from, At(Ranges(e, n)[k].to.value))
  {
    hide Rank;
    if n > 1 {
      KeysAreComponents(e, n - 2);
    }
    var m := n - Step(e, n);
    if k > 0 {
      RangesAscend(e, m, k - 1, l - 1);
    } else {
      RangesBeginAhead(e, m, l - 1);
      assert Above(e[m - 1].key, e[m].key);
    }
  }

  /** Exclude::const_iterator; pos counts the entries not yet passed. */
  class ConstIterator {
    const entries: Entries
    var pos: nat
    var range: Range

    ghost predicate Valid()
      reads this
    {
      && ExcludeMaps.Valid(entries)
      && pos <= |entries|
      && (pos > 0 ==> (pos > 1 ==> entries[pos - 2].key.At?) && range == RangeAt(entries, pos))
    }

    constructor (entries: Entries)
      requires ExcludeMaps.Valid(entries)
      ensures Valid() && this.entries == entries && pos == |entries|
    {
      this.entries := entries;
      pos := |entries|;
      range := Range(NegInf, None);
      new;
      Update();
    }

    method Update()
      requires ExcludeMaps.Valid(entries) && pos <= |entries|
      modifies this`range
      ensures Valid()
    {
      if pos == 0 {
        return;
      }
      if pos > 1 {
        KeysAreComponents(entries, pos - 2);
      }
      range := RangeAt(entries, pos);
    }

    method Increment()
      requires Valid() && pos > 0
      modifies this
      ensures Valid() && pos == old(pos) - Step(entries, old(pos))
    {
      var wasInRange := entries[pos - 1].any;
      pos := pos - 1;
      if wasInRange && pos != 0 {
        pos := pos - 1;
      }
      Update();
    }
  }

  /** begin()..end(). */
  method Enumerate(entries: Entries) returns (ranges: seq<Range>)
    requires ExcludeMaps.Valid(entries)
    ensures ranges == Ranges(entries, |entries|)
  {
    var it := new ConstIterator(entries);
    ranges := [];
    while it.pos > 0
      invariant it.Valid() && fresh(it) && it.entries == entries
      invariant ranges + Ranges(entries, it.pos) == Ranges(entries, |entries|)
      decreases it.pos
    {
      ranges := ranges + [it.range];
      it.Increment();
    }
  }

  /** excludeRange(a, b), then excludeRange(b, c): the union law holds, but the shape is lost. */
  lemma JoinedRanges(a: Component, b: Component, c: Component)
    requires Rank(a) < Rank(b) < Rank(c)
    ensures RangeResult(RangeResult([], At(a), b), At(b), c) == Joined(a, b, c)
  {
    hide Rank;
    var e := [Entry(At(b), false), Entry(At(a), true)];
    assert RangeResult([], At(a), b) == e;
    assert LowerBound(e, At(b)) == 0 && LowerBound(e, At(c)) == 0;
    assert e[1..] == [Entry(At(a), true)];
  }

  function Joined(a: Component, b: Component, c: Component): Entries
  {
    [Entry(At(c), false), Entry(At(b), true), Entry(At(a), true)]
  }

  /** The enumeration then yields [a, b] and {c}, missing everything between `b` and `c`. */
  lemma EnumerationMissesJoinedRange(a: Component, b: Component, c: Component, x: Component)
    requires Rank(a) < Rank(b) < Rank(x) < Rank(c)
    ensures var e := Joined(a, b, c);
            && Valid(e) && IsExcluded(e, x)
            && Ranges(e, 3) == [Range(At(a), Some(b)), Range(At(c), Some(c))]
            && forall r <- Ranges(e, 3) :: !InRange(r, x)
  {
    hide Rank;
    var e := Joined(a, b, c);
    assert LowerBound(e[1..], At(x)) == 0;
    assert Ranges(e, 1) == [Range(At(c), Some(c))];
  }
}
