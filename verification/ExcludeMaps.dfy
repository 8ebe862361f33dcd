/** The entries behind an Exclude selector: a descending map from components to an ANY flag
    (src/exclude.cpp, src/exclude.hpp). */
module ExcludeMaps {
  import opened Results
  import opened Octets
  import opened Tlv
  import opened NameComponents

  datatype Key = NegInf | At(component: Component)

  datatype Entry = Entry(key: Key, any: bool)

  /** In iteration order of the std::map: greatest key first. */
  type Entries = seq<Entry>

  /** operator> on ExcludeComponent, by rank. */
  predicate Above(a: Key, b: Key)
  {
    a.At? && (b.NegInf? || Rank(a.component) > Rank(b.component))
  }

  lemma AboveIsCanonical(a: Key, b: Key)
    ensures Above(a, b) <==> a.At? && (b.NegInf? || Canonical(a.component, b.component) > 0)
    ensures Above(a, b) || Above(b, a) || a == b
    ensures !(Above(a, b) && Above(b, a)) && !Above(a, a)
  {
    if a.At? && b.At? {
      RankIsCanonical(a.component, b.component);
      CanonicalIsTotal(a.component, b.component);
    }
  }

  ghost predicate Sorted(e: Entries)
  {
    forall i, j :: 0 <= i < j < |e| ==> Above(e[i].key, e[j].key)
  }

  /** Sorted, and negative infinity only ever begins a range. */
  ghost predicate Valid(e: Entries)
  {
    Sorted(e) && forall i :: 0 <= i < |e| && e[i].key.NegInf? ==> e[i].any
  }

  /** std::map::lower_bound under descending order: the first entry whose key is not above `k`. */
  function LowerBound(e: Entries, k: Key): (i: nat)
    ensures i <= |e|
    ensures forall j :: 0 <= j < i ==> Above(e[j].key, k)
    ensures i < |e| ==> !Above(e[i].key, k)
  {
    if e == [] || !Above(e[0].key, k) then 0 else 1 + LowerBound(e[1..], k)
  }

  lemma LowerBoundIs(e: Entries, k: Key, i: nat)
    requires i <= |e| && (i < |e| ==> !Above(e[i].key, k))
    requires forall j :: 0 <= j < i ==> Above(e[j].key, k)
    ensures LowerBound(e, k) == i
  {
  }

  /** std::map::emplace: the entries, the position of the key, and whether it is new. */
  function Emplace(e: Entries, k: Key, any: bool): (Entries, nat, bool)
  {
    var i := LowerBound(e, k);
    if i < |e| && e[i].key == k then (e, i, false)
    else (e[..i] + [Entry(k, any)] + e[i..], i, true)
  }

  /** Exclude::isExcluded. */
  predicate IsExcluded(e: Entries, x: Component)
  {
    var lb := LowerBound(e, At(x));
    lb < |e| && (e[lb].any || e[lb].key == At(x))
  }

  /** What an entry stands for: its own key, and with ANY the range up to the next greater key. */
  ghost predicate Covers(e: Entries, i: nat, x: Component)
    requires i < |e|
  {
    e[i].key == At(x) ||
    (e[i].any && !Above(e[i].key, At(x)) && (i == 0 || !Above(At(x), e[i - 1].key)))
  }

  /** One lower_bound decides membership in the union of all points and ranges. */
  lemma IsExcludedIsMembership(e: Entries, x: Component)
    requires Sorted(e)
    ensures IsExcluded(e, x) <==> exists i :: 0 <= i < |e| && Covers(e, i, x)
  {
    var lb := LowerBound(e, At(x));
    if IsExcluded(e, x) {
      assert Covers(e, lb, x);
    }
    forall i | 0 <= i < |e| && Covers(e, i, x)
      ensures IsExcluded(e, x)
    {
      CoveredIsFound(e, i, x);
    }
  }

  lemma CoveredIsFound(e: Entries, i: nat, x: Component)
    requires Sorted(e) && i < |e| && Covers(e, i, x)
    ensures IsExcluded(e, x)
  {
    hide Rank;
    var lb := LowerBound(e, At(x));
    if lb < i {
      AboveIsCanonical(e[lb].key, At(x));
    }
  }

  // ---- concatenation ----

  lemma {:induction false} LowerBoundConcat(a: Entries, b: Entries, k: Key)
    ensures LowerBound(a + b, k) == if LowerBound(a, k) < |a| then LowerBound(a, k) else |a| + LowerBound(b, k)
  {
    if a == [] {
      assert a + b == b;
    } else if Above(a[0].key, k) {
      assert (a + b)[1..] == a[1..] + b;
      LowerBoundConcat(a[1..], b, k);
    }
  }

  /** Looking up in a concatenation: the greater part answers if it reaches down to `x`. */
  lemma IsExcludedConcat(a: Entries, b: Entries, x: Component)
    ensures IsExcluded(a + b, x) == if LowerBound(a, At(x)) < |a| then IsExcluded(a, x) else IsExcluded(b, x)
  {
    hide Above;
    LowerBoundConcat(a, b, At(x));
    var i, k := LowerBound(a, At(x)), LowerBound(b, At(x));
    if i < |a| {
      assert (a + b)[i] == a[i];
    } else if k < |b| {
      assert (a + b)[|a| + k] == b[k];
    }
  }

  // ---- results of the mutators, in closed form ----

  function OneResult(e: Entries, x: Component): Entries
  {
    if IsExcluded(e, x) then e
    else var i := LowerBound(e, At(x)); e[..i] + [Entry(At(x), false)] + e[i..]
  }

  /** The entry of ANY that already covers `from`, or a fresh one, and everything below. */
  function FromHere(e: Entries, from: Key): (r: Entries)
    ensures r != [] && r[0].any
  {
    var i := LowerBound(e, from);
    if i < |e| && e[i].any then e[i..]
    else [Entry(from, true)] + e[if i < |e| && e[i].key == from then i + 1 else i..]
  }

  function RangeResult(e: Entries, from: Key, to: Component): Entries
  {
    var j := LowerBound(e, At(to));
    e[..j] + Closing(e, from, to) + FromHere(e, from)
  }

  /** Nothing when a greater range already goes on past `to`. */
  function Closing(e: Entries, from: Key, to: Component): Entries
  {
    var j := LowerBound(e, At(to));
    if j < LowerBound(e, from) && e[j].any then [] else [Entry(At(to), false)]
  }

  // ---- what they mean ----

  lemma Slices(e: Entries, i: nat, j: nat)
    requires Valid(e) && j <= i <= |e|
    ensures Valid(e[..j]) && Valid(e[j..i]) && Valid(e[i..])
  {
  }

  lemma LowerBoundIsMonotone(e: Entries, from: Key, to: Key)
    requires Sorted(e) && Above(to, from)
    ensures LowerBound(e, to) <= LowerBound(e, from)
  {
    var i, j := LowerBound(e, from), LowerBound(e, to);
  }

  lemma JoinIsValid(a: Entries, b: Entries)
    requires Valid(a) && Valid(b)
    requires a != [] && b != [] ==> Above(a[|a| - 1].key, b[0].key)
    ensures Valid(a + b)
  {
    var r := a + b;
    forall i, j | 0 <= i < j < |r|
      ensures Above(r[i].key, r[j].key)
    {
      if i < |a| <= j {
        assert i == |a| - 1 || Above(a[i].key, a[|a| - 1].key);
        assert j == |a| || Above(b[0].key, b[j - |a|].key);
      }
    }
  }

  lemma FromHereIsValid(e: Entries, from: Key)
    requires Valid(e)
    ensures Valid(FromHere(e, from)) && !Above(FromHere(e, from)[0].key, from)
    ensures (LowerBound(e, from) < |e| && e[LowerBound(e, from)].any) || FromHere(e, from)[0].key == from
  {
    var i := LowerBound(e, from);
    if i < |e| {
      AboveIsCanonical(e[i].key, from);
      var k := if e[i].key == from then i + 1 else i;
      Slices(e, i, i);
      Slices(e, k, k);
      if k < |e| {
        assert k == i || Above(e[i].key, e[k].key);
      }
      JoinIsValid([Entry(from, true)], e[k..]);
    }
  }

  /** Excluding everything from `from` on, within what FromHere keeps. */
  lemma FromHereMeans(e: Entries, from: Key, x: Component)
    requires Valid(e)
    ensures IsExcluded(FromHere(e, from), x) <==>
              !Above(from, At(x)) || (IsExcluded(e[LowerBound(e, from)..], x))
  {
    hide Rank, LowerBound, IsExcluded, Above;
    var i := LowerBound(e, from);
    if i < |e| && e[i].any {
      if !Above(from, At(x)) {
        CoveringMeans(e, from, x);
      }
    } else {
      var k := if i < |e| && e[i].key == from then i + 1 else i;
      FreshHeadMeans(from, e[k..], x);
      if k > i && Above(from, At(x)) {
        assert e[i..] == [e[i]] + e[k..];
        SkipKeysAbove([e[i]], e[k..], x);
      }
    }
  }

  lemma CoveringMeans(e: Entries, from: Key, x: Component)
    requires LowerBound(e, from) < |e| && e[LowerBound(e, from)].any && !Above(from, At(x))
    ensures IsExcluded(e[LowerBound(e, from)..], x)
  {
    hide Rank, LowerBound;
    LowerBoundIs(e[LowerBound(e, from)..], At(x), 0);
  }

  lemma FreshHeadMeans(from: Key, rest: Entries, x: Component)
    ensures IsExcluded([Entry(from, true)] + rest, x) <==> !Above(from, At(x)) || IsExcluded(rest, x)
  {
    hide Above;
    IsExcludedConcat([Entry(from, true)], rest, x);
  }

  /** excludeAfter excludes exactly what was excluded and the ray from `from`. */
  lemma AfterIsUnion(e: Entries, from: Component, x: Component)
    requires Valid(e)
    ensures Valid(FromHere(e, At(from)))
    ensures IsExcluded(FromHere(e, At(from)), x) <==> IsExcluded(e, x) || !Above(At(from), At(x))
  {
    var i := LowerBound(e, At(from));
    FromHereIsValid(e, At(from));
    FromHereMeans(e, At(from), x);
    assert e == e[..i] + e[i..];
    IsExcludedConcat(e[..i], e[i..], x);
    if LowerBound(e[..i], At(x)) < i {
      AboveIsCanonical(e[LowerBound(e[..i], At(x))].key, At(x));
    }
  }

  // ---- excludeRange ----

  /** One entry with ANY covers `from`, and no key lies between it and `to`, `to` included: the branch
      in which excludeRange cuts the existing range short. */
  predicate CutsShort(e: Entries, from: Key, to: Component)
  {
    var i := LowerBound(e, from);
    i < |e| && e[i].any && LowerBound(e, At(to)) == i
  }

  /** Strictly between `to` and the next greater key, or above `to` if there is none. */
  predicate BeyondTo(e: Entries, to: Component, x: Component)
  {
    var j := LowerBound(e, At(to));
    Above(At(x), At(to)) && (j == 0 || Above(e[j - 1].key, At(x)))
  }

  predicate InClosedRange(from: Key, to: Component, x: Component)
  {
    !Above(from, At(x)) && !Above(At(x), At(to))
  }

  lemma RangeIsValid(e: Entries, from: Key, to: Component)
    requires Valid(e) && Above(At(to), from)
    ensures Valid(RangeResult(e, from, to))
  {
    var j := LowerBound(e, At(to));
    LowerBoundIsMonotone(e, from, At(to));
    FromHereIsValid(e, from);
    var t, low := Closing(e, from, to), FromHere(e, from);
    Slices(e, j, j);
    JoinIsValid(e[..j], t);
    if t == [] {
      assert e[..j] + t == e[..j];
    }
    JoinIsValid(e[..j] + t, low);
  }

  /** excludeRange excludes exactly what was excluded and [from, to], except that in the branch that cuts
      a range short everything beyond `to` is lost up to the next key. */
  lemma RangeMeans(e: Entries, from: Key, to: Component, x: Component)
    requires Valid(e) && Above(At(to), from)
    ensures IsExcluded(RangeResult(e, from, to), x) <==>
              && (IsExcluded(e, x) || InClosedRange(from, to, x))
              && !(CutsShort(e, from, to) && BeyondTo(e, to, x))
  {
    LowerBoundIsMonotone(e, from, At(to));
    RangeSplits(e, from, to, x);
    BeyondKeys(e, from, to, x);
    if Above(At(x), At(to)) {
      RangeMeansAbove(e, from, to, x);
    } else {
      RangeMeansWithin(e, from, to, x);
    }
  }

  /** The part of the result that replaces the entries up to `to`. */
  function Tail(e: Entries, from: Key, to: Component): Entries
  {
    Closing(e, from, to) + FromHere(e, from)
  }

  lemma RangeSplits(e: Entries, from: Key, to: Component, x: Component)
    ensures var j := LowerBound(e, At(to));
            var answered := LowerBound(e[..j], At(x)) < j;
            && (answered ==> IsExcluded(RangeResult(e, from, to), x) == IsExcluded(e, x))
            && (!answered ==> IsExcluded(e, x) == IsExcluded(e[j..], x))
            && (!answered ==> IsExcluded(RangeResult(e, from, to), x) == IsExcluded(Tail(e, from, to), x))
  {
    hide Above, IsExcluded, FromHere, Closing, LowerBound;
    var j := LowerBound(e, At(to));
    assert e == e[..j] + e[j..];
    assert RangeResult(e, from, to) == e[..j] + Tail(e, from, to);
    IsExcludedConcat(e[..j], e[j..], x);
    IsExcludedConcat(e[..j], Tail(e, from, to), x);
  }

  /** A key above `to` answers for `x` exactly when `x` is neither up to `to` nor just beyond it. */
  lemma BeyondKeys(e: Entries, from: Key, to: Component, x: Component)
    requires Valid(e) && Above(At(to), from)
    ensures var j := LowerBound(e, At(to));
            LowerBound(e[..j], At(x)) < j <==> Above(At(x), At(to)) && !BeyondTo(e, to, x)
  {
    var j := LowerBound(e, At(to));
    var a := LowerBound(e[..j], At(x));
    if a < j {
      assert e[..j][a] == e[a];
      assert a == j - 1 || Above(e[a].key, e[j - 1].key);
    } else if j > 0 {
      assert Above(e[..j][j - 1].key, At(x));
    }
  }

  lemma RangeMeansAbove(e: Entries, from: Key, to: Component, x: Component)
    requires Valid(e) && Above(At(to), from) && Above(At(x), At(to))
    requires LowerBound(e, At(to)) <= LowerBound(e, from)
    ensures IsExcluded(Tail(e, from, to), x)
       <==> IsExcluded(e[LowerBound(e, At(to))..], x) && !CutsShort(e, from, to)
  {
    var i, j := LowerBound(e, from), LowerBound(e, At(to));
    FromHereIsValid(e, from);
    var both := Closing(e, from, to) + FromHere(e, from);
    assert LowerBound(both, At(x)) == 0;
    if j < |e| {
      assert LowerBound(e[j..], At(x)) == 0;
      assert IsExcluded(e[j..], x) <==> e[j].any;
    }
  }

  lemma RangeMeansWithin(e: Entries, from: Key, to: Component, x: Component)
    requires Valid(e) && Above(At(to), from) && !Above(At(x), At(to))
    requires LowerBound(e, At(to)) <= LowerBound(e, from)
    ensures IsExcluded(Tail(e, from, to), x)
       <==> IsExcluded(e[LowerBound(e, At(to))..], x) || InClosedRange(from, to, x)
  {
    ClosingAddsNothing(e, from, to, x);
    FromHereMeans(e, from, x);
    if Above(from, At(x)) {
      BetweenKeys(e, LowerBound(e, At(to)), LowerBound(e, from), from, x);
    }
  }

  lemma ClosingAddsNothing(e: Entries, from: Key, to: Component, x: Component)
    requires Valid(e) && Above(At(to), from) && !Above(At(x), At(to))
    ensures IsExcluded(Tail(e, from, to), x) <==> IsExcluded(FromHere(e, from), x)
  {
    IsExcludedConcat(Closing(e, from, to), FromHere(e, from), x);
    AboveIsCanonical(At(to), At(x));
    FromHereMeans(e, from, x);
  }

  lemma BetweenKeys(e: Entries, j: nat, i: nat, from: Key, x: Component)
    requires j <= i <= |e| && Above(from, At(x))
    requires forall k :: j <= k < i ==> Above(e[k].key, from)
    ensures IsExcluded(e[j..], x) == IsExcluded(e[i..], x)
  {
    hide Rank;
    var a, b := e[j..i], e[i..];
    SkipKeysAbove(a, b, x);
    assert e[j..] == a + b;
  }

  lemma SkipKeysAbove(a: Entries, b: Entries, x: Component)
    requires forall k :: 0 <= k < |a| ==> Above(a[k].key, At(x))
    ensures IsExcluded(a + b, x) == IsExcluded(b, x)
  {
    IsExcludedConcat(a, b, x);
  }

  /** The cut loses nothing: the next greater key is the immediate next component of `to`. */
  predicate LosesNothing(e: Entries, to: Component)
  {
    var j := LowerBound(e, At(to));
    j > 0 && e[j - 1].key == At(Next(to))
  }

  /** The union law holds of excludeRange exactly unless it cuts a range short that goes on past the
      immediate next component of `to`. */
  lemma RangeIsUnionIff(e: Entries, from: Key, to: Component)
    requires Valid(e) && Above(At(to), from)
    ensures (forall x: Component :: IsExcluded(RangeResult(e, from, to), x) <==>
                                      IsExcluded(e, x) || InClosedRange(from, to, x))
       <==> !CutsShort(e, from, to) || LosesNothing(e, to)
  {
    if CutsShort(e, from, to) && !LosesNothing(e, to) {
      RangeLosesNext(e, from, to);
    } else {
      forall x: Component
        ensures IsExcluded(RangeResult(e, from, to), x) <==> IsExcluded(e, x) || InClosedRange(from, to, x)
      {
        RangeMeans(e, from, to, x);
        NextRank(to);
      }
    }
  }

  lemma RangeLosesNext(e: Entries, from: Key, to: Component)
    requires Valid(e) && Above(At(to), from)
    requires CutsShort(e, from, to) && !LosesNothing(e, to)
    ensures IsExcluded(e, Next(to)) && !IsExcluded(RangeResult(e, from, to), Next(to))
  {
    var j, n := LowerBound(e, At(to)), Next(to);
    NextRank(to);
    RangeMeans(e, from, to, n);
    if j > 0 {
      AboveIsCanonical(e[j - 1].key, At(n));
    }
    CutShortWasExcluded(e, from, to, n);
  }

  lemma CutShortWasExcluded(e: Entries, from: Key, to: Component, x: Component)
    requires Valid(e) && Above(At(to), from) && CutsShort(e, from, to) && BeyondTo(e, to, x)
    ensures IsExcluded(e, x)
  {
    hide Rank;
    var j := LowerBound(e, At(to));
    assert Covers(e, j, x);
    CoveredIsFound(e, j, x);
  }

  /** A use of the public functions that shrinks the excluded set: excludeAfter("a"), then
      excludeRange("b", "c"), and "d" is no longer excluded. */
  lemma RangeAfterRay(a: Component, b: Component, c: Component, d: Component)
    requires Rank(a) < Rank(b) < Rank(c) < Rank(d)
    ensures IsExcluded(FromHere([], At(a)), d)
    ensures !IsExcluded(RangeResult(FromHere([], At(a)), At(b), c), d)
  {
    hide Rank;
    var e := FromHere([], At(a));
    assert e == [Entry(At(a), true)];
    assert Valid(e);
    assert LowerBound(e, At(b)) == 0 && LowerBound(e, At(c)) == 0;
    RangeMeans(e, At(b), c, d);
  }

  // ---- the shape enumeration relies on ----

  /** No two neighbouring entries both carry ANY: consecutive ranges have been combined. */
  ghost predicate Combined(e: Entries)
  {
    forall i :: 0 <= i < |e| - 1 ==> !(e[i].any && e[i + 1].any)
  }

  /** `from` is the closing entry of an existing range. */
  predicate ClosesRange(e: Entries, from: Key)
  {
    var i := LowerBound(e, from);
    i + 1 < |e| && e[i].key == from && !e[i].any && e[i + 1].any
  }

  lemma OneKeepsShape(e: Entries, x: Component)
    requires Valid(e)
    ensures Valid(OneResult(e, x))
    ensures Combined(e) ==> Combined(OneResult(e, x))
  {
    var i := LowerBound(e, At(x));
    if !IsExcluded(e, x) {
      if i < |e| {
        AboveIsCanonical(e[i].key, At(x));
      }
      Slices(e, i, i);
      JoinIsValid(e[..i], [Entry(At(x), false)]);
      JoinIsValid(e[..i] + [Entry(At(x), false)], e[i..]);
    }
  }

  /** excludeOne excludes exactly one more component. */
  lemma OneIsUnion(e: Entries, x: Component, y: Component)
    ensures IsExcluded(OneResult(e, x), y) <==> IsExcluded(e, y) || y == x
  {
    hide Rank, Above;
    var i := LowerBound(e, At(x));
    if !IsExcluded(e, x) {
      NewKeyIsBelow(e, x);
      assert e == e[..i] + e[i..];
      assert OneResult(e, x) == e[..i] + ([Entry(At(x), false)] + e[i..]);
      Inserted(e[..i], e[i..], x, y);
    }
  }

  lemma NewKeyIsBelow(e: Entries, x: Component)
    requires !IsExcluded(e, x)
    ensures var i := LowerBound(e, At(x));
            i < |e| ==> Above(At(x), e[i].key) && !e[i].any
  {
    var i := LowerBound(e, At(x));
    if i < |e| {
      AboveIsCanonical(e[i].key, At(x));
    }
  }

  lemma Inserted(hi: Entries, lo: Entries, x: Component, y: Component)
    requires forall k :: 0 <= k < |hi| ==> Above(hi[k].key, At(x))
    requires lo != [] ==> Above(At(x), lo[0].key) && !lo[0].any
    ensures IsExcluded(hi + ([Entry(At(x), false)] + lo), y) <==> IsExcluded(hi + lo, y) || y == x
  {
    IsExcludedConcat(hi, lo, y);
    IsExcludedConcat(hi, [Entry(At(x), false)] + lo, y);
    InsertedHead(lo, x, y);
  }

  lemma InsertedHead(lo: Entries, x: Component, y: Component)
    requires lo != [] ==> Above(At(x), lo[0].key) && !lo[0].any
    ensures IsExcluded([Entry(At(x), false)] + lo, y) <==> IsExcluded(lo, y) || y == x
  {
    IsExcludedConcat([Entry(At(x), false)], lo, y);
    AboveIsCanonical(At(x), At(y));
  }

  lemma FromHereShape(e: Entries, from: Key)
    requires Valid(e) && Combined(e)
    ensures Combined(FromHere(e, from)) <==> !ClosesRange(e, from)
  {
    var i := LowerBound(e, from);
    var low := FromHere(e, from);
    if i < |e| {
      AboveIsCanonical(e[i].key, from);
    }
    if ClosesRange(e, from) {
      assert low[0].any && low[1] == e[i + 1];
    } else if i < |e| && !e[i].any && e[i].key == from {
      assert forall k :: 1 <= k < |low| ==> low[k] == e[i + k];
    } else if i < |e| && !e[i].any {
      assert forall k :: 1 <= k < |low| ==> low[k] == e[i + k - 1];
    }
  }

  lemma JoinCombined(a: Entries, b: Entries)
    ensures Combined(a + b) <==>
              Combined(a) && Combined(b) && (a == [] || b == [] || !(a[|a| - 1].any && b[0].any))
  {
    var r := a + b;
    if Combined(r) {
      forall i | 0 <= i < |b| - 1
        ensures !(b[i].any && b[i + 1].any)
      {
        assert r[|a| + i] == b[i] && r[|a| + i + 1] == b[i + 1];
      }
      forall i | 0 <= i < |a| - 1
        ensures !(a[i].any && a[i + 1].any)
      {
        assert r[i] == a[i] && r[i + 1] == a[i + 1];
      }
      assert a != [] && b != [] ==> r[|a| - 1] == a[|a| - 1] && r[|a| - 1 + 1] == b[0];
    }
  }

  lemma SpliceShape(hi: Entries, t: Entries, low: Entries)
    requires Combined(hi)
    requires if t == [] then hi == [] || !hi[|hi| - 1].any else |t| == 1 && !t[0].any
    ensures Combined(hi + t + low) <==> Combined(low)
  {
    JoinCombined(hi, t);
    JoinCombined(hi + t, low);
    if t == [] {
      assert hi + t == hi;
    }
  }

  /** excludeRange, excludeBefore and excludeAfter keep consecutive ranges combined exactly unless `from`
      closes an existing range; negative infinity never does, so excludeBefore always keeps the shape. */
  lemma RangeShape(e: Entries, from: Key, to: Component)
    requires Valid(e) && Combined(e) && Above(At(to), from)
    ensures Combined(RangeResult(e, from, to)) <==> !ClosesRange(e, from)
    ensures from.NegInf? ==> !ClosesRange(e, from)
  {
    var j := LowerBound(e, At(to));
    LowerBoundIsMonotone(e, from, At(to));
    FromHereShape(e, from);
    assert j > 0 && j < |e| ==> !(e[j - 1].any && e[j - 1 + 1].any);
    SpliceShape(e[..j], Closing(e, from, to), FromHere(e, from));
  }
}
