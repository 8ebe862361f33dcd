/** Any sequence of mutator calls on an Exclude selector (src/exclude.cpp) against a plain set of components. */
module ExcludeRuns {
  import opened Results
  import opened NameComponents
  import opened ExcludeMaps
  import opened Excludes

  datatype Call =
    | One(x: Component)
    | Between(from: Component, to: Component)
    | Before(to: Component)
    | After(from: Component)
  {
    /** The components the call asks to exclude; a range that does not ascend is an error and asks for none. */
    predicate Requests(x: Component)
    {
      match this
      case One(y) => x == y
      case Between(from, to) => Above(At(to), At(from)) && InClosedRange(At(from), to, x)
      case Before(to) => InClosedRange(NegInf, to, x)
      case After(from) => !Above(At(from), At(x))
    }
  }

  /** The entries after one call. */
  function Apply(e: Entries, c: Call): Entries
  {
    match c
    case One(x) => OneResult(e, x)
    case Between(from, to) => if Above(At(to), At(from)) then RangeResult(e, At(from), to) else e
    case Before(to) => RangeResult(e, NegInf, to)
    case After(from) => FromHere(e, At(from))
  }

  /** The call does not cut an existing range short. */
  predicate Faithful(e: Entries, c: Call)
  {
    match c
    case Between(from, to) => Above(At(to), At(from)) ==> !CutsShort(e, At(from), to) || LosesNothing(e, to)
    case Before(to) => !CutsShort(e, NegInf, to) || LosesNothing(e, to)
    case _ => true
  }

  /** The entries after any number of calls, from an empty selector. */
  function State(calls: seq<Call>): Entries
  {
    if calls == [] then [] else Apply(State(calls[..|calls| - 1]), calls[|calls| - 1])
  }

  /** One call never excludes more than was asked for, and exactly that if and only if it is faithful. */
  lemma CallRefinesUnion(e: Entries, c: Call)
    requires Valid(e)
    ensures Valid(Apply(e, c))
    ensures forall x: Component :: IsExcluded(Apply(e, c), x) ==> IsExcluded(e, x) || c.Requests(x)
    ensures (forall x: Component :: IsExcluded(Apply(e, c), x) <==> IsExcluded(e, x) || c.Requests(x))
       <==> Faithful(e, c)
  {
    hide IsExcluded, OneResult, RangeResult, FromHere, CutsShort, LosesNothing, Rank;
    match c {
      case One(y) =>
        OneKeepsShape(e, y);
        forall x: Component
          ensures IsExcluded(OneResult(e, y), x) <==> IsExcluded(e, x) || x == y
        {
          OneIsUnion(e, y, x);
        }
      case Between(from, to) =>
        if Above(At(to), At(from)) {
          RangeFacts(e, At(from), to);
          RangeIsUnionIff(e, At(from), to);
        }
      case Before(to) =>
        RangeFacts(e, NegInf, to);
        RangeIsUnionIff(e, NegInf, to);
      case After(from) =>
        AfterIsUnion(e, from, from);
        forall x: Component
          ensures IsExcluded(FromHere(e, At(from)), x) <==> IsExcluded(e, x) || !Above(At(from), At(x))
        {
          AfterIsUnion(e, from, x);
        }
    }
  }

  /** Over any run, everything excluded was asked for; and everything asked for is excluded, unless some call
      on the way cut a range short. */
  lemma {:induction false} RunRefinesUnion(calls: seq<Call>, x: Component)
    ensures Valid(State(calls))
    ensures IsExcluded(State(calls), x) ==> exists c <- calls :: c.Requests(x)
    ensures (forall k :: 0 <= k < |calls| ==> Faithful(State(calls[..k]), calls[k])) ==>
              (IsExcluded(State(calls), x) <==> exists c <- calls :: c.Requests(x))
  {
    hide IsExcluded, Apply, Faithful;
    if calls == [] {
      NothingExcluded(x);
    } else {
      var n := |calls| - 1;
      RunRefinesUnion(calls[..n], x);
      CallRefinesUnion(State(calls[..n]), calls[n]);
      assert calls == calls[..n] + [calls[n]];
      forall k | 0 <= k < n
        ensures calls[..n][..k] == calls[..k] && calls[..n][k] == calls[k]
      {
      }
      assert calls[n] in calls;
    }
  }

  lemma NothingExcluded(x: Component)
    ensures !IsExcluded([], x)
  {
  }

  /** The public methods, called one after the other. */
  method Run(calls: seq<Call>) returns (exclude: Exclude)
    ensures exclude.Valid() && exclude.entries == State(calls)
  {
    hide OneResult, RangeResult, FromHere, Rank;
    exclude := new Exclude();
    for k := 0 to |calls|
      invariant fresh(exclude) && exclude.Valid() && exclude.entries == State(calls[..k])
    {
      assert calls[..k + 1][..k] == calls[..k];
      match calls[k] {
        case One(x) => exclude.ExcludeOne(x);
        case Between(from, to) => var _ := exclude.ExcludeRange(from, to);
        case Before(to) => exclude.ExcludeBefore(to);
        case After(from) => exclude.ExcludeAfter(from);
      }
    }
    assert calls[..|calls|] == calls;
  }
}
