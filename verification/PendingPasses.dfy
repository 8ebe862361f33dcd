/** One pass of satisfyPendingInterests or nackPendingInterests over the list of pending Interests, while the
    callbacks it runs append to that list (src/detail/face-impl.hpp). */
module PendingPasses {
  type Id = nat

  datatype PendingInterest<I> = PendingInterest(id: Id, interest: I)

  function Select<I>(table: seq<PendingInterest<I>>, p: I -> bool, want: bool): seq<PendingInterest<I>>
  {
    if table == [] then []
    else (if p(table[0].interest) == want then [table[0]] else []) + Select(table[1..], p, want)
  }

  /** Interests get consecutive identifiers as they are expressed. */
  function Fresh<I>(interests: seq<I>, first: Id): seq<PendingInterest<I>>
  {
    seq(|interests|, i requires 0 <= i < |interests| => PendingInterest(first + i, interests[i]))
  }

  /** A script lists the Interests that each callback of the pass expresses; callbacks beyond it express
      nothing. */
  function Scripted<I>(script: seq<seq<I>>, k: nat): seq<I>
  {
    if k < |script| then script[k] else []
  }

  /** What callbacks k, ..., k + n - 1 express. */
  function Expressed<I>(script: seq<seq<I>>, k: nat, n: nat): seq<I>
    decreases n
  {
    if n == 0 then [] else Scripted(script, k) + Expressed(script, k + 1, n - 1)
  }

  /** The entries the cursor stood at, those behind it when it met the end, and all that were appended. */
  datatype Passage<I> = Passage(visited: seq<PendingInterest<I>>, unvisited: seq<PendingInterest<I>>,
                                added: seq<PendingInterest<I>>)

  /** The pass from a cursor at the first entry of `ahead`, the next callback being number `k`. Erasing the
      last entry leaves the cursor at end(), and what its callback appends goes in front of end(). */
  function Pass<I>(p: I -> bool, script: seq<seq<I>>, first: Id, ahead: seq<PendingInterest<I>>, k: nat): Passage<I>
    decreases if k < |script| then |script| - k else 0, |ahead|
  {
    if ahead == [] then Passage([], [], [])
    else if !p(ahead[0].interest) then
      var o := Pass(p, script, first, ahead[1..], k);
      o.(visited := [ahead[0]] + o.visited)
    else
      var more := Fresh(Scripted(script, k), first);
      if |ahead| == 1 then Passage(ahead, more, more)
      else
        var o := Pass(p, script, first + |more|, ahead[1..] + more, k + 1);
        Passage([ahead[0]] + o.visited, o.unvisited, more + o.added)
  }

  // ---- where a pass leads ----

  /** Nothing is lost or visited twice. */
  lemma {:induction false} PassPartitions<I>(p: I -> bool, script: seq<seq<I>>, first: Id,
                                             ahead: seq<PendingInterest<I>>, k: nat)
    ensures var o := Pass(p, script, first, ahead, k); o.visited + o.unvisited == ahead + o.added
    decreases if k < |script| then |script| - k else 0, |ahead|
  {
    hide Fresh, Scripted, Select;
    if ahead != [] && !p(ahead[0].interest) {
      PassPartitions(p, script, first, ahead[1..], k);
      Regroup(ahead, [], Pass(p, script, first, ahead[1..], k));
    } else if |ahead| > 1 {
      var more := Fresh(Scripted(script, k), first);
      ScriptEnds(script, k, first);
      PassPartitions(p, script, first + |more|, ahead[1..] + more, k + 1);
      Regroup(ahead, more, Pass(p, script, first + |more|, ahead[1..] + more, k + 1));
    }
  }

  lemma Regroup<I>(ahead: seq<PendingInterest<I>>, more: seq<PendingInterest<I>>, o: Passage<I>)
    requires ahead != [] && o.visited + o.unvisited == (ahead[1..] + more) + o.added
    ensures ([ahead[0]] + o.visited) + o.unvisited == ahead + (more + o.added)
    ensures more == [] ==> more + o.added == o.added
  {
    assert ahead == [ahead[0]] + ahead[1..];
    assert ([ahead[0]] + o.visited) + o.unvisited == [ahead[0]] + (o.visited + o.unvisited);
  }

  /** As much is appended as there were callbacks, with consecutive identifiers. */
  lemma {:induction false} PassAppends<I>(p: I -> bool, script: seq<seq<I>>, first: Id,
                                          ahead: seq<PendingInterest<I>>, k: nat)
    ensures var o := Pass(p, script, first, ahead, k);
            o.added == Fresh(Expressed(script, k, |Select(o.visited, p, true)|), first)
    decreases if k < |script| then |script| - k else 0, |ahead|
  {
    hide Fresh, Scripted;
    FreshAppend<I>([], [], first);
    if ahead != [] && !p(ahead[0].interest) {
      PassAppends(p, script, first, ahead[1..], k);
      SelectCons(ahead[0], Pass(p, script, first, ahead[1..], k).visited, p);
    } else if |ahead| > 1 {
      var more := Fresh(Scripted(script, k), first);
      ScriptEnds(script, k, first);
      PassAppends(p, script, first + |more|, ahead[1..] + more, k + 1);
      var o := Pass(p, script, first + |more|, ahead[1..] + more, k + 1);
      FreshAppend(Scripted(script, k), Expressed(script, k + 1, |Select(o.visited, p, true)|), first);
      SelectCons(ahead[0], o.visited, p);
    } else if |ahead| == 1 {
      SelectOne(ahead, p);
      assert Expressed(script, k + 1, 0) == [] && Expressed(script, k, 1) == Scripted(script, k) + [];
      assert Scripted(script, k) + [] == Scripted(script, k);
    }
  }

  lemma ScriptEnds<I>(script: seq<seq<I>>, k: nat, first: Id)
    ensures |Fresh(Scripted(script, k), first)| == |Scripted(script, k)|
    ensures k >= |script| ==> Fresh(Scripted(script, k), first) == []
  {
  }

  lemma SelectCons<I>(e: PendingInterest<I>, table: seq<PendingInterest<I>>, p: I -> bool)
    ensures Select([e] + table, p, true) == (if p(e.interest) then [e] else []) + Select(table, p, true)
  {
  }

  lemma SelectOne<I>(table: seq<PendingInterest<I>>, p: I -> bool)
    requires |table| == 1
    ensures Select(table, p, true) == if p(table[0].interest) then table else []
  {
    assert table == [table[0]] + [];
  }

  lemma FreshAppend<I>(a: seq<I>, b: seq<I>, first: Id)
    ensures |Fresh(a, first)| == |a| && |Fresh(b, first + |a|)| == |b|
    ensures Fresh(a + b, first) == Fresh(a, first) + Fresh(b, first + |a|)
  {
  }

  /** Every entry pending when the packet arrived is visited, in table order. */
  lemma {:induction false} PassVisitsPending<I>(p: I -> bool, script: seq<seq<I>>, first: Id,
                                                ahead: seq<PendingInterest<I>>, more: seq<PendingInterest<I>>, k: nat)
    ensures ahead <= Pass(p, script, first, ahead + more, k).visited
    decreases |ahead|
  {
    if ahead != [] {
      var all := ahead + more;
      var appended := Fresh(Scripted(script, k), first);
      assert all[0] == ahead[0] && all[1..] == ahead[1..] + more;
      assert ahead == [ahead[0]] + ahead[1..];
      if !p(ahead[0].interest) {
        PassVisitsPending(p, script, first, ahead[1..], more, k);
      } else if |all| > 1 {
        assert all[1..] + appended == ahead[1..] + (more + appended);
        PassVisitsPending(p, script, first + |appended|, ahead[1..], more + appended, k + 1);
      }
    }
  }

  /** The pass goes on as long as something follows the entry being handled, and stops the first time nothing
      does: what the callback of that entry appends does not count, what earlier callbacks appended does. */
  lemma {:induction false} PassStopsAtEnd<I>(p: I -> bool, script: seq<seq<I>>, first: Id,
                                             ahead: seq<PendingInterest<I>>, k: nat, n: nat)
    requires 0 < n <= |Pass(p, script, first, ahead, k).visited|
    ensures var visited := Pass(p, script, first, ahead, k).visited;
            var reach := |ahead| + |Expressed(script, k, |Select(visited[..n - 1], p, true)|)|;
            n <= reach && (n == reach <==> n == |visited|)
    decreases n
  {
    hide Fresh, Scripted;
    var e, o := ahead[0], Pass(p, script, first, ahead, k);
    var more := Fresh(Scripted(script, k), first);
    ScriptEnds(script, k, first);
    var rest := o.visited[1..];
    assert o.visited == [e] + rest;
    if n > 1 {
      SelectCons(e, rest[..n - 2], p);
      assert o.visited[..n - 1] == [e] + rest[..n - 2];
      if p(e.interest) {
        assert rest == Pass(p, script, first + |more|, ahead[1..] + more, k + 1).visited;
        PassStopsAtEnd(p, script, first + |more|, ahead[1..] + more, k + 1, n - 1);
      } else {
        assert rest == Pass(p, script, first, ahead[1..], k).visited;
        PassStopsAtEnd(p, script, first, ahead[1..], k, n - 1);
      }
    } else {
      assert o.visited[..0] == [];
      if p(e.interest) && |ahead| > 1 {
        assert rest == Pass(p, script, first + |more|, ahead[1..] + more, k + 1).visited;
      }
    }
  }

  // ---- which entries a packet answers ----

  /** The last pending entry matches, and nothing was appended by the time it is erased. */
  predicate EndsWithMatch<I>(p: I -> bool, script: seq<seq<I>>, ahead: seq<PendingInterest<I>>, k: nat)
  {
    var m := |Select(ahead, p, true)|;
    ahead != [] && p(ahead[|ahead| - 1].interest) && m > 0 && Expressed(script, k, m - 1) == []
  }

  ghost predicate NoneMatches<I>(p: I -> bool, interests: seq<I>)
  {
    forall i <- interests :: !p(i)
  }

  function InterestsOf<I>(entries: seq<PendingInterest<I>>): seq<I>
  {
    seq(|entries|, i requires 0 <= i < |entries| => entries[i].interest)
  }

  /** A packet is answered only by entries that were pending when it arrived if and only if the pass ends at
      the last of them, or nothing that their callbacks express matches it. */
  lemma AnsweredOnlyPendingIff<I>(p: I -> bool, script: seq<seq<I>>, first: Id, start: seq<PendingInterest<I>>)
    ensures Select(Pass(p, script, first, start, 0).visited, p, true) == Select(start, p, true) <==>
              EndsWithMatch(p, script, start, 0)
              || NoneMatches(p, Expressed(script, 0, |Select(start, p, true)|))
  {
    assert start + [] == start;
    OnlyPendingStep(p, script, first, start, [], 0);
  }

  lemma {:induction false} OnlyPendingStep<I>(p: I -> bool, script: seq<seq<I>>, first: Id,
                                              a: seq<PendingInterest<I>>, b: seq<PendingInterest<I>>, k: nat)
    ensures Select(Pass(p, script, first, a + b, k).visited, p, true) == Select(a, p, true) <==>
              (b == [] && EndsWithMatch(p, script, a, k))
              || (NoneMatches(p, InterestsOf(b)) && NoneMatches(p, Expressed(script, k, |Select(a, p, true)|)))
    decreases |a|
  {
    hide Fresh, Scripted, NoneMatches, InterestsOf, EndsWithMatch;
    if a == [] {
      assert a + b == b;
      NothingExpressed(p, script, k);
      AppendedAnswered(p, script, first, b, k);
    } else {
      var e, all, more := a[0], a + b, Fresh(Scripted(script, k), first);
      assert all[0] == e && all[1..] == a[1..] + b;
      SelectCons(e, Pass(p, script, first, all[1..], k).visited, p);
      if !p(e.interest) {
        OnlyPendingStep(p, script, first, a[1..], b, k);
        EndsSkip(p, script, a, k);
      } else if |all| == 1 {
        assert a == [e] && b == [];
        SelectOne(a, p);
        OneEnds(p, script, a, k);
      } else {
        var later := first + |more|;
        assert all[1..] + more == a[1..] + (b + more);
        OnlyPendingStep(p, script, later, a[1..], b + more, k + 1);
        var answered := Select(Pass(p, script, later, all[1..] + more, k + 1).visited, p, true);
        SelectCons(e, Pass(p, script, later, all[1..] + more, k + 1).visited, p);
        SelectCons(e, a[1..], p);
        assert a == [e] + a[1..];
        assert ([e] + answered)[1..] == answered && ([e] + Select(a[1..], p, true))[1..] == Select(a[1..], p, true);
        NoneMatchesAppend(p, b, more);
        FreshInterests(Scripted(script, k), first);
        EndsAfterMatch(p, script, a, b, first, k);
        NoneMatchesConcat(p, Scripted(script, k), Expressed(script, k + 1, |Select(a[1..], p, true)|));
      }
    }
  }

  lemma NothingExpressed<I>(p: I -> bool, script: seq<seq<I>>, k: nat)
    ensures NoneMatches(p, Expressed(script, k, 0)) && !EndsWithMatch(p, script, [], k)
  {
  }

  /** Entries ahead are answered unless none matches. */
  lemma {:induction false} AppendedAnswered<I>(p: I -> bool, script: seq<seq<I>>, first: Id,
                                               b: seq<PendingInterest<I>>, k: nat)
    ensures Select(Pass(p, script, first, b, k).visited, p, true) == [] <==> NoneMatches(p, InterestsOf(b))
    decreases |b|
  {
    hide Fresh, Scripted;
    if b != [] {
      var asked := InterestsOf(b);
      assert asked[0] == b[0].interest && asked[0] in asked;
      if p(b[0].interest) {
        assert Pass(p, script, first, b, k).visited[0] == b[0];
      } else {
        AppendedAnswered(p, script, first, b[1..], k);
        SelectCons(b[0], Pass(p, script, first, b[1..], k).visited, p);
        assert InterestsOf(b[1..]) == asked[1..];
        assert asked == [asked[0]] + asked[1..];
      }
    }
  }

  lemma EndsSkip<I>(p: I -> bool, script: seq<seq<I>>, a: seq<PendingInterest<I>>, k: nat)
    requires a != [] && !p(a[0].interest)
    ensures EndsWithMatch(p, script, a, k) <==> EndsWithMatch(p, script, a[1..], k)
    ensures Select(a, p, true) == Select(a[1..], p, true)
  {
    if |a| > 1 {
      assert a[1..][|a| - 2] == a[|a| - 1];
    }
  }

  lemma OneEnds<I>(p: I -> bool, script: seq<seq<I>>, a: seq<PendingInterest<I>>, k: nat)
    requires |a| == 1 && p(a[0].interest)
    ensures EndsWithMatch(p, script, a, k)
  {
    SelectOne(a, p);
  }

  lemma EndsAfterMatch<I>(p: I -> bool, script: seq<seq<I>>, a: seq<PendingInterest<I>>, b: seq<PendingInterest<I>>,
                          first: Id, k: nat)
    requires a != [] && p(a[0].interest) && |a + b| > 1
    ensures b == [] && EndsWithMatch(p, script, a, k) <==>
              b + Fresh(Scripted(script, k), first) == [] && EndsWithMatch(p, script, a[1..], k + 1)
    ensures |Select(a, p, true)| == 1 + |Select(a[1..], p, true)|
  {
    hide Fresh, Scripted;
    ScriptEnds(script, k, first);
    if |a| > 1 {
      assert a[1..][|a| - 2] == a[|a| - 1];
      if p(a[|a| - 1].interest) {
        LastIsSelected(a[1..], p);
      }
    }
  }

  lemma {:induction false} LastIsSelected<I>(a: seq<PendingInterest<I>>, p: I -> bool)
    requires a != [] && p(a[|a| - 1].interest)
    ensures |Select(a, p, true)| > 0
  {
    if |a| > 1 {
      LastIsSelected(a[1..], p);
    }
  }

  lemma NoneMatchesAppend<I>(p: I -> bool, a: seq<PendingInterest<I>>, b: seq<PendingInterest<I>>)
    ensures NoneMatches(p, InterestsOf(a + b)) <==> NoneMatches(p, InterestsOf(a)) && NoneMatches(p, InterestsOf(b))
  {
    NoneMatchesConcat(p, InterestsOf(a), InterestsOf(b));
    assert InterestsOf(a + b) == InterestsOf(a) + InterestsOf(b);
  }

  lemma NoneMatchesConcat<I>(p: I -> bool, a: seq<I>, b: seq<I>)
    ensures NoneMatches(p, a + b) <==> NoneMatches(p, a) && NoneMatches(p, b)
  {
    assert NoneMatches(p, a + b) ==> forall i <- a :: i in a + b;
    assert NoneMatches(p, a + b) ==> forall i <- b :: i in a + b;
  }

  lemma FreshInterests<I>(interests: seq<I>, first: Id)
    ensures InterestsOf(Fresh(interests, first)) == interests
  {
  }

  /** If everything matches and each callback expresses one more Interest, two pending entries keep the pass
      going until the script runs out: it has no bound of its own. A single one is answered alone. */
  lemma PassFeedsItself<I(!new)>(p: I -> bool, script: seq<seq<I>>, first: Id, start: seq<PendingInterest<I>>)
    requires start != [] && (forall i: I :: p(i)) && (forall s <- script :: |s| == 1)
    ensures |Select(Pass(p, script, first, start, 0).visited, p, true)|
         == if |start| == 1 then 1 else |start| + |script|
  {
    FeedingStep(p, script, first, start, 0);
    SelectAll(Pass(p, script, first, start, 0).visited, p);
  }

  lemma {:induction false} FeedingStep<I(!new)>(p: I -> bool, script: seq<seq<I>>, first: Id,
                                                ahead: seq<PendingInterest<I>>, k: nat)
    requires ahead != [] && k <= |script| && (forall i: I :: p(i)) && (forall s <- script :: |s| == 1)
    ensures |Pass(p, script, first, ahead, k).visited| == if |ahead| == 1 then 1 else |ahead| + |script| - k
    decreases |script| - k, |ahead|
  {
    hide Fresh;
    var more := Fresh(Scripted(script, k), first);
    ScriptEnds(script, k, first);
    if k < |script| {
      assert |more| == 1;
      if |ahead| > 1 {
        FeedingStep(p, script, first + |more|, ahead[1..] + more, k + 1);
      }
    } else {
      OutOfScript(p, script, first, ahead, k);
    }
  }

  lemma {:induction false} OutOfScript<I>(p: I -> bool, script: seq<seq<I>>, first: Id,
                                          ahead: seq<PendingInterest<I>>, k: nat)
    requires k >= |script|
    ensures Pass(p, script, first, ahead, k).visited == ahead
    decreases |ahead|
  {
    if ahead != [] {
      var more := Fresh(Scripted(script, k), first);
      assert more == [] && ahead[1..] + more == ahead[1..];
      assert ahead == [ahead[0]] + ahead[1..];
      if p(ahead[0].interest) {
        OutOfScript(p, script, first, ahead[1..], k + 1);
      } else {
        OutOfScript(p, script, first, ahead[1..], k);
      }
    }
  }

  lemma {:induction false} SelectAll<I(!new)>(table: seq<PendingInterest<I>>, p: I -> bool)
    requires forall i: I :: p(i)
    ensures Select(table, p, true) == table
  {
    if table != [] {
      SelectAll(table[1..], p);
    }
  }
}
