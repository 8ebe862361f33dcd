/** The consumer side of a Face: pending Interests, their timers and callbacks, and the transport they
    keep awake (src/detail/face-impl.hpp, pending-interest.hpp, container-with-on-empty-signal.hpp). */
module Faces {
  import opened PendingPasses

  /** Where an expressed Interest is; all but Waiting are final. */
  datatype Fate = Waiting | Satisfied | Nacked | TimedOut | Removed

  datatype Callback = OnData | OnNack | OnTimeout

  datatype Invocation = Invocation(id: Id, callback: Callback)

  /** The callback now running, if any. The timer of an Interest that was just satisfied or nacked lives
      until its callback returns; an Interest that timed out leaves the table after its callback. */
  datatype Running = Idle | Answering(id: Id) | TimingOut(id: Id)

  /** What the io_service may run next. A script lists, per callback invocation, the Interests that
      callback expresses. */
  datatype Event<I, D, N> =
    | Express(interest: I)
    | ReceiveData(data: D, script: seq<seq<I>>)
    | ReceiveNack(nack: N, script: seq<seq<I>>)
    | TimerExpires(id: Id, expressed: seq<I>)
    | RemovePending(id: Id)
    | RemoveAllPending
    | PostedEmpty
    | PrefixRegistered
    | PrefixUnregistered
    | Send
    | ConnectStart
    | ConnectDone
    | TransportError
    | Shutdown

  function Ids<I>(table: seq<PendingInterest<I>>): set<Id>
  {
    set i | 0 <= i < |table| :: table[i].id
  }

  ghost predicate Distinct<I>(table: seq<PendingInterest<I>>)
  {
    forall i, j :: 0 <= i < j < |table| ==> table[i].id != table[j].id
  }

  /** A Face between two events, with the fates and the callbacks so far. */
  datatype State<I> = State(
    table: seq<PendingInterest<I>>, armed: set<Id>, registered: nat, posted: nat,
    isConnected: bool, isConnecting: bool, isReceiving: bool,
    nextId: Id, fate: map<Id, Fate>, invoked: seq<Invocation>)

  function FateOf(c: Callback): Fate
  {
    match c
    case OnData => Satisfied
    case OnNack => Nacked
    case OnTimeout => TimedOut
  }

  /** Every callback is recorded once and its Interest has the fate it reports; and each such fate was
      reported. */
  ghost predicate Reported(fate: map<Id, Fate>, invoked: seq<Invocation>)
  {
    && (forall i, j :: 0 <= i < j < |invoked| ==> invoked[i].id != invoked[j].id)
    && (forall v <- invoked :: v.id in fate && match v.callback
                                               case OnData => fate[v.id] == Satisfied
                                               case OnNack => fate[v.id] == Nacked
                                               case OnTimeout => fate[v.id] == TimedOut)
    && (forall id <- fate :: fate[id] in {Satisfied, Nacked, TimedOut} ==> exists v <- invoked :: v.id == id)
  }

  function Invocations<I>(entries: seq<PendingInterest<I>>, callback: Callback): seq<Invocation>
  {
    seq(|entries|, i requires 0 <= i < |entries| => Invocation(entries[i].id, callback))
  }

  /** A loop over the table has visited `seen`, has `ahead` before its cursor and, once the cursor is at end(),
      `unvisited` behind it; its `k` callbacks appended `added`. */
  ghost predicate Progress<I>(p: I -> bool, script: seq<seq<I>>, first: Id, start: seq<PendingInterest<I>>,
                              seen: seq<PendingInterest<I>>, ahead: seq<PendingInterest<I>>,
                              unvisited: seq<PendingInterest<I>>, added: seq<PendingInterest<I>>, k: nat,
                              table: seq<PendingInterest<I>>)
  {
    var o := Pass(p, script, first + |added|, ahead, k);
    && Pass(p, script, first, start, 0) == Passage(seen + o.visited, unvisited + o.unvisited, added + o.added)
    && table == Select(seen, p, false) + ahead + unvisited
    && (ahead != [] ==> unvisited == [])
  }

  /** What the loop has left behind its cursor, and in front of it. */
  ghost function Cursor<I>(p: I -> bool, seen: seq<PendingInterest<I>>, unvisited: seq<PendingInterest<I>>): nat
  {
    |Select(seen, p, false)| + |unvisited|
  }

  lemma ProgressBegins<I>(p: I -> bool, callback: Callback, script: seq<seq<I>>, first: Id,
                          table: seq<PendingInterest<I>>, invoked: seq<Invocation>)
    ensures Progress(p, script, first, table, [], table, [], [], 0, table) && Cursor<I>(p, [], []) == 0
    ensures invoked == invoked + Invocations(Select([], p, true), callback)
  {
  }

  lemma ProgressSkips<I>(p: I -> bool, script: seq<seq<I>>, first: Id, start: seq<PendingInterest<I>>,
                         seen: seq<PendingInterest<I>>, ahead: seq<PendingInterest<I>>,
                         unvisited: seq<PendingInterest<I>>, added: seq<PendingInterest<I>>, k: nat,
                         table: seq<PendingInterest<I>>)
    requires Progress(p, script, first, start, seen, ahead, unvisited, added, k, table)
    requires Cursor(p, seen, unvisited) < |table|
    ensures ahead != [] && unvisited == [] && table[Cursor(p, seen, unvisited)] == ahead[0]
    ensures !p(ahead[0].interest) ==>
              && Progress(p, script, first, start, seen + [ahead[0]], ahead[1..], [], added, k, table)
              && Cursor(p, seen + [ahead[0]], []) == Cursor(p, seen, unvisited) + 1
              && Select(seen + [ahead[0]], p, true) == Select(seen, p, true)
  {
    hide Select, Pass;
    var entry, kept := ahead[0], Select(seen, p, false);
    assert table == kept + ahead;
    if !p(entry.interest) {
      SelectSnoc(seen, entry, p, true);
      SelectSnoc(seen, entry, p, false);
      PassSkips(p, script, first + |added|, ahead, k);
      var o := Pass(p, script, first + |added|, ahead[1..], k);
      assert (seen + [entry]) + o.visited == seen + ([entry] + o.visited);
      assert kept + ahead == (kept + [entry]) + ahead[1..] + [];
    }
  }

  lemma PassSkips<I>(p: I -> bool, script: seq<seq<I>>, first: Id, ahead: seq<PendingInterest<I>>, k: nat)
    requires ahead != [] && !p(ahead[0].interest)
    ensures var o := Pass(p, script, first, ahead[1..], k);
            Pass(p, script, first, ahead, k) == Passage([ahead[0]] + o.visited, o.unvisited, o.added)
  {
  }

  /** Answering the entry at the cursor. When nothing follows it, what its callback appends stays unvisited. */
  lemma ProgressAnswers<I>(p: I -> bool, callback: Callback, script: seq<seq<I>>, first: Id,
                           start: seq<PendingInterest<I>>, seen: seq<PendingInterest<I>>,
                           ahead: seq<PendingInterest<I>>, added: seq<PendingInterest<I>>, k: nat,
                           table: seq<PendingInterest<I>>, invoked: seq<Invocation>)
    requires Progress(p, script, first, start, seen, ahead, [], added, k, table)
    requires ahead != [] && p(ahead[0].interest)
    ensures var (pos, more) := (Cursor(p, seen, []), Fresh(Scripted(script, k), first + |added|));
            var atEnd := |ahead| == 1;
            && pos < |table| && (atEnd <==> pos + 1 == |table|)
            && Progress(p, script, first, start, seen + [ahead[0]], if atEnd then [] else ahead[1..] + more,
                        if atEnd then more else [], added + more, k + 1, table[..pos] + table[pos + 1..] + more)
            && Cursor(p, seen + [ahead[0]], if atEnd then more else []) == pos + (if atEnd then |more| else 0)
    ensures invoked + Invocations(Select(seen + [ahead[0]], p, true), callback)
         == invoked + Invocations(Select(seen, p, true), callback) + [Invocation(ahead[0].id, callback)]
  {
    hide Select, Fresh, Invocations, Scripted;
    var entry, kept := ahead[0], Select(seen, p, false);
    InvocationsSnoc(Select(seen, p, true), entry, callback);
    SelectSnoc(seen, entry, p, true);
    SelectSnoc(seen, entry, p, false);
    var pos, more := |kept|, Fresh(Scripted(script, k), first + |added|);
    assert ahead == [entry] + ahead[1..];
    assert table == kept + ahead;
    assert table[..pos] + table[pos + 1..] + more == kept + ahead[1..] + more;
    var o := Pass(p, script, first + |added| + |more|, ahead[1..] + more, k + 1);
    if |ahead| == 1 {
      assert seen + ahead == (seen + [entry]) + [];
      assert kept + ahead[1..] + more == kept + [] + more;
    } else {
      assert first + |added + more| == first + |added| + |more|;
      assert (seen + [entry]) + o.visited == seen + ([entry] + o.visited);
      assert (added + more) + o.added == added + (more + o.added);
      assert kept + ahead[1..] + more == kept + (ahead[1..] + more) + [];
    }
  }

  lemma InvocationsSnoc<I>(entries: seq<PendingInterest<I>>, entry: PendingInterest<I>, callback: Callback)
    ensures Invocations(entries + [entry], callback)
         == Invocations(entries, callback) + [Invocation(entry.id, callback)]
  {
  }

  lemma ProgressEnds<I>(p: I -> bool, script: seq<seq<I>>, first: Id, start: seq<PendingInterest<I>>,
                        seen: seq<PendingInterest<I>>, ahead: seq<PendingInterest<I>>,
                        unvisited: seq<PendingInterest<I>>, added: seq<PendingInterest<I>>, k: nat,
                        table: seq<PendingInterest<I>>)
    requires Progress(p, script, first, start, seen, ahead, unvisited, added, k, table)
    requires Cursor(p, seen, unvisited) >= |table|
    ensures Pass(p, script, first, start, 0) == Passage(seen, unvisited, added)
    ensures table == Select(seen, p, false) + unvisited
  {
    assert ahead == [];
  }

  /** The table, the timers and the history agree: pending is exactly waiting, timers are exactly the live
      records, every reported fate was called back once. */
  ghost predicate Consistent<I>(table: seq<PendingInterest<I>>, armed: set<Id>, fate: map<Id, Fate>,
                                invoked: seq<Invocation>, nextId: Id, r: Running)
  {
    && Distinct(table)
    && (forall id: Id :: id in fate <==> id < nextId)
    && (forall id: Id :: id in Ids(table) <==> id in fate && (fate[id] == Waiting || r == TimingOut(id)))
    && Reported(fate, invoked)
    && match r
       case Idle => armed == Ids(table)
       case Answering(id) => armed == Ids(table) + {id} && id < nextId && id !in Ids(table)
       case TimingOut(id) => armed == Ids(table) - {id} && id in Ids(table) && fate[id] == TimedOut
  }

  lemma NothingPending<I>(table: seq<PendingInterest<I>>, nextId: Id, fate: map<Id, Fate>, invoked: seq<Invocation>)
    requires table == [] && nextId == 0 && fate == map[] && invoked == []
    ensures Consistent(table, {}, fate, invoked, nextId, Idle)
  {
  }

  lemma ExpressKeeps<I>(table: seq<PendingInterest<I>>, armed: set<Id>, fate: map<Id, Fate>,
                        invoked: seq<Invocation>, nextId: Id, r: Running, interest: I)
    requires Consistent(table, armed, fate, invoked, nextId, r)
    ensures nextId !in fate
    ensures Consistent(table + [PendingInterest(nextId, interest)], armed + {nextId}, fate[nextId := Waiting], invoked,
                       nextId + 1, r)
  {
    IdsAppend(table, PendingInterest(nextId, interest));
    forall i | 0 <= i < |table|
      ensures table[i].id != nextId
    {
      assert table[i].id in Ids(table);
    }
  }

  lemma AnswerBegins<I>(table: seq<PendingInterest<I>>, armed: set<Id>, fate: map<Id, Fate>,
                        invoked: seq<Invocation>, nextId: Id, pos: nat, callback: Callback)
    requires Consistent(table, armed, fate, invoked, nextId, Idle) && pos < |table| && callback != OnTimeout
    ensures var id := table[pos].id;
            && id in fate && fate[id] == Waiting
            && Consistent(table[..pos] + table[pos + 1..], armed, fate[id := FateOf(callback)],
                          invoked + [Invocation(id, callback)], nextId, Answering(id))
  {
    assert table[pos].id in Ids(table);
    IdsErase(table, pos);
    ReportOne(fate, invoked, table[pos].id, callback);
  }

  lemma AnswerEnds<I>(table: seq<PendingInterest<I>>, armed: set<Id>, fate: map<Id, Fate>,
                      invoked: seq<Invocation>, nextId: Id, id: Id)
    requires Consistent(table, armed, fate, invoked, nextId, Answering(id))
    ensures Consistent(table, armed - {id}, fate, invoked, nextId, Idle)
  {
  }

  lemma TimeoutBegins<I>(table: seq<PendingInterest<I>>, armed: set<Id>, fate: map<Id, Fate>,
                         invoked: seq<Invocation>, nextId: Id, id: Id)
    requires Consistent(table, armed, fate, invoked, nextId, Idle) && id in armed
    ensures id in fate && fate[id] == Waiting && id in Ids(table)
    ensures Consistent(table, armed - {id}, fate[id := TimedOut], invoked + [Invocation(id, OnTimeout)], nextId,
                       TimingOut(id))
  {
    ReportOne(fate, invoked, id, OnTimeout);
  }

  lemma TimeoutEnds<I>(table: seq<PendingInterest<I>>, armed: set<Id>, fate: map<Id, Fate>,
                       invoked: seq<Invocation>, nextId: Id, id: Id, pos: nat)
    requires Consistent(table, armed, fate, invoked, nextId, TimingOut(id))
    requires pos < |table| ==> table[pos].id == id
    requires pos >= |table| ==> id !in Ids(table)
    ensures pos < |table| && Distinct(table)
    ensures Consistent(table[..pos] + table[pos + 1..], armed, fate, invoked, nextId, Idle)
    ensures id !in Ids(table[..pos] + table[pos + 1..])
  {
    IdsErase(table, pos);
  }

  lemma RemoveKeeps<I>(table: seq<PendingInterest<I>>, armed: set<Id>, fate: map<Id, Fate>,
                       invoked: seq<Invocation>, nextId: Id, pos: nat)
    requires Consistent(table, armed, fate, invoked, nextId, Idle) && pos < |table|
    ensures var id := table[pos].id;
            && id in fate && fate[id] == Waiting
            && Ids(table[..pos] + table[pos + 1..]) == Ids(table) - {id}
            && Consistent(table[..pos] + table[pos + 1..], armed - {id}, fate[id := Removed], invoked, nextId, Idle)
  {
    assert table[pos].id in Ids(table);
    IdsErase(table, pos);
    ReportNothing(fate, fate[table[pos].id := Removed], invoked);
  }

  lemma ClearKeeps<I>(table: seq<PendingInterest<I>>, armed: set<Id>, fate: map<Id, Fate>,
                      invoked: seq<Invocation>, nextId: Id)
    requires Consistent(table, armed, fate, invoked, nextId, Idle)
    ensures Consistent<I>([], {}, Cleared(fate), invoked, nextId, Idle)
  {
    ReportNothing(fate, Cleared(fate), invoked);
  }

  lemma ReportOne(fate: map<Id, Fate>, invoked: seq<Invocation>, id: Id, callback: Callback)
    requires Reported(fate, invoked) && id in fate && fate[id] == Waiting
    ensures Reported(fate[id := FateOf(callback)], invoked + [Invocation(id, callback)])
  {
    var v := Invocation(id, callback);
    forall other | other in fate && other != id && fate[other] in {Satisfied, Nacked, TimedOut}
      ensures exists w <- invoked + [v] :: w.id == other
    {
      var w :| w in invoked && w.id == other;
      assert w in invoked + [v];
    }
    assert v in invoked + [v];
  }

  lemma {:induction false} SelectSnoc<I>(table: seq<PendingInterest<I>>, entry: PendingInterest<I>, p: I -> bool,
                                         want: bool)
    ensures Select(table + [entry], p, want)
         == Select(table, p, want) + if p(entry.interest) == want then [entry] else []
  {
    var all := table + [entry];
    if table == [] {
      assert all == [entry] && all[1..] == [];
    } else {
      SelectSnoc(table[1..], entry, p, want);
      assert all[1..] == table[1..] + [entry] && all[0] == table[0];
      var head := if p(table[0].interest) == want then [table[0]] else [];
      var last := if p(entry.interest) == want then [entry] else [];
      assert (head + Select(table[1..], p, want)) + last == head + (Select(table[1..], p, want) + last);
    }
  }

  /** Every Interest still waiting is removed. */
  ghost function Cleared(fate: map<Id, Fate>): map<Id, Fate>
  {
    map id | id in fate :: if fate[id] == Waiting then Removed else fate[id]
  }

  lemma ReportNothing(fate: map<Id, Fate>, later: map<Id, Fate>, invoked: seq<Invocation>)
    requires Reported(fate, invoked) && later.Keys == fate.Keys
    requires forall id <- fate :: later[id] == fate[id] || (fate[id] == Waiting && later[id] == Removed)
    ensures Reported(later, invoked)
  {
  }

  lemma FoundBefore<I>(was: seq<PendingInterest<I>>, more: seq<PendingInterest<I>>, pos: nat, id: Id)
    requires Distinct(was + more) && pos < |was + more| && (was + more)[pos].id == id && id in Ids(was)
    ensures pos < |was| && was[pos].id == id
    ensures (was + more)[..pos] + (was + more)[pos + 1..] == was[..pos] + was[pos + 1..] + more
  {
    var i :| 0 <= i < |was| && was[i].id == id;
    assert (was + more)[i].id == id;
  }

  lemma IdsAppend<I>(table: seq<PendingInterest<I>>, entry: PendingInterest<I>)
    ensures Ids(table + [entry]) == Ids(table) + {entry.id}
  {
    var t := table + [entry];
    forall id
      ensures id in Ids(t) <==> id in Ids(table) + {entry.id}
    {
      if id in Ids(table) {
        var i :| 0 <= i < |table| && table[i].id == id;
        assert t[i].id == id;
      }
      if id == entry.id {
        assert t[|table|].id == id;
      }
    }
  }

  lemma IdsErase<I>(table: seq<PendingInterest<I>>, pos: nat)
    requires Distinct(table) && pos < |table|
    ensures Distinct(table[..pos] + table[pos + 1..])
    ensures Ids(table[..pos] + table[pos + 1..]) == Ids(table) - {table[pos].id}
  {
    var t := table[..pos] + table[pos + 1..];
    forall id
      ensures id in Ids(t) <==> id in Ids(table) - {table[pos].id}
    {
      if id in Ids(t) {
        var i :| 0 <= i < |t| && t[i].id == id;
        assert t[i] == table[if i < pos then i else i + 1];
      }
      if id in Ids(table) - {table[pos].id} {
        var i :| 0 <= i < |table| && table[i].id == id;
        assert t[if i < pos then i else i - 1] == table[i];
      }
    }
  }

  // ---- what may change ----

  /** Fates are final and callbacks are never taken back. */
  ghost predicate Continues<I>(s: State<I>, t: State<I>)
  {
    && s.invoked <= t.invoked
    && s.nextId <= t.nextId
    && forall id <- s.fate :: id in t.fate && (s.fate[id] != Waiting ==> t.fate[id] == s.fate[id])
  }

  /** The transport, after Interests were expressed or not. */
  ghost predicate Woken<I>(s: State<I>, t: State<I>, any: bool)
  {
    && t.isConnected == s.isConnected
    && t.isConnecting == (s.isConnecting || (any && !s.isConnected))
    && t.isReceiving == (s.isReceiving || (any && s.isConnected))
  }

  /** One packet was handled: the matching entries among those visited were called back, in table order, and
      left the table; what the last callback appended behind the end of the pass was not looked at. */
  ghost predicate Answered<I>(s: State<I>, t: State<I>, p: I -> bool, callback: Callback, script: seq<seq<I>>)
  {
    var o := Pass(p, script, s.nextId, s.table, 0);
    && t.nextId == s.nextId + |o.added|
    && t.table == Select(o.visited, p, false) + o.unvisited
    && t.invoked == s.invoked + Invocations(Select(o.visited, p, true), callback)
    && Woken(s, t, o.added != [])
  }

  /** The entry with the given id, and only it, left the table; `more` joined at the end. */
  ghost predicate Dropped<I>(before: seq<PendingInterest<I>>, after: seq<PendingInterest<I>>, id: Id,
                             more: seq<PendingInterest<I>>)
  {
    exists pos :: 0 <= pos < |before| && before[pos].id == id && after == before[..pos] + before[pos + 1..] + more
  }

  ghost predicate SamePending<I>(s: State<I>, t: State<I>)
  {
    t.table == s.table && t.fate == s.fate && t.invoked == s.invoked && t.nextId == s.nextId
  }

  lemma SameContinues<I>(s: State<I>, t: State<I>)
    ensures SamePending(s, t) ==> Continues(s, t)
  {
  }

  ghost predicate Emptied<I>(s: State<I>, t: State<I>)
  {
    t.table == [] && t.fate == Cleared(s.fate) && t.invoked == s.invoked && t.nextId == s.nextId
  }

  ghost predicate SameSignals<I>(s: State<I>, t: State<I>)
  {
    t.registered == s.registered && t.posted == s.posted
  }

  /** Emptiness is posted at least when the table got empty. */
  ghost predicate Signalled<I>(s: State<I>, t: State<I>)
  {
    t.registered == s.registered && t.posted >= s.posted && (t.table == [] && s.table != [] ==> t.posted > s.posted)
  }

  /** Between two events: what is pending is what waits, with a transport that receives or will. */
  ghost predicate Accounted<I>(s: State<I>)
  {
    && Consistent(s.table, s.armed, s.fate, s.invoked, s.nextId, Idle)
    && (s.table != [] ==> s.isReceiving || s.isConnecting)
  }

  class FaceImpl<I(!new), D(!new), N(!new)> {
    const matchesData: (I, D) -> bool
    const matchesNack: (I, N) -> bool

    var table: seq<PendingInterest<I>>
    var armed: set<Id>
    var registered: nat
    var posted: nat
    var isConnected: bool
    var isConnecting: bool
    var isReceiving: bool
    var nextId: Id
    ghost var fate: map<Id, Fate>
    ghost var invoked: seq<Invocation>

    ghost function Now(): State<I>
      reads this
    {
      State(table, armed, registered, posted, isConnected, isConnecting, isReceiving, nextId, fate, invoked)
    }

    /** What holds at every moment, also while a callback runs. */
    ghost predicate Inv(r: Running)
      reads this
    {
      && Consistent(table, armed, fate, invoked, nextId, r)
      && !(isConnected && isConnecting)
      && (table != [] ==> isReceiving || isConnecting)
    }

    ghost predicate Valid()
      reads this
    {
      Inv(Idle)
    }

    constructor (matchesData: (I, D) -> bool, matchesNack: (I, N) -> bool)
      ensures Valid() && table == [] && invoked == [] && nextId == 0
      ensures this.matchesData == matchesData && this.matchesNack == matchesNack
    {
      this.matchesData, this.matchesNack := matchesData, matchesNack;
      table, armed, registered, posted := [], {}, 0, 0;
      isConnected, isConnecting, isReceiving := false, false, false;
      nextId, fate, invoked := 0, map[], [];
      new;
      NothingPending(table, nextId, fate, invoked);
    }

    // ---- transport ----

    method Resume()
      modifies this`isReceiving
      ensures isReceiving == (old(isReceiving) || !isConnecting)
    {
      if !isConnecting {
        isReceiving := true;
      }
    }

    method Pause()
      modifies this`isReceiving
      ensures isReceiving == (old(isReceiving) && isConnecting)
    {
      if !isConnecting {
        isReceiving := false;
      }
    }

    method EnsureConnected(wantResume: bool)
      requires !(isConnected && isConnecting)
      modifies this`isConnecting, this`isReceiving
      ensures isConnecting == !isConnected
      ensures isReceiving == (old(isReceiving) || (wantResume && isConnected))
    {
      if !isConnected {
        isConnecting := true;
      }
      if wantResume && !isReceiving {
        Resume();
      }
    }

    // ---- consumer ----

    /** asyncExpressInterest; called from the io_service or from inside a callback. */
    method AsyncExpress(interest: I, ghost r: Running)
      requires Inv(r)
      modifies this
      ensures Inv(r) && Continues(old(Now()), Now()) && invoked == old(invoked)
      ensures table == old(table) + [PendingInterest(old(nextId), interest)] && nextId == old(nextId) + 1
      ensures posted == old(posted) && registered == old(registered) && Woken(old(Now()), Now(), true)
    {
      hide Consistent;
      EnsureConnected(true);
      ExpressKeeps(table, armed, fate, invoked, nextId, r, interest);
      table := table + [PendingInterest(nextId, interest)];
      armed := armed + {nextId};
      fate := fate[nextId := Waiting];
      nextId := nextId + 1;
    }

    /** The Interests one callback expresses. */
    method RunCallback(interests: seq<I>, ghost r: Running)
      requires Inv(r)
      modifies this
      ensures Inv(r) && Continues(old(Now()), Now()) && invoked == old(invoked)
      ensures table == old(table) + Fresh(interests, old(nextId)) && nextId == old(nextId) + |interests|
      ensures posted == old(posted) && registered == old(registered) && Woken(old(Now()), Now(), interests != [])
    {
      hide Inv;
      for k := 0 to |interests|
        invariant Inv(r) && Continues(old(Now()), Now()) && invoked == old(invoked)
        invariant table == old(table) + Fresh(interests[..k], old(nextId)) && nextId == old(nextId) + k
        invariant posted == old(posted) && registered == old(registered) && Woken(old(Now()), Now(), k > 0)
      {
        AsyncExpress(interests[k], r);
        assert Fresh(interests[..k + 1], old(nextId))
            == Fresh(interests[..k], old(nextId)) + [PendingInterest(old(nextId) + k, interests[k])];
      }
      assert interests[..|interests|] == interests;
    }

    /** ContainerWithOnEmptySignal::erase. */
    method Erase(pos: nat)
      requires pos < |table|
      modifies this`table, this`posted
      ensures table == old(table)[..pos] + old(table)[pos + 1..]
      ensures posted == old(posted) + if table == [] then 1 else 0
    {
      table := table[..pos] + table[pos + 1..];
      if table == [] {
        posted := posted + 1;
      }
    }

    /** Lines of one loop iteration for a matching entry: keep the record alive, erase it, call back. */
    method Answer(pos: nat, callback: Callback, interests: seq<I>)
      requires Valid() && pos < |table| && callback != OnTimeout
      modifies this
      ensures Valid() && Continues(old(Now()), Now()) && registered == old(registered)
      ensures table == old(table)[..pos] + old(table)[pos + 1..] + Fresh(interests, old(nextId))
      ensures nextId == old(nextId) + |interests|
      ensures invoked == old(invoked) + [Invocation(old(table)[pos].id, callback)]
      ensures posted == old(posted) + (if |old(table)| == 1 then 1 else 0) && Woken(old(Now()), Now(), interests != [])
    {
      hide Consistent, Fresh, Ids;
      var id := table[pos].id;
      AnswerBegins(table, armed, fate, invoked, nextId, pos, callback);
      Erase(pos);
      fate := fate[id := FateOf(callback)];
      invoked := invoked + [Invocation(id, callback)];
      RunCallback(interests, Answering(id));
      AnswerEnds(table, armed, fate, invoked, nextId, id);
      armed := armed - {id};  // the record is released
    }

    /** satisfyPendingInterests and nackPendingInterests. The loop visits the Interests that callbacks append
        while it runs, unless the cursor is at end() when they are appended: it then stays there. */
    method InvokeMatching(p: I -> bool, callback: Callback, script: seq<seq<I>>)
      requires Valid() && callback != OnTimeout
      modifies this
      ensures Valid() && Continues(old(Now()), Now()) && registered == old(registered)
      ensures Answered(old(Now()), Now(), p, callback, script)
      ensures posted >= old(posted) && (table == [] && old(table) != [] ==> posted > old(posted))
    {
      hide Inv, Select, Fresh, Expressed, Invocations, Pass, Progress, Cursor, Scripted;
      var pos, k := 0, 0;
      ghost var seen: seq<PendingInterest<I>>, ahead, unvisited: seq<PendingInterest<I>> := [], table, [];
      ghost var added: seq<PendingInterest<I>> := [];
      ProgressBegins(p, callback, script, nextId, table, invoked);
      while pos < |table|
        invariant Valid() && Continues(old(Now()), Now()) && registered == old(registered)
        invariant Woken(old(Now()), Now(), added != [])
        invariant Progress(p, script, old(nextId), old(table), seen, ahead, unvisited, added, k, table)
        invariant pos == Cursor(p, seen, unvisited) && nextId == old(nextId) + |added|
        invariant invoked == old(invoked) + Invocations(Select(seen, p, true), callback)
        invariant posted >= old(posted) && (table == [] && old(table) != [] ==> posted > old(posted))
        decreases if k < |script| then |script| - k else 0, |ahead|
      {
        var entry := table[pos];
        ProgressSkips(p, script, old(nextId), old(table), seen, ahead, unvisited, added, k, table);
        if p(entry.interest) {
          var interests := Scripted(script, k);
          ProgressAnswers(p, callback, script, old(nextId), old(table), seen, ahead, added, k, table, old(invoked));
          ScriptEnds(script, k, old(nextId) + |added|);
          var atEnd := pos + 1 == |table|;  // erase returns end()
          Answer(pos, callback, interests);
          if atEnd {
            pos := pos + |interests|;
          }
          ghost var more := Fresh(interests, old(nextId) + |added|);
          ahead, unvisited := if atEnd then [] else ahead[1..] + more, if atEnd then more else [];
          added := added + more;
          k := k + 1;
        } else {
          ahead := ahead[1..];
          pos := pos + 1;
        }
        seen := seen + [entry];
      }
      ProgressEnds(p, script, old(nextId), old(table), seen, ahead, unvisited, added, k, table);
    }

    method SatisfyPendingInterests(data: D, script: seq<seq<I>>)
      requires Valid()
      modifies this
      ensures Valid() && Continues(old(Now()), Now()) && registered == old(registered)
      ensures Answered(old(Now()), Now(), i => matchesData(i, data), OnData, script)
      ensures posted >= old(posted) && (table == [] && old(table) != [] ==> posted > old(posted))
    {
      InvokeMatching(i => matchesData(i, data), OnData, script);
    }

    method NackPendingInterests(nack: N, script: seq<seq<I>>)
      requires Valid()
      modifies this
      ensures Valid() && Continues(old(Now()), Now()) && registered == old(registered)
      ensures Answered(old(Now()), Now(), i => matchesNack(i, nack), OnNack, script)
      ensures posted >= old(posted) && (table == [] && old(table) != [] ==> posted > old(posted))
    {
      InvokeMatching(i => matchesNack(i, nack), OnNack, script);
    }

    /** Where an entry of the list is; the source holds an iterator to it. */
    method Locate(id: Id) returns (pos: nat)
      ensures pos <= |table| && (pos < |table| ==> table[pos].id == id)
      ensures pos == |table| <==> id !in Ids(table)
    {
      pos := 0;
      while pos < |table| && table[pos].id != id
        invariant pos <= |table| && forall i :: 0 <= i < pos ==> table[i].id != id
      {
        pos := pos + 1;
      }
    }

    /** invokeTimeoutCallback: the callback runs while the entry is still in the table, then the deleter
        erases it. */
    method InvokeTimeoutCallback(id: Id, interests: seq<I>)
      requires Valid() && id in armed
      modifies this
      ensures Valid() && Continues(old(Now()), Now()) && registered == old(registered)
      ensures Woken(old(Now()), Now(), interests != [])
      ensures invoked == old(invoked) + [Invocation(id, OnTimeout)] && id !in Ids(table)
      ensures Dropped(old(table), table, id, Fresh(interests, old(nextId))) && nextId == old(nextId) + |interests|
      ensures posted == old(posted) + if table == [] then 1 else 0
    {
      hide Consistent, Fresh, Ids;
      ghost var was, first := table, nextId;
      TimeoutBegins(table, armed, fate, invoked, nextId, id);
      armed := armed - {id};
      fate := fate[id := TimedOut];
      invoked := invoked + [Invocation(id, OnTimeout)];
      RunCallback(interests, TimingOut(id));
      var pos := Locate(id);
      TimeoutEnds(table, armed, fate, invoked, nextId, id, pos);
      FoundBefore(was, Fresh(interests, first), pos, id);
      Erase(pos);
    }

    method AsyncRemovePendingInterest(id: Id)
      requires Valid()
      modifies this
      ensures Valid() && Continues(old(Now()), Now()) && invoked == old(invoked) && nextId == old(nextId)
      ensures registered == old(registered) && Woken(old(Now()), Now(), false)
      ensures id in Ids(old(table)) ==> fate == old(fate)[id := Removed] && Dropped(old(table), table, id, [])
      ensures id !in Ids(old(table)) ==> fate == old(fate) && table == old(table)
      ensures posted == old(posted) + if table == [] then 1 else 0
    {
      hide Consistent, Ids;
      var pos := Locate(id);
      if pos < |table| {
        RemoveKeeps(table, armed, fate, invoked, nextId, pos);
        table := table[..pos] + table[pos + 1..];
        armed := armed - {id};
        fate := fate[id := Removed];
      }
      if table == [] {
        posted := posted + 1;
      }
    }

    /** ContainerWithOnEmptySignal::clear on the table: signals even if it was empty. */
    method AsyncRemoveAllPendingInterests()
      requires Valid()
      modifies this
      ensures Valid() && Continues(old(Now()), Now()) && invoked == old(invoked) && nextId == old(nextId)
      ensures table == [] && posted == old(posted) + 1
      ensures fate == Cleared(old(fate)) && registered == old(registered) && Woken(old(Now()), Now(), false)
    {
      hide Consistent;
      ClearKeeps(table, armed, fate, invoked, nextId);
      table, armed := [], {};
      fate := Cleared(fate);
      posted := posted + 1;
    }

    /** onEmptyPitOrNoRegisteredPrefixes, when the io_service gets to it: a stale one does nothing. */
    method OnPostedEmpty()
      requires Valid() && posted > 0
      modifies this
      ensures Valid() && Continues(old(Now()), Now()) && SamePending(old(Now()), Now()) && posted == old(posted) - 1
      ensures registered == old(registered) && isConnected == old(isConnected) && isConnecting == old(isConnecting)
      ensures isReceiving == (old(isReceiving) && (table != [] || registered > 0 || isConnecting))
    {
      posted := posted - 1;
      if table == [] && registered == 0 {
        Pause();
      }
    }

    method AsyncSend()
      requires Valid()
      modifies this`isConnecting, this`isReceiving
      ensures Valid() && Woken(old(Now()), Now(), true)
    {
      EnsureConnected(true);
    }

    method Connect()
      requires Valid()
      modifies this`isConnecting, this`isReceiving
      ensures Valid() && isConnecting == !isConnected && isReceiving == old(isReceiving)
    {
      EnsureConnected(false);
    }

    method RegisterPrefix()
      requires Valid()
      modifies this`registered
      ensures Valid() && registered == old(registered) + 1
    {
      registered := registered + 1;
    }

    /** The registered-prefix table is a ContainerWithOnEmptySignal as well. */
    method FinalizeUnregisterPrefix()
      requires Valid() && registered > 0
      modifies this`registered, this`posted
      ensures Valid() && registered == old(registered) - 1
      ensures posted == old(posted) + if registered == 0 then 1 else 0
    {
      registered := registered - 1;
      if registered == 0 {
        posted := posted + 1;
      }
    }

    /** connectHandler without an error: receiving resumes even if it was asked for while connecting. */
    method ConnectHandler()
      requires Valid() && isConnecting
      modifies this`isConnecting, this`isConnected, this`isReceiving
      ensures Valid() && isConnected && !isConnecting && isReceiving
    {
      isConnecting := false;
      Resume();
      isConnected := true;
    }

    /** Transport::close, before the error is thrown. Unless the exception reaches processEvents, pending
        Interests are left without a transport that receives. */
    method CloseTransport()
      requires Valid()
      modifies this`isConnected, this`isConnecting, this`isReceiving
      ensures !isConnected && !isConnecting && !isReceiving
      ensures Consistent(table, armed, fate, invoked, nextId, Idle) && (Valid() <==> table == [])
    {
      isConnecting, isConnected, isReceiving := false, false, false;
    }

    /** The transport closes and throws; the exception reaches processEvents, which clears both tables. */
    method Fail()
      requires Valid()
      modifies this
      ensures Valid() && Continues(old(Now()), Now()) && invoked == old(invoked) && nextId == old(nextId)
      ensures table == [] && registered == 0 && posted == old(posted) + 2 && fate == Cleared(old(fate))
      ensures !isConnected && !isConnecting && !isReceiving
    {
      hide Consistent;
      CloseTransport();
      ClearTables();
    }

    /** asyncShutdown: an attempt to connect is not abandoned. */
    method AsyncShutdown()
      requires Valid()
      modifies this
      ensures Valid() && Continues(old(Now()), Now()) && invoked == old(invoked) && nextId == old(nextId)
      ensures table == [] && registered == 0 && posted == old(posted) + 2 && fate == Cleared(old(fate))
      ensures !isConnected && isConnecting == old(isConnecting)
      ensures isReceiving == (old(isReceiving) && !old(isConnected))
    {
      ClearTables();
      if isConnected {
        isConnected, isReceiving := false, false;
      }
    }

    method ClearTables()
      requires Consistent(table, armed, fate, invoked, nextId, Idle) && !(isConnected && isConnecting)
      modifies this`table, this`armed, this`fate, this`registered, this`posted
      ensures Valid() && Continues(old(Now()), Now())
      ensures table == [] && registered == 0 && posted == old(posted) + 2 && fate == Cleared(old(fate))
    {
      hide Consistent;
      ClearKeeps(table, armed, fate, invoked, nextId);
      table, armed, fate, posted := [], {}, Cleared(fate), posted + 1;
      registered, posted := 0, posted + 1;
    }

    // ---- the io_service ----

    /** What each event does to the pending Interests and to the transport. The io_service has no timer to run
        that is not armed, and nothing to run that was not posted. */
    ghost predicate Effect(e: Event<I, D, N>, s: State<I>, t: State<I>)
    {
      match e
      case Express(i) =>
        && t.table == s.table + [PendingInterest(s.nextId, i)] && t.nextId == s.nextId + 1
        && t.invoked == s.invoked && Woken(s, t, true) && SameSignals(s, t)
      case ReceiveData(data, script) =>
        Answered(s, t, i => matchesData(i, data), OnData, script) && Signalled(s, t)
      case ReceiveNack(nack, script) =>
        Answered(s, t, i => matchesNack(i, nack), OnNack, script) && Signalled(s, t)
      case TimerExpires(id, interests) =>
        if id !in s.armed then t == s
        else
          && Dropped(s.table, t.table, id, Fresh(interests, s.nextId)) && t.nextId == s.nextId + |interests|
          && t.invoked == s.invoked + [Invocation(id, OnTimeout)] && Woken(s, t, interests != [])
          && t.registered == s.registered && t.posted == s.posted + if t.table == [] then 1 else 0
      case RemovePending(id) =>
        && t.invoked == s.invoked && t.nextId == s.nextId && Woken(s, t, false)
        && (if id in Ids(s.table) then Dropped(s.table, t.table, id, []) && t.fate == s.fate[id := Removed]
            else t.table == s.table && t.fate == s.fate)
        && t.registered == s.registered && t.posted == s.posted + if t.table == [] then 1 else 0
      case RemoveAllPending =>
        Emptied(s, t) && Woken(s, t, false) && t.registered == s.registered && t.posted == s.posted + 1
      case PostedEmpty =>
        if s.posted == 0 then t == s
        else
          && SamePending(s, t) && t.isConnected == s.isConnected && t.isConnecting == s.isConnecting
          && t.isReceiving == (s.isReceiving && (s.table != [] || s.registered > 0 || s.isConnecting))
          && t.registered == s.registered && t.posted == s.posted - 1
      case PrefixRegistered =>
        SamePending(s, t) && Woken(s, t, false) && t.registered == s.registered + 1 && t.posted == s.posted
      case PrefixUnregistered =>
        if s.registered == 0 then t == s
        else
          && SamePending(s, t) && Woken(s, t, false) && t.registered == s.registered - 1
          && t.posted == s.posted + if s.registered == 1 then 1 else 0
      case Send => SamePending(s, t) && Woken(s, t, true) && SameSignals(s, t)
      case ConnectStart =>
        && SamePending(s, t) && SameSignals(s, t) && t.isConnected == s.isConnected
        && t.isConnecting == !s.isConnected && t.isReceiving == s.isReceiving
      case ConnectDone =>
        if !s.isConnecting then t == s
        else SamePending(s, t) && SameSignals(s, t) && t.isConnected && !t.isConnecting && t.isReceiving
      case TransportError =>
        if !s.isConnecting && !s.isConnected then t == s
        else
          && Emptied(s, t) && !t.isConnected && !t.isConnecting && !t.isReceiving
          && t.registered == 0 && t.posted == s.posted + 2
      case Shutdown =>
        && Emptied(s, t) && !t.isConnected && t.isConnecting == s.isConnecting
        && t.isReceiving == (s.isReceiving && !s.isConnected) && t.registered == 0 && t.posted == s.posted + 2
    }

    method Handle(e: Event<I, D, N>)
      requires Valid()
      modifies this
      ensures Valid() && Continues(old(Now()), Now()) && Effect(e, old(Now()), Now())
    {
      hide Consistent, Inv, Continues, Answered, Dropped, Cleared, Fresh, Ids, Select, Pass, Invocations;
      ghost var was := Now();
      match e {
        case Express(i) => AsyncExpress(i, Idle);
        case ReceiveData(data, script) => SatisfyPendingInterests(data, script);
        case ReceiveNack(nack, script) => NackPendingInterests(nack, script);
        case TimerExpires(id, interests) =>
          if id in armed {
            InvokeTimeoutCallback(id, interests);
          }
        case RemovePending(id) => AsyncRemovePendingInterest(id);
        case RemoveAllPending => AsyncRemoveAllPendingInterests();
        case PostedEmpty =>
          if posted > 0 {
            OnPostedEmpty();
          }
        case PrefixRegistered => RegisterPrefix();
        case PrefixUnregistered =>
          if registered > 0 {
            FinalizeUnregisterPrefix();
          }
        case Send => AsyncSend();
        case ConnectStart => Connect();
        case ConnectDone =>
          if isConnecting {
            ConnectHandler();
          }
        case TransportError =>
          if isConnecting || isConnected {
            Fail();
          }
        case Shutdown => AsyncShutdown();
      }
      SameContinues(was, Now());
    }

    /** Conservation over all runs: whatever the io_service runs, in whatever order, with whatever its
        callbacks express, each event has its effect on what the earlier ones left, the invariant holds
        throughout, and no fate or callback is ever revised. */
    method Run(events: seq<Event<I, D, N>>) returns (ghost states: seq<State<I>>)
      requires Valid()
      modifies this
      ensures Valid() && Continues(old(Now()), Now())
      ensures |states| == |events| + 1 && states[0] == old(Now()) && states[|events|] == Now()
      ensures forall k :: 0 <= k < |events| ==> Effect(events[k], states[k], states[k + 1])
      ensures forall s <- states :: Accounted(s)
    {
      hide Effect, Consistent;
      states := [Now()];
      for k := 0 to |events|
        invariant Valid() && Continues(old(Now()), Now())
        invariant |states| == k + 1 && states[0] == old(Now()) && states[k] == Now()
        invariant forall j :: 0 <= j < k ==> Effect(events[j], states[j], states[j + 1])
        invariant forall s <- states :: Accounted(s)
      {
        Handle(events[k]);
        states := states + [Now()];
      }
    }
  }
}
