/** Prefixes, handlers and notification streams of the management dispatcher (src/mgmt/dispatcher.cpp). */
module Dispatching {
  import opened Results
  import opened Octets
  import opened NameComponents
  import opened Names

  /** A record in the Face's list of Interest filters: the handler of `rel` under `top`. */
  datatype Filter = Filter(top: Name, rel: Name) {
    function FullPrefix(): Name
    {
      top + rel
    }
  }

  datatype TopPrefixEntry = TopPrefixEntry(wantRegister: bool, interestFilters: seq<Filter>)

  datatype Error = OutOfRange | DomainError

  /** One posted notification: the stream it went to and its sequence number. */
  datatype Notification = Notification(streamName: Name, number: nat) {
    /** The name of its Data packet. */
    function DataName(): Name
    {
      streamName + [FromNumberWithMarker(SEQUENCE_NUMBER_MARKER, number)]
    }
  }

  datatype Call =
    | AddTopPrefix(prefix: Name, wantRegister: bool)
    | RemoveTopPrefix(prefix: Name)
    | AddHandler(rel: Name)
    | AddStream(rel: Name)
    | Post(rel: Name)

  /** A dispatcher between two calls. */
  datatype State = State(topPrefixes: map<Name, TopPrefixEntry>, handlers: set<Name>, streams: map<Name, nat>,
                         filters: multiset<Filter>, posted: seq<Name>)

  /** What each call does: a prefix in front of or behind another is refused, as is a handler while there are
      top prefixes; a notification goes out under a lone top prefix. */
  ghost predicate Effect(call: Call, s: State, t: State)
  {
    match call
    case AddTopPrefix(prefix, wantRegister) =>
      if exists u <- s.topPrefixes :: u <= prefix || prefix <= u then t == s
      else
        && t == s.(topPrefixes := t.topPrefixes, filters := t.filters)
        && t.topPrefixes.Keys == s.topPrefixes.Keys + {prefix}
        && (forall u <- s.topPrefixes :: t.topPrefixes[u] == s.topPrefixes[u])
        && t.topPrefixes[prefix].wantRegister == wantRegister
        && t.filters == s.filters + multiset(set r | r in s.handlers :: Filter(prefix, r))
    case RemoveTopPrefix(prefix) =>
      && t == s.(topPrefixes := s.topPrefixes - {prefix}, filters := t.filters)
      && (forall f: Filter :: t.filters[f] == if f.top == prefix then 0 else s.filters[f])
    case AddHandler(rel) => t == if Refuses(s, rel) then s else s.(handlers := s.handlers + {rel})
    case AddStream(rel) =>
      t == if Refuses(s, rel) then s else s.(handlers := s.handlers + {rel}, streams := s.streams[rel := 0])
    case Post(rel) =>
      if rel !in s.handlers || |s.topPrefixes| != 1 then t == s
      else exists top <- s.topPrefixes ::
        var number := if top + rel in s.streams then s.streams[top + rel] else 0;
        t == s.(posted := s.posted + [top + rel + [FromNumberWithMarker(0xFE, number)]],
                streams := s.streams[top + rel := (number + 1) % 0x1_0000_0000_0000_0000])
  }

  ghost predicate Refuses(s: State, rel: Name)
  {
    s.topPrefixes != map[] || exists h <- s.handlers + s.streams.Keys :: h <= rel || rel <= h
  }

  predicate Comparable(a: Name, b: Name)
  {
    a <= b || b <= a
  }

  lemma SelfComparable(a: Name)
    ensures Comparable(a, a)
  {
  }

  ghost predicate PrefixFree(names: set<Name>)
  {
    forall a, b :: a in names && b in names && Comparable(a, b) ==> a == b
  }

  ghost function Row(top: Name, rels: set<Name>): set<Filter>
  {
    set r | r in rels :: Filter(top, r)
  }

  /** Every relative prefix under every top prefix. */
  ghost function Products(tops: set<Name>, rels: set<Name>): set<Filter>
  {
    set t, r | t in tops && r in rels :: Filter(t, r)
  }

  /** Every top prefix remembers exactly its own filters. */
  ghost predicate Remembered(tops: map<Name, TopPrefixEntry>, rels: set<Name>)
  {
    forall t <- tops :: multiset(tops[t].interestFilters) == multiset(Row(t, rels))
  }

  /** How many notifications went to a stream. */
  function PostsTo(history: seq<Notification>, streamName: Name): nat
  {
    if history == [] then 0
    else
      var last := |history| - 1;
      PostsTo(history[..last], streamName) + if history[last].streamName == streamName then 1 else 0
  }

  /** Each notification is numbered, modulo 2^64, by the earlier ones of its stream. */
  ghost predicate Numbered(history: seq<Notification>)
  {
    forall k :: 0 <= k < |history| ==>
      history[k].number == PostsTo(history[..k], history[k].streamName) % (U64_MAX + 1)
  }

  /** Each counter is, modulo 2^64, the number of all notifications of its stream. */
  ghost predicate Counted(history: seq<Notification>, streams: map<Name, nat>)
  {
    && (forall n <- history :: n.streamName in streams)
    && (forall s <- streams :: streams[s] == PostsTo(history, s) % (U64_MAX + 1))
  }

  /** The posted names are those of the history. */
  ghost predicate Posts(posted: seq<Name>, history: seq<Notification>, streams: map<Name, nat>)
  {
    && |posted| == |history| && (forall k :: 0 <= k < |posted| ==> posted[k] == history[k].DataName())
    && Numbered(history) && Counted(history, streams)
  }

  /** The keys of m_streams are the relative prefixes of streams and the full names of streams posted to. */
  ghost predicate StreamKeys(streams: map<Name, nat>, streamRels: set<Name>, history: seq<Notification>,
                             handlers: set<Name>)
  {
    && streamRels <= handlers && streamRels <= streams.Keys
    && (forall s <- streams :: s in streamRels || exists n <- history :: n.streamName == s)
    && (forall n <- history :: n.streamName in streams)
  }

  // ---- filters ----

  lemma RowGrows(top: Name, rels: set<Name>, rel: Name)
    requires rel !in rels
    ensures multiset(Row(top, rels + {rel})) == multiset(Row(top, rels)) + multiset{Filter(top, rel)}
  {
    assert Row(top, rels + {rel}) == Row(top, rels) + {Filter(top, rel)};
  }

  lemma AddTop(tops: map<Name, TopPrefixEntry>, rels: set<Name>, prefix: Name, entry: TopPrefixEntry)
    requires PrefixFree(tops.Keys) && Remembered(tops, rels) && forall t <- tops :: !Comparable(t, prefix)
    requires multiset(entry.interestFilters) == multiset(Row(prefix, rels))
    ensures prefix !in tops && PrefixFree(tops[prefix := entry].Keys) && Remembered(tops[prefix := entry], rels)
    ensures multiset(Products(tops[prefix := entry].Keys, rels))
         == multiset(Products(tops.Keys, rels)) + multiset(Row(prefix, rels))
  {
    assert prefix in tops ==> Comparable(prefix, prefix);
    assert Products(tops[prefix := entry].Keys, rels) == Products(tops.Keys, rels) + Row(prefix, rels);
    assert Products(tops.Keys, rels) !! Row(prefix, rels);
  }

  /** The loop of removeTopPrefix: each record remembered is taken off the Face's list. */
  method Unset(filters: multiset<Filter>, ids: seq<Filter>) returns (left: multiset<Filter>)
    ensures left == filters - multiset(ids)
  {
    left := filters;
    for k := 0 to |ids|
      invariant left == filters - multiset(ids[..k])
    {
      assert ids[..k + 1] == ids[..k] + [ids[k]];
      left := left - multiset{ids[k]};
    }
    assert ids[..|ids|] == ids;
  }

  lemma RemoveTop(tops: map<Name, TopPrefixEntry>, rels: set<Name>, prefix: Name)
    requires PrefixFree(tops.Keys) && Remembered(tops, rels) && prefix in tops
    ensures (tops - {prefix}).Keys == tops.Keys - {prefix}
    ensures PrefixFree((tops - {prefix}).Keys) && Remembered(tops - {prefix}, rels)
    ensures multiset(Products(tops.Keys, rels)) - multiset(tops[prefix].interestFilters)
         == multiset(Products((tops - {prefix}).Keys, rels))
  {
    RemoveRow(tops.Keys, rels, prefix);
  }

  lemma RemoveRow(tops: set<Name>, rels: set<Name>, prefix: Name)
    requires prefix in tops
    ensures multiset(Products(tops, rels)) - multiset(Row(prefix, rels)) == multiset(Products(tops - {prefix}, rels))
  {
    assert Products(tops, rels) == Products(tops - {prefix}, rels) + Row(prefix, rels);
    assert Products(tops - {prefix}, rels) !! Row(prefix, rels);
  }

  lemma OthersStay(tops: set<Name>, rels: set<Name>, prefix: Name)
    ensures forall f: Filter :: multiset(Products(tops - {prefix}, rels))[f] ==
                                if f.top == prefix then 0 else multiset(Products(tops, rels))[f]
  {
  }

  /** At most one handler per Interest: any name is matched by at most one installed filter. */
  lemma AtMostOneHandler(filters: multiset<Filter>, tops: set<Name>, rels: set<Name>, name: Name, a: Filter, b: Filter)
    requires PrefixFree(tops) && PrefixFree(rels) && filters == multiset(Products(tops, rels))
    requires a in filters && b in filters && a.FullPrefix() <= name && b.FullPrefix() <= name
    ensures a == b && filters[a] == 1
  {
    PrefixesCompare(a.top, a.rel, b.top, b.rel, name);
  }

  lemma PrefixesCompare(t: Name, r: Name, u: Name, s: Name, name: Name)
    requires t + r <= name && u + s <= name
    ensures Comparable(t, u) && (t == u ==> Comparable(r, s))
  {
    assert t <= t + r && u <= u + s;
    if t == u {
      assert r == (t + r)[|t|..] <= name[|t|..];
      assert s == (u + s)[|u|..] <= name[|t|..];
    }
  }

  // ---- notifications ----

  lemma StreamPosted(streams: map<Name, nat>, streamRels: set<Name>, history: seq<Notification>, handlers: set<Name>,
                     n: Notification, counter: nat)
    requires StreamKeys(streams, streamRels, history, handlers)
    ensures StreamKeys(streams[n.streamName := counter], streamRels, history + [n], handlers)
  {
    var later := streams[n.streamName := counter];
    forall s | s in later && s !in streamRels
      ensures exists m <- history + [n] :: m.streamName == s
    {
      if s == n.streamName {
        assert n in history + [n];
      } else {
        var m :| m in history && m.streamName == s;
        assert m in history + [n];
      }
    }
    assert forall m <- history + [n] :: m in history || m == n;
  }

  /** Without an overlapping handler, what overlaps among the streams was posted to. */
  lemma RefusedForPosts(streams: map<Name, nat>, streamRels: set<Name>, history: seq<Notification>, handlers: set<Name>,
                        rel: Name)
    requires StreamKeys(streams, streamRels, history, handlers) && forall h <- handlers :: !Comparable(h, rel)
    ensures (exists s <- streams :: Comparable(s, rel)) <==> exists n <- history :: Comparable(n.streamName, rel)
  {
    hide Comparable;
  }

  lemma {:induction false} NoPosts(history: seq<Notification>, streamName: Name)
    requires forall n <- history :: n.streamName != streamName
    ensures PostsTo(history, streamName) == 0
  {
    if history != [] {
      NoPosts(history[..|history| - 1], streamName);
    }
  }

  lemma PostsToSnoc(history: seq<Notification>, n: Notification, streamName: Name)
    ensures PostsTo(history + [n], streamName)
         == PostsTo(history, streamName) + if n.streamName == streamName then 1 else 0
  {
    assert (history + [n])[..|history|] == history;
  }

  lemma StreamBegins(posted: seq<Name>, history: seq<Notification>, streams: map<Name, nat>, rel: Name)
    requires Posts(posted, history, streams) && rel !in streams
    ensures Posts(posted, history, streams[rel := 0])
  {
    hide PostsTo, Numbered;
    NoPosts(history, rel);
  }

  lemma PostKeeps(posted: seq<Name>, history: seq<Notification>, streams: map<Name, nat>, streamName: Name, number: nat)
    requires number == if streamName in streams then streams[streamName] else 0
    requires Posts(posted, history, streams)
    ensures var n := Notification(streamName, number);
            Posts(posted + [n.DataName()], history + [n], streams[streamName := (number + 1) % (U64_MAX + 1)])
  {
    hide PostsTo, Numbered, Counted;
    var n := Notification(streamName, number);
    CounterIsNext(history, streams, n);
    CountedKeeps(history, streams, n);
    NumberedKeeps(history, n);
  }

  lemma CounterIsNext(history: seq<Notification>, streams: map<Name, nat>, n: Notification)
    requires Counted(history, streams)
    requires n.number == if n.streamName in streams then streams[n.streamName] else 0
    ensures n.number == PostsTo(history, n.streamName) % (U64_MAX + 1)
  {
    hide PostsTo;
    if n.streamName !in streams {
      NoPosts(history, n.streamName);
    }
  }

  lemma NumberedKeeps(history: seq<Notification>, n: Notification)
    requires Numbered(history) && n.number == PostsTo(history, n.streamName) % (U64_MAX + 1)
    ensures Numbered(history + [n])
  {
    hide PostsTo;
    var later := history + [n];
    forall k | 0 <= k < |later|
      ensures later[k].number == PostsTo(later[..k], later[k].streamName) % (U64_MAX + 1)
    {
      assert later[..k] == history[..k];
      assert k == |history| ==> history[..k] == history;
    }
  }

  lemma CountedKeeps(history: seq<Notification>, streams: map<Name, nat>, n: Notification)
    requires Counted(history, streams) && n.number == PostsTo(history, n.streamName) % (U64_MAX + 1)
    ensures Counted(history + [n], streams[n.streamName := (n.number + 1) % (U64_MAX + 1)])
  {
    hide PostsTo;
    var later := streams[n.streamName := (n.number + 1) % (U64_MAX + 1)];
    var before := PostsTo(history, n.streamName);
    assert (n.number + 1) % (U64_MAX + 1) == (before + 1) % (U64_MAX + 1);
    forall s | s in later
      ensures later[s] == PostsTo(history + [n], s) % (U64_MAX + 1)
    {
      PostsToSnoc(history, n, s);
    }
    forall m | m in history + [n]
      ensures m.streamName in later
    {
      assert m in history || m == n;
    }
  }

  lemma {:induction false} PostsToGrows(history: seq<Notification>, i: nat, j: nat)
    requires i < j <= |history|
    ensures PostsTo(history[..i], history[i].streamName) < PostsTo(history[..j], history[i].streamName)
    decreases j
  {
    assert history[..j][..j - 1] == history[..j - 1];
    if i < j - 1 {
      PostsToGrows(history, i, j - 1);
    }
  }

  lemma DataNameIsInjective(a: Notification, b: Notification)
    requires a.number <= U64_MAX && b.number <= U64_MAX && a.DataName() == b.DataName()
    ensures a == b
  {
    NumberWithMarkerRoundTrip(SEQUENCE_NUMBER_MARKER, a.number);
    NumberWithMarkerRoundTrip(SEQUENCE_NUMBER_MARKER, b.number);
    var name := a.DataName();
    assert a.streamName == name[..|name| - 1] && b.streamName == name[..|name| - 1];
    assert name[|name| - 1] == FromNumberWithMarker(SEQUENCE_NUMBER_MARKER, a.number);
    assert name[|name| - 1] == FromNumberWithMarker(SEQUENCE_NUMBER_MARKER, b.number);
  }

  /** As long as a stream has had at most 2^64 notifications, no two of them, and none of them and another
      stream's, share a Data name. */
  lemma DataNamesAreDistinct(posted: seq<Name>, history: seq<Notification>, streams: map<Name, nat>, i: nat, j: nat)
    requires Posts(posted, history, streams)
    ensures i < j < |posted| && PostsTo(history, history[i].streamName) <= U64_MAX + 1 ==> posted[i] != posted[j]
  {
    hide PostsTo, Counted, FromNumberWithMarker;
    if i < j < |posted| {
      var a, b := history[i], history[j];
      PostsToGrows(history, i, j);
      PostsToGrows(history, j, |history|);
      assert history[..|history|] == history;
      if a.DataName() == b.DataName() {
        DataNameIsInjective(a, b);
      }
    }
  }

  class Dispatcher {
    var topPrefixes: map<Name, TopPrefixEntry>
    var handlers: set<Name>
    var streams: map<Name, nat>
    var filters: multiset<Filter>
    var posted: seq<Name>
    ghost var history: seq<Notification>
    ghost var streamRels: set<Name>          // relative prefixes of the notification streams

    /** The installed filters are exactly the products, one record each. */
    ghost predicate Valid()
      reads this
    {
      && PrefixFree(topPrefixes.Keys) && PrefixFree(handlers)
      && filters == multiset(Products(topPrefixes.Keys, handlers)) && Remembered(topPrefixes, handlers)
      && Posts(posted, history, streams) && StreamKeys(streams, streamRels, history, handlers)
    }

    ghost function Now(): State
      reads this
    {
      State(topPrefixes, handlers, streams, filters, posted)
    }

    constructor ()
      ensures Valid() && topPrefixes == map[] && handlers == {} && posted == []
    {
      topPrefixes, handlers, streams, filters := map[], {}, map[], multiset{};
      posted, history, streamRels := [], [], {};
    }

    /** addTopPrefix: on success one more filter for every handler. */
    method AddTopPrefix(prefix: Name, wantRegister: bool) returns (error: Option<Error>)
      requires Valid()
      modifies this`topPrefixes, this`filters
      ensures Valid()
      ensures error.Some? <==> exists t <- old(topPrefixes) :: Comparable(t, prefix)
      ensures error.Some? ==> error.value == OutOfRange && topPrefixes == old(topPrefixes) && filters == old(filters)
      ensures error.None? ==>
                && prefix !in old(topPrefixes) && prefix in topPrefixes
                && topPrefixes == old(topPrefixes)[prefix := topPrefixes[prefix]]
                && topPrefixes[prefix].wantRegister == wantRegister
      ensures error.None? ==> filters == old(filters) + multiset(Row(prefix, handlers))
    {
      hide PrefixFree, Posts, Comparable, Remembered, Products, Row;
      if exists t <- topPrefixes :: Comparable(t, prefix) {
        return Some(OutOfRange);
      }
      var ids := InstallFilters(prefix);
      AddTop(topPrefixes, handlers, prefix, TopPrefixEntry(wantRegister, ids));
      topPrefixes := topPrefixes[prefix := TopPrefixEntry(wantRegister, ids)];
      return None;
    }

    /** The loop over the handlers, in any order. */
    method InstallFilters(prefix: Name) returns (ids: seq<Filter>)
      modifies this`filters
      ensures multiset(ids) == multiset(Row(prefix, handlers))
      ensures filters == old(filters) + multiset(ids)
    {
      var todo := handlers;
      ids := [];
      assert Row(prefix, handlers - todo) == {};
      while todo != {}
        invariant todo <= handlers
        invariant multiset(ids) == multiset(Row(prefix, handlers - todo))
        invariant filters == old(filters) + multiset(ids)
        decreases todo
      {
        hide Row;
        var rel :| rel in todo;
        RowGrows(prefix, handlers - todo, rel);
        assert handlers - (todo - {rel}) == (handlers - todo) + {rel};
        filters := filters + multiset{Filter(prefix, rel)};
        ids := ids + [Filter(prefix, rel)];
        todo := todo - {rel};
      }
      assert handlers - todo == handlers;
    }

    /** removeTopPrefix: its filters go, and only those. */
    method RemoveTopPrefix(prefix: Name)
      requires Valid()
      modifies this`topPrefixes, this`filters
      ensures Valid() && topPrefixes == old(topPrefixes) - {prefix}
      ensures filters == multiset(Products(old(topPrefixes).Keys - {prefix}, handlers))
      ensures forall f: Filter :: filters[f] == if f.top == prefix then 0 else old(filters)[f]
    {
      OthersStay(topPrefixes.Keys, handlers, prefix);
      hide Posts, Products, Row, PrefixFree, Remembered, Comparable;
      if prefix !in topPrefixes {
        assert topPrefixes.Keys - {prefix} == topPrefixes.Keys;
        assert topPrefixes - {prefix} == topPrefixes;
        return;
      }
      var ids := topPrefixes[prefix].interestFilters;
      RemoveTop(topPrefixes, handlers, prefix);
      filters := Unset(filters, ids);
      topPrefixes := topPrefixes - {prefix};
    }

    /** isOverlappedWithOthers. */
    predicate IsOverlappedWithOthers(rel: Name)
      reads this
    {
      (exists h <- handlers :: Comparable(h, rel)) || (exists s <- streams :: Comparable(s, rel))
    }

    predicate OverlapsHandler(rel: Name)
      reads this
    {
      exists h <- handlers :: Comparable(h, rel)
    }

    /** A stream name comparable with the prefix was posted to, under a top prefix since removed. */
    ghost predicate WasPosted(rel: Name)
      reads this
    {
      exists n <- history :: Comparable(n.streamName, rel)
    }

    /** The common part of addControlCommand, addStatusDataset and addNotificationStream: nothing is added twice,
        in front of or behind another. It refuses a prefix that overlaps no other relative prefix exactly when
        such a stream name was posted to. */
    method AddRelPrefix(rel: Name) returns (error: Option<Error>)
      requires Valid()
      modifies this`handlers
      ensures Valid()
      ensures error == if topPrefixes != map[] then Some(DomainError)
                       else if old(IsOverlappedWithOthers(rel)) then Some(OutOfRange) else None
      ensures handlers == if error.None? then old(handlers) + {rel} else old(handlers)
      ensures error.None? ==> forall h <- old(handlers) + streams.Keys :: !(h <= rel) && !(rel <= h)
      ensures topPrefixes == map[] && rel in old(handlers) + streams.Keys ==> error == Some(OutOfRange)
      ensures error == Some(OutOfRange) && !old(OverlapsHandler(rel)) <==>
                topPrefixes == map[] && !old(OverlapsHandler(rel)) && WasPosted(rel)
    {
      if !OverlapsHandler(rel) {
        RefusedForPosts(streams, streamRels, history, handlers, rel);
      }
      if topPrefixes != map[] {
        return Some(DomainError);
      }
      if IsOverlappedWithOthers(rel) {
        return Some(OutOfRange);
      }
      assert Products(topPrefixes.Keys, handlers + {rel}) == Products(topPrefixes.Keys, handlers);
      handlers := handlers + {rel};
      return None;
    }

    method AddNotificationStream(rel: Name) returns (error: Option<Error>)
      requires Valid()
      modifies this`handlers, this`streams, this`streamRels
      ensures Valid() && streamRels == if error.None? then old(streamRels) + {rel} else old(streamRels)
      ensures error == if topPrefixes != map[] then Some(DomainError)
                       else if old(IsOverlappedWithOthers(rel)) then Some(OutOfRange) else None
      ensures error.Some? ==> handlers == old(handlers) && streams == old(streams)
      ensures error.None? ==>
                handlers == old(handlers) + {rel} && streams == old(streams)[rel := 0] && rel !in old(streams)
      ensures error.None? ==> forall h <- old(handlers) + old(streams).Keys :: !(h <= rel) && !(rel <= h)
      ensures topPrefixes == map[] && rel in old(handlers) + old(streams).Keys ==> error == Some(OutOfRange)
    {
      hide PrefixFree, Products, Row, Remembered, Posts, Comparable, OverlapsHandler, WasPosted;
      SelfComparable(rel);
      error := AddRelPrefix(rel);
      if error.None? {
        StreamBegins(posted, history, streams, rel);
        streams := streams[rel := 0];
        streamRels := streamRels + {rel};
      }
    }

    /** postNotification; the counter is looked up, and created, under the full stream name. */
    method PostNotification(rel: Name)
      requires Valid() && rel in handlers
      modifies this`streams, this`posted, this`history
      ensures Valid() && old(posted) <= posted
      ensures |topPrefixes| != 1 ==> posted == old(posted) && streams == old(streams)
      ensures |topPrefixes| == 1 ==> exists top <- topPrefixes ::
                var number := if top + rel in old(streams) then old(streams)[top + rel] else 0;
                && posted == old(posted) + [top + rel + [FromNumberWithMarker(0xFE, number)]]
                && streams == old(streams)[top + rel := (number + 1) % (U64_MAX + 1)]
    {
      hide PrefixFree, Products, Row, Remembered, Posts, StreamKeys;
      if |topPrefixes| != 1 {
        return;
      }
      var top :| top in topPrefixes;
      var streamName := top + rel;
      var number := if streamName in streams then streams[streamName] else 0;
      PostKeeps(posted, history, streams, streamName, number);
      StreamPosted(streams, streamRels, history, handlers, Notification(streamName, number),
                   (number + 1) % (U64_MAX + 1));
      streams := streams[streamName := (number + 1) % (U64_MAX + 1)];
      posted := posted + [streamName + [FromNumberWithMarker(SEQUENCE_NUMBER_MARKER, number)]];
      history := history + [Notification(streamName, number)];
    }

    method Handle(call: Call)
      requires Valid()
      modifies this
      ensures Valid() && Effect(call, old(Now()), Now())
    {
      hide PrefixFree, Products, Remembered, Posts, StreamKeys, OverlapsHandler, WasPosted;
      match call {
        case AddTopPrefix(prefix, wantRegister) => var _ := AddTopPrefix(prefix, wantRegister);
        case RemoveTopPrefix(prefix) => RemoveTopPrefix(prefix);
        case AddHandler(rel) => var _ := AddRelPrefix(rel);
        case AddStream(rel) => var _ := AddNotificationStream(rel);
        case Post(rel) =>
          if rel in handlers {
            PostNotification(rel);
          }
      }
    }

    /** Over any run, each call has its effect on what the earlier ones left. */
    method Run(calls: seq<Call>) returns (ghost states: seq<State>)
      requires Valid()
      modifies this
      ensures Valid()
      ensures |states| == |calls| + 1 && states[0] == old(Now()) && states[|calls|] == Now()
      ensures forall k :: 0 <= k < |calls| ==> Effect(calls[k], states[k], states[k + 1])
    {
      hide PrefixFree, Products, Row, Remembered, Posts, StreamKeys, Effect;
      states := [Now()];
      for k := 0 to |calls|
        invariant Valid()
        invariant |states| == k + 1 && states[0] == old(Now()) && states[k] == Now()
        invariant forall j :: 0 <= j < k ==> Effect(calls[j], states[j], states[j + 1])
      {
        Handle(calls[k]);
        states := states + [Now()];
      }
    }

    /** Posting leaves a trace among the stream names that outlives the top prefix: a relative prefix
        comparable with it is then rejected although it overlaps no other relative prefix. */
    method PostingBlocksPrefixes(top: Name, rel: Name) returns (error: Option<Error>)
      requires Valid() && topPrefixes == map[] && handlers == {} && streams == map[]
      requires !Comparable(top, rel)
      modifies this
      ensures error == Some(OutOfRange) && topPrefixes == map[] && handlers == {rel}
    {
      hide PrefixFree, Products, Row, Remembered, Posts, StreamKeys, OverlapsHandler, WasPosted;
      error := AddNotificationStream(rel);
      assert error.None? && handlers == {rel};
      error := AddTopPrefix(top, false);
      assert error.None? && topPrefixes.Keys == {top};
      assert |topPrefixes| == |topPrefixes.Keys| == 1;
      PostNotification(rel);
      assert top + rel in streams;
      RemoveTopPrefix(top);
      assert topPrefixes == map[];
      assert IsOverlappedWithOthers(top) by {
        assert top <= top + rel && Comparable(top + rel, top);
      }
      error := AddRelPrefix(top);
    }
  }
}
