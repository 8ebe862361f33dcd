/** Last-timestamp records of stop-and-wait command Interests
    (src/security/command-interest-validator.cpp). Times are in nanoseconds. */
module CommandValidation {
  import opened Octets
  import opened Results

  datatype ErrorCode = NONE | TIMESTAMP_OUT_OF_GRACE | TIMESTAMP_REORDER

  datatype Record<K> = Record(keyName: K, timestamp: nat, lastRefreshed: int)

  datatype Options = Options(gracePeriod: int, maxTimestamps: int, timestampTtl: int) {
    /** The settings documented to make every command initial. */
    predicate Disabling()
    {
      maxTimestamps == 0 || timestampTtl <= 0
    }
  }

  /** What happened to the records, and when: a timestamp was accepted for a key, or the key's record was evicted
      from among the `held` then. */
  datatype LogEntry<K> =
    | Accepted(keyName: K, timestamp: nat, at: int)
    | Evicted(keyName: K, at: int, held: nat)

  /** A packet arrives, or the inner validator accepts one that arrived before. */
  datatype Event<K> =
    | Arrival(now: int)
    | InnerAccept(keyName: K, timestamp: nat, receiveTime: int, now: int)

  const MILLISECOND: int := 1_000_000

  /** The grace period check of checkTimestamp, from the timestamp in milliseconds. */
  predicate InGrace(timestamp: nat, receiveTime: int, gracePeriod: int)
  {
    var sigTime := Int64(Int64(timestamp) * MILLISECOND);
    var difference := Int64(sigTime - receiveTime);
    (if difference >= 0 then difference else Int64(-difference)) <= gracePeriod
  }

  lemma DifferenceIs(timestamp: nat, receiveTime: int)
    ensures Int64(Int64(Int64(timestamp) * MILLISECOND) - receiveTime) == Int64(timestamp * MILLISECOND - receiveTime)
  {
    hide Int64;
    Int64Drops(timestamp);
    var i: int :| timestamp == Int64(timestamp) + i * TWO64;
    var scaled := Int64(timestamp) * MILLISECOND;
    Int64Drops(scaled);
    var j: int :| scaled == Int64(scaled) + j * TWO64;
    var shift := j + i * MILLISECOND;
    assert timestamp * MILLISECOND - receiveTime == (Int64(scaled) - receiveTime) + shift * TWO64;
    Int64Congruent(Int64(scaled) - receiveTime, shift);
  }

  /** The check passes distances that are, modulo 2^64, within the grace period, or exactly 2^63. */
  lemma GraceMeans(timestamp: nat, receiveTime: int, gracePeriod: int)
    requires 0 <= gracePeriod < TWO63
    ensures var rest := (timestamp * MILLISECOND - receiveTime) % TWO64;
            InGrace(timestamp, receiveTime, gracePeriod) <==>
              rest <= gracePeriod || rest >= TWO64 - gracePeriod || rest == TWO63
  {
    hide Int64;
    var distance := timestamp * MILLISECOND - receiveTime;
    DifferenceIs(timestamp, receiveTime);
    Int64Cases(distance);
    Int64Cases(TWO63);
  }

  /** The check is exact if and only if the distance fits 64 bits, or what remains of it modulo 2^64 is neither
      within the grace period nor 2^63, whose negation wraps around. */
  lemma GraceIsExactIff(timestamp: nat, receiveTime: int, gracePeriod: int)
    requires 0 <= gracePeriod < TWO63
    ensures var distance := timestamp * MILLISECOND - receiveTime;
            var rest := distance % TWO64;
            (InGrace(timestamp, receiveTime, gracePeriod) <==> Abs(distance) <= gracePeriod) <==>
              (-TWO63 < distance < TWO63 || (gracePeriod < rest < TWO64 - gracePeriod && rest != TWO63))
  {
    hide InGrace;
    GraceMeans(timestamp, receiveTime, gracePeriod);
  }

  /** Received in July 2017: timestamps some 9.1 and 4.6 million years ahead pass, the first a grace period of
      two minutes, the second one of zero. */
  lemma FarTimestampsPass()
    ensures InGrace(0x400_0000_0000_0000 + 1_500_000_000_000, 1_500_000_000_000_000_000, 120_000_000_000)
    ensures InGrace(0x200_0000_0000_0000 + 1_500_000_000_000, 1_500_000_000_000_000_000, 0)
  {
    hide InGrace;
    GraceMeans(0x400_0000_0000_0000 + 1_500_000_000_000, 1_500_000_000_000_000_000, 120_000_000_000);
    GraceMeans(0x200_0000_0000_0000 + 1_500_000_000_000, 1_500_000_000_000_000_000, 0);
  }

  lemma FarTimestampPasses(timestamp: nat, receiveTime: int, gracePeriod: int)
    ensures InGrace(timestamp + 0x400_0000_0000_0000, receiveTime, gracePeriod)
       <==> InGrace(timestamp, receiveTime, gracePeriod)
  {
    hide Int64;
    DifferenceIs(timestamp, receiveTime);
    DifferenceIs(timestamp + 0x400_0000_0000_0000, receiveTime);
    Int64Congruent(timestamp * MILLISECOND - receiveTime, 15625);
  }

  function FindKey<K(==)>(queue: seq<Record<K>>, key: K): (i: nat)
    ensures i <= |queue| && (i < |queue| ==> queue[i].keyName == key)
    ensures forall j :: 0 <= j < i ==> queue[j].keyName != key
  {
    if queue == [] || queue[0].keyName == key then 0 else 1 + FindKey(queue[1..], key)
  }

  ghost predicate UniqueKeys<K(!new)>(queue: seq<Record<K>>)
  {
    forall i, j :: 0 <= i < j < |queue| ==> queue[i].keyName != queue[j].keyName
  }

  /** Oldest first. */
  ghost predicate ByRefreshTime<K(!new)>(queue: seq<Record<K>>)
  {
    forall i, j :: 0 <= i < j < |queue| ==> queue[i].lastRefreshed <= queue[j].lastRefreshed
  }

  /** The last acceptance for a key, unless its record was evicted since. */
  ghost function Last<K>(log: seq<LogEntry<K>>, key: K): (e: Option<LogEntry<K>>)
    ensures e.Some? ==> e.value.Accepted? && e.value.keyName == key
  {
    if log == [] then None
    else
      var e := log[|log| - 1];
      if e.keyName != key then Last(log[..|log| - 1], key)
      else if e.Accepted? then Some(e) else None
  }

  /** Every accepted timestamp exceeds the last one accepted for its key since the last eviction. */
  ghost predicate Increasing<K(!new)>(log: seq<LogEntry<K>>)
  {
    forall j :: 0 <= j < |log| && log[j].Accepted? ==>
      var last := Last(log[..j], log[j].keyName);
      last.Some? ==> last.value.timestamp < log[j].timestamp
  }

  /** A record was only ever evicted when it had not been refreshed within its lifetime, or more records were
      held than the limit allows. */
  ghost predicate Justified<K(!new)>(log: seq<LogEntry<K>>, options: Options)
  {
    forall j :: 0 <= j < |log| && log[j].Evicted? ==>
      var last := Last(log[..j], log[j].keyName);
      && last.Some?
      && (last.value.at <= log[j].at - options.timestampTtl
          || (options.maxTimestamps >= 0 && log[j].held > options.maxTimestamps))
  }

  /** The queue holds exactly the keys with a last acceptance, with its timestamp and time. */
  ghost predicate Records<K(!new)>(queue: seq<Record<K>>, log: seq<LogEntry<K>>)
  {
    && (forall r <- queue :: Last(log, r.keyName) == Some(Accepted(r.keyName, r.timestamp, r.lastRefreshed)))
    && (forall key: K :: Last(log, key).Some? ==> exists r <- queue :: r.keyName == key)
  }

  ghost predicate Sound<K(!new)>(queue: seq<Record<K>>, log: seq<LogEntry<K>>, clock: int, options: Options)
  {
    && UniqueKeys(queue) && ByRefreshTime(queue)
    && (forall r <- queue :: r.lastRefreshed <= clock)
    && Records(queue, log) && Increasing(log) && Justified(log, options)
  }

  lemma LaterIsSound<K(!new)>(queue: seq<Record<K>>, log: seq<LogEntry<K>>, clock: int, now: int, options: Options)
    requires Sound(queue, log, clock, options) && clock <= now
    ensures Sound(queue, log, now, options)
  {
    hide Last, Increasing, Justified;
  }

  lemma LastOfSnoc<K(!new)>(log: seq<LogEntry<K>>, e: LogEntry<K>, key: K)
    ensures Last(log + [e], key) ==
              if e.keyName != key then Last(log, key) else if e.Accepted? then Some(e) else None
  {
    assert (log + [e])[..|log|] == log;
  }

  lemma IncreasingSnoc<K(!new)>(log: seq<LogEntry<K>>, e: LogEntry<K>)
    requires Increasing(log)
    requires e.Accepted? && Last(log, e.keyName).Some? ==> Last(log, e.keyName).value.timestamp < e.timestamp
    ensures Increasing(log + [e])
  {
    var l := log + [e];
    forall j | 0 <= j < |l| && l[j].Accepted?
      ensures var last := Last(l[..j], l[j].keyName); last.Some? ==> last.value.timestamp < l[j].timestamp
    {
      assert l[..j] == log[..j];
      if j == |log| {
        assert log[..j] == log;
      }
    }
  }

  lemma JustifiedSnoc<K(!new)>(log: seq<LogEntry<K>>, e: LogEntry<K>, options: Options)
    requires Justified(log, options)
    requires e.Evicted? ==>
               var last := Last(log, e.keyName);
               && last.Some?
               && (last.value.at <= e.at - options.timestampTtl
                   || (options.maxTimestamps >= 0 && e.held > options.maxTimestamps))
    ensures Justified(log + [e], options)
  {
    hide Last;
    var l := log + [e];
    forall j | 0 <= j < |l|
      ensures l[..j] == log[..j]
    {
    }
    assert log[..|log|] == log;
  }

  /** Without an eviction of the key in between, later accepted timestamps are greater. */
  lemma {:induction false} IncreasingPairs<K(!new)>(log: seq<LogEntry<K>>, i: nat, j: nat)
    requires Increasing(log) && i < j < |log|
    requires log[i].Accepted? && log[j].Accepted? && log[i].keyName == log[j].keyName
    requires forall k :: i < k < j ==> !(log[k].Evicted? && log[k].keyName == log[i].keyName)
    ensures log[i].timestamp < log[j].timestamp
  {
    LastSince(log, i, j);
  }

  lemma {:induction false} LastSince<K(!new)>(log: seq<LogEntry<K>>, i: nat, j: nat)
    requires Increasing(log) && i < j <= |log| && log[i].Accepted?
    requires forall k :: i < k < j ==> !(log[k].Evicted? && log[k].keyName == log[i].keyName)
    ensures Last(log[..j], log[i].keyName).Some?
    ensures Last(log[..j], log[i].keyName).value.timestamp >= log[i].timestamp
    decreases j
  {
    assert log[..j][..j - 1] == log[..j - 1];
    if j - 1 > i {
      LastSince(log, i, j - 1);
    }
  }

  lemma {:induction false} LastIsLatest<K(!new)>(log: seq<LogEntry<K>>, key: K)
    ensures Last(log, key).Some? ==>
              exists a :: 0 <= a < |log| && log[a] == Last(log, key).value
                          && forall b :: a < b < |log| ==> log[b].keyName != key
  {
    if log != [] && log[|log| - 1].keyName != key {
      LastIsLatest(log[..|log| - 1], key);
    }
  }

  /** A command that is not newer than one accepted before under its key is refused, unless the record was
      evicted in between: after the latest refresh its lifetime had run out, or the size limit pushed it out. */
  lemma ReplayNeedsEviction<K(!new)>(log: seq<LogEntry<K>>, options: Options, i: nat, j: nat)
    requires Increasing(log) && Justified(log, options) && i < j < |log|
    requires log[i].Accepted? && log[j].Accepted? && log[i].keyName == log[j].keyName
    requires log[j].timestamp <= log[i].timestamp
    ensures exists a, k :: i <= a < k < j && log[a].Accepted? && log[k].Evicted?
                           && log[a].keyName == log[k].keyName == log[i].keyName
                           && (forall b :: a < b < k ==> log[b].keyName != log[i].keyName)
                           && (log[a].at <= log[k].at - options.timestampTtl
                               || (options.maxTimestamps >= 0 && log[k].held > options.maxTimestamps))
  {
    hide Last, Increasing;
    var key := log[i].keyName;
    if forall k :: i < k < j ==> !(log[k].Evicted? && log[k].keyName == key) {
      IncreasingPairs(log, i, j);
    }
    var k :| i < k < j && log[k].Evicted? && log[k].keyName == key;
    LastIsLatest(log[..k], key);
    var a :| 0 <= a < |log[..k]| && log[..k][a] == Last(log[..k], key).value
             && forall b :: a < b < |log[..k]| ==> log[..k][b].keyName != key;
    assert log[..k][i].keyName == key;
    forall b | a < b < k
      ensures log[b].keyName != key
    {
      assert log[..k][b] == log[b];
    }
  }

  /** Since the last cleanup, when the log had `mark` entries, nothing was evicted, the queue has outgrown the
      limit by no more than what was accepted, and options that disable records had emptied it. */
  ghost predicate Since<K(!new)>(queue: seq<Record<K>>, log: seq<LogEntry<K>>, mark: nat, options: Options)
  {
    && mark <= |log| && (forall j :: mark <= j < |log| ==> log[j].Accepted?)
    && (options.maxTimestamps >= 0 ==> |queue| <= options.maxTimestamps + |log| - mark)
    && (options.Disabling() ==> forall key: K :: Last(log[..mark], key).None?)
  }

  lemma {:induction false} LastSinceMark<K(!new)>(log: seq<LogEntry<K>>, mark: nat, key: K)
    requires mark <= |log| && (forall j :: mark <= j < |log| ==> log[j].Accepted?) && Last(log[..mark], key).None?
    ensures Last(log, key).Some? <==> exists j :: mark <= j < |log| && log[j].keyName == key
    decreases |log|
  {
    if |log| == mark {
      assert log[..mark] == log;
    } else {
      var n := |log| - 1;
      assert log[..n][..mark] == log[..mark];
      LastSinceMark(log[..n], mark, key);
    }
  }

  /** With a limit of zero, or a lifetime that is not positive, a command is not always processed as initial, as
      the documentation of both options has it, but exactly when no command of its key was accepted since the
      last arrival. */
  lemma InitialIffNotAcceptedSince<K(!new)>(queue: seq<Record<K>>, log: seq<LogEntry<K>>, clock: int, mark: nat,
                                            options: Options, key: K)
    requires Sound(queue, log, clock, options) && Since(queue, log, mark, options) && options.Disabling()
    ensures FindKey(queue, key) == |queue| <==> !exists j :: mark <= j < |log| && log[j].keyName == key
  {
    hide Last, Increasing;
    LastSinceMark(log, mark, key);
    if FindKey(queue, key) < |queue| {
      assert queue[FindKey(queue, key)] in queue;
    }
  }

  lemma CleanedUp<K(!new)>(queue: seq<Record<K>>, log: seq<LogEntry<K>>, clock: int, options: Options)
    requires Sound(queue, log, clock, options) && (options.maxTimestamps >= 0 ==> |queue| <= options.maxTimestamps)
    requires forall r <- queue :: r.lastRefreshed > clock - options.timestampTtl
    ensures Since(queue, log, |log|, options)
  {
    hide Last, Increasing;
    assert log[..|log|] == log;
    assert queue != [] ==> queue[0] in queue;
  }

  lemma AcceptedSince<K(!new)>(queue: seq<Record<K>>, log: seq<LogEntry<K>>, mark: nat, options: Options,
                               later: seq<Record<K>>, e: LogEntry<K>)
    requires Since(queue, log, mark, options) && |later| <= |queue| + 1 && e.Accepted?
    ensures Since(later, log + [e], mark, options)
  {
    hide Last;
    assert (log + [e])[..mark] == log[..mark];
  }

  /** The queue without the record of a key. */
  function Others<K(==)>(queue: seq<Record<K>>, key: K): seq<Record<K>>
  {
    var i := FindKey(queue, key);
    if i == |queue| then queue else queue[..i] + queue[i + 1..]
  }

  function Abs(x: int): int
  {
    if x < 0 then -x else x
  }

  /** When the oldest record is not expired, none is. */
  lemma NoneExpired<K(!new)>(queue: seq<Record<K>>, log: seq<LogEntry<K>>, clock: int, options: Options,
                             expiring: int)
    requires Sound(queue, log, clock, options) && (queue != [] ==> queue[0].lastRefreshed > expiring)
    ensures forall r <- queue :: r.lastRefreshed > expiring
  {
    forall r | r in queue
      ensures r.lastRefreshed > expiring
    {
      var i :| 0 <= i < |queue| && queue[i] == r;
      assert i == 0 || queue[0].lastRefreshed <= queue[i].lastRefreshed;
    }
  }

  lemma PopKeeps<K(!new)>(queue: seq<Record<K>>, log: seq<LogEntry<K>>, clock: int, options: Options)
    requires queue != [] && Sound(queue, log, clock, options)
    requires queue[0].lastRefreshed <= clock - options.timestampTtl
             || (options.maxTimestamps >= 0 && |queue| > options.maxTimestamps)
    ensures Sound(queue[1..], log + [Evicted(queue[0].keyName, clock, |queue|)], clock, options)
  {
    hide Last, Increasing, Justified;
    var e := Evicted(queue[0].keyName, clock, |queue|);
    assert queue[0] in queue;
    IncreasingSnoc(log, e);
    JustifiedSnoc(log, e, options);
    forall key: K
      ensures Last(log + [e], key) == if key == queue[0].keyName then None else Last(log, key)
    {
      LastOfSnoc(log, e, key);
    }
    forall key: K | Last(log + [e], key).Some?
      ensures exists r <- queue[1..] :: r.keyName == key
    {
      var r :| r in queue && r.keyName == key;
      assert queue == [queue[0]] + queue[1..];
      assert r in queue[1..];
    }
  }

  function Acceptance<K>(r: Record<K>): LogEntry<K>
  {
    Accepted(r.keyName, r.timestamp, r.lastRefreshed)
  }

  lemma NewKeeps<K(!new)>(queue: seq<Record<K>>, log: seq<LogEntry<K>>, r: Record<K>, options: Options)
    requires Sound(queue, log, r.lastRefreshed, options) && FindKey(queue, r.keyName) == |queue|
    ensures Sound(queue + [r], log + [Acceptance(r)], r.lastRefreshed, options)
  {
    hide Last, Increasing, Justified;
    assert Last(log, r.keyName).None?;
    JustifiedSnoc(log, Acceptance(r), options);
    AcceptKeeps(queue, queue, log, r);
    AppendKeepsOrder(queue, r);
  }

  lemma SetAside<K(!new)>(queue: seq<Record<K>>, i: nat)
    requires UniqueKeys(queue) && ByRefreshTime(queue) && i < |queue|
    ensures var others := queue[..i] + queue[i + 1..];
            && UniqueKeys(others) && ByRefreshTime(others)
            && forall o :: o in others <==> o in queue && o.keyName != queue[i].keyName
  {
    var others := queue[..i] + queue[i + 1..];
    assert forall k :: 0 <= k < |others| ==> others[k] == queue[if k < i then k else k + 1];
    forall o | o in queue && o.keyName != queue[i].keyName
      ensures o in others
    {
      var k :| 0 <= k < |queue| && queue[k] == o;
      assert others[if k < i then k else k - 1] == o;
    }
  }

  lemma RefreshKeeps<K(!new)>(queue: seq<Record<K>>, log: seq<LogEntry<K>>, i: nat, r: Record<K>, options: Options)
    requires Sound(queue, log, r.lastRefreshed, options)
    requires i < |queue| && queue[i].keyName == r.keyName && queue[i].timestamp < r.timestamp
    ensures Sound(queue[..i] + queue[i + 1..] + [r], log + [Acceptance(r)], r.lastRefreshed, options)
  {
    hide Last, Increasing, Justified;
    var others := queue[..i] + queue[i + 1..];
    assert Last(log, r.keyName) == Some(Acceptance(queue[i])) by {
      assert queue[i] in queue;
    }
    JustifiedSnoc(log, Acceptance(r), options);
    SetAside(queue, i);
    AcceptKeeps(queue, others, log, r);
    AppendKeepsOrder(others, r);
  }

  lemma AppendKeepsOrder<K(!new)>(others: seq<Record<K>>, r: Record<K>)
    requires UniqueKeys(others) && ByRefreshTime(others)
    requires forall o <- others :: o.keyName != r.keyName && o.lastRefreshed <= r.lastRefreshed
    ensures UniqueKeys(others + [r]) && ByRefreshTime(others + [r])
    ensures forall o <- others + [r] :: o.lastRefreshed <= r.lastRefreshed
  {
    assert forall k :: 0 <= k < |others| ==> others[k] in others;
  }

  /** Accepting for a key whose record, if any, is set aside. */
  lemma AcceptKeeps<K(!new)>(queue: seq<Record<K>>, others: seq<Record<K>>, log: seq<LogEntry<K>>, r: Record<K>)
    requires Records(queue, log) && Increasing(log)
    requires forall o :: o in others <==> o in queue && o.keyName != r.keyName
    requires Last(log, r.keyName).Some? ==> Last(log, r.keyName).value.timestamp < r.timestamp
    ensures Records(others + [r], log + [Acceptance(r)]) && Increasing(log + [Acceptance(r)])
  {
    hide Last, Increasing;
    var e := Acceptance(r);
    IncreasingSnoc(log, e);
    forall key: K
      ensures Last(log + [e], key) == if key == r.keyName then Some(e) else Last(log, key)
    {
      LastOfSnoc(log, e, key);
    }
    forall key: K | Last(log + [e], key).Some?
      ensures exists o <- others + [r] :: o.keyName == key
    {
      if key == r.keyName {
        assert r in others + [r];
      } else {
        var o :| o in queue && o.keyName == key;
        assert o in others + [r];
      }
    }
  }

  /** The queue tells the last acceptance of every key. */
  lemma LastInQueue<K(!new)>(queue: seq<Record<K>>, log: seq<LogEntry<K>>, clock: int, options: Options, key: K)
    requires Sound(queue, log, clock, options)
    ensures var i := FindKey(queue, key);
            Last(log, key) == if i < |queue| then Some(Acceptance(queue[i])) else None
  {
    hide Last, Increasing, Justified;
    var i := FindKey(queue, key);
    if i < |queue| {
      assert queue[i] in queue;
    }
  }

  lemma WithinLimit<K(!new)>(queue: seq<Record<K>>, log: seq<LogEntry<K>>, mark: nat, options: Options)
    requires Since(queue, log, mark, options)
    ensures options.maxTimestamps >= 0 ==> |queue| <= options.maxTimestamps + |log| - mark
  {
  }

  // ---- verdicts ----

  /** The commands accepted, in order. */
  function AcceptedIn<K>(log: seq<LogEntry<K>>): seq<(K, nat)>
  {
    if log == [] then []
    else
      var e := log[|log| - 1];
      AcceptedIn(log[..|log| - 1]) + if e.Accepted? then [(e.keyName, e.timestamp)] else []
  }

  /** The commands among the events that got no error, in order. */
  function Passed<K>(events: seq<Event<K>>, verdicts: seq<ErrorCode>): seq<(K, nat)>
    requires |events| == |verdicts|
  {
    if events == [] then []
    else
      var n := |events| - 1;
      Passed(events[..n], verdicts[..n]) +
      if events[n].InnerAccept? && verdicts[n] == NONE then [(events[n].keyName, events[n].timestamp)] else []
  }

  lemma PassedNothing<K>()
    ensures Passed<K>([], []) == []
  {
  }

  lemma PassedSnoc<K>(events: seq<Event<K>>, verdicts: seq<ErrorCode>, e: Event<K>, v: ErrorCode)
    requires |events| == |verdicts|
    ensures Passed(events + [e], verdicts + [v]) ==
            Passed(events, verdicts) + if e.InnerAccept? && v == NONE then [(e.keyName, e.timestamp)] else []
  {
    assert (events + [e])[..|events|] == events && (verdicts + [v])[..|events|] == verdicts;
  }

  lemma AcceptedInSnoc<K>(log: seq<LogEntry<K>>, e: LogEntry<K>)
    ensures AcceptedIn(log + [e]) == AcceptedIn(log) + if e.Accepted? then [(e.keyName, e.timestamp)] else []
  {
    assert (log + [e])[..|log|] == log;
  }

  lemma {:induction false} EvictionsAcceptNothing<K>(log: seq<LogEntry<K>>, later: seq<LogEntry<K>>)
    requires log <= later && forall i :: |log| <= i < |later| ==> later[i].Evicted?
    ensures AcceptedIn(later) == AcceptedIn(log)
    decreases |later|
  {
    if |later| > |log| {
      EvictionsAcceptNothing(log, later[..|later| - 1]);
    } else {
      assert later == log;
    }
  }

  class CommandInterestValidator<K(==, !new)> {
    const options: Options
    var queue: seq<Record<K>>
    ghost var clock: int                // the latest reading of the steady clock
    ghost var log: seq<LogEntry<K>>
    ghost var mark: nat                 // entries of the log when cleanup last ended

    ghost predicate Valid()
      reads this
    {
      Sound(queue, log, clock, options) && Since(queue, log, mark, options)
    }

    constructor (options: Options)
      ensures Valid() && queue == [] && log == [] && clock == 0
      ensures this.options == options.(gracePeriod := if options.gracePeriod < 0 then 0 else options.gracePeriod)
    {
      this.options := options.(gracePeriod := if options.gracePeriod < 0 then 0 else options.gracePeriod);
      queue, clock, log, mark := [], 0, [], 0;
    }

    /** cleanup: front records go until none is expired and the size limit holds; because the queue is in
        refresh order, that removes every expired record. The last one popped, and with it each of them, was
        expired or too many. */
    method Cleanup(now: int) returns (ghost n: nat)
      requires Valid() && clock <= now
      modifies this
      ensures Valid() && clock == now && mark == |log|
      ensures n <= |old(queue)| && queue == old(queue)[n..]
      ensures n > 0 ==>
                old(queue)[n - 1].lastRefreshed <= now - options.timestampTtl
                || (options.maxTimestamps >= 0 && |old(queue)| - (n - 1) > options.maxTimestamps)
      ensures forall r <- queue :: r.lastRefreshed > now - options.timestampTtl
      ensures options.maxTimestamps >= 0 ==> |queue| <= options.maxTimestamps
      ensures |log| == |old(log)| + n && old(log) <= log
      ensures forall j :: |old(log)| <= j < |log| ==>
                var i := j - |old(log)|;
                log[j] == Evicted(old(queue)[i].keyName, now, |old(queue)| - i)
    {
      hide Sound, Since;
      n := 0;
      LaterIsSound(queue, log, clock, now, options);
      clock := now;
      ghost var was := queue;
      while (queue != [] && queue[0].lastRefreshed <= now - options.timestampTtl) ||
            (options.maxTimestamps >= 0 && |queue| > options.maxTimestamps)
        invariant Sound(queue, log, now, options) && clock == now
        invariant n <= |was| && queue == was[n..]
        invariant n > 0 ==>
                    was[n - 1].lastRefreshed <= now - options.timestampTtl
                    || (options.maxTimestamps >= 0 && |was| - (n - 1) > options.maxTimestamps)
        invariant |log| == |old(log)| + n && old(log) <= log
        invariant forall j :: |old(log)| <= j < |log| ==>
                    var i := j - |old(log)|; log[j] == Evicted(was[i].keyName, now, |was| - i)
        decreases |queue|
      {
        PopKeeps(queue, log, now, options);
        log := log + [Evicted(queue[0].keyName, now, |queue|)];
        queue := queue[1..];
        n := n + 1;
      }
      NoneExpired(queue, log, now, options, now - options.timestampTtl);
      mark := |log|;
      CleanedUp(queue, log, clock, options);
    }

    /** checkTimestamp: the verdict depends on the last command accepted under the key, if its record was not
        evicted since. */
    method CheckTimestamp(keyName: K, timestamp: nat, receiveTime: int, now: int) returns (res: ErrorCode)
      requires Valid() && clock <= now
      modifies this
      ensures Valid() && clock == now && mark == old(mark)
      ensures var last := Last(old(log), keyName);
              res == if last.None? then
                       (if InGrace(timestamp, receiveTime, options.gracePeriod)
                        then NONE else TIMESTAMP_OUT_OF_GRACE)
                     else if timestamp <= last.value.timestamp then TIMESTAMP_REORDER else NONE
      ensures res != NONE ==> queue == old(queue) && log == old(log)
      ensures res == NONE ==> log == old(log) + [Accepted(keyName, timestamp, now)]
      ensures res == NONE ==> queue == Others(old(queue), keyName) + [Record(keyName, timestamp, now)]
    {
      hide Sound, Since, Last;
      LaterIsSound(queue, log, clock, now, options);
      clock := now;
      var i := FindKey(queue, keyName);
      var isNew := i == |queue|;
      ghost var was := queue;
      var record := Record(keyName, timestamp, now);
      LastInQueue(queue, log, now, options, keyName);
      if isNew {
        NewKeeps(queue, log, record, options);
        queue := queue + [record];
        var sigTime := Int64(Int64(timestamp) * MILLISECOND);
        var difference := Int64(sigTime - receiveTime);
        if (if difference >= 0 then difference else Int64(-difference)) > options.gracePeriod {
          queue := queue[..i];
          assert queue == was;
          return TIMESTAMP_OUT_OF_GRACE;
        }
      } else {
        if timestamp <= queue[i].timestamp {
          return TIMESTAMP_REORDER;
        }
        RefreshKeeps(queue, log, i, record, options);
        queue := queue[..i] + queue[i + 1..];
        queue := queue + [record];
      }
      AcceptedSince(was, log, mark, options, queue, Acceptance(record));
      log := log + [Acceptance(record)];
      return NONE;
    }

    /** Over any run with a monotone clock; what was accepted is what got no error, in order. Between arrivals the
        queue exceeds its limit by at most the number of commands accepted. */
    method Run(events: seq<Event<K>>) returns (verdicts: seq<ErrorCode>)
      requires Valid()
      requires forall i :: 0 <= i < |events| ==> clock <= events[i].now
      requires forall i, j :: 0 <= i < j < |events| ==> events[i].now <= events[j].now
      modifies this
      ensures Valid() && |verdicts| == |events|
      ensures AcceptedIn(log) == AcceptedIn(old(log)) + Passed(events, verdicts)
      ensures options.maxTimestamps >= 0 ==> |queue| <= options.maxTimestamps + |log| - mark
    {
      hide Sound, Since, Last, InGrace, AcceptedIn, Passed;
      verdicts := [];
      PassedNothing<K>();
      for k := 0 to |events|
        invariant Valid() && |verdicts| == k
        invariant AcceptedIn(log) == AcceptedIn(old(log)) + Passed(events[..k], verdicts)
        invariant forall i :: k <= i < |events| ==> clock <= events[i].now
      {
        ghost var before, was := log, verdicts;
        var verdict := NONE;
        match events[k] {
          case Arrival(now) =>
            ghost var n := Cleanup(now);
            EvictionsAcceptNothing(before, log);
          case InnerAccept(key, timestamp, receiveTime, now) =>
            verdict := CheckTimestamp(key, timestamp, receiveTime, now);
            if verdict == NONE {
              AcceptedInSnoc(before, Accepted(key, timestamp, now));
            }
        }
        verdicts := verdicts + [verdict];
        PassedSnoc(events[..k], was, events[k], verdict);
        assert events[..k + 1] == events[..k] + [events[k]];
      }
      assert events[..|events|] == events;
      WithinLimit(queue, log, mark, options);
    }
  }

  /** Two commands of one key arrive before the inner validator accepts either: with every such setting, the
      second is compared to the first, and refused if it is not newer. */
  method InterleavedCommands<K(==, !new)>(options: Options, keyName: K, first: nat, second: nat, receiveTime: int,
                                          now: int) returns (verdict1: ErrorCode, verdict2: ErrorCode)
    requires options.Disabling() && options.gracePeriod >= 0 && now >= 0
    requires second <= first && InGrace(first, receiveTime, options.gracePeriod)
    ensures verdict1 == NONE && verdict2 == TIMESTAMP_REORDER
  {
    hide Sound, Since, InGrace;
    var validator := new CommandInterestValidator<K>(options);
    ghost var _ := validator.Cleanup(now);
    ghost var _ := validator.Cleanup(now);
    assert validator.queue == [];
    verdict1 := validator.CheckTimestamp(keyName, first, receiveTime, now);
    assert validator.queue == [Record(keyName, first, now)];
    verdict2 := validator.CheckTimestamp(keyName, second, receiveTime, now);
  }
}
