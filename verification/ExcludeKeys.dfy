/** The keys of an Exclude selector as components with the wires they were read from (src/exclude.cpp): when
    the order of the std::map, which is that of `compare`, is the canonical order ExcludeMaps works with. */
module ExcludeKeys {
  import opened Octets
  import opened Results
  import opened NameComponents
  import opened ExcludeMaps

  datatype StoredKey = Lowest | Stands(component: Stored)

  datatype StoredEntry = StoredEntry(key: StoredKey, any: bool)

  /** operator> on ExcludeComponent. */
  predicate StoredAbove(a: StoredKey, b: StoredKey)
  {
    a.Stands? && (b.Lowest? || Compare(a.component, b.component) > 0)
  }

  function StoredLowerBound(e: seq<StoredEntry>, k: StoredKey): (i: nat)
    ensures i <= |e|
  {
    if e == [] || !StoredAbove(e[0].key, k) then 0 else 1 + StoredLowerBound(e[1..], k)
  }

  /** Exclude::isExcluded. */
  predicate StoredIsExcluded(e: seq<StoredEntry>, x: Stored)
  {
    var lb := StoredLowerBound(e, Stands(x));
    lb < |e| && (e[lb].any || (e[lb].key.Stands? && e[lb].key.component.Content() == x.Content()))
  }

  function KeyContent(k: StoredKey): Key
  {
    if k.Lowest? then NegInf else At(k.component.Content())
  }

  function EntryContents(e: seq<StoredEntry>): Entries
  {
    seq(|e|, i requires 0 <= i < |e| => Entry(KeyContent(e[i].key), e[i].any))
  }

  ghost predicate PlainKeys(e: seq<StoredEntry>)
  {
    forall s <- e :: s.key.Stands? ==> Plain(s.key.component)
  }

  lemma StoredAboveIsAbove(a: StoredKey, b: StoredKey)
    requires (a.Stands? ==> Plain(a.component)) && (b.Stands? ==> Plain(b.component))
    ensures StoredAbove(a, b) <==> Above(KeyContent(a), KeyContent(b))
  {
    hide Compare, Rank, Canonical;
    if a.Stands? && b.Stands? {
      CompareIsCanonical(a.component, b.component);
      RankIsCanonical(a.component.Content(), b.component.Content());
      RankIsCanonical(b.component.Content(), a.component.Content());
      CanonicalIsTotal(a.component.Content(), b.component.Content());
      CanonicalIsTotal(b.component.Content(), a.component.Content());
    }
  }

  lemma {:induction false} StoredLowerBoundIs(e: seq<StoredEntry>, k: StoredKey)
    requires PlainKeys(e) && (k.Stands? ==> Plain(k.component))
    ensures StoredLowerBound(e, k) == LowerBound(EntryContents(e), KeyContent(k))
  {
    hide Plain, Above, StoredAbove;
    if e != [] {
      StoredAboveIsAbove(e[0].key, k);
      assert EntryContents(e)[1..] == EntryContents(e[1..]);
      StoredLowerBoundIs(e[1..], k);
    }
  }

  /** With shortest wires, or none, isExcluded on the stored keys is isExcluded on their contents. */
  lemma StoredIsExcludedIsContent(e: seq<StoredEntry>, x: Stored)
    requires PlainKeys(e) && Plain(x)
    ensures StoredIsExcluded(e, x) <==> IsExcluded(EntryContents(e), x.Content())
  {
    hide Plain, LowerBound, StoredLowerBound;
    StoredLowerBoundIs(e, Stands(x));
  }

  /** A component that was read from the wire and listed alone excludes itself, asked for with its shortest
      wire, if and only if the wire it was read from is the shortest. */
  lemma KeyFindsItselfIff(k: Stored)
    requires k.Wired? && k.WellFormed()
    ensures StoredIsExcluded([StoredEntry(Stands(k), false)], Wired(k.component, k.component.Minimal()))
       <==> k.HasMinimalWire()
  {
    hide Compare;
    var x := Wired(k.component, k.component.Minimal());
    MinimalHeader(k.component);
    if k.HasMinimalWire() {
      CompareIsCanonical(k, x);
    } else {
      LongerWireComesAfter(k, x);
      assert [StoredEntry(Stands(k), false)][1..] == [];
    }
  }

  /** The keys wireDecode puts in: each with the wire it was read from, in the order of the map. */
  ghost predicate SortedWires(e: seq<StoredEntry>)
  {
    && (forall s <- e :: s.key.Stands? ==> s.key.component.Wired? && s.key.component.WellFormed())
    && (forall i, j :: 0 <= i < j < |e| ==> StoredAbove(e[i].key, e[j].key))
  }

  /** The first entry not above `x` carries ANY. */
  ghost predicate InStoredRange(e: seq<StoredEntry>, x: Stored)
  {
    exists j :: 0 <= j < |e| && e[j].any && !StoredAbove(e[j].key, Stands(x))
                && forall i :: 0 <= i < j ==> StoredAbove(e[i].key, Stands(x))
  }

  /** In any map decoded from a wire, a component asked for with its shortest wire is excluded if and only if it
      is listed with that wire, or lies in a range; listed with another wire it is not found. */
  lemma ListedIsFoundIff(e: seq<StoredEntry>, c: Component)
    requires SortedWires(e) && |c.value| < U64_MAX
    ensures var x := Wired(c, c.Minimal());
            StoredIsExcluded(e, x) <==> (exists s <- e :: s.key == Stands(x)) || InStoredRange(e, x)
  {
    hide Compare;
    var x := Wired(c, c.Minimal());
    MinimalHeader(c);
    var lb := StoredLowerBound(e, Stands(x));
    StoredLowerBoundStops(e, Stands(x));
    if lb < |e| && e[lb].key.Stands? && e[lb].key.component.Content() == c && e[lb].key != Stands(x) {
      LongerWireComesAfter(e[lb].key.component, x);
    }
    if StoredIsExcluded(e, x) {
      assert e[lb] in e;
    }
    if s :| s in e && s.key == Stands(x) {
      var j :| 0 <= j < |e| && e[j] == s;
      EqualWires(x);
      StoredLowerBoundAt(e, Stands(x), j);
    }
    if j :| 0 <= j < |e| && e[j].any && !StoredAbove(e[j].key, Stands(x))
            && forall i :: 0 <= i < j ==> StoredAbove(e[i].key, Stands(x)) {
      StoredLowerBoundAt(e, Stands(x), j);
    }
  }

  lemma {:induction false} StoredLowerBoundStops(e: seq<StoredEntry>, k: StoredKey)
    ensures var lb := StoredLowerBound(e, k);
            (lb < |e| ==> !StoredAbove(e[lb].key, k)) && forall i :: 0 <= i < lb ==> StoredAbove(e[i].key, k)
  {
    hide StoredAbove;
    if e != [] {
      StoredLowerBoundStops(e[1..], k);
    }
  }

  lemma StoredLowerBoundAt(e: seq<StoredEntry>, k: StoredKey, j: nat)
    requires j < |e| && !StoredAbove(e[j].key, k) && forall i :: 0 <= i < j ==> StoredAbove(e[i].key, k)
    ensures StoredLowerBound(e, k) == j
  {
    hide StoredAbove;
    StoredLowerBoundStops(e, k);
  }

  lemma EqualWires(x: Stored)
    requires x.Wired? && x.WellFormed() && x.HasMinimalWire()
    ensures Compare(x, x) == 0
  {
    hide Compare;
    CompareIsCanonical(x, x);
  }

  /** So "b" listed with its length in three octets does not exclude "b". */
  lemma LongKeyIsLost()
    ensures !StoredIsExcluded([StoredEntry(Stands(LONG_B), false)], Wired(LONG_B.component, LONG_B.component.Minimal()))
  {
    hide StoredIsExcluded, LONG_B;
    CompareDeviates();
    LongBIsNotShortest();
    KeyFindsItselfIff(LONG_B);
  }

  lemma LongBIsNotShortest()
    ensures !LONG_B.HasMinimalWire()
  {
    assert |LONG_B.component.Minimal()| == 3;
  }
}
