/** When an Exclude selector read from the wire has the shape its enumeration relies on (src/exclude.cpp). */
module ExcludeShapes {
  import opened Results
  import opened Tlv
  import opened NameComponents
  import opened ExcludeMaps
  import opened ExcludeRanges
  import opened Excludes

  /** The entries that a sequence of elements lists, in wire order. */
  function Listed(els: seq<Element>): seq<Entry>
  {
    if els == [] then []
    else if els[0].typ == ANY then [Entry(NegInf, true)] + ListedFrom(els[1..])
    else ListedFrom(els)
  }

  function ListedFrom(els: seq<Element>): seq<Entry>
  {
    if els == [] || ToComponent(els[0]).None? then []
    else
      var any := |els| > 1 && els[1].typ == ANY;
      [Entry(At(ToComponent(els[0]).value), any)] + ListedFrom(els[if any then 2 else 1..])
  }

  /** `x` is listed, and no entry with its key is listed before. */
  ghost predicate First(l: seq<Entry>, x: Entry)
  {
    exists i :: 0 <= i < |l| && l[i] == x && forall j :: 0 <= j < i ==> l[j].key != x.key
  }

  lemma FirstCons(h: Entry, t: seq<Entry>, x: Entry)
    ensures First([h] + t, x) <==> x == h || (x.key != h.key && First(t, x))
  {
    var l := [h] + t;
    if First(l, x) && x != h {
      var i :| 0 <= i < |l| && l[i] == x && forall j :: 0 <= j < i ==> l[j].key != x.key;
      assert l[0] == h && t[i - 1] == x;
      forall j | 0 <= j < i - 1
        ensures t[j].key != x.key
      {
        assert l[j + 1] == t[j];
      }
    }
    if x == h {
      assert l[0] == x;
    } else if x.key != h.key && First(t, x) {
      var i :| 0 <= i < |t| && t[i] == x && forall j :: 0 <= j < i ==> t[j].key != x.key;
      assert l[i + 1] == x;
    }
  }

  lemma AppendedEntries(e: Entries, k: Key, any: bool, x: Entry)
    requires Valid(e)
    ensures x in Append(e, k, any) <==> x in e || (x == Entry(k, any) && forall y <- e :: y.key != k)
  {
    hide Rank, LowerBound;
    var i := LowerBound(e, k);
    if i < |e| && e[i].key == k {
      assert e[i] in e;
    } else {
      assert e == e[..i] + e[i..];
      KeyIsNew(e, k);
    }
  }

  lemma KeyIsNew(e: Entries, k: Key)
    requires Sorted(e) && (LowerBound(e, k) < |e| ==> e[LowerBound(e, k)].key != k)
    ensures forall y <- e :: y.key != k
  {
    hide Rank, LowerBound;
    var i := LowerBound(e, k);
    forall y | y in e
      ensures y.key != k
    {
      var j :| 0 <= j < |e| && e[j] == y;
      if i < |e| {
        AboveIsCanonical(e[i].key, k);
        AboveIsCanonical(e[j].key, k);
      } else {
        AboveIsCanonical(e[j].key, k);
      }
    }
  }

  /** Of the entries listed under one key, the first makes it into the map. */
  lemma {:induction false} DecodeLoopEntries(els: seq<Element>, e: Entries, x: Entry)
    requires Valid(e) && DecodeLoop(els, e).error.None?
    ensures x in DecodeLoop(els, e).entries <==>
              x in e || (First(ListedFrom(els), x) && forall y <- e :: y.key != x.key)
    decreases |els|
  {
    hide Valid, Append, First;
    if els == [] {
      NothingIsFirst(x);
    } else {
      var c := ToComponent(els[0]).value;
      var any := |els| > 1 && els[1].typ == ANY;
      var rest, later := els[if any then 2 else 1..], Append(e, At(c), any);
      AppendKeepsValid(e, At(c), any);
      DecodeLoopEntries(rest, later, x);
      FirstCons(Entry(At(c), any), ListedFrom(rest), x);
      AppendedEntries(e, At(c), any, x);
      AppendedKeys(e, At(c), any, x.key);
    }
  }

  lemma NothingIsFirst(x: Entry)
    ensures !First([], x)
  {
  }

  lemma AppendedKeys(e: Entries, k: Key, any: bool, key: Key)
    requires Valid(e)
    ensures (forall y <- Append(e, k, any) :: y.key != key) <==> key != k && forall y <- e :: y.key != key
  {
    hide Valid, Append;
    forall y: Entry
      ensures y in Append(e, k, any) <==> y in e || (y == Entry(k, any) && forall z <- e :: z.key != k)
    {
      AppendedEntries(e, k, any, y);
    }
    if forall z <- e :: z.key != k {
      assert Entry(k, any) in Append(e, k, any);
    }
  }

  lemma DecodedEntries(els: seq<Element>, x: Entry)
    requires Grammar(els)
    ensures x in Decode(els).entries <==> First(Listed(els), x)
  {
    hide First;
    DecodeAccepts(els);
    if els[0].typ == ANY {
      DecodeLoopEntries(els[1..], [Entry(NegInf, true)], x);
      FirstCons(Entry(NegInf, true), ListedFrom(els[1..]), x);
    } else {
      DecodeLoopEntries(els, [], x);
    }
  }

  /** Two ranges, with nothing listed between where they begin; later entries under a key already listed do
      not count. */
  ghost predicate Adjoining(l: seq<Entry>, a: Entry, b: Entry)
  {
    && First(l, a) && First(l, b) && a.any && b.any && Above(b.key, a.key)
    && !exists c :: First(l, c) && Above(b.key, c.key) && Above(c.key, a.key)
  }

  lemma FirstOfSorted(e: Entries, x: Entry)
    requires Sorted(e)
    ensures First(e, x) <==> x in e
  {
    hide Rank;
    if x in e {
      var i :| 0 <= i < |e| && e[i] == x;
      forall j | 0 <= j < i
        ensures e[j].key != x.key
      {
        AboveIsCanonical(e[j].key, e[i].key);
      }
    }
  }

  lemma CombinedMeans(e: Entries)
    requires Valid(e)
    ensures Combined(e) <==> !exists a, b :: Adjoining(e, a, b)
  {
    hide Rank, First;
    forall x: Entry
      ensures First(e, x) <==> x in e
    {
      FirstOfSorted(e, x);
    }
    if Combined(e) {
      forall a, b | a in e && b in e && a.any && b.any && Above(b.key, a.key)
        ensures !Adjoining(e, a, b)
      {
        var i :| 0 <= i < |e| && e[i] == a;
        var j :| 0 <= j < |e| && e[j] == b;
        AboveIsCanonical(a.key, b.key);
        assert j < i && j + 1 != i;
        assert e[j + 1] in e && Above(e[j].key, e[j + 1].key) && Above(e[j + 1].key, e[i].key);
      }
    } else {
      var i :| 0 <= i < |e| - 1 && e[i].any && e[i + 1].any;
      NothingBetween(e, i);
      assert Adjoining(e, e[i + 1], e[i]);
    }
  }

  lemma NothingBetween(e: Entries, i: nat)
    requires Sorted(e) && i + 1 < |e|
    ensures forall c <- e :: !(Above(e[i].key, c.key) && Above(c.key, e[i + 1].key))
  {
    hide Rank;
    forall c | c in e
      ensures !(Above(e[i].key, c.key) && Above(c.key, e[i + 1].key))
    {
      var k :| 0 <= k < |e| && e[k] == c;
      AboveIsCanonical(e[i].key, c.key);
      AboveIsCanonical(c.key, e[i + 1].key);
    }
  }

  /** A decoded selector has its consecutive ranges combined if and only if the wire lists no two adjoining
      ranges. */
  lemma DecodedIsCombinedIff(els: seq<Element>)
    requires Grammar(els)
    ensures Combined(Decode(els).entries) <==> !exists a, b :: Adjoining(Listed(els), a, b)
  {
    hide First, Listed, Combined, Decode, Above;
    var e := Decode(els).entries;
    DecodeIsValid(els);
    CombinedMeans(e);
    forall x: Entry
      ensures First(e, x) <==> First(Listed(els), x)
    {
      DecodedEntries(els, x);
      FirstOfSorted(e, x);
    }
    forall a, b
      ensures Adjoining(e, a, b) <==> Adjoining(Listed(els), a, b)
    {
    }
  }

  /** The accepted wire "a" Any "b" Any, which no mutator need have written, is enumerated as [a, b]. */
  lemma AdjoiningRangesOnWire(a: Component, b: Component, x: Component)
    requires Rank(a) < Rank(b) < Rank(x)
    ensures var els := [ComponentElement(a), ANY_ELEMENT, ComponentElement(b), ANY_ELEMENT];
            var e := [Entry(At(b), true), Entry(At(a), true)];
            && Grammar(els) && Decode(els) == Decoded(e, None)
            && Valid(e) && IsExcluded(e, x)
            && Ranges(e, 2) == [Range(At(a), Some(b))] && !InRange(Ranges(e, 2)[0], x)
  {
    hide Rank;
    var els := [ComponentElement(a), ANY_ELEMENT, ComponentElement(b), ANY_ELEMENT];
    var e := [Entry(At(b), true), Entry(At(a), true)];
    assert Sorted(e);
    DecodeTwoRanges(a, b);
    DecodeAccepts(els);
    assert LowerBound(e, At(x)) == 0;
    assert Ranges(e, 2) == [RangeAt(e, 2)] + Ranges(e, 0);
  }

  lemma DecodeTwoRanges(a: Component, b: Component)
    requires Rank(a) < Rank(b)
    ensures Decode([ComponentElement(a), ANY_ELEMENT, ComponentElement(b), ANY_ELEMENT])
         == Decoded([Entry(At(b), true), Entry(At(a), true)], None)
  {
    hide Rank;
    var els := [ComponentElement(a), ANY_ELEMENT, ComponentElement(b), ANY_ELEMENT];
    var one := [Entry(At(a), true)];
    assert els[2..] == [ComponentElement(b), ANY_ELEMENT] && els[2..][2..] == [];
    assert LowerBound(one, At(b)) == 0;
    assert Append([], At(a), true) == one;
    assert Append(one, At(b), true) == [Entry(At(b), true)] + one;
    assert DecodeLoop(els[2..], one) == Decoded([Entry(At(b), true)] + one, None);
  }
}
