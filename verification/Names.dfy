/** Names: canonical order, prefixes, successor (src/name.cpp). */
module Names {
  import opened Results
  import opened Octets
  import opened Tlv
  import opened NameComponents
  import Blocks

  type Name = seq<Component>

  /** Canonical order on names: the first differing component decides, then the number of components. */
  function Order(a: Name, b: Name): int
  {
    if a == [] || b == [] then |a| - |b|
    else if Canonical(a[0], b[0]) != 0 then Canonical(a[0], b[0])
    else Order(a[1..], b[1..])
  }

  lemma {:induction false} OrderIsTotal(a: Name, b: Name)
    ensures Order(a, b) == 0 <==> a == b
    ensures Sign(Order(b, a)) == -Sign(Order(a, b))
  {
    if a != [] && b != [] {
      CanonicalIsTotal(a[0], b[0]);
      CanonicalIsTotal(b[0], a[0]);
      OrderIsTotal(a[1..], b[1..]);
      assert a == [a[0]] + a[1..] && b == [b[0]] + b[1..];
    }
  }

  lemma {:induction false} OrderIsTransitive(a: Name, b: Name, c: Name)
    requires Order(a, b) <= 0 && Order(b, c) <= 0
    ensures Order(a, c) <= 0
  {
    if a != [] && b != [] && c != [] {
      CanonicalIsTotal(a[0], b[0]);
      CanonicalIsTotal(b[0], c[0]);
      CanonicalIsTotal(a[0], c[0]);
      if a[0] == b[0] == c[0] {
        OrderIsTransitive(a[1..], b[1..], c[1..]);
      }
    }
  }

  // ---- positions ----

  const NPOS: nat := U64_MAX

  /** size_t arithmetic, for sums and differences of two sizes. */
  function Wrap(x: int): (r: nat)
    ensures r < TWO64
    ensures 0 <= x < TWO64 ==> r == x
    ensures TWO64 <= x < 2 * TWO64 ==> r == x - TWO64
    ensures -TWO64 <= x < 0 ==> r == x + TWO64
  {
    x % TWO64
  }

  /** A size_t passed for an ssize_t. */
  function Signed(pos: nat): int
    requires pos <= U64_MAX
  {
    if pos < TWO63 then pos else pos - TWO64
  }

  /** Where Name::at looks, counting from the end for negative positions; None when it throws. */
  function At(size: nat, i: int): (k: Option<nat>)
    ensures k.Some? ==> k.value < size
  {
    if (i >= 0 && i >= size) || (i < 0 && -i > size) then None
    else Some(if i >= 0 then i else size + i)
  }

  /** std::min(count, size - pos) in size_t arithmetic. */
  function Clip(count: nat, size: nat, pos: nat): nat
  {
    var left := Wrap(size - pos);
    if count < left then count else left
  }

  /** The position denotes a component or the end, or a component counted from the end. */
  predicate Readable(size: nat, pos: nat)
  {
    pos <= size || pos >= TWO64 - size
  }

  /** The components compare() looks at: from a position counted from the end they go on at the beginning. */
  function View<T>(a: seq<T>, pos: nat, count: nat): (v: seq<T>)
    requires |a| < TWO63 && pos <= U64_MAX && Readable(|a|, pos)
    ensures |v| == Clip(count, |a|, pos)
  {
    if pos <= |a| then a[pos..pos + Clip(count, |a|, pos)]
    else (a[|a| - (TWO64 - pos)..] + a)[..Clip(count, |a|, pos)]
  }

  /** The i-th access of compare() finds the i-th component of the view; outside of a view the first throws. */
  lemma AccessIsView<T>(a: seq<T>, pos: nat, count: nat, i: nat)
    requires |a| < TWO63 && pos <= U64_MAX && i < Clip(count, |a|, pos)
    ensures var k := At(|a|, Signed(Wrap(pos + i)));
            if Readable(|a|, pos) then k.Some? && View(a, pos, count)[i] == a[k.value] else i == 0 ==> k.None?
  {
    hide Wrap;
  }

  datatype NameError = OutOfBounds

  /** Name::compare on `count1` components from `pos1` and `count2` from `pos2`, component by component as
      `compare` has it: canonical order of the two views. Throws exactly when a component is to be looked at
      and one of the positions denotes none. */
  method Compare(a: seq<Stored>, pos1: nat, count1: nat, b: seq<Stored>, pos2: nat, count2: nat)
      returns (r: Result<int, NameError>)
    requires |a| < TWO63 && |b| < TWO63 && pos1 <= U64_MAX && pos2 <= U64_MAX
    ensures r.Err? <==>
              && Clip(count1, |a|, pos1) > 0 && Clip(count2, |b|, pos2) > 0
              && !(Readable(|a|, pos1) && Readable(|b|, pos2))
    ensures r.Ok? && !(Readable(|a|, pos1) && Readable(|b|, pos2)) ==>
              r.value == Int32(Clip(count1, |a|, pos1) - Clip(count2, |b|, pos2))
    ensures Readable(|a|, pos1) && Readable(|b|, pos2) && AllPlain(a) && AllPlain(b) ==>
              -0x8000_0000 <= Clip(count1, |a|, pos1) - Clip(count2, |b|, pos2) < 0x8000_0000 ==>
                Sign(r.value) == Sign(Order(View(Contents(a), pos1, count1), View(Contents(b), pos2, count2)))
  {
    hide Int32, NameComponents.Compare, AllPlain, Order, Contents, Clip, At, Signed, View, Wrap;
    var c1, c2 := Clip(count1, |a|, pos1), Clip(count2, |b|, pos2);
    var difference: int := c1 as int - c2 as int;
    var count := if c1 < c2 then c1 else c2;
    ghost var readable := Readable(|a|, pos1) && Readable(|b|, pos2);
    ghost var plain := readable && AllPlain(a) && AllPlain(b);
    ghost var x := if plain then View(Contents(a), pos1, count1) else [];
    ghost var y := if plain then View(Contents(b), pos2, count2) else [];
    var i := 0;
    assert x[0..] == x && y[0..] == y;
    while i < count
      invariant i <= count && (i > 0 ==> readable)
      invariant plain ==> Order(x, y) == Order(x[i..], y[i..])
    {
      AccessIsView(a, pos1, count1, i);
      AccessIsView(b, pos2, count2, i);
      var k1, k2 := At(|a|, Signed(Wrap(pos1 + i))), At(|b|, Signed(Wrap(pos2 + i)));
      if k1.None? || k2.None? {
        return Err(OutOfBounds);
      }
      var comp := NameComponents.Compare(a[k1.value], b[k2.value]);
      if plain {
        PlainAt(a, pos1, count1, i);
        PlainAt(b, pos2, count2, i);
        OrderStep(a[k1.value], b[k2.value], x, y, i);
      }
      if comp != 0 {
        return Ok(comp);
      }
      i := i + 1;
    }
    SmallDifference(difference);
    if plain {
      OneEnds(x[i..], y[i..]);
    }
    return Ok(Int32(difference));
  }

  lemma PlainAt(a: seq<Stored>, pos: nat, count: nat, i: nat)
    requires |a| < TWO63 && pos <= U64_MAX && Readable(|a|, pos) && i < Clip(count, |a|, pos) && AllPlain(a)
    ensures var k := At(|a|, Signed(Wrap(pos + i)));
            k.Some? && Plain(a[k.value]) && View(Contents(a), pos, count)[i] == a[k.value].Content()
  {
    hide Plain, View, Clip, At, Signed, Wrap;
    AccessIsView(Contents(a), pos, count, i);
    var k := At(|a|, Signed(Wrap(pos + i))).value;
    assert a[k] in a;
  }

  /** Name::getSubName. */
  method GetSubName(a: Name, iStartComponent: int, nComponents: nat) returns (result: Name)
    requires |a| < TWO63 && -TWO63 <= iStartComponent < TWO63 && nComponents <= U64_MAX
    ensures result == SubName(a, iStartComponent, nComponents)
  {
    hide Wrap, SubName;
    var iStart: int := if iStartComponent < 0 then |a| + iStartComponent else iStartComponent;
    if iStart < 0 {
      iStart := 0;
    }
    var iEnd := |a|;
    if nComponents != NPOS {
      var end := Wrap(iStart + nComponents);
      iEnd := if end < |a| then end else |a|;
    }
    ghost var sub := SubName(a, iStartComponent, nComponents);
    SubNameAt(a, iStartComponent, nComponents, iStart, iEnd);
    result := [];
    var i := iStart;
    while i < iEnd
      invariant iStart <= i <= iStart + |sub|
      invariant result == sub[..i - iStart]
    {
      assert a[i] == sub[i - iStart];
      result := result + [a[i]];
      i := i + 1;
    }
  }

  lemma SubNameAt(a: Name, i: int, count: nat, from: nat, to: nat)
    requires from == if i >= 0 then i else if |a| + i >= 0 then |a| + i else 0
    requires to == if count == NPOS || Wrap(from + count) > |a| then |a| else Wrap(from + count)
    ensures var sub := SubName(a, i, count);
            && |sub| == (if from < to then to - from else 0)
            && forall k :: 0 <= k < |sub| ==> sub[k] == a[from + k]
  {
    hide Wrap;
  }

  function SubName<T>(a: seq<T>, iStartComponent: int, nComponents: nat): seq<T>
  {
    var from := if iStartComponent >= 0 then iStartComponent
                else if |a| + iStartComponent >= 0 then |a| + iStartComponent else 0;
    var to := if nComponents == NPOS || Wrap(from + nComponents) > |a| then |a|
              else Wrap(from + nComponents);
    if from < to then a[from..to] else []
  }

  /** Without a count: the components from a position, or from as many as the last -i of them, to the end. With
      one: that many of these, or as many as there are, unless the sum wraps to an end before the start. */
  lemma SubNameMeans<T>(a: seq<T>, i: int, count: nat)
    requires |a| < TWO63 && -TWO63 <= i < TWO63 && count <= U64_MAX
    ensures i >= |a| ==> SubName(a, i, NPOS) == []
    ensures 0 <= i <= |a| ==> SubName(a, i, NPOS) == a[i..]
    ensures 0 < -i <= |a| ==> |SubName(a, i, NPOS)| == -i && SubName(a, i, NPOS) <= a[|a| + i..]
    ensures -i >= |a| ==> SubName(a, i, NPOS) == a
    ensures var all := SubName(a, i, NPOS);
            count < TWO63 || count == NPOS ==>
              SubName(a, i, count) == if count <= |all| then all[..count] else all
  {
    if count < TWO63 {
      SubNameCut(a, i, count);
    }
  }

  lemma SubNameCut<T>(a: seq<T>, i: int, count: nat)
    requires |a| < TWO63 && -TWO63 <= i < TWO63 && count < TWO63
    ensures var all := SubName(a, i, NPOS); SubName(a, i, count) == if count <= |all| then all[..count] else all
  {
    var from := if i >= 0 then i else if |a| + i >= 0 then |a| + i else 0;
    assert Wrap(from + count) == from + count;
    if from < |a| {
      assert SubName(a, i, NPOS) == a[from..];
      assert SubName(a, i, count) == if count <= |a| - from then a[from..][..count] else a[from..];
    }
  }

  /** What compare() takes a sub-name to be; None when it counts components that it cannot read. */
  function Seen<T>(a: seq<T>, pos: nat, count: nat): Option<seq<T>>
    requires |a| < TWO63 && pos <= U64_MAX
  {
    if Readable(|a|, pos) then Some(View(a, pos, count))
    else if Clip(count, |a|, pos) == 0 then Some([]) else None
  }

  /** The documentation has compare() look at what getSubName returns. At a readable position it does exactly
      when the components do not go on past the end of the name, and neither does the sum of position and count
      past 2^64; at any other position, exactly when none are asked for. */
  lemma SeenIsSubNameIff<T>(a: seq<T>, pos: nat, count: nat)
    requires |a| < TWO63 && pos <= U64_MAX && count <= U64_MAX
    ensures Seen(a, pos, count) == Some(SubName(a, Signed(pos), count)) <==>
              if pos <= |a| then pos == |a| || count == NPOS || pos + count < TWO64
              else if Readable(|a|, pos) then count <= TWO64 - pos
              else count == 0
  {
    hide View, SubName, Clip;
    if pos <= |a| {
      ViewFromStart(a, pos, count);
    } else if Readable(|a|, pos) {
      ViewFromEnd(a, pos, count);
    } else {
      CountsBeyond(a, pos, count);
    }
  }

  /** Positions that denote nothing still count components. */
  lemma CountsBeyond<T>(a: seq<T>, pos: nat, count: nat)
    requires |a| < TWO63 && pos <= U64_MAX && count <= U64_MAX && !Readable(|a|, pos)
    ensures Clip(count, |a|, pos) == 0 <==> count == 0
    ensures count == 0 || pos < TWO63 ==> SubName(a, Signed(pos), count) == []
  {
    hide Wrap;
  }

  /** Five components from position 2 of a name of one: compare() finds five against none, where the
      documented sub-names are both empty. */
  lemma PhantomComponents(c: Stored)
    ensures Clip(5, 1, 2) == 5 && Clip(0, 0, 0) == 0 && !Readable(1, 2)
    ensures SubName([c], Signed(2), 5) == SubName<Stored>([], Signed(0), 0) == []
  {
    hide Wrap;
  }

  lemma ViewFromStart<T>(a: seq<T>, pos: nat, count: nat)
    requires |a| < TWO63 && pos <= |a| && count <= U64_MAX
    ensures View(a, pos, count) == SubName(a, pos, count) <==> pos == |a| || count == NPOS || pos + count < TWO64
  {
    hide Wrap;
    var to := if count <= |a| - pos then pos + count else |a|;
    assert View(a, pos, count) == a[pos..to];
    if pos == |a| || count == NPOS || pos + count < TWO64 {
      assert SubName(a, pos, count) == a[pos..to];
    } else {
      assert SubName(a, pos, count) == [];
    }
  }

  lemma ViewFromEnd<T>(a: seq<T>, pos: nat, count: nat)
    requires |a| < TWO63 && TWO64 - |a| <= pos <= U64_MAX && count <= U64_MAX
    ensures View(a, pos, count) == SubName(a, pos - TWO64, count) <==> count <= TWO64 - pos
  {
    hide Wrap;
    var k := TWO64 - pos;
    if count <= k {
      assert View(a, pos, count) == (a[|a| - k..] + a)[..count] == a[|a| - k..|a| - k + count];
    } else {
      assert |SubName(a, pos - TWO64, count)| <= k;
      assert |View(a, pos, count)| > k;
    }
  }

  ghost predicate AllPlain(name: seq<Stored>)
  {
    forall c <- name :: Plain(c)
  }

  lemma OneEnds(x: Name, y: Name)
    requires x == [] || y == []
    ensures Order(x, y) == |x| - |y|
  {
  }

  lemma OrderStep(a: Stored, b: Stored, x: Name, y: Name, i: nat)
    requires i < |x| && i < |y| && x[i] == a.Content() && y[i] == b.Content() && Plain(a) && Plain(b)
    ensures NameComponents.Compare(a, b) != 0 ==> Sign(NameComponents.Compare(a, b)) == Sign(Order(x[i..], y[i..]))
    ensures NameComponents.Compare(a, b) == 0 ==> Order(x[i..], y[i..]) == Order(x[i + 1..], y[i + 1..])
  {
    hide NameComponents.Compare, Canonical;
    CompareIsCanonical(a, b);
    CanonicalIsTotal(x[i], y[i]);
    assert x[i..][1..] == x[i + 1..] && y[i..][1..] == y[i + 1..];
  }

  lemma SmallDifference(d: int)
    ensures -0x8000_0000 <= d < 0x8000_0000 ==> Int32(d) == d
  {
  }

  /** Name::isPrefixOf. */
  method IsPrefixOf(a: Name, b: Name) returns (r: bool)
    ensures r <==> a <= b
  {
    if |a| > |b| {
      return false;
    }
    for i := 0 to |a|
      invariant a[..i] == b[..i]
    {
      if a[i] != b[i] {
        return false;
      }
    }
    return true;
  }

  function Contents(name: seq<Stored>): (n: Name)
    ensures |n| == |name|
  {
    seq(|name|, i requires 0 <= i < |name| => name[i].Content())
  }

  /** `x` with its last component replaced by the successor. */
  function SuccessorName(x: Name): seq<AnyComponent>
  {
    if x == [] then [Component(NAME_COMPONENT, [0])]
    else x[..|x| - 1] + [Successor(x[|x| - 1])]
  }

  /** Name::getSuccessor: fails for a last component whose size is undefined, and for the largest digest. */
  method GetSuccessor(name: seq<Stored>) returns (r: Result<Name, Blocks.Error>)
    requires forall c <- name :: c.WellFormed()
    ensures r.Ok? ==> r.value == SuccessorName(Contents(name))
    ensures r.Err? <==>
              && name != []
              && var last := name[|name| - 1];
                 last.Default? || last.Content() == Component(IMPLICIT_SHA256_DIGEST_COMPONENT, MAX_DIGEST)
  {
    if name == [] {
      return Ok([Component(NAME_COMPONENT, [0])]);
    }
    var last := name[|name| - 1];
    var next := NameComponents.GetSuccessor(last);
    SuccessorIsImmediate(last.Content(), last.Content());
    if next.Err? {
      return Err(next.error);
    }
    assert Contents(name)[..|name| - 1] == Contents(name[..|name| - 1]);
    return Ok(Contents(name[..|name| - 1]) + [next.value]);
  }

  /** The successor delimits a subtree: the names from `x` up to it are exactly those `x` is a prefix of. */
  lemma {:induction false} SuccessorDelimitsSubtree(x: Name, s: Name, z: Name)
    requires x != [] && s == SuccessorName(x)
    ensures Order(x, z) <= 0 && Order(z, s) < 0 <==> x <= z
  {
    if z != [] {
      CanonicalIsTotal(x[0], z[0]);
      CanonicalIsTotal(z[0], s[0]);
      if |x| == 1 {
        SuccessorIsImmediate(x[0], z[0]);
        CanonicalIsTotal(x[0], s[0]);
      } else if x[0] == z[0] {
        assert x[1..][..|x[1..]| - 1] == x[1..|x| - 1];
        assert s[1..] == SuccessorName(x[1..]);
        SuccessorDelimitsSubtree(x[1..], s[1..], z[1..]);
        assert x <= z <==> x[1..] <= z[1..];
      }
    }
  }

  /** Not so for the empty name, a prefix of every name: below its successor /%00 lie only itself and the
      names that begin with a digest or with an empty component. */
  lemma RootSuccessor(z: Name)
    ensures Order(z, SuccessorName([])) < 0
       <==> z == [] || z[0].typ == IMPLICIT_SHA256_DIGEST_COMPONENT || z[0].value == []
  {
    if z != [] {
      CanonicalIsTotal(z[0], SuccessorName([])[0]);
      if |z[0].value| == 1 {
        SingleOctet(z[0].value[0]);
        SingleOctet(0);
        assert z[0].value == [z[0].value[0]];
      }
    }
  }
}
