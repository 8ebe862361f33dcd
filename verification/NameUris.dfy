/** URI form of components and names (src/name-component.cpp, src/name.cpp, src/util/string-helper.cpp).
    A std::string is the sequence of its octets. */
module NameUris {
  import opened Results
  import opened Octets
  import opened Tlv
  import opened NameComponents
  import opened Names

  const PERCENT: byte := 0x25
  const DOT: byte := 0x2E
  const SLASH: byte := 0x2F
  const COLON: byte := 0x3A
  const EQUALS: byte := 0x3D

  /** "sha256digest=" */
  const DIGEST_PREFIX: seq<byte> :=
    [0x73, 0x68, 0x61, 0x32, 0x35, 0x36, 0x64, 0x69, 0x67, 0x65, 0x73, 0x74, EQUALS]

  datatype UriError =
    | BadDigest        // not 64 hexadecimal characters
    | IllegalComponent // empty, "." or ".."

  // ---- string helpers ----

  predicate IsSpace(c: byte)
  {
    c == 0x20 || 0x09 <= c <= 0x0D
  }

  function TrimLeft(s: seq<byte>): seq<byte>
  {
    if s != [] && IsSpace(s[0]) then TrimLeft(s[1..]) else s
  }

  function TrimRight(s: seq<byte>): seq<byte>
  {
    if s != [] && IsSpace(s[|s| - 1]) then TrimRight(s[..|s| - 1]) else s
  }

  function Trim(s: seq<byte>): seq<byte>
  {
    TrimRight(TrimLeft(s))
  }

  function HexDigit(n: nat, upper: bool): byte
    requires n < 16
  {
    if n < 10 then 0x30 + n else (if upper then 0x41 else 0x61) + n - 10
  }

  function FromHexChar(c: byte): int
  {
    if 0x30 <= c <= 0x39 then c - 0x30
    else if 0x41 <= c <= 0x46 then c - 0x41 + 0xA
    else if 0x61 <= c <= 0x66 then c - 0x61 + 0xA
    else -1
  }

  /** printHex in lower case. */
  function PrintHex(v: seq<byte>): seq<byte>
  {
    if v == [] then [] else [HexDigit(v[0] / 16, false), HexDigit(v[0] % 16, false)] + PrintHex(v[1..])
  }

  /** fromHex: an odd length or a character that is not hexadecimal is an error. */
  function FromHex(s: seq<byte>): Option<seq<byte>>
  {
    if s == [] then Some([])
    else if |s| == 1 || FromHexChar(s[0]) < 0 || FromHexChar(s[1]) < 0 then None
    else match FromHex(s[2..])
      case None => None
      case Some(rest) => Some([16 * FromHexChar(s[0]) + FromHexChar(s[1])] + rest)
  }

  /** unescape: an invalid escape is copied through, as is one cut off by the end. */
  function Unescape(s: seq<byte>): seq<byte>
  {
    if s == [] then []
    else if s[0] == PERCENT && |s| > 2 then
      var hi, lo := FromHexChar(s[1]), FromHexChar(s[2]);
      (if hi < 0 || lo < 0 then s[..3] else [16 * hi + lo]) + Unescape(s[3..])
    else [s[0]] + Unescape(s[1..])
  }

  function Find(s: seq<byte>, c: byte): (k: nat)
    ensures k <= |s| && c !in s[..k] && (k < |s| ==> s[k] == c)
  {
    if s == [] || s[0] == c then 0 else 1 + Find(s[1..], c)
  }

  // ---- components ----

  predicate Unreserved(x: byte)
  {
    0x30 <= x <= 0x39 || 0x41 <= x <= 0x5A || 0x61 <= x <= 0x7A || x in {0x2B, 0x2D, DOT, 0x5F}
  }

  predicate AllDots(v: seq<byte>)
  {
    forall x <- v :: x == DOT
  }

  /** Percent-encoding as in section 2.1 of RFC 3986. */
  function EscapeOctet(x: byte): seq<byte>
  {
    if Unreserved(x) then [x] else [PERCENT, HexDigit(x / 16, true), HexDigit(x % 16, true)]
  }

  function Escape(v: seq<byte>): seq<byte>
  {
    if v == [] then [] else EscapeOctet(v[0]) + Escape(v[1..])
  }

  function ComponentUri(c: Component): seq<byte>
  {
    if c.typ == IMPLICIT_SHA256_DIGEST_COMPONENT then DIGEST_PREFIX + PrintHex(c.value)
    else if AllDots(c.value) then [DOT, DOT, DOT] + c.value
    else Escape(c.value)
  }

  /** Component::toUri. */
  method ToUri(c: Component) returns (result: seq<byte>)
    ensures result == ComponentUri(c)
  {
    var value := c.value;
    if c.typ == IMPLICIT_SHA256_DIGEST_COMPONENT {
      return DIGEST_PREFIX + PrintHex(value);
    }
    var gotNonDot := GotNonDot(value);
    if gotNonDot {
      result := WriteEscaped(value);
    } else {
      result := [DOT, DOT, DOT];
      for k := 0 to |value|
        invariant result == [DOT, DOT, DOT] + value[..k]
      {
        assert value[k] in value;
        result := result + [DOT];
      }
      assert value[..|value|] == value;
    }
  }

  method GotNonDot(value: seq<byte>) returns (gotNonDot: bool)
    ensures gotNonDot <==> !AllDots(value)
  {
    gotNonDot := false;
    for i := 0 to |value|
      invariant !gotNonDot && AllDots(value[..i])
    {
      if value[i] != DOT {
        assert value[i] in value;
        return true;
      }
      assert value[..i + 1] == value[..i] + [value[i]];
    }
    assert value[..|value|] == value;
  }

  /** Upper-case hexadecimal, with the leading zero written apart. */
  method WriteEscaped(value: seq<byte>) returns (result: seq<byte>)
    ensures result == Escape(value)
  {
    hide EscapeOctet, Unreserved;
    result := [];
    assert value[0..] == value;
    for k := 0 to |value|
      invariant result + Escape(value[k..]) == Escape(value)
    {
      var octets := WriteOctet(value[k]);
      EscapeUnfolds(value, k);
      assert result + (octets + Escape(value[k + 1..])) == (result + octets) + Escape(value[k + 1..]);
      result := result + octets;
    }
  }

  method WriteOctet(x: byte) returns (octets: seq<byte>)
    ensures octets == EscapeOctet(x)
  {
    if Unreserved(x) {
      octets := [x];
    } else {
      octets := [PERCENT];
      if x < 16 {
        octets := octets + [0x30];
      }
      octets := octets + (if x < 16 then [HexDigit(x, true)] else [HexDigit(x / 16, true), HexDigit(x % 16, true)]);
    }
  }

  lemma EscapeUnfolds(value: seq<byte>, k: nat)
    requires k < |value|
    ensures Escape(value[k..]) == EscapeOctet(value[k]) + Escape(value[k + 1..])
  {
    assert value[k..][1..] == value[k + 1..];
  }

  /** Component::fromEscapedString on one stretch of a URI. */
  function FromEscapedString(s: seq<byte>): Result<Component, UriError>
  {
    var trimmed := Trim(s);
    if DIGEST_PREFIX <= trimmed then
      if |trimmed| != |DIGEST_PREFIX| + 2 * DIGEST_SIZE then Err(BadDigest)
      else match FromHex(trimmed[|DIGEST_PREFIX|..])
        case None => Err(BadDigest)
        case Some(digest) =>
          if |digest| == DIGEST_SIZE then Ok(Component(IMPLICIT_SHA256_DIGEST_COMPONENT, digest)) else Err(BadDigest)
    else
      var value := Unescape(trimmed);
      if AllDots(value) then
        if |value| <= 2 then Err(IllegalComponent) else Ok(Component(NAME_COMPONENT, value[3..]))
      else Ok(Component(NAME_COMPONENT, value))
  }

  // ---- names ----

  function NameUri(n: Name): seq<byte>
  {
    if n == [] then [SLASH] else Components(n)
  }

  function Components(n: Name): seq<byte>
  {
    if n == [] then [] else [SLASH] + (ComponentUri(n[0]) + Components(n[1..]))
  }

  function From(s: seq<byte>, start: nat): (r: seq<byte>)
    ensures start > 0 && s != [] ==> |r| < |s|
  {
    if start < |s| then s[start..] else []
  }

  /** The tail of the Name constructor: components between slashes, a trailing slash adding none. */
  function ParseComponents(uri: seq<byte>): Result<Name, UriError>
    decreases |uri|
  {
    if uri == [] then Ok([])
    else
      var k := Find(uri, SLASH);
      match FromEscapedString(uri[..k])
      case Err(e) => Err(e)
      case Ok(c) =>
        match ParseComponents(From(uri, k + 1))
        case Err(e) => Err(e)
        case Ok(rest) => Ok([c] + rest)
  }

  /** Its head: whitespace, a scheme, and a leading slash or authority go. */
  function StripHead(uri: seq<byte>): seq<byte>
  {
    AfterSlash(AfterScheme(Trim(uri)))
  }

  /** Up to the first colon, if it comes before any slash. */
  function AfterScheme(s: seq<byte>): seq<byte>
  {
    var colon, slash := Find(s, COLON), Find(s, SLASH);
    if colon < |s| && colon < slash then Trim(s[colon + 1..]) else s
  }

  function AfterSlash(t: seq<byte>): seq<byte>
  {
    if t == [] || t[0] != SLASH then t
    else if |t| >= 2 && t[1] == SLASH then
      var k := 2 + Find(t[2..], SLASH);
      if k == |t| then [] else Trim(t[k + 1..])
    else Trim(t[1..])
  }

  // ---- what the head may hold ----

  /** A scheme with its colon, or nothing. */
  predicate IsScheme(s: seq<byte>)
  {
    s == [] ||
    (var name := s[..|s| - 1];
     s[|s| - 1] == COLON && COLON !in name && SLASH !in name && forall x <- name :: !IsSpace(x))
  }

  /** Two slashes and an authority, or nothing. */
  predicate IsAuthority(s: seq<byte>)
  {
    s == [] || (|s| >= 2 && s[0] == s[1] == SLASH && SLASH !in s[2..])
  }

  predicate IsWhitespace(s: seq<byte>)
  {
    forall x <- s :: IsSpace(x)
  }

  /** Begins with a single slash and does not end in whitespace. */
  predicate IsPath(s: seq<byte>)
  {
    s != [] && s[0] == SLASH && (|s| > 1 ==> s[1] != SLASH) && !IsSpace(s[|s| - 1])
  }

  function Decorated(before: seq<byte>, scheme: seq<byte>, gap: seq<byte>, authority: seq<byte>, path: seq<byte>,
                     after: seq<byte>): seq<byte>
  {
    before + scheme + gap + (authority + path) + after
  }

  predicate Decoration(before: seq<byte>, scheme: seq<byte>, gap: seq<byte>, authority: seq<byte>, after: seq<byte>)
  {
    IsWhitespace(before) && IsScheme(scheme) && IsWhitespace(gap) && IsAuthority(authority) && IsWhitespace(after)
  }

  /** A scheme, an authority and surrounding whitespace do not change the name a path stands for. */
  lemma DecorationIsStripped(before: seq<byte>, scheme: seq<byte>, gap: seq<byte>, authority: seq<byte>,
                             path: seq<byte>, after: seq<byte>)
    requires Decoration(before, scheme, gap, authority, after) && IsPath(path)
    ensures StripHead(Decorated(before, scheme, gap, authority, path, after)) == StripHead(path)
  {
    hide Trim, Find, AfterScheme, AfterSlash, IsScheme, IsAuthority;
    BodyEnds(authority, path);
    HeadStripped(before, scheme, gap, authority + path, after);
    NoScheme(authority + path);
    SlashStripped(authority, path);
    PathStripped(path);
  }

  lemma PathStripped(path: seq<byte>)
    requires IsPath(path)
    ensures StripHead(path) == Trim(path[1..])
  {
    hide Trim, Find, AfterScheme, AfterSlash;
    assert [] + path == path && path + [] == path;
    SlashStripped([], path);
    NoScheme(path);
    TrimAround([], path, []);
  }

  lemma BodyEnds(authority: seq<byte>, path: seq<byte>)
    requires IsAuthority(authority) && IsPath(path)
    ensures authority + path != [] && (authority + path)[0] == SLASH
    ensures !IsSpace((authority + path)[|authority + path| - 1])
  {
  }

  lemma SchemeEnds(scheme: seq<byte>, gap: seq<byte>, body: seq<byte>)
    requires IsScheme(scheme) && scheme != [] && body != [] && !IsSpace(body[|body| - 1])
    ensures var s := scheme + gap + body; s != [] && !IsSpace(s[0]) && !IsSpace(s[|s| - 1])
  {
    assert scheme[0] == COLON || scheme[0] in scheme[..|scheme| - 1];
  }

  lemma SlashStripped(authority: seq<byte>, path: seq<byte>)
    requires IsAuthority(authority) && IsPath(path)
    ensures AfterSlash(authority + path) == Trim(path[1..])
  {
    hide Trim, Find;
    var t := authority + path;
    if authority != [] {
      FindAt(authority[2..], path, SLASH);
      assert t[2..] == authority[2..] + path;
      assert t[|authority| + 1..] == path[1..];
    } else {
      assert t == path;
    }
  }

  lemma NoScheme(body: seq<byte>)
    requires body != [] && body[0] == SLASH
    ensures AfterScheme(body) == body
  {
    hide Trim;
  }

  lemma SchemeStripped(scheme: seq<byte>, gap: seq<byte>, body: seq<byte>)
    requires IsScheme(scheme) && scheme != [] && IsWhitespace(gap)
    requires body != [] && !IsSpace(body[0]) && !IsSpace(body[|body| - 1])
    ensures AfterScheme(scheme + gap + body) == body
  {
    hide Trim, Find;
    var s, colon := scheme + gap + body, |scheme| - 1;
    assert scheme == scheme[..colon] + [COLON];
    FindAt(scheme[..colon], scheme[colon..] + gap + body, COLON);
    assert s == scheme[..colon] + (scheme[colon..] + gap + body);
    NotFoundYet(scheme, gap + body, SLASH);
    assert s == scheme + (gap + body);
    assert s[colon + 1..] == gap + body + [];
    TrimAround(gap, body, []);
  }

  lemma {:induction false} TrimAround(before: seq<byte>, s: seq<byte>, after: seq<byte>)
    requires IsWhitespace(before) && IsWhitespace(after) && s != [] && !IsSpace(s[0]) && !IsSpace(s[|s| - 1])
    ensures Trim(before + s + after) == s
  {
    TrimBefore(before, s + after);
    assert before + s + after == before + (s + after);
    TrimAfter(s, after);
  }

  lemma {:induction false} TrimBefore(before: seq<byte>, s: seq<byte>)
    requires IsWhitespace(before) && s != [] && !IsSpace(s[0])
    ensures TrimLeft(before + s) == s
  {
    if before == [] {
      assert before + s == s;
    } else {
      assert before[0] in before && (before + s)[1..] == before[1..] + s;
      TrimBefore(before[1..], s);
    }
  }

  lemma {:induction false} TrimAfter(s: seq<byte>, after: seq<byte>)
    requires IsWhitespace(after) && s != [] && !IsSpace(s[|s| - 1])
    ensures TrimRight(s + after) == s
  {
    if after == [] {
      assert s + after == s;
    } else {
      var n := |after| - 1;
      assert after[n] in after && (s + after)[..|s| + n] == s + after[..n];
      TrimAfter(s, after[..n]);
    }
  }

  lemma {:induction false} FindAt(a: seq<byte>, rest: seq<byte>, c: byte)
    requires c !in a && rest != [] && rest[0] == c
    ensures Find(a + rest, c) == |a|
  {
    if a == [] {
      assert a + rest == rest;
    } else {
      assert (a + rest)[1..] == a[1..] + rest;
      FindAt(a[1..], rest, c);
    }
  }

  lemma NotFoundYet(a: seq<byte>, rest: seq<byte>, c: byte)
    requires c !in a
    ensures Find(a + rest, c) >= |a|
  {
    assert forall k :: 0 <= k < |a| ==> (a + rest)[k] == a[k];
  }

  /** An authority with no path is dropped. */
  lemma AuthorityAlone(before: seq<byte>, scheme: seq<byte>, gap: seq<byte>, authority: seq<byte>, after: seq<byte>)
    requires Decoration(before, scheme, gap, authority, after) && authority != []
    requires !IsSpace(authority[|authority| - 1])
    ensures StripHead(Decorated(before, scheme, gap, authority, [], after)) == []
  {
    hide Trim, Find, AfterScheme, AfterSlash, IsScheme;
    assert authority + [] == authority;
    HeadStripped(before, scheme, gap, authority, after);
    NoScheme(authority);
    NothingAfter(authority);
  }

  lemma NothingAfter(authority: seq<byte>)
    requires IsAuthority(authority) && authority != []
    ensures AfterSlash(authority) == []
  {
    hide Trim;
    assert forall k :: 0 <= k < |authority[2..]| ==> authority[2..][k] in authority[2..];
  }

  /** What follows whitespace and a scheme, if it is left alone by itself. */
  lemma HeadStripped(before: seq<byte>, scheme: seq<byte>, gap: seq<byte>, body: seq<byte>, after: seq<byte>)
    requires IsWhitespace(before) && IsScheme(scheme) && IsWhitespace(gap) && IsWhitespace(after)
    requires body != [] && !IsSpace(body[0]) && !IsSpace(body[|body| - 1])
    ensures AfterScheme(Trim(before + scheme + gap + body + after)) == if scheme == [] then AfterScheme(body) else body
  {
    hide Trim, Find, AfterScheme, IsScheme;
    var uri := before + scheme + gap + body + after;
    if scheme == [] {
      assert uri == (before + gap) + body + after;
      TrimAround(before + gap, body, after);
    } else {
      assert uri == before + (scheme + gap + body) + after;
      SchemeEnds(scheme, gap, body);
      TrimAround(before, scheme + gap + body, after);
      SchemeStripped(scheme, gap, body);
    }
  }

  // ---- stretches between slashes ----

  function Joined(stretches: seq<seq<byte>>): seq<byte>
  {
    if stretches == [] then []
    else if |stretches| == 1 then stretches[0]
    else stretches[0] + ([SLASH] + Joined(stretches[1..]))
  }

  /** The stretches that make components: an empty last one makes none. */
  function Used(stretches: seq<seq<byte>>): seq<seq<byte>>
  {
    if stretches != [] && stretches[|stretches| - 1] == [] then stretches[..|stretches| - 1] else stretches
  }

  /** The components of the stretches in order, or the error of the first illegal one. */
  ghost predicate Outcome(used: seq<seq<byte>>, r: Result<Name, UriError>)
  {
    match r
    case Ok(n) => |n| == |used| && forall i :: 0 <= i < |used| ==> FromEscapedString(used[i]) == Ok(n[i])
    case Err(e) =>
      exists i :: 0 <= i < |used| && FromEscapedString(used[i]) == Err(e)
                  && forall j :: 0 <= j < i ==> FromEscapedString(used[j]).Ok?
  }

  lemma {:induction false} JoinedParses(stretches: seq<seq<byte>>)
    requires stretches != [] && forall s <- stretches :: SLASH !in s
    ensures Outcome(Used(stretches), ParseComponents(Joined(stretches)))
  {
    hide FromEscapedString, ParseComponents, Find, Outcome;
    var first := stretches[0];
    assert first in stretches;
    if |stretches| == 1 {
      FindNone(first, SLASH);
      OneStretch(first);
      assert Used(stretches) == if first == [] then [] else [first];
    } else {
      var rest := stretches[1..];
      JoinedParses(rest);
      FirstParses(first, Joined(rest));
      assert Used(stretches) == [first] + Used(rest);
      OutcomeCons(first, Used(rest), ParseComponents(Joined(rest)));
    }
  }

  lemma FirstParses(first: seq<byte>, rest: seq<byte>)
    requires SLASH !in first
    ensures var component := FromEscapedString(first);
            ParseComponents(first + ([SLASH] + rest)) ==
              if component.Ok? then Prefixed([component.value], ParseComponents(rest)) else Err(component.error)
  {
    hide FromEscapedString, ParseComponents, Find, Prefixed;
    var uri := first + ([SLASH] + rest);
    FindAt(first, [SLASH] + rest, SLASH);
    assert uri[..|first|] == first;
    assert From(uri, |first| + 1) == rest;
    ParseUnfolds(uri);
  }

  lemma {:induction false} FindNone(s: seq<byte>, c: byte)
    requires c !in s
    ensures Find(s, c) == |s|
  {
    if s != [] {
      FindNone(s[1..], c);
    }
  }

  lemma OneStretch(first: seq<byte>)
    requires Find(first, SLASH) == |first|
    ensures Outcome(if first == [] then [] else [first], ParseComponents(first))
  {
    hide FromEscapedString, ParseComponents, Find;
    ParseNothing();
    if first != [] {
      ParseUnfolds(first);
      assert first[..|first|] == first;
      assert From(first, |first| + 1) == [];
    }
  }

  lemma OutcomeCons(first: seq<byte>, used: seq<seq<byte>>, r: Result<Name, UriError>)
    requires Outcome(used, r)
    ensures Outcome([first] + used,
                    match FromEscapedString(first)
                    case Err(e) => Err(e)
                    case Ok(c) => Prefixed([c], r))
  {
    hide FromEscapedString;
    var all := [first] + used;
    assert all[0] == first;
    if FromEscapedString(first).Ok? && r.Err? {
      var i :| 0 <= i < |used| && FromEscapedString(used[i]) == Err(r.error)
               && forall j :: 0 <= j < i ==> FromEscapedString(used[j]).Ok?;
      assert all[i + 1] == used[i];
      forall j | 0 <= j < i + 1
        ensures FromEscapedString(all[j]).Ok?
      {
        assert j == 0 || all[j] == used[j - 1];
      }
    }
  }

  /** Pieces without slashes that begin and end without whitespace when joined. */
  ghost predicate Stretches(stretches: seq<seq<byte>>)
    requires stretches != []
  {
    var first, last := stretches[0], stretches[|stretches| - 1];
    && (first != [] ==> !IsSpace(first[0])) && (last != [] ==> !IsSpace(last[|last| - 1]))
    && forall s <- stretches :: SLASH !in s
  }

  /** A URI that begins with a component: the first stretch is not empty and has no colon. */
  ghost predicate Relative(stretches: seq<seq<byte>>)
  {
    stretches != [] && Stretches(stretches) && stretches[0] != [] && COLON !in stretches[0]
  }

  /** Behind the leading slash: the first stretch is not empty, or it is all there is. */
  ghost predicate Absolute(stretches: seq<seq<byte>>)
  {
    stretches != [] && Stretches(stretches) && (stretches[0] != [] || |stretches| == 1)
  }

  lemma {:induction false} JoinedEnds(stretches: seq<seq<byte>>)
    requires stretches != [] && Stretches(stretches)
    ensures var u := Joined(stretches);
            && (u != [] ==> !IsSpace(u[|u| - 1]))
            && (stretches[0] != [] ==> u != [] && u[0] == stretches[0][0] != SLASH)
  {
    assert stretches[0] in stretches;
    if |stretches| > 1 {
      LastOfJoined(stretches);
    }
  }

  lemma {:induction false} LastOfJoined(stretches: seq<seq<byte>>)
    requires |stretches| > 1
    ensures var u, last := Joined(stretches), stretches[|stretches| - 1];
            u != [] && u[|u| - 1] == if last == [] then SLASH else last[|last| - 1]
  {
    var u, rest := Joined(stretches), Joined(stretches[1..]);
    assert u == stretches[0] + [SLASH] + rest;
    if |stretches| > 2 {
      LastOfJoined(stretches[1..]);
    }
  }

  /** A URI without a leading slash is kept as it is. */
  lemma RelativeIsKept(before: seq<byte>, scheme: seq<byte>, gap: seq<byte>, stretches: seq<seq<byte>>,
                       after: seq<byte>)
    requires Decoration(before, scheme, gap, [], after) && Relative(stretches)
    ensures StripHead(Decorated(before, scheme, gap, [], Joined(stretches), after)) == Joined(stretches)
  {
    hide Trim, Find, AfterScheme, IsScheme;
    var u := Joined(stretches);
    JoinedEnds(stretches);
    assert [] + u == u;
    HeadStripped(before, scheme, gap, u, after);
    FirstIsNoScheme(stretches);
  }

  lemma FirstIsNoScheme(stretches: seq<seq<byte>>)
    requires stretches != [] && COLON !in stretches[0] && SLASH !in stretches[0]
    ensures AfterScheme(Joined(stretches)) == Joined(stretches)
  {
    hide Trim, Find;
    if |stretches| == 1 {
      ColonFree(stretches[0]);
    } else {
      var rest := [SLASH] + Joined(stretches[1..]);
      NotFoundYet(stretches[0], rest, COLON);
      FindAt(stretches[0], rest, SLASH);
    }
  }

  lemma ColonFree(s: seq<byte>)
    requires COLON !in s
    ensures AfterScheme(s) == s
  {
    hide Trim, Find;
    FindNone(s, COLON);
  }

  lemma AbsoluteIsStripped(before: seq<byte>, scheme: seq<byte>, gap: seq<byte>, authority: seq<byte>,
                           stretches: seq<seq<byte>>, after: seq<byte>)
    requires Decoration(before, scheme, gap, authority, after) && Absolute(stretches)
    ensures StripHead(Decorated(before, scheme, gap, authority, [SLASH] + Joined(stretches), after))
         == Joined(stretches)
  {
    hide Trim, StripHead, Decorated, Decoration, Joined;
    var u := Joined(stretches);
    JoinedEnds(stretches);
    if |stretches| == 1 {
      OnlyStretch(stretches);
    }
    var path := [SLASH] + u;
    assert IsPath(path) && path[1..] == u;
    DecorationIsStripped(before, scheme, gap, authority, path, after);
    PathStripped(path);
    TrimEnds(u);
  }

  lemma OnlyStretch(stretches: seq<seq<byte>>)
    requires |stretches| == 1
    ensures Joined(stretches) == stretches[0]
  {
  }

  lemma TrimEnds(s: seq<byte>)
    requires Trimmed(s)
    ensures Trim(s) == s
  {
  }

  /** The printed form of a name is also read back without its leading slash. */
  lemma RelativeRoundTrip(before: seq<byte>, scheme: seq<byte>, gap: seq<byte>, n: Name, after: seq<byte>)
    requires n != [] && Decoration(before, scheme, gap, [], after)
    ensures ParseComponents(StripHead(Decorated(before, scheme, gap, [], WithoutSlash(n), after))) == Ok(n)
  {
    hide Trim, Find, AfterScheme, IsScheme, ParseComponents, Components;
    var u := WithoutSlash(n);
    ComponentsCharacters(n);
    ComponentsRoundTrip(n);
    PrintedEnds(n);
    assert [] + u == u;
    HeadStripped(before, scheme, gap, u, after);
    ColonFree(u);
  }

  /** "a/b" for the name /a/b. */
  function WithoutSlash(n: Name): seq<byte>
    requires n != []
  {
    Components(n)[1..]
  }

  lemma PrintedEnds(n: Name)
    requires n != []
    ensures var u := WithoutSlash(n);
            && Components(n) == [SLASH] + u && u != [] && u[0] != SLASH
            && !IsSpace(u[0]) && !IsSpace(u[|u| - 1]) && COLON !in u
  {
    hide ComponentUri, Components;
    ComponentsCharacters(n);
    StartsWithSlash(n);
    var all := Components(n);
    var u := all[1..];
    assert u[0] == all[1] && u[|u| - 1] == all[|all| - 1];
    forall k | 0 <= k < |u|
      ensures u[k] != COLON
    {
      assert u[k] in all;
    }
  }

  /** Name(std::string uri): whatever scheme, authority and whitespace surround the printed form of a name, with
      its leading slash or without, the name is read back. Any stretches between slashes are read in order, up to
      the first illegal one. */
  method ParseName(uri: seq<byte>) returns (r: Result<Name, UriError>)
    ensures r == ParseComponents(StripHead(uri))
    ensures forall before, scheme, gap, authority, n, after ::
              (uri == Decorated(before, scheme, gap, authority, NameUri(n), after)
               && Decoration(before, scheme, gap, authority, after)) ==> r == Ok(n)
    ensures forall before, scheme, gap, n, after ::
              (n != [] && uri == Decorated(before, scheme, gap, [], WithoutSlash(n), after)
               && Decoration(before, scheme, gap, [], after)) ==> r == Ok(n)
    ensures forall before, scheme, gap, stretches, after ::
              (uri == Decorated(before, scheme, gap, [], Joined(stretches), after)
               && Decoration(before, scheme, gap, [], after) && Relative(stretches)) ==>
                Outcome(Used(stretches), r)
    ensures forall before, scheme, gap, authority, stretches, after ::
              (uri == Decorated(before, scheme, gap, authority, [SLASH] + Joined(stretches), after)
               && Decoration(before, scheme, gap, authority, after) && Absolute(stretches)) ==>
                Outcome(Used(stretches), r)
  {
    hide StripHead, Decorated, Decoration, NameUri, WithoutSlash, ParseComponents;
    hide Joined, Used, Outcome, Relative, Absolute;
    r := ParseStripped(StripHead(uri));
    forall before, scheme, gap, authority, n, after |
      uri == Decorated(before, scheme, gap, authority, NameUri(n), after)
      && Decoration(before, scheme, gap, authority, after)
      ensures ParseComponents(StripHead(uri)) == Ok(n)
    {
      PrintedIsPath(n);
      DecorationIsStripped(before, scheme, gap, authority, NameUri(n), after);
      UriRoundTrip(n);
    }
    forall before, scheme, gap, n, after |
      n != [] && uri == Decorated(before, scheme, gap, [], WithoutSlash(n), after)
      && Decoration(before, scheme, gap, [], after)
      ensures ParseComponents(StripHead(uri)) == Ok(n)
    {
      RelativeRoundTrip(before, scheme, gap, n, after);
    }
    forall before, scheme, gap, stretches, after |
      uri == Decorated(before, scheme, gap, [], Joined(stretches), after)
      && Decoration(before, scheme, gap, [], after) && Relative(stretches)
      ensures Outcome(Used(stretches), ParseComponents(StripHead(uri)))
    {
      RelativeIsKept(before, scheme, gap, stretches, after);
      StretchesParse(stretches);
    }
    forall before, scheme, gap, authority, stretches, after |
      uri == Decorated(before, scheme, gap, authority, [SLASH] + Joined(stretches), after)
      && Decoration(before, scheme, gap, authority, after) && Absolute(stretches)
      ensures Outcome(Used(stretches), ParseComponents(StripHead(uri)))
    {
      AbsoluteIsStripped(before, scheme, gap, authority, stretches, after);
      StretchesParse(stretches);
    }
  }

  lemma StretchesParse(stretches: seq<seq<byte>>)
    requires Relative(stretches) || Absolute(stretches)
    ensures Outcome(Used(stretches), ParseComponents(Joined(stretches)))
  {
    hide FromEscapedString;
    JoinedParses(stretches);
  }

  // ---- which stretches are legal ----

  /** No whitespace around. */
  predicate Trimmed(s: seq<byte>)
  {
    s != [] ==> !IsSpace(s[0]) && !IsSpace(s[|s| - 1])
  }

  /** Whitespace around a stretch does not matter. */
  lemma SpaceAround(before: seq<byte>, s: seq<byte>, after: seq<byte>)
    requires IsWhitespace(before) && IsWhitespace(after) && Trimmed(s)
    ensures FromEscapedString(before + s + after) == FromEscapedString(s)
  {
    hide Trim, Unescape, FromHex, AllDots;
    TrimEnds(s);
    if s == [] {
      Blank(before + s + after);
    } else {
      TrimAround(before, s, after);
    }
  }

  lemma {:induction false} Blank(s: seq<byte>)
    requires IsWhitespace(s)
    ensures Trim(s) == []
  {
    if s != [] {
      assert s[0] in s && forall x <- s[1..] :: x in s;
      Blank(s[1..]);
    }
  }

  /** Illegal are, unescaped, the empty stretch, "." and ".."; and what begins like a digest and is not one. */
  lemma IllegalMeans(s: seq<byte>)
    requires Trimmed(s)
    ensures FromEscapedString(s) == Err(BadDigest) <==>
              DIGEST_PREFIX <= s && !(|s| == 77 && forall c <- s[13..] :: FromHexChar(c) >= 0)
    ensures FromEscapedString(s) == Err(IllegalComponent) <==>
              !(DIGEST_PREFIX <= s) && Unescape(s) in [[], [DOT], [DOT, DOT]]
  {
    TrimEnds(s);
    if DIGEST_PREFIX <= s {
      BadDigestMeans(s);
    } else {
      hide Unescape;
      ShortDots(Unescape(s));
    }
  }

  lemma BadDigestMeans(s: seq<byte>)
    requires Trim(s) == s && DIGEST_PREFIX <= s
    ensures FromEscapedString(s) == Err(BadDigest) <==>
              !(|s| == 77 && forall c <- s[13..] :: FromHexChar(c) >= 0)
    ensures FromEscapedString(s) != Err(IllegalComponent)
  {
    hide Trim, FromHex, FromHexChar;
    FromHexMeans(s[13..]);
  }

  lemma ShortDots(v: seq<byte>)
    ensures AllDots(v) && |v| <= 2 <==> v in [[], [DOT], [DOT, DOT]]
  {
    if AllDots(v) && |v| <= 2 {
      assert |v| > 0 ==> v[0] in v;
      assert |v| > 1 ==> v[1] in v;
      assert v == [] || v == [DOT] || v == [DOT, DOT];
    }
  }

  lemma {:induction false} FromHexMeans(s: seq<byte>)
    ensures FromHex(s).Some? <==> |s| % 2 == 0 && forall c <- s :: FromHexChar(c) >= 0
    ensures FromHex(s).Some? ==> 2 * |FromHex(s).value| == |s|
  {
    hide FromHexChar;
    if |s| >= 2 {
      FromHexMeans(s[2..]);
      assert s == [s[0], s[1]] + s[2..];
    }
  }

  /** Legal ones without escapes: more than two dots lose three of them, all else is taken as it is. */
  lemma PlainStretch(s: seq<byte>)
    requires Trimmed(s) && PERCENT !in s && !(DIGEST_PREFIX <= s) && s !in [[], [DOT], [DOT, DOT]]
    ensures (exists k :: 0 <= k < |s| && s[k] != 0x2E) ==> FromEscapedString(s) == Ok(Component(8, s))
    ensures (forall k :: 0 <= k < |s| ==> s[k] == 0x2E) ==>
              |s| >= 3 && FromEscapedString(s) == Ok(Component(8, s[3..]))
  {
    TrimEnds(s);
    NoEscapes(s);
    ShortDots(s);
    assert forall k :: 0 <= k < |s| ==> s[k] in s;
  }

  lemma {:induction false} NoEscapes(s: seq<byte>)
    requires PERCENT !in s
    ensures Unescape(s) == s
  {
    if s != [] {
      NoEscapes(s[1..]);
    }
  }

  /** A percent sign stands for an octet if two hexadecimal digits follow, and for itself otherwise. */
  lemma EscapeReads(a: byte, b: byte, rest: seq<byte>)
    ensures Unescape([PERCENT, a, b] + rest) ==
            (if FromHexChar(a) >= 0 && FromHexChar(b) >= 0 then [16 * FromHexChar(a) + FromHexChar(b)]
             else [PERCENT, a, b]) + Unescape(rest)
    ensures Unescape([PERCENT, a]) == [PERCENT] + Unescape([a]) && Unescape([PERCENT]) == [PERCENT]
  {
    var s := [PERCENT, a, b] + rest;
    assert s[3..] == rest && s[..3] == [PERCENT, a, b];
    assert [PERCENT, a][1..] == [a] && [PERCENT][1..] == [];
  }

  /** Digits, letters and four marks are printed as they are; the rest is escaped. */
  lemma CharacterClasses(x: byte)
    ensures EscapeOctet(x) == [x] <==>
              0x30 <= x <= 0x39 || 0x41 <= x <= 0x5A || 0x61 <= x <= 0x7A
              || x == 0x2B || x == 0x2D || x == 0x2E || x == 0x5F
    ensures FromHexChar(x) >= 0 <==> 0x30 <= x <= 0x39 || 0x41 <= x <= 0x46 || 0x61 <= x <= 0x66
    ensures IsSpace(x) <==> x == 0x20 || x == 0x09 || x == 0x0A || x == 0x0B || x == 0x0C || x == 0x0D
  {
  }

  /** What is escaped is so in upper case; a digest is printed in lower case behind "sha256digest="; three dots are
      put in front of a value of dots only. */
  lemma PrintedForms(x: byte, c: Component)
    ensures var (hi, lo) := (x / 16, x % 16);
            && EscapeOctet(x) in [[x], [0x25, if hi < 10 then 0x30 + hi else 0x37 + hi,
                                        if lo < 10 then 0x30 + lo else 0x37 + lo]]
            && PrintHex([x]) == [if hi < 10 then 0x30 + hi else 0x57 + hi, if lo < 10 then 0x30 + lo else 0x57 + lo]
    ensures c.typ == 1 ==>
              ComponentUri(c) ==
              [0x73, 0x68, 0x61, 0x32, 0x35, 0x36, 0x64, 0x69, 0x67, 0x65, 0x73, 0x74, 0x3D] + PrintHex(c.value)
    ensures ComponentUri(Component(8, [])) == [0x2E, 0x2E, 0x2E]
    ensures ComponentUri(Component(8, [0x2E])) == [0x2E, 0x2E, 0x2E, 0x2E]
    ensures ComponentUri(Component(8, [0x61])) == [0x61]
  {
    assert [x][1..] == [];
    assert !AllDots([0x61]) by {
      assert [0x61][0] in [0x61];
    }
    assert [0x61][1..] == [];
  }

  lemma PrintedIsPath(n: Name)
    ensures IsPath(NameUri(n))
  {
    hide Components, ComponentUri;
    ComponentsCharacters(n);
    StartsWithSlash(n);
  }

  lemma StartsWithSlash(n: Name)
    ensures n != [] ==> Components(n) != [] && Components(n)[0] == SLASH
  {
  }

  function Prefixed(name: Name, r: Result<Name, UriError>): Result<Name, UriError>
  {
    if r.Ok? then Ok(name + r.value) else r
  }

  lemma ParseStep(s: seq<byte>, start: nat, name: Name)
    requires start < |s|
    ensures var k := start + Find(s[start..], SLASH);
            Prefixed(name, ParseComponents(From(s, start))) ==
              match FromEscapedString(s[start..k])
              case Err(e) => Err(e)
              case Ok(c) => Prefixed(name + [c], ParseComponents(From(s, k + 1)))
  {
    hide FromEscapedString, Find;
    var t := s[start..];
    var k := Find(t, SLASH);
    ParseUnfolds(t);
    assert s[start..start + k] == t[..k];
    assert From(s, start + k + 1) == From(t, k + 1);
    PrefixedAssociates(name, FromEscapedString(t[..k]), ParseComponents(From(t, k + 1)));
  }

  lemma ParseUnfolds(t: seq<byte>)
    requires t != []
    ensures var k := Find(t, SLASH);
            ParseComponents(t) == match FromEscapedString(t[..k])
                                  case Err(e) => Err(e)
                                  case Ok(c) => Prefixed([c], ParseComponents(From(t, k + 1)))
  {
    hide FromEscapedString, Find;
  }

  lemma ParseNothing()
    ensures ParseComponents([]) == Ok([])
  {
  }

  lemma PrefixedAssociates(name: Name, c: Result<Component, UriError>, r: Result<Name, UriError>)
    ensures c.Ok? ==> Prefixed(name, Prefixed([c.value], r)) == Prefixed(name + [c.value], r)
  {
    if c.Ok? && r.Ok? {
      assert name + ([c.value] + r.value) == (name + [c.value]) + r.value;
    }
  }

  /** The component loop of the constructor. */
  method ParseStripped(s: seq<byte>) returns (r: Result<Name, UriError>)
    ensures r == ParseComponents(s)
  {
    hide FromEscapedString, Find, ParseComponents;
    ParseNothing();
    var name: Name, iComponentStart := [], 0;
    assert From(s, 0) == s;
    if ParseComponents(s).Ok? {
      assert [] + ParseComponents(s).value == ParseComponents(s).value;
    }
    while iComponentStart < |s|
      invariant Prefixed(name, ParseComponents(From(s, iComponentStart))) == ParseComponents(s)
    {
      var iComponentEnd := iComponentStart + Find(s[iComponentStart..], SLASH);
      ParseStep(s, iComponentStart, name);
      var component := FromEscapedString(s[iComponentStart..iComponentEnd]);
      if component.Err? {
        return Err(component.error);
      }
      name := name + [component.value];
      iComponentStart := iComponentEnd + 1;
    }
    assert name + [] == name;
    return Ok(name);
  }

  // ---- round trip ----

  predicate UriCharacter(c: byte)
  {
    Unreserved(c) || c == PERCENT || c == EQUALS
  }

  lemma {:induction false} HexRoundTrip(v: seq<byte>)
    ensures FromHex(PrintHex(v)) == Some(v) && |PrintHex(v)| == 2 * |v|
    ensures forall c <- PrintHex(v) :: Unreserved(c)
  {
    if v != [] {
      HexRoundTrip(v[1..]);
      var p, rest := PrintHex(v), PrintHex(v[1..]);
      HexDigitReads(v[0] / 16, false);
      HexDigitReads(v[0] % 16, false);
      assert p == [p[0], p[1]] + rest && p[2..] == rest;
      assert v == [v[0]] + v[1..];
    }
  }

  lemma HexDigitReads(n: nat, upper: bool)
    requires n < 16
    ensures FromHexChar(HexDigit(n, upper)) == n && Unreserved(HexDigit(n, upper))
  {
  }

  lemma {:induction false} EscapeRoundTrip(v: seq<byte>)
    ensures Unescape(Escape(v)) == v && (v != [] ==> Escape(v) != [])
    ensures forall c <- Escape(v) :: Unreserved(c) || c == PERCENT
  {
    if v != [] {
      EscapeRoundTrip(v[1..]);
      HexDigitReads(v[0] / 16, true);
      HexDigitReads(v[0] % 16, true);
      assert v == [v[0]] + v[1..];
      var e := Escape(v);
      if Unreserved(v[0]) {
        assert e[0] == v[0] && e[1..] == Escape(v[1..]);
      } else {
        assert e[..3] == EscapeOctet(v[0]) && e[3..] == Escape(v[1..]);
      }
    }
  }

  lemma {:induction false} DotsUnescape(s: seq<byte>)
    requires AllDots(s)
    ensures Unescape(s) == s
  {
    if s != [] {
      assert s[0] in s && forall x <- s[1..] :: x in s;
      DotsUnescape(s[1..]);
    }
  }

  lemma DigestPrefixCharacters()
    ensures forall x <- DIGEST_PREFIX :: UriCharacter(x)
  {
  }

  /** Printed components are non-empty and free of slashes, colons and whitespace. */
  lemma ComponentUriCharacters(c: Component)
    ensures ComponentUri(c) != [] && forall x <- ComponentUri(c) :: UriCharacter(x)
    ensures c.typ == NAME_COMPONENT ==> EQUALS !in ComponentUri(c)
  {
    if c.typ == IMPLICIT_SHA256_DIGEST_COMPONENT {
      HexRoundTrip(c.value);
      DigestPrefixCharacters();
    } else if !AllDots(c.value) {
      EscapeRoundTrip(c.value);
    }
  }

  /** A component is read back from its URI, dots and digests included; no generic component reads as a
      digest. */
  lemma ComponentRoundTrip(c: Component)
    ensures FromEscapedString(ComponentUri(c)) == Ok(c)
  {
    var uri := ComponentUri(c);
    ComponentUriCharacters(c);
    assert uri[0] in uri && uri[|uri| - 1] in uri;
    TrimEnds(uri);
    if c.typ == IMPLICIT_SHA256_DIGEST_COMPONENT {
      HexRoundTrip(c.value);
      assert uri[|DIGEST_PREFIX|..] == PrintHex(c.value);
    } else {
      NoPrefix(uri);
      if AllDots(c.value) {
        DotsUnescape(uri);
        assert uri[3..] == c.value;
      } else {
        EscapeRoundTrip(c.value);
      }
    }
  }

  lemma NoPrefix(uri: seq<byte>)
    requires EQUALS !in uri
    ensures !(DIGEST_PREFIX <= uri)
  {
    assert DIGEST_PREFIX[12] == EQUALS;
    if |uri| > 12 {
      assert uri[12] in uri;
    }
  }

  lemma {:induction false} ComponentsRoundTrip(n: Name)
    requires n != []
    ensures ParseComponents(Components(n)[1..]) == Ok(n)
  {
    hide FromEscapedString, ComponentUri;
    var first, others := n[0], n[1..];
    if others != [] {
      ComponentsRoundTrip(others);
    }
    ComponentUriCharacters(first);
    ComponentRoundTrip(first);
    ParseFirst(ComponentUri(first), Components(others), first, others);
    assert Components(n)[1..] == ComponentUri(first) + Components(others);
    assert n == [first] + others;
  }

  lemma ParseFirst(c: seq<byte>, rest: seq<byte>, first: Component, others: Name)
    requires c != [] && (forall x <- c :: UriCharacter(x)) && FromEscapedString(c) == Ok(first)
    requires rest == [] || (rest[0] == SLASH && ParseComponents(rest[1..]) == Ok(others))
    requires rest == [] ==> others == []
    ensures ParseComponents(c + rest) == Ok([first] + others)
  {
    var uri := c + rest;
    FindAfter(c, rest);
    assert uri[..|c|] == c;
    if rest == [] {
      assert |uri| == |c|;
    } else {
      assert uri[|c| + 1..] == rest[1..];
    }
  }

  lemma {:induction false} FindAfter(c: seq<byte>, rest: seq<byte>)
    requires forall x <- c :: UriCharacter(x)
    requires rest == [] || rest[0] == SLASH
    ensures Find(c + rest, SLASH) == |c|
  {
    if c == [] {
      assert c + rest == rest;
    } else {
      assert c[0] in c;
      assert (c + rest)[1..] == c[1..] + rest;
      FindAfter(c[1..], rest);
    }
  }

  lemma {:induction false} ComponentsCharacters(n: Name)
    ensures forall x <- Components(n) :: UriCharacter(x) || x == SLASH
    ensures n != [] ==> |Components(n)| >= 2 && UriCharacter(Components(n)[1])
    ensures n != [] ==> UriCharacter(Components(n)[|Components(n)| - 1])
  {
    hide ComponentUri, UriCharacter;
    if n != [] {
      var c, rest := ComponentUri(n[0]), Components(n[1..]);
      ComponentUriCharacters(n[0]);
      ComponentsCharacters(n[1..]);
      assert Components(n)[1] == c[0] && c[0] in c && c[|c| - 1] in c;
      assert forall x <- Components(n) :: x == SLASH || x in c || x in rest;
    }
  }

  /** Printing and parsing are inverse on every name. */
  lemma UriRoundTrip(n: Name)
    ensures ParseComponents(StripHead(NameUri(n))) == Ok(n)
  {
    hide StripHead, ParseComponents, Components;
    PrintedIsPath(n);
    PathStripped(NameUri(n));
    if n == [] {
      ParseNothing();
    } else {
      PrintedEnds(n);
      TrimEnds(WithoutSlash(n));
      ComponentsRoundTrip(n);
    }
  }
}
