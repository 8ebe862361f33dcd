/** Interest matching (src/interest.cpp). */
module Interests {
  import opened Results
  import opened Octets
  import opened Tlv
  import opened NameComponents
  import opened Names
  import opened ExcludeMaps

  /** Negative numbers stand for absent selectors, as in the source; `publisher` and `link` are wires. */
  datatype Selectors = Selectors(
    minSuffixComponents: int, maxSuffixComponents: int, publisher: Option<seq<byte>>,
    exclude: Entries, childSelector: int, mustBeFresh: bool)

  datatype Interest = Interest(
    name: Name, selectors: Selectors, nonce: seq<byte>, lifetime: int,
    link: Option<seq<byte>>, selectedDelegation: Option<nat>)

  /** `digest` is the SHA-256 of the packet, `keyLocator` the KeyLocator element of its SignatureInfo. */
  datatype Data = Data(name: Name, digest: Digest, keyLocator: Option<seq<byte>>)

  type Digest = d: seq<byte> | |d| == DIGEST_SIZE witness seq(DIGEST_SIZE, _ => 0)

  function FullName(d: Data): Name
  {
    d.name + [Component(IMPLICIT_SHA256_DIGEST_COMPONENT, d.digest)]
  }

  /** Interest::matchesName, for a name that includes the implicit digest. */
  predicate MatchesName(i: Interest, name: Name)
  {
    var (min, max) := (i.selectors.minSuffixComponents, i.selectors.maxSuffixComponents);
    if |name| < |i.name| then false
    else if !(i.name <= name) then false
    else if min >= 0 && !(|name| - |i.name| >= min) then false
    else if max >= 0 && !(|name| - |i.name| <= max) then false
    else if i.selectors.exclude != [] && |name| > |i.name| && IsExcluded(i.selectors.exclude, name[|i.name|]) then false
    else true
  }

  /** The last check of matchesData. */
  predicate PublisherMatches(i: Interest, d: Data)
  {
    i.selectors.publisher.Some? ==> d.keyLocator == i.selectors.publisher
  }

  /** Interest::matchesData, which computes the digest only when it must. */
  predicate MatchesData(i: Interest, d: Data)
  {
    var interestNameLength, fullNameLength := |i.name|, |d.name| + 1;
    var minSuffixComponents := if i.selectors.minSuffixComponents >= 0 then i.selectors.minSuffixComponents else 0;
    if !(interestNameLength + minSuffixComponents <= fullNameLength) then false
    else if i.selectors.maxSuffixComponents >= 0
            && !(interestNameLength + i.selectors.maxSuffixComponents >= fullNameLength) then false
    else if interestNameLength == fullNameLength && !i.name[|i.name| - 1].IsDigest() then false
    else if interestNameLength == fullNameLength && i.name != FullName(d) then false
    else if interestNameLength != fullNameLength && !(i.name <= d.name) then false
    else if i.selectors.exclude != [] && fullNameLength > interestNameLength
            && IsExcluded(i.selectors.exclude,
                          if interestNameLength == fullNameLength - 1 then FullName(d)[interestNameLength]
                          else d.name[interestNameLength]) then false
    else PublisherMatches(i, d)
  }

  /** What an Interest asks of a full name: to be a prefix, with a number of further components within the
      bounds that are set, the next of them in none of the points and ranges of the exclude selector. */
  ghost predicate Asks(i: Interest, full: seq<AnyComponent>)
  {
    var s, further := i.selectors, |full| - |i.name|;
    && i.name <= full
    && (s.minSuffixComponents >= 0 ==> further >= s.minSuffixComponents)
    && (s.maxSuffixComponents >= 0 ==> further <= s.maxSuffixComponents)
    && !exists k, x: Component :: 0 <= k < |s.exclude| && further > 0 && x == full[|i.name|] && Covers(s.exclude, k, x)
  }

  lemma MatchesNameMeans(i: Interest, name: Name)
    requires Sorted(i.selectors.exclude)
    ensures MatchesName(i, name) <==> Asks(i, name)
  {
    hide IsExcluded, Covers;
    if |name| > |i.name| {
      IsExcludedIsMembership(i.selectors.exclude, name[|i.name|]);
    }
  }

  lemma MatchesDataMeans(i: Interest, d: Data)
    requires Sorted(i.selectors.exclude)
    ensures MatchesData(i, d) <==>
              && Asks(i, d.name + [Component(IMPLICIT_SHA256_DIGEST_COMPONENT, d.digest)])
              && (i.selectors.publisher.Some? ==> d.keyLocator == i.selectors.publisher)
  {
    hide MatchesData, MatchesName, Asks;
    MatchersAgree(i, d);
    MatchesNameMeans(i, FullName(d));
  }

  /** The two matchers agree, the publisher's key locator aside. */
  lemma MatchersAgree(i: Interest, d: Data)
    ensures MatchesData(i, d) <==> MatchesName(i, FullName(d)) && PublisherMatches(i, d)
  {
    var full := FullName(d);
    if |i.name| == |full| {
      assert full[|full| - 1].IsDigest();
      assert i.name <= full <==> i.name == full;
    } else if |i.name| < |full| {
      assert i.name <= full <==> i.name <= d.name by {
        assert full[..|d.name|] == d.name;
        assert forall k :: 0 <= k < |i.name| ==> full[k] == d.name[k];
      }
    }
  }
}
