/** The OCI provider: indexing tags by digest, and the referrers tag schema. */
module Oci {
  import opened Artifacts
  import opened Orders
  import Calendar

  datatype Listed = Listed(digest: string, tags: seq<string>, referrers: seq<string>)

  /** `resolve` of a tag and the referrers of a digest; none when the registry call fails. */
  type Resolver = string -> Option<string>
  type Referrers = string -> Option<seq<string>>

  /** The tags that resolve to a digest, in listing order. */
  function TagsOf(tags: seq<string>, resolve: Resolver, digest: string): seq<string> {
    if |tags| == 0 then []
    else
      var init, last := TagsOf(tags[..|tags| - 1], resolve, digest), tags[|tags| - 1];
      if resolve(last) == Some(digest) then init + [last] else init
  }

  ghost predicate Resolves(tags: seq<string>, resolve: Resolver) {
    forall i :: 0 <= i < |tags| ==> resolve(tags[i]).Some?
  }

  ghost function Digests(tags: seq<string>, resolve: Resolver): set<string> {
    set i | 0 <= i < |tags| && resolve(tags[i]).Some? :: resolve(tags[i]).value
  }

  ghost function DigestColumn(listed: seq<Listed>): seq<string> {
    seq(|listed|, i requires 0 <= i < |listed| => listed[i].digest)
  }

  /** What one entry of the index says. */
  ghost predicate Indexed(l: Listed, tags: seq<string>, resolve: Resolver, referrers: Referrers) {
    && Permutation(l.tags, TagsOf(tags, resolve, l.digest))
    && (forall i, j :: 0 <= i < j < |l.tags| ==> !Less(l.tags[j], l.tags[i]))
    && referrers(l.digest) == Some(l.referrers)
  }

  /** What `byDigest` holds after some tags. */
  ghost predicate IndexOf(index: map<string, seq<string>>, tags: seq<string>, resolve: Resolver) {
    && index.Keys == Digests(tags, resolve)
    && forall d :: d in index ==> index[d] == TagsOf(tags, resolve, d)
  }

  /** `byDigest`: every digest seen so far with its tags. */
  method IndexTags(tags: seq<string>, resolve: Resolver) returns (byDigest: Option<map<string, seq<string>>>)
    ensures byDigest.Some? <==> Resolves(tags, resolve)
    ensures byDigest.Some? ==> IndexOf(byDigest.value, tags, resolve)
  {
    var index: map<string, seq<string>> := map[];
    for i := 0 to |tags|
      invariant forall j :: 0 <= j < i ==> resolve(tags[j]).Some?
      invariant IndexOf(index, tags[..i], resolve)
    {
      var digest := resolve(tags[i]);
      if digest.None? {
        return None;
      }
      var d := digest.value;
      TagsStep(tags, resolve, i);
      if d !in index {
        NoTagsWithoutDigest(tags[..i], resolve, d);
      }
      index := index[d := (if d in index then index[d] else []) + [tags[i]]];
    }
    assert tags[..|tags|] == tags;
    byDigest := Some(index);
  }

  lemma {:induction false} NoTagsWithoutDigest(tags: seq<string>, resolve: Resolver, d: string)
    requires d !in Digests(tags, resolve)
    ensures TagsOf(tags, resolve, d) == []
  {
    if |tags| > 0 {
      var init := tags[..|tags| - 1];
      forall k | 0 <= k < |init| ensures resolve(init[k]) != Some(d) {
        assert init[k] == tags[k];
      }
      NoTagsWithoutDigest(init, resolve, d);
    }
  }

  lemma TagsStep(tags: seq<string>, resolve: Resolver, i: nat)
    requires i < |tags| && resolve(tags[i]).Some?
    ensures Digests(tags[..i + 1], resolve) == Digests(tags[..i], resolve) + {resolve(tags[i]).value}
    ensures forall d :: TagsOf(tags[..i + 1], resolve, d)
                        == TagsOf(tags[..i], resolve, d) + (if resolve(tags[i]).value == d then [tags[i]] else [])
  {
    var before, after := tags[..i], tags[..i + 1];
    assert after[..i] == before && after[i] == tags[i];
    forall d ensures d in Digests(after, resolve) <==> d in Digests(before, resolve) + {resolve(tags[i]).value} {
      if d in Digests(before, resolve) {
        var k :| 0 <= k < |before| && resolve(before[k]).Some? && resolve(before[k]).value == d;
        assert after[k] == before[k];
      }
      if d in Digests(after, resolve) {
        var k :| 0 <= k < |after| && resolve(after[k]).Some? && resolve(after[k]).value == d;
        if k < i { assert before[k] == after[k]; }
      }
    }
  }

  /** Index a repository: digests strictly ascending, each with its sorted tags and its referrers; it fails when
      a tag does not resolve or the referrers of a resolved digest cannot be listed. */
  method ListRepository(tags: seq<string>, resolve: Resolver, referrers: Referrers) returns (r: Option<seq<Listed>>)
    ensures r.Some? <==> Resolves(tags, resolve) && forall d :: d in Digests(tags, resolve) ==> referrers(d).Some?
    ensures r.Some? ==>
              && Ascending(DigestColumn(r.value))
              && (forall d :: d in DigestColumn(r.value) <==> d in Digests(tags, resolve))
              && forall i :: 0 <= i < |r.value| ==> Indexed(r.value[i], tags, resolve, referrers)
  {
    var index := IndexTags(tags, resolve);
    if index.None? {
      return None;
    }
    var found := AddReferrers(tags, index.value, resolve, referrers);
    if found.None? {
      return None;
    }
    var listed := InDigestOrder(found.value, tags, resolve, referrers);
    r := Some(listed);
  }

  /** Sort the tags of every digest and list its referrers, in any order. */
  method AddReferrers(tags: seq<string>, byDigest: map<string, seq<string>>, resolve: Resolver, referrers: Referrers)
    returns (r: Option<map<string, Listed>>)
    requires IndexOf(byDigest, tags, resolve)
    ensures r.Some? <==> forall d :: d in byDigest ==> referrers(d).Some?
    ensures r.Some? ==>
              && r.value.Keys == byDigest.Keys
              && forall d :: d in r.value ==> r.value[d].digest == d && Indexed(r.value[d], tags, resolve, referrers)
  {
    var found: map<string, Listed> := map[];
    var todo := byDigest.Keys;
    while todo != {}
      invariant todo <= byDigest.Keys && found.Keys == byDigest.Keys - todo
      invariant forall d :: d in found ==> found[d].digest == d && Indexed(found[d], tags, resolve, referrers)
      decreases todo
    {
      var d :| d in todo;
      var ids := referrers(d);
      if ids.None? {
        return None;
      }
      var sorted := SortStrings(byDigest[d]);
      found := found[d := Listed(d, sorted, ids.value)];
      todo := todo - {d};
    }
    forall d | d in byDigest ensures referrers(d).Some? {
      assert d in found && Indexed(found[d], tags, resolve, referrers);
    }
    r := Some(found);
  }

  method InDigestOrder(found: map<string, Listed>, ghost tags: seq<string>, ghost resolve: Resolver,
                       ghost referrers: Referrers)
    returns (listed: seq<Listed>)
    requires forall d :: d in found ==> found[d].digest == d && Indexed(found[d], tags, resolve, referrers)
    ensures Ascending(DigestColumn(listed))
    ensures forall d :: d in DigestColumn(listed) <==> d in found
    ensures forall i :: 0 <= i < |listed| ==> Indexed(listed[i], tags, resolve, referrers)
  {
    var digests := SortedKeys(found.Keys);
    listed := [];
    for i := 0 to |digests|
      invariant DigestColumn(listed) == digests[..i]
      invariant forall j :: 0 <= j < i ==> Indexed(listed[j], tags, resolve, referrers)
    {
      assert digests[i] in digests;
      listed := listed + [found[digests[i]]];
      assert digests[..i + 1] == digests[..i] + [digests[i]];
    }
    assert digests[..|digests|] == digests;
  }

  /** A tag keeps its multiplicity under the digest it resolves to and appears under no other. */
  lemma {:induction false} TagsAreConserved(tags: seq<string>, resolve: Resolver, digest: string, tag: string)
    ensures multiset(TagsOf(tags, resolve, digest))[tag]
            == if resolve(tag) == Some(digest) then multiset(tags)[tag] else 0
  {
    if |tags| > 0 {
      var init, last := tags[..|tags| - 1], tags[|tags| - 1];
      TagsAreConserved(init, resolve, digest, tag);
      assert tags == init + [last];
    }
  }

  // Descriptors of a referrers index.

  method DecodeReferrers(digests: seq<string>) returns (r: Option<seq<string>>)
    ensures r.Some? <==> forall i :: 0 <= i < |digests| ==> ValidDigest(digests[i])
    ensures r.Some? ==> Ascending(r.value) && forall d :: d in r.value <==> d in digests
  {
    var seen: set<string> := {};
    var result: seq<string> := [];
    for i := 0 to |digests|
      invariant forall j :: 0 <= j < i ==> ValidDigest(digests[j])
      invariant Distinct(result)
      invariant forall d :: d in seen <==> d in digests[..i]
      invariant forall d :: d in result <==> d in seen
    {
      if !ValidDigest(digests[i]) {
        return None;
      }
      assert digests[..i + 1] == digests[..i] + [digests[i]];
      if digests[i] !in seen {
        assert forall j :: 0 <= j < |result| ==> result[j] in result;
        seen := seen + {digests[i]};
        result := result + [digests[i]];
      }
    }
    assert digests[..|digests|] == digests;
    var sorted := SortStrings(result);
    DistinctFromMultiset(sorted, result);
    forall i, j | 0 <= i < j < |sorted| ensures Less(sorted[i], sorted[j]) { LessTotal(sorted[i], sorted[j]); }
    r := Some(sorted);
  }

  // Digests and the referrers tag.

  predicate Alpha(c: char) { 'a' <= c <= 'z' || 'A' <= c <= 'Z' }

  predicate AlphaNumeric(c: char) { Alpha(c) || '0' <= c <= '9' }

  predicate LowerHex(s: string) { forall i :: 0 <= i < |s| ==> '0' <= s[i] <= '9' || 'a' <= s[i] <= 'f' }

  predicate ValidDigest(digest: string) {
    var (algorithm, encoded, ok) := Calendar.Cut(digest, ':');
    && ok && algorithm != "" && encoded != ""
    && Alpha(algorithm[0])
    && (forall i :: 0 < i < |algorithm| ==> AlphaNumeric(algorithm[i]) || algorithm[i] in "+._-")
    && (forall i :: 0 <= i < |encoded| ==> AlphaNumeric(encoded[i]) || encoded[i] in "=_-")
    && (algorithm == "sha256" ==> |encoded| == 64 && LowerHex(encoded))
    && (algorithm == "sha512" ==> |encoded| == 128 && LowerHex(encoded))
  }

  function Truncate(s: string, limit: nat): string { if |s| <= limit then s else s[..limit] }

  function SanitizeChar(c: char): char { if AlphaNumeric(c) || c in "_.-" then c else '-' }

  function Sanitize(s: string): string { seq(|s|, i requires 0 <= i < |s| => SanitizeChar(s[i])) }

  function ReferrersTag(digest: string): Option<string> {
    var (algorithm, encoded, ok) := Calendar.Cut(digest, ':');
    if !ok || !ValidDigest(digest) then None
    else Some(Sanitize(Truncate(algorithm, 32)) + "-" + Sanitize(Truncate(encoded, 64)))
  }

  /** The tag grammar of the OCI Distribution Specification, section "Pulling manifests". */
  predicate LegalTag(tag: string) {
    && 1 <= |tag| <= 128
    && (AlphaNumeric(tag[0]) || tag[0] == '_')
    && forall i :: 0 <= i < |tag| ==> AlphaNumeric(tag[i]) || tag[i] in "_.-"
  }

  /** A digest has a referrers tag exactly when it is valid, and the tag is legal and at most 97 characters. */
  lemma ReferrersTagIsLegal(digest: string)
    ensures ReferrersTag(digest).Some? <==> ValidDigest(digest)
    ensures ReferrersTag(digest).Some? ==> LegalTag(ReferrersTag(digest).value) && |ReferrersTag(digest).value| <= 97
  {
    if ValidDigest(digest) {
      var (algorithm, encoded, ok) := Calendar.Cut(digest, ':');
      var tag := ReferrersTag(digest).value;
      assert tag[0] == SanitizeChar(algorithm[0]) == algorithm[0];
    }
  }

  /** The characters of a tag part: those of the digest, with a dash for the one that tags do not allow. */
  predicate Copies(part: string, s: string, limit: nat, forbidden: char) {
    && |part| == (if |s| < limit then |s| else limit)
    && forall i :: 0 <= i < |part| ==> part[i] == if s[i] == forbidden then '-' else s[i]
  }

  /** The tag holds the first 32 characters of the algorithm and the first 64 of the encoded digest. */
  lemma ReferrersTagIs(algorithm: string, encoded: string)
    requires ':' !in algorithm && ValidDigest(algorithm + ":" + encoded)
    ensures exists head, tail :: ReferrersTag(algorithm + ":" + encoded) == Some(head + "-" + tail)
              && Copies(head, algorithm, 32, '+') && Copies(tail, encoded, 64, '=')
  {
    Calendar.CutAt(algorithm, ':', encoded);
    var head, tail := Sanitize(Truncate(algorithm, 32)), Sanitize(Truncate(encoded, 64));
    SanitizeCopies(algorithm, 32, '+');
    SanitizeCopies(encoded, 64, '=');
    assert ReferrersTag(algorithm + ":" + encoded) == Some(head + "-" + tail);
  }

  lemma SanitizeCopies(s: string, limit: nat, forbidden: char)
    requires forbidden == '+' || forbidden == '='
    requires forall i :: 0 <= i < |s| ==> AlphaNumeric(s[i]) || s[i] in "_.-" || s[i] == forbidden
    ensures Copies(Sanitize(Truncate(s, limit)), s, limit, forbidden)
  {
  }

  const LOWER := "abcdefghijklmnopqrstuvwxyz"
  const UPPER := "ABCDEFGHIJKLMNOPQRSTUVWXYZ"
  const DECIMAL := "0123456789"

  ghost predicate Within(s: string, alphabet: string) { forall c :: c in s ==> c in alphabet }

  /** The digest grammar, character by character. */
  lemma ValidDigestIff(algorithm: string, encoded: string)
    requires ':' !in algorithm
    ensures ValidDigest(algorithm + ":" + encoded)
            <==> && algorithm != "" && algorithm[0] in LOWER + UPPER
                 && Within(algorithm, LOWER + UPPER + DECIMAL + "+._-")
                 && encoded != "" && Within(encoded, LOWER + UPPER + DECIMAL + "=_-")
                 && (algorithm == "sha256" ==> |encoded| == 64 && Within(encoded, DECIMAL + "abcdef"))
                 && (algorithm == "sha512" ==> |encoded| == 128 && Within(encoded, DECIMAL + "abcdef"))
  {
    Calendar.CutAt(algorithm, ':', encoded);
    Alphabets();
    WithinIff(algorithm, "+._-");
    WithinIff(encoded, "=_-");
    LowerHexIff(encoded);
  }

  lemma Alphabets()
    ensures forall c :: c in LOWER + UPPER <==> Alpha(c)
    ensures forall c :: c in DECIMAL <==> '0' <= c <= '9'
  {
  }

  lemma WithinIff(s: string, more: string)
    ensures Within(s, LOWER + UPPER + DECIMAL + more)
            <==> forall i :: 0 <= i < |s| ==> AlphaNumeric(s[i]) || s[i] in more
  {
    Alphabets();
    assert forall c :: c in LOWER + UPPER + DECIMAL + more <==> AlphaNumeric(c) || c in more;
  }

  lemma LowerHexIff(s: string)
    ensures LowerHex(s) <==> Within(s, DECIMAL + "abcdef")
  {
    Alphabets();
    assert forall c :: c in DECIMAL + "abcdef" <==> '0' <= c <= '9' || 'a' <= c <= 'f';
    assert forall i :: 0 <= i < |s| ==> s[i] in s;
  }

  /** Without a colon there is no digest. */
  lemma NoColonNoDigest(digest: string)
    requires ':' !in digest
    ensures !ValidDigest(digest)
  {
  }

  predicate Sha256(digest: string) { ValidDigest(digest) && Calendar.Cut(digest, ':').0 == "sha256" }

  lemma Sha256Tag(digest: string)
    requires Sha256(digest)
    ensures ReferrersTag(digest) == Some("sha256-" + Calendar.Cut(digest, ':').1)
              && digest == "sha256" + ":" + Calendar.Cut(digest, ':').1
  {
    var encoded := Calendar.Cut(digest, ':').1;
    assert Sanitize("sha256") == "sha256";
    assert Sanitize(encoded) == encoded;
    assert "sha256" + "-" == "sha256-";
  }

  /** The referrers tag tells sha256 digests apart. */
  lemma Sha256TagsAreInjective(a: string, b: string)
    requires Sha256(a) && Sha256(b) && ReferrersTag(a) == ReferrersTag(b)
    ensures a == b
  {
    Sha256Tag(a);
    Sha256Tag(b);
    var x, y := Calendar.Cut(a, ':').1, Calendar.Cut(b, ':').1;
    assert ("sha256-" + x)[7..] == x && ("sha256-" + y)[7..] == y;
  }
}
