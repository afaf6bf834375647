/** The GitHub provider's precondition on tags. */
module Github {
  import opened Artifacts

  function Get(m: map<string, int>, k: string): int { if k in m then m[k] else 0 }

  function Times(s: seq<string>, t: string): nat { multiset(s)[t] }

  lemma TimesStep(s: seq<string>, i: nat)
    requires i < |s|
    ensures forall t :: Times(s[..i + 1], t) == Times(s[..i], t) + (if t == s[i] then 1 else 0)
  {
    assert s[..i + 1] == s[..i] + [s[i]];
  }

  /** The two tag lists are equal as multisets: the counting map finds every difference. */
  method SameTags(a: seq<string>, b: seq<string>) returns (same: bool)
    ensures same <==> multiset(a) == multiset(b)
  {
    if |a| != |b| {
      assert |multiset(a)| == |a| && |multiset(b)| == |b|;
      return false;
    }
    var counts: map<string, int> := map[];
    for i := 0 to |a|
      invariant forall t :: Get(counts, t) == Times(a[..i], t)
    {
      ghost var before := counts;
      counts := counts[a[i] := Get(counts, a[i]) + 1];
      TimesStep(a, i);
      assert forall t :: Get(counts, t) == Get(before, t) + (if t == a[i] then 1 else 0);
    }
    assert a[..|a|] == a;
    same := WithinCounts(a, b, counts);
    if same {
      IncludedAndAsLong(a, b);
    }
  }

  method WithinCounts(ghost a: seq<string>, b: seq<string>, available: map<string, int>) returns (within: bool)
    requires forall t :: Get(available, t) == Times(a, t)
    ensures within <==> forall t :: Times(b, t) <= Times(a, t)
  {
    var counts := available;
    for j := 0 to |b|
      invariant forall t :: Times(b[..j], t) <= Times(a, t)
      invariant forall t :: Get(counts, t) == Times(a, t) as int - Times(b[..j], t)
    {
      TimesStep(b, j);
      counts := counts[b[j] := Get(counts, b[j]) - 1];
      if counts[b[j]] < 0 {
        MoreInWhole(b, j + 1, b[j]);
        return false;
      }
    }
    assert b[..|b|] == b;
    within := true;
  }

  lemma MoreInWhole(b: seq<string>, n: nat, t: string)
    requires n <= |b|
    ensures Times(b[..n], t) <= Times(b, t)
  {
    assert b == b[..n] + b[n..];
  }

  lemma IncludedAndAsLong(a: seq<string>, b: seq<string>)
    requires |a| == |b| && forall t :: Times(b, t) <= Times(a, t)
    ensures multiset(a) == multiset(b)
  {
    var rest := multiset(a) - multiset(b);
    forall t ensures multiset(b)[t] <= multiset(a)[t] { assert Times(b, t) <= Times(a, t); }
    assert multiset(a) == multiset(b) + rest;
    assert |rest| == 0;
  }

  /** A package version as the deletion sees it. */
  datatype Remote = Remote(digest: string, updatedAt: int, tags: seq<string>)

  /** The state of the remote when its deletion is requested: `Delete` goes ahead only when nothing it checks has
      changed since the plan. */
  method MayDelete(planned: Remote, current: Remote) returns (ok: bool)
    ensures ok <==> && (planned.digest == "" || current.digest == planned.digest)
                    && (planned.updatedAt == ZERO_TIME || current.updatedAt == planned.updatedAt)
                    && multiset(current.tags) == multiset(planned.tags)
  {
    var same := SameTags(current.tags, planned.tags);
    ok := !((planned.digest != "" && current.digest != planned.digest)
            || (planned.updatedAt != ZERO_TIME && current.updatedAt != planned.updatedAt)
            || !same);
  }
}
