/** Ordered sequences: what the planner, the evaluator and the providers need to know about sorting. */
module Orders {

  /** Lexicographic order on strings, as Go's `<` on strings. */
  predicate Less(a: string, b: string) {
    |b| > 0 && (|a| == 0 || a[0] < b[0] || (a[0] == b[0] && Less(a[1..], b[1..])))
  }

  lemma LessAsymmetric(a: string, b: string)
    requires Less(a, b)
    ensures !Less(b, a) && a != b
  {
    if |a| > 0 && a[0] == b[0] {
      LessAsymmetric(a[1..], b[1..]);
    }
  }

  lemma LessTransitive(a: string, b: string, c: string)
    requires Less(a, b) && Less(b, c)
    ensures Less(a, c)
  {
    if |a| > 0 && a[0] == b[0] == c[0] {
      LessTransitive(a[1..], b[1..], c[1..]);
    }
  }

  lemma LessTotal(a: string, b: string)
    ensures Less(a, b) || Less(b, a) || a == b
  {
    if |a| > 0 && |b| > 0 && a[0] == b[0] {
      LessTotal(a[1..], b[1..]);
      assert a == [a[0]] + a[1..] && b == [b[0]] + b[1..];
    }
  }

  /** The order laws in quantified form. */
  lemma LessLaws()
    ensures forall a, b :: Less(a, b) ==> !Less(b, a)
    ensures forall a :: !Less(a, a)
    ensures forall a, b :: Less(a, b) || Less(b, a) || a == b
    ensures forall a, b, c :: Less(a, b) && Less(b, c) ==> Less(a, c)
  {
    forall a, b | Less(a, b) ensures !Less(b, a) && a != b { LessAsymmetric(a, b); }
    forall a, b ensures Less(a, b) || Less(b, a) || a == b { LessTotal(a, b); }
    forall a, b, c | Less(a, b) && Less(b, c) ensures Less(a, c) { LessTransitive(a, b, c); }
  }

  /** The strings agree up to this position, where the first one ends or has the smaller character. */
  predicate FallsBelow(a: string, b: string, k: nat) {
    k <= |a| && k < |b| && a[..k] == b[..k] && (k == |a| || a[k] < b[k])
  }

  lemma FallsBelowNext(a: string, b: string, k: nat)
    requires |a| > 0 && |b| > 0 && a[0] == b[0]
    ensures FallsBelow(a[1..], b[1..], k) <==> FallsBelow(a, b, k + 1)
  {
    if k <= |a| - 1 && k < |b| - 1 {
      assert a[..k + 1] == [a[0]] + a[1..][..k] && b[..k + 1] == [b[0]] + b[1..][..k];
      assert a[1..][..k] == a[..k + 1][1..] && b[1..][..k] == b[..k + 1][1..];
    }
  }

  /** One string is less than another exactly when it falls below it somewhere. */
  lemma {:induction false} LessIff(a: string, b: string)
    ensures Less(a, b) <==> exists k: nat :: FallsBelow(a, b, k)
  {
    if |a| > 0 && |b| > 0 && a[0] == b[0] {
      LessIff(a[1..], b[1..]);
      forall k: nat ensures FallsBelow(a[1..], b[1..], k) <==> FallsBelow(a, b, k + 1) { FallsBelowNext(a, b, k); }
      if k: nat :| FallsBelow(a, b, k) {
        assert FallsBelow(a[1..], b[1..], k - 1);
      }
    } else {
      forall k: nat ensures FallsBelow(a, b, k) ==> k == 0 {
        if 0 < k <= |a| && k < |b| { assert a[..k][0] == a[0] && b[..k][0] == b[0]; }
      }
      assert FallsBelow(a, b, 0) <==> |b| > 0 && (|a| == 0 || a[0] < b[0]);
    }
  }

  ghost predicate Ascending(s: seq<string>) {
    forall i, j :: 0 <= i < j < |s| ==> Less(s[i], s[j])
  }

  ghost predicate Distinct<T>(s: seq<T>) {
    forall i, j :: 0 <= i < j < |s| ==> s[i] != s[j]
  }

  ghost predicate Permutation<T>(a: seq<T>, b: seq<T>) {
    multiset(a) == multiset(b)
  }

  /** Every earlier element is before every later one. */
  ghost predicate Ordered<T>(before: (T, T) -> bool, s: seq<T>) {
    forall i, j :: 0 <= i < j < |s| ==> before(s[i], s[j])
  }

  /** An asymmetric relation orders a set of elements in at most one way. */
  lemma {:induction false} OrderedIsUnique<T>(before: (T, T) -> bool, a: seq<T>, b: seq<T>)
    requires forall x, y :: x in a && y in a && before(x, y) ==> !before(y, x)
    requires Ordered(before, a) && Ordered(before, b)
    requires forall x :: x in a <==> x in b
    ensures a == b
  {
    assert |b| > 0 ==> b[0] in b && b[0] in a;
    if |a| > 0 {
      assert a[0] in b && |b| > 0 && b[0] in a;
      assert a[0] == b[0];
      forall x ensures x in a[1..] <==> x in b[1..] {
        assert x in a <==> x == a[0] || x in a[1..];
        assert x in b <==> x == b[0] || x in b[1..];
      }
      OrderedIsUnique(before, a[1..], b[1..]);
      assert a == [a[0]] + a[1..] && b == [b[0]] + b[1..];
    }
  }

  lemma OrderedIsDistinct<T>(before: (T, T) -> bool, a: seq<T>)
    requires forall x, y :: x in a && y in a && before(x, y) ==> !before(y, x)
    requires Ordered(before, a)
    ensures Distinct(a)
  {
  }

  lemma AscendingIsUnique(a: seq<string>, b: seq<string>)
    requires Ascending(a) && Ascending(b)
    requires forall x :: x in a <==> x in b
    ensures a == b
  {
    LessLaws();
    OrderedIsUnique(Less, a, b);
  }

  lemma AscendingIsDistinct(a: seq<string>)
    requires Ascending(a)
    ensures Distinct(a)
  {
    LessLaws();
  }

  function Elements<T(==)>(s: seq<T>): set<T> {
    set x | x in s
  }

  /** A sequence without repetitions has as many elements as positions. */
  lemma {:induction false} DistinctCardinality<T>(s: seq<T>)
    requires Distinct(s)
    ensures |Elements(s)| == |s|
  {
    if |s| > 0 {
      var init, last := s[..|s| - 1], s[|s| - 1];
      DistinctCardinality(init);
      assert Elements(s) == Elements(init) + {last};
    }
  }

  lemma {:induction false} ElementsAtMost<T>(s: seq<T>)
    ensures |Elements(s)| <= |s|
  {
    if |s| > 0 {
      ElementsAtMost(s[..|s| - 1]);
      assert s == s[..|s| - 1] + [s[|s| - 1]];
      assert Elements(s) == Elements(s[..|s| - 1]) + {s[|s| - 1]};
    }
  }

  /** The image of a set under an injective function is as large as the set. */
  lemma {:induction false} InjectiveImage<S(!new), T(!new)>(s: set<S>, f: S -> T, image: set<T>)
    requires forall x, y :: x in s && y in s && f(x) == f(y) ==> x == y
    requires forall y :: y in image <==> exists x :: x in s && f(x) == y
    ensures |image| == |s|
  {
    if s == {} {
      assert image == {};
    } else {
      var x :| x in s;
      InjectiveImage(s - {x}, f, image - {f(x)});
    }
  }

  lemma {:induction false} DistinctFromMultiset<T>(a: seq<T>, b: seq<T>)
    requires Permutation(a, b) && Distinct(b)
    ensures Distinct(a) && |a| == |b| && forall x :: x in a <==> x in b
  {
    assert |a| == |multiset(a)| == |multiset(b)| == |b|;
    forall x ensures x in a <==> x in b {
      assert x in a <==> x in multiset(a);
      assert x in b <==> x in multiset(b);
    }
    forall i, j | 0 <= i < j < |a| ensures a[i] != a[j] {
      if a[i] == a[j] {
        OccursTwice(a, i, j);
        OccursOnce(b, a[i]);
        assert false;
      }
    }
  }

  lemma OccursTwice<T>(s: seq<T>, i: nat, j: nat)
    requires i < j < |s| && s[i] == s[j]
    ensures multiset(s)[s[i]] >= 2
  {
    assert s == s[..j] + s[j..];
    assert s[..j][i] == s[i] && s[j..][0] == s[i];
    assert s[i] in multiset(s[..j]) && s[i] in multiset(s[j..]);
  }

  lemma {:induction false} OccursOnce<T>(s: seq<T>, x: T)
    requires Distinct(s)
    ensures multiset(s)[x] <= 1
  {
    if |s| > 0 {
      OccursOnce(s[..|s| - 1], x);
      assert s == s[..|s| - 1] + [s[|s| - 1]];
      if x == s[|s| - 1] && x in s[..|s| - 1] { assert false; }
      assert x == s[|s| - 1] ==> x !in multiset(s[..|s| - 1]);
    }
  }

  lemma InsertPermutes<T>(s: seq<T>, p: nat, x: T)
    requires p <= |s|
    ensures Permutation(s[..p] + [x] + s[p..], s + [x])
  {
    assert s == s[..p] + s[p..];
  }

  lemma AppendPermutes<T>(a: seq<T>, b: seq<T>, x: T)
    requires Permutation(a, b)
    ensures Permutation(a + [x], b + [x])
  {
  }

  /** The position of an element in a sequence that holds it. */
  function Position<T(==)>(s: seq<T>, x: T): (p: nat)
    requires x in s
    ensures p < |s| && s[p] == x
    ensures forall q :: 0 <= q < p ==> s[q] != x
  {
    if s[0] == x then 0 else 1 + Position(s[1..], x)
  }

  /** The elements of `s` that lie in `keep`, in the order of `s`. */
  function Filter<T(==,!new)>(s: seq<T>, keep: set<T>): (r: seq<T>)
    ensures forall x :: x in r <==> x in s && x in keep
  {
    if |s| == 0 then []
    else
      var rest := Filter(s[..|s| - 1], keep);
      if s[|s| - 1] in keep then rest + [s[|s| - 1]] else rest
  }

  lemma {:induction false} FilterOrdered<T(!new)>(before: (T, T) -> bool, s: seq<T>, keep: set<T>)
    requires Ordered(before, s)
    ensures Ordered(before, Filter(s, keep))
  {
    if |s| > 0 {
      var init, last := s[..|s| - 1], s[|s| - 1];
      FilterOrdered(before, init, keep);
      forall y | y in Filter(init, keep) ensures before(y, last) {
        assert y in init;
      }
    }
  }

  lemma {:induction false} FilterLength<T(!new)>(s: seq<T>, keep: set<T>, k: int)
    requires forall p :: 0 <= p < |s| && p < k ==> s[p] in keep
    ensures |s| <= k ==> |Filter(s, keep)| == |s|
    ensures |s| >= k ==> |Filter(s, keep)| >= k
  {
    if |s| > 0 {
      FilterLength(s[..|s| - 1], keep, k);
    }
  }

  lemma PositionIsUnique<T>(s: seq<T>, x: T, p: nat)
    requires Distinct(s) && p < |s| && s[p] == x
    ensures Position(s, x) == p
  {
    var q := Position(s, x);
    assert q <= p && s[q] == s[p];
  }

  lemma PositionInPrefix<T>(a: seq<T>, b: seq<T>, x: T)
    requires x in a
    ensures Position(a + b, x) == Position(a, x)
  {
    var p, q := Position(a, x), Position(a + b, x);
    assert (a + b)[p] == x;
    assert q < |a| ==> (a + b)[q] == a[q];
  }

  lemma PositionAtEnd<T>(a: seq<T>, x: T)
    requires x !in a
    ensures Position(a + [x], x) == |a|
  {
    forall r | 0 <= r < |a| ensures (a + [x])[r] != x {
      assert (a + [x])[r] == a[r] && a[r] in a;
    }
    assert (a + [x])[|a|] == x;
  }

  /** When the first `k` elements are all kept, filtering leaves every position below `k` alone
      and moves no other element below `k`. */
  lemma {:induction false} PositionInFilter<T(!new)>(s: seq<T>, keep: set<T>, k: int, x: T)
    requires Distinct(s) && x in s && x in keep
    requires forall p :: 0 <= p < |s| && p < k ==> s[p] in keep
    ensures Position(s, x) < k ==> Position(Filter(s, keep), x) == Position(s, x)
    ensures Position(s, x) >= k ==> Position(Filter(s, keep), x) >= k
  {
    var init, last := s[..|s| - 1], s[|s| - 1];
    assert s == init + [last];
    if x == last {
      assert x !in init;
      FilterLength(init, keep, k);
      PositionAtEnd(init, x);
      PositionAtEnd(Filter(init, keep), x);
    } else {
      assert x in init;
      PositionInFilter(init, keep, k, x);
      PositionInPrefix(init, [last], x);
      PositionInPrefix(Filter(init, keep), [last], x);
    }
  }

  /** In-place insertion sort, the order `sort.Strings` produces. */
  method SortStrings(s: seq<string>) returns (r: seq<string>)
    ensures Permutation(r, s)
    ensures forall i, j :: 0 <= i < j < |r| ==> !Less(r[j], r[i])
  {
    r := [];
    for n := 0 to |s|
      invariant multiset(r) == multiset(s[..n])
      invariant forall i, j :: 0 <= i < j < |r| ==> !Less(r[j], r[i])
    {
      r := InsertString(r, s[n]);
      assert s[..n + 1] == s[..n] + [s[n]];
    }
    assert s[..|s|] == s;
  }

  method InsertString(s: seq<string>, x: string) returns (r: seq<string>)
    requires forall i, j :: 0 <= i < j < |s| ==> !Less(s[j], s[i])
    ensures multiset(r) == multiset(s) + multiset{x}
    ensures forall i, j :: 0 <= i < j < |r| ==> !Less(r[j], r[i])
  {
    var p := |s|;
    while p > 0 && Less(x, s[p - 1])
      invariant 0 <= p <= |s|
      invariant forall q :: p <= q < |s| ==> Less(x, s[q])
    {
      p := p - 1;
    }
    r := s[..p] + [x] + s[p..];
    assert s == s[..p] + s[p..];
    InsertedInOrder(s, p, x);
  }

  lemma InsertedInOrder(s: seq<string>, p: nat, x: string)
    requires p <= |s|
    requires forall i, j :: 0 <= i < j < |s| ==> !Less(s[j], s[i])
    requires p > 0 ==> !Less(x, s[p - 1])
    requires forall q :: p <= q < |s| ==> Less(x, s[q])
    ensures var r := s[..p] + [x] + s[p..];
            forall i, j :: 0 <= i < j < |r| ==> !Less(r[j], r[i])
  {
    var r := s[..p] + [x] + s[p..];
    forall i, j | 0 <= i < j < |r| ensures !Less(r[j], r[i]) {
      if i == p {
        LessAsymmetric(x, s[j - 1]);
      } else if i < p && j == p && i < p - 1 {
        LessTotal(s[i], s[p - 1]);
        if Less(x, s[i]) && Less(s[i], s[p - 1]) { LessTransitive(x, s[i], s[p - 1]); }
      }
    }
  }

  /** Sorted keys of a set, without repetition. */
  method SortedKeys(keys: set<string>) returns (r: seq<string>)
    ensures Ascending(r)
    ensures forall k :: k in r <==> k in keys
  {
    var collected: seq<string> := [];
    var todo := keys;
    while todo != {}
      invariant todo <= keys
      invariant forall k :: k in collected <==> k in keys - todo
      invariant Distinct(collected)
      decreases todo
    {
      var k :| k in todo;
      assert forall i :: 0 <= i < |collected| ==> collected[i] in collected && collected[i] != k;
      collected := collected + [k];
      todo := todo - {k};
    }
    r := SortStrings(collected);
    DistinctFromMultiset(r, collected);
    LessLaws();
  }

  /** The ascending enumeration of a finite set of keys. */
  ghost function Enumeration(keys: set<string>): (r: seq<string>)
    ensures Ascending(r)
    ensures forall k :: k in r <==> k in keys
  {
    EnumerationExists(keys);
    var r :| Ascending(r) && forall k :: k in r <==> k in keys;
    r
  }

  lemma {:induction false} EnumerationExists(keys: set<string>)
    ensures exists r: seq<string> :: Ascending(r) && forall k :: k in r <==> k in keys
  {
    LessLaws();
    if keys == {} {
      assert Ascending([]);
    } else {
      var top := Greatest(keys);
      EnumerationExists(keys - {top});
      var init :| Ascending(init) && forall k :: k in init <==> k in keys - {top};
      var r := init + [top];
      assert Ascending(r);
      assert forall k :: k in r <==> k in keys;
    }
  }

  lemma {:induction false} Greatest(keys: set<string>) returns (top: string)
    requires keys != {}
    ensures top in keys && forall k :: k in keys && k != top ==> Less(k, top)
  {
    LessLaws();
    var k :| k in keys;
    if keys == {k} {
      top := k;
    } else {
      var rest := Greatest(keys - {k});
      top := if Less(k, rest) then rest else k;
      forall q | q in keys && q != top ensures Less(q, top) {
        if q != k { assert q in keys - {k}; }
      }
    }
  }
}
