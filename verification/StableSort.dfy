/** Insertion sort, which is what `sort.SliceStable` runs on blocks of up to twenty elements, meets what the planner
    asks of its two sorts; so every statement that takes a `StableSorter` or a `Library` has one to speak of. */
module StableSort {
  import opened Artifacts
  import opened Orders
  import opened Policy
  import opened Config
  import opened Retention

  type Comparison<!T> = (T, T) -> bool

  /** Where `x` goes: after the last of the first `n` elements that it does not go before. */
  function Slot<T>(less: Comparison<T>, sorted: seq<T>, x: T, n: nat): (p: nat)
    requires n <= |sorted|
    ensures p <= n
  {
    if n > 0 && less(x, sorted[n - 1]) then Slot(less, sorted, x, n - 1) else n
  }

  function Insert<T>(less: Comparison<T>, sorted: seq<T>, x: T): seq<T> {
    var p := Slot(less, sorted, x, |sorted|);
    sorted[..p] + [x] + sorted[p..]
  }

  function InsertionSort<T>(less: Comparison<T>, s: seq<T>): seq<T> {
    if |s| == 0 then [] else Insert(less, InsertionSort(less, s[..|s| - 1]), s[|s| - 1])
  }

  lemma {:induction false} SortPermutes<T>(less: Comparison<T>, s: seq<T>)
    ensures Permutation(InsertionSort(less, s), s)
  {
    if |s| > 0 {
      SortPermutes(less, s[..|s| - 1]);
      InsertKeeps(less, InsertionSort(less, s[..|s| - 1]), s[..|s| - 1], s[|s| - 1]);
      assert s == s[..|s| - 1] + [s[|s| - 1]];
    }
  }

  lemma InsertKeeps<T>(less: Comparison<T>, sorted: seq<T>, s: seq<T>, x: T)
    requires Permutation(sorted, s)
    ensures Permutation(Insert(less, sorted, x), s + [x])
  {
    InsertPermutes(sorted, Slot(less, sorted, x, |sorted|), x);
    AppendPermutes(sorted, s, x);
  }

  /** The comparison orders the elements consistently, except that some may be tied. */
  ghost predicate WeakOrder<T(!new)>(less: Comparison<T>, all: set<T>) {
    && (forall x, y :: x in all && y in all && less(x, y) ==> !less(y, x))
    && (forall x, y, z :: x in all && y in all && z in all && less(x, z) ==> less(x, y) || less(y, z))
  }

  /** Sorted, with ties in the order `earlier`. */
  ghost function Stable<T(!new)>(less: Comparison<T>, earlier: Comparison<T>): Comparison<T> {
    (x: T, y: T) => less(x, y) || (!less(y, x) && earlier(x, y))
  }

  lemma {:induction false} SlotSplits<T>(less: Comparison<T>, sorted: seq<T>, x: T, n: nat)
    requires n <= |sorted|
    ensures var p := Slot(less, sorted, x, n);
            && (forall q :: p <= q < n ==> less(x, sorted[q]))
            && (p > 0 ==> !less(x, sorted[p - 1]))
  {
    if n > 0 && less(x, sorted[n - 1]) {
      SlotSplits(less, sorted, x, n - 1);
    }
  }

  /** Nothing before the slot has to come after `x`. */
  lemma BeforeSlot<T(!new)>(less: Comparison<T>, earlier: Comparison<T>, all: set<T>, sorted: seq<T>, x: T, q: nat)
    requires WeakOrder(less, all) && x in all && forall r :: 0 <= r < |sorted| ==> sorted[r] in all
    requires Ordered(Stable(less, earlier), sorted) && q < Slot(less, sorted, x, |sorted|)
    ensures !less(x, sorted[q])
  {
    var p := Slot(less, sorted, x, |sorted|);
    SlotSplits(less, sorted, x, |sorted|);
    if q < p - 1 {
      assert Stable(less, earlier)(sorted[q], sorted[p - 1]);
    }
  }

  lemma InsertOrders<T(!new)>(less: Comparison<T>, earlier: Comparison<T>, all: set<T>, sorted: seq<T>, x: T)
    requires WeakOrder(less, all) && x in all
    requires forall q :: 0 <= q < |sorted| ==> sorted[q] in all && earlier(sorted[q], x)
    requires Ordered(Stable(less, earlier), sorted)
    ensures Ordered(Stable(less, earlier), Insert(less, sorted, x))
  {
    var p, r := Slot(less, sorted, x, |sorted|), Insert(less, sorted, x);
    SlotSplits(less, sorted, x, |sorted|);
    forall i, j | 0 <= i < j < |r| ensures Stable(less, earlier)(r[i], r[j]) {
      if i == p {
        assert r[i] == x && r[j] == sorted[j - 1];
      } else if j == p {
        assert r[i] == sorted[i] && r[j] == x;
        BeforeSlot(less, earlier, all, sorted, x, i);
      } else {
        var a, b := if i < p then i else i - 1, if j < p then j else j - 1;
        assert r[i] == sorted[a] && r[j] == sorted[b] && a < b;
        assert Stable(less, earlier)(sorted[a], sorted[b]);
      }
    }
  }

  /** The elements come in the order `earlier`. */
  lemma {:induction false} SortOrders<T(!new)>(less: Comparison<T>, earlier: Comparison<T>, all: set<T>, s: seq<T>)
    requires WeakOrder(less, all) && Ordered(earlier, s) && forall q :: 0 <= q < |s| ==> s[q] in all
    ensures Ordered(Stable(less, earlier), InsertionSort(less, s))
  {
    if |s| > 0 {
      var init, last := s[..|s| - 1], s[|s| - 1];
      SortOrders(less, earlier, all, init);
      SortPermutes(less, init);
      var sorted := InsertionSort(less, init);
      forall q | 0 <= q < |sorted| ensures sorted[q] in all && earlier(sorted[q], last) {
        assert sorted[q] in multiset(sorted);
        assert sorted[q] in init;
        var r :| 0 <= r < |init| && init[r] == sorted[q];
      }
      InsertOrders(less, earlier, all, sorted, last);
    }
  }

  // The sort of the evaluator.

  function NewerAt(arts: seq<Artifact>): Comparison<nat> {
    (i: nat, j: nat) => i < |arts| && j < |arts| && Newer(arts[i], arts[j])
  }

  function SortIndices(arts: seq<Artifact>, idx: seq<nat>): seq<nat> { InsertionSort(NewerAt(arts), idx) }

  lemma SortsCoherentIndices(arts: seq<Artifact>, idx: seq<nat>)
    requires IndicesOf(arts, idx) && Coherent(arts, idx)
    ensures Ordered(Order(arts), SortIndices(arts, idx))
  {
    var less, earlier := NewerAt(arts), (i: nat, j: nat) => i < j;
    forall x, y | x in idx && y in idx && less(x, y) ensures !less(y, x) { NewerAsymmetric(arts[x], arts[y]); }
    SortOrders(less, earlier, Elements(idx), idx);
    SortPermutes(less, idx);
    var sorted := SortIndices(arts, idx);
    forall i, j | 0 <= i < j < |sorted| ensures Before(arts, sorted[i], sorted[j]) {
      assert sorted[i] in multiset(sorted) && sorted[j] in multiset(sorted);
      assert sorted[i] in idx && sorted[j] in idx;
      assert Stable(less, earlier)(sorted[i], sorted[j]);
    }
  }

  /** Insertion sort is a stable sorter. */
  lemma InsertionSortIsStable()
    ensures StableSorter(SortIndices)
  {
    forall arts, idx: seq<nat> | IndicesOf(arts, idx)
      ensures Permutation<nat>(SortIndices(arts, idx), idx)
      ensures Coherent(arts, idx) ==> Ordered(Order(arts), SortIndices(arts, idx))
    {
      SortPermutes(NewerAt(arts), idx);
      if Coherent(arts, idx) { SortsCoherentIndices(arts, idx); }
    }
  }

  // The sort of the versions of an artifact.

  function SortVersions(versions: seq<Version>): seq<Version> { InsertionSort(LaterVersion, versions) }

  lemma SortsVersions(versions: seq<Version>)
    ensures var sorted := SortVersions(versions);
            && Permutation(sorted, versions)
            && forall i, j :: 0 <= i < j < |sorted| ==> !LaterVersion(sorted[j], sorted[i])
  {
    var any := (a: Version, b: Version) => true;
    var sorted := SortVersions(versions);
    SortPermutes(LaterVersion, versions);
    SortOrders(LaterVersion, any, Elements(versions), versions);
    forall i, j | 0 <= i < j < |sorted| ensures !LaterVersion(sorted[j], sorted[i]) {
      var less: Comparison<Version> := LaterVersion;
      assert Stable(less, any)(sorted[i], sorted[j]);
      assert less(sorted[i], sorted[j]) || !less(sorted[j], sorted[i]);
    }
  }

  /** Whatever the regular expressions do, there is a library as the planner needs it. */
  lemma LibraryExists(compile: string -> Option<string -> bool>, captureNames: string -> Option<seq<string>>,
                      captures: (string, string) -> Option<map<string, string>>)
    ensures LibraryOk(Library(compile, captureNames, captures, SortIndices, SortVersions))
  {
    InsertionSortIsStable();
    forall versions
      ensures Permutation(SortVersions(versions), versions)
      ensures forall i, j :: 0 <= i < j < |SortVersions(versions)| ==>
                !LaterVersion(SortVersions(versions)[j], SortVersions(versions)[i])
    {
      SortsVersions(versions);
    }
  }
}
