/**
 * The routing-table entries of `src/dht/common.go` and the three list helpers
 * the routing code uses on them: `isEqual`, `removeDuplicates` and
 * `moveToEnd`.
 *
 * Go slices become sequences. Go struct equality, which both `isEqual` and
 * the map inside `removeDuplicates` rely on, is Dafny's structural equality
 * on the datatypes below.
 */
module RoutingLists {
  import opened Identity

  /** A contact: where to reach a node and its identifier. */
  datatype RoutingEntry = RoutingEntry(ipAddr: string, nodeId: ID)

  /** A contact together with its distance from some target identifier. */
  datatype RoutingEntryDist = RoutingEntryDist(distance: ID, routingEntry: RoutingEntry)

  // ---------------------------------------------------------------------------
  // isEqual
  // ---------------------------------------------------------------------------

  /** Same length and the same entry at every position. */
  predicate PointwiseEqual(x: seq<RoutingEntryDist>, y: seq<RoutingEntryDist>)
  {
    |x| == |y| && forall i :: 0 <= i < |x| ==> x[i] == y[i]
  }

  /** Position-by-position equality is sequence equality, so it is reflexive
      and symmetric. */
  lemma {:induction false} PointwiseEqualIsEquality(x: seq<RoutingEntryDist>, y: seq<RoutingEntryDist>)
    ensures PointwiseEqual(x, y) <==> x == y
    ensures PointwiseEqual(x, x)
    ensures PointwiseEqual(x, y) <==> PointwiseEqual(y, x)
  {
    if PointwiseEqual(x, y) {
      assert x == y;
    }
  }

  /** Go's `isEqual`: compare lengths, then walk the first list and stop at
      the first position where the entries differ. */
  method IsEqual(x: seq<RoutingEntryDist>, y: seq<RoutingEntryDist>) returns (r: bool)
    ensures r <==> PointwiseEqual(x, y)
    ensures r <==> x == y
  {
    if |x| != |y| {
      return false;
    }
    for i := 0 to |x|
      invariant forall j :: 0 <= j < i ==> x[j] == y[j]
    {
      if x[i] != y[i] {
        return false;
      }
    }
    PointwiseEqualIsEquality(x, y);
    return true;
  }

  // ---------------------------------------------------------------------------
  // removeDuplicates
  // ---------------------------------------------------------------------------

  /** The set of entries a list holds. */
  function Elems<T>(s: seq<T>): set<T>
  {
    set x | x in s
  }

  /** No entry occurs twice. */
  predicate NoDuplicates<T(==)>(s: seq<T>)
  {
    forall i, j :: 0 <= i < j < |s| ==> s[i] != s[j]
  }

  lemma {:induction false} ElemsOfPrefix<T>(s: seq<T>, n: nat)
    requires n < |s|
    ensures Elems(s[..n + 1]) == Elems(s[..n]) + {s[n]}
  {
    assert s[..n + 1] == s[..n] + [s[n]];
  }

  /** A list holds at most as many distinct entries as it is long. */
  lemma {:induction false} ElemsAtMostLength<T>(s: seq<T>)
    ensures |Elems(s)| <= |s|
    decreases |s|
  {
    if s != [] {
      var n := |s| - 1;
      ElemsAtMostLength(s[..n]);
      ElemsOfPrefix(s, n);
      assert s[..n + 1] == s;
    }
  }

  /** A duplicate-free list holds exactly as many distinct entries as it is
      long. */
  lemma {:induction false} ElemsOfDistinct<T>(s: seq<T>)
    requires NoDuplicates(s)
    ensures |Elems(s)| == |s|
    decreases |s|
  {
    if s != [] {
      var n := |s| - 1;
      assert NoDuplicates(s[..n]);
      ElemsOfDistinct(s[..n]);
      ElemsOfPrefix(s, n);
      assert s[n] !in Elems(s[..n]);
      assert s[..n + 1] == s;
    }
  }

  /** Go's `removeDuplicates`: every entry becomes a key of a map, and the
      keys are appended to a fresh list in the map's iteration order. Go leaves
      that order unspecified, so each step appends an arbitrary key not yet
      taken, and the contract holds for every order. */
  method RemoveDuplicates(s: seq<RoutingEntryDist>) returns (r: seq<RoutingEntryDist>)
    ensures NoDuplicates(r)
    ensures Elems(r) == Elems(s)
    ensures |r| == |Elems(s)| <= |s|
    ensures NoDuplicates(s) ==> |r| == |s|
  {
    var uniques: set<RoutingEntryDist> := {};
    for i := 0 to |s|
      invariant uniques == Elems(s[..i])
    {
      ElemsOfPrefix(s, i);
      uniques := uniques + {s[i]};
    }
    assert s[..|s|] == s;
    r := [];
    var left := uniques;
    while left != {}
      invariant left + Elems(r) == uniques
      invariant left !! Elems(r)
      invariant NoDuplicates(r)
      invariant |r| + |left| == |uniques|
      decreases |left|
    {
      var key :| key in left;
      assert Elems(r + [key]) == Elems(r) + {key};
      r := r + [key];
      left := left - {key};
    }
    ElemsAtMostLength(s);
    if NoDuplicates(s) {
      ElemsOfDistinct(s);
    }
  }

  // ---------------------------------------------------------------------------
  // moveToEnd
  // ---------------------------------------------------------------------------

  /** Go's `moveToEnd`: the entry at index `i` is taken out and appended, as
      when a contact that answered is moved to the most-recently-seen end of
      its bucket. Go panics on an index outside the slice. */
  function MoveToEnd(s: seq<RoutingEntry>, i: int): (r: seq<RoutingEntry>)
    requires 0 <= i < |s|
    ensures |r| == |s|
    ensures r[|r| - 1] == s[i]
    ensures forall j :: 0 <= j < i ==> r[j] == s[j]
    ensures forall j :: i <= j < |s| - 1 ==> r[j] == s[j + 1]
  {
    s[..i] + s[i + 1..] + [s[i]]
  }

  /** Moving an entry to the end is a permutation. */
  lemma {:induction false} MoveToEndPermutes(s: seq<RoutingEntry>, i: int)
    requires 0 <= i < |s|
    ensures multiset(MoveToEnd(s, i)) == multiset(s)
  {
    assert s == s[..i] + [s[i]] + s[i + 1..];
  }

  /** The entries other than the moved one keep their relative order: two of
      them that stood in order `j < k` still stand in that order, both ahead
      of the moved entry. */
  lemma {:induction false} MoveToEndKeepsOrder(s: seq<RoutingEntry>, i: int, j: int, k: int)
    requires 0 <= i < |s|
    requires 0 <= j < k < |s| && j != i && k != i
    ensures exists p, q :: 0 <= p < q < |s| - 1 && MoveToEnd(s, i)[p] == s[j] && MoveToEnd(s, i)[q] == s[k]
  {
    var r := MoveToEnd(s, i);
    var p := if j < i then j else j - 1;
    var q := if k < i then k else k - 1;
    assert r[p] == s[j] && r[q] == s[k];
  }

  /** Moving the last entry to the end changes nothing. */
  lemma {:induction false} MoveLastToEnd(s: seq<RoutingEntry>)
    requires |s| > 0
    ensures MoveToEnd(s, |s| - 1) == s
  {
    var r := MoveToEnd(s, |s| - 1);
    assert forall j :: 0 <= j < |s| ==> r[j] == s[j];
  }
}
