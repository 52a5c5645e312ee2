/**
 * The agreement the test check_sanity (src/lib.rs) asserts: for every
 * query, the KD-tree's answer and the brute-force oracle's answer hold the
 * same OrdT values as sets, where OrdT equality compares distances only.
 */
module Sanity {
  import opened Util
  import opened Knn
  import KdTree
  import Baseline

  /** The set a BTreeSet<OrdT<T>> of the entries keeps: their distances. */
  ghost function DistSet<T>(s: seq<OrdT<T>>): set<real>
  {
    set d | d in DistsOf(s)
  }

  /**
   * eq_as_set (src/lib.rs): the two BTreeSets built with OrdT's ordering
   * are equal, i.e. every entry of each has an Eq entry in the other.
   */
  ghost predicate EqAsSet<T>(a: seq<OrdT<T>>, b: seq<OrdT<T>>)
  {
    (forall e | e in a :: exists f | f in b :: Eq(e, f)) &&
    (forall f | f in b :: exists e | e in a :: Eq(f, e))
  }

  /** Every entry of a has an Eq entry in b exactly when a's distances are among b's. */
  lemma CoveredIffDists<T>(a: seq<OrdT<T>>, b: seq<OrdT<T>>)
    ensures (forall e | e in a :: exists f | f in b :: Eq(e, f)) <==> DistSet(a) <= DistSet(b)
  {
    if DistSet(a) <= DistSet(b) {
      forall e | e in a ensures exists f | f in b :: Eq(e, f) {
        var i :| 0 <= i < |a| && a[i] == e;
        DistsOfAt(a, i);
        assert e.dist in DistSet(a) && e.dist in DistSet(b);
        var j := DistsOfMember(b, e.dist);
        assert b[j] in b && Eq(e, b[j]);
      }
    }
    if forall e | e in a :: exists f | f in b :: Eq(e, f) {
      forall d | d in DistSet(a) ensures d in DistSet(b) {
        var i := DistsOfMember(a, d);
        assert a[i] in a;
        var f :| f in b && Eq(a[i], f);
        var j :| 0 <= j < |b| && b[j] == f;
        DistsOfAt(b, j);
      }
    }
  }

  /** Two answers are equal as sets of OrdT exactly when their sets of distances are equal. */
  lemma EqAsSetIffDists<T>(a: seq<OrdT<T>>, b: seq<OrdT<T>>)
    ensures EqAsSet(a, b) <==> DistSet(a) == DistSet(b)
  {
    CoveredIffDists(a, b);
    CoveredIffDists(b, a);
  }

  /**
   * The pruned search agrees with the scan: a tree holding the oracle's
   * pairs in any order, any k smallest of the tree's entries and any k
   * smallest of the oracle's have the same distances, counted with
   * multiplicity.
   */
  lemma SearchAgreesWithOracle<T>(tree: KdTree.KDTree<T>, data: seq<Item<T>>, x: Point, k: nat,
                                  fromTree: seq<OrdT<T>>, fromScan: seq<OrdT<T>>)
    requires ItemsDim(data, |x|) && ItemsDim(KdTree.Items(tree), |x|)
    requires multiset(KdTree.Items(tree)) == multiset(data)
    requires KNearest(fromTree, KdTree.Cands(tree, x), k)
    requires KNearest(fromScan, multiset(CandsOf(data, x)), k)
    ensures multiset(DistsOf(fromTree)) == multiset(DistsOf(fromScan))
    ensures DistSet(fromTree) == DistSet(fromScan)
  {
    assert multiset(DistsOf(fromTree)) == multiset(DistsOf(fromScan)) by {
      CandsOfPerm(KdTree.Items(tree), data, x);
      KNearestSameDists(fromTree, fromScan, CandsOf(data, x), k);
    }
    SameDistsSameSet(fromTree, fromScan);
  }

  /** Equal multisets of distances give equal sets of distances. */
  lemma SameDistsSameSet<T>(a: seq<OrdT<T>>, b: seq<OrdT<T>>)
    requires multiset(DistsOf(a)) == multiset(DistsOf(b))
    ensures DistSet(a) == DistSet(b)
  {
    forall d ensures d in DistsOf(a) <==> d in DistsOf(b) {
      assert d in DistsOf(a) <==> d in multiset(DistsOf(a));
      assert d in DistsOf(b) <==> d in multiset(DistsOf(b));
    }
  }

  /**
   * check_sanity on given data and queries: build both indexes from the
   * same pairs, batch-search both, and compare answer i of one with
   * answer i of the other as sets of OrdT (eq_as_set).
   */
  method CheckSanity<T>(data: seq<Item<T>>, dim: nat, draws: nat -> nat, queries: seq<Point>, k: nat)
    returns (treeResults: seq<seq<OrdT<T>>>, scanResults: seq<seq<OrdT<T>>>)
    requires data != [] && dim > 0 && ItemsDim(data, dim) && (k >= 1 || queries == [])
    requires forall j | 0 <= j < |queries| :: |queries[j]| == dim
    ensures |treeResults| == |queries| && |scanResults| == |queries|
    ensures forall i | 0 <= i < |queries| :: DistSet(treeResults[i]) == DistSet(scanResults[i])
    ensures forall i | 0 <= i < |queries| :: EqAsSet(scanResults[i], treeResults[i])
  {
    var tree, _ := KdTree.BuildTree(data, dim, draws, 0);
    KdTree.BuildWf(data, dim, draws, 0);
    assert Item(tree.pdiv, tree.meta) in KdTree.Items(tree);
    var stupid := Baseline.Build(data);
    treeResults := KdTree.BatchSearch(tree, k, queries);
    scanResults := Baseline.BatchSearch(stupid, k, queries);
    forall i | 0 <= i < |queries| ensures DistSet(treeResults[i]) == DistSet(scanResults[i]) {
      SearchAgreesWithOracle(tree, data, queries[i], k, treeResults[i], scanResults[i]);
    }
    forall i | 0 <= i < |queries| ensures EqAsSet(scanResults[i], treeResults[i]) {
      EqAsSetIffDists(scanResults[i], treeResults[i]);
    }
  }
}
