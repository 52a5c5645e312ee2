/**
 * KDTree (src/lib.rs): construction by median split on a drawn axis, the
 * pruned k-nearest-neighbour search over a stack of pending subtrees, and
 * the chunked batch search run one chunk after another.
 *
 * Option<Box<KDTree>> is the datatype below: Empty is None, Node is a boxed
 * node. The axis drawn from thread_rng() at each node becomes the value
 * draws(next) of an arbitrary function, next counting the draws made so
 * far in the source's call order.
 */
module KdTree {
  import opened Util
  import opened Knn
  import opened Batch

  datatype KDTree<T> =
    | Empty
    | Node(bbox: BoundBox, l: KDTree<T>, r: KDTree<T>, pdiv: Point, meta: T)

  /** The (point, payload) pairs of a tree, left subtree, node, right subtree. */
  function Items<T>(t: KDTree<T>): seq<Item<T>>
  {
    match t
    case Empty => []
    case Node(_, l, r, p, m) => Items(l) + [Item(p, m)] + Items(r)
  }

  /**
   * Every point of t has dimension dim, and at every node the bounding box
   * has dimension dim and contains every point of the node's subtree.
   */
  ghost predicate Wf<T>(t: KDTree<T>, dim: nat)
  {
    ItemsDim(Items(t), dim) &&
    (t.Node? ==>
      |t.bbox.cent| == dim && |t.bbox.diff| == dim &&
      (forall it | it in Items(t) :: InBox(t.bbox, it.point)) &&
      Wf(t.l, dim) && Wf(t.r, dim))
  }

  // ---------------------------------------------------------------------
  // sort_by on one axis

  /** Coordinate t of an item's point (every point Build sorts has one). */
  function Key<T>(it: Item<T>, t: nat): real
  {
    if t < |it.point| then it.point[t] else 0.0
  }

  predicate SortedOn<T>(s: seq<Item<T>>, t: nat)
  {
    forall i, j | 0 <= i < j < |s| :: Key(s[i], t) <= Key(s[j], t)
  }

  /** The position of the first entry of s not below e on axis t. */
  function InsertPos<T>(e: Item<T>, s: seq<Item<T>>, t: nat): (p: nat)
    ensures p <= |s|
    ensures forall i | 0 <= i < p :: Key(s[i], t) < Key(e, t)
    ensures p < |s| ==> Key(e, t) <= Key(s[p], t)
  {
    if s == [] then 0
    else if Key(e, t) <= Key(s[0], t) then 0
    else
      var p' := InsertPos(e, s[1..], t);
      assert forall i | 1 <= i < p' + 1 :: s[i] == s[1..][i - 1];
      p' + 1
  }

  lemma InsertSorted<T>(e: Item<T>, s: seq<Item<T>>, t: nat, p: nat)
    requires SortedOn(s, t) && p <= |s|
    requires forall i | 0 <= i < p :: Key(s[i], t) < Key(e, t)
    requires p < |s| ==> Key(e, t) <= Key(s[p], t)
    ensures SortedOn(s[..p] + [e] + s[p..], t)
  {
    var r := s[..p] + [e] + s[p..];
    forall i, j | 0 <= i < j < |r| ensures Key(r[i], t) <= Key(r[j], t) {
      if j < p {
        assert r[i] == s[i] && r[j] == s[j];
      } else if j == p {
        assert r[i] == s[i] && r[j] == e;
      } else if i < p {
        assert r[i] == s[i] && r[j] == s[j - 1];
      } else if i == p {
        assert r[i] == e && r[j] == s[j - 1];
      } else {
        assert r[i] == s[i - 1] && r[j] == s[j - 1];
      }
    }
  }

  /** e placed before the first entry of s that is not below it on axis t. */
  function InsertOn<T>(e: Item<T>, s: seq<Item<T>>, t: nat): (r: seq<Item<T>>)
    requires SortedOn(s, t)
    ensures multiset(r) == multiset(s) + multiset{e}
    ensures SortedOn(r, t)
  {
    var p := InsertPos(e, s, t);
    assert s == s[..p] + s[p..];
    InsertSorted(e, s, t, p);
    s[..p] + [e] + s[p..]
  }

  /**
   * data.sort_by on coordinate t, as an insertion sort: a permutation of
   * s that is ordered on coordinate t; SortOnStable shows it is stable.
   */
  function SortOn<T>(s: seq<Item<T>>, t: nat): (r: seq<Item<T>>)
    ensures multiset(r) == multiset(s) && |r| == |s|
    ensures SortedOn(r, t)
  {
    if s == [] then []
    else
      assert s == [s[0]] + s[1..];
      InsertOn(s[0], SortOn(s[1..], t), t)
  }

  /** The items of s whose key on axis t is v, in their order in s. */
  function WithKey<T>(s: seq<Item<T>>, t: nat, v: real): seq<Item<T>>
  {
    if s == [] then []
    else (if Key(s[0], t) == v then [s[0]] else []) + WithKey(s[1..], t, v)
  }

  lemma {:induction false} WithKeyConcat<T>(a: seq<Item<T>>, b: seq<Item<T>>, t: nat, v: real)
    ensures WithKey(a + b, t, v) == WithKey(a, t, v) + WithKey(b, t, v)
  {
    if a == [] {
      assert a + b == b;
    } else {
      assert (a + b)[1..] == a[1..] + b;
      WithKeyConcat(a[1..], b, t, v);
    }
  }

  lemma {:induction false} WithKeyBelow<T>(a: seq<Item<T>>, t: nat, v: real)
    requires forall i | 0 <= i < |a| :: Key(a[i], t) < v
    ensures WithKey(a, t, v) == []
  {
    if a != [] {
      assert forall i | 0 <= i < |a| - 1 :: a[1..][i] == a[i + 1];
      WithKeyBelow(a[1..], t, v);
    }
  }

  lemma WithKeySplice<T>(pre: seq<Item<T>>, e: Item<T>, post: seq<Item<T>>, t: nat, v: real)
    ensures WithKey(pre + [e] + post, t, v) ==
            WithKey(pre, t, v) + (if Key(e, t) == v then [e] else []) + WithKey(post, t, v)
    ensures WithKey(pre + post, t, v) == WithKey(pre, t, v) + WithKey(post, t, v)
  {
    assert WithKey([e], t, v) == (if Key(e, t) == v then [e] else []) by {
      assert [e][1..] == [];
    }
    WithKeyConcat(pre + [e], post, t, v);
    WithKeyConcat(pre, [e], t, v);
    WithKeyConcat(pre, post, t, v);
  }

  /** Placing e after entries with keys below it and before the rest keeps
      e ahead of every entry with its key. */
  lemma PlaceStable<T>(e: Item<T>, s: seq<Item<T>>, p: nat, t: nat, v: real)
    requires p <= |s| && forall i | 0 <= i < p :: Key(s[i], t) < Key(e, t)
    ensures WithKey(s[..p] + [e] + s[p..], t, v) == (if Key(e, t) == v then [e] else []) + WithKey(s, t, v)
  {
    var pre, post := s[..p], s[p..];
    assert s == pre + post;
    WithKeySplice(pre, e, post, t, v);
    if Key(e, t) == v {
      assert forall i | 0 <= i < |pre| :: Key(pre[i], t) < v;
      WithKeyBelow(pre, t, v);
    }
  }

  /** InsertOn puts e in front of every entry with the same key. */
  lemma InsertOnStable<T>(e: Item<T>, s: seq<Item<T>>, t: nat, v: real)
    requires SortedOn(s, t)
    ensures WithKey(InsertOn(e, s, t), t, v) == (if Key(e, t) == v then [e] else []) + WithKey(s, t, v)
  {
    var p := InsertPos(e, s, t);
    assert InsertOn(e, s, t) == s[..p] + [e] + s[p..];
    PlaceStable(e, s, p, t, v);
  }

  /**
   * SortOn is stable, as sort_by is: for every key value, the items with
   * that key on axis t keep their input order.
   */
  lemma {:induction false} SortOnStable<T>(s: seq<Item<T>>, t: nat, v: real)
    ensures WithKey(SortOn(s, t), t, v) == WithKey(s, t, v)
  {
    if s != [] {
      SortOnStable(s[1..], t, v);
      InsertOnStable(s[0], SortOn(s[1..], t), t, v);
    }
  }

  function Points<T>(s: seq<Item<T>>): (r: seq<Point>)
    ensures |r| == |s| && forall j | 0 <= j < |s| :: r[j] == s[j].point
  {
    seq(|s|, j requires 0 <= j < |s| => s[j].point)
  }

  lemma PointsDim<T>(s: seq<Item<T>>, dim: nat)
    requires ItemsDim(s, dim)
    ensures AllDim(Points(s), dim)
  {
    forall j | 0 <= j < |s| ensures |Points(s)[j]| == dim {
      assert s[j] in s;
    }
  }

  /** Reordering keeps every point's dimension. */
  lemma PermDims<T>(a: seq<Item<T>>, b: seq<Item<T>>, dim: nat)
    requires ItemsDim(a, dim) && multiset(a) == multiset(b)
    ensures ItemsDim(b, dim)
  {
    forall it | it in b ensures |it.point| == dim {
      assert it in multiset(a);
    }
  }

  // ---------------------------------------------------------------------
  // build

  /** The axis thread_rng().gen::<usize>() % K picks with the next draw. */
  function Axis(draws: nat -> nat, next: nat, dim: nat): (t: nat)
    requires dim > 0
    ensures t < dim
  {
    draws(next) % dim
  }

  /** The first draw of the right subtree of a node over n pairs: after the
      node's own draw and the n / 2 draws of its left subtree. */
  function RightNext(next: nat, n: nat): nat
  {
    next + 1 + n / 2
  }

  /**
   * KDTree::build: None for no data; otherwise sort on the drawn axis,
   * box all points, keep the element at len/2 as the node and build the
   * left subtree from the elements before it and the right subtree from
   * those after it. The left subtree draws from next + 1 on, and the
   * right subtree after the len/2 draws the left one makes.
   */
  function Build<T>(data: seq<Item<T>>, dim: nat, draws: nat -> nat, next: nat): (tree: KDTree<T>)
    requires ItemsDim(data, dim) && (data != [] ==> dim > 0)
    ensures tree.Empty? <==> data == []
    ensures multiset(Items(tree)) == multiset(data) && |Items(tree)| == |data|
    decreases |data|
  {
    if data == [] then Empty
    else
      var t := Axis(draws, next, dim);
      var sorted := SortOn(data, t);
      PermDims(data, sorted, dim);
      PointsDim(sorted, dim);
      var bbox := BoxOf(Points(sorted), dim);
      var idiv := |sorted| / 2;
      SliceDims(sorted, dim, 0, idiv);
      SliceDims(sorted, dim, idiv + 1, |sorted|);
      SplitAt(sorted, idiv);
      var left := Build(sorted[..idiv], dim, draws, next + 1);
      var right := Build(sorted[idiv + 1..], dim, draws, RightNext(next, |sorted|));
      assert multiset(Items(left) + [Item(sorted[idiv].point, sorted[idiv].meta)] + Items(right))
          == multiset(sorted[..idiv]) + multiset{sorted[idiv]} + multiset(sorted[idiv + 1..]);
      Node(bbox, left, right, sorted[idiv].point, sorted[idiv].meta)
  }

  /** The box of the node Build makes holds every pair of its subtree. */
  lemma BuildBoxHolds<T>(data: seq<Item<T>>, dim: nat, draws: nat -> nat, next: nat)
    requires ItemsDim(data, dim) && data != [] && dim > 0
    ensures var tree := Build(data, dim, draws, next);
      tree.Node? && |tree.bbox.cent| == dim && |tree.bbox.diff| == dim &&
      forall it | it in Items(tree) :: InBox(tree.bbox, it.point)
  {
    var tree := Build(data, dim, draws, next);
    var sorted := SortOn(data, Axis(draws, next, dim));
    PermDims(data, sorted, dim);
    PointsDim(sorted, dim);
    var box := BoxOf(Points(sorted), dim);
    assert tree.bbox == box;
    forall it | it in Items(tree) ensures InBox(box, it.point) {
      assert it in multiset(sorted);
      var j :| 0 <= j < |sorted| && sorted[j] == it;
      assert Points(sorted)[j] == it.point;
    }
  }

  /** Every tree Build returns is well formed: each box holds its subtree. */
  lemma {:induction false} BuildWf<T>(data: seq<Item<T>>, dim: nat, draws: nat -> nat, next: nat)
    requires ItemsDim(data, dim) && (data != [] ==> dim > 0)
    ensures Wf(Build(data, dim, draws, next), dim)
    decreases |data|
  {
    if data != [] {
      BuildWf(LeftPart(data, dim, draws, next), dim, draws, next + 1);
      BuildWf(RightPart(data, dim, draws, next), dim, draws, RightNext(next, |data|));
      WfFromParts(data, dim, draws, next);
    }
  }

  /**
   * The node Build makes from non-empty data: its pair is the element at
   * len/2 of the data sorted on the drawn axis, and its box is
   * BoundBox::from_vec of the sorted points.
   */
  lemma BuildPivot<T>(data: seq<Item<T>>, dim: nat, draws: nat -> nat, next: nat)
    requires ItemsDim(data, dim) && data != [] && dim > 0
    ensures
      var tree := Build(data, dim, draws, next);
      var sorted := SortOn(data, Axis(draws, next, dim));
      tree.Node? && |sorted| == |data| &&
      Item(tree.pdiv, tree.meta) == sorted[|sorted| / 2] &&
      AllDim(Points(sorted), dim) && tree.bbox == BoxOf(Points(sorted), dim)
  {
    var sorted := SortOn(data, Axis(draws, next, dim));
    PermDims(data, sorted, dim);
    PointsDim(sorted, dim);
  }

  /** The slice of the sorted data Build puts left of the pivot. */
  ghost function LeftPart<T>(data: seq<Item<T>>, dim: nat, draws: nat -> nat, next: nat): (left: seq<Item<T>>)
    requires ItemsDim(data, dim) && data != [] && dim > 0
    ensures ItemsDim(left, dim) && |left| < |data|
  {
    var sorted := SortOn(data, Axis(draws, next, dim));
    PermDims(data, sorted, dim);
    SliceDims(sorted, dim, 0, |sorted| / 2);
    sorted[..|sorted| / 2]
  }

  /** The slice of the sorted data Build puts right of the pivot. */
  ghost function RightPart<T>(data: seq<Item<T>>, dim: nat, draws: nat -> nat, next: nat): (right: seq<Item<T>>)
    requires ItemsDim(data, dim) && data != [] && dim > 0
    ensures ItemsDim(right, dim) && |right| < |data|
  {
    var sorted := SortOn(data, Axis(draws, next, dim));
    PermDims(data, sorted, dim);
    SliceDims(sorted, dim, |sorted| / 2 + 1, |sorted|);
    sorted[|sorted| / 2 + 1..]
  }

  /** A node Build makes is well formed once both of its subtrees are. */
  lemma WfFromParts<T>(data: seq<Item<T>>, dim: nat, draws: nat -> nat, next: nat)
    requires ItemsDim(data, dim) && data != [] && dim > 0
    ensures Wf(Build(LeftPart(data, dim, draws, next), dim, draws, next + 1), dim) &&
            Wf(Build(RightPart(data, dim, draws, next), dim, draws, RightNext(next, |data|)), dim) ==>
            Wf(Build(data, dim, draws, next), dim)
  {
    var tree := Build(data, dim, draws, next);
    BuildShape(data, dim, draws, next);
    assert tree.l == Build(LeftPart(data, dim, draws, next), dim, draws, next + 1);
    assert tree.r == Build(RightPart(data, dim, draws, next), dim, draws, RightNext(next, |data|));
    BuildBoxHolds(data, dim, draws, next);
    PermDims(data, Items(tree), dim);
  }

  /** The subtrees Build makes from non-empty data: Build of the slices
      before and after the pivot. */
  lemma BuildShape<T>(data: seq<Item<T>>, dim: nat, draws: nat -> nat, next: nat)
    requires ItemsDim(data, dim) && data != [] && dim > 0
    ensures
      var sorted := SortOn(data, Axis(draws, next, dim));
      var idiv := |sorted| / 2;
      ItemsDim(sorted[..idiv], dim) && ItemsDim(sorted[idiv + 1..], dim) &&
      var tree := Build(data, dim, draws, next);
      tree.Node? &&
      tree.l == Build(sorted[..idiv], dim, draws, next + 1) &&
      tree.r == Build(sorted[idiv + 1..], dim, draws, RightNext(next, |sorted|))
  {
    var sorted := SortOn(data, Axis(draws, next, dim));
    PermDims(data, sorted, dim);
    SliceDims(sorted, dim, 0, |sorted| / 2);
    SliceDims(sorted, dim, |sorted| / 2 + 1, |sorted|);
  }

  /** Whatever is drawn from before position i of a sorted sequence is not
      above s[i], and whatever is drawn from after it not below. */
  lemma SplitOrdered<T>(s: seq<Item<T>>, t: nat, i: nat, left: seq<Item<T>>, right: seq<Item<T>>)
    requires SortedOn(s, t) && i < |s|
    requires multiset(left) == multiset(s[..i]) && multiset(right) == multiset(s[i + 1..])
    ensures forall it | it in left :: Key(it, t) <= Key(s[i], t)
    ensures forall it | it in right :: Key(s[i], t) <= Key(it, t)
  {
    forall it | it in left ensures Key(it, t) <= Key(s[i], t) {
      assert it in multiset(s[..i]);
      var j :| 0 <= j < i && s[..i][j] == it;
      assert it == s[j];
    }
    forall it | it in right ensures Key(s[i], t) <= Key(it, t) {
      assert it in multiset(s[i + 1..]);
      var j :| 0 <= j < |s| - i - 1 && s[i + 1..][j] == it;
      assert it == s[i + 1 + j];
    }
  }

  /** The same on coordinates: the items drawn from either side of s[i]
      have coordinate t and lie on that side of s[i]'s. */
  lemma PivotSplit<T>(s: seq<Item<T>>, t: nat, dim: nat, i: nat,
                      left: seq<Item<T>>, right: seq<Item<T>>)
    requires SortedOn(s, t) && i < |s| && ItemsDim(s, dim) && t < dim
    requires multiset(left) == multiset(s[..i]) && multiset(right) == multiset(s[i + 1..])
    ensures t < |s[i].point|
    ensures forall it | it in left :: t < |it.point| && it.point[t] <= s[i].point[t]
    ensures forall it | it in right :: t < |it.point| && s[i].point[t] <= it.point[t]
  {
    assert s[i] in s;
    SliceDims(s, dim, 0, i);
    SliceDims(s, dim, i + 1, |s|);
    PermDims(s[..i], left, dim);
    PermDims(s[i + 1..], right, dim);
    SplitOrdered(s, t, i, left, right);
  }

  /**
   * The split is ordered on the drawn axis t: no point of the left subtree
   * lies above the pivot on t and no point of the right subtree below it.
   */
  lemma BuildOrdered<T>(data: seq<Item<T>>, dim: nat, draws: nat -> nat, next: nat)
    requires ItemsDim(data, dim) && data != [] && dim > 0
    ensures
      var tree := Build(data, dim, draws, next);
      var t := Axis(draws, next, dim);
      tree.Node? && t < |tree.pdiv| &&
      (forall it | it in Items(tree.l) :: t < |it.point| && it.point[t] <= tree.pdiv[t]) &&
      (forall it | it in Items(tree.r) :: t < |it.point| && tree.pdiv[t] <= it.point[t])
  {
    var tree := Build(data, dim, draws, next);
    var t := Axis(draws, next, dim);
    var sorted := SortOn(data, t);
    var idiv := |sorted| / 2;
    assert tree.Node? && |sorted| == |data| && tree.pdiv == sorted[idiv].point by {
      BuildPivot(data, dim, draws, next);
    }
    assert ItemsDim(sorted, dim) by {
      PermDims(data, sorted, dim);
    }
    assert multiset(Items(tree.l)) == multiset(sorted[..idiv]) &&
           multiset(Items(tree.r)) == multiset(sorted[idiv + 1..]) by {
      BuildShape(data, dim, draws, next);
    }
    PivotSplit(sorted, t, dim, idiv, Items(tree.l), Items(tree.r));
  }

  /**
   * KDTree::build as the source runs it: draw the axis, sort, compute the
   * box with from_vec, split at len/2 and recurse on both slices. It
   * returns the tree Build describes and the index of the next unused
   * draw, one draw per pair; BuildWf and Build's own contract then say the
   * tree is well formed and holds exactly the given pairs.
   */
  method BuildTree<T>(data: seq<Item<T>>, dim: nat, draws: nat -> nat, next: nat)
    returns (tree: KDTree<T>, used: nat)
    requires ItemsDim(data, dim) && (data != [] ==> dim > 0)
    ensures tree == Build(data, dim, draws, next) && used == next + |data|
    decreases |data|
  {
    if data == [] {
      return Empty, next;
    }
    var t := Axis(draws, next, dim);
    var sorted := SortOn(data, t);
    PermDims(data, sorted, dim);
    PointsDim(sorted, dim);
    var bbox := FromVec(Points(sorted), dim);
    var idiv := |sorted| / 2;
    var pdiv, meta := sorted[idiv].point, sorted[idiv].meta;
    SliceDims(sorted, dim, 0, idiv);
    SliceDims(sorted, dim, idiv + 1, |sorted|);
    var l, afterL := BuildTree(sorted[..idiv], dim, draws, next + 1);
    assert afterL == RightNext(next, |sorted|);
    var r, afterR := BuildTree(sorted[idiv + 1..], dim, draws, afterL);
    ghost var want := Build(data, dim, draws, next);
    assert want.bbox == bbox && want.pdiv == pdiv && want.meta == meta;
    assert want.l == l && want.r == r;
    tree, used := Node(bbox, l, r, pdiv, meta), afterR;
  }

  // ---------------------------------------------------------------------
  // search

  /** The heap entries all pairs of t would give for query x. */
  ghost function Cands<T>(t: KDTree<T>, x: Point): multiset<OrdT<T>>
    requires ItemsDim(Items(t), |x|)
  {
    multiset(CandsOf(Items(t), x))
  }

  lemma CandsSize<T>(t: KDTree<T>, x: Point)
    requires ItemsDim(Items(t), |x|)
    ensures |Cands(t, x)| == |Items(t)|
  {
    CandsOfLength(Items(t), x);
  }

  /** A node's entries are its subtrees' entries and its own. */
  lemma CandsNode<T>(t: KDTree<T>, x: Point)
    requires t.Node? && ItemsDim(Items(t), |x|)
    ensures ItemsDim(Items(t.l), |x|) && ItemsDim(Items(t.r), |x|) && |t.pdiv| == |x|
    ensures Cands(t, x) == Cands(t.l, x) + multiset{ToCand(x, Item(t.pdiv, t.meta))} + Cands(t.r, x)
  {
    var own := Item(t.pdiv, t.meta);
    var L, R := Items(t.l), Items(t.r);
    assert Items(t) == L + [own] + R;
    assert own in Items(t);
    CandsOfConcat(L, [own], x);
    CandsOfConcat(L + [own], R, x);
    var cl, co, cr := CandsOf(L, x), CandsOf([own], x), CandsOf(R, x);
    assert CandsOf(Items(t), x) == cl + co + cr;
    assert multiset(cl + co + cr) == multiset(cl) + multiset(co) + multiset(cr);
    assert co == [ToCand(x, own)];
  }

  /** cdist of a node's box bounds the distance of every entry below it. */
  lemma BoxBoundsCands<T>(t: KDTree<T>, x: Point)
    requires t.Node? && Wf(t, |x|)
    ensures forall e | e in Cands(t, x) :: CDist(t.bbox, x) <= e.dist
  {
    forall e | e in Cands(t, x) ensures CDist(t.bbox, x) <= e.dist {
      var j := CandsOfMember(Items(t), x, e);
      assert Items(t)[j] in Items(t);
    }
  }

  /** A pending queue: non-empty well-formed subtrees (the VecDeque q). */
  ghost predicate QueueWf<T>(q: seq<KDTree<T>>, dim: nat)
  {
    forall i | 0 <= i < |q| :: q[i].Node? && Wf(q[i], dim)
  }

  /** The entries of all pairs still pending in q. */
  ghost function Pending<T>(q: seq<KDTree<T>>, x: Point): multiset<OrdT<T>>
    requires QueueWf(q, |x|)
  {
    if q == [] then multiset{} else Cands(q[0], x) + Pending(q[1..], x)
  }

  /** The number of pairs still pending in q. */
  function Count<T>(q: seq<KDTree<T>>): nat
  {
    if q == [] then 0 else |Items(q[0])| + Count(q[1..])
  }

  lemma PendingCons<T>(t: KDTree<T>, q: seq<KDTree<T>>, x: Point)
    requires t.Node? && Wf(t, |x|) && QueueWf(q, |x|)
    ensures QueueWf([t] + q, |x|)
    ensures Pending([t] + q, x) == Cands(t, x) + Pending(q, x)
    ensures Count([t] + q) == |Items(t)| + Count(q)
  {
    assert ([t] + q)[1..] == q;
  }

  lemma PendingUncons<T>(q: seq<KDTree<T>>, x: Point)
    requires q != [] && QueueWf(q, |x|)
    ensures q[0].Node? && Wf(q[0], |x|) && QueueWf(q[1..], |x|)
    ensures Pending(q, x) == Cands(q[0], x) + Pending(q[1..], x)
    ensures Count(q) == |Items(q[0])| + Count(q[1..])
  {
    assert forall i | 0 <= i < |q[1..]| :: q[1..][i] == q[i + 1];
  }

  /** cdist of a node's box is at most the distance of the node's own pair
      and of every pair in its subtrees. */
  lemma NodeBounds<T>(t: KDTree<T>, x: Point)
    requires t.Node? && Wf(t, |x|)
    ensures |t.pdiv| == |x| && ItemsDim(Items(t.l), |x|) && ItemsDim(Items(t.r), |x|)
    ensures CDist(t.bbox, x) <= Dist(x, t.pdiv)
    ensures forall e | e in Cands(t.l, x) + Cands(t.r, x) :: CDist(t.bbox, x) <= e.dist
  {
    CandsNode(t, x);
    BoxBoundsCands(t, x);
  }

  /** `if let Some(ch) = ch {q.push_front(ch)}`: an Empty child pushes nothing. */
  method PushFront<T>(ch: KDTree<T>, q: seq<KDTree<T>>, x: Point) returns (q': seq<KDTree<T>>)
    requires Wf(ch, |x|) && QueueWf(q, |x|)
    ensures QueueWf(q', |x|)
    ensures Pending(q', x) == Cands(ch, x) + Pending(q, x)
    ensures Count(q') == |Items(ch)| + Count(q)
  {
    q' := q;
    if ch.Node? {
      PendingCons(ch, q', x);
      q' := [ch] + q';
    } else {
      assert Items(ch) == [];
    }
  }

  /** The left child, then the right child, pushed to the front of q. */
  method PushChildren<T>(node: KDTree<T>, q: seq<KDTree<T>>, x: Point) returns (q': seq<KDTree<T>>)
    requires node.Node? && Wf(node, |x|) && QueueWf(q, |x|)
    ensures QueueWf(q', |x|)
    ensures Pending(q', x) == Cands(node.r, x) + Cands(node.l, x) + Pending(q, x)
    ensures Count(q') == |Items(node.r)| + |Items(node.l)| + Count(q)
  {
    q' := PushFront(node.l, q, x);
    q' := PushFront(node.r, q', x);
  }

  /** The bookkeeping of one visit: what was accounted for plus what is
      pending, regrouped around the node's own entry c. */
  lemma Regroup<X>(done: multiset<X>, l: multiset<X>, c: multiset<X>, r: multiset<X>, p: multiset<X>)
    ensures done + c + (r + l + p) == done + (l + c + r) + p
    ensures done + c + (l + r) + p == done + (l + c + r) + p
  {
  }

  /**
   * One step of search_bfs_impl on node: push its entry, pop if over k,
   * peek the largest distance, and push the left then the right child to
   * the front of q unless node's box lies farther than that distance. The
   * ghost done collects the entries accounted for (seen or pruned).
   */
  method Visit<T>(node: KDTree<T>, h: seq<OrdT<T>>, q: seq<KDTree<T>>, k: nat, x: Point,
                  ghost done: multiset<OrdT<T>>)
    returns (h': seq<OrdT<T>>, q': seq<KDTree<T>>, ghost done': multiset<OrdT<T>>)
    requires k >= 1 && node.Node? && Wf(node, |x|) && QueueWf(q, |x|)
    requires KNearest(h, done, k)
    ensures QueueWf(q', |x|) && KNearest(h', done', k)
    ensures done' + Pending(q', x) == done + Cands(node, x) + Pending(q, x)
    ensures Count(q') < Count(q) + |Items(node)|
  {
    CandsNode(node, x);
    var d := PDist(x, node.pdiv);
    var c := OrdT(d, node.meta);
    h' := Offer(h, c, k);
    OfferKeeps(h, done, c, h', k);
    var top := Peek(h');
    var dist := top.dist;
    var lower := CDist(node.bbox, x);
    ghost var below := Cands(node.l, x) + Cands(node.r, x);
    assert ToCand(x, Item(node.pdiv, node.meta)) == c;
    Regroup(done, Cands(node.l, x), multiset{c}, Cands(node.r, x), Pending(q, x));
    if lower <= dist {
      q' := PushChildren(node, q, x);
      done' := done + multiset{c};
    } else {
      NodeBounds(node, x);
      PruneKeeps(h', done + multiset{c}, top, c, lower, below, k);
      q' := q;
      done' := done + multiset{c} + below;
    }
  }

  /**
   * search_bfs_impl: h ends up holding k smallest entries among all pairs
   * of the tree; the subtrees skipped had no entry closer than the heap's
   * largest. k = 0 is excluded: peek().unwrap() fails on the empty heap.
   */
  method SearchBfsImpl<T>(root: KDTree<T>, k: nat, x: Point) returns (h: seq<OrdT<T>>)
    requires root.Node? && Wf(root, |x|) && k >= 1
    ensures KNearest(h, Cands(root, x), k)
  {
    var q: seq<KDTree<T>> := [];
    h := [];
    ghost var done: multiset<OrdT<T>> := multiset{};
    h, q, done := Visit(root, h, q, k, x, done);
    while q != []
      invariant QueueWf(q, |x|)
      invariant KNearest(h, done, k)
      invariant done + Pending(q, x) == Cands(root, x)
      decreases Count(q)
    {
      PendingUncons(q, x);
      var node := q[0];
      q := q[1..];
      h, q, done := Visit(node, h, q, k, x, done);
    }
  }

  /** KDTree::search: the k nearest (distance, payload) pairs, min(k, n) of them. */
  method Search<T>(tree: KDTree<T>, k: nat, x: Point) returns (r: seq<OrdT<T>>)
    requires tree.Node? && Wf(tree, |x|) && k >= 1
    ensures KNearest(r, Cands(tree, x), k)
    ensures |r| == MinNat(k, |Items(tree)|)
  {
    r := SearchBfsImpl(tree, k, x);
    CandsSize(tree, x);
  }

  // ---------------------------------------------------------------------
  // batch_search

  /** A non-empty well-formed tree of dimension K = |pdiv| and queries of that
      dimension. */
  ghost predicate Queries<T>(tree: KDTree<T>, xs: seq<Point>)
  {
    tree.Node? && Wf(tree, |tree.pdiv|) && forall j | 0 <= j < |xs| :: |xs[j]| == |tree.pdiv|
  }

  /** rs[j] answers the query xs[a + j] for every j. */
  ghost predicate Answers<T>(tree: KDTree<T>, k: nat, xs: seq<Point>, a: nat, rs: seq<seq<OrdT<T>>>)
  {
    Queries(tree, xs) && a + |rs| <= |xs| &&
    forall j | 0 <= j < |rs| :: KNearest(rs[j], Cands(tree, xs[a + j]), k)
  }

  lemma AnswersConcat<T>(tree: KDTree<T>, k: nat, xs: seq<Point>, a: nat,
                         rs: seq<seq<OrdT<T>>>, more: seq<seq<OrdT<T>>>)
    requires Answers(tree, k, xs, a, rs) && Answers(tree, k, xs, a + |rs|, more)
    ensures Answers(tree, k, xs, a, rs + more)
  {
    forall j | 0 <= j < |rs + more|
      ensures KNearest((rs + more)[j], Cands(tree, xs[a + j]), k)
    {
      if j < |rs| {
        assert (rs + more)[j] == rs[j];
      } else {
        var i := j - |rs|;
        assert (rs + more)[j] == more[i];
        assert a + j == a + |rs| + i;
        assert KNearest(more[i], Cands(tree, xs[a + |rs| + i]), k);
      }
    }
  }

  /** One more answer, to the next query. */
  lemma AnswersSnoc<T>(tree: KDTree<T>, k: nat, xs: seq<Point>, a: nat,
                       rs: seq<seq<OrdT<T>>>, r: seq<OrdT<T>>)
    requires Answers(tree, k, xs, a, rs) && a + |rs| < |xs|
    requires KNearest(r, Cands(tree, xs[a + |rs|]), k)
    ensures Answers(tree, k, xs, a, rs + [r])
  {
    forall j | 0 <= j < |rs + [r]|
      ensures KNearest((rs + [r])[j], Cands(tree, xs[a + j]), k)
    {
      if j < |rs| {
        assert (rs + [r])[j] == rs[j];
      } else {
        assert (rs + [r])[j] == r && j == |rs|;
      }
    }
  }

  /** The work of one spawned thread: search xs[start..end] in order. */
  method SearchChunk<T>(tree: KDTree<T>, k: nat, xs: seq<Point>, start: nat, end: nat)
    returns (res: seq<seq<OrdT<T>>>)
    requires start <= end <= |xs| && Queries(tree, xs) && (k >= 1 || start == end)
    ensures |res| == end - start && Answers(tree, k, xs, start, res)
  {
    res := [];
    for j := start to end
      invariant |res| == j - start && Answers(tree, k, xs, start, res)
    {
      var r := Search(tree, k, xs[j]);
      AnswersSnoc(tree, k, xs, start, res, r);
      res := res + [r];
    }
  }

  /** handles[c], for each chunk c so far, answers the queries of chunk c. */
  ghost predicate Chunked<T>(tree: KDTree<T>, k: nat, xs: seq<Point>, handles: seq<seq<seq<OrdT<T>>>>)
    requires |handles| <= DIVIDE
  {
    forall c | 0 <= c < |handles| ::
      |handles[c]| == Bound(c + 1, |xs|) - Bound(c, |xs|) && Answers(tree, k, xs, Bound(c, |xs|), handles[c])
  }

  lemma ChunkedSnoc<T>(tree: KDTree<T>, k: nat, xs: seq<Point>, handles: seq<seq<seq<OrdT<T>>>>,
                        h: seq<seq<OrdT<T>>>)
    requires |handles| < DIVIDE && Chunked(tree, k, xs, handles)
    requires |h| == Bound(|handles| + 1, |xs|) - Bound(|handles|, |xs|)
    requires Answers(tree, k, xs, Bound(|handles|, |xs|), h)
    ensures Chunked(tree, k, xs, handles + [h])
  {
    forall c | 0 <= c < |handles| + 1
      ensures |(handles + [h])[c]| == Bound(c + 1, |xs|) - Bound(c, |xs|)
      ensures Answers(tree, k, xs, Bound(c, |xs|), (handles + [h])[c])
    {
      if c < |handles| {
        assert (handles + [h])[c] == handles[c];
      } else {
        assert (handles + [h])[c] == h;
      }
    }
  }

  /** The fan-out: DIVIDE - 1 spawned chunks of n / DIVIDE queries, then a
      last chunk up to n. */
  method FanOut<T>(tree: KDTree<T>, k: nat, xs: seq<Point>) returns (handles: seq<seq<seq<OrdT<T>>>>)
    requires Queries(tree, xs) && (k >= 1 || xs == [])
    ensures |handles| == DIVIDE && Chunked(tree, k, xs, handles)
  {
    var n := |xs|;
    handles := [];
    for i := 0 to DIVIDE - 1
      invariant |handles| == i && Chunked(tree, k, xs, handles)
    {
      var start := ChunkStart(i, n);
      var end := ChunkEnd(i, n);
      BoundsOrdered(n, i, i + 1);
      var h := SearchChunk(tree, k, xs, start, end);
      ChunkedSnoc(tree, k, xs, handles, h);
      handles := handles + [h];
    }
    var start := ChunkStart(DIVIDE - 1, n);
    var end := n;
    BoundsOrdered(n, DIVIDE - 1, DIVIDE);
    var h := SearchChunk(tree, k, xs, start, end);
    ChunkedSnoc(tree, k, xs, handles, h);
    handles := handles + [h];
  }

  /** The fan-in: the chunks' answers concatenated in chunk order answer
      every query in order. */
  method FanIn<T>(tree: KDTree<T>, k: nat, xs: seq<Point>, handles: seq<seq<seq<OrdT<T>>>>)
    returns (result: seq<seq<OrdT<T>>>)
    requires Queries(tree, xs) && |handles| == DIVIDE && Chunked(tree, k, xs, handles)
    ensures |result| == |xs| && Answers(tree, k, xs, 0, result)
  {
    var n := |xs|;
    result := [];
    for c := 0 to DIVIDE
      invariant |result| == Bound(c, n)
      invariant Answers(tree, k, xs, 0, result)
    {
      AnswersConcat(tree, k, xs, 0, result, handles[c]);
      BoundsOrdered(n, c, c + 1);
      result := result + handles[c];
    }
    BoundsOrdered(n, 0, DIVIDE);
  }

  /**
   * KDTree::batch_search, the DIVIDE chunks searched one after another
   * and their results concatenated in chunk order: one answer per query,
   * in query order.
   */
  method BatchSearch<T>(tree: KDTree<T>, k: nat, xs: seq<Point>) returns (result: seq<seq<OrdT<T>>>)
    requires Queries(tree, xs) && (k >= 1 || xs == [])
    ensures |result| == |xs|
    ensures forall j | 0 <= j < |xs| :: KNearest(result[j], Cands(tree, xs[j]), k)
  {
    var handles := FanOut(tree, k, xs);
    result := FanIn(tree, k, xs, handles);
  }

}
