/**
 * StupidKNN (src/baseline.rs): the brute-force oracle the tests compare the
 * KD-tree against. It scans every stored pair with the same bounded-heap
 * step the tree search uses.
 */
module Baseline {
  import opened Util
  import opened Knn
  import opened Batch

  datatype StupidKNN<T> = StupidKNN(inner: seq<Item<T>>)

  /** StupidKNN::build keeps the data as given, order included. */
  function Build<T>(data: seq<Item<T>>): (s: StupidKNN<T>)
    ensures s.inner == data
  {
    StupidKNN(data)
  }

  /**
   * StupidKNN::search: after the scan the heap holds k smallest entries of
   * all stored pairs, min(k, n) of them; with k = 0 every push is popped
   * at once and the result is empty.
   */
  method Search<T>(s: StupidKNN<T>, k: nat, x: Point) returns (r: seq<OrdT<T>>)
    requires ItemsDim(s.inner, |x|)
    ensures KNearest(r, multiset(CandsOf(s.inner, x)), k)
    ensures |r| == MinNat(k, |s.inner|)
  {
    var d := s.inner;
    var h: seq<OrdT<T>> := [];
    for j := 0 to |d|
      invariant ItemsDim(d[..j], |x|)
      invariant KNearest(h, multiset(CandsOf(d[..j], x)), k)
    {
      CandsOfSnoc(d, x, j);
      var y, meta := d[j].point, d[j].meta;
      var dist := PDist(x, y);
      var c := OrdT(dist, meta);
      ghost var seen := multiset(CandsOf(d[..j], x));
      var h' := Offer(h, c, k);
      OfferKeeps(h, seen, c, h', k);
      h := h';
    }
    assert d[..|d|] == d;
    CandsOfLength(d, x);
    r := h;
  }

  /** Every query has the dimension of every stored point. */
  ghost predicate Queries<T>(s: StupidKNN<T>, xs: seq<Point>)
  {
    forall j | 0 <= j < |xs| :: ItemsDim(s.inner, |xs[j]|)
  }

  /** rs[j] is the oracle's answer to the query xs[a + j] for every j. */
  ghost predicate Answers<T>(s: StupidKNN<T>, k: nat, xs: seq<Point>, a: nat, rs: seq<seq<OrdT<T>>>)
  {
    Queries(s, xs) && a + |rs| <= |xs| &&
    forall j | 0 <= j < |rs| :: KNearest(rs[j], multiset(CandsOf(s.inner, xs[a + j])), k)
  }

  lemma AnswersConcat<T>(s: StupidKNN<T>, k: nat, xs: seq<Point>, a: nat,
                         rs: seq<seq<OrdT<T>>>, more: seq<seq<OrdT<T>>>)
    requires Answers(s, k, xs, a, rs) && Answers(s, k, xs, a + |rs|, more)
    ensures Answers(s, k, xs, a, rs + more)
  {
    forall j | 0 <= j < |rs + more|
      ensures KNearest((rs + more)[j], multiset(CandsOf(s.inner, xs[a + j])), k)
    {
      if j < |rs| {
        assert (rs + more)[j] == rs[j];
      } else {
        var i := j - |rs|;
        assert (rs + more)[j] == more[i];
        assert a + j == a + |rs| + i;
        assert KNearest(more[i], multiset(CandsOf(s.inner, xs[a + |rs| + i])), k);
      }
    }
  }

  /** One more answer, to the next query. */
  lemma AnswersSnoc<T>(s: StupidKNN<T>, k: nat, xs: seq<Point>, a: nat,
                       rs: seq<seq<OrdT<T>>>, r: seq<OrdT<T>>)
    requires Answers(s, k, xs, a, rs) && a + |rs| < |xs|
    requires KNearest(r, multiset(CandsOf(s.inner, xs[a + |rs|])), k)
    ensures Answers(s, k, xs, a, rs + [r])
  {
    forall j | 0 <= j < |rs + [r]|
      ensures KNearest((rs + [r])[j], multiset(CandsOf(s.inner, xs[a + j])), k)
    {
      if j < |rs| {
        assert (rs + [r])[j] == rs[j];
      } else {
        assert (rs + [r])[j] == r && j == |rs|;
      }
    }
  }

  /** The work of one spawned thread: search xs[start..end] in order. */
  method SearchChunk<T>(s: StupidKNN<T>, k: nat, xs: seq<Point>, start: nat, end: nat)
    returns (res: seq<seq<OrdT<T>>>)
    requires start <= end <= |xs| && Queries(s, xs)
    ensures |res| == end - start && Answers(s, k, xs, start, res)
  {
    res := [];
    for j := start to end
      invariant |res| == j - start && Answers(s, k, xs, start, res)
    {
      var r := Search(s, k, xs[j]);
      AnswersSnoc(s, k, xs, start, res, r);
      res := res + [r];
    }
  }

  /** handles[c], for each chunk c so far, answers the queries of chunk c. */
  ghost predicate Chunked<T>(s: StupidKNN<T>, k: nat, xs: seq<Point>, handles: seq<seq<seq<OrdT<T>>>>)
    requires |handles| <= DIVIDE
  {
    forall c | 0 <= c < |handles| ::
      |handles[c]| == Bound(c + 1, |xs|) - Bound(c, |xs|) && Answers(s, k, xs, Bound(c, |xs|), handles[c])
  }

  lemma ChunkedSnoc<T>(s: StupidKNN<T>, k: nat, xs: seq<Point>, handles: seq<seq<seq<OrdT<T>>>>,
                        h: seq<seq<OrdT<T>>>)
    requires |handles| < DIVIDE && Chunked(s, k, xs, handles)
    requires |h| == Bound(|handles| + 1, |xs|) - Bound(|handles|, |xs|)
    requires Answers(s, k, xs, Bound(|handles|, |xs|), h)
    ensures Chunked(s, k, xs, handles + [h])
  {
    forall c | 0 <= c < |handles| + 1
      ensures |(handles + [h])[c]| == Bound(c + 1, |xs|) - Bound(c, |xs|)
      ensures Answers(s, k, xs, Bound(c, |xs|), (handles + [h])[c])
    {
      if c < |handles| {
        assert (handles + [h])[c] == handles[c];
      } else {
        assert (handles + [h])[c] == h;
      }
    }
  }

  /** The fan-out: DIVIDE - 1 spawned chunks of n / DIVIDE queries, then a
      last chunk up to n. */
  method FanOut<T>(s: StupidKNN<T>, k: nat, xs: seq<Point>) returns (handles: seq<seq<seq<OrdT<T>>>>)
    requires Queries(s, xs)
    ensures |handles| == DIVIDE && Chunked(s, k, xs, handles)
  {
    var n := |xs|;
    handles := [];
    for i := 0 to DIVIDE - 1
      invariant |handles| == i && Chunked(s, k, xs, handles)
    {
      var start := ChunkStart(i, n);
      var end := ChunkEnd(i, n);
      BoundsOrdered(n, i, i + 1);
      var h := SearchChunk(s, k, xs, start, end);
      ChunkedSnoc(s, k, xs, handles, h);
      handles := handles + [h];
    }
    var start := ChunkStart(DIVIDE - 1, n);
    var end := n;
    BoundsOrdered(n, DIVIDE - 1, DIVIDE);
    var h := SearchChunk(s, k, xs, start, end);
    ChunkedSnoc(s, k, xs, handles, h);
    handles := handles + [h];
  }

  /** The fan-in: the chunks' answers concatenated in chunk order answer
      every query in order. */
  method FanIn<T>(s: StupidKNN<T>, k: nat, xs: seq<Point>, handles: seq<seq<seq<OrdT<T>>>>)
    returns (result: seq<seq<OrdT<T>>>)
    requires Queries(s, xs) && |handles| == DIVIDE && Chunked(s, k, xs, handles)
    ensures |result| == |xs| && Answers(s, k, xs, 0, result)
  {
    var n := |xs|;
    result := [];
    for c := 0 to DIVIDE
      invariant |result| == Bound(c, n)
      invariant Answers(s, k, xs, 0, result)
    {
      AnswersConcat(s, k, xs, 0, result, handles[c]);
      BoundsOrdered(n, c, c + 1);
      result := result + handles[c];
    }
    BoundsOrdered(n, 0, DIVIDE);
  }

  /**
   * StupidKNN::batch_search, the same DIVIDE chunks searched one after
   * another: one answer per query, in query order.
   */
  method BatchSearch<T>(s: StupidKNN<T>, k: nat, xs: seq<Point>) returns (result: seq<seq<OrdT<T>>>)
    requires Queries(s, xs)
    ensures |result| == |xs|
    ensures forall j | 0 <= j < |xs| :: KNearest(result[j], multiset(CandsOf(s.inner, xs[j])), k)
  {
    var handles := FanOut(s, k, xs);
    result := FanIn(s, k, xs, handles);
  }

}
