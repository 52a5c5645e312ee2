/**
 * The bounded max-heap discipline shared by the KD-tree search and the
 * brute-force oracle: push a candidate, then pop the largest once the heap
 * holds more than k (src/lib.rs, src/baseline.rs).
 *
 * A BinaryHeap<OrdT<T>> is modelled by the sequence of its entries, in no
 * particular order; peek and pop see one entry of largest distance, and which
 * one among equal distances is left open.
 */
module Knn {
  import opened Util

  /** A stored pair ([f32; K], T): a point and its payload. */
  datatype Item<T> = Item(point: Point, meta: T)

  ghost predicate ItemsDim<T>(s: seq<Item<T>>, dim: nat)
  {
    forall it | it in s :: |it.point| == dim
  }

  /** The heap entry pushed for an item: OrdT(pdist(x, point), meta). */
  function ToCand<T>(x: Point, it: Item<T>): OrdT<T>
    requires |it.point| == |x|
  {
    OrdT(Dist(x, it.point), it.meta)
  }

  /** The heap entries of a sequence of items, position by position. */
  function CandsOf<T>(s: seq<Item<T>>, x: Point): seq<OrdT<T>>
    requires ItemsDim(s, |x|)
  {
    if s == [] then [] else [ToCand(x, s[0])] + CandsOf(s[1..], x)
  }

  lemma {:induction false} CandsOfAt<T>(s: seq<Item<T>>, x: Point, j: nat)
    requires ItemsDim(s, |x|) && j < |s|
    ensures |CandsOf(s, x)| == |s| && CandsOf(s, x)[j] == ToCand(x, s[j])
  {
    if j > 0 { CandsOfAt(s[1..], x, j - 1); } else { CandsOfLength(s, x); }
  }

  lemma {:induction false} CandsOfLength<T>(s: seq<Item<T>>, x: Point)
    requires ItemsDim(s, |x|)
    ensures |CandsOf(s, x)| == |s|
  {
    if s != [] { CandsOfLength(s[1..], x); }
  }

  /** Every heap entry of s is the entry of one of its items. */
  lemma CandsOfMember<T>(s: seq<Item<T>>, x: Point, e: OrdT<T>) returns (j: nat)
    requires ItemsDim(s, |x|) && e in multiset(CandsOf(s, x))
    ensures j < |s| && e == ToCand(x, s[j])
  {
    CandsOfLength(s, x);
    j :| 0 <= j < |s| && CandsOf(s, x)[j] == e;
    CandsOfAt(s, x, j);
  }

  lemma {:induction false} CandsOfConcat<T>(a: seq<Item<T>>, b: seq<Item<T>>, x: Point)
    requires ItemsDim(a, |x|) && ItemsDim(b, |x|)
    ensures ItemsDim(a + b, |x|)
    ensures CandsOf(a + b, x) == CandsOf(a, x) + CandsOf(b, x)
  {
    if a != [] {
      assert (a + b)[1..] == a[1..] + b;
      CandsOfConcat(a[1..], b, x);
    } else {
      assert a + b == b;
    }
  }

  lemma SliceDims<T>(s: seq<Item<T>>, dim: nat, a: nat, b: nat)
    requires ItemsDim(s, dim) && a <= b <= |s|
    ensures ItemsDim(s[a..b], dim)
  {
    forall it | it in s[a..b] ensures |it.point| == dim {
      var j :| 0 <= j < b - a && s[a..b][j] == it;
      assert it == s[a + j];
    }
  }

  /** The entries of a prefix grow by one entry per item. */
  lemma CandsOfSnoc<T>(s: seq<Item<T>>, x: Point, j: nat)
    requires ItemsDim(s, |x|) && j < |s|
    ensures ItemsDim(s[..j], |x|) && ItemsDim(s[..j + 1], |x|) && |s[j].point| == |x|
    ensures multiset(CandsOf(s[..j + 1], x)) == multiset(CandsOf(s[..j], x)) + multiset{ToCand(x, s[j])}
  {
    SliceDims(s, |x|, 0, j);
    SliceDims(s, |x|, 0, j + 1);
    assert s[j] in s;
    assert s[..j + 1] == s[..j] + [s[j]];
    CandsOfConcat(s[..j], [s[j]], x);
  }

  lemma SplitAt<X>(b: seq<X>, i: nat)
    requires i < |b|
    ensures b == b[..i] + [b[i]] + b[i + 1..]
    ensures multiset(b) == multiset(b[..i] + b[i + 1..]) + multiset{b[i]}
  {
    assert b == b[..i] + [b[i]] + b[i + 1..];
  }

  /** Removing one element from both sides of a multiset equation. */
  lemma Cancel<X>(p: multiset<X>, q: multiset<X>, c: X)
    requires multiset{c} + p == q + multiset{c}
    ensures p == q
  {
    assert p == (multiset{c} + p) - multiset{c};
    assert q == (q + multiset{c}) - multiset{c};
  }

  /** Taking one element out of the middle of a sequence takes it out of
      the multiset. */
  lemma Splice<X>(pre: seq<X>, e: X, post: seq<X>)
    ensures multiset(pre + ([e] + post)) == multiset(pre + post) + multiset{e}
  {
    calc {
      multiset(pre + ([e] + post));
      multiset(pre) + (multiset{e} + multiset(post));
      multiset(pre) + multiset(post) + multiset{e};
      multiset(pre + post) + multiset{e};
    }
  }

  lemma SliceAround<X>(b: seq<X>, i: nat)
    requires i < |b|
    ensures b == b[..i] + ([b[i]] + b[i + 1..])
  {
  }

  lemma CandsOfSplice<T>(pre: seq<Item<T>>, e: Item<T>, post: seq<Item<T>>, x: Point)
    requires ItemsDim(pre, |x|) && |e.point| == |x| && ItemsDim(post, |x|)
    ensures ItemsDim([e] + post, |x|) && ItemsDim(pre + ([e] + post), |x|) && ItemsDim(pre + post, |x|)
    ensures multiset(CandsOf(pre + ([e] + post), x)) == multiset(CandsOf(pre + post, x)) + multiset{ToCand(x, e)}
  {
    assert ItemsDim([e], |x|);
    CandsOfConcat([e], post, x);
    CandsOfConcat(pre, [e] + post, x);
    CandsOfConcat(pre, post, x);
    var cp, cq := CandsOf(pre, x), CandsOf(post, x);
    assert CandsOf([e], x) == [ToCand(x, e)];
    Splice(cp, ToCand(x, e), cq);
  }

  lemma CandsOfSplit<T>(b: seq<Item<T>>, x: Point, i: nat)
    requires ItemsDim(b, |x|) && i < |b|
    ensures ItemsDim(b[..i] + b[i + 1..], |x|)
    ensures multiset(CandsOf(b, x)) ==
            multiset(CandsOf(b[..i] + b[i + 1..], x)) + multiset{ToCand(x, b[i])}
  {
    SliceAround(b, i);
    SliceDims(b, |x|, 0, i);
    SliceDims(b, |x|, i + 1, |b|);
    assert b[i] in b;
    CandsOfSplice(b[..i], b[i], b[i + 1..], x);
  }

  /** The head of a is somewhere in a permutation b of it, and the rest of
      a is a permutation of b without that position. */
  lemma MatchHead<X>(a: seq<X>, b: seq<X>) returns (i: nat)
    requires a != [] && multiset(a) == multiset(b)
    ensures i < |b| && b[i] == a[0]
    ensures multiset(a[1..]) == multiset(b[..i] + b[i + 1..])
  {
    assert a[0] in multiset(b);
    i :| 0 <= i < |b| && b[i] == a[0];
    SplitAt(b, i);
    assert a == [a[0]] + a[1..];
    assert multiset(a) == multiset{a[0]} + multiset(a[1..]);
    Cancel(multiset(a[1..]), multiset(b[..i] + b[i + 1..]), a[0]);
  }

  /** Reordering the items reorders their heap entries: the multiset of
      entries depends only on the multiset of items. */
  lemma {:induction false} CandsOfPerm<T>(a: seq<Item<T>>, b: seq<Item<T>>, x: Point)
    requires ItemsDim(a, |x|) && ItemsDim(b, |x|) && multiset(a) == multiset(b)
    ensures multiset(CandsOf(a, x)) == multiset(CandsOf(b, x))
  {
    if a == [] {
      assert |b| == |multiset(b)| == 0;
    } else {
      var i := MatchHead(a, b);
      CandsOfSplit(b, x, i);
      var rest := b[..i] + b[i + 1..];
      CandsOfPerm(a[1..], rest, x);
    }
  }

  function MinNat(a: nat, b: nat): nat { if a < b then a else b }

  /**
   * h holds k smallest entries of all: its entries are a sub-multiset of
   * all, there are min(k, |all|) of them, and no entry left out is closer
   * than an entry kept.
   */
  ghost predicate KNearest<T>(h: seq<OrdT<T>>, all: multiset<OrdT<T>>, k: nat)
  {
    multiset(h) <= all && |h| == MinNat(k, |all|) &&
    forall a, b | a in h && b in all - multiset(h) :: a.dist <= b.dist
  }

  /** h[i] is an entry of largest distance (what peek and pop see). */
  predicate IsTopAt<T>(h: seq<OrdT<T>>, i: nat)
  {
    i < |h| && forall j | 0 <= j < |h| :: h[j].dist <= h[i].dist
  }

  lemma {:induction false} TopExists<T>(h: seq<OrdT<T>>) returns (i: nat)
    requires h != []
    ensures IsTopAt(h, i)
  {
    if |h| == 1 {
      i := 0;
    } else {
      var i' := TopExists(h[1..]);
      i := if h[0].dist >= h[1..][i'].dist then 0 else i' + 1;
      forall j | 0 <= j < |h| ensures h[j].dist <= h[i].dist {
        if j > 0 { assert h[j] == h[1..][j - 1]; }
      }
    }
  }

  /** The position of an entry of largest distance. */
  method TopIndex<T>(h: seq<OrdT<T>>) returns (i: nat)
    requires h != []
    ensures IsTopAt(h, i)
  {
    ghost var g := TopExists(h);
    i :| IsTopAt(h, i);
  }

  /** BinaryHeap::peek: an entry of largest distance. */
  method Peek<T>(h: seq<OrdT<T>>) returns (top: OrdT<T>)
    requires h != []
    ensures top in h && forall e | e in h :: e.dist <= top.dist
  {
    var i := TopIndex(h);
    top := h[i];
  }

  /** `h.push(c); if h.len() > k { h.pop(); }` on a heap of at most k entries:
      the result keeps k smallest entries of the old heap plus c. */
  method Offer<T>(h: seq<OrdT<T>>, c: OrdT<T>, k: nat) returns (h': seq<OrdT<T>>)
    requires |h| <= k
    ensures KNearest(h', multiset(h) + multiset{c}, k)
  {
    h' := h + [c];
    if |h'| > k {
      var i := TopIndex(h');
      ghost var full := h';
      h' := h'[..i] + h'[i + 1..];
      SplitAt(full, i);
      assert multiset(full) - multiset(h') == multiset{full[i]};
      forall a | a in h' ensures a.dist <= full[i].dist {
        assert a in full;
      }
    }
  }

  /** w is left out of kept when kept has as many entries as h and holds
      something h does not: some entry of h is then missing from kept. */
  lemma Displaced<T>(h: seq<OrdT<T>>, kept: seq<OrdT<T>>, c: OrdT<T>) returns (w: OrdT<T>)
    requires |kept| == |h| && c in kept && c !in h
    ensures w in h && w in multiset(h) - multiset(kept)
  {
    var hm, km := multiset(h), multiset(kept);
    var both := km * hm;
    assert km == (km - hm) + both;
    assert hm == (hm - km) + both;
    assert c in km - hm;
    assert |km - hm| > 0;
    assert |hm - km| == |hm| - |both| == |km| - |both| == |km - hm|;
    var rest := SeqMinus(h, kept);
    assert |rest| == |multiset(rest)| == |hm - km|;
    w := rest[0];
    assert w in multiset(rest);
  }

  /** If something of all is left out of h, then h is full. */
  lemma FullIfLeftOut<T>(h: seq<OrdT<T>>, all: multiset<OrdT<T>>, k: nat, b: OrdT<T>)
    requires multiset(h) <= all && |h| == MinNat(k, |all|) && b in all - multiset(h)
    ensures |h| == k
  {
    assert all == multiset(h) + (all - multiset(h));
  }

  /** One offer step preserves KNearest: if h keeps k smallest of seen, and
      h' keeps k smallest of h plus c, then h' keeps k smallest of seen plus c. */
  lemma OfferKeeps<T>(h: seq<OrdT<T>>, seen: multiset<OrdT<T>>, c: OrdT<T>,
                      h': seq<OrdT<T>>, k: nat)
    requires KNearest(h, seen, k)
    requires KNearest(h', multiset(h) + multiset{c}, k)
    ensures KNearest(h', seen + multiset{c}, k)
  {
    var pushed := multiset(h) + multiset{c};
    var all := seen + multiset{c};
    forall a, b | a in h' && b in all - multiset(h')
      ensures a.dist <= b.dist
    {
      if b !in pushed - multiset(h') {
        assert all[b] == seen[b] + multiset{c}[b] && pushed[b] == multiset(h)[b] + multiset{c}[b];
        assert multiset(h')[b] < all[b] && pushed[b] <= multiset(h')[b];
        assert b in seen - multiset(h);
        FullIfLeftOut(h, seen, k, b);
        if a !in h {
          assert a in multiset(h') && multiset(h') <= pushed;
          assert a in multiset{c};
          var w := Displaced(h, h', c);
          assert w in pushed - multiset(h');
        }
      }
    }
  }

  /** Adding entries no closer than a bound that the heap's top is below
      keeps KNearest; the heap is then necessarily full, because the entry
      c it has seen is no closer than the bound either. */
  lemma PruneKeeps<T>(h: seq<OrdT<T>>, seen: multiset<OrdT<T>>, top: OrdT<T>,
                      c: OrdT<T>, bound: real, extra: multiset<OrdT<T>>, k: nat)
    requires KNearest(h, seen, k)
    requires top in h && forall e | e in h :: e.dist <= top.dist
    requires c in seen && bound <= c.dist && top.dist < bound
    requires forall e | e in extra :: bound <= e.dist
    ensures |h| == k
    ensures KNearest(h, seen + extra, k)
  {
    assert c !in h;
    FullIfLeftOut(h, seen, k, c);
    assert (seen + extra) - multiset(h) == (seen - multiset(h)) + extra;
  }

  /** s with its first occurrence of y removed, if any. */
  ghost function Without<X>(s: seq<X>, y: X): (r: seq<X>)
    ensures multiset(r) == multiset(s) - multiset{y}
  {
    if s == [] then []
    else if s[0] == y then (assert s == [s[0]] + s[1..]; s[1..])
    else (assert s == [s[0]] + s[1..]; [s[0]] + Without(s[1..], y))
  }

  /** The entries of a left after removing those of b, as a sequence. */
  ghost function SeqMinus<X>(a: seq<X>, b: seq<X>): (r: seq<X>)
    ensures multiset(r) == multiset(a) - multiset(b)
    decreases |b|
  {
    if b == [] then a
    else
      assert b == [b[0]] + b[1..];
      SeqMinus(Without(a, b[0]), b[1..])
  }

  /** The distances of a sequence of entries. */
  function DistsOf<T>(s: seq<OrdT<T>>): (r: seq<real>)
    ensures |r| == |s|
  {
    if s == [] then [] else [s[0].dist] + DistsOf(s[1..])
  }

  lemma {:induction false} DistsOfConcat<T>(a: seq<OrdT<T>>, b: seq<OrdT<T>>)
    ensures DistsOf(a + b) == DistsOf(a) + DistsOf(b)
  {
    if a != [] {
      assert (a + b)[1..] == a[1..] + b;
      DistsOfConcat(a[1..], b);
    } else {
      assert a + b == b;
    }
  }

  /** The distance of every entry of s is among s's distances. */
  lemma {:induction false} DistsOfAt<T>(s: seq<OrdT<T>>, j: nat)
    requires j < |s|
    ensures s[j].dist in DistsOf(s)
    decreases j
  {
    if j > 0 {
      DistsOfAt(s[1..], j - 1);
      assert s[1..][j - 1] == s[j];
    }
  }

  /** Every distance listed comes from an entry. */
  lemma {:induction false} DistsOfMember<T>(s: seq<OrdT<T>>, v: real) returns (j: nat)
    requires v in DistsOf(s)
    ensures j < |s| && s[j].dist == v
  {
    if s[0].dist == v {
      j := 0;
    } else {
      var j' := DistsOfMember(s[1..], v);
      j := j' + 1;
    }
  }

  lemma DistsOfSplice<T>(pre: seq<OrdT<T>>, e: OrdT<T>, post: seq<OrdT<T>>)
    ensures multiset(DistsOf(pre + ([e] + post))) == multiset(DistsOf(pre + post)) + multiset{e.dist}
  {
    DistsOfConcat(pre, [e] + post);
    DistsOfConcat([e], post);
    DistsOfConcat(pre, post);
    assert DistsOf([e]) == [e.dist];
    Splice(DistsOf(pre), e.dist, DistsOf(post));
  }

  lemma DistsOfSplit<T>(b: seq<OrdT<T>>, i: nat)
    requires i < |b|
    ensures multiset(DistsOf(b)) == multiset(DistsOf(b[..i] + b[i + 1..])) + multiset{b[i].dist}
  {
    SliceAround(b, i);
    DistsOfSplice(b[..i], b[i], b[i + 1..]);
  }

  /** Reordering entries reorders their distances. */
  lemma {:induction false} DistsOfPerm<T>(a: seq<OrdT<T>>, b: seq<OrdT<T>>)
    requires multiset(a) == multiset(b)
    ensures multiset(DistsOf(a)) == multiset(DistsOf(b))
  {
    if a == [] {
      assert |b| == |multiset(b)| == 0;
    } else {
      var i := MatchHead(a, b);
      var rest := b[..i] + b[i + 1..];
      DistsOfPerm(a[1..], rest);
      DistsOfSplit(b, i);
      var tail := DistsOf(a[1..]);
      assert DistsOf(a) == [a[0].dist] + tail;
      assert multiset(DistsOf(a)) == multiset{a[0].dist} + multiset(tail);
    }
  }

  /** A value a keeps more often than b, and one b keeps more often than a,
      bound each other when both leave out nothing smaller than they keep. */
  lemma Pinch(a: seq<real>, b: seq<real>, d: seq<real>, w: real, v: real)
    requires multiset(a) <= multiset(d) && multiset(b) <= multiset(d)
    requires forall u, v | u in a && v in multiset(d) - multiset(a) :: u <= v
    requires forall u, v | u in b && v in multiset(d) - multiset(b) :: u <= v
    requires w in multiset(a) - multiset(b) && v in multiset(b) - multiset(a)
    ensures w == v
  {
    assert w in a && v in multiset(d) - multiset(a);
    assert v in b && w in multiset(d) - multiset(b);
  }

  /** Two multisets of one size differ by as much in each direction. */
  lemma SameSizeMinus<X>(am: multiset<X>, bm: multiset<X>)
    requires |am| == |bm|
    ensures |am - bm| == |bm - am|
  {
    assert am == (am - bm) + (am * bm);
    assert bm == (bm - am) + (am * bm);
  }

  /** Of all multisets of |a| reals drawn from d that keep no larger value
      than one they leave out, there is only one. */
  lemma SmallestUnique(a: seq<real>, b: seq<real>, d: seq<real>)
    requires multiset(a) <= multiset(d) && multiset(b) <= multiset(d) && |a| == |b|
    requires forall u, v | u in a && v in multiset(d) - multiset(a) :: u <= v
    requires forall u, v | u in b && v in multiset(d) - multiset(b) :: u <= v
    ensures multiset(a) == multiset(b)
  {
    var am, bm := multiset(a), multiset(b);
    SameSizeMinus(am, bm);
    var ab, ba := SeqMinus(a, b), SeqMinus(b, a);
    assert |ab| == |multiset(ab)| == |am - bm|;
    assert |ba| == |multiset(ba)| == |bm - am|;
    if ab != [] {
      assert ab[0] in multiset(ab) && ba[0] in multiset(ba);
      Pinch(a, b, d, ab[0], ba[0]);
      assert false;
    }
    MinusEmpty(am, bm);
  }

  /** Multisets neither of which exceeds the other anywhere are equal. */
  lemma MinusEmpty<X>(am: multiset<X>, bm: multiset<X>)
    requires |am - bm| == 0 && |bm - am| == 0
    ensures am == bm
  {
    forall z ensures am[z] == bm[z] {
      assert (am - bm)[z] == 0 && (bm - am)[z] == 0;
    }
  }

  /** The distances of h and rest together are the distances of all. */
  lemma DistsUnion<T>(h: seq<OrdT<T>>, rest: seq<OrdT<T>>, all: seq<OrdT<T>>)
    requires multiset(all) == multiset(h) + multiset(rest)
    ensures multiset(DistsOf(all)) == multiset(DistsOf(h)) + multiset(DistsOf(rest))
  {
    assert multiset(all) == multiset(h + rest);
    DistsOfPerm(all, h + rest);
    DistsOfConcat(h, rest);
  }

  /** A distance kept is no larger than a distance left out. */
  lemma KeptBelowLeft<T>(h: seq<OrdT<T>>, all: multiset<OrdT<T>>, k: nat,
                         rest: seq<OrdT<T>>, u: real, v: real)
    requires KNearest(h, all, k) && multiset(rest) == all - multiset(h)
    requires u in DistsOf(h) && v in DistsOf(rest)
    ensures u <= v
  {
    var i := DistsOfMember(h, u);
    var j := DistsOfMember(rest, v);
    assert rest[j] in multiset(rest);
    assert h[i] in h;
  }

  lemma AddMinus<X>(p: multiset<X>, q: multiset<X>)
    ensures (p + q) - p == q
  {
  }

  lemma KNearestDists<T>(h: seq<OrdT<T>>, all: seq<OrdT<T>>, k: nat)
    requires KNearest(h, multiset(all), k)
    ensures multiset(DistsOf(h)) <= multiset(DistsOf(all))
    ensures forall u, v | u in DistsOf(h) && v in multiset(DistsOf(all)) - multiset(DistsOf(h)) :: u <= v
  {
    var rest := SplitOff(h, all, k);
    var dh, dr, da := DistsOf(h), DistsOf(rest), DistsOf(all);
    DistsUnion(h, rest, all);
    AddMinus(multiset(dh), multiset(dr));
    forall u, v | u in dh && v in multiset(da) - multiset(dh)
      ensures u <= v
    {
      KeptBelowLeft(h, multiset(all), k, rest, u, v);
    }
  }

  ghost function SplitOff<T>(h: seq<OrdT<T>>, all: seq<OrdT<T>>, k: nat): (rest: seq<OrdT<T>>)
    requires KNearest(h, multiset(all), k)
    ensures multiset(rest) == multiset(all) - multiset(h)
    ensures multiset(all) == multiset(h) + multiset(rest)
  {
    SeqMinus(all, h)
  }

  /** Two heaps that both keep k smallest entries of the same candidates
      hold the same multiset of distances: only payloads at equal distance
      can differ. */
  lemma KNearestSameDists<T>(h1: seq<OrdT<T>>, h2: seq<OrdT<T>>, all: seq<OrdT<T>>, k: nat)
    requires KNearest(h1, multiset(all), k) && KNearest(h2, multiset(all), k)
    ensures multiset(DistsOf(h1)) == multiset(DistsOf(h2))
  {
    KNearestDists(h1, all, k);
    KNearestDists(h2, all, k);
    SmallestUnique(DistsOf(h1), DistsOf(h2), DistsOf(all));
  }
}
