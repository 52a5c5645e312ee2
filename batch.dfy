/**
 * The chunking of batch_search (src/lib.rs, src/baseline.rs): the queries
 * are cut into DIVIDE contiguous chunks; chunk i < DIVIDE - 1 is
 * [i * (n / DIVIDE), (i + 1) * (n / DIVIDE)) and the last chunk runs from
 * (DIVIDE - 1) * (n / DIVIDE) to n. The per-chunk results are concatenated
 * in chunk order.
 */
module Batch {
  const DIVIDE: nat := 8

  /** Where chunk c starts, for c <= DIVIDE (Bound(DIVIDE, n) is where the
      last chunk ends). */
  function Bound(c: nat, n: nat): nat
    requires c <= DIVIDE
  {
    if c < DIVIDE then c * (n / DIVIDE) else n
  }

  /** start of chunk i, as each spawning loop computes it */
  function ChunkStart(i: nat, n: nat): (r: nat)
    requires i < DIVIDE
    ensures r == Bound(i, n) && r <= n
    ensures i == 0 ==> r == 0
  {
    BoundsOrdered(n, i, DIVIDE);
    i * (n / DIVIDE)
  }

  /** end of chunk i: (i + 1) * (n / DIVIDE) for the first DIVIDE - 1
      chunks, n for the final one */
  function ChunkEnd(i: nat, n: nat): (r: nat)
    requires i < DIVIDE
    ensures r == Bound(i + 1, n) && ChunkStart(i, n) <= r <= n
    ensures i < DIVIDE - 1 ==> r == ChunkStart(i + 1, n)
    ensures i == DIVIDE - 1 ==> r == n
  {
    BoundsOrdered(n, i, i + 1);
    if i < DIVIDE - 1 then (i + 1) * (n / DIVIDE) else n
  }

  /** The chunk boundaries go from 0 to n and never decrease, so every
      chunk is a well-formed (possibly empty) range inside [0, n). */
  lemma BoundsOrdered(n: nat, c: nat, d: nat)
    requires c <= d <= DIVIDE
    ensures Bound(0, n) == 0 && Bound(DIVIDE, n) == n
    ensures Bound(c, n) <= Bound(d, n) <= n
  {
    assert DIVIDE * (n / DIVIDE) <= n;
    if d < DIVIDE {
      assert c * (n / DIVIDE) <= d * (n / DIVIDE);
      assert d * (n / DIVIDE) <= DIVIDE * (n / DIVIDE);
    } else {
      assert c * (n / DIVIDE) <= DIVIDE * (n / DIVIDE);
    }
  }

  /** The indices a, a + 1, ..., b - 1. */
  function Range(a: nat, b: nat): (r: seq<nat>)
    requires a <= b
    ensures |r| == b - a && forall j | 0 <= j < |r| :: r[j] == a + j
  {
    seq(b - a, j requires 0 <= j < b - a => a + j)
  }

  /** The indices chunks c, c + 1, ..., DIVIDE - 1 visit, in order. */
  function ChunksFrom(c: nat, n: nat): seq<nat>
    requires c <= DIVIDE
    decreases DIVIDE - c
  {
    if c == DIVIDE then []
    else
      BoundsOrdered(n, c, c + 1);
      Range(ChunkStart(c, n), ChunkEnd(c, n)) + ChunksFrom(c + 1, n)
  }

  lemma {:induction false} ChunksFromCover(c: nat, n: nat)
    requires c <= DIVIDE
    ensures Bound(c, n) <= n
    ensures ChunksFrom(c, n) == Range(Bound(c, n), n)
    decreases DIVIDE - c
  {
    BoundsOrdered(n, c, DIVIDE);
    if c < DIVIDE {
      ChunksFromCover(c + 1, n);
      BoundsOrdered(n, c, c + 1);
      var a, m := Bound(c, n), Bound(c + 1, n);
      assert Range(a, m) + Range(m, n) == Range(a, n);
    }
  }

  /** The concatenation of all chunks lists every query index exactly once
      and in increasing order. */
  lemma ChunksCover(n: nat)
    ensures ChunksFrom(0, n) == Range(0, n)
  {
    ChunksFromCover(0, n);
  }
}
