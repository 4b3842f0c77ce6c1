/**
  Static work partitioning of `find_workfiles` in `run_polaris.py`.

  A worker's global rank is `node_rank * 4 + local_rank` and the number of
  workers is `NRANKS * 4`. With more than one worker the pending list is cut
  into contiguous slices of `N / W` elements (integer division) and the last
  rank also takes the remainder; with at most one worker the whole list is
  returned.
 */
module Partition {

  /** Accelerators per node, the constant 4 of the source. */
  const GpusPerNode: int := 4

  /** The process environment, its values already parsed by `int()`. */
  type Env = map<string, int>

  /** A worker's place in the grid of (node, local device) pairs. */
  datatype Rank = Rank(nodeRank: int, localRank: int, numNodes: int)
  {
    function GlobalRank(): int
    {
      nodeRank * GpusPerNode + localRank
    }

    function WorkerCount(): int
    {
      numNodes * GpusPerNode
    }
  }

  function EnvOr(env: Env, name: string, default: int): int
  {
    if name in env then env[name] else default
  }

  /** The rank read from `NODE_RANK`, `PMI_LOCAL_RANK` and `NRANKS`, which
      default to 0, 0 and 1. */
  function RankFromEnv(env: Env): Rank
  {
    Rank(EnvOr(env, "NODE_RANK", 0), EnvOr(env, "PMI_LOCAL_RANK", 0), EnvOr(env, "NRANKS", 1))
  }

  lemma MulMono(a: int, b: int, c: int)
    requires a <= b && 0 <= c
    ensures a * c <= b * c
  {
    assert b * c - a * c == (b - a) * c;
  }

  /** The number of items every rank but the last receives. */
  function Chunk(n: nat, w: int): nat
    requires w > 1
  {
    n / w
  }

  lemma ChunkFacts(n: nat, w: int)
    requires w > 1
    ensures w * Chunk(n, w) <= n
    ensures n < w ==> Chunk(n, w) == 0
  {
  }

  /** First index of the slice of `rank` among `w` workers over `n` items. */
  function ShardStart(n: nat, rank: int, w: int): int
    requires w > 1
  {
    rank * Chunk(n, w)
  }

  /** One past the last index of the slice of `rank`: the last rank runs to
      the end of the list. */
  function ShardEnd(n: nat, rank: int, w: int): int
    requires w > 1
  {
    if rank + 1 == w then n else ShardStart(n, rank, w) + Chunk(n, w)
  }

  /** The slice bounds of every rank stay inside `[0, n]`. */
  lemma BoundsInRange(n: nat, rank: int, w: int)
    requires w > 1 && 0 <= rank < w
    ensures 0 <= ShardStart(n, rank, w) <= ShardEnd(n, rank, w) <= n
    ensures ShardStart(n, rank, w) + Chunk(n, w) <= n
  {
    var c := Chunk(n, w);
    MulMono(0, rank, c);
    MulMono(rank + 1, w, c);
    assert (rank + 1) * c == rank * c + c;
    ChunkFacts(n, w);
  }

  /** A slice bound as Python normalises it for a list of `n` items: a
      negative bound counts from the end, then the bound is clamped to
      `[0, n]`. */
  function PyBound(i: int, n: nat): (k: nat)
    ensures k <= n
    ensures 0 <= i <= n ==> k == i
  {
    if i < 0 then (if i + n < 0 then 0 else i + n)
    else if i > n then n
    else i
  }

  /** Python's `s[lo:hi]`: never fails, and is empty when the normalised
      bounds cross. */
  function PySlice<T>(s: seq<T>, lo: int, hi: int): (r: seq<T>)
    ensures var a, b := PyBound(lo, |s|), PyBound(hi, |s|);
      && |r| == (if a <= b then b - a else 0)
      && forall k :: 0 <= k < |r| ==> r[k] == s[a + k]
    ensures 0 <= lo <= hi <= |s| ==> r == s[lo..hi]
  {
    var a, b := PyBound(lo, |s|), PyBound(hi, |s|);
    if a <= b then s[a..b] else []
  }

  /** The slice of `items` that worker `rank` of `w` processes. The rank is
      not checked against the worker count: Python's slicing clamps bounds
      that fall outside the list. */
  function FindShard<T>(items: seq<T>, rank: int, w: int): (shard: seq<T>)
    ensures w <= 1 ==> shard == items
    ensures w > 1 && 0 <= rank < w ==>
      && 0 <= ShardStart(|items|, rank, w) <= ShardEnd(|items|, rank, w) <= |items|
      && shard == items[ShardStart(|items|, rank, w)..ShardEnd(|items|, rank, w)]
  {
    if w > 1 then
      var start, end := ShardStart(|items|, rank, w), ShardEnd(|items|, rank, w);
      if 0 <= rank < w then
        BoundsInRange(|items|, rank, w);
        items[start..end]
      else
        PySlice(items, start, end)
    else
      items[..]
  }

  /** In range or not, the shard is Python's slice between the two bounds. */
  lemma ShardIsPySlice<T>(items: seq<T>, rank: int, w: int)
    requires w > 1
    ensures FindShard(items, rank, w) == PySlice(items, ShardStart(|items|, rank, w), ShardEnd(|items|, rank, w))
  {
    if 0 <= rank < w {
      BoundsInRange(|items|, rank, w);
    }
  }

  /** Every rank but the last receives `N / W` items and the last one the
      rest; with fewer items than workers, only the last rank has work. */
  lemma ShardSizes<T>(items: seq<T>, rank: int, w: int)
    requires w > 1 && 0 <= rank < w
    ensures rank + 1 < w ==> |FindShard(items, rank, w)| == |items| / w
    ensures rank + 1 == w ==> |FindShard(items, rank, w)| == |items| - (w - 1) * (|items| / w)
    ensures |items| < w && rank + 1 < w ==> FindShard(items, rank, w) == []
  {
    BoundsInRange(|items|, rank, w);
    ChunkFacts(|items|, w);
  }

  /** Whatever the rank, a shard only holds items of the list. */
  lemma ShardMember<T>(items: seq<T>, rank: int, w: int, x: T)
    requires x in FindShard(items, rank, w)
    ensures x in items
  {
    if w > 1 {
      ShardIsPySlice(items, rank, w);
      var j := PySliceIndex(items, ShardStart(|items|, rank, w), ShardEnd(|items|, rank, w), x);
    }
  }

  /** A rank at or beyond the worker count (a misconfigured environment)
      is not rejected: its slice lies inside the last rank's shard, so those
      items are processed twice. */
  lemma OutOfRangeRankRepeatsLastShard<T>(items: seq<T>, rank: int, w: int, x: T)
    requires w > 1 && rank >= w
    requires x in FindShard(items, rank, w)
    ensures x in FindShard(items, w - 1, w)
  {
    var n := |items|;
    var lo := ShardStart(n, rank, w);
    ShardIsPySlice(items, rank, w);
    var j := PySliceIndex(items, lo, ShardEnd(n, rank, w), x);
    var last := ShardStart(n, w - 1, w);
    BoundsInRange(n, w - 1, w);
    StartGrows(n, w - 1, rank, w);
    assert last <= j;
    assert FindShard(items, w - 1, w) == items[last..];
    SuffixMember(items, last, j);
  }

  /** Where an element of a Python slice sits in the list. */
  lemma PySliceIndex<T>(s: seq<T>, lo: int, hi: int, x: T) returns (j: int)
    requires x in PySlice(s, lo, hi)
    ensures PyBound(lo, |s|) <= j < |s| && s[j] == x
  {
    var r := PySlice(s, lo, hi);
    var k :| 0 <= k < |r| && r[k] == x;
    j := PyBound(lo, |s|) + k;
  }

  lemma StartGrows(n: nat, r: int, rank: int, w: int)
    requires w > 1 && r <= rank
    ensures ShardStart(n, r, w) <= ShardStart(n, rank, w)
  {
    MulMono(r, rank, Chunk(n, w));
  }

  lemma SuffixMember<T>(s: seq<T>, lo: int, i: int)
    requires 0 <= lo <= i < |s|
    ensures s[i] in s[lo..]
  {
    assert s[lo..][i - lo] == s[i];
  }

  /** `find_workfiles`: the shard of the pending list this process handles,
      for the rank its environment gives it. */
  function FindWorkfiles<T>(items: seq<T>, env: Env): (shard: seq<T>)
    ensures var r := RankFromEnv(env); shard == FindShard(items, r.GlobalRank(), r.WorkerCount())
    ensures EnvOr(env, "NRANKS", 1) <= 0 ==> shard == items
  {
    var r := RankFromEnv(env);
    FindShard(items, r.GlobalRank(), r.WorkerCount())
  }

  // ---------------------------------------------------------------------
  // Whole-system properties over all ranks

  /** The shards of ranks `0 .. k-1`, concatenated in rank order. */
  function ShardsBelow<T>(items: seq<T>, w: int, k: nat): seq<T>
    requires w > 1 && k <= w
  {
    if k == 0 then [] else ShardsBelow(items, w, k - 1) + FindShard(items, k - 1, w)
  }

  lemma {:induction false} ShardsBelowArePrefix<T>(items: seq<T>, w: int, k: nat)
    requires w > 1 && k < w
    ensures ShardStart(|items|, k, w) <= |items|
    ensures ShardsBelow(items, w, k) == items[..ShardStart(|items|, k, w)]
    decreases k
  {
    BoundsInRange(|items|, k, w);
    if k > 0 {
      var a, b := ShardStart(|items|, k - 1, w), ShardStart(|items|, k, w);
      ShardsBelowArePrefix(items, w, k - 1);
      InnerShard(items, k - 1, w);
      StartStep(|items|, k, w);
      assert ShardsBelow(items, w, k) == ShardsBelow(items, w, k - 1) + FindShard(items, k - 1, w);
      SliceJoin(items, a, b);
    } else {
      assert ShardStart(|items|, 0, w) == 0;
    }
  }

  lemma SliceJoin<T>(s: seq<T>, a: int, b: int)
    requires 0 <= a <= b <= |s|
    ensures s[..a] + s[a..b] == s[..b]
  {
  }

  /** The shard of a rank other than the last, as a slice of `Chunk` items. */
  lemma InnerShard<T>(items: seq<T>, rank: int, w: int)
    requires w > 1 && 0 <= rank && rank + 1 < w
    ensures var a := ShardStart(|items|, rank, w);
      && 0 <= a <= a + Chunk(|items|, w) <= |items|
      && FindShard(items, rank, w) == items[a..a + Chunk(|items|, w)]
  {
    BoundsInRange(|items|, rank, w);
  }

  lemma StartStep(n: nat, k: int, w: int)
    requires w > 1
    ensures ShardStart(n, k - 1, w) + Chunk(n, w) == ShardStart(n, k, w)
  {
    var c := Chunk(n, w);
    assert (k - 1) * c + c == k * c;
  }

  /** Partition completeness: concatenating the shards of ranks `0 .. w-1`
      in rank order gives back exactly the input list, so no element is lost
      or duplicated. */
  lemma ShardsPartition<T>(items: seq<T>, w: int)
    requires w > 1
    ensures ShardsBelow(items, w, w) == items
  {
    ShardsBelowArePrefix(items, w, w - 1);
    var st := ShardStart(|items|, w - 1, w);
    assert FindShard(items, w - 1, w) == items[st..];
    assert items[..st] + items[st..] == items;
  }

  /** The rank whose shard holds index `i`. */
  function Owner(n: nat, w: int, i: int): int
    requires w > 1
  {
    var c := Chunk(n, w);
    if c == 0 || i / c >= w - 1 then w - 1 else i / c
  }

  lemma DivBetween(i: int, c: int, q: int)
    requires c > 0 && q * c <= i < q * c + c
    ensures i / c == q
  {
    var d := i / c;
    assert i == d * c + i % c && 0 <= i % c < c;
    assert (q + 1) * c == q * c + c;
    assert (d + 1) * c == d * c + c;
    if d > q {
      MulMono(q + 1, d, c);
    } else if d < q {
      MulMono(d + 1, q, c);
    }
  }

  lemma DivAtLeast(i: int, c: int, q: int)
    requires c > 0 && q * c <= i
    ensures q <= i / c
  {
    var d := i / c;
    assert i == d * c + i % c && 0 <= i % c < c;
    assert (d + 1) * c == d * c + c;
    if d < q {
      MulMono(d + 1, q, c);
    }
  }

  /** Exactly one shard holds each index: index `i` lies in the slice of
      `rank` if and only if `rank` is the owner of `i`. */
  lemma ShardOwnership(n: nat, w: int, rank: int, i: int)
    requires w > 1 && 0 <= rank < w && 0 <= i < n
    ensures ShardStart(n, rank, w) <= i < ShardEnd(n, rank, w) <==> rank == Owner(n, w, i)
  {
    var c := Chunk(n, w);
    BoundsInRange(n, rank, w);
    if c > 0 {
      var q := i / c;
      assert i == q * c + i % c && 0 <= i % c < c;
      if ShardStart(n, rank, w) <= i < ShardEnd(n, rank, w) {
        if rank + 1 < w {
          DivBetween(i, c, rank);
        } else {
          DivAtLeast(i, c, rank);
        }
      }
      if rank == Owner(n, w, i) {
        if q >= w - 1 {
          MulMono(w - 1, q, c);
        }
      }
    }
  }

  /** With no environment at all the worker count is 4 (one node of four
      devices) and the process handles only the first quarter of the list. */
  lemma DefaultEnvTakesFirstQuarter<T>(items: seq<T>)
    ensures FindWorkfiles(items, map[]) == items[..|items| / 4]
  {
    var r := RankFromEnv(map[]);
    assert r == Rank(0, 0, 1);
  }
}
