/** Which slice of the dataset one process evaluates in parallel mode:
    chunk_size = len(data) // total_shard and the slice
    data[shard_id * chunk_size : (shard_id + 1) * chunk_size]. */
module Sharding {
  import opened PyErrors

  /** Python's a // b: the quotient rounded toward negative infinity. */
  function FloorDiv(a: int, b: int): (q: int)
    requires b != 0
    ensures b > 0 ==> b * q <= a < b * q + b
    ensures b < 0 ==> b * q >= a > b * q + b
  {
    if b > 0 then a / b else (-a) / (-b)
  }

  /** How Python reads one bound of a slice of a list of length n: a
      negative bound counts from the end, and the result is clamped to
      [0, n]. */
  function SliceIndex(i: int, n: nat): (j: nat)
    ensures j <= n
    ensures 0 <= i <= n ==> j == i
  {
    if i < 0 then (if i + n < 0 then 0 else i + n)
    else if i > n then n
    else i
  }

  /** The index range [lo, hi) that xs[start:stop] selects from a list of length n. */
  function SliceBounds(n: nat, start: int, stop: int): (b: (nat, nat))
    ensures b.0 <= b.1 <= n
    ensures 0 <= start <= stop <= n ==> b == (start, stop)
  {
    var lo := SliceIndex(start, n);
    var hi := SliceIndex(stop, n);
    (lo, if hi < lo then lo else hi)
  }

  /** The index range of a dataset of n items that one process evaluates.
      Without parallel mode it is everything; dividing by a total_shard of
      0 raises ZeroDivisionError; a shard_id left at its default None
      raises TypeError. */
  function ShardBounds(n: nat, parallel: bool, totalShard: int, shardId: Option<int>): (r: Result<(nat, nat)>)
    ensures !parallel ==> r == Ok((0, n))
    ensures parallel && totalShard == 0 ==> r == Err(ZeroDivisionError)
    ensures parallel && totalShard != 0 && shardId.None? ==> r == Err(TypeError)
    ensures r.Ok? ==> r.value.0 <= r.value.1 <= n
  {
    if !parallel then Ok((0, n))
    else if totalShard == 0 then Err(ZeroDivisionError)
    else
      var chunkSize := FloorDiv(n, totalShard);
      match shardId
      case None => Err(TypeError)
      case Some(k) => Ok(SliceBounds(n, k * chunkSize, (k + 1) * chunkSize))
  }

  /** The items one process evaluates. */
  function Shard<T>(data: seq<T>, parallel: bool, totalShard: int, shardId: Option<int>): (r: Result<seq<T>>)
    ensures r.Ok? <==> ShardBounds(|data|, parallel, totalShard, shardId).Ok?
    ensures r.Ok? ==>
      var b := ShardBounds(|data|, parallel, totalShard, shardId).value;
      |r.value| == b.1 - b.0 && forall j :: 0 <= j < |r.value| ==> r.value[j] == data[b.0 + j]
  {
    match ShardBounds(|data|, parallel, totalShard, shardId)
    case Ok(b) => Ok(data[b.0..b.1])
    case Err(e) => Err(e)
  }

  /** a <= b scales to a * c <= b * c for c >= 0. */
  lemma MulMono(a: int, b: int, c: int)
    requires a <= b && 0 <= c
    ensures a * c <= b * c
  {
  }

  /** For 0 <= k < total_shard, the chunk is n / total_shard, not negative,
      and k * chunk and (k + 1) * chunk both lie in [0, n]. */
  lemma ChunkFits(n: nat, totalShard: int, k: int)
    requires 0 <= k < totalShard
    ensures var c := FloorDiv(n, totalShard);
      && c == n / totalShard && 0 <= c
      && 0 <= k * c <= (k + 1) * c <= totalShard * c <= n
  {
    var c := n / totalShard;
    MulMono(0, k, c);
    MulMono(k, k + 1, c);
    MulMono(k + 1, totalShard, c);
  }

  /** Shard k, for 0 <= k < total_shard, is [k * chunk, (k + 1) * chunk) and
      so holds exactly chunk = n // total_shard items. */
  lemma ShardIsChunk(n: nat, totalShard: int, k: int)
    requires 0 <= k < totalShard
    ensures var c := n / totalShard;
      && ShardBounds(n, true, totalShard, Some(k)) == Ok((k * c, (k + 1) * c))
      && (k + 1) * c - k * c == c
  {
    ChunkFits(n, totalShard, k);
  }

  /** Two different shards share no index. */
  lemma ShardsDisjoint(n: nat, totalShard: int, k1: int, k2: int, i: int)
    requires 0 <= k1 < totalShard && 0 <= k2 < totalShard && k1 != k2
    ensures var b1 := ShardBounds(n, true, totalShard, Some(k1)).value;
      var b2 := ShardBounds(n, true, totalShard, Some(k2)).value;
      !(b1.0 <= i < b1.1 && b2.0 <= i < b2.1)
  {
    ShardIsChunk(n, totalShard, k1);
    ShardIsChunk(n, totalShard, k2);
    var c := n / totalShard;
    if k1 < k2 {
      MulMono(k1 + 1, k2, c);
    } else {
      MulMono(k2 + 1, k1, c);
    }
  }

  /** The last n mod total_shard items belong to no shard 0 <= k < total_shard. */
  lemma RemainderUnassigned(n: nat, totalShard: int, k: int, i: int)
    requires 0 <= k < totalShard
    requires totalShard * (n / totalShard) <= i < n
    ensures var b := ShardBounds(n, true, totalShard, Some(k)).value;
      !(b.0 <= i < b.1)
  {
    ShardIsChunk(n, totalShard, k);
    ChunkFits(n, totalShard, k);
  }

  /** Every other index belongs to shard i / chunk, so the shards
      0 .. total_shard - 1 partition [0, total_shard * chunk). */
  lemma IndexHasShard(n: nat, totalShard: int, i: int) returns (k: int)
    requires 0 < totalShard && 0 <= i < totalShard * (n / totalShard)
    ensures 0 <= k < totalShard
    ensures var b := ShardBounds(n, true, totalShard, Some(k)).value;
      b.0 <= i < b.1
  {
    var c := n / totalShard;
    assert c > 0 by {
      if c <= 0 {
        MulMono(c, 0, totalShard);
      }
    }
    k := i / c;
    assert k * c <= i < k * c + c;
    assert k < totalShard by {
      if k >= totalShard {
        MulMono(totalShard, k, c);
      }
    }
    assert 0 <= k by {
      if k < 0 {
        MulMono(k, -1, c);
      }
    }
    ShardIsChunk(n, totalShard, k);
  }
}
