/** Model of the token arithmetic of tools/scyllarepair/scyllarepair.py:
    the murmur3 partitioner's shard of a token (with the most significant
    bits ignored), the first token of each shard, the neighbouring shard
    tokens, the split of a token range into per-shard pieces, the split of
    ranges into more ranges, the merge of intervals, the split of wrapping
    ranges and the grouping of ranges into repair jobs.  The HTTP API,
    threads, processes and the job database are left to the caller. */
module ScyllaRepair {
  import opened Util

  // ----- constants ---------------------------------------------------------

  /** 2^64, the size of the token ring, and 2^63, the distance from a
      token to its position on the ring. */
  const Ring64: nat := 0x1_0000_0000_0000_0000
  const Half: nat := 0x8000_0000_0000_0000

  /** `minimum_token` */
  function MinimumToken(): int { -(Half as int) }

  /** `maximum_token` */
  function MaximumToken(): int { Half as int - 1 }

  predicate IsToken(t: int)
  {
    MinimumToken() <= t <= MaximumToken()
  }

  /** A token range `(start, end]`, as the repair API takes it. */
  datatype TokenRange = TokenRange(start: int, end: int)

  function Pow2(k: nat): (p: nat)
    ensures p >= 1
  {
    if k == 0 then 1 else 2 * Pow2(k - 1)
  }

  lemma {:induction false} Pow2Add(a: nat, b: nat)
    ensures Pow2(a) * Pow2(b) == Pow2(a + b)
    decreases a
  {
    if a > 0 {
      Pow2Add(a - 1, b);
      assert Pow2(a) * Pow2(b) == 2 * (Pow2(a - 1) * Pow2(b));
    }
  }

  lemma Pow2Of8()
    ensures Pow2(8) == 256
  {
    assert Pow2(1) == 2;
    assert Pow2(2) == 4;
    assert Pow2(3) == 8;
    assert Pow2(4) == 16;
    assert Pow2(5) == 32;
    assert Pow2(6) == 64;
    assert Pow2(7) == 128;
  }

  lemma Pow2Of16()
    ensures Pow2(16) == 0x1_0000
  {
    Pow2Of8();
    Pow2Add(8, 8);
  }

  lemma Pow2Of32()
    ensures Pow2(32) == 0x1_0000_0000
  {
    Pow2Of16();
    Pow2Add(16, 16);
  }

  /** The size of the ring is a power of two. */
  lemma RingIsPow2()
    ensures Pow2(64) == Ring64
  {
    Pow2Of32();
    Pow2Add(32, 32);
  }

  /** The parameters the partitioner works with: at least one shard, fewer
      than 64 ignored bits, and every shard wide enough to own a token whose
      ignored bits are zero. */
  predicate Params(msb: nat, nrShards: nat)
  {
    nrShards >= 1 && msb < 64 && Pow2(msb) * nrShards <= Ring64
  }

  // ----- division helpers ---------------------------------------------------

  /** Quotients of a positive divisor keep the order of the dividends. */
  lemma DivMonotone(x: int, y: int, d: nat)
    requires d >= 1 && x <= y
    ensures x / d <= y / d
  {
    var qx, qy := x / d, y / d;
    assert qx * d <= x && y < qy * d + d;
    assert (qy + 1) * d == qy * d + d;
    if qx > qy {
      MulMonotone(qy + 1, qx, d);
    }
  }

  /** A dividend below `k * d` has a quotient below `k`. */
  lemma DivBelow(x: int, k: int, d: nat)
    requires d >= 1 && x < k * d
    ensures x / d < k
  {
    if x / d >= k {
      MulMonotone(k, x / d, d);
    }
  }

  /** A dividend at least `k * d` has a quotient at least `k`. */
  lemma DivAtLeast(x: int, k: int, d: nat)
    requires d >= 1 && k * d <= x
    ensures k <= x / d
  {
    var q := x / d;
    assert x < q * d + d;
    assert (q + 1) * d == q * d + d;
    if q < k {
      MulMonotone(q + 1, k, d);
    }
  }

  /** Scaling a dividend and its divisor scales the remainder. */
  lemma ScaleMod(n: int, m: nat, w: nat)
    requires m >= 1 && w >= 1
    ensures (n * m) % (w * m) == (n % w) * m
  {
    var q := n / w;
    var r := n % w;
    assert n * m == q * (w * m) + r * m by {
      assert n == q * w + r;
    }
    MulMonotone(r, w - 1, m);
    assert (w - 1) * m == w * m - m;
    ModUnique(n * m, q, r * m, w * m);
  }

  // ----- the shard of a token ----------------------------------------------

  /** The low bits of a position that decide its shard: the bits left after
      the `msb` most significant ones. */
  function LowWidth(msb: nat): (w: nat)
    requires msb < 64
    ensures w >= 2
  {
    Pow2(64 - msb)
  }

  /** The low width times 2^msb is the size of the ring. */
  lemma WidthTimesScale(msb: nat)
    requires msb < 64
    ensures LowWidth(msb) * Pow2(msb) == Ring64
  {
    Pow2Add(64 - msb, msb);
    RingIsPow2();
  }

  /** `zero_based_shard_of`: the position shifted left by `msb`, truncated
      to 64 bits, scaled by the number of shards and shifted right by 64. */
  function ZeroBasedShardOf(msb: nat, nrShards: nat, n: int): (shard: nat)
    ensures nrShards >= 1 ==> shard < nrShards
  {
    var p := (n * Pow2(msb)) % Ring64;
    ShardInRange(p, nrShards);
    (p * nrShards) / Ring64
  }

  /** A 64-bit value scaled by the shard count and shifted right by 64 is a
      valid shard. */
  lemma ShardInRange(p: nat, nrShards: nat)
    requires p < Ring64
    ensures nrShards >= 1 ==> (p * nrShards) / Ring64 < nrShards
  {
    if nrShards >= 1 {
      MulMonotone(p + 1, Ring64, nrShards);
      assert (p + 1) * nrShards == p * nrShards + nrShards;
      assert Ring64 * nrShards == nrShards * Ring64;
      DivBelow(p * nrShards, nrShards, Ring64);
    }
  }

  /** `shard_of`: the shard of a token, whose position is the token moved up
      by 2^63; every token belongs to one of the shards. */
  function ShardOf(msb: nat, nrShards: nat, token: int): (shard: nat)
    ensures nrShards >= 1 ==> shard < nrShards
  {
    ZeroBasedShardOf(msb, nrShards, token + Half)
  }

  /** The shard of a low part below the width. */
  function LowShard(msb: nat, nrShards: nat, low: nat): nat
  {
    (low * (Pow2(msb) * nrShards)) / Ring64
  }

  /** Only the low bits of a position decide its shard. */
  lemma ShardByLowBits(msb: nat, nrShards: nat, n: int)
    requires Params(msb, nrShards)
    ensures ZeroBasedShardOf(msb, nrShards, n) == LowShard(msb, nrShards, n % LowWidth(msb))
  {
    var m := Pow2(msb);
    var w := LowWidth(msb);
    WidthTimesScale(msb);
    ScaleMod(n, m, w);
    assert (n % w) * m * nrShards == (n % w) * (m * nrShards);
  }

  /** A factor below `w` scales below `w` times the scale. */
  lemma ScaledBelow(low: nat, w: nat, m: nat, n: nat, r: nat)
    requires low < w && w * m == r && m >= 1 && n >= 1
    ensures low * (m * n) < n * r
  {
    MulMonotone(low + 1, w, m * n);
    assert (low + 1) * (m * n) == low * (m * n) + m * n;
    assert w * (m * n) == (w * m) * n;
  }

  /** The shard of a low part is a shard. */
  lemma LowShardRange(msb: nat, nrShards: nat, low: nat)
    requires Params(msb, nrShards) && low < LowWidth(msb)
    ensures LowShard(msb, nrShards, low) < nrShards
  {
    WidthTimesScale(msb);
    ScaledBelow(low, LowWidth(msb), Pow2(msb), nrShards, Ring64);
    DivBelow(low * (Pow2(msb) * nrShards), nrShards, Ring64);
  }

  /** Every position has a shard below the number of shards. */
  lemma ShardRange(msb: nat, nrShards: nat, n: int)
    requires Params(msb, nrShards)
    ensures ZeroBasedShardOf(msb, nrShards, n) < nrShards
  {
    ShardByLowBits(msb, nrShards, n);
    LowShardRange(msb, nrShards, n % LowWidth(msb));
  }

  /** Shards grow with the low part. */
  lemma LowShardMonotone(msb: nat, nrShards: nat, a: nat, b: nat)
    requires a <= b
    ensures LowShard(msb, nrShards, a) <= LowShard(msb, nrShards, b)
  {
    MulMonotone(a, b, Pow2(msb) * nrShards);
    DivMonotone(a * (Pow2(msb) * nrShards), b * (Pow2(msb) * nrShards), Ring64);
  }

  // ----- the first token of each shard ------------------------------------

  /** The least low part whose shard is `s`: the quotient of s * 2^64 by
      2^msb * nrShards, rounded up. */
  function FirstOfShard(msb: nat, nrShards: nat, s: nat): nat
    requires nrShards >= 1
  {
    var p := Pow2(msb) * nrShards;
    (s * Ring64 + p - 1) / p
  }

  /** The quotient rounded up: the least multiple of `p` not below `a`. */
  lemma CeilDiv(a: nat, p: nat)
    requires p >= 1
    ensures var f := (a + p - 1) / p; a <= f * p < a + p
  {
    var f := (a + p - 1) / p;
    assert f * p <= a + p - 1 < f * p + p;
  }

  /** The first low part of shard `s` has shard `s`. */
  lemma FirstOfShardHasShard(msb: nat, nrShards: nat, s: nat)
    requires Params(msb, nrShards) && s < nrShards
    ensures LowShard(msb, nrShards, FirstOfShard(msb, nrShards, s)) == s
    ensures FirstOfShard(msb, nrShards, s) * (Pow2(msb) * nrShards) < (s + 1) * Ring64
  {
    var p := Pow2(msb) * nrShards;
    var f := FirstOfShard(msb, nrShards, s);
    CeilDiv(s * Ring64, p);
    assert s * Ring64 <= f * p < s * Ring64 + Ring64;
    DivAtLeast(f * p, s, Ring64);
    DivBelow(f * p, s + 1, Ring64);
  }

  /** Every low part below the first of shard `s` has a smaller shard. */
  lemma BelowFirstOfShard(msb: nat, nrShards: nat, s: nat, low: nat)
    requires Params(msb, nrShards) && low < FirstOfShard(msb, nrShards, s)
    ensures LowShard(msb, nrShards, low) < s
  {
    var p := Pow2(msb) * nrShards;
    var f := FirstOfShard(msb, nrShards, s);
    CeilDiv(s * Ring64, p);
    MulMonotone(low, f - 1, p);
    assert (f - 1) * p == f * p - p;
    DivBelow(low * p, s, Ring64);
  }

  /** A product below another with the same positive factor has the smaller
      other factor. */
  lemma MulCancelLess(a: nat, b: nat, p: nat)
    requires a * p < b * p
    ensures a < b
  {
    if a >= b {
      MulMonotone(b, a, p);
    }
  }

  /** A factor whose product with `m * n` stays below `(s + 1) * r`, for a
      shard `s < n` and `r == w * m`, is below `w`. */
  lemma FactorBelowWidth(f: nat, w: nat, m: nat, n: nat, s: nat, r: nat)
    requires s < n && w * m == r && f * (m * n) < (s + 1) * r
    ensures f < w
  {
    MulMonotone(s + 1, n, r);
    assert w * (m * n) == (w * m) * n;
    MulCancelLess(f, w, m * n);
  }

  /** The first low part of a shard is below the width. */
  lemma FirstOfShardBelowWidth(msb: nat, nrShards: nat, s: nat)
    requires Params(msb, nrShards) && s < nrShards
    ensures FirstOfShard(msb, nrShards, s) < LowWidth(msb)
  {
    FirstOfShardHasShard(msb, nrShards, s);
    WidthTimesScale(msb);
    FactorBelowWidth(FirstOfShard(msb, nrShards, s), LowWidth(msb), Pow2(msb), nrShards, s, Ring64);
  }

  /** The first low part of shard `s` is below the width, has shard `s`, and
      every smaller low part has a smaller shard. */
  lemma FirstOfShardIsLeast(msb: nat, nrShards: nat, s: nat)
    requires Params(msb, nrShards) && s < nrShards
    ensures FirstOfShard(msb, nrShards, s) < LowWidth(msb)
    ensures LowShard(msb, nrShards, FirstOfShard(msb, nrShards, s)) == s
    ensures forall low: nat :: low < FirstOfShard(msb, nrShards, s) ==> LowShard(msb, nrShards, low) < s
  {
    FirstOfShardHasShard(msb, nrShards, s);
    FirstOfShardBelowWidth(msb, nrShards, s);
    forall low: nat | low < FirstOfShard(msb, nrShards, s)
      ensures LowShard(msb, nrShards, low) < s
    {
      BelowFirstOfShard(msb, nrShards, s, low);
    }
  }

  /** The first low parts of the shards increase with the shard. */
  lemma FirstOfShardIncreasing(msb: nat, nrShards: nat, s: nat, t: nat)
    requires Params(msb, nrShards) && s < t < nrShards
    ensures FirstOfShard(msb, nrShards, s) < FirstOfShard(msb, nrShards, t)
  {
    FirstOfShardIsLeast(msb, nrShards, s);
    FirstOfShardIsLeast(msb, nrShards, t);
    var fs := FirstOfShard(msb, nrShards, s);
    var ft := FirstOfShard(msb, nrShards, t);
    if ft <= fs {
      LowShardMonotone(msb, nrShards, ft, fs);
    }
  }

  // ----- blocks of the ring --------------------------------------------------

  /** The division of `left * w + low` by `w`, for a low part below `w`. */
  lemma BlockSplit(left: int, low: nat, w: nat)
    requires low < w
    ensures (left * w + low) / w == left && (left * w + low) % w == low
  {
    ModUnique(left * w + low, left, low, w);
  }

  /** A position made of a block number and a low part below the width has
      the shard of its low part. */
  lemma BlockShard(msb: nat, nrShards: nat, left: int, low: nat)
    requires Params(msb, nrShards) && low < LowWidth(msb)
    ensures ZeroBasedShardOf(msb, nrShards, left * LowWidth(msb) + low) == LowShard(msb, nrShards, low)
  {
    ShardByLowBits(msb, nrShards, left * LowWidth(msb) + low);
    BlockSplit(left, low, LowWidth(msb));
  }

  /** A low part at least the first of shard `s` has shard `s` or above, and
      one below it has a smaller shard. */
  lemma LowShardVersusFirst(msb: nat, nrShards: nat, s: nat, low: nat)
    requires Params(msb, nrShards) && s < nrShards
    ensures low < FirstOfShard(msb, nrShards, s) <==> LowShard(msb, nrShards, low) < s
  {
    var f := FirstOfShard(msb, nrShards, s);
    if low < f {
      BelowFirstOfShard(msb, nrShards, s, low);
    } else {
      FirstOfShardHasShard(msb, nrShards, s);
      LowShardMonotone(msb, nrShards, f, low);
    }
  }

  /** The floor of `a / n / m` is at most the ceiling of `a / (m * n)`. */
  lemma FloorBelowCeil(a: nat, n: nat, m: nat)
    requires n >= 1 && m >= 1
    ensures (a / n) / m <= (a + m * n - 1) / (m * n)
  {
    var q := (a / n) / m;
    var f := (a + m * n - 1) / (m * n);
    CeilDiv(a, m * n);
    MulMonotone(q * m, a / n, n);
    assert q * (m * n) == (q * m) * n;
    assert (f + 1) * (m * n) == f * (m * n) + m * n;
    if q > f {
      MulMonotone(f + 1, q, m * n);
    }
  }

  /** The search for the first token of shard `s` starts at or below it. */
  lemma SearchStartsBelowFirst(msb: nat, nrShards: nat, s: nat)
    requires Params(msb, nrShards)
    ensures ((s * Ring64) / nrShards) / Pow2(msb) <= FirstOfShard(msb, nrShards, s)
  {
    FloorBelowCeil(s * Ring64, nrShards, Pow2(msb));
  }

  /** Below the first token of shard `s` the shard is smaller, and at it the
      shard is `s`. */
  lemma ShardNearFirst(msb: nat, nrShards: nat, s: nat, token: nat)
    requires Params(msb, nrShards) && s < nrShards
    ensures token < FirstOfShard(msb, nrShards, s) ==> ZeroBasedShardOf(msb, nrShards, token) < s
    ensures ZeroBasedShardOf(msb, nrShards, FirstOfShard(msb, nrShards, s)) == s
  {
    var f := FirstOfShard(msb, nrShards, s);
    FirstOfShardIsLeast(msb, nrShards, s);
    BlockShard(msb, nrShards, 0, f);
    if token < f {
      BlockShard(msb, nrShards, 0, token);
    }
  }

  // ----- the partitioner --------------------------------------------------

  /** `murmur3_partitioner`: the shard arithmetic of a node with `nrShards`
      shards that ignores the `msb` most significant bits of a token. */
  class Murmur3Partitioner {
    const msb: nat
    const nrShards: nat
    var shardStartList: seq<nat>

    /** Every shard's entry is the least low part of that shard. */
    ghost predicate Valid()
      reads this
    {
      Params(msb, nrShards) && |shardStartList| == nrShards
      && forall s :: 0 <= s < nrShards ==> shardStartList[s] == FirstOfShard(msb, nrShards, s)
    }

    constructor (msb: nat, nrShards: nat)
      requires Params(msb, nrShards)
      ensures this.msb == msb && this.nrShards == nrShards && Valid()
    {
      this.msb := msb;
      this.nrShards := nrShards;
      shardStartList := [];
      new;
      InitZeroBasedShardStart();
    }

    /** `init_zero_based_shard_start`: for each shard, step up from the
        token at `s / nrShards` of the ring, shifted right by `msb`, until
        the shard is reached. */
    method InitZeroBasedShardStart()
      requires Params(msb, nrShards)
      modifies this`shardStartList
      ensures Valid()
    {
      if nrShards == 1 {
        shardStartList := [0];
      }
      shardStartList := seq(nrShards, _ => 0);
      var s := 0;
      while s < nrShards
        invariant s <= nrShards && |shardStartList| == nrShards
        invariant forall i :: 0 <= i < s ==> shardStartList[i] == FirstOfShard(msb, nrShards, i)
      {
        QuotientNonNegative(s * Ring64, nrShards);
        QuotientNonNegative((s * Ring64) / nrShards, Pow2(msb));
        var token: nat := ((s * Ring64) / nrShards) / Pow2(msb);
        ghost var f := FirstOfShard(msb, nrShards, s);
        SearchStartsBelowFirst(msb, nrShards, s);
        ShardNearFirst(msb, nrShards, s, token);
        while ZeroBasedShardOf(msb, nrShards, token) != s
          invariant token <= f
          decreases f - token
        {
          token := token + 1;
        }
        ShardNearFirst(msb, nrShards, s, token);
        shardStartList := shardStartList[s := token];
        s := s + 1;
      }
    }

    /** `get_shard_start` */
    function GetShardStart(shard: nat): (r: nat)
      reads this
      requires Valid() && shard < nrShards
      ensures r < LowWidth(msb) && LowShard(msb, nrShards, r) == shard
      ensures forall low: nat :: low < r ==> LowShard(msb, nrShards, low) < shard
    {
      FirstOfShardIsLeast(msb, nrShards, shard);
      shardStartList[shard]
    }

    /** `token_for_prev_shard`: the first token of `shard` in the block of
        `token`, moved back by `spans - 1` blocks (by `spans` when `shard`
        lies after the shard of `token`), or the minimum token when there is
        no such block.  The block number and the shard start are combined
        with a bitwise or in the source; as the start is below the block
        width this is their sum. */
    function TokenForPrevShard(token: int, shard: nat, spans: nat): int
      reads this
      requires Valid() && IsToken(token) && shard < nrShards
    {
      var n := token + Half;
      var s := ZeroBasedShardOf(msb, nrShards, n);
      if msb == 0 then
        if spans > 1 || shard > s then MinimumToken() else GetShardStart(shard) - Half
      else
        var left := n / LowWidth(msb) - (if shard <= s then spans - 1 else spans);
        if left < 0 then MinimumToken() else left * LowWidth(msb) + GetShardStart(shard) - Half
    }

    /** `token_for_next_shard`: the first token of `shard` in the block after
        that of `token`, moved on by `spans - 1` more blocks (the block of
        `token` itself when `shard` lies after the shard of `token`), or the
        maximum token when there is no such block. */
    function TokenForNextShard(token: int, shard: nat, spans: nat): int
      reads this
      requires Valid() && IsToken(token) && shard < nrShards
    {
      var n := token + Half;
      var s := ZeroBasedShardOf(msb, nrShards, n);
      if msb == 0 then
        if spans > 1 || shard <= s then MaximumToken() else GetShardStart(shard) - Half
      else
        var left := n / LowWidth(msb) + (if shard > s then spans - 1 else spans);
        if left >= Pow2(msb) then MaximumToken()
        else (left * LowWidth(msb)) % Ring64 + GetShardStart(shard) - Half
    }

    /** `split_range_to_shards`: a range that does not wrap, cut into pieces
        each of which lies in one shard, walking back from its end; a
        wrapping range is refused. */
    method SplitRangeToShards(r: TokenRange) returns (res: Result<map<nat, seq<TokenRange>>>)
      requires Valid() && IsToken(r.start) && IsToken(r.end)
      ensures res.Err? <==> r.start > r.end
      ensures res.Err? ==> res.error == "ERROR: wrapping range"
      ensures res.Ok? ==> forall k :: k in res.value ==> k < nrShards
      ensures res.Ok? ==> PiecesOfShards(msb, nrShards, res.value, r.start, r.end)
      ensures res.Ok? ==> forall x :: r.start < x <= r.end ==> InPieces(res.value, x)
    {
      var t1, t2 := r.start, r.end;
      if t1 > t2 {
        return Err("ERROR: wrapping range");
      }
      var m: map<nat, seq<TokenRange>> := map[];
      ShardRange(msb, nrShards, t2 + Half);
      var s2 := ShardOf(msb, nrShards, t2);
      while t1 < t2
        invariant t1 == r.start && t2 <= r.end
        invariant t1 < t2 ==> IsToken(t2) && s2 == ShardOf(msb, nrShards, t2)
        invariant s2 < nrShards
        invariant forall k :: k in m ==> k < nrShards
        invariant PiecesOfShards(msb, nrShards, m, r.start, r.end)
        invariant forall x :: t1 < x && t2 < x <= r.end ==> InPieces(m, x)
        decreases t2 - t1
      {
        var prevShard: int := s2 - 1;
        if prevShard < 0 {
          prevShard := nrShards - 1;
        }
        PrevShardBoundary(this, t2);
        var token := TokenForPrevShard(t2, s2, 1) - 1;
        var piece := if token > t1 then TokenRange(token, t2) else TokenRange(t1, t2);
        forall x | piece.start < x <= piece.end
          ensures ShardOf(msb, nrShards, x) == s2
        {
          PrevShardCovers(this, t2, x);
        }
        forall x | t1 < x && token < x <= r.end
          ensures InPieces(AddRanges(s2, m, [piece]), x)
        {
          AddRangeCovers(m, s2, piece, x);
        }
        AddRangeOfShard(msb, nrShards, m, s2, piece, r.start, r.end);
        m := AddRanges(s2, m, [piece]);
        t2 := token;
        s2 := prevShard;
      }
      return Ok(m);
    }

    /** `split_ranges`: passes that halve ranges at their midpoint, from the
        front, while there are fewer than `target` of them.  On an empty
        list the source loops forever, so the list is non-empty when there
        is anything to split. */
    method SplitRanges(ranges: seq<TokenRange>, target: int) returns (res: seq<TokenRange>)
      requires ranges != [] || target <= 0
      ensures |res| >= target
      ensures |ranges| >= target ==> res == ranges
      ensures SumWidth(res) == SumWidth(ranges)
      ensures Forward(ranges) ==> Forward(res) && forall x :: InSome(res, x) <==> InSome(ranges, x)
    {
      res := ranges;
      var tosplit: seq<TokenRange> := [];
      while |res| < target
        invariant res != [] || target <= 0
        invariant |ranges| >= target ==> res == ranges
        invariant SumWidth(res) == SumWidth(ranges)
        invariant Forward(ranges) ==> Forward(res) && forall x :: InSome(res, x) <==> InSome(ranges, x)
        decreases target - |res|
      {
        tosplit := res;
        res := [];
        var i := 0;
        while i < |tosplit|
          invariant 0 <= i <= |tosplit|
          invariant |res| >= i + (if i >= 1 then 1 else 0)
          invariant SumWidth(res) == SumWidth(tosplit[..i])
          invariant Forward(tosplit[..i]) ==> Forward(res) && forall x :: InSome(res, x) <==> InSome(tosplit[..i], x)
        {
          var r := tosplit[i];
          ghost var before := res;
          if |res| < target {
            var start := r.start;
            var end := r.end;
            var mid := (start + end) / 2;
            res := res + [TokenRange(start, mid), TokenRange(mid, end)];
          } else {
            res := res + [r];
          }
          SplitStep(before, tosplit[..i], r, res);
          assert tosplit[..i + 1] == tosplit[..i] + [r];
          i := i + 1;
        }
        assert tosplit[..|tosplit|] == tosplit;
      }
    }
  }

  /** With no ignored bits the block width is the whole ring. */
  lemma WidthWithoutMsb()
    ensures LowWidth(0) == Ring64
  {
    RingIsPow2();
  }

  /** A block below `m` plus a low part below `w` lies below `w * m`. */
  lemma BlockBelow(left: nat, low: nat, w: nat, m: nat)
    requires left < m && low < w
    ensures left * w + low < w * m
  {
    MulMonotone(left + 1, m, w);
    assert (left + 1) * w == left * w + w;
  }

  /** A position below `w * m` lies in a block below `m`. */
  lemma QuotientBelow(n: nat, w: nat, m: nat)
    requires w >= 1 && n < w * m
    ensures n / w < m
  {
    DivBelow(n, m, w);
  }

  /** A position on the ring split into its block and its low part. */
  lemma PositionParts(msb: nat, nrShards: nat, n: nat)
    requires Params(msb, nrShards) && n < Ring64
    ensures ZeroBasedShardOf(msb, nrShards, n) == LowShard(msb, nrShards, n % LowWidth(msb))
    ensures n / LowWidth(msb) < Pow2(msb)
    ensures msb == 0 ==> n / LowWidth(msb) == 0 && n % LowWidth(msb) == n
  {
    var w := LowWidth(msb);
    ShardByLowBits(msb, nrShards, n);
    WidthTimesScale(msb);
    QuotientBelow(n, w, Pow2(msb));
    if msb == 0 {
      WidthWithoutMsb();
      BlockSplit(0, n, w);
    }
  }

  /** A block below `Pow2(msb)` plus a low part below the width is a position
      on the ring. */
  lemma BlockOnRing(msb: nat, left: nat, low: nat)
    requires msb < 64 && left < Pow2(msb) && low < LowWidth(msb)
    ensures left * LowWidth(msb) + low < Ring64
  {
    WidthTimesScale(msb);
    BlockBelow(left, low, LowWidth(msb), Pow2(msb));
  }

  /** A block at or before `left0` starts at or before a position in
      `left0` whose low part is at least `f`, and a block before `left0`
      ends before every position of `left0`. */
  lemma BlockAtOrBefore(left: int, left0: int, f: nat, low: nat, w: nat)
    requires f < w && low < w && ((left <= left0 && f <= low) || left < left0)
    ensures left * w + f <= left0 * w + low
  {
    assert (left + 1) * w == left * w + w;
    if left < left0 {
      MulMonotone(left + 1, left0, w);
    } else {
      MulMonotone(left, left0, w);
    }
  }

  /** A block after `left0`, or `left0` itself with a larger low part,
      comes after the position. */
  lemma BlockAfter(left: int, left0: int, f: nat, low: nat, w: nat)
    requires f < w && low < w && ((left >= left0 && f > low) || left > left0)
    ensures left * w + f > left0 * w + low
  {
    assert (left0 + 1) * w == left0 * w + w;
    if left > left0 {
      MulMonotone(left0 + 1, left, w);
    } else {
      MulMonotone(left0, left, w);
    }
  }

  lemma QuotientNonNegative(n: nat, w: nat)
    requires w >= 1
    ensures n / w >= 0
  {
  }

  /** Division of a position by the block width. */
  lemma DivModParts(n: int, w: nat)
    requires w >= 1
    ensures n == (n / w) * w + n % w && 0 <= n % w < w
  {
  }

  /** `token_for_prev_shard` gives the minimum token or a token of `shard`
      at or before `token`. */
  lemma PrevShardSound(p: Murmur3Partitioner, token: int, shard: nat, spans: nat)
    requires p.Valid() && IsToken(token) && shard < p.nrShards && spans >= 1
    ensures var r := p.TokenForPrevShard(token, shard, spans);
      r == MinimumToken() || (IsToken(r) && ShardOf(p.msb, p.nrShards, r) == shard && r <= token)
  {
    var msb, nrShards := p.msb, p.nrShards;
    var n := token + Half;
    var w := LowWidth(msb);
    var left0, low := n / w, n % w;
    var s := ZeroBasedShardOf(msb, nrShards, n);
    var f := FirstOfShard(msb, nrShards, shard);
    PositionParts(msb, nrShards, n);
    DivModParts(n, w);
    FirstOfShardIsLeast(msb, nrShards, shard);
    LowShardVersusFirst(msb, nrShards, shard, low);
    var r := p.TokenForPrevShard(token, shard, spans);
    assert p.GetShardStart(shard) == f;
    var left := if msb == 0 then 0 else left0 - (if shard <= s then spans - 1 else spans);
    if msb == 0 && (spans > 1 || shard > s) {
      assert r == MinimumToken();
    } else if left < 0 {
      assert r == MinimumToken();
    } else {
      assert r == left * w + f - Half;
      BlockShard(msb, nrShards, left, f);
      BlockAtOrBefore(left, left0, f, low, w);
    }
  }

  /** The block form of `token_for_next_shard` when it does not give the
      maximum token. */
  lemma NextShardInBlock(p: Murmur3Partitioner, token: int, shard: nat, spans: nat, left: nat)
    requires p.Valid() && IsToken(token) && shard < p.nrShards
    requires left < Pow2(p.msb)
    requires p.msb == 0 ==> left == 0 && spans <= 1 && shard > ZeroBasedShardOf(p.msb, p.nrShards, token + Half)
    requires p.msb > 0 ==>
      left == (token + Half) / LowWidth(p.msb) + (if shard > ZeroBasedShardOf(p.msb, p.nrShards, token + Half) then spans - 1 else spans)
    ensures p.TokenForNextShard(token, shard, spans)
      == left * LowWidth(p.msb) + FirstOfShard(p.msb, p.nrShards, shard) - Half
  {
    var w := LowWidth(p.msb);
    assert p.GetShardStart(shard) == FirstOfShard(p.msb, p.nrShards, shard);
    BlockOnRing(p.msb, left, 0);
    ModUnique(left * w, 0, left * w, Ring64);
  }

  /** The first token of `shard` in block `left` is a token of `shard`. */
  lemma BlockTokenOfShard(msb: nat, nrShards: nat, shard: nat, left: nat)
    requires Params(msb, nrShards) && shard < nrShards && left < Pow2(msb)
    ensures var t := left * LowWidth(msb) + FirstOfShard(msb, nrShards, shard) - Half;
      IsToken(t) && ShardOf(msb, nrShards, t) == shard
  {
    var f := FirstOfShard(msb, nrShards, shard);
    FirstOfShardIsLeast(msb, nrShards, shard);
    BlockOnRing(msb, left, f);
    BlockShard(msb, nrShards, left, f);
  }

  /** The block `token_for_next_shard` picks starts the shard after the
      position `n`. */
  lemma NextBlockAfter(msb: nat, nrShards: nat, n: nat, shard: nat, spans: nat, left: nat)
    requires Params(msb, nrShards) && n < Ring64 && shard < nrShards && spans >= 1
    requires msb == 0 ==> left == 0 && shard > ZeroBasedShardOf(msb, nrShards, n)
    requires msb > 0 ==>
      left == n / LowWidth(msb) + (if shard > ZeroBasedShardOf(msb, nrShards, n) then spans - 1 else spans)
    ensures left * LowWidth(msb) + FirstOfShard(msb, nrShards, shard) > n
  {
    var w := LowWidth(msb);
    var left0, low := n / w, n % w;
    var f := FirstOfShard(msb, nrShards, shard);
    PositionParts(msb, nrShards, n);
    DivModParts(n, w);
    FirstOfShardIsLeast(msb, nrShards, shard);
    LowShardVersusFirst(msb, nrShards, shard, low);
    BlockAfter(left, left0, f, low, w);
  }

  /** `token_for_next_shard` gives the maximum token or a token of `shard`
      after `token`. */
  lemma NextShardSound(p: Murmur3Partitioner, token: int, shard: nat, spans: nat)
    requires p.Valid() && IsToken(token) && shard < p.nrShards && spans >= 1
    ensures var r := p.TokenForNextShard(token, shard, spans);
      r == MaximumToken() || (IsToken(r) && ShardOf(p.msb, p.nrShards, r) == shard && r > token)
  {
    var n := token + Half;
    var s := ZeroBasedShardOf(p.msb, p.nrShards, n);
    var w := LowWidth(p.msb);
    QuotientNonNegative(n, w);
    var left0: nat := n / w;
    var left: nat := if p.msb == 0 then 0 else left0 + (if shard > s then spans - 1 else spans);
    if (p.msb == 0 && (spans > 1 || shard <= s)) || left >= Pow2(p.msb) {
    } else {
      NextShardInBlock(p, token, shard, spans, left);
      BlockTokenOfShard(p.msb, p.nrShards, shard, left);
      NextBlockAfter(p.msb, p.nrShards, n, shard, spans, left);
    }
  }

  // ----- the pieces of a range walked backwards ---------------------------

  /** The step back from a token to the start of its own shard stays in the
      token's block. */
  lemma PrevShardInBlock(p: Murmur3Partitioner, token: int)
    requires p.Valid() && IsToken(token)
    ensures ShardOf(p.msb, p.nrShards, token) < p.nrShards
    ensures var s := ShardOf(p.msb, p.nrShards, token);
      p.TokenForPrevShard(token, s, 1)
      == ((token + Half) / LowWidth(p.msb)) * LowWidth(p.msb) + FirstOfShard(p.msb, p.nrShards, s) - Half
  {
    var n: nat := token + Half;
    var w := LowWidth(p.msb);
    var s := ZeroBasedShardOf(p.msb, p.nrShards, n);
    ShardRange(p.msb, p.nrShards, n);
    assert p.GetShardStart(s) == FirstOfShard(p.msb, p.nrShards, s);
    if p.msb == 0 {
      PositionParts(p.msb, p.nrShards, n);
    } else {
      QuotientNonNegative(n, w);
    }
  }

  /** Every token from the start of the shard of `token` in its block up to
      `token` has the shard of `token`. */
  lemma PrevShardCovers(p: Murmur3Partitioner, token: int, x: int)
    requires p.Valid() && IsToken(token)
    ensures ShardOf(p.msb, p.nrShards, token) < p.nrShards
    ensures var s := ShardOf(p.msb, p.nrShards, token);
      p.TokenForPrevShard(token, s, 1) <= x <= token ==> ShardOf(p.msb, p.nrShards, x) == s
  {
    var msb, nrShards := p.msb, p.nrShards;
    var n := token + Half;
    var w := LowWidth(msb);
    var left0, low := n / w, n % w;
    var s := ShardOf(msb, nrShards, token);
    var f := FirstOfShard(msb, nrShards, s);
    PrevShardInBlock(p, token);
    PositionParts(msb, nrShards, n);
    DivModParts(n, w);
    FirstOfShardIsLeast(msb, nrShards, s);
    if left0 * w + f <= x + Half <= n {
      var lowx := x + Half - left0 * w;
      assert x + Half == left0 * w + lowx;
      BlockShard(msb, nrShards, left0, lowx);
      LowShardVersusFirst(msb, nrShards, s, lowx);
      LowShardMonotone(msb, nrShards, lowx, low);
    }
  }

  /** The token just before the start of the shard of `token` in its block
      belongs to the previous shard, wrapping from the first shard to the
      last. */
  lemma PrevShardBoundary(p: Murmur3Partitioner, token: int)
    requires p.Valid() && IsToken(token)
    ensures ShardOf(p.msb, p.nrShards, token) < p.nrShards
    ensures var s := ShardOf(p.msb, p.nrShards, token);
      var r := p.TokenForPrevShard(token, s, 1);
      MinimumToken() <= r <= token
      && (r > MinimumToken() ==> ShardOf(p.msb, p.nrShards, r - 1) == if s == 0 then p.nrShards - 1 else s - 1)
  {
    var msb, nrShards := p.msb, p.nrShards;
    var n := token + Half;
    var w := LowWidth(msb);
    var left0, low := n / w, n % w;
    var s := ShardOf(msb, nrShards, token);
    var f := FirstOfShard(msb, nrShards, s);
    PrevShardInBlock(p, token);
    PositionParts(msb, nrShards, n);
    DivModParts(n, w);
    FirstOfShardIsLeast(msb, nrShards, s);
    LowShardVersusFirst(msb, nrShards, s, low);
    BlockAtOrBefore(left0, left0, f, low, w);
    if left0 * w + f > 0 {
      if s > 0 {
        FirstOfShardIncreasing(msb, nrShards, s - 1, s);
        BlockShard(msb, nrShards, left0, f - 1);
        LowShardVersusFirst(msb, nrShards, s, f - 1);
        LowShardVersusFirst(msb, nrShards, s - 1, f - 1);
      } else {
        FirstOfShardOfZero(msb, nrShards);
        assert left0 >= 1;
        assert left0 * w - 1 == (left0 - 1) * w + (w - 1);
        BlockShard(msb, nrShards, left0 - 1, w - 1);
        FirstOfShardIsLeast(msb, nrShards, nrShards - 1);
        LowShardVersusFirst(msb, nrShards, nrShards - 1, w - 1);
        LowShardRange(msb, nrShards, w - 1);
      }
    }
  }

  /** Shard 0 starts at the start of a block. */
  lemma FirstOfShardOfZero(msb: nat, nrShards: nat)
    requires Params(msb, nrShards)
    ensures FirstOfShard(msb, nrShards, 0) == 0
  {
    var p := Pow2(msb) * nrShards;
    assert p - 1 < 1 * p;
    DivBelow(p - 1, 1, p);
  }

  /** Every token of `(start, end]` belongs to shard `k`. */
  ghost predicate PieceOfShard(msb: nat, nrShards: nat, k: nat, r: TokenRange)
  {
    r.start < r.end && forall x :: r.start < x <= r.end ==> ShardOf(msb, nrShards, x) == k
  }

  /** Every range listed under a shard lies within `(lo, hi]` and belongs to
      that shard. */
  ghost predicate PiecesOfShards(msb: nat, nrShards: nat, m: map<nat, seq<TokenRange>>, lo: int, hi: int)
  {
    forall k, i :: k in m && 0 <= i < |m[k]| ==>
      lo <= m[k][i].start && m[k][i].end <= hi && PieceOfShard(msb, nrShards, k, m[k][i])
  }

  /** Token `x` lies in one of the ranges of the map. */
  ghost predicate InPieces(m: map<nat, seq<TokenRange>>, x: int)
  {
    exists k, i :: k in m && 0 <= i < |m[k]| && m[k][i].start < x <= m[k][i].end
  }

  /** `add_ranges`: the ranges are appended to those of `shard`. */
  function AddRanges(shard: nat, m: map<nat, seq<TokenRange>>, ranges: seq<TokenRange>): (r: map<nat, seq<TokenRange>>)
    ensures r.Keys == m.Keys + {shard}
    ensures r[shard] == (if shard in m then m[shard] else []) + ranges
    ensures forall k :: k in m ==> m[k] <= r[k]
  {
    if shard in m then m[shard := m[shard] + ranges] else m[shard := ranges]
  }

  /** Adding a range keeps every token that was covered covered, and covers
      the tokens of the range. */
  lemma AddRangeCovers(m: map<nat, seq<TokenRange>>, shard: nat, piece: TokenRange, x: int)
    requires InPieces(m, x) || piece.start < x <= piece.end
    ensures InPieces(AddRanges(shard, m, [piece]), x)
  {
    var m2: map<nat, seq<TokenRange>> := AddRanges(shard, m, [piece]);
    if InPieces(m, x) {
      var k, i :| k in m && 0 <= i < |m[k]| && m[k][i].start < x <= m[k][i].end;
      assert m2[k][i] == m[k][i];
    } else {
      var i := |m2[shard]| - 1;
      assert m2[shard][i] == piece;
    }
  }

  /** Adding a range of a shard keeps the map a map of pieces of shards. */
  lemma AddRangeOfShard(msb: nat, nrShards: nat, m: map<nat, seq<TokenRange>>, shard: nat, piece: TokenRange, lo: int, hi: int)
    requires PiecesOfShards(msb, nrShards, m, lo, hi)
    requires lo <= piece.start && piece.end <= hi && PieceOfShard(msb, nrShards, shard, piece)
    ensures PiecesOfShards(msb, nrShards, AddRanges(shard, m, [piece]), lo, hi)
  {
    var m2: map<nat, seq<TokenRange>> := AddRanges(shard, m, [piece]);
    forall k: nat, i: int | k in m2 && 0 <= i < |m2[k]|
      ensures lo <= m2[k][i].start && m2[k][i].end <= hi && PieceOfShard(msb, nrShards, k, m2[k][i])
    {
      if k in m && i < |m[k]| {
        assert m2[k][i] == m[k][i];
      } else {
        assert k == shard && m2[k][i] == piece;
      }
    }
  }

  // ----- more ranges out of fewer ------------------------------------------

  /** The number of tokens in `(start, end]`, negative for a range that
      runs backwards. */
  function Width(r: TokenRange): int
  {
    r.end - r.start
  }

  /** The total width of a list of ranges. */
  function SumWidth(rs: seq<TokenRange>): int
  {
    if rs == [] then 0 else SumWidth(rs[..|rs| - 1]) + Width(rs[|rs| - 1])
  }

  lemma SumWidthAppend(rs: seq<TokenRange>, r: TokenRange)
    ensures SumWidth(rs + [r]) == SumWidth(rs) + Width(r)
  {
    assert (rs + [r])[..|rs|] == rs;
  }

  /** No range runs backwards. */
  predicate Forward(rs: seq<TokenRange>)
  {
    forall i :: 0 <= i < |rs| ==> rs[i].start <= rs[i].end
  }

  /** Token `x` lies in some range of the list. */
  ghost predicate InSome(rs: seq<TokenRange>, x: int)
  {
    exists i :: 0 <= i < |rs| && rs[i].start < x <= rs[i].end
  }

  lemma InSomeAppend(rs: seq<TokenRange>, r: TokenRange, x: int)
    ensures InSome(rs + [r], x) <==> InSome(rs, x) || r.start < x <= r.end
  {
    if InSome(rs + [r], x) {
      var i :| 0 <= i < |rs + [r]| && (rs + [r])[i].start < x <= (rs + [r])[i].end;
      if i < |rs| {
        assert rs[i] == (rs + [r])[i];
      }
    }
    if InSome(rs, x) {
      var i :| 0 <= i < |rs| && rs[i].start < x <= rs[i].end;
      assert (rs + [r])[i] == rs[i];
    }
    if r.start < x <= r.end {
      assert (rs + [r])[|rs|] == r;
    }
  }

  /** The midpoint of a range, rounded down as Python's integer division
      rounds. */
  function Mid(r: TokenRange): int
  {
    (r.start + r.end) / 2
  }

  /** The two halves of a forward range cover exactly its tokens. */
  lemma HalvesCover(r: TokenRange, x: int)
    requires r.start <= r.end
    ensures r.start <= Mid(r) <= r.end
    ensures (r.start < x <= Mid(r) || Mid(r) < x <= r.end) <==> r.start < x <= r.end
  {
  }

  /** One step of a pass of `split_ranges`: range `r` appended whole or as
      its two halves keeps the total width, the forward direction and the
      covered tokens. */
  lemma SplitStep(out: seq<TokenRange>, done: seq<TokenRange>, r: TokenRange, out2: seq<TokenRange>)
    requires SumWidth(out) == SumWidth(done)
    requires Forward(done) ==> Forward(out) && forall x :: InSome(out, x) <==> InSome(done, x)
    requires out2 == out + [r] || out2 == out + [TokenRange(r.start, Mid(r)), TokenRange(Mid(r), r.end)]
    ensures SumWidth(out2) == SumWidth(done + [r])
    ensures Forward(done + [r]) ==> Forward(out2) && forall x :: InSome(out2, x) <==> InSome(done + [r], x)
  {
    SumWidthAppend(done, r);
    var lo, hi := TokenRange(r.start, Mid(r)), TokenRange(Mid(r), r.end);
    if out2 == out + [r] {
      SumWidthAppend(out, r);
    } else {
      SumWidthAppend(out, lo);
      SumWidthAppend(out + [lo], hi);
      assert out2 == out + [lo] + [hi];
    }
    if Forward(done + [r]) {
      assert Forward(done) && r.start <= r.end by {
        assert forall i :: 0 <= i < |done| ==> done[i] == (done + [r])[i];
        assert (done + [r])[|done|] == r;
      }
      forall x
        ensures InSome(out2, x) <==> InSome(done + [r], x)
      {
        InSomeAppend(done, r, x);
        HalvesCover(r, x);
        if out2 == out + [r] {
          InSomeAppend(out, r, x);
        } else {
          InSomeAppend(out, lo, x);
          InSomeAppend(out + [lo], hi, x);
        }
      }
    }
  }

  // ----- the ranges a node replicates ---------------------------------------

  /** One entry of the ring description: a range `(startToken, endToken]`
      and its replicas, the primary first. */
  datatype RingEntry = RingEntry(startToken: int, endToken: int, endpoints: seq<string>)

  /** Every entry names a primary replica, and its tokens are on the ring. */
  predicate WellFormedRing(data: seq<RingEntry>)
  {
    forall i :: 0 <= i < |data| ==>
      |data[i].endpoints| >= 1 && IsToken(data[i].startToken) && IsToken(data[i].endToken)
  }

  /** The entry is one the node repairs: as primary replica, or as one of
      the others. */
  predicate Wanted(e: RingEntry, nodeIp: string, primary: bool)
  {
    |e.endpoints| >= 1
    && if primary then e.endpoints[0] == nodeIp else nodeIp in e.endpoints[1..]
  }

  /** Token `x` lies in the range `(st, et]` of the ring, which wraps past
      the maximum token when `st > et`. */
  predicate InRingRange(st: int, et: int, x: int)
  {
    if st <= et then st < x <= et else st < x || x <= et
  }

  /** The split of a wrapping range at the end of the ring. */
  function WrapSplit(st: int, et: int): seq<TokenRange>
  {
    if st > et then [TokenRange(MinimumToken(), et), TokenRange(st, MaximumToken())]
    else [TokenRange(st, et)]
  }

  /** The split ranges run forward and cover the same tokens as the ring
      range, the minimum token aside: no key hashes to it. */
  lemma WrapSplitCovers(st: int, et: int, x: int)
    requires IsToken(st) && IsToken(et) && MinimumToken() < x <= MaximumToken()
    ensures Forward(WrapSplit(st, et))
    ensures InSome(WrapSplit(st, et), x) <==> InRingRange(st, et, x)
  {
    var w := WrapSplit(st, et);
    if InRingRange(st, et, x) {
      if st <= et || x <= et {
        assert w[0].start < x <= w[0].end;
      } else {
        assert w[1].start < x <= w[1].end;
      }
    }
  }

  /** The ranges an entry contributes. */
  function EntryRanges(e: RingEntry, nodeIp: string, primary: bool): seq<TokenRange>
  {
    if Wanted(e, nodeIp, primary) then WrapSplit(e.startToken, e.endToken) else []
  }

  /** The ranges of the first `n` entries that the node wants, each split
      where it wraps, in ring order. */
  function LocalRangesOf(data: seq<RingEntry>, nodeIp: string, primary: bool, n: nat): seq<TokenRange>
    requires n <= |data|
  {
    if n == 0 then []
    else LocalRangesOf(data, nodeIp, primary, n - 1) + EntryRanges(data[n - 1], nodeIp, primary)
  }

  /** The ranges of all the entries the node wants. */
  function LocalRanges(data: seq<RingEntry>, nodeIp: string, primary: bool): seq<TokenRange>
  {
    LocalRangesOf(data, nodeIp, primary, |data|)
  }

  /** What the loop of `get_local_range` has gathered after `i` entries. */
  ghost predicate GatherState(data: seq<RingEntry>, nodeIp: string, i: nat, primaryRange: bool, nonprimaryRange: bool,
                              prRanges: seq<TokenRange>, nprRanges: seq<TokenRange>)
    requires i <= |data|
  {
    prRanges == (if primaryRange then LocalRangesOf(data, nodeIp, true, i) else [])
    && nprRanges == (if nonprimaryRange then LocalRangesOf(data, nodeIp, false, i) else [])
  }

  /** One entry of the loop of `get_local_range`: the ranges gathered so far
      grow by the split of the entry when the node wants it. */
  lemma GatherNext(data: seq<RingEntry>, nodeIp: string, i: nat, primaryRange: bool, nonprimaryRange: bool,
                   pr: seq<TokenRange>, npr: seq<TokenRange>, pr2: seq<TokenRange>, npr2: seq<TokenRange>)
    requires i < |data|
    requires GatherState(data, nodeIp, i, primaryRange, nonprimaryRange, pr, npr)
    requires pr2 == if primaryRange && Wanted(data[i], nodeIp, true)
      then pr + WrapSplit(data[i].startToken, data[i].endToken) else pr
    requires npr2 == if nonprimaryRange && Wanted(data[i], nodeIp, false)
      then npr + WrapSplit(data[i].startToken, data[i].endToken) else npr
    ensures GatherState(data, nodeIp, i + 1, primaryRange, nonprimaryRange, pr2, npr2)
  {
  }

  /** Token `x` lies in the range of one of the first `n` entries that the
      node wants. */
  ghost predicate WantedCovers(data: seq<RingEntry>, nodeIp: string, primary: bool, n: nat, x: int)
    requires n <= |data|
  {
    exists i :: 0 <= i < n && Wanted(data[i], nodeIp, primary)
      && InRingRange(data[i].startToken, data[i].endToken, x)
  }

  lemma WantedCoversStep(data: seq<RingEntry>, nodeIp: string, primary: bool, n: nat, x: int)
    requires 0 < n <= |data|
    ensures var e := data[n - 1];
      WantedCovers(data, nodeIp, primary, n, x)
      <==> WantedCovers(data, nodeIp, primary, n - 1, x)
           || (Wanted(e, nodeIp, primary) && InRingRange(e.startToken, e.endToken, x))
  {
  }

  /** The local ranges run forward. */
  lemma {:induction false} LocalRangesForward(data: seq<RingEntry>, nodeIp: string, primary: bool, n: nat)
    requires WellFormedRing(data) && n <= |data|
    ensures Forward(LocalRangesOf(data, nodeIp, primary, n))
  {
    if n > 0 {
      var e := data[n - 1];
      LocalRangesForward(data, nodeIp, primary, n - 1);
      WrapSplitCovers(e.startToken, e.endToken, MaximumToken());
      ForwardConcat(LocalRangesOf(data, nodeIp, primary, n - 1), EntryRanges(e, nodeIp, primary));
    }
  }

  /** The local ranges cover, the minimum token aside, exactly the tokens of
      the wanted entries. */
  lemma {:induction false} LocalRangesCover(data: seq<RingEntry>, nodeIp: string, primary: bool, n: nat, x: int)
    requires WellFormedRing(data) && n <= |data| && MinimumToken() < x <= MaximumToken()
    ensures InSome(LocalRangesOf(data, nodeIp, primary, n), x) <==> WantedCovers(data, nodeIp, primary, n, x)
  {
    if n > 0 {
      var e := data[n - 1];
      LocalRangesCover(data, nodeIp, primary, n - 1, x);
      WrapSplitCovers(e.startToken, e.endToken, x);
      InSomeConcat(LocalRangesOf(data, nodeIp, primary, n - 1), EntryRanges(e, nodeIp, primary), x);
      WantedCoversStep(data, nodeIp, primary, n, x);
    }
  }

  lemma ForwardConcat(a: seq<TokenRange>, b: seq<TokenRange>)
    requires Forward(a) && Forward(b)
    ensures Forward(a + b)
  {
    assert forall i :: |a| <= i < |a + b| ==> (a + b)[i] == b[i - |a|];
  }

  lemma InSomeConcat(a: seq<TokenRange>, b: seq<TokenRange>, x: int)
    ensures InSome(a + b, x) <==> InSome(a, x) || InSome(b, x)
  {
    if InSome(a + b, x) {
      var i :| 0 <= i < |a + b| && (a + b)[i].start < x <= (a + b)[i].end;
      if i < |a| {
        assert a[i] == (a + b)[i];
      } else {
        assert b[i - |a|] == (a + b)[i];
      }
    }
    if InSome(a, x) {
      var i :| 0 <= i < |a| && a[i].start < x <= a[i].end;
      assert (a + b)[i] == a[i];
    }
    if InSome(b, x) {
      var i :| 0 <= i < |b| && b[i].start < x <= b[i].end;
      assert (a + b)[|a| + i] == b[i];
    }
  }

  /** `get_local_range` over the ring description the node returns: the
      primary and the other ranges of the node, each split where it wraps.
      In the source the non-primary branch calls functions that do not
      exist; this is the evidently intended behaviour, the same split as
      the primary branch. */
  method GetLocalRange(data: seq<RingEntry>, nodeIp: string, primaryRange: bool, nonprimaryRange: bool)
    returns (prRanges: seq<TokenRange>, nprRanges: seq<TokenRange>)
    requires WellFormedRing(data)
    ensures prRanges == if primaryRange then LocalRanges(data, nodeIp, true) else []
    ensures nprRanges == if nonprimaryRange then LocalRanges(data, nodeIp, false) else []
  {
    prRanges, nprRanges := [], [];
    var i := 0;
    while i < |data|
      invariant 0 <= i <= |data|
      invariant GatherState(data, nodeIp, i, primaryRange, nonprimaryRange, prRanges, nprRanges)
    {
      var d := data[i];
      ghost var pr, npr := prRanges, nprRanges;
      if primaryRange {
        if Wanted(d, nodeIp, true) {
          prRanges := prRanges + WrapSplit(d.startToken, d.endToken);
        }
      }
      if nonprimaryRange {
        if Wanted(d, nodeIp, false) {
          nprRanges := nprRanges + WrapSplit(d.startToken, d.endToken);
        }
      }
      GatherNext(data, nodeIp, i, primaryRange, nonprimaryRange, pr, npr, prRanges, nprRanges);
      i := i + 1;
    }
  }

  /** The message Python gives for the call of `minimum_token` without its
      object. */
  const NameErrorMessage := "NameError: global name 'minimum_token' is not defined"

  /** `get_local_range` as written: the first wanted non-primary range that
      wraps raises a `NameError`, as that branch calls `minimum_token` and
      `maximum_token` without `self`. */
  method GetLocalRangeAsWritten(data: seq<RingEntry>, nodeIp: string, primaryRange: bool, nonprimaryRange: bool)
    returns (res: Result<(seq<TokenRange>, seq<TokenRange>)>)
    requires WellFormedRing(data)
    ensures res.Err? <==> nonprimaryRange && exists i :: 0 <= i < |data| && WrapsForNonPrimary(data[i], nodeIp)
    ensures res.Err? ==> res.error == NameErrorMessage
    ensures res.Ok? ==> res.value.0 == (if primaryRange then LocalRanges(data, nodeIp, true) else [])
    ensures res.Ok? ==> res.value.1 == (if nonprimaryRange then LocalRanges(data, nodeIp, false) else [])
  {
    var prRanges: seq<TokenRange>, nprRanges: seq<TokenRange> := [], [];
    var i := 0;
    while i < |data|
      invariant 0 <= i <= |data|
      invariant GatherState(data, nodeIp, i, primaryRange, nonprimaryRange, prRanges, nprRanges)
      invariant nonprimaryRange ==> NoWrapBefore(data, nodeIp, i)
    {
      var d := data[i];
      ghost var pr, npr := prRanges, nprRanges;
      if primaryRange {
        if Wanted(d, nodeIp, true) {
          prRanges := prRanges + WrapSplit(d.startToken, d.endToken);
        }
      }
      if nonprimaryRange {
        if Wanted(d, nodeIp, false) {
          if d.startToken > d.endToken {
            assert WrapsForNonPrimary(data[i], nodeIp);
            return Err(NameErrorMessage);
          }
          assert WrapSplit(d.startToken, d.endToken) == [TokenRange(d.startToken, d.endToken)];
          nprRanges := nprRanges + [TokenRange(d.startToken, d.endToken)];
        }
      }
      GatherNext(data, nodeIp, i, primaryRange, nonprimaryRange, pr, npr, prRanges, nprRanges);
      i := i + 1;
    }
    NoWrapBeforeMeans(data, nodeIp, |data|);
    return Ok((prRanges, nprRanges));
  }

  /** No entry before `i` is a wrapping range of which the node is a
      non-primary replica. */
  ghost predicate NoWrapBefore(data: seq<RingEntry>, nodeIp: string, i: nat)
    requires i <= |data|
  {
    i == 0 || (NoWrapBefore(data, nodeIp, i - 1) && !WrapsForNonPrimary(data[i - 1], nodeIp))
  }

  lemma {:induction false} NoWrapBeforeMeans(data: seq<RingEntry>, nodeIp: string, i: nat)
    requires i <= |data|
    ensures NoWrapBefore(data, nodeIp, i) <==> forall j :: 0 <= j < i ==> !WrapsForNonPrimary(data[j], nodeIp)
  {
    if i > 0 {
      NoWrapBeforeMeans(data, nodeIp, i - 1);
    }
  }

  /** A wrapping range of which the node is a non-primary replica. */
  predicate WrapsForNonPrimary(e: RingEntry, nodeIp: string)
  {
    Wanted(e, nodeIp, false) && e.startToken > e.endToken
  }

  /** A ring of one wrapping range, replicated by node "b" after node "a":
      the source fails on it, while the node does replicate its tokens. */
  lemma NonPrimaryWrapFails()
    ensures var data := [RingEntry(5, -5, ["a", "b"])];
      WellFormedRing(data) && WrapsForNonPrimary(data[0], "b")
      && LocalRanges(data, "b", false) == [TokenRange(MinimumToken(), -5), TokenRange(5, MaximumToken())]
  {
    var data := [RingEntry(5, -5, ["a", "b"])];
    assert data[..0] == [];
    assert "b" in data[0].endpoints[1..] by {
      assert data[0].endpoints[1..][0] == "b";
    }
  }

  // ----- repair jobs ---------------------------------------------------------

  /** The slices `xs[i:i + k]` for `i` in `0, k, 2k, ...`. */
  function Chunks<T>(xs: seq<T>, k: nat): seq<seq<T>>
    requires k >= 1
    decreases |xs|
  {
    if xs == [] then []
    else if |xs| <= k then [xs]
    else [xs[..k]] + Chunks(xs[k..], k)
  }

  function Flatten<T>(xss: seq<seq<T>>): seq<T>
  {
    if xss == [] then [] else xss[0] + Flatten(xss[1..])
  }

  /** The chunks put back together give the list. */
  lemma {:induction false} ChunksFlatten<T>(xs: seq<T>, k: nat)
    requires k >= 1
    ensures Flatten(Chunks(xs, k)) == xs
    decreases |xs|
  {
    var c := Chunks(xs, k);
    if xs == [] {
    } else if |xs| <= k {
      assert Flatten(c) == xs + Flatten([]);
    } else {
      ChunksFlatten(xs[k..], k);
      assert c[1..] == Chunks(xs[k..], k);
      assert Flatten(c) == xs[..k] + Flatten(c[1..]);
      assert xs[..k] + xs[k..] == xs;
    }
  }

  /** Every chunk holds `k` items but the last, which holds between one and
      `k`, and there are `|xs| / k` chunks rounded up. */
  lemma {:induction false} ChunksSizes<T>(xs: seq<T>, k: nat)
    requires k >= 1
    ensures |Chunks(xs, k)| == (|xs| + k - 1) / k
    ensures forall i :: 0 <= i < |Chunks(xs, k)| ==> 1 <= |Chunks(xs, k)[i]| <= k
    ensures forall i :: 0 <= i < |Chunks(xs, k)| - 1 ==> |Chunks(xs, k)[i]| == k
    decreases |xs|
  {
    var c := Chunks(xs, k);
    if xs == [] {
      DivBelow(k - 1, 1, k);
    } else if |xs| <= k {
      DivBelow(|xs| + k - 1, 2, k);
      DivAtLeast(|xs| + k - 1, 1, k);
    } else {
      var rest := Chunks(xs[k..], k);
      ChunksSizes(xs[k..], k);
      CeilStep(|xs| - k, k);
      forall i | 0 <= i < |c|
        ensures 1 <= |c[i]| <= k && (i < |c| - 1 ==> |c[i]| == k)
      {
        if i > 0 {
          assert c[i] == rest[i - 1];
        }
      }
    }
  }

  /** One more block of `k` adds one to the rounded-up quotient. */
  lemma CeilStep(n: nat, k: nat)
    requires k >= 1
    ensures (n + k + k - 1) / k == (n + k - 1) / k + 1
  {
    ModUnique(n + k + k - 1, (n + k - 1) / k + 1, (n + k - 1) % k, k);
  }

  /** Where chunk `i` of a list of `n` items ends: `(i + 1) * k`, cut at `n`. */
  function ChunkEnd(i: nat, k: nat, n: nat): nat
  {
    if (i + 1) * k <= n then (i + 1) * k else n
  }

  /** Chunk `i` is the slice `xs[i * k:(i + 1) * k]`. */
  lemma {:induction false} ChunkAt<T>(xs: seq<T>, k: nat, i: nat)
    requires k >= 1 && i < |Chunks(xs, k)|
    ensures i * k < ChunkEnd(i, k, |xs|) <= |xs|
    ensures Chunks(xs, k)[i] == xs[i * k .. ChunkEnd(i, k, |xs|)]
    decreases |xs|
  {
    if i == 0 {
      if |xs| <= k {
        assert Chunks(xs, k) == [xs];
      }
    } else {
      var rest := xs[k..];
      assert |xs| > k;
      assert Chunks(xs, k)[i] == Chunks(rest, k)[i - 1];
      ChunkAt(rest, k, i - 1);
      assert i * k == (i - 1) * k + k;
      assert (i + 1) * k == i * k + k;
      assert ChunkEnd(i, k, |xs|) == ChunkEnd(i - 1, k, |rest|) + k;
      assert rest[(i - 1) * k .. ChunkEnd(i - 1, k, |rest|)] == xs[i * k .. ChunkEnd(i, k, |xs|)];
    }
  }

  /** `'{}:{}'.format(r[0], r[1])` */
  function RangeText(r: TokenRange): string
  {
    IntToString(r.start) + ":" + IntToString(r.end)
  }

  /** Text around a colon splits back into its two sides when the left
      sides hold no colon. */
  lemma ColonSplit(x: string, u: string, y: string, v: string)
    requires ':' !in x && ':' !in y
    requires x + ":" + u == y + ":" + v
    ensures x == y && u == v
  {
    var s := x + ":" + u;
    assert s[|x|] == ':' && s[|y|] == ':';
    assert forall k :: 0 <= k < |x| ==> s[k] == x[k];
    assert forall k :: 0 <= k < |y| ==> s[k] == y[k];
    assert |x| == |y|;
    assert x == s[..|x|] == y;
    assert u == s[|x| + 1..] == v;
  }

  /** Distinct ranges are written differently, so a job names its ranges
      unambiguously. */
  lemma RangeTextInjective(a: TokenRange, b: TokenRange)
    requires RangeText(a) == RangeText(b)
    ensures a == b
  {
    ColonSplit(IntToString(a.start), IntToString(a.end), IntToString(b.start), IntToString(b.end));
    IntToStringInjective(a.start, b.start);
    IntToStringInjective(a.end, b.end);
  }

  /** The text of every range, in order. */
  function RangeTexts(ranges: seq<TokenRange>): (texts: seq<string>)
    ensures |texts| == |ranges| && forall i :: 0 <= i < |ranges| ==> texts[i] == RangeText(ranges[i])
  {
    seq(|ranges|, i requires 0 <= i < |ranges| => RangeText(ranges[i]))
  }

  /** The texts grouped `k` at a time, each group joined by commas: job
      `i` holds the texts `i * k` up to `(i + 1) * k`, cut at the end. */
  function Groups(texts: seq<string>, k: nat): (jobs: seq<string>)
    requires k >= 1
    ensures |jobs| == (|texts| + k - 1) / k
    ensures forall i :: 0 <= i < |jobs| ==>
      i * k < ChunkEnd(i, k, |texts|) <= |texts| &&
      jobs[i] == Join(",", texts[i * k .. ChunkEnd(i, k, |texts|)])
  {
    ChunksSizes(texts, k);
    var chunks := Chunks(texts, k);
    forall i | 0 <= i < |chunks|
      ensures i * k < ChunkEnd(i, k, |texts|) <= |texts|
      ensures chunks[i] == texts[i * k .. ChunkEnd(i, k, |texts|)]
    {
      ChunkAt(texts, k, i);
    }
    seq(|chunks|, i requires 0 <= i < |chunks| => Join(",", chunks[i]))
  }

  /** The ranges of one shard grouped into repair jobs of `rangesPerRepair`
      ranges each, written as the repair API takes them.  A step of zero
      makes `xrange` raise; a negative step gives no jobs. */
  function RepairJobs(ranges: seq<TokenRange>, rangesPerRepair: int): (r: Result<seq<string>>)
    ensures r.Err? <==> rangesPerRepair == 0
    ensures rangesPerRepair < 0 ==> r == Ok([])
    ensures rangesPerRepair > 0 ==> r.Ok? && |r.value| == (|ranges| + rangesPerRepair - 1) / rangesPerRepair
    ensures rangesPerRepair > 0 && r.Ok? ==> forall i :: 0 <= i < |r.value| ==>
      i * rangesPerRepair < ChunkEnd(i, rangesPerRepair, |ranges|) <= |ranges| &&
      r.value[i] == Join(",", RangeTexts(ranges)[i * rangesPerRepair .. ChunkEnd(i, rangesPerRepair, |ranges|)])
  {
    if rangesPerRepair == 0 then Err("ValueError: xrange() arg 3 must not be zero")
    else if rangesPerRepair < 0 then Ok([])
    else Ok(Groups(RangeTexts(ranges), rangesPerRepair))
  }
}
