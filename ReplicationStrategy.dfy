/** Range selection and validation of locator/abstract_replication_strategy.cc:
    the replication-factor check, the vector of token ranges a node owns
    (unwrapping the range that wraps around the ring), the filter that
    drops nodes being replaced, and the registry of effective replication
    maps.  A token's natural endpoints come from the replication map, given
    here as a parameter; the snitch's datacenter lookup is the set of
    endpoints in the node's datacenter. */
module ReplicationStrategy {
  import opened Util
  import opened Ring

  type Endpoint = string

  // ----- validate_replication_factor ------------------------------------------

  /** The largest value `std::stol` accepts. */
  const LongMax: nat := 0x7fff_ffff_ffff_ffff

  predicate AllDigits(s: string)
  {
    forall i :: 0 <= i < |s| ==> '0' <= s[i] <= '9'
  }

  /** Empty, non-digit (a sign included) or out of `long` range is a
      `configuration_exception`. */
  function ValidateReplicationFactor(rf: string): (r: Outcome)
    ensures r.Pass? <==> |rf| > 0 && AllDigits(rf) && DigitsValue(rf) <= LongMax
  {
    if rf == [] || !AllDigits(rf) then Fail("configuration_exception")
    else if DigitsValue(rf) > LongMax then Fail("configuration_exception")
    else Pass
  }

  /** Every non-negative `long`, written in decimal, is accepted. */
  lemma DecimalAccepted(n: nat)
    requires n <= LongMax
    ensures ValidateReplicationFactor(NatToString(n)).Pass?
  {
    NatToStringRoundTrip(n);
  }

  /** A negative factor is refused however it is written. */
  lemma NegativeRefused(digits: string)
    ensures ValidateReplicationFactor("-" + digits).Fail?
  {
    assert ("-" + digits)[0] == '-';
  }

  // ----- insert_token_range_to_sorted_container_while_unwrapping -----------------

  function Front(tok: Token): TokenRange
  {
    TokenRange(None, Some(Bound(tok, true)))
  }

  function Back(prev: Token): TokenRange
  {
    TokenRange(Some(Bound(prev, false)), None)
  }

  /** Add the range `(prev, tok]`: in order when it does not wrap, before a
      trailing end-unbounded range if there is one; a wrapping range becomes
      `(-inf, tok]` at the front and `(prev, +inf)` at the back. */
  function InsertUnwrapping(prev: Token, tok: Token, ret: seq<TokenRange>): (r: seq<TokenRange>)
    ensures prev < tok && ret != [] && ret[|ret| - 1].end.None? ==>
              r == ret[..|ret| - 1] + [OpenClosed(prev, tok)] + [ret[|ret| - 1]]
    ensures prev < tok && (ret == [] || ret[|ret| - 1].end.Some?) ==> r == ret + [OpenClosed(prev, tok)]
    ensures prev >= tok ==> r == [Front(tok)] + ret + [Back(prev)]
  {
    if prev < tok then
      if ret != [] && ret[|ret| - 1].end.None? then ret[..|ret| - 1] + [OpenClosed(prev, tok)] + [ret[|ret| - 1]]
      else ret + [OpenClosed(prev, tok)]
    else
      [Front(tok)] + (ret + [Back(prev)])
  }

  // ----- the range-selection predicates ---------------------------------------

  /** Which ranges a node asks for: those it replicates, those it is the
      primary replica of, or those it is the first replica of among the
      nodes of its datacenter. */
  datatype Selection = Replicated(ep: Endpoint) | Primary(ep: Endpoint) | PrimaryInDc(ep: Endpoint, dcNodes: set<Endpoint>)

  /** The first replica of the datacenter, if any. */
  function FirstInDc(eps: seq<Endpoint>, dc: set<Endpoint>): (r: Option<nat>)
    ensures r.Some? ==> r.value < |eps| && eps[r.value] in dc && forall j :: 0 <= j < r.value ==> eps[j] !in dc
    ensures r.None? ==> forall j :: 0 <= j < |eps| ==> eps[j] !in dc
  {
    if eps == [] then None
    else if eps[0] in dc then Some(0)
    else
      var rest := FirstInDc(eps[1..], dc);
      if rest.Some? then Some(rest.value + 1) else None
  }

  predicate ShouldAdd(sel: Selection, eps: seq<Endpoint>)
  {
    match sel
    case Replicated(ep) => ep in eps
    case Primary(ep) => |eps| > 0 && eps[0] == ep
    case PrimaryInDc(ep, dc) => var f := FirstInDc(eps, dc); f.Some? && eps[f.value] == ep
  }

  /** The within-datacenter primary ranges are the primary ranges when every
      replica is in the node's datacenter. */
  lemma PrimaryInDcGeneralises(ep: Endpoint, eps: seq<Endpoint>, dc: set<Endpoint>)
    requires forall e :: e in eps ==> e in dc
    ensures ShouldAdd(PrimaryInDc(ep, dc), eps) <==> ShouldAdd(Primary(ep), eps)
  {
    if eps != [] {
      assert eps[0] in dc;
    }
  }

  /** The primary replica of a range replicates it. */
  lemma PrimaryIsReplica(ep: Endpoint, eps: seq<Endpoint>, dc: set<Endpoint>)
    ensures ShouldAdd(Primary(ep), eps) ==> ShouldAdd(Replicated(ep), eps)
    ensures ShouldAdd(PrimaryInDc(ep, dc), eps) ==> ShouldAdd(Replicated(ep), eps)
  {
  }

  // ----- do_get_ranges -------------------------------------------------------------

  /** Whether the range ending at each ring token is selected. */
  function Selected(sorted: seq<Token>, replicas: map<Token, seq<Endpoint>>, sel: Selection): (r: seq<bool>)
    requires forall i :: 0 <= i < |sorted| ==> sorted[i] in replicas
    ensures |r| == |sorted|
    ensures forall i :: 0 <= i < |sorted| ==> (r[i] <==> ShouldAdd(sel, replicas[sorted[i]]))
  {
    seq(|sorted|, i requires 0 <= i < |sorted| => ShouldAdd(sel, replicas[sorted[i]]))
  }

  /** The non-wrapping selected ranges among the first `k` tokens. */
  function Middle(sorted: seq<Token>, chosen: seq<bool>, k: nat): seq<TokenRange>
    requires |chosen| == |sorted| && k <= |sorted|
  {
    if k <= 1 then []
    else Middle(sorted, chosen, k - 1) + (if chosen[k - 1] then [OpenClosed(sorted[k - 2], sorted[k - 1])] else [])
  }

  /** The vector after the first `k` tokens: the wrapping first range split
      around the rest when it is selected. */
  function RangesUpTo(sorted: seq<Token>, chosen: seq<bool>, k: nat): seq<TokenRange>
    requires |chosen| == |sorted| && k <= |sorted|
  {
    if k == 0 || !chosen[0] then Middle(sorted, chosen, k)
    else [Front(sorted[0])] + Middle(sorted, chosen, k) + [Back(sorted[|sorted| - 1])]
  }

  function CountTrue(bs: seq<bool>): nat
  {
    if bs == [] then 0 else CountTrue(bs[..|bs| - 1]) + (if bs[|bs| - 1] then 1 else 0)
  }

  lemma {:induction false} MiddleCount(sorted: seq<Token>, chosen: seq<bool>, k: nat)
    requires |chosen| == |sorted| && 1 <= k <= |sorted|
    ensures |Middle(sorted, chosen, k)| == CountTrue(chosen[1..k])
  {
    if k > 1 {
      MiddleCount(sorted, chosen, k - 1);
      assert chosen[1..k][..k - 2] == chosen[1..k - 1];
    }
  }

  /** One range per selected token, and one more for the split wrapping range. */
  lemma RangesCount(sorted: seq<Token>, chosen: seq<bool>)
    requires |chosen| == |sorted| && |sorted| > 0
    ensures |RangesUpTo(sorted, chosen, |sorted|)| == CountTrue(chosen[1..]) + (if chosen[0] then 2 else 0)
  {
    MiddleCount(sorted, chosen, |sorted|);
    assert chosen[1..|sorted|] == chosen[1..];
  }

  /** Every range of the middle part has an end bound. */
  lemma {:induction false} MiddleBounded(sorted: seq<Token>, chosen: seq<bool>, k: nat)
    requires |chosen| == |sorted| && k <= |sorted|
    ensures forall j :: 0 <= j < |Middle(sorted, chosen, k)| ==> Middle(sorted, chosen, k)[j].end.Some?
  {
    if k > 1 {
      MiddleBounded(sorted, chosen, k - 1);
    }
  }

  /** One loop iteration of `do_get_ranges` extends the vector as the helper does. */
  lemma RangesStep(sorted: seq<Token>, chosen: seq<bool>, k: nat)
    requires Increasing(sorted) && |chosen| == |sorted| && k < |sorted|
    ensures var prev := if k == 0 then sorted[|sorted| - 1] else sorted[k - 1];
            RangesUpTo(sorted, chosen, k + 1) ==
              (if chosen[k] then InsertUnwrapping(prev, sorted[k], RangesUpTo(sorted, chosen, k)) else RangesUpTo(sorted, chosen, k))
  {
    if k == 0 {
      assert sorted[|sorted| - 1] >= sorted[0];
    } else if chosen[k] && chosen[0] {
      StepAfterWrap(sorted, chosen, k);
    } else if chosen[k] {
      StepWithoutWrap(sorted, chosen, k);
    }
  }

  lemma RangesNext(sorted: seq<Token>, chosen: seq<bool>, k: nat, prev: Token, before: seq<TokenRange>, after: seq<TokenRange>)
    requires Increasing(sorted) && |chosen| == |sorted| && k < |sorted|
    requires before == RangesUpTo(sorted, chosen, k)
    requires prev == if k == 0 then sorted[|sorted| - 1] else sorted[k - 1]
    requires after == if chosen[k] then InsertUnwrapping(prev, sorted[k], before) else before
    ensures after == RangesUpTo(sorted, chosen, k + 1)
  {
    RangesStep(sorted, chosen, k);
  }

  /** Once the wrapping range was split, a later range goes before `(last, +inf)`. */
  lemma StepAfterWrap(sorted: seq<Token>, chosen: seq<bool>, k: nat)
    requires Increasing(sorted) && |chosen| == |sorted| && 0 < k < |sorted| && chosen[k] && chosen[0]
    ensures RangesUpTo(sorted, chosen, k + 1) == InsertUnwrapping(sorted[k - 1], sorted[k], RangesUpTo(sorted, chosen, k))
  {
    var ret := RangesUpTo(sorted, chosen, k);
    var mid := Middle(sorted, chosen, k);
    assert ret == ([Front(sorted[0])] + mid) + [Back(sorted[|sorted| - 1])];
    assert ret[..|ret| - 1] == [Front(sorted[0])] + mid;
  }

  /** Without a split wrapping range a later range is appended. */
  lemma StepWithoutWrap(sorted: seq<Token>, chosen: seq<bool>, k: nat)
    requires Increasing(sorted) && |chosen| == |sorted| && 0 < k < |sorted| && chosen[k] && !chosen[0]
    ensures RangesUpTo(sorted, chosen, k + 1) == InsertUnwrapping(sorted[k - 1], sorted[k], RangesUpTo(sorted, chosen, k))
  {
    MiddleBounded(sorted, chosen, k);
  }

  /** `do_get_ranges`: walk the ring from the wrapping range, adding the
      range ending at each token whose natural endpoints pass the predicate;
      an empty ring is an internal error. */
  method DoGetRanges(sorted: seq<Token>, replicas: map<Token, seq<Endpoint>>, sel: Selection) returns (r: Result<seq<TokenRange>>)
    requires Increasing(sorted)
    requires forall i :: 0 <= i < |sorted| ==> sorted[i] in replicas
    ensures r.Err? <==> sorted == []
    ensures r.Ok? ==> r.value == RangesUpTo(sorted, Selected(sorted, replicas, sel), |sorted|)
  {
    if sorted == [] {
      return Err("on_internal_error");
    }
    ghost var chosen := Selected(sorted, replicas, sel);
    var ret: seq<TokenRange> := [];
    var prev := sorted[|sorted| - 1];
    for k := 0 to |sorted|
      invariant ret == RangesUpTo(sorted, chosen, k)
      invariant prev == (if k == 0 then sorted[|sorted| - 1] else sorted[k - 1])
    {
      var tok := sorted[k];
      ghost var before := ret;
      assert chosen[k] == ShouldAdd(sel, replicas[tok]);
      if ShouldAdd(sel, replicas[tok]) {
        ret := InsertUnwrapping(prev, tok, ret);
      }
      RangesNext(sorted, chosen, k, prev, before, ret);
      prev := tok;
    }
    return Ok(ret);
  }

  /** The token whose range `(predecessor, t]` holds `x`: the first token not
      below `x`, and the first token for the wrapping range past the last. */
  function OwnerIndex(sorted: seq<Token>, x: Token): (i: nat)
    requires |sorted| > 0
    ensures i < |sorted|
  {
    var lb := LowerBound(sorted, x);
    if lb == |sorted| then 0 else lb
  }

  predicate Covered(rs: seq<TokenRange>, x: Token)
  {
    exists i :: 0 <= i < |rs| && Contains(rs[i], x)
  }

  lemma CoveredAppend(pre: seq<TokenRange>, r: TokenRange, x: Token)
    ensures Covered(pre + [r], x) <==> Covered(pre, x) || Contains(r, x)
  {
    var all := pre + [r];
    if Covered(all, x) {
      var j :| 0 <= j < |all| && Contains(all[j], x);
      if j < |pre| { assert Contains(pre[j], x); }
    }
    if Covered(pre, x) {
      var j :| 0 <= j < |pre| && Contains(pre[j], x);
      assert all[j] == pre[j];
    }
    assert all[|pre|] == r;
  }

  /** The token positions `1 <= i < k` that are selected and own `x`. */
  predicate OwnsInMiddle(sorted: seq<Token>, chosen: seq<bool>, k: nat, x: Token)
    requires |chosen| == |sorted| && k <= |sorted|
  {
    exists i :: 1 <= i < k && chosen[i] && sorted[i - 1] < x <= sorted[i]
  }

  lemma {:induction false} MiddleCovers(sorted: seq<Token>, chosen: seq<bool>, k: nat, x: Token)
    requires |chosen| == |sorted| && k <= |sorted|
    ensures Covered(Middle(sorted, chosen, k), x) <==> OwnsInMiddle(sorted, chosen, k, x)
  {
    if k > 1 {
      MiddleCovers(sorted, chosen, k - 1, x);
      var pre := Middle(sorted, chosen, k - 1);
      if chosen[k - 1] {
        CoveredAppend(pre, OpenClosed(sorted[k - 2], sorted[k - 1]), x);
      } else {
        assert Middle(sorted, chosen, k) == pre;
      }
      if OwnsInMiddle(sorted, chosen, k, x) {
        var i :| 1 <= i < k && chosen[i] && sorted[i - 1] < x <= sorted[i];
        if i < k - 1 {
          assert OwnsInMiddle(sorted, chosen, k - 1, x);
        }
      }
    } else {
      assert !OwnsInMiddle(sorted, chosen, k, x);
    }
  }

  /** The ranges cover a token exactly when the range that owns it on the
      ring was selected. */
  lemma RangesCoverSelected(sorted: seq<Token>, chosen: seq<bool>, x: Token)
    requires Increasing(sorted) && |chosen| == |sorted| && |sorted| > 0
    ensures Covered(RangesUpTo(sorted, chosen, |sorted|), x) <==> chosen[OwnerIndex(sorted, x)]
  {
    var n := |sorted|;
    var lb := LowerBound(sorted, x);
    LowerBoundPartitions(sorted, x);
    MiddleCovers(sorted, chosen, n, x);
    OwnsInMiddleIff(sorted, chosen, x);
    assert lb == n <==> x > sorted[n - 1];
    if chosen[0] {
      CoveredSplit(sorted, chosen, x);
    }
  }

  lemma OwnsInMiddleIff(sorted: seq<Token>, chosen: seq<bool>, x: Token)
    requires Increasing(sorted) && |chosen| == |sorted| && |sorted| > 0
    ensures var lb := LowerBound(sorted, x);
            OwnsInMiddle(sorted, chosen, |sorted|, x) <==> 0 < lb < |sorted| && chosen[lb]
  {
    var n := |sorted|;
    var lb := LowerBound(sorted, x);
    LowerBoundPartitions(sorted, x);
    if OwnsInMiddle(sorted, chosen, n, x) {
      var i :| 1 <= i < n && chosen[i] && sorted[i - 1] < x <= sorted[i];
      assert lb == i;
    }
    if 0 < lb < n {
      assert sorted[lb - 1] < x <= sorted[lb];
    }
  }

  /** With the wrapping range selected, its two halves hold the tokens up to
      the first and past the last. */
  lemma CoveredSplit(sorted: seq<Token>, chosen: seq<bool>, x: Token)
    requires |chosen| == |sorted| && |sorted| > 0 && chosen[0]
    ensures Covered(RangesUpTo(sorted, chosen, |sorted|), x) <==>
            x <= sorted[0] || x > sorted[|sorted| - 1] || Covered(Middle(sorted, chosen, |sorted|), x)
  {
    var mid := Middle(sorted, chosen, |sorted|);
    CoveredPrepend(Front(sorted[0]), mid, x);
    CoveredAppend([Front(sorted[0])] + mid, Back(sorted[|sorted| - 1]), x);
  }

  lemma CoveredPrepend(r: TokenRange, rest: seq<TokenRange>, x: Token)
    ensures Covered([r] + rest, x) <==> Contains(r, x) || Covered(rest, x)
  {
    var all := [r] + rest;
    if Covered(all, x) {
      var j :| 0 <= j < |all| && Contains(all[j], x);
      if j > 0 { assert Contains(rest[j - 1], x); }
    }
    if Covered(rest, x) {
      var j :| 0 <= j < |rest| && Contains(rest[j], x);
      assert all[j + 1] == rest[j];
    }
    assert all[0] == r;
  }

  // ----- get_natural_endpoints_without_node_being_replaced ---------------------------------

  /** The endpoints not in `drop`, in their order (`remove_if` + `erase`). */
  function Without(eps: seq<Endpoint>, drop: set<Endpoint>): (r: seq<Endpoint>)
    ensures forall e :: e in r <==> e in eps && e !in drop
    ensures |r| <= |eps|
  {
    if eps == [] then []
    else Without(eps[..|eps| - 1], drop) + (if eps[|eps| - 1] in drop then [] else [eps[|eps| - 1]])
  }

  /** Nodes being replaced are dropped only when some node is being replaced
      and the strategy allows it; otherwise the endpoints are unchanged. */
  function WithoutNodeBeingReplaced(eps: seq<Endpoint>, replaced: set<Endpoint>, allowRemove: bool): (r: seq<Endpoint>)
    ensures !(replaced != {} && allowRemove) ==> r == eps
    ensures replaced != {} && allowRemove ==> forall e :: e in r <==> e in eps && e !in replaced
  {
    if replaced != {} && allowRemove then Without(eps, replaced) else eps
  }

  /** Filtering keeps the relative order: it distributes over concatenation. */
  lemma {:induction false} WithoutConcat(a: seq<Endpoint>, b: seq<Endpoint>, drop: set<Endpoint>)
    ensures Without(a + b, drop) == Without(a, drop) + Without(b, drop)
    decreases |b|
  {
    if b != [] {
      var b0 := b[..|b| - 1];
      WithoutConcat(a, b0, drop);
      assert (a + b)[..|a + b| - 1] == a + b0;
    } else {
      assert a + b == a;
    }
  }

  /** Filtering twice is filtering once. */
  lemma {:induction false} WithoutIdempotent(eps: seq<Endpoint>, drop: set<Endpoint>)
    ensures Without(Without(eps, drop), drop) == Without(eps, drop)
  {
    if eps != [] {
      var pre := eps[..|eps| - 1];
      WithoutIdempotent(pre, drop);
      var last := if eps[|eps| - 1] in drop then [] else [eps[|eps| - 1]];
      WithoutConcat(Without(pre, drop), last, drop);
      if last != [] {
        assert Without(last, drop) == last by {
          assert last[..0] == [];
        }
      }
    }
  }

  // ----- effective_replication_map_factory ---------------------------------------------

  type FactoryKey = string

  /** An effective replication map, known by its identity. */
  class EffectiveReplicationMap {
    var factoryKey: FactoryKey
    var registered: bool

    constructor (key: FactoryKey)
      ensures factoryKey == key && !registered
    {
      factoryKey := key;
      registered := false;
    }
  }

  class ReplicationMapFactory {
    var maps: map<FactoryKey, EffectiveReplicationMap>

    constructor ()
      ensures maps == map[]
    {
      maps := map[];
    }

    function Find(key: FactoryKey): (r: Option<EffectiveReplicationMap>)
      reads this
      ensures r.Some? <==> key in maps
      ensures r.Some? ==> r.value == maps[key]
    {
      if key in maps then Some(maps[key]) else None
    }

    /** `insert_effective_replication_map`: the first map registered under a
        key wins; a later one is handed the registered map instead. */
    method Insert(erm: EffectiveReplicationMap, key: FactoryKey) returns (r: EffectiveReplicationMap)
      modifies this`maps, erm
      ensures key in old(maps) ==> r == old(maps)[key] && maps == old(maps) && unchanged(erm)
      ensures key !in old(maps) ==> r == erm && maps == old(maps)[key := erm] &&
                                    erm.factoryKey == key && erm.registered
    {
      if key in maps {
        return maps[key];
      }
      maps := maps[key := erm];
      erm.factoryKey := key;
      erm.registered := true;
      return erm;
    }

    /** `erase_effective_replication_map`: only the registered instance
        unregisters its key. */
    method Erase(erm: EffectiveReplicationMap) returns (erased: bool)
      modifies this`maps
      ensures erased <==> erm.factoryKey in old(maps) && old(maps)[erm.factoryKey] == erm
      ensures erased ==> maps == old(maps) - {erm.factoryKey}
      ensures !erased ==> maps == old(maps)
    {
      var key := erm.factoryKey;
      if key !in maps {
        return false;
      }
      if maps[key] != erm {
        return false;
      }
      maps := maps - {key};
      return true;
    }
  }
}
