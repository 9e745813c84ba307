/** The token ring bookkeeping of locator/token_metadata.cc: which endpoint
    owns each normal token, the tokens of bootstrapping nodes, the leaving
    and replacing nodes, the sorted token vector with its wrap-around
    iteration, and the ring version that invalidates cached rings.  The
    snitch's datacenter and rack of a topology entry and the pending-range
    interval maps are not part of this model. */
module TokenMetadata {
  import opened Util
  import opened Ring

  type Endpoint = string
  type HostId = string

  // ----- map updates ---------------------------------------------------------

  /** `remove_by_value`: drop every entry owned by `e`. */
  function WithoutValue(m: map<Token, Endpoint>, e: Endpoint): (r: map<Token, Endpoint>)
    ensures forall t :: t in r <==> t in m && m[t] != e
    ensures forall t :: t in r ==> r[t] == m[t]
  {
    map t | t in m && m[t] != e :: m[t]
  }

  /** `e`'s entries replaced by exactly `ts`: erase what `e` owned, then
      insert each token of `ts`, taking it over from any other owner. */
  function WithTokens(m: map<Token, Endpoint>, e: Endpoint, ts: set<Token>): map<Token, Endpoint>
  {
    WithoutValue(m, e) + map t | t in ts :: e
  }

  /** After the reassignment `e` owns exactly `ts`, tokens of `ts` owned
      elsewhere changed owner to `e`, and every other entry is untouched. */
  lemma ReassignedOwnership(m: map<Token, Endpoint>, e: Endpoint, ts: set<Token>)
    ensures var r := WithTokens(m, e, ts);
            (forall t :: (t in r && r[t] == e) <==> t in ts) &&
            (forall t :: t in r <==> t in ts || (t in m && m[t] != e)) &&
            (forall t :: t in m && m[t] != e && t !in ts ==> r[t] == m[t])
  {
  }

  /** Whether inserting `ts` after erasing `e`'s tokens adds a key the map
      did not have (`insert(...).second` for some token). */
  predicate InsertsNewKey(m: map<Token, Endpoint>, e: Endpoint, ts: set<Token>)
  {
    exists t :: t in ts && t !in WithoutValue(m, e)
  }

  // ----- update_normal_tokens over several endpoints ------------------------------

  type Entry = (Endpoint, set<Token>)

  /** How many entries are applied before one with no tokens throws. */
  function ProcessedCount(es: seq<Entry>): (k: nat)
    ensures k <= |es|
    ensures forall i :: 0 <= i < k ==> es[i].1 != {}
    ensures k < |es| ==> es[k].1 == {}
  {
    if es == [] || es[0].1 == {} then 0 else 1 + ProcessedCount(es[1..])
  }

  function NormalAfter(m: map<Token, Endpoint>, es: seq<Entry>): map<Token, Endpoint>
  {
    if es == [] then m else WithTokens(NormalAfter(m, es[..|es| - 1]), es[|es| - 1].0, es[|es| - 1].1)
  }

  function BootstrapAfter(b: map<Token, Endpoint>, es: seq<Entry>): map<Token, Endpoint>
  {
    if es == [] then b else WithoutValue(BootstrapAfter(b, es[..|es| - 1]), es[|es| - 1].0)
  }

  /** `should_sort_tokens` after the entries: some entry inserted a new key. */
  predicate SortNeeded(m: map<Token, Endpoint>, es: seq<Entry>)
  {
    es != [] &&
    (SortNeeded(m, es[..|es| - 1]) || InsertsNewKey(NormalAfter(m, es[..|es| - 1]), es[|es| - 1].0, es[|es| - 1].1))
  }

  function EndpointsOf(es: seq<Entry>): set<Endpoint>
  {
    set i | 0 <= i < |es| :: es[i].0
  }

  /** One more entry extends each fold by that entry. */
  lemma EntryStep(m: map<Token, Endpoint>, b: map<Token, Endpoint>, es: seq<Entry>, i: nat)
    requires i < |es|
    ensures NormalAfter(m, es[..i + 1]) == WithTokens(NormalAfter(m, es[..i]), es[i].0, es[i].1)
    ensures BootstrapAfter(b, es[..i + 1]) == WithoutValue(BootstrapAfter(b, es[..i]), es[i].0)
    ensures SortNeeded(m, es[..i + 1]) <==> SortNeeded(m, es[..i]) || InsertsNewKey(NormalAfter(m, es[..i]), es[i].0, es[i].1)
    ensures EndpointsOf(es[..i + 1]) == EndpointsOf(es[..i]) + {es[i].0}
  {
    assert es[..i + 1][..i] == es[..i];
  }

  /** An update for a single endpoint is the reassignment of its tokens, and
      it needs a sort exactly when it inserts a new key. */
  lemma SingleEntry(m: map<Token, Endpoint>, b: map<Token, Endpoint>, e: Endpoint, ts: set<Token>)
    ensures NormalAfter(m, [(e, ts)]) == WithTokens(m, e, ts)
    ensures BootstrapAfter(b, [(e, ts)]) == WithoutValue(b, e)
    ensures SortNeeded(m, [(e, ts)]) <==> InsertsNewKey(m, e, ts)
    ensures EndpointsOf([(e, ts)]) == {e}
  {
    assert [(e, ts)][..0] == [];
  }

  /** Re-inserting tokens the endpoint already owned counts as an insertion,
      because its old entries were erased first. */
  lemma ReinsertNeedsSort(m: map<Token, Endpoint>, e: Endpoint, t: Token, ts: set<Token>)
    requires t in m && m[t] == e && t in ts
    ensures InsertsNewKey(m, e, ts)
  {
    assert t !in WithoutValue(m, e);
  }

  /** As written, an update whose tokens were all owned by other endpoints
      erases the endpoint's old tokens without asking for a sort, so the
      sorted vector keeps a token the map no longer has. */
  lemma StaleSortedTokens()
    ensures var m := map[1 := "A", 2 := "B"];
            var es := [("A", {2})];
            !SortNeeded(m, es) && 1 in m && 1 !in NormalAfter(m, es)
  {
    var m := map[1 := "A", 2 := "B"];
    var es: seq<Entry> := [("A", {2})];
    SingleEntry(m, map[], "A", {2});
    assert WithoutValue(m, "A") == map[2 := "B"];
  }

  /** Whether erasing `e`'s tokens drops a key that `ts` does not put back. */
  predicate ErasesKey(m: map<Token, Endpoint>, e: Endpoint, ts: set<Token>)
  {
    exists t :: t in m && m[t] == e && t !in ts
  }

  /** The intended decision: sort whenever an entry changed the key set. */
  predicate SortNeededCorrected(m: map<Token, Endpoint>, es: seq<Entry>)
  {
    es != [] &&
    (SortNeededCorrected(m, es[..|es| - 1]) ||
     InsertsNewKey(NormalAfter(m, es[..|es| - 1]), es[|es| - 1].0, es[|es| - 1].1) ||
     ErasesKey(NormalAfter(m, es[..|es| - 1]), es[|es| - 1].0, es[|es| - 1].1))
  }

  lemma KeysKept(m: map<Token, Endpoint>, e: Endpoint, ts: set<Token>)
    requires !InsertsNewKey(m, e, ts) && !ErasesKey(m, e, ts)
    ensures WithTokens(m, e, ts).Keys == m.Keys
  {
    forall t | t in m ensures t in WithTokens(m, e, ts) {
      assert !(m[t] == e && t !in ts);
    }
    forall t | t in ts ensures t in m {
      assert t in WithoutValue(m, e);
    }
  }

  /** With the corrected decision, skipping the sort is safe: the key set,
      and hence the sorted vector, is what it was. */
  lemma {:induction false} CorrectedSortKeepsRing(m: map<Token, Endpoint>, es: seq<Entry>)
    requires !SortNeededCorrected(m, es)
    ensures NormalAfter(m, es).Keys == m.Keys
  {
    if es != [] {
      var pre := es[..|es| - 1];
      CorrectedSortKeepsRing(m, pre);
      KeysKept(NormalAfter(m, pre), es[|es| - 1].0, es[|es| - 1].1);
    }
  }

  /** The corrected decision sorts at least whenever the written one does. */
  lemma {:induction false} CorrectedSortsMore(m: map<Token, Endpoint>, es: seq<Entry>)
    requires SortNeeded(m, es)
    ensures SortNeededCorrected(m, es)
  {
    if es != [] && SortNeeded(m, es[..|es| - 1]) {
      CorrectedSortsMore(m, es[..|es| - 1]);
    }
  }

  // ----- ranges and intervals -----------------------------------------------------

  /** A token of a `boost::icl` interval: the minimum and maximum tokens stand
      in for a missing range bound. */
  datatype RingPoint = MinimumToken | TokenAt(token: Token) | MaximumToken

  datatype IntervalBounds = Open | LeftOpen | RightOpen | Closed

  datatype Interval = Interval(lower: RingPoint, upper: RingPoint, bounds: IntervalBounds)

  datatype PointBound = PointBound(value: RingPoint, inclusive: bool)

  /** The range `interval_to_range` builds: both bounds always present. */
  datatype PointRange = PointRange(start: PointBound, end: PointBound)

  function RangeToInterval(r: TokenRange): (i: Interval)
    ensures i.lower == (if r.start.Some? then TokenAt(r.start.value.value) else MinimumToken)
    ensures i.upper == (if r.end.Some? then TokenAt(r.end.value.value) else MaximumToken)
    ensures (i.bounds == Closed || i.bounds == RightOpen) <==> (r.start.Some? && r.start.value.inclusive)
    ensures (i.bounds == Closed || i.bounds == LeftOpen) <==> (r.end.Some? && r.end.value.inclusive)
  {
    var start := if r.start.Some? then TokenAt(r.start.value.value) else MinimumToken;
    var startInclusive := r.start.Some? && r.start.value.inclusive;
    var end := if r.end.Some? then TokenAt(r.end.value.value) else MaximumToken;
    var endInclusive := r.end.Some? && r.end.value.inclusive;
    if !startInclusive && !endInclusive then Interval(start, end, Open)
    else if !startInclusive && endInclusive then Interval(start, end, LeftOpen)
    else if startInclusive && !endInclusive then Interval(start, end, RightOpen)
    else Interval(start, end, Closed)
  }

  function IntervalToRange(i: Interval): PointRange
  {
    var startInclusive := i.bounds == RightOpen || i.bounds == Closed;
    var endInclusive := i.bounds == LeftOpen || i.bounds == Closed;
    PointRange(PointBound(i.lower, startInclusive), PointBound(i.upper, endInclusive))
  }

  /** A range through an interval and back keeps each present bound's token
      and inclusivity; a missing bound comes back as the exclusive minimum or
      maximum token. */
  lemma IntervalRoundTrip(r: TokenRange)
    ensures var p := IntervalToRange(RangeToInterval(r));
            (r.start.Some? ==> p.start == PointBound(TokenAt(r.start.value.value), r.start.value.inclusive)) &&
            (r.start.None? ==> p.start == PointBound(MinimumToken, false)) &&
            (r.end.Some? ==> p.end == PointBound(TokenAt(r.end.value.value), r.end.value.inclusive)) &&
            (r.end.None? ==> p.end == PointBound(MaximumToken, false))
  {
  }

  /** Every interval comes back unchanged through a range. */
  lemma RangeRoundTrip(i: Interval)
    requires i.lower.TokenAt? && i.upper.TokenAt?
    ensures var p := IntervalToRange(i);
            RangeToInterval(TokenRange(Some(Bound(p.start.value.token, p.start.inclusive)),
                                       Some(Bound(p.end.value.token, p.end.inclusive)))) == i
  {
  }

  // ----- wrap-around order ----------------------------------------------------------

  /** The ring from position `i`: to the end, then from the start. */
  function Rotate(s: seq<Token>, i: nat): seq<Token>
    requires i <= |s|
  {
    s[i..] + s[..i]
  }

  /** A position `x < 2n` folded back onto the ring of `n` tokens. */
  function Wrap(x: nat, n: nat): nat
  {
    if x < n then x else x - n
  }

  lemma RotateAt(s: seq<Token>, i: nat, k: nat)
    requires i < |s| && k < |s|
    ensures Rotate(s, i)[k] == s[Wrap(i + k, |s|)]
  {
  }

  /** The rotation visits every token of the ring exactly once. */
  lemma RotateVisitsEachOnce(s: seq<Token>, i: nat)
    requires i <= |s|
    ensures |Rotate(s, i)| == |s|
    ensures multiset(Rotate(s, i)) == multiset(s)
  {
    assert s == s[..i] + s[i..];
  }

  // ----- the ring version source ----------------------------------------------------

  /** The thread-local `_static_ring_version` every ring invalidation draws from. */
  class RingVersionCounter {
    var value: int

    constructor ()
      ensures value == 0
    {
      value := 0;
    }
  }

  // ----- token_metadata_impl ------------------------------------------------------------

  class TokenMetadataImpl {
    var tokenToEndpoint: map<Token, Endpoint>
    var hostIds: map<Endpoint, HostId>
    var bootstrapTokens: map<Token, Endpoint>
    var leaving: set<Endpoint>
    /** existing node -> the node replacing it */
    var replacing: map<Endpoint, Endpoint>
    var sortedTokens: seq<Token>
    /** The endpoints the topology knows. */
    var topology: set<Endpoint>
    var ringVersion: int
    const versions: RingVersionCounter

    /** `_sorted_tokens` is always a sorted vector. */
    ghost predicate Valid()
      reads this
    {
      Increasing(sortedTokens)
    }

    constructor (versions: RingVersionCounter)
      ensures Valid()
      ensures this.versions == versions
      ensures tokenToEndpoint == map[] && hostIds == map[] && bootstrapTokens == map[]
      ensures leaving == {} && replacing == map[] && sortedTokens == [] && topology == {}
      ensures ringVersion == 0
    {
      this.versions := versions;
      tokenToEndpoint := map[];
      hostIds := map[];
      bootstrapTokens := map[];
      leaving := {};
      replacing := map[];
      sortedTokens := [];
      topology := {};
      ringVersion := 0;
    }

    method InvalidateCachedRings()
      modifies versions, this`ringVersion
      ensures versions.value == old(versions.value) + 1
      ensures ringVersion == versions.value
    {
      versions.value := versions.value + 1;
      ringVersion := versions.value;
    }

    /** `sort_tokens`: the keys of the token map, sorted. */
    method SortTokens()
      modifies this`sortedTokens
      ensures Valid()
      ensures forall t :: t in sortedTokens <==> t in tokenToEndpoint
    {
      sortedTokens := Ring.SortTokens(tokenToEndpoint.Keys);
    }

    /** One endpoint's step of `update_normal_tokens`, once its token set is
        known to be non-empty. */
    method ApplyNormalTokens(e: Endpoint, ts: set<Token>) returns (inserted: bool)
      modifies this`tokenToEndpoint, this`topology, this`bootstrapTokens, this`leaving, this`ringVersion, versions
      ensures tokenToEndpoint == WithTokens(old(tokenToEndpoint), e, ts)
      ensures inserted == InsertsNewKey(old(tokenToEndpoint), e, ts)
      ensures topology == old(topology) + {e}
      ensures bootstrapTokens == WithoutValue(old(bootstrapTokens), e)
      ensures leaving == old(leaving) - {e}
      ensures versions.value == old(versions.value) + 1 && ringVersion == versions.value
    {
      tokenToEndpoint := WithoutValue(tokenToEndpoint, e);
      topology := topology + {e};
      bootstrapTokens := WithoutValue(bootstrapTokens, e);
      leaving := leaving - {e};
      InvalidateCachedRings();
      inserted := InsertTokens(e, ts);
    }

    /** The insertion loop of `update_normal_tokens`: each token goes to `e`,
        noting whether any was a new key. */
    method InsertTokens(e: Endpoint, ts: set<Token>) returns (inserted: bool)
      modifies this`tokenToEndpoint
      ensures tokenToEndpoint == old(tokenToEndpoint) + map t | t in ts :: e
      ensures inserted <==> exists t :: t in ts && t !in old(tokenToEndpoint)
    {
      inserted := false;
      var rest := ts;
      while rest != {}
        invariant rest <= ts
        invariant tokenToEndpoint == old(tokenToEndpoint) + map t | t in ts - rest :: e
        invariant inserted <==> exists t :: t in ts - rest && t !in old(tokenToEndpoint)
        decreases |rest|
      {
        EmptyOrInhabited(rest);
        var t :| t in rest;
        // `insert` reports a new key; an existing entry changes owner to `e`
        var isNew := t !in tokenToEndpoint;
        inserted := inserted || isNew;
        tokenToEndpoint := tokenToEndpoint[t := e];
        rest := rest - {t};
      }
      assert ts - rest == ts;
    }

    /** `update_normal_tokens` over a map of endpoints, in its iteration
        order.  An endpoint with no tokens throws, leaving the entries before
        it applied; the tokens are re-sorted only when every entry was
        applied and some entry inserted a new key. */
    method UpdateNormalTokens(es: seq<Entry>) returns (r: Outcome)
      requires Valid()
      modifies this`tokenToEndpoint, this`topology, this`bootstrapTokens, this`leaving, this`ringVersion, this`sortedTokens, versions
      ensures Valid()
      ensures var k := ProcessedCount(es);
              (r.Fail? <==> k < |es|) &&
              tokenToEndpoint == NormalAfter(old(tokenToEndpoint), es[..k]) &&
              bootstrapTokens == BootstrapAfter(old(bootstrapTokens), es[..k]) &&
              leaving == old(leaving) - EndpointsOf(es[..k]) &&
              topology == old(topology) + EndpointsOf(es[..k]) &&
              versions.value == old(versions.value) + k &&
              ringVersion == (if k == 0 then old(ringVersion) else versions.value)
      ensures r.Pass? && SortNeeded(old(tokenToEndpoint), es) ==> forall t :: t in sortedTokens <==> t in tokenToEndpoint
      ensures !(r.Pass? && SortNeeded(old(tokenToEndpoint), es)) ==> sortedTokens == old(sortedTokens)
    {
      if es == [] {
        return Pass;
      }
      var k, shouldSort := ApplyEntries(es);
      if k < |es| {
        return Fail("runtime_error");
      }
      assert es[..k] == es;
      if shouldSort {
        SortTokens();
      }
      return Pass;
    }

    /** The loop of `update_normal_tokens`: apply the entries in order until
        one has no tokens. */
    method ApplyEntries(es: seq<Entry>) returns (k: nat, shouldSort: bool)
      modifies this`tokenToEndpoint, this`topology, this`bootstrapTokens, this`leaving, this`ringVersion, versions
      ensures k == ProcessedCount(es)
      ensures tokenToEndpoint == NormalAfter(old(tokenToEndpoint), es[..k])
      ensures bootstrapTokens == BootstrapAfter(old(bootstrapTokens), es[..k])
      ensures leaving == old(leaving) - EndpointsOf(es[..k])
      ensures topology == old(topology) + EndpointsOf(es[..k])
      ensures versions.value == old(versions.value) + k
      ensures ringVersion == (if k == 0 then old(ringVersion) else versions.value)
      ensures shouldSort == SortNeeded(old(tokenToEndpoint), es[..k])
    {
      ghost var m0, b0, l0, t0, v0 := tokenToEndpoint, bootstrapTokens, leaving, topology, versions.value;
      shouldSort := false;
      k := 0;
      while k < |es|
        invariant k <= ProcessedCount(es)
        invariant tokenToEndpoint == NormalAfter(m0, es[..k])
        invariant bootstrapTokens == BootstrapAfter(b0, es[..k])
        invariant leaving == l0 - EndpointsOf(es[..k])
        invariant topology == t0 + EndpointsOf(es[..k])
        invariant versions.value == v0 + k
        invariant ringVersion == (if k == 0 then old(ringVersion) else versions.value)
        invariant shouldSort == SortNeeded(m0, es[..k])
      {
        var e, ts := es[k].0, es[k].1;
        if ts == {} {
          return;
        }
        EntryStep(m0, b0, es, k);
        var inserted := ApplyNormalTokens(e, ts);
        shouldSort := shouldSort || inserted;
        k := k + 1;
      }
    }

    /** `update_normal_tokens(tokens, endpoint)`: nothing for no tokens. */
    method UpdateNormalTokensOf(ts: set<Token>, e: Endpoint) returns (r: Outcome)
      requires Valid()
      modifies this`tokenToEndpoint, this`topology, this`bootstrapTokens, this`leaving, this`ringVersion, this`sortedTokens, versions
      ensures Valid() && r.Pass?
      ensures ts == {} ==> tokenToEndpoint == old(tokenToEndpoint) && bootstrapTokens == old(bootstrapTokens) &&
                           leaving == old(leaving) && topology == old(topology) && ringVersion == old(ringVersion) &&
                           sortedTokens == old(sortedTokens)
      ensures ts != {} ==> tokenToEndpoint == WithTokens(old(tokenToEndpoint), e, ts) &&
                           bootstrapTokens == WithoutValue(old(bootstrapTokens), e) &&
                           leaving == old(leaving) - {e} && topology == old(topology) + {e}
      ensures ts != {} && InsertsNewKey(old(tokenToEndpoint), e, ts) ==> forall t :: t in sortedTokens <==> t in tokenToEndpoint
      ensures !(ts != {} && InsertsNewKey(old(tokenToEndpoint), e, ts)) ==> sortedTokens == old(sortedTokens)
    {
      if ts == {} {
        return Pass;
      }
      SingleEntry(tokenToEndpoint, bootstrapTokens, e, ts);
      assert [(e, ts)][..1] == [(e, ts)];
      r := UpdateNormalTokens([(e, ts)]);
    }

    /** `first_token_index`: the first sorted token not below `start`, or 0
        when every token is below it; an empty ring throws. */
    function FirstTokenIndex(start: Token): (r: Result<nat>)
      reads this
      ensures r.Err? <==> sortedTokens == []
      ensures r.Ok? ==> r.value < |sortedTokens|
      ensures r.Ok? ==> forall j :: 0 <= j < r.value ==> sortedTokens[j] < start
      ensures r.Ok? ==> sortedTokens[r.value] >= start || forall j :: 0 <= j < |sortedTokens| ==> sortedTokens[j] < start
    {
      if sortedTokens == [] then Err("runtime_error")
      else
        var i := LowerBound(sortedTokens, start);
        if i == |sortedTokens| then Ok(0) else Ok(i)
    }

    /** `get_predecessor`: the token before `t` on the ring, the last token
        for the first; `t` must be a sorted token. */
    function GetPredecessor(t: Token): (r: Result<Token>)
      requires Valid()
      reads this
      ensures r.Ok? <==> t in sortedTokens
      ensures r.Ok? ==> forall i :: 0 <= i < |sortedTokens| && sortedTokens[i] == t ==>
                                    r.value == (if i == 0 then sortedTokens[|sortedTokens| - 1] else sortedTokens[i - 1])
    {
      var i := LowerBound(sortedTokens, t);
      if i == |sortedTokens| || sortedTokens[i] != t then
        assert t !in sortedTokens by {
          forall j | 0 <= j < |sortedTokens| ensures sortedTokens[j] != t {
            if i < j {
              assert sortedTokens[i] < sortedTokens[j];
            }
          }
        }
        Err("runtime_error")
      else
        assert forall k :: 0 <= k < |sortedTokens| && sortedTokens[k] == t ==> k == i;
        Ok(if i == 0 then sortedTokens[|sortedTokens| - 1] else sortedTokens[i - 1])
    }

    /** `add_bootstrap_tokens`: refuse a token already bootstrapping or normal
        for another endpoint; otherwise the endpoint's bootstrap tokens become
        exactly `ts`. */
    method AddBootstrapTokens(ts: set<Token>, e: Endpoint) returns (r: Outcome)
      modifies this`bootstrapTokens
      ensures r.Fail? <==> exists t :: t in ts && BootstrapCollision(t, e)
      ensures r.Fail? ==> bootstrapTokens == old(bootstrapTokens)
      ensures r.Pass? ==> bootstrapTokens == WithTokens(old(bootstrapTokens), e, ts)
    {
      var rest := ts;
      while rest != {}
        invariant rest <= ts
        invariant bootstrapTokens == old(bootstrapTokens)
        invariant forall t :: t in ts - rest ==> !BootstrapCollision(t, e)
        decreases |rest|
      {
        EmptyOrInhabited(rest);
        var t :| t in rest;
        if t in bootstrapTokens && bootstrapTokens[t] != e {
          return Fail("runtime_error");
        }
        if t in tokenToEndpoint && tokenToEndpoint[t] != e {
          return Fail("runtime_error");
        }
        rest := rest - {t};
      }
      assert ts - rest == ts;
      bootstrapTokens := WithoutValue(bootstrapTokens, e);
      bootstrapTokens := bootstrapTokens + map t | t in ts :: e;
      return Pass;
    }

    predicate BootstrapCollision(t: Token, e: Endpoint)
      reads this
    {
      (t in bootstrapTokens && bootstrapTokens[t] != e) || (t in tokenToEndpoint && tokenToEndpoint[t] != e)
    }

    method AddBootstrapToken(t: Token, e: Endpoint) returns (r: Outcome)
      modifies this`bootstrapTokens
      ensures r.Fail? <==> BootstrapCollision(t, e)
      ensures r.Fail? ==> bootstrapTokens == old(bootstrapTokens)
      ensures r.Pass? ==> bootstrapTokens == WithTokens(old(bootstrapTokens), e, {t})
    {
      r := AddBootstrapTokens({t}, e);
    }

    /** `remove_bootstrap_tokens`: nothing for no tokens (a warning only). */
    method RemoveBootstrapTokens(ts: set<Token>)
      modifies this`bootstrapTokens
      ensures bootstrapTokens == old(bootstrapTokens) - ts
    {
      if ts == {} {
        return;
      }
      var rest := ts;
      while rest != {}
        invariant rest <= ts
        invariant bootstrapTokens == old(bootstrapTokens) - (ts - rest)
        decreases |rest|
      {
        EmptyOrInhabited(rest);
        var t :| t in rest;
        bootstrapTokens := bootstrapTokens - {t};
        rest := rest - {t};
      }
      assert ts - rest == ts;
    }

    method AddLeavingEndpoint(e: Endpoint)
      modifies this`leaving
      ensures leaving == old(leaving) + {e}
    {
      leaving := leaving + {e};
    }

    method DelLeavingEndpoint(e: Endpoint)
      modifies this`leaving
      ensures leaving == old(leaving) - {e}
    {
      leaving := leaving - {e};
    }

    method AddReplacingEndpoint(existing: Endpoint, replacement: Endpoint)
      modifies this`replacing
      ensures replacing == old(replacing)[existing := replacement]
    {
      replacing := replacing[existing := replacement];
    }

    method DelReplacingEndpoint(existing: Endpoint)
      modifies this`replacing
      ensures replacing == old(replacing) - {existing}
    {
      replacing := replacing - {existing};
    }

    /** `remove_endpoint`: forget every trace of the endpoint.  The sorted
        vector is left as it is (the public wrapper re-sorts it). */
    method RemoveEndpoint(e: Endpoint)
      modifies this`bootstrapTokens, this`tokenToEndpoint, this`topology, this`leaving, this`replacing, this`hostIds,
               this`ringVersion, versions
      ensures bootstrapTokens == WithoutValue(old(bootstrapTokens), e)
      ensures tokenToEndpoint == WithoutValue(old(tokenToEndpoint), e)
      ensures topology == old(topology) - {e}
      ensures leaving == old(leaving) - {e}
      ensures replacing == old(replacing) - {e}
      ensures hostIds == old(hostIds) - {e}
      ensures versions.value == old(versions.value) + 1 && ringVersion == versions.value
    {
      bootstrapTokens := WithoutValue(bootstrapTokens, e);
      tokenToEndpoint := WithoutValue(tokenToEndpoint, e);
      topology := topology - {e};
      leaving := leaving - {e};
      DelReplacingEndpoint(e);
      hostIds := hostIds - {e};
      InvalidateCachedRings();
    }

    /** `token_metadata::remove_endpoint`: remove, then re-sort. */
    method RemoveEndpointAndSort(e: Endpoint)
      modifies this`bootstrapTokens, this`tokenToEndpoint, this`topology, this`leaving, this`replacing, this`hostIds,
               this`ringVersion, this`sortedTokens, versions
      ensures Valid()
      ensures tokenToEndpoint == WithoutValue(old(tokenToEndpoint), e)
      ensures forall t :: t in sortedTokens <==> t in tokenToEndpoint
      ensures bootstrapTokens == WithoutValue(old(bootstrapTokens), e)
      ensures topology == old(topology) - {e} && leaving == old(leaving) - {e}
      ensures replacing == old(replacing) - {e} && hostIds == old(hostIds) - {e}
      ensures ringVersion == versions.value && versions.value == old(versions.value) + 1
    {
      RemoveEndpoint(e);
      SortTokens();
    }

    /** `ring_range(start)`: iterate the ring from the first token not below
        `start`; an empty ring throws. */
    method RingRange(start: Token) returns (r: Result<TokensIterator>)
      ensures r.Err? <==> sortedTokens == []
      ensures r.Ok? ==> r.value.Valid() && fresh(r.value) && r.value.tokens == sortedTokens &&
                        r.value.start == FirstTokenIndex(start).value && r.value.steps == 0
    {
      var first := FirstTokenIndex(start);
      if first.Err? {
        return Err(first.error);
      }
      var it := new TokensIterator(sortedTokens, first.value);
      return Ok(it);
    }

    /** Every token the ring walk from `start` yields, in order. */
    method RingWalk(start: Token) returns (r: Result<seq<Token>>)
      ensures r.Err? <==> sortedTokens == []
      ensures r.Ok? ==> r.value == Rotate(sortedTokens, FirstTokenIndex(start).value)
    {
      var range := RingRange(start);
      if range.Err? {
        return Err(range.error);
      }
      var it := range.value;
      var out := [];
      while !it.AtEnd()
        invariant it.Valid() && it.tokens == sortedTokens && it.start == FirstTokenIndex(start).value
        invariant |out| == it.steps
        invariant forall k :: 0 <= k < |out| ==> out[k] == sortedTokens[Wrap(it.start + k, |sortedTokens|)]
        decreases it.remaining
      {
        out := out + [it.Current()];
        it.Next();
      }
      forall k | 0 <= k < |out| ensures out[k] == Rotate(sortedTokens, it.start)[k] {
        RotateAt(sortedTokens, it.start, k);
      }
      return Ok(out);
    }
  }

  /** `token_metadata::tokens_iterator`: a position in the sorted tokens and
      the count of tokens still to visit. */
  class TokensIterator {
    const tokens: seq<Token>
    var cur: nat
    var remaining: nat
    ghost const start: nat
    ghost var steps: nat

    ghost predicate Valid()
      reads this
    {
      |tokens| > 0 && start < |tokens| && steps <= |tokens| &&
      cur == Wrap(start + steps, |tokens|) && remaining == |tokens| - steps
    }

    constructor (tokens: seq<Token>, first: nat)
      requires first < |tokens|
      ensures Valid() && this.tokens == tokens && start == first && steps == 0
    {
      this.tokens := tokens;
      cur := first;
      remaining := |tokens|;
      start := first;
      steps := 0;
    }

    /** Equal to the end iterator once no token remains. */
    predicate AtEnd()
      reads this
    {
      remaining == 0
    }

    function Current(): (t: Token)
      requires Valid()
      reads this
      ensures t == tokens[Wrap(start + steps, |tokens|)]
    {
      tokens[cur]
    }

    /** `operator++`: step to the next token, from the last back to the first. */
    method Next()
      requires Valid() && remaining > 0
      modifies this`cur, this`remaining, this`steps
      ensures Valid() && steps == old(steps) + 1
    {
      cur := cur + 1;
      if cur == |tokens| {
        cur := 0;
      }
      remaining := remaining - 1;
      steps := steps + 1;
    }
  }

  /** `shared_token_metadata`: the published token metadata. */
  class SharedTokenMetadata {
    var shared: TokenMetadataImpl

    constructor (initial: TokenMetadataImpl)
      ensures shared == initial
    {
      shared := initial;
    }

    /** `set`: a new metadata must carry a strictly newer ring version. */
    method Set(tm: TokenMetadataImpl) returns (r: Outcome)
      modifies this
      ensures r.Fail? <==> old(shared.ringVersion) >= tm.ringVersion
      ensures r.Fail? ==> shared == old(shared)
      ensures r.Pass? ==> shared == tm && old(shared.ringVersion) < shared.ringVersion
    {
      if shared.ringVersion >= tm.ringVersion {
        return Fail("on_internal_error");
      }
      shared := tm;
      return Pass;
    }
  }
}
