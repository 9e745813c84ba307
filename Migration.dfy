/** Model of the schema-coordination decisions of
    service/migration_manager.cc: whether the live endpoints agree on the
    schema version, whether to pull a schema from an endpoint, how a group 0
    state id is generated, and how announcing a schema change through raft
    retries and fails.  Gossip, messaging and raft themselves are
    parameters. */
module Migration {
  import opened Util

  // ----- schema agreement --------------------------------------------------

  /** What gossip knows of an endpoint: liveness and its SCHEMA state. */
  datatype EndpointState = EndpointState(alive: bool, schema: Option<nat>)

  /** An endpoint whose schema counts: not this node, and alive. */
  predicate Counted(endpoints: map<nat, EndpointState>, self: nat, e: nat)
    requires e in endpoints
  {
    e != self && endpoints[e].alive
  }

  /** Agreement: a lone endpoint is this node; otherwise every counted
      endpoint publishes our version and at least one endpoint is counted. */
  predicate SchemaAgreement(endpoints: map<nat, EndpointState>, self: nat, ourVersion: nat)
  {
    |endpoints| == 1 ||
    ((forall e :: e in endpoints && Counted(endpoints, self, e) ==> endpoints[e].schema == Some(ourVersion)) &&
     (exists e :: e in endpoints && Counted(endpoints, self, e)))
  }

  /** `have_schema_agreement`: a walk over the endpoints in any order,
      stopping at the first counted endpoint without or with another version. */
  method HaveSchemaAgreement(endpoints: map<nat, EndpointState>, self: nat, ourVersion: nat) returns (agreed: bool)
    ensures agreed == SchemaAgreement(endpoints, self, ourVersion)
  {
    if |endpoints| == 1 {
      return true;
    }
    var matched := false;
    var rest := endpoints.Keys;
    while rest != {}
      invariant rest <= endpoints.Keys
      invariant forall e :: e in endpoints && e !in rest && Counted(endpoints, self, e) ==> endpoints[e].schema == Some(ourVersion)
      invariant matched <==> exists e :: e in endpoints && e !in rest && Counted(endpoints, self, e)
      decreases |rest|
    {
      var e :| e in rest;
      rest := rest - {e};
      if e == self || !endpoints[e].alive {
        continue;
      }
      if endpoints[e].schema.None? || endpoints[e].schema.value != ourVersion {
        assert !(endpoints[e].schema == Some(ourVersion));
        return false;
      }
      matched := true;
    }
    return matched;
  }

  /** With another live endpoint at another version there is no agreement. */
  lemma DisagreementFound(endpoints: map<nat, EndpointState>, self: nat, ourVersion: nat, e: nat)
    requires |endpoints| != 1 && e in endpoints && e != self && endpoints[e].alive
    requires endpoints[e].schema != Some(ourVersion)
    ensures !SchemaAgreement(endpoints, self, ourVersion)
  {
  }

  /** Every endpoint but this node dead: no agreement, unless this node is
      the only endpoint. */
  lemma NoLivePeers(endpoints: map<nat, EndpointState>, self: nat, ourVersion: nat)
    requires forall e :: e in endpoints && e != self ==> !endpoints[e].alive
    ensures SchemaAgreement(endpoints, self, ourVersion) <==> |endpoints| == 1
  {
  }

  // ----- schema pulls -----------------------------------------------------------

  /** `should_pull_schema_from`: the endpoint publishes our schema-tables
      version and is not a gossip-only member. */
  predicate ShouldPullSchemaFrom(tablesVersion: Option<string>, ourTablesVersion: string, gossipOnly: bool)
  {
    tablesVersion == Some(ourTablesVersion) && !gossipOnly
  }

  datatype PullDecision = NoPull | SubmitNow | AfterDelay

  /** The first decision of `maybe_schedule_schema_pull`. */
  function SchemaPullDecision(ourVersion: nat, theirVersion: nat, shouldPull: bool,
                              emptyVersion: nat, uptime: int, migrationDelay: int): (d: PullDecision)
    ensures d == NoPull <==> ourVersion == theirVersion || !shouldPull
    ensures d == SubmitNow <==> ourVersion != theirVersion && shouldPull && (ourVersion == emptyVersion || uptime < migrationDelay)
  {
    if ourVersion == theirVersion || !shouldPull then NoPull
    else if ourVersion == emptyVersion || uptime < migrationDelay then SubmitNow
    else AfterDelay
  }

  /** The check after the delay: the endpoint's state, then its SCHEMA
      state, must still exist and still differ from ours. */
  function RecheckAfterDelay(state: Option<EndpointState>, ourVersion: nat): (submit: bool)
    ensures submit <==> state.Some? && state.value.schema.Some? && state.value.schema.value != ourVersion
  {
    match state
    case None => false
    case Some(s) => s.schema.Some? && s.schema.value != ourVersion
  }

  /** No pull is scheduled from an endpoint with an incompatible
      schema-tables version or one that only gossips. */
  lemma NoPullFromIncompatible(tablesVersion: Option<string>, ourTablesVersion: string, gossipOnly: bool,
                               ourVersion: nat, theirVersion: nat, emptyVersion: nat, uptime: int, migrationDelay: int)
    requires tablesVersion != Some(ourTablesVersion) || gossipOnly
    ensures SchemaPullDecision(ourVersion, theirVersion, ShouldPullSchemaFrom(tablesVersion, ourTablesVersion, gossipOnly),
                               emptyVersion, uptime, migrationDelay) == NoPull
  {
  }

  // ----- group 0 state ids --------------------------------------------------

  /** A group 0 state id: the nil id, or a time UUID with its microsecond
      timestamp. */
  datatype StateId = NilId | TimeId(micros: int, node: nat)

  /** `generate_group0_state_id`: the clock reading `now`, raised above the
      previous id's timestamp when it is not already above it. */
  function GenerateGroup0StateId(prev: StateId, now: int, node: nat): (r: StateId)
    ensures r.TimeId? && r.node == node
    ensures prev.TimeId? ==> r.micros > prev.micros
    ensures r.micros >= now
    ensures r.micros == now || (prev.TimeId? && r.micros == prev.micros + 1)
  {
    if prev.TimeId? && now <= prev.micros then TimeId(prev.micros + 1, node) else TimeId(now, node)
  }

  /** The ids of successive changes, each generated from the one before, for
      the clock readings `clock`. */
  function Chain(prev: StateId, clock: seq<int>, node: nat): (ids: seq<StateId>)
    ensures |ids| == |clock|
    ensures forall k :: 0 <= k < |ids| ==> ids[k].TimeId?
    decreases |clock|
  {
    if clock == [] then []
    else var id := GenerateGroup0StateId(prev, clock[0], node); [id] + Chain(id, clock[1..], node)
  }

  /** The ids of successive changes strictly increase in time, whatever the
      clock does. */
  lemma {:induction false} ChainIncreasing(prev: StateId, clock: seq<int>, node: nat)
    ensures var ids := Chain(prev, clock, node);
      (prev.TimeId? && ids != [] ==> ids[0].micros > prev.micros) &&
      (forall k :: 0 < k < |ids| ==> ids[k - 1].micros < ids[k].micros)
    decreases |clock|
  {
    if clock != [] {
      var id := GenerateGroup0StateId(prev, clock[0], node);
      ChainIncreasing(id, clock[1..], node);
    }
  }

  // ----- announcing through raft ----------------------------------------

  /** What `add_entry` did with the command. */
  datatype AddEntryOutcome = EntryApplied | DroppedEntry | CommitStatusUnknown | NotALeader

  predicate Retryable(o: AddEntryOutcome)
  {
    o == DroppedEntry || o == CommitStatusUnknown
  }

  /** How `announce_with_raft` ends: applied after some tries, failed with
      the rethrown error, or still retrying when the outcomes run out. */
  datatype RaftAnnounce = Committed(tries: nat) | Rethrown(error: string) | Retrying

  /** `announce_with_raft`: `add_entry` is tried again after a dropped entry
      or an unknown commit status; `not_a_leader` is rethrown.  `outcomes`
      are the results of successive `add_entry` calls. */
  method AnnounceWithRaft(outcomes: seq<AddEntryOutcome>) returns (r: RaftAnnounce)
    ensures r.Committed? <==> exists k :: 0 <= k < |outcomes| && outcomes[k] == EntryApplied && forall p :: 0 <= p < k ==> Retryable(outcomes[p])
    ensures r.Committed? ==> (1 <= r.tries <= |outcomes| && outcomes[r.tries - 1] == EntryApplied &&
      forall p :: 0 <= p < r.tries - 1 ==> Retryable(outcomes[p]))
    ensures r.Rethrown? ==> (r.error == "not_a_leader" &&
      exists k :: 0 <= k < |outcomes| && outcomes[k] == NotALeader && forall p :: 0 <= p < k ==> Retryable(outcomes[p]))
    ensures r == Retrying <==> forall p :: 0 <= p < |outcomes| ==> Retryable(outcomes[p])
  {
    var i := 0;
    var retry := true;
    while retry && i < |outcomes|
      invariant 0 <= i <= |outcomes|
      invariant forall p :: 0 <= p < i ==> Retryable(outcomes[p])
      invariant retry
      decreases |outcomes| - i
    {
      retry := false;
      match outcomes[i] {
        case EntryApplied =>
          return Committed(i + 1);
        case NotALeader =>
          return Rethrown("not_a_leader");
        case DroppedEntry =>
          retry := true;
        case CommitStatusUnknown =>
          retry := true;
      }
      i := i + 1;
    }
    return Retrying;
  }

  /** `announce` under raft: only shard 0 announces, and a change that
      raft applied but the group 0 history does not hold was skipped for a
      concurrent modification. */
  function AnnounceOutcome(shard: nat, raftResult: RaftAnnounce, historyHoldsNewId: bool): (o: Outcome)
    requires !raftResult.Retrying?
    ensures o == Pass <==> shard == 0 && raftResult.Committed? && historyHoldsNewId
    ensures shard == 0 && raftResult.Committed? && !historyHoldsNewId ==> o == Fail("group0_concurrent_modification")
  {
    if shard != 0 then Fail("announce: must run on shard 0")
    else match raftResult
      case Rethrown(e) => Fail(e)
      case Committed(_) => if historyHoldsNewId then Pass else Fail("group0_concurrent_modification")
  }
}
