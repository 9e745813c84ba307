/** The reader concurrency semaphore: count and memory resources, the
    permits it hands out and their state machine (active/unused, used,
    blocked, waiting, inactive, evicted), admission from a FIFO wait list,
    inactive reads that may be evicted to free resources, and the
    queue-length guard. Futures, timers and the readers themselves are not
    modelled: a read is the id of its permit. */
module Semaphore {
  import opened Util

  // ----- resources ------------------------------------------------------------

  /** `reader_resources`: a count of readers and bytes of memory; both may
      go negative when a permit consumes beyond what is available. */
  datatype Resources = Resources(count: int, memory: int)

  const NoResources := Resources(0, 0)

  function Plus(a: Resources, b: Resources): Resources
  {
    Resources(a.count + b.count, a.memory + b.memory)
  }

  function Minus(a: Resources, b: Resources): Resources
  {
    Resources(a.count - b.count, a.memory - b.memory)
  }

  predicate AtLeast(a: Resources, b: Resources)
  {
    a.count >= b.count && a.memory >= b.memory
  }

  /** `reader_resources::operator bool`: some count or some memory left. */
  predicate NonEmpty(r: Resources)
  {
    r.count > 0 || r.memory > 0
  }

  /** `has_available_units`: enough of both resources, or no reader admitted
      at all (every count unit is back), in which case memory is not looked
      at so that a single large read can always make progress. */
  function HasAvailableUnits(available: Resources, initial: Resources, r: Resources): (ok: bool)
    ensures ok <==> (NonEmpty(available) && AtLeast(available, r)) || available.count == initial.count
    ensures available.count == initial.count ==> ok
    ensures !NonEmpty(available) && available.count != initial.count ==> !ok
  {
    (NonEmpty(available) && AtLeast(available, r)) || available.count == initial.count
  }

  // ----- permits ----------------------------------------------------------------

  datatype PermitState = ActiveUnused | ActiveUsed | ActiveBlocked | Waiting | Inactive | Evicted

  /** `reader_permit::impl`. `resources` is everything the permit holds,
      its base resources included once they are consumed; `alive` is false
      once the permit is destroyed and has left the permit list. */
  datatype Permit = Permit(alive: bool, base: Resources, baseConsumed: bool, resources: Resources,
                           state: PermitState, usedBranches: nat, markedUsed: bool,
                           blockedBranches: nat, markedBlocked: bool)

  /** The marks a permit reports to the semaphore agree with its state: it
      counts as used exactly when it is active and used or blocked, and as
      blocked exactly when it is blocked; a mark needs a branch behind it;
      a destroyed permit holds nothing and counts for nothing. */
  predicate Consistent(p: Permit)
  {
    p.markedUsed == (p.state == ActiveUsed || p.state == ActiveBlocked) &&
    p.markedBlocked == (p.state == ActiveBlocked) &&
    (p.markedUsed ==> p.usedBranches > 0) && (p.markedBlocked ==> p.blockedBranches > 0) &&
    (!p.alive ==> p.resources == NoResources && !p.markedUsed && !p.markedBlocked)
  }

  function NewPermit(base: Resources): (p: Permit)
    ensures Consistent(p) && p.alive && p.state == ActiveUnused && !p.baseConsumed && p.resources == NoResources
  {
    Permit(true, base, false, NoResources, ActiveUnused, 0, false, 0, false)
  }

  /** `on_permit_active`: used if some branch uses it, unused otherwise. */
  function OnPermitActive(p: Permit): (q: Permit)
    ensures q.state == (if p.usedBranches > 0 then ActiveUsed else ActiveUnused)
    ensures q.markedUsed == (p.usedBranches > 0 || p.markedUsed)
    ensures p.alive && !p.markedUsed && !p.markedBlocked ==> Consistent(q)
  {
    if p.usedBranches > 0 then p.(state := ActiveUsed, markedUsed := true)
    else p.(state := ActiveUnused)
  }

  /** `on_permit_inactive(st)`: the permit stops counting as used. */
  function OnPermitInactive(p: Permit, st: PermitState): (q: Permit)
    requires st == Waiting || st == Inactive
    requires p.state != ActiveBlocked
    ensures Consistent(p) ==> Consistent(q)
    ensures q.state == st && !q.markedUsed
  {
    p.(state := st, markedUsed := false)
  }

  /** `on_admission`: active again, and the base resources are consumed. */
  function OnAdmission(p: Permit): (q: Permit)
    requires p.alive && p.state != ActiveBlocked && !p.markedUsed && !p.markedBlocked
    ensures Consistent(q)
    ensures q.baseConsumed && q.resources == Plus(p.resources, p.base)
    ensures q.state == ActiveUsed || q.state == ActiveUnused
  {
    OnPermitActive(p).(resources := Plus(p.resources, p.base), baseConsumed := true)
  }

  /** `on_evicted`: legal only from `inactive`; the base resources go back. */
  function OnEvicted(p: Permit): (q: Permit)
    requires p.alive && p.state == Inactive
    ensures Consistent(p) ==> Consistent(q)
    ensures q.state == Evicted && !q.baseConsumed
    ensures q.resources == if p.baseConsumed then Minus(p.resources, p.base) else p.resources
  {
    p.(state := Evicted, baseConsumed := false,
       resources := if p.baseConsumed then Minus(p.resources, p.base) else p.resources)
  }

  /** `mark_used`: a first use of an unused active permit makes it used,
      and blocked too if some branch already blocked it. */
  function MarkUsed(p: Permit): (q: Permit)
    ensures Consistent(p) && p.alive ==> Consistent(q)
    ensures q.usedBranches == p.usedBranches + 1 && q.blockedBranches == p.blockedBranches
    ensures q.state != p.state ==> p.state == ActiveUnused && (q.state == ActiveUsed || q.state == ActiveBlocked)
    ensures q.state == ActiveBlocked && p.state != ActiveBlocked ==> p.blockedBranches > 0
  {
    var p1 := p.(usedBranches := p.usedBranches + 1);
    if !p.markedUsed && p.state == ActiveUnused then
      var p2 := p1.(state := ActiveUsed, markedUsed := true);
      if p.blockedBranches > 0 && !p.markedBlocked then p2.(state := ActiveBlocked, markedBlocked := true)
      else p2
    else p1
  }

  /** `mark_unused`. When the last used branch goes away the permit is
      unblocked too, whatever the order the guards were dropped in, so the
      semaphore never counts a blocked permit that is not used. */
  function MarkUnused(p: Permit): (q: Permit)
    requires p.usedBranches > 0
    ensures Consistent(p) ==> Consistent(q)
    ensures q.usedBranches == p.usedBranches - 1 && q.blockedBranches == p.blockedBranches
    ensures p.markedUsed && q.usedBranches == 0 ==> q.state == ActiveUnused && !q.markedUsed && !q.markedBlocked
    ensures !(p.markedUsed && q.usedBranches == 0) ==> q.state == p.state && q.markedUsed == p.markedUsed
  {
    var p1 := p.(usedBranches := p.usedBranches - 1);
    if p.markedUsed && p1.usedBranches == 0 then
      p1.(markedBlocked := false, state := ActiveUnused, markedUsed := false)
    else p1
  }

  /** `mark_blocked`: the first blocked branch of a used permit blocks it. */
  function MarkBlocked(p: Permit): (q: Permit)
    ensures Consistent(p) && p.alive ==> Consistent(q)
    ensures q.blockedBranches == p.blockedBranches + 1 && q.usedBranches == p.usedBranches
    ensures q.state != p.state ==> p.state == ActiveUsed && q.state == ActiveBlocked
    ensures q.state == ActiveBlocked ==> p.state == ActiveUsed || p.state == ActiveBlocked
  {
    var p1 := p.(blockedBranches := p.blockedBranches + 1);
    if p1.blockedBranches == 1 && p.state == ActiveUsed then p1.(state := ActiveBlocked, markedBlocked := true)
    else p1
  }

  /** `mark_unblocked`: the last blocked branch unblocks the permit. */
  function MarkUnblocked(p: Permit): (q: Permit)
    requires p.blockedBranches > 0
    ensures Consistent(p) ==> Consistent(q)
    ensures q.blockedBranches == p.blockedBranches - 1 && q.usedBranches == p.usedBranches
    ensures Consistent(p) && q.state != p.state ==> p.state == ActiveBlocked && q.state == ActiveUsed && q.blockedBranches == 0
  {
    var p1 := p.(blockedBranches := p.blockedBranches - 1);
    if p.markedBlocked && p1.blockedBranches == 0 then p1.(state := ActiveUsed, markedBlocked := false)
    else p1
  }

  // ----- sums over the permit table ---------------------------------------------

  function Total(ps: seq<Permit>): Resources
  {
    if ps == [] then NoResources
    else var rest := Total(ps[1..]); Resources(ps[0].resources.count + rest.count, ps[0].resources.memory + rest.memory)
  }

  function CountUsed(ps: seq<Permit>): nat
  {
    if ps == [] then 0 else (if ps[0].markedUsed then 1 else 0) + CountUsed(ps[1..])
  }

  function CountBlocked(ps: seq<Permit>): nat
  {
    if ps == [] then 0 else (if ps[0].markedBlocked then 1 else 0) + CountBlocked(ps[1..])
  }

  predicate AllConsistent(ps: seq<Permit>)
  {
    forall i :: 0 <= i < |ps| ==> Consistent(ps[i])
  }

  /** The semaphore's assertion `used_permits >= blocked_permits` holds of
      every table of consistent permits. */
  lemma {:induction false} BlockedWithinUsed(ps: seq<Permit>)
    requires AllConsistent(ps)
    ensures CountBlocked(ps) <= CountUsed(ps)
  {
    if ps != [] {
      BlockedWithinUsed(ps[1..]);
    }
  }

  /** Destroyed permits hold nothing. */
  lemma {:induction false} AllDestroyedHoldNothing(ps: seq<Permit>)
    requires AllConsistent(ps) && forall i :: 0 <= i < |ps| ==> !ps[i].alive
    ensures Total(ps) == NoResources && CountUsed(ps) == 0
  {
    if ps != [] {
      AllDestroyedHoldNothing(ps[1..]);
    }
  }

  lemma {:induction false} SumsUpdate(ps: seq<Permit>, i: nat, q: Permit)
    requires i < |ps|
    ensures Plus(Total(ps[i := q]), ps[i].resources) == Plus(Total(ps), q.resources)
    ensures CountUsed(ps[i := q]) + (if ps[i].markedUsed then 1 else 0) == CountUsed(ps) + (if q.markedUsed then 1 else 0)
    ensures CountBlocked(ps[i := q]) + (if ps[i].markedBlocked then 1 else 0) == CountBlocked(ps) + (if q.markedBlocked then 1 else 0)
  {
    if i > 0 {
      SumsUpdate(ps[1..], i - 1, q);
      assert ps[i := q][1..] == ps[1..][i - 1 := q];
    }
  }

  lemma {:induction false} SumsAppend(ps: seq<Permit>, q: Permit)
    ensures Total(ps + [q]) == Plus(Total(ps), q.resources)
    ensures CountUsed(ps + [q]) == CountUsed(ps) + (if q.markedUsed then 1 else 0)
    ensures CountBlocked(ps + [q]) == CountBlocked(ps) + (if q.markedBlocked then 1 else 0)
  {
    if ps != [] {
      SumsAppend(ps[1..], q);
      assert (ps + [q])[1..] == ps[1..] + [q];
    }
  }

  // ----- queues -------------------------------------------------------------------

  /** A wait-list or ready-list entry: the permit, and whether a read
      function comes with it (`with_permit`) or only a promise
      (`obtain_permit`). */
  datatype Entry = Entry(id: nat, hasFunc: bool)

  datatype Admission = Admitted | Enqueued | Rejected(error: string)

  /** Why an inactive read is evicted; only permit-based evictions are
      counted here (time-based ones come from a timer not modelled). */
  datatype EvictReason = PermitEviction | TimeEviction | ManualEviction

  /** A reader registered as inactive; `kept` is false when it was evicted
      on the spot and the handle is empty. */
  datatype InactiveHandle = InactiveHandle(id: nat, kept: bool)

  /** `reader_permit::resource_units`: resources a permit holds on behalf of
      one user, given back on destruction. */
  datatype ResourceUnits = ResourceUnits(permit: nat, resources: Resources)

  /** A permit id names a permit that is still in the permit list. */
  predicate Live(ps: seq<Permit>, id: nat)
  {
    id < |ps| && ps[id].alive
  }

  predicate InState(ps: seq<Permit>, id: nat, st: PermitState)
  {
    Live(ps, id) && ps[id].state == st
  }

  predicate DistinctEntries(es: seq<Entry>)
  {
    forall a, b :: 0 <= a < b < |es| ==> es[a].id != es[b].id
  }

  predicate DistinctIds(ids: seq<nat>)
  {
    forall a, b :: 0 <= a < b < |ids| ==> ids[a] != ids[b]
  }

  /** `b` is `a` after some waiting permits were admitted. */
  predicate AdmittedFrom(a: seq<Permit>, b: seq<Permit>)
  {
    |a| == |b| &&
    forall k :: 0 <= k < |a| ==>
      b[k] == a[k] ||
      (a[k].alive && a[k].state == Waiting && !a[k].markedUsed && !a[k].markedBlocked && b[k] == OnAdmission(a[k]))
  }

  /** The entries that carry a read function, in order. */
  function Filtered(es: seq<Entry>): seq<Entry>
  {
    if es == [] then [] else Filtered(es[..|es| - 1]) + (if es[|es| - 1].hasFunc then [es[|es| - 1]] else [])
  }

  lemma FilteredSnoc(es: seq<Entry>, x: Entry)
    ensures Filtered(es + [x]) == Filtered(es) + (if x.hasFunc then [x] else [])
  {
    assert (es + [x])[..|es|] == es;
  }

  /** Admission moves to the ready list only entries that were waiting. */
  lemma {:induction false} NotAdmitted(waiting: seq<Entry>, admitted: seq<Entry>, rest: seq<Entry>, id: nat)
    requires waiting == admitted + rest
    requires forall j :: 0 <= j < |waiting| ==> waiting[j].id != id
    ensures forall j :: 0 <= j < |Filtered(admitted)| ==> Filtered(admitted)[j].id != id
  {
    if admitted != [] {
      var n := |admitted| - 1;
      assert admitted == admitted[..n] + [admitted[n]];
      assert waiting == admitted[..n] + ([admitted[n]] + rest);
      assert admitted[n] == waiting[n];
      NotAdmitted(waiting, admitted[..n], [admitted[n]] + rest, id);
    }
  }

  lemma MoveHead<T>(a: seq<T>, w: seq<T>)
    requires w != []
    ensures a + w == (a + [w[0]]) + w[1..]
  {
    assert w == [w[0]] + w[1..];
  }

  /** Where `x` sits in `s`. */
  function IndexIn(s: seq<nat>, x: nat): (j: nat)
    requires x in s
    ensures j < |s| && s[j] == x
  {
    if s[0] == x then 0 else 1 + IndexIn(s[1..], x)
  }

  lemma RemoveAt<T>(s: seq<T>, j: nat)
    requires j < |s|
    ensures |s[..j] + s[j + 1..]| == |s| - 1
    ensures forall i :: 0 <= i < j ==> (s[..j] + s[j + 1..])[i] == s[i]
    ensures forall i :: j < i < |s| ==> (s[..j] + s[j + 1..])[i - 1] == s[i]
  {
  }

  /** Resources are conserved (what the semaphore has plus what the
      permits hold is the initial amount) and the used and blocked counters
      agree with the permits' marks. */
  predicate Accounting(initial: Resources, resources: Resources, ps: seq<Permit>, used: nat, blocked: nat)
  {
    AllConsistent(ps) && Plus(resources, Total(ps)) == initial &&
    used == CountUsed(ps) && blocked == CountBlocked(ps)
  }

  /** Every queued read names a live permit in the matching state, and no
      permit is queued twice. */
  predicate Queued(ps: seq<Permit>, wait: seq<Entry>, ready: seq<Entry>, inactive: seq<nat>)
  {
    DistinctEntries(wait) &&
    (forall k :: 0 <= k < |wait| ==> InState(ps, wait[k].id, Waiting)) &&
    (forall k :: 0 <= k < |ready| ==> Live(ps, ready[k].id)) &&
    DistinctIds(inactive) &&
    (forall k :: 0 <= k < |inactive| ==> InState(ps, inactive[k], Inactive))
  }

  lemma AccountingAppend(initial: Resources, resources: Resources, ps: seq<Permit>, used: nat, blocked: nat, base: Resources)
    requires Accounting(initial, resources, ps, used, blocked)
    ensures Accounting(initial, resources, ps + [NewPermit(base)], used, blocked)
  {
    var q := NewPermit(base);
    SumsAppend(ps, q);
    assert q.resources == NoResources && !q.markedUsed && !q.markedBlocked;
    assert Total(ps + [q]) == Total(ps) by {
      assert Plus(Total(ps), NoResources) == Total(ps);
    }
    ConsistentAppend(ps, q);
  }

  lemma ConsistentAppend(ps: seq<Permit>, q: Permit)
    requires AllConsistent(ps) && Consistent(q)
    ensures AllConsistent(ps + [q])
  {
    forall i | 0 <= i < |ps| + 1 ensures Consistent((ps + [q])[i]) {
      if i < |ps| {
        assert (ps + [q])[i] == ps[i];
      }
    }
  }

  lemma ConsistentUpdate(ps: seq<Permit>, k: nat, q: Permit)
    requires AllConsistent(ps) && Consistent(q) && k < |ps|
    ensures AllConsistent(ps[k := q])
  {
    var r := ps[k := q];
    forall i | 0 <= i < |r| ensures Consistent(r[i]) {
      if i != k {
        assert r[i] == ps[i];
      }
    }
  }

  lemma QueuedAppend(ps: seq<Permit>, wait: seq<Entry>, ready: seq<Entry>, inactive: seq<nat>, p: Permit)
    requires Queued(ps, wait, ready, inactive)
    ensures Queued(ps + [p], wait, ready, inactive)
  {
    assert forall i :: 0 <= i < |ps| ==> (ps + [p])[i] == ps[i];
  }

  lemma AccountingReplace(initial: Resources, resources: Resources, ps: seq<Permit>, used: nat, blocked: nat,
                          k: nat, q: Permit, spent: Resources)
    requires Accounting(initial, resources, ps, used, blocked)
    requires k < |ps| && Consistent(q) && q.resources == Plus(ps[k].resources, spent)
    ensures var used' := used - (if ps[k].markedUsed then 1 else 0) + (if q.markedUsed then 1 else 0);
            var blocked' := blocked - (if ps[k].markedBlocked then 1 else 0) + (if q.markedBlocked then 1 else 0);
            used' >= 0 && blocked' >= 0 &&
            Accounting(initial, Minus(resources, spent), ps[k := q], used', blocked')
  {
    SumsUpdate(ps, k, q);
    ConsistentUpdate(ps, k, q);
    var t, t' := Total(ps), Total(ps[k := q]);
    assert t'.count == t.count - ps[k].resources.count + q.resources.count;
    assert t'.memory == t.memory - ps[k].resources.memory + q.resources.memory;
    assert Plus(Minus(resources, spent), t') == initial;
  }

  lemma AccountingUnlink(initial: Resources, resources: Resources, ps: seq<Permit>, used: nat, blocked: nat, k: nat)
    requires Accounting(initial, resources, ps, used, blocked)
    requires k < |ps| && ps[k].resources == NoResources && !ps[k].markedUsed && !ps[k].markedBlocked
    ensures Accounting(initial, resources, ps[k := ps[k].(alive := false)], used, blocked)
  {
    var q := ps[k].(alive := false);
    SumsUpdate(ps, k, q);
    ConsistentUpdate(ps, k, q);
    var t, t' := Total(ps), Total(ps[k := q]);
    assert t'.count == t.count && t'.memory == t.memory;
  }

  /** A permit that was not waiting, once marked waiting, may join the end
      of the wait list. */
  lemma QueuedEnqueue(ps: seq<Permit>, wait: seq<Entry>, ready: seq<Entry>, inactive: seq<nat>, k: nat, q: Permit, e: Entry)
    requires Queued(ps, wait, ready, inactive) && Live(ps, k)
    requires ps[k].state != Waiting && ps[k].state != Inactive && q.alive && q.state == Waiting && e.id == k
    ensures Queued(ps[k := q], wait + [e], ready, inactive)
  {
    assert forall j :: 0 <= j < |wait| ==> wait[j].id != k;
    assert forall j :: 0 <= j < |inactive| ==> inactive[j] != k;
    QueuedReplace(ps, wait, ready, inactive, k, q);
    var w := wait + [e];
    assert forall j :: 0 <= j < |wait| ==> w[j] == wait[j];
  }

  lemma QueuedReplace(ps: seq<Permit>, wait: seq<Entry>, ready: seq<Entry>, inactive: seq<nat>, k: nat, q: Permit)
    requires Queued(ps, wait, ready, inactive)
    requires k < |ps| && q.alive
    requires q.state != ps[k].state ==>
               (forall j :: 0 <= j < |wait| ==> wait[j].id != k) &&
               (forall j :: 0 <= j < |inactive| ==> inactive[j] != k)
    ensures Queued(ps[k := q], wait, ready, inactive)
  {
  }

  lemma QueuedUnlink(ps: seq<Permit>, wait: seq<Entry>, ready: seq<Entry>, inactive: seq<nat>, k: nat)
    requires Queued(ps, wait, ready, inactive) && k < |ps|
    requires forall j :: 0 <= j < |wait| ==> wait[j].id != k
    requires forall j :: 0 <= j < |ready| ==> ready[j].id != k
    requires forall j :: 0 <= j < |inactive| ==> inactive[j] != k
    ensures Queued(ps[k := ps[k].(alive := false)], wait, ready, inactive)
  {
  }

  class ReaderConcurrencySemaphore {
    const initial: Resources
    const maxQueueLength: nat
    var resources: Resources
    /** Every permit created so far, indexed by id; `_permit_list` is the
        live ones. */
    var permits: seq<Permit>
    var usedPermits: nat
    var blockedPermits: nat
    var waitList: seq<Entry>
    var readyList: seq<Entry>
    var inactiveReads: seq<nat>
    var readsAdmitted: nat
    var readsEnqueued: nat
    var readsShed: nat
    var permitBasedEvictions: nat

    /** Resources are conserved (what the semaphore has plus what the
        permits hold is the initial amount), the counters agree with the
        permits' marks, and every queued read names a live permit in the
        matching state. */
    ghost predicate Valid()
      reads this
    {
      Accounting(initial, resources, permits, usedPermits, blockedPermits) &&
      Queued(permits, waitList, readyList, inactiveReads)
    }

    /** The semaphore's own assertion. */
    lemma UsedAtLeastBlocked()
      requires Valid()
      ensures usedPermits >= blockedPermits
    {
      BlockedWithinUsed(permits);
    }

    /** Once every permit is destroyed, all resources are back and no
        permit counts as used. */
    lemma AllDestroyedAllReturned()
      requires Valid() && forall i :: 0 <= i < |permits| ==> !permits[i].alive
      ensures resources == initial && usedPermits == 0
    {
      AllDestroyedHoldNothing(permits);
    }

    constructor (count: int, memory: int, maxQueueLength: nat)
      ensures Valid()
      ensures initial == Resources(count, memory) && resources == initial && this.maxQueueLength == maxQueueLength
      ensures permits == [] && waitList == [] && readyList == [] && inactiveReads == []
      ensures usedPermits == 0 && blockedPermits == 0
    {
      initial := Resources(count, memory);
      this.maxQueueLength := maxQueueLength;
      resources := Resources(count, memory);
      permits := [];
      usedPermits, blockedPermits := 0, 0;
      waitList, readyList, inactiveReads := [], [], [];
      readsAdmitted, readsEnqueued, readsShed, permitBasedEvictions := 0, 0, 0, 0;
    }

    function AvailableFor(r: Resources): bool
      reads this
    {
      HasAvailableUnits(resources, initial, r)
    }

    /** `all_used_permits_are_stalled`. */
    predicate AllUsedPermitsAreStalled()
      reads this
    {
      usedPermits == blockedPermits
    }

    /** The wait-list head may be admitted now. */
    predicate CanAdmitHead()
      reads this
    {
      waitList != [] && readyList == [] && waitList[0].id < |permits| &&
      AvailableFor(permits[waitList[0].id].base) && AllUsedPermitsAreStalled()
    }

    /** A new permit, not admitted yet (`on_permit_created`). */
    method MakePermit(base: Resources) returns (id: nat)
      requires Valid()
      modifies this`permits
      ensures Valid()
      ensures id == |old(permits)| && permits == old(permits) + [NewPermit(base)]
    {
      id := |permits|;
      AccountingAppend(initial, resources, permits, usedPermits, blockedPermits, base);
      QueuedAppend(permits, waitList, readyList, inactiveReads, NewPermit(base));
      permits := permits + [NewPermit(base)];
    }

    /** Replaces live permit `k` by `q`, which holds `spent` more, and
        adjusts the used and blocked counters by the permit's own marks, as
        `on_permit_used`/`unused`/`blocked`/`unblocked` do. */
    method Replace(k: nat, q: Permit, spent: Resources)
      requires Valid() && Live(permits, k) && q.alive && Consistent(q)
      requires q.resources == Plus(permits[k].resources, spent)
      requires q.state != permits[k].state ==>
                 (forall j :: 0 <= j < |waitList| ==> waitList[j].id != k) &&
                 (forall j :: 0 <= j < |inactiveReads| ==> inactiveReads[j] != k)
      modifies this`permits, this`resources, this`usedPermits, this`blockedPermits
      ensures permits == old(permits)[k := q] && resources == Minus(old(resources), spent)
      ensures usedPermits + (if old(permits)[k].markedUsed then 1 else 0) == old(usedPermits) + (if q.markedUsed then 1 else 0)
      ensures blockedPermits + (if old(permits)[k].markedBlocked then 1 else 0) == old(blockedPermits) + (if q.markedBlocked then 1 else 0)
      ensures Valid()
    {
      var p := permits[k];
      AccountingReplace(initial, resources, permits, usedPermits, blockedPermits, k, q, spent);
      QueuedReplace(permits, waitList, readyList, inactiveReads, k, q);
      permits := permits[k := q];
      resources := Minus(resources, spent);
      if p.markedBlocked && !q.markedBlocked { blockedPermits := blockedPermits - 1; }
      if p.markedUsed && !q.markedUsed { usedPermits := usedPermits - 1; }
      if !p.markedUsed && q.markedUsed { usedPermits := usedPermits + 1; }
      if !p.markedBlocked && q.markedBlocked { blockedPermits := blockedPermits + 1; }
    }

    // ----- resource units -----------------------------------------------------------

    /** `resource_units(permit, res)`: consumes on construction. */
    method ConsumeResources(id: nat, res: Resources) returns (u: ResourceUnits)
      requires Valid() && Live(permits, id)
      modifies this`permits, this`resources, this`usedPermits, this`blockedPermits
      ensures Valid()
      ensures u == ResourceUnits(id, res)
      ensures resources == Minus(old(resources), res)
      ensures permits == old(permits)[id := old(permits)[id].(resources := Plus(old(permits)[id].resources, res))]
    {
      Replace(id, permits[id].(resources := Plus(permits[id].resources, res)), res);
      u := ResourceUnits(id, res);
    }

    /** `reader_permit::signal`, then `maybe_admit_waiters`. */
    method Signal(id: nat, res: Resources)
      requires Valid() && Live(permits, id)
      modifies this
      ensures Valid()
      ensures AdmittedFrom(old(permits)[id := old(permits)[id].(resources := Minus(old(permits)[id].resources, res))], permits)
    {
      Replace(id, permits[id].(resources := Minus(permits[id].resources, res)), Minus(NoResources, res));
      ghost var admitted := MaybeAdmitWaiters();
    }

    /** `resource_units::reset(res)`: the new amount is consumed before the
        old one is given back. */
    method ResetUnits(u: ResourceUnits, res: Resources) returns (v: ResourceUnits)
      requires Valid() && Live(permits, u.permit)
      modifies this
      ensures Valid()
      ensures v == ResourceUnits(u.permit, res)
      ensures |permits| == |old(permits)| && Live(permits, u.permit)
    {
      var w := ConsumeResources(u.permit, res);
      if NonEmpty(u.resources) {
        Signal(u.permit, u.resources);
      }
      v := w;
    }

    /** `~resource_units`: gives its resources back. */
    method ReleaseUnits(u: ResourceUnits)
      requires Valid() && Live(permits, u.permit)
      modifies this
      ensures Valid()
      ensures |permits| == |old(permits)| && Live(permits, u.permit)
    {
      if NonEmpty(u.resources) {
        var v := ResetUnits(u, NoResources);
      }
    }

    // ----- branch marks ---------------------------------------------------------------

    /** `mark_used`; a permit that becomes blocked may let a waiter in. */
    method MarkPermitUsed(id: nat)
      requires Valid() && Live(permits, id)
      modifies this
      ensures Valid()
      ensures AdmittedFrom(old(permits)[id := MarkUsed(old(permits)[id])], permits)
    {
      var p := permits[id];
      var q := MarkUsed(p);
      Replace(id, q, NoResources);
      if q.markedBlocked && !p.markedBlocked {
        ghost var admitted := MaybeAdmitWaiters();
      }
    }

    /** `mark_unused`; a permit that stops being used may let a waiter in. */
    method MarkPermitUnused(id: nat)
      requires Valid() && Live(permits, id) && permits[id].usedBranches > 0
      modifies this
      ensures Valid()
      ensures AdmittedFrom(old(permits)[id := MarkUnused(old(permits)[id])], permits)
    {
      var p := permits[id];
      var q := MarkUnused(p);
      Replace(id, q, NoResources);
      if p.markedUsed && !q.markedUsed {
        ghost var admitted := MaybeAdmitWaiters();
      }
    }

    /** `mark_blocked`; a permit that becomes blocked may let a waiter in. */
    method MarkPermitBlocked(id: nat)
      requires Valid() && Live(permits, id)
      modifies this
      ensures Valid()
      ensures AdmittedFrom(old(permits)[id := MarkBlocked(old(permits)[id])], permits)
    {
      var p := permits[id];
      var q := MarkBlocked(p);
      Replace(id, q, NoResources);
      if q.markedBlocked && !p.markedBlocked {
        ghost var admitted := MaybeAdmitWaiters();
      }
    }

    /** `mark_unblocked`. */
    method MarkPermitUnblocked(id: nat)
      requires Valid() && Live(permits, id) && permits[id].blockedBranches > 0
      modifies this`permits, this`resources, this`usedPermits, this`blockedPermits
      ensures Valid()
      ensures permits == old(permits)[id := MarkUnblocked(old(permits)[id])]
      ensures blockedPermits <= old(blockedPermits) && usedPermits == old(usedPermits)
    {
      Replace(id, MarkUnblocked(permits[id]), NoResources);
    }

    // ----- admission -------------------------------------------------------------------

    /** `check_queue_size`: a full queue sheds the read. */
    method CheckQueueSize() returns (r: Outcome)
      modifies this`readsShed
      ensures r.Fail? <==> |waitList| + |readyList| >= maxQueueLength
      ensures readsShed == old(readsShed) + (if r.Fail? then 1 else 0)
    {
      if |waitList| + |readyList| >= maxQueueLength {
        readsShed := readsShed + 1;
        return Fail("queue overload");
      }
      return Pass;
    }

    /** `enqueue_waiter`. */
    method EnqueueWaiter(e: Entry) returns (r: Admission)
      requires Valid() && Live(permits, e.id)
      requires permits[e.id].state == ActiveUnused || permits[e.id].state == Evicted
      modifies this`permits, this`resources, this`usedPermits, this`blockedPermits
      modifies this`waitList, this`readsEnqueued, this`readsShed
      ensures Valid()
      ensures r == Enqueued || r.Rejected?
      ensures r.Rejected? <==> |old(waitList)| + |old(readyList)| >= maxQueueLength
      ensures r == Enqueued ==> waitList == old(waitList) + [e] && readsEnqueued == old(readsEnqueued) + 1
      ensures r == Enqueued ==> permits == old(permits)[e.id := OnPermitInactive(old(permits)[e.id], Waiting)]
      ensures r.Rejected? ==> waitList == old(waitList) && permits == old(permits)
    {
      var check := CheckQueueSize();
      if check.Fail? {
        return Rejected(check.error);
      }
      var q := OnPermitInactive(permits[e.id], Waiting);
      QueuedEnqueue(permits, waitList, readyList, inactiveReads, e.id, q, e);
      Replace(e.id, q, NoResources);
      waitList := waitList + [e];
      readsEnqueued := readsEnqueued + 1;
      return Enqueued;
    }

    /** One admission from the head of the wait list (`on_admission`). */
    method AdmitHead() returns (x: Entry)
      requires Valid() && waitList != []
      modifies this`permits, this`resources, this`usedPermits, this`blockedPermits
      modifies this`waitList, this`readyList, this`readsAdmitted
      ensures Valid()
      ensures x == old(waitList)[0] && waitList == old(waitList)[1..]
      ensures readsAdmitted == old(readsAdmitted) + 1
      ensures readyList == old(readyList) + (if x.hasFunc then [x] else [])
      ensures AdmittedFrom(old(permits), permits)
    {
      x := waitList[0];
      var p := permits[x.id];
      waitList := waitList[1..];
      Replace(x.id, OnAdmission(p), p.base);
      readsAdmitted := readsAdmitted + 1;
      if x.hasFunc {
        readyList := readyList + [x];
      }
    }

    /** `maybe_admit_waiters`: admits from the head of the wait list, in
        order, while nothing is ready to run, the head's base resources
        are available and every used permit is blocked. */
    method MaybeAdmitWaiters() returns (ghost admitted: seq<Entry>)
      requires Valid()
      modifies this`permits, this`resources, this`usedPermits, this`blockedPermits
      modifies this`waitList, this`readyList, this`readsAdmitted
      ensures Valid()
      ensures old(waitList) == admitted + waitList
      ensures !CanAdmitHead()
      ensures readsAdmitted == old(readsAdmitted) + |admitted|
      ensures readyList == old(readyList) + Filtered(admitted)
      ensures AdmittedFrom(old(permits), permits)
    {
      admitted := [];
      while CanAdmitHead()
        invariant Valid()
        invariant old(waitList) == admitted + waitList
        invariant readsAdmitted == old(readsAdmitted) + |admitted|
        invariant readyList == old(readyList) + Filtered(admitted)
        invariant AdmittedFrom(old(permits), permits)
        decreases |waitList|
      {
        ghost var before := waitList;
        var x := AdmitHead();
        MoveHead(admitted, before);
        FilteredSnoc(admitted, x);
        admitted := admitted + [x];
      }
    }

    /** `with_ready_permit`: the ready queue is bounded like the wait queue. */
    method WithReadyPermit(e: Entry) returns (r: Admission)
      requires Valid() && Live(permits, e.id)
      modifies this`readsShed, this`readyList
      ensures Valid()
      ensures r == Admitted || r.Rejected?
      ensures r.Rejected? <==> |waitList| + |old(readyList)| >= maxQueueLength
      ensures r == Admitted ==> readyList == old(readyList) + [e] && readsShed == old(readsShed)
      ensures r.Rejected? ==> readyList == old(readyList) && readsShed == old(readsShed) + 1
    {
      var check := CheckQueueSize();
      if check.Fail? {
        return Rejected(check.error);
      }
      readyList := readyList + [e];
      return Admitted;
    }

    /** `do_wait_admission`: a read is admitted at once only if nobody is
        queued, its base resources are available and every used permit is
        blocked; otherwise it queues, and a lack of resources also starts
        evicting inactive reads. */
    method DoWaitAdmission(e: Entry) returns (r: Admission)
      requires Valid() && Live(permits, e.id)
      requires permits[e.id].state == ActiveUnused || permits[e.id].state == Evicted
      modifies this
      ensures Valid()
      ensures old(waitList != [] || readyList != [] || !AvailableFor(permits[e.id].base) || !AllUsedPermitsAreStalled()) ==>
                r != Admitted
      ensures old(waitList != [] || readyList != []) ==>
                (r == Enqueued <==> old(|waitList| + |readyList|) < maxQueueLength) &&
                (r == Enqueued ==> waitList == old(waitList) + [e])
      ensures old(waitList == [] && readyList == [] && AvailableFor(permits[e.id].base) && AllUsedPermitsAreStalled()) &&
              (!e.hasFunc || maxQueueLength > 0) ==>
                r == Admitted
      ensures r == Admitted ==> readsAdmitted == old(readsAdmitted) + 1
      ensures r == Admitted ==> permits == old(permits)[e.id := OnAdmission(old(permits)[e.id])]
      ensures r == Admitted && e.hasFunc ==> readyList == [e]
      ensures r == Admitted && !e.hasFunc ==> readyList == old(readyList)
    {
      var p := permits[e.id];
      if waitList != [] || readyList != [] {
        r := EnqueueWaiter(e);
        return;
      }
      if !AvailableFor(p.base) {
        r := EnqueueWaiter(e);
        if inactiveReads != [] {
          EvictReadersInBackground();
        }
        return;
      }
      if !AllUsedPermitsAreStalled() {
        r := EnqueueWaiter(e);
        return;
      }
      Replace(e.id, OnAdmission(p), p.base);
      readsAdmitted := readsAdmitted + 1;
      if e.hasFunc {
        r := WithReadyPermit(e);
        if r.Rejected? {
          return;
        }
      }
      r := Admitted;
    }

    /** `obtain_permit`: a new permit that waits for admission. */
    method ObtainPermit(base: Resources) returns (id: nat, r: Admission)
      requires Valid()
      modifies this
      ensures Valid()
      ensures id == |old(permits)|
      ensures old(waitList != [] || readyList != []) ==> r != Admitted
      ensures r == Admitted ==> readyList == old(readyList)
    {
      id := MakePermit(base);
      r := DoWaitAdmission(Entry(id, false));
    }

    /** `with_permit`: a new permit holding one count unit and `memory`
        bytes, whose read function runs once admitted. */
    method WithPermit(memory: nat) returns (id: nat, r: Admission)
      requires Valid()
      modifies this
      ensures Valid()
      ensures id == |old(permits)|
      ensures old(waitList != [] || readyList != []) ==> r != Admitted
      ensures r == Admitted ==> readyList == [Entry(id, true)]
    {
      id := MakePermit(Resources(1, memory));
      r := DoWaitAdmission(Entry(id, true));
    }

    /** `make_tracking_only_permit`: a permit with no base resources that
        is never queued. */
    method MakeTrackingOnlyPermit() returns (id: nat)
      requires Valid()
      modifies this`permits
      ensures Valid()
      ensures id == |old(permits)| && permits == old(permits) + [NewPermit(NoResources)]
    {
      id := MakePermit(NoResources);
    }

    // ----- inactive reads --------------------------------------------------------------

    /** `register_inactive_read`: the read is kept only while no one waits
        and memory is left; otherwise it is evicted on the spot. */
    method RegisterInactiveRead(id: nat) returns (h: InactiveHandle)
      requires Valid() && Live(permits, id)
      requires permits[id].state == ActiveUnused || permits[id].state == ActiveUsed
      modifies this
      ensures Valid()
      ensures h.id == id
      ensures h.kept ==> waitList == [] && resources.memory > 0 && inactiveReads == old(inactiveReads) + [id]
      ensures h.kept ==> permitBasedEvictions == old(permitBasedEvictions)
      ensures !h.kept ==> inactiveReads == old(inactiveReads) && permitBasedEvictions == old(permitBasedEvictions) + 1
      ensures InState(permits, id, if h.kept then Inactive else Evicted)
    {
      var p := permits[id];
      var q := OnPermitInactive(p, Inactive);
      Replace(id, q, NoResources);
      if p.markedUsed {
        ghost var admitted := MaybeAdmitWaiters();
      }
      if waitList == [] && resources.memory > 0 {
        inactiveReads := inactiveReads + [id];
        return InactiveHandle(id, true);
      }
      EvictPermit(id);
      permitBasedEvictions := permitBasedEvictions + 1;
      return InactiveHandle(id, false);
    }

    /** `reader_permit::impl::on_evicted` on a permit no longer listed as
        an inactive read: the base resources go back to the semaphore,
        which may admit waiters. */
    method EvictPermit(id: nat)
      requires Valid() && InState(permits, id, Inactive)
      requires forall j :: 0 <= j < |inactiveReads| ==> inactiveReads[j] != id
      modifies this`permits, this`resources, this`usedPermits, this`blockedPermits
      modifies this`waitList, this`readyList, this`readsAdmitted
      ensures Valid()
      ensures AdmittedFrom(old(permits)[id := OnEvicted(old(permits)[id])], permits)
      ensures InState(permits, id, Evicted)
    {
      var p := permits[id];
      Replace(id, OnEvicted(p), if p.baseConsumed then Minus(NoResources, p.base) else NoResources);
      if p.baseConsumed {
        ghost var admitted := MaybeAdmitWaiters();
      }
    }

    /** Unlinks inactive read `j` from the list; its permit is unchanged. */
    method Detach(j: nat) returns (id: nat)
      requires Valid() && j < |inactiveReads|
      modifies this`inactiveReads
      ensures Valid()
      ensures id == old(inactiveReads[j]) && inactiveReads == old(inactiveReads[..j] + inactiveReads[j + 1..])
      ensures InState(permits, id, Inactive) && id !in inactiveReads
    {
      id := inactiveReads[j];
      RemoveAt(inactiveReads, j);
      inactiveReads := inactiveReads[..j] + inactiveReads[j + 1..];
    }

    /** `unregister_inactive_read`: a handle whose read was evicted in the
        meantime is empty and gives nothing back. */
    method UnregisterInactiveRead(h: InactiveHandle) returns (reader: Option<nat>)
      requires Valid()
      modifies this`permits, this`resources, this`usedPermits, this`blockedPermits, this`inactiveReads
      ensures Valid()
      ensures reader.Some? <==> h.kept && h.id in old(inactiveReads)
      ensures reader.Some? ==>
                reader.value == h.id && h.id !in inactiveReads && |inactiveReads| == |old(inactiveReads)| - 1 &&
                permits == old(permits)[h.id := OnPermitActive(old(permits)[h.id])]
      ensures reader.None? ==> inactiveReads == old(inactiveReads) && permits == old(permits)
    {
      if !h.kept || h.id !in inactiveReads {
        return None;
      }
      var j := IndexIn(inactiveReads, h.id);
      var id := Detach(j);
      Replace(id, OnPermitActive(permits[id]), NoResources);
      return Some(id);
    }

    /** `evict` (`detach_inactive_reader` then close): the permit gives its
        base resources back, which may admit waiters. */
    method Evict(j: nat, reason: EvictReason)
      requires Valid() && j < |inactiveReads|
      modifies this
      ensures Valid()
      ensures inactiveReads == old(inactiveReads[..j] + inactiveReads[j + 1..])
      ensures permitBasedEvictions == old(permitBasedEvictions) + (if reason == PermitEviction then 1 else 0)
      ensures |permits| == |old(permits)| && InState(permits, old(inactiveReads[j]), Evicted)
    {
      var id := Detach(j);
      EvictPermit(id);
      if reason == PermitEviction {
        permitBasedEvictions := permitBasedEvictions + 1;
      }
    }

    /** `try_evict_one_inactive_read`: evicts the oldest inactive read. */
    method TryEvictOneInactiveRead(reason: EvictReason) returns (evicted: bool)
      requires Valid()
      modifies this
      ensures Valid()
      ensures evicted <==> old(inactiveReads) != []
      ensures evicted ==> inactiveReads == old(inactiveReads[1..])
      ensures !evicted ==> inactiveReads == []
    {
      if inactiveReads == [] {
        return false;
      }
      Evict(0, reason);
      return true;
    }

    /** `evict_readers_in_background`, run to completion: evicts the oldest
        inactive reads until nobody waits or none is left. */
    method EvictReadersInBackground()
      requires Valid()
      modifies this
      ensures Valid()
      ensures waitList == [] || inactiveReads == []
      ensures |inactiveReads| <= |old(inactiveReads)|
      ensures permitBasedEvictions == old(permitBasedEvictions) + (|old(inactiveReads)| - |inactiveReads|)
    {
      while waitList != [] && inactiveReads != []
        invariant Valid()
        invariant |inactiveReads| <= |old(inactiveReads)|
        invariant permitBasedEvictions == old(permitBasedEvictions) + (|old(inactiveReads)| - |inactiveReads|)
        decreases |inactiveReads|
      {
        Evict(0, PermitEviction);
      }
    }

    // ----- destruction, execution, breaking ----------------------------------------------

    /** `~reader_permit::impl`: the base resources and anything the permit
        still holds go back, then the permit leaves the list. Branch guards
        and queue entries keep their permit alive, so none is left. */
    method DestroyPermit(id: nat)
      requires Valid() && Live(permits, id)
      requires permits[id].usedBranches == 0 && permits[id].blockedBranches == 0
      requires AtLeast(permits[id].resources, if permits[id].baseConsumed then permits[id].base else NoResources)
      requires permits[id].state != Waiting && permits[id].state != Inactive
      requires forall j :: 0 <= j < |readyList| ==> readyList[j].id != id
      modifies this
      ensures Valid()
      ensures |permits| == |old(permits)| && !permits[id].alive
    {
      var p := permits[id];
      if p.baseConsumed {
        GiveBack(id, p.(resources := Minus(p.resources, p.base), baseConsumed := false), p.base);
      }
      p := permits[id];
      if NonEmpty(p.resources) {
        GiveBack(id, p.(resources := NoResources), p.resources);
      }
      Unlink(id);
    }

    /** A signal on behalf of a permit that is being destroyed: `q` is the
        permit with `res` given back. */
    method GiveBack(id: nat, q: Permit, res: Resources)
      requires Valid() && Live(permits, id) && q.alive && Consistent(q) && q.state == permits[id].state
      requires q.resources == Minus(permits[id].resources, res)
      requires permits[id].state != Waiting
      requires forall j :: 0 <= j < |readyList| ==> readyList[j].id != id
      modifies this`permits, this`resources, this`usedPermits, this`blockedPermits
      modifies this`waitList, this`readyList, this`readsAdmitted
      ensures Valid()
      ensures AdmittedFrom(old(permits)[id := q], permits) && permits[id] == q
      ensures forall j :: 0 <= j < |readyList| ==> readyList[j].id != id
    {
      Replace(id, q, Minus(NoResources, res));
      ghost var waiting := waitList;
      ghost var admitted := MaybeAdmitWaiters();
      NotAdmitted(waiting, admitted, waitList, id);
    }

    /** `on_permit_destroyed`: the permit leaves the list. */
    method Unlink(id: nat)
      requires Valid() && Live(permits, id) && permits[id].resources == NoResources
      requires !permits[id].markedUsed && !permits[id].markedBlocked
      requires forall j :: 0 <= j < |waitList| ==> waitList[j].id != id
      requires forall j :: 0 <= j < |readyList| ==> readyList[j].id != id
      requires forall j :: 0 <= j < |inactiveReads| ==> inactiveReads[j] != id
      modifies this`permits
      ensures permits == old(permits)[id := old(permits)[id].(alive := false)]
      ensures Valid()
    {
      var q := permits[id].(alive := false);
      AccountingUnlink(initial, resources, permits, usedPermits, blockedPermits, id);
      QueuedUnlink(permits, waitList, readyList, inactiveReads, id);
      permits := permits[id := q];
    }

    /** One turn of `execution_loop`: the oldest ready read runs. */
    method PopReady() returns (e: Option<Entry>)
      requires Valid()
      modifies this`readyList
      ensures Valid()
      ensures e.None? <==> old(readyList) == []
      ensures e.Some? ==> old(readyList) == [e.value] + readyList
    {
      if readyList == [] {
        return None;
      }
      e := Some(readyList[0]);
      readyList := readyList[1..];
    }

    /** `broken`: every waiter fails and the wait list empties. */
    method Broken()
      requires Valid()
      modifies this`waitList
      ensures Valid() && waitList == []
    {
      waitList := [];
    }
  }
}
