/** Model of the bookkeeping decisions of replica/distributed_loader.cc:
    which keyspaces are system or internal ones, how the shared sstables to
    be resharded are spread over the shards, how generation numbers for
    uploaded sstables are handed out per shard, and the highest generation
    and format version seen over all shards.

    The keyspace names are those of the `NAME` constants the source refers
    to (`system`, `system_schema`, `system_distributed`,
    `system_distributed_everywhere`, `system_auth`, `system_traces`). */
module DistributedLoader {
  import opened Util


  // ----- keyspace sets ------------------------------------------------------

  const SystemKeyspaces: set<string> := {"system", "system_schema"}

  const InternalKeyspaces: set<string> :=
    {"system_distributed", "system_distributed_everywhere", "system", "system_schema", "system_auth", "system_traces"}

  /** `is_system_keyspace`; every system keyspace is an internal one. */
  predicate IsSystemKeyspace(name: string)
    ensures IsSystemKeyspace(name) ==> IsInternalKeyspace(name)
  {
    name in SystemKeyspaces
  }

  /** `is_internal_keyspace`: every internal keyspace is named `system…`. */
  predicate IsInternalKeyspace(name: string)
    ensures IsInternalKeyspace(name) ==> |name| >= 6 && name[..6] == "system"
  {
    name in InternalKeyspaces
  }

  /** The system keyspaces are exactly `system` and `system_schema`, and both
      are internal. */
  lemma SystemKeyspacesAreInternal(name: string)
    ensures IsSystemKeyspace(name) <==> name == "system" || name == "system_schema"
    ensures IsSystemKeyspace(name) ==> IsInternalKeyspace(name)
  {
  }

  /** The file-level load-priority set, which may only grow before population starts. */
  class LoadPriority {
    var keyspaces: set<string>
    var populationStarted: bool

    constructor ()
      ensures keyspaces == {} && !populationStarted
    {
      keyspaces := {};
      populationStarted := false;
    }

    /** `mark_keyspace_as_load_prio` */
    method MarkKeyspaceAsLoadPrio(ks: string)
      requires !populationStarted
      modifies this
      ensures keyspaces == old(keyspaces) + {ks} && populationStarted == old(populationStarted)
      ensures IsLoadPrioKeyspace(ks)
    {
      keyspaces := keyspaces + {ks};
    }

    /** `is_load_prio_keyspace` */
    predicate IsLoadPrioKeyspace(name: string)
      reads this
    {
      name in keyspaces
    }
  }

  // ----- distributing reshard jobs ------------------------------------------

  /** A shared sstable to reshard (`foreign_sstable_open_info`), by its
      uncompressed data size. */
  datatype Job = Job(id: nat, size: nat)

  /** `reshard_shard_descriptor`: the jobs given to one shard and their total size. */
  datatype Descriptor = Descriptor(size: nat, jobs: seq<Job>)

  function SizeOf(jobs: seq<Job>): nat
  {
    if jobs == [] then 0 else SizeOf(jobs[..|jobs| - 1]) + jobs[|jobs| - 1].size
  }

  predicate Descending(jobs: seq<Job>)
  {
    forall i, j :: 0 <= i < j < |jobs| ==> jobs[i].size >= jobs[j].size
  }

  function InsertDescending(jobs: seq<Job>, x: Job): (r: seq<Job>)
    requires Descending(jobs)
    ensures |r| == |jobs| + 1
    ensures Descending(r) && multiset(r) == multiset(jobs) + multiset{x}
    ensures r[0] == x || (jobs != [] && r[0] == jobs[0])
  {
    if jobs == [] || x.size >= jobs[0].size then
      ConsDescending(x, jobs);
      [x] + jobs
    else
      assert jobs == [jobs[0]] + jobs[1..];
      var rest := InsertDescending(jobs[1..], x);
      ConsDescending(jobs[0], rest);
      [jobs[0]] + rest
  }

  lemma ConsDescending(h: Job, rest: seq<Job>)
    requires Descending(rest) && (rest != [] ==> h.size >= rest[0].size)
    ensures Descending([h] + rest)
  {
    var r := [h] + rest;
    forall i, j | 0 <= i < j < |r| ensures r[i].size >= r[j].size {
      if i == 0 && j > 1 {
        assert r[j] == rest[j - 1];
      }
    }
  }

  /** The sort on descending sizes. */
  function SortDescending(jobs: seq<Job>): (r: seq<Job>)
    ensures Descending(r) && multiset(r) == multiset(jobs)
  {
    if jobs == [] then []
    else
      assert jobs == [jobs[0]] + jobs[1..];
      InsertDescending(SortDescending(jobs[1..]), jobs[0])
  }

  /** `boost::min_element` by total size: the first shard with the least total. */
  function FirstSmallest(ds: seq<Descriptor>): (s: nat)
    requires ds != []
    ensures s < |ds|
    ensures forall t :: 0 <= t < |ds| ==> ds[s].size <= ds[t].size
    ensures forall t :: 0 <= t < s ==> ds[s].size < ds[t].size
  {
    if |ds| == 1 then 0
    else
      var s := FirstSmallest(ds[..|ds| - 1]);
      if ds[|ds| - 1].size < ds[s].size then |ds| - 1 else s
  }

  /** Placing one job on a shard. */
  function Place(ds: seq<Descriptor>, s: nat, job: Job): (r: seq<Descriptor>)
    requires s < |ds|
  {
    ds[s := Descriptor(ds[s].size + job.size, ds[s].jobs + [job])]
  }

  /** The placement loop of `distribute_reshard_jobs`, applied to the jobs in order. */
  function Distribute(ds: seq<Descriptor>, jobs: seq<Job>): (r: seq<Descriptor>)
    requires ds != []
    ensures |r| == |ds|
    decreases |jobs|
  {
    if jobs == [] then ds
    else Distribute(Place(ds, FirstSmallest(ds), jobs[0]), jobs[1..])
  }

  function Empty(shards: nat): (ds: seq<Descriptor>)
    ensures |ds| == shards && forall s :: 0 <= s < shards ==> ds[s] == Descriptor(0, [])
  {
    if shards == 0 then [] else Empty(shards - 1) + [Descriptor(0, [])]
  }

  /** `distribute_reshard_jobs`: sort the jobs by descending size, then give
      each to the first shard with the smallest total so far. */
  method DistributeReshardJobs(source: seq<Job>, shards: nat) returns (destinations: seq<Descriptor>)
    requires shards >= 1
    ensures destinations == Distribute(Empty(shards), SortDescending(source))
  {
    destinations := Empty(shards);
    var sorted := SortDescending(source);
    for i := 0 to |sorted|
      invariant |destinations| == shards
      invariant Distribute(Empty(shards), sorted) == Distribute(destinations, sorted[i..])
    {
      assert sorted[i..][1..] == sorted[i + 1..];
      var s := SmallestShard(destinations);
      destinations := Place(destinations, s, sorted[i]);
    }
  }

  /** `boost::min_element` as a scan. */
  method SmallestShard(ds: seq<Descriptor>) returns (s: nat)
    requires ds != []
    ensures s == FirstSmallest(ds)
  {
    s := 0;
    for i := 1 to |ds|
      invariant s == FirstSmallest(ds[..i])
    {
      assert ds[..i + 1][..i] == ds[..i];
      if ds[i].size < ds[s].size {
        s := i;
      }
    }
    assert ds[..|ds|] == ds;
  }

  /** Every descriptor's size is the total of its jobs. */
  predicate Consistent(ds: seq<Descriptor>)
  {
    forall s :: 0 <= s < |ds| ==> ds[s].size == SizeOf(ds[s].jobs)
  }

  /** All the jobs held by the descriptors, shard by shard. */
  function AllJobs(ds: seq<Descriptor>): multiset<Job>
  {
    if ds == [] then multiset{} else AllJobs(ds[..|ds| - 1]) + multiset(ds[|ds| - 1].jobs)
  }

  lemma {:induction false} AllJobsPlace(ds: seq<Descriptor>, s: nat, job: Job)
    requires s < |ds|
    ensures AllJobs(Place(ds, s, job)) == AllJobs(ds) + multiset{job}
  {
    if s == |ds| - 1 {
      AllJobsPlaceLast(ds, job);
    } else {
      AllJobsPlace(ds[..|ds| - 1], s, job);
      AllJobsPlaceBefore(ds, s, job);
    }
  }

  lemma AllJobsPlaceLast(ds: seq<Descriptor>, job: Job)
    requires ds != []
    ensures AllJobs(Place(ds, |ds| - 1, job)) == AllJobs(ds) + multiset{job}
  {
    var n := |ds| - 1;
    var p := Place(ds, n, job);
    var head, last := AllJobs(ds[..n]), multiset(ds[n].jobs);
    assert AllJobs(ds) == head + last;
    assert p[..n] == ds[..n];
    assert multiset(p[n].jobs) == last + multiset{job} by {
      assert p[n].jobs == ds[n].jobs + [job];
    }
    calc {
      AllJobs(p);
      AllJobs(p[..n]) + multiset(p[n].jobs);
      head + (last + multiset{job});
    }
  }

  lemma AllJobsPlaceBefore(ds: seq<Descriptor>, s: nat, job: Job)
    requires s < |ds| - 1
    requires AllJobs(Place(ds[..|ds| - 1], s, job)) == AllJobs(ds[..|ds| - 1]) + multiset{job}
    ensures AllJobs(Place(ds, s, job)) == AllJobs(ds) + multiset{job}
  {
    var n := |ds| - 1;
    PlaceSnoc(ds, s, job);
    AllJobsSnoc(Place(ds[..n], s, job), ds[n]);
  }

  /** Placing a job on a shard before the last leaves the last one alone. */
  lemma PlaceSnoc(ds: seq<Descriptor>, s: nat, job: Job)
    requires s < |ds| - 1
    ensures Place(ds, s, job) == Place(ds[..|ds| - 1], s, job) + [ds[|ds| - 1]]
  {
  }

  /** `AllJobs` of one more descriptor adds that descriptor's jobs. */
  lemma AllJobsSnoc(ds: seq<Descriptor>, d: Descriptor)
    ensures AllJobs(ds + [d]) == AllJobs(ds) + multiset(d.jobs)
  {
    assert (ds + [d])[..|ds|] == ds;
  }

  lemma ConsistentPlace(ds: seq<Descriptor>, s: nat, job: Job)
    requires s < |ds| && Consistent(ds)
    ensures Consistent(Place(ds, s, job))
  {
    var js := ds[s].jobs + [job];
    assert js[..|js| - 1] == ds[s].jobs;
  }

  /** Each job lands in exactly one descriptor, and each descriptor's size is
      the sum of its jobs' sizes. */
  lemma {:induction false} DistributePartitions(ds: seq<Descriptor>, jobs: seq<Job>)
    requires ds != [] && Consistent(ds)
    ensures Consistent(Distribute(ds, jobs))
    ensures AllJobs(Distribute(ds, jobs)) == AllJobs(ds) + multiset(jobs)
    decreases |jobs|
  {
    if jobs != [] {
      var s := FirstSmallest(ds);
      var p := Place(ds, s, jobs[0]);
      ConsistentPlace(ds, s, jobs[0]);
      AllJobsPlace(ds, s, jobs[0]);
      DistributePartitions(p, jobs[1..]);
      assert jobs == [jobs[0]] + jobs[1..];
    }
  }

  function MaxSize(ds: seq<Descriptor>): (m: nat)
    requires ds != []
    ensures forall s :: 0 <= s < |ds| ==> ds[s].size <= m
    ensures exists s :: 0 <= s < |ds| && ds[s].size == m
  {
    if |ds| == 1 then ds[0].size
    else
      var m := MaxSize(ds[..|ds| - 1]);
      if ds[|ds| - 1].size > m then ds[|ds| - 1].size else m
  }

  /** No shard's total exceeds another's by more than `largest`. */
  predicate Balanced(ds: seq<Descriptor>, largest: nat)
  {
    forall s, t :: 0 <= s < |ds| && 0 <= t < |ds| ==> ds[s].size <= ds[t].size + largest
  }

  /** The greedy placement keeps the shards balanced: no shard's total
      exceeds another's by more than the largest job. */
  lemma {:induction false} DistributeBalanced(ds: seq<Descriptor>, jobs: seq<Job>, largest: nat)
    requires ds != []
    requires forall i :: 0 <= i < |jobs| ==> jobs[i].size <= largest
    requires Balanced(ds, largest)
    ensures Balanced(Distribute(ds, jobs), largest)
    decreases |jobs|
  {
    if jobs != [] {
      var m := FirstSmallest(ds);
      var p := Place(ds, m, jobs[0]);
      forall s, t | 0 <= s < |p| && 0 <= t < |p| ensures p[s].size <= p[t].size + largest {
        assert ds[m].size <= ds[t].size;
      }
      DistributeBalanced(p, jobs[1..], largest);
    }
  }

  /** `run_resharding_jobs` does nothing when there is nothing to reshard. */
  function TotalSize(ds: seq<Descriptor>): nat
  {
    if ds == [] then 0 else TotalSize(ds[..|ds| - 1]) + ds[|ds| - 1].size
  }

  predicate RunsResharding(ds: seq<Descriptor>)
  {
    TotalSize(ds) != 0
  }

  lemma {:induction false} NothingToReshard(ds: seq<Descriptor>)
    ensures !RunsResharding(ds) <==> forall s :: 0 <= s < |ds| ==> ds[s].size == 0
  {
    if ds != [] {
      NothingToReshard(ds[..|ds| - 1]);
      assert forall s :: 0 <= s < |ds| - 1 ==> ds[..|ds| - 1][s] == ds[s];
    }
  }

  // ----- upload generations ---------------------------------------------------

  /** The per-shard generation counters used while loading uploaded
      sstables: shard `s` starts at `base * shards + s`, where
      `base = highest / shards + 1`, and each allocation adds `shards`. */
  class ShardGenerations {
    const shards: nat
    const highest: nat
    const next: array<int>

    predicate Valid()
      reads this, next
    {
      shards >= 1 && next.Length == shards &&
      forall s :: 0 <= s < shards ==> next[s] % shards == s && next[s] > highest
    }

    constructor (highest: nat, shards: nat)
      requires shards >= 1
      ensures Valid() && this.highest == highest && this.shards == shards && fresh(next)
      ensures forall s :: 0 <= s < shards ==> next[s] == (highest / shards + 1) * shards + s
    {
      this.highest := highest;
      this.shards := shards;
      var base := highest / shards + 1;
      var counters := new int[shards];
      for s := 0 to shards
        invariant forall t :: 0 <= t < s ==> counters[t] == base * shards + t
      {
        counters[s] := base * shards + s;
      }
      next := counters;
      new;
      forall s | 0 <= s < shards ensures next[s] % shards == s && next[s] > highest {
        FirstGeneration(highest, shards, s);
      }
    }

    /** `shard_gen[shard].fetch_add(smp::count)`: the generation for a new
        sstable on `shard`. */
    method Allocate(shard: nat) returns (gen: int)
      requires Valid() && shard < shards
      modifies next
      ensures Valid()
      ensures gen == old(next[shard]) && gen % shards == shard && gen > highest
      ensures next[shard] == gen + shards
      ensures forall s :: 0 <= s < shards && s != shard ==> next[s] == old(next[s])
    {
      gen := next[shard];
      next[shard] := gen + shards;
      ModShift(gen, shards);
    }
  }

  lemma ModShift(g: int, n: nat)
    requires n >= 1
    ensures (g + n) % n == g % n
  {
    var q, r := g / n, g % n;
    assert g + n == (q + 1) * n + r;
    ModUnique(g + n, q + 1, r, n);
  }

  /** The first generation of every shard is above the highest seen and
      belongs to that shard. */
  lemma FirstGeneration(highest: nat, shards: nat, s: nat)
    requires shards >= 1 && s < shards
    ensures ((highest / shards + 1) * shards + s) % shards == s
    ensures (highest / shards + 1) * shards + s > highest
  {
    var base := highest / shards + 1;
    ModUnique((highest / shards + 1) * shards + s, base, s, shards);
    assert base * shards == (highest / shards) * shards + shards;
  }

  // ----- highest generation and version -------------------------------------

  /** `highest_generation_seen`: the maximum over the shards, seeded with 0. */
  function HighestGeneration(perShard: seq<nat>): (g: nat)
    ensures forall s :: 0 <= s < |perShard| ==> perShard[s] <= g
    ensures g == 0 || exists s :: 0 <= s < |perShard| && perShard[s] == g
  {
    if perShard == [] then 0
    else
      var rest := HighestGeneration(perShard[..|perShard| - 1]);
      if perShard[|perShard| - 1] > rest then perShard[|perShard| - 1] else rest
  }

  /** `highest_version_seen`: the maximum over the shards, seeded with the
      system's own format; versions are ordered as `sstable_version_types`. */
  function HighestVersion(perShard: seq<nat>, system: nat): (v: nat)
    ensures v >= system
    ensures forall s :: 0 <= s < |perShard| ==> perShard[s] <= v
    ensures v == system || exists s :: 0 <= s < |perShard| && perShard[s] == v
  {
    if perShard == [] then system
    else
      var rest := HighestVersion(perShard[..|perShard| - 1], system);
      if perShard[|perShard| - 1] > rest then perShard[|perShard| - 1] else rest
  }
}
