/** Model of the file bookkeeping of sstables/sstable_directory.cc: which
    directory entries the component lister sees, how a shard's scan of a
    table directory classifies component files, what it schedules for
    removal (files of sstables with a temporary TOC, sstables without a
    TOC, temporary statistics), the highest generation it reports, how the
    unshared local list is rebuilt after reshaping, how shared sstables are
    bucketed into reshard jobs, and the pending-delete log. */
module SstableDirectory {
  import opened Util
  import opened Text

  // ----- lister filter ---------------------------------------------------------

  datatype EntryType = RegularFile | DirectoryEntry | OtherEntryType

  /** A directory entry; the file system may not report its type. */
  datatype DirEntry = DirEntry(name: string, entryType: Option<EntryType>)

  /** `manifest_json_filter`: true keeps the entry. Exactly the
      non-directory `manifest.json` and `schema.cql` entries are rejected,
      and an entry of unknown type counts as a regular file. */
  predicate ManifestJsonFilter(entry: DirEntry)
    ensures !ManifestJsonFilter(entry) <==>
      (entry.entryType != Some(DirectoryEntry) && (entry.name == "manifest.json" || entry.name == "schema.cql"))
    ensures entry.entryType.None? ==>
      (ManifestJsonFilter(entry) <==> entry.name != "manifest.json" && entry.name != "schema.cql")
  {
    var t := if entry.entryType.Some? then entry.entryType.value else RegularFile;
    !(t != DirectoryEntry && (entry.name == "manifest.json" || entry.name == "schema.cql"))
  }

  // ----- scanning a directory --------------------------------------------------

  datatype Component = TOC | TemporaryTOC | TemporaryStatistics | OtherComponent

  /** What `entry_descriptor::make_descriptor` extracts from a file name. */
  datatype EntryDescriptor = EntryDescriptor(generation: nat, component: Component)

  /** One file of the directory: its parsed name and its path. */
  datatype DirFile = DirFile(desc: EntryDescriptor, path: string)

  /** An entry of the `generations_found` multimap. */
  datatype FileRef = FileRef(generation: nat, path: string)

  /** The scan state: `generations_found` (a multimap, so kept ordered by
      generation with equal generations in insertion order), the
      generations with a TOC (`descriptors`), `temp_toc_found`, and the
      directory's `_files_for_removal`. */
  datatype Scan = Scan(found: seq<FileRef>, tocs: set<nat>, tempTocs: seq<nat>, removal: set<string>)

  predicate GenerationSorted(found: seq<FileRef>)
  {
    forall i, j :: 0 <= i < j < |found| ==> found[i].generation <= found[j].generation
  }

  /** `multimap::emplace`: after every entry with a generation not above the new one. */
  function InsertFile(found: seq<FileRef>, f: FileRef): (r: seq<FileRef>)
    ensures |r| == |found| + 1
    ensures multiset(r) == multiset(found) + multiset{f}
    ensures r[0] == f || (found != [] && r[0] == found[0])
  {
    if found == [] || f.generation < found[0].generation then [f] + found
    else
      assert found == [found[0]] + found[1..];
      [found[0]] + InsertFile(found[1..], f)
  }

  /** Emplacing keeps the multimap ordered by generation. */
  lemma {:induction false} InsertFileSorted(found: seq<FileRef>, f: FileRef)
    requires GenerationSorted(found)
    ensures GenerationSorted(InsertFile(found, f))
  {
    if found != [] && f.generation >= found[0].generation {
      var rest := InsertFile(found[1..], f);
      InsertFileSorted(found[1..], f);
      assert rest[0].generation >= found[0].generation;
      var r := [found[0]] + rest;
      forall i, j | 0 <= i < j < |r|
        ensures r[i].generation <= r[j].generation
      {
        if i > 0 {
          assert r[i] == rest[i - 1] && r[j] == rest[j - 1];
        } else if j > 1 {
          assert r[j] == rest[j - 1];
        }
      }
    }
  }

  /** `handle_component`: files of other shards' generations are skipped;
      every other file is recorded, and its component routes it. */
  function Handle(st: Scan, file: DirFile, shard: nat, smp: nat): (r: Scan)
    requires smp >= 1
    ensures file.desc.generation % smp != shard ==> r == st
    ensures file.desc.generation % smp == shard ==>
      (multiset(r.found) == multiset(st.found) + multiset{FileRef(file.desc.generation, file.path)} &&
       r.tocs == (if file.desc.component == TOC then st.tocs + {file.desc.generation} else st.tocs) &&
       r.tempTocs == (if file.desc.component == TemporaryTOC then st.tempTocs + [file.desc.generation] else st.tempTocs) &&
       r.removal == (if file.desc.component == TemporaryStatistics then st.removal + {file.path} else st.removal))
  {
    var g := file.desc.generation;
    if g % smp != shard then st
    else
      var st' := st.(found := InsertFile(st.found, FileRef(g, file.path)));
      match file.desc.component
      case TemporaryStatistics => st'.(removal := st'.removal + {file.path})
      case TOC => st'.(tocs := st'.tocs + {g})
      case TemporaryTOC => st'.(tempTocs := st'.tempTocs + [g])
      case OtherComponent => st'
  }

  /** The lister loop: every file handled in directory order. */
  function ScanFrom(st: Scan, files: seq<DirFile>, shard: nat, smp: nat): Scan
    requires smp >= 1
    decreases |files|
  {
    if files == [] then st else ScanFrom(Handle(st, files[0], shard, smp), files[1..], shard, smp)
  }

  /** The files of `files` whose generation belongs to `shard`. */
  function Mine(files: seq<DirFile>, shard: nat, smp: nat): multiset<FileRef>
    requires smp >= 1
  {
    if files == [] then multiset{}
    else
      (if files[0].desc.generation % smp == shard then multiset{FileRef(files[0].desc.generation, files[0].path)} else multiset{})
      + Mine(files[1..], shard, smp)
  }

  /** The scan records exactly this shard's files, ordered by generation. */
  lemma {:induction false} ScanRecordsMine(st: Scan, files: seq<DirFile>, shard: nat, smp: nat)
    requires smp >= 1 && GenerationSorted(st.found)
    ensures multiset(ScanFrom(st, files, shard, smp).found) == multiset(st.found) + Mine(files, shard, smp)
    ensures GenerationSorted(ScanFrom(st, files, shard, smp).found)
    decreases |files|
  {
    if files != [] {
      var g := files[0].desc.generation;
      if g % smp == shard {
        InsertFileSorted(st.found, FileRef(g, files[0].path));
      }
      ScanRecordsMine(Handle(st, files[0], shard, smp), files[1..], shard, smp);
    }
  }

  // ----- after the scan ---------------------------------------------------------

  /** The entries of one generation, as a set of paths (`equal_range`). */
  function PathsOf(found: seq<FileRef>, g: nat): (ps: set<string>)
    ensures forall i :: 0 <= i < |found| && found[i].generation == g ==> found[i].path in ps
  {
    if found == [] then {}
    else (if found[0].generation == g then {found[0].path} else {}) + PathsOf(found[1..], g)
  }

  /** `generations_found.erase(equal_range(g))`. */
  function Without(found: seq<FileRef>, g: nat): (r: seq<FileRef>)
    ensures forall i :: 0 <= i < |r| ==> r[i].generation != g
    ensures forall f :: f in found && f.generation != g ==> f in r
    ensures forall f :: f in r ==> f in found
  {
    if found == [] then []
    else if found[0].generation == g then Without(found[1..], g)
    else [found[0]] + Without(found[1..], g)
  }

  /** One temporary-TOC generation: all its files are scheduled for removal
      and it leaves both the file map and the descriptors. */
  function DropTempToc(st: Scan, g: nat): Scan
  {
    st.(found := Without(st.found, g), tocs := st.tocs - {g}, removal := st.removal + PathsOf(st.found, g))
  }

  function DropTempTocsFrom(st: Scan, gs: seq<nat>): Scan
    decreases |gs|
  {
    if gs == [] then st else DropTempTocsFrom(DropTempToc(st, gs[0]), gs[1..])
  }

  /** After the temporary-TOC pass no file of a temporary-TOC generation is
      left, each of their files is scheduled for removal, every other file
      stays, and nothing is unscheduled. */
  lemma {:induction false} DropTempTocsEffect(st: Scan, gs: seq<nat>)
    ensures var r := DropTempTocsFrom(st, gs);
      (forall f :: f in r.found ==> f in st.found && f.generation !in gs) &&
      (forall f :: f in st.found && f.generation !in gs ==> f in r.found) &&
      (forall f :: f in st.found && f.generation in gs ==> f.path in r.removal) &&
      st.removal <= r.removal &&
      r.tocs == st.tocs - set g | g in gs
    decreases |gs|
  {
    if gs != [] {
      var d := DropTempToc(st, gs[0]);
      DropTempTocsEffect(d, gs[1..]);
      forall f | f in st.found && f.generation == gs[0] ensures f.path in d.removal {
        var i :| 0 <= i < |st.found| && st.found[i] == f;
      }
    }
  }

  /** The `boost::accumulate` of `std::max` over the remaining generations, from 0. */
  function MaxGeneration(found: seq<FileRef>): (m: nat)
    ensures forall i :: 0 <= i < |found| ==> found[i].generation <= m
    ensures m == 0 || exists i :: 0 <= i < |found| && found[i].generation == m
  {
    if found == [] then 0
    else
      var rest := MaxGeneration(found[1..]);
      if found[0].generation > rest then found[0].generation else rest
  }

  /** The files whose generation has no TOC, once every TOC generation has
      been erased by the descriptor pass. */
  function Missing(found: seq<FileRef>, tocs: set<nat>): (r: seq<FileRef>)
    ensures forall f :: f in r <==> f in found && f.generation !in tocs
  {
    if found == [] then []
    else if found[0].generation in tocs then Missing(found[1..], tocs)
    else [found[0]] + Missing(found[1..], tocs)
  }

  function AllPaths(found: seq<FileRef>): (ps: set<string>)
    ensures forall f :: f in found ==> f.path in ps
  {
    if found == [] then {} else {found[0].path} + AllPaths(found[1..])
  }

  function MissingTocMessage(dir: string, path: string): string
  {
    "At directory: " + dir + ": no TOC found for SSTable " + path + "!. Refusing to boot"
  }

  /** The outcome of the missing-TOC pass and the removal set after it. */
  function MissingTocOutcome(missing: seq<FileRef>, removal: set<string>, dir: string, throwOnMissingToc: bool): (Outcome, set<string>)
  {
    if missing == [] then (Pass, removal)
    else if throwOnMissingToc then (Fail(MissingTocMessage(dir, missing[0].path)), removal)
    else (Pass, removal + AllPaths(missing))
  }

  /** Files of a generation without a TOC make the scan fail when
      `throw_on_missing_toc` is set, and are otherwise scheduled for removal. */
  lemma MissingTocHandling(found: seq<FileRef>, tocs: set<nat>, removal: set<string>, dir: string, throwOnMissingToc: bool)
    ensures var (o, rem) := MissingTocOutcome(Missing(found, tocs), removal, dir, throwOnMissingToc);
      (o.Fail? <==> throwOnMissingToc && exists f :: f in found && f.generation !in tocs) &&
      removal <= rem &&
      (!throwOnMissingToc ==> forall f :: f in found && f.generation !in tocs ==> f.path in rem)
  {
    var m := Missing(found, tocs);
    if m != [] {
      assert m[0] in m;
    }
  }

  // ----- the directory ----------------------------------------------------------

  class SstableDirectoryState {
    const dir: string
    const shard: nat
    const smp: nat
    var filesForRemoval: set<string>
    var maxGenerationSeen: nat
    /** `_unshared_local_sstables`, by sstable identity. */
    var unsharedLocal: seq<nat>

    constructor (dir: string, shard: nat, smp: nat)
      requires smp >= 1 && shard < smp
      ensures this.dir == dir && this.shard == shard && this.smp == smp
      ensures filesForRemoval == {} && maxGenerationSeen == 0 && unsharedLocal == []
    {
      this.dir := dir;
      this.shard := shard;
      this.smp := smp;
      filesForRemoval := {};
      maxGenerationSeen := 0;
      unsharedLocal := [];
    }

    /** `process_sstable_dir` without the loading of each sstable: scan the
        files, drop temporary-TOC generations, record the highest generation,
        erase the TOC generations and deal with the files left. */
    method ProcessSstableDir(files: seq<DirFile>, throwOnMissingToc: bool) returns (o: Outcome)
      requires smp >= 1
      modifies this`filesForRemoval, this`maxGenerationSeen
      ensures var kept := Kept(ScanFrom(Scan([], {}, [], old(filesForRemoval)), files, shard, smp));
        maxGenerationSeen == MaxGeneration(kept.found) &&
        (o, filesForRemoval) == MissingTocOutcome(Missing(kept.found, kept.tocs), kept.removal, dir, throwOnMissingToc)
    {
      var scanned := ScanFiles(Scan([], {}, [], filesForRemoval), files, shard, smp);
      var kept := DropTempTocs(scanned);
      maxGenerationSeen := MaxGenerationLoop(kept.found);
      o, filesForRemoval := RemoveMissingToc(Missing(kept.found, kept.tocs), kept.removal, dir, throwOnMissingToc);
    }

    /** `remove_input_sstables_from_reshaping`: rebuild the unshared local
        list without the reshaped inputs. */
    method RemoveInputSstablesFromReshaping(sstlist: seq<nat>)
      modifies this`unsharedLocal
      ensures unsharedLocal == KeepUnlisted(old(unsharedLocal), Listed(sstlist))
    {
      var exclude: set<nat> := {};
      for i := 0 to |sstlist|
        invariant forall x :: x in exclude <==> x in sstlist[..i]
      {
        assert sstlist[..i + 1] == sstlist[..i] + [sstlist[i]];
        exclude := exclude + {sstlist[i]};
      }
      assert sstlist[..|sstlist|] == sstlist;
      assert exclude == Listed(sstlist);
      unsharedLocal := KeepUnlistedLoop(unsharedLocal, exclude);
    }
  }

  function Listed(sstlist: seq<nat>): set<nat>
  {
    set x | x in sstlist
  }

  /** The scan after the temporary-TOC pass. */
  function Kept(scanned: Scan): Scan
  {
    DropTempTocsFrom(scanned, scanned.tempTocs)
  }

  /** The lister loop of `process_sstable_dir`. */
  method ScanFiles(init: Scan, files: seq<DirFile>, shard: nat, smp: nat) returns (st: Scan)
    requires smp >= 1
    ensures st == ScanFrom(init, files, shard, smp)
  {
    st := init;
    for i := 0 to |files|
      invariant ScanFrom(init, files, shard, smp) == ScanFrom(st, files[i..], shard, smp)
    {
      assert files[i..][1..] == files[i + 1..];
      st := Handle(st, files[i], shard, smp);
    }
  }

  /** The temporary-TOC loop of `process_sstable_dir`. */
  method DropTempTocs(scanned: Scan) returns (st: Scan)
    ensures st == Kept(scanned)
  {
    st := scanned;
    var temps := scanned.tempTocs;
    for i := 0 to |temps|
      invariant DropTempTocsFrom(scanned, temps) == DropTempTocsFrom(st, temps[i..])
    {
      assert temps[i..][1..] == temps[i + 1..];
      st := DropTempToc(st, temps[i]);
    }
  }

  /** The missing-TOC loop of `process_sstable_dir`. */
  method RemoveMissingToc(missing: seq<FileRef>, removal: set<string>, dir: string, throwOnMissingToc: bool)
    returns (o: Outcome, rem: set<string>)
    ensures (o, rem) == MissingTocOutcome(missing, removal, dir, throwOnMissingToc)
  {
    o, rem := Pass, removal;
    for j := 0 to |missing|
      invariant rem == (if throwOnMissingToc then removal else removal + AllPaths(missing[..j]))
      invariant throwOnMissingToc ==> j == 0
    {
      if throwOnMissingToc {
        o := Fail(MissingTocMessage(dir, missing[j].path));
        return;
      }
      AllPathsSnoc(missing[..j], missing[j]);
      assert missing[..j + 1] == missing[..j] + [missing[j]];
      rem := rem + {missing[j].path};
    }
    assert missing[..|missing|] == missing;
  }

  /** The rebuild loop of `remove_input_sstables_from_reshaping`. */
  method KeepUnlistedLoop(previous: seq<nat>, exclude: set<nat>) returns (kept: seq<nat>)
    ensures kept == KeepUnlisted(previous, exclude)
  {
    kept := [];
    for i := 0 to |previous|
      invariant kept == KeepUnlisted(previous[..i], exclude)
    {
      assert previous[..i + 1][..i] == previous[..i];
      if previous[i] !in exclude {
        kept := kept + [previous[i]];
      }
    }
    assert previous[..|previous|] == previous;
  }

  /** The `boost::accumulate` as a loop. */
  method MaxGenerationLoop(found: seq<FileRef>) returns (m: nat)
    ensures m == MaxGeneration(found)
  {
    m := 0;
    var i := |found|;
    while i > 0
      invariant 0 <= i <= |found|
      invariant m == MaxGeneration(found[i..])
    {
      i := i - 1;
      assert found[i..][1..] == found[i + 1..];
      if found[i].generation > m {
        m := found[i].generation;
      }
    }
  }

  lemma {:induction false} AllPathsSnoc(found: seq<FileRef>, f: FileRef)
    ensures AllPaths(found + [f]) == AllPaths(found) + {f.path}
  {
    if found != [] {
      AllPathsSnoc(found[1..], f);
      assert (found + [f])[1..] == found[1..] + [f];
    }
  }

  // ----- reshape removal -----------------------------------------------------------

  /** The old list without the excluded sstables, in the old order. */
  function KeepUnlisted(xs: seq<nat>, exclude: set<nat>): (r: seq<nat>)
    ensures |r| <= |xs|
  {
    if xs == [] then []
    else KeepUnlisted(xs[..|xs| - 1], exclude) + (if xs[|xs| - 1] in exclude then [] else [xs[|xs| - 1]])
  }

  /** The rebuilt list holds exactly the old sstables that are not excluded. */
  lemma {:induction false} KeepUnlistedMembers(xs: seq<nat>, exclude: set<nat>)
    ensures forall x :: x in KeepUnlisted(xs, exclude) <==> x in xs && x !in exclude
  {
    if xs != [] {
      var init := xs[..|xs| - 1];
      KeepUnlistedMembers(init, exclude);
      assert xs == init + [xs[|xs| - 1]];
    }
  }

  lemma KeepUnlistedSnoc(xs: seq<nat>, x: nat, exclude: set<nat>)
    ensures KeepUnlisted(xs + [x], exclude) == KeepUnlisted(xs, exclude) + (if x in exclude then [] else [x])
  {
    assert (xs + [x])[..|xs|] == xs;
  }

  /** Keeping the unlisted sstables of a concatenation keeps each part's in
      order: the rebuilt list preserves the old order. */
  lemma {:induction false} KeepUnlistedAppend(xs: seq<nat>, ys: seq<nat>, exclude: set<nat>)
    ensures KeepUnlisted(xs + ys, exclude) == KeepUnlisted(xs, exclude) + KeepUnlisted(ys, exclude)
    decreases |ys|
  {
    if ys == [] {
      assert xs + ys == xs;
    } else {
      var init, last := ys[..|ys| - 1], ys[|ys| - 1];
      var tail := if last in exclude then [] else [last];
      calc {
        KeepUnlisted(xs + ys, exclude);
        { assert xs + ys == (xs + init) + [last]; KeepUnlistedSnoc(xs + init, last, exclude); }
        KeepUnlisted(xs + init, exclude) + tail;
        { KeepUnlistedAppend(xs, init, exclude); }
        (KeepUnlisted(xs, exclude) + KeepUnlisted(init, exclude)) + tail;
        KeepUnlisted(xs, exclude) + (KeepUnlisted(init, exclude) + tail);
        { assert ys == init + [last]; KeepUnlistedSnoc(init, last, exclude); }
        KeepUnlisted(xs, exclude) + KeepUnlisted(ys, exclude);
      }
    }
  }

  // ----- reshard buckets -----------------------------------------------------------

  /** `num_jobs`: the number of jobs needed to keep to `maxPerJob` on average. */
  function NumJobs(n: nat, maxPerJob: nat): nat
    requires maxPerJob >= 1
  {
    (n + maxPerJob - 1) / maxPerJob
  }

  /** `sstables_per_job` */
  function PerJob(n: nat, maxPerJob: nat): nat
    requires n >= 1 && maxPerJob >= 1
  {
    n / NumJobs(n, maxPerJob)
  }

  lemma JobCounts(n: nat, maxPerJob: nat)
    requires n >= 1 && maxPerJob >= 1
    ensures 1 <= NumJobs(n, maxPerJob) <= n
    ensures 1 <= PerJob(n, maxPerJob) <= maxPerJob
    ensures PerJob(n, maxPerJob) * NumJobs(n, maxPerJob) <= n
  {
    var q := n + maxPerJob - 1;
    var j := q / maxPerJob;
    assert q == j * maxPerJob + q % maxPerJob && 0 <= q % maxPerJob < maxPerJob;
    NumJobsBounds(n, maxPerJob, j, q % maxPerJob);
    var p := n / j;
    assert n == p * j + n % j && 0 <= n % j < j;
    PerJobBounds(n, maxPerJob, j, p, n % j);
  }

  /** The ceiling quotient `j` of `n` by `m` lies in `[1, n]` and `j * m` covers `n`. */
  lemma NumJobsBounds(n: int, m: int, j: int, r: int)
    requires n >= 1 && m >= 1
    requires n + m - 1 == j * m + r && 0 <= r < m
    ensures 1 <= j <= n && j * m >= n
  {
    if j <= 0 {
      MulMonotoneInt(j, 0, m);
    }
    if j > n {
      MulMonotoneInt(n + 1, j, m);
      assert n * m >= n by { MulMonotoneInt(1, m, n); }
    }
  }

  /** The floor quotient `p` of `n` by `j` lies in `[1, m]` when `j * m >= n`. */
  lemma PerJobBounds(n: int, m: int, j: int, p: int, s: int)
    requires 1 <= j <= n && j * m >= n
    requires n == p * j + s && 0 <= s < j
    ensures 1 <= p <= m && p * j <= n
  {
    if p <= 0 {
      MulMonotoneInt(p, 0, j);
    }
    if p > m {
      MulMonotoneInt(m + 1, p, j);
    }
  }

  lemma MulMonotoneInt(a: int, b: int, n: int)
    requires a <= b && n >= 0
    ensures a * n <= b * n
  {
    assert b * n - a * n == (b - a) * n;
  }

  function Flatten(buckets: seq<seq<nat>>): seq<nat>
  {
    if buckets == [] then [] else Flatten(buckets[..|buckets| - 1]) + buckets[|buckets| - 1]
  }

  /** The bucketing loop of `reshard`: a new bucket opens only once the last
      one holds `perJob` sstables and fewer than `numJobs` buckets exist;
      the last bucket takes the leftovers. */
  method ReshardBuckets(shared: seq<nat>, maxPerJob: nat) returns (buckets: seq<seq<nat>>)
    requires maxPerJob >= 1
    ensures shared == [] ==> buckets == []
    ensures shared != [] ==>
      (|buckets| == NumJobs(|shared|, maxPerJob) &&
       Flatten(buckets) == shared &&
       forall b :: 0 <= b < |buckets| - 1 ==> |buckets[b]| == PerJob(|shared|, maxPerJob))
  {
    if shared == [] {
      return [];
    }
    var n := |shared|;
    var numJobs := NumJobs(n, maxPerJob);
    var perJob := PerJob(n, maxPerJob);
    JobCounts(n, maxPerJob);
    buckets := [[]];
    for i := 0 to n
      invariant BucketsInv(buckets, shared[..i], numJobs, perJob)
    {
      ghost var before := buckets;
      if |buckets[|buckets| - 1]| >= perJob && |buckets| < numJobs {
        buckets := buckets + [[]];
      }
      var last := |buckets| - 1;
      buckets := buckets[last := buckets[last] + [shared[i]]];
      BucketsNext(before, shared[..i], numJobs, perJob, shared[i], buckets);
      assert shared[..i + 1] == shared[..i] + [shared[i]];
    }
    assert shared[..n] == shared;
    BucketCount(n, |buckets|, numJobs, perJob, |buckets[|buckets| - 1]|);
  }

  /** The state of the bucketing loop once `prefix` has been placed: every
      bucket but the last is full, and the last is not over `perJob` while
      another bucket may still open. */
  ghost predicate BucketsInv(buckets: seq<seq<nat>>, prefix: seq<nat>, numJobs: nat, perJob: nat)
  {
    1 <= |buckets| <= numJobs &&
    Flatten(buckets) == prefix &&
    (forall b :: 0 <= b < |buckets| - 1 ==> |buckets[b]| == perJob) &&
    (|buckets| < numJobs ==> |buckets[|buckets| - 1]| <= perJob) &&
    |prefix| == (|buckets| - 1) * perJob + |buckets[|buckets| - 1]|
  }

  /** One step of the bucketing loop keeps `BucketsInv`. */
  lemma BucketsNext(before: seq<seq<nat>>, prefix: seq<nat>, numJobs: nat, perJob: nat, x: nat, after: seq<seq<nat>>)
    requires perJob >= 1 && BucketsInv(before, prefix, numJobs, perJob)
    requires var grown := if |before[|before| - 1]| >= perJob && |before| < numJobs then before + [[]] else before;
      after == grown[|grown| - 1 := grown[|grown| - 1] + [x]]
    ensures BucketsInv(after, prefix + [x], numJobs, perJob)
  {
    var k := |before|;
    var opens := |before[k - 1]| >= perJob && k < numJobs;
    var grown := if opens then before + [[]] else before;
    if opens {
      assert grown[..k] == before;
      assert (k - 1) * perJob + perJob == k * perJob;
    }
    assert Flatten(grown) == prefix;
    var m := |grown| - 1;
    assert after[..m] == grown[..m];
    assert Flatten(after) == Flatten(grown[..m]) + (grown[m] + [x]);
  }

  lemma BucketCount(n: nat, k: nat, numJobs: nat, perJob: nat, last: nat)
    requires 1 <= k <= numJobs && perJob >= 1 && perJob * numJobs <= n
    requires n == (k - 1) * perJob + last
    requires k < numJobs ==> last <= perJob
    ensures k == numJobs
  {
    if k < numJobs {
    }
  }

  /** Ten shared sstables with at most three per job make four jobs, the
      last of which holds four: only the average keeps to the maximum. */
  lemma LastBucketExceedsMaximum()
    ensures NumJobs(10, 3) == 4 && PerJob(10, 3) == 2 && 10 - 3 * PerJob(10, 3) == 4
  {
  }

  // ----- pending-delete log ----------------------------------------------------

  function MinOf(gs: seq<nat>): (m: nat)
    requires gs != []
    ensures forall i :: 0 <= i < |gs| ==> m <= gs[i]
    ensures m in gs
  {
    if |gs| == 1 then gs[0]
    else
      var rest := MinOf(gs[1..]);
      if gs[0] < rest then gs[0] else rest
  }

  function MaxOf(gs: seq<nat>): (m: nat)
    requires gs != []
    ensures forall i :: 0 <= i < |gs| ==> gs[i] <= m
    ensures m in gs
  {
    if |gs| == 1 then gs[0]
    else
      var rest := MaxOf(gs[1..]);
      if gs[0] > rest then gs[0] else rest
  }

  /** The name of the log `delete_atomically` writes in the pending-delete
      directory for a non-empty batch of sstables. */
  function PendingDeleteLogName(generations: seq<nat>): string
    requires generations != []
  {
    "sstables-" + NatToString(MinOf(generations)) + "-" + NatToString(MaxOf(generations)) + ".log"
  }

  /** The log names the least and the greatest generation of the batch, in
      that order, between fixed delimiters. */
  lemma PendingDeleteLogNameShape(generations: seq<nat>)
    requires generations != []
    ensures var lo, hi := MinOf(generations), MaxOf(generations);
      lo <= hi &&
      PendingDeleteLogName(generations) == "sstables-" + NatToString(lo) + "-" + NatToString(hi) + ".log" &&
      DigitsValue(NatToString(lo)) == lo && DigitsValue(NatToString(hi)) == hi
  {
    NatToStringRoundTrip(MinOf(generations));
    NatToStringRoundTrip(MaxOf(generations));
  }

  /** The log's contents: each TOC name followed by a newline. */
  function LogContents(tocs: seq<string>): string
  {
    if tocs == [] then "" else tocs[0] + "\n" + LogContents(tocs[1..])
  }

  function NonEmpty(names: seq<string>): (r: seq<string>)
    ensures forall i :: 0 <= i < |r| ==> r[i] != ""
  {
    if names == [] then []
    else (if names[0] == "" then [] else [names[0]]) + NonEmpty(names[1..])
  }

  /** `replay_pending_delete_log`: the names between newlines, without the
      empty ones. */
  function ReplayedNames(text: string): seq<string>
  {
    NonEmpty(Split(text, '\n'))
  }

  /** Replaying a log gives back the TOC names written to it. */
  lemma {:induction false} ReplayRoundTrip(tocs: seq<string>)
    requires forall i :: 0 <= i < |tocs| ==> tocs[i] != "" && '\n' !in tocs[i]
    ensures ReplayedNames(LogContents(tocs)) == tocs
    decreases |tocs|
  {
    if tocs != [] {
      ReplayRoundTrip(tocs[1..]);
      SplitAfterPiece(tocs[0], '\n', LogContents(tocs[1..]));
      assert tocs[0] + "\n" + LogContents(tocs[1..]) == tocs[0] + ['\n'] + LogContents(tocs[1..]);
      assert Split(LogContents(tocs), '\n') == [tocs[0]] + Split(LogContents(tocs[1..]), '\n');
      assert ([tocs[0]] + Split(LogContents(tocs[1..]), '\n'))[1..] == Split(LogContents(tocs[1..]), '\n');
    }
  }
}
