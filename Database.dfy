/** Model of the small decisions of replica/database.cc: the top-10 table
    selection used in phased-barrier diagnostics, the schema version
    counter, the table registry's duplicate checks and lookup, the table
    directory naming and its inverse, the choice of a free secondary-index
    name, and the classification of a query by its scheduling group. */
module Database {
  import opened Util

  // ----- phased_barrier_top_10_counts --------------------------------------

  /** A table with its pending-operation count. */
  datatype TableCount = TableCount(id: nat, count: nat)

  /** One result entry: a count and the tables that have it. */
  datatype CountEntry = CountEntry(count: nat, tables: seq<nat>)

  const TopCapacity: nat := 10

  /** The tables come from a map keyed by table id. */
  predicate DistinctIds(ts: seq<TableCount>)
  {
    forall i, j :: 0 <= i < j < |ts| ==> ts[i].id != ts[j].id
  }

  function CountsOf(ts: seq<TableCount>): map<nat, nat>
  {
    if ts == [] then map[] else CountsOf(ts[..|ts| - 1])[ts[|ts| - 1].id := ts[|ts| - 1].count]
  }

  /** `boost::min_element`: the first entry with the least count. */
  function FirstMin(res: seq<CountEntry>): (m: nat)
    requires res != []
    ensures m < |res|
    ensures forall k :: 0 <= k < |res| ==> res[m].count <= res[k].count
  {
    if |res| == 1 then 0
    else
      var m := FirstMin(res[..|res| - 1]);
      if res[|res| - 1].count < res[m].count then |res| - 1 else m
  }

  /** `boost::find_if` on the count. */
  function FindCount(res: seq<CountEntry>, count: nat): (r: Option<nat>)
    ensures r.Some? ==> r.value < |res| && res[r.value].count == count
    ensures r.None? ==> forall k :: 0 <= k < |res| ==> res[k].count != count
  {
    if res == [] then None
    else if res[0].count == count then Some(0)
    else
      var r := FindCount(res[1..], count);
      if r.Some? then Some(r.value + 1) else None
  }

  predicate Listed(res: seq<CountEntry>, id: nat)
  {
    exists k :: 0 <= k < |res| && id in res[k].tables
  }

  /** The entry has a positive count, and each table it lists has that count. */
  predicate EntryCounted(e: CountEntry, counts: map<nat, nat>)
  {
    e.count > 0 && forall x :: x in e.tables ==> x in counts && counts[x] == e.count
  }

  predicate EntriesCounted(res: seq<CountEntry>, counts: map<nat, nat>)
  {
    forall k :: 0 <= k < |res| ==> EntryCounted(res[k], counts)
  }

  /** The counts record every table seen so far. */
  predicate SeenCounted(counts: map<nat, nat>, seen: seq<TableCount>)
  {
    forall j :: 0 <= j < |seen| ==> seen[j].id in counts && counts[seen[j].id] == seen[j].count
  }

  /** Every table seen with a count is listed, or the selection is full and
      its least count is at least as large. */
  predicate SeenListed(res: seq<CountEntry>, minIdx: nat, seen: seq<TableCount>)
  {
    forall j :: 0 <= j < |seen| && seen[j].count > 0 ==>
      Listed(res, seen[j].id) || (|res| == TopCapacity && minIdx < |res| && seen[j].count <= res[minIdx].count)
  }

  /** What the selection loop keeps true after the tables `seen`. */
  predicate TopInvariant(res: seq<CountEntry>, minIdx: nat, counts: map<nat, nat>, seen: seq<TableCount>)
  {
    |res| <= TopCapacity &&
    (res != [] ==> minIdx == FirstMin(res)) &&
    EntriesCounted(res, counts) && SeenCounted(counts, seen) && SeenListed(res, minIdx, seen)
  }

  /** Recording a table not seen before keeps the earlier records. */
  lemma SeenCountedSnoc(counts: map<nat, nat>, seen: seq<TableCount>, t: TableCount)
    requires SeenCounted(counts, seen) && t.id !in counts
    ensures SeenCounted(counts[t.id := t.count], seen + [t])
  {
    var seen' := seen + [t];
    forall j | 0 <= j < |seen'|
      ensures seen'[j].id in counts[t.id := t.count] && counts[t.id := t.count][seen'[j].id] == seen'[j].count
    {
      if j < |seen| {
        assert seen'[j] == seen[j];
      }
    }
  }

  /** A zero count changes nothing. */
  lemma SkipKeeps(res: seq<CountEntry>, minIdx: nat, counts: map<nat, nat>, seen: seq<TableCount>, t: TableCount)
    requires TopInvariant(res, minIdx, counts, seen) && t.id !in counts
    requires t.count == 0 || (|res| == TopCapacity && t.count < res[minIdx].count)
    ensures TopInvariant(res, minIdx, counts[t.id := t.count], seen + [t])
  {
    SeenCountedSnoc(counts, seen, t);
    var seen' := seen + [t];
    forall j | 0 <= j < |seen'| && seen'[j].count > 0
      ensures Listed(res, seen'[j].id) || (|res| == TopCapacity && minIdx < |res| && seen'[j].count <= res[minIdx].count)
    {
      if j < |seen| {
        assert seen'[j] == seen[j];
      }
    }
  }

  /** While there is room, every table with a count gets a fresh entry. */
  lemma FillKeeps(res: seq<CountEntry>, minIdx: nat, counts: map<nat, nat>, seen: seq<TableCount>, t: TableCount)
    requires TopInvariant(res, minIdx, counts, seen) && t.id !in counts
    requires t.count > 0 && |res| < TopCapacity
    ensures var res' := res + [CountEntry(t.count, [t.id])];
      TopInvariant(res', if res == [] || res[minIdx].count > t.count then |res| else minIdx, counts[t.id := t.count], seen + [t])
  {
    var e := CountEntry(t.count, [t.id]);
    var res' := res + [e];
    var seen' := seen + [t];
    var counts' := counts[t.id := t.count];
    FirstMinSnoc(res, minIdx, e);
    SeenCountedSnoc(counts, seen, t);
    assert EntriesCounted(res', counts') by {
      forall k | 0 <= k < |res'| ensures EntryCounted(res'[k], counts') {
        if k < |res| {
          assert res'[k] == res[k] && EntryCounted(res[k], counts);
        }
      }
    }
    forall j | 0 <= j < |seen'| && seen'[j].count > 0 ensures Listed(res', seen'[j].id) {
      if j < |seen| {
        assert seen'[j] == seen[j];
        var k :| 0 <= k < |res| && seen[j].id in res[k].tables;
        assert res'[k] == res[k];
      } else {
        assert seen'[j].id in res'[|res|].tables;
      }
    }
  }

  lemma FirstMinSnoc(res: seq<CountEntry>, minIdx: nat, e: CountEntry)
    requires res != [] ==> minIdx == FirstMin(res)
    ensures FirstMin(res + [e]) == if res == [] || res[minIdx].count > e.count then |res| else minIdx
  {
    assert (res + [e])[..|res|] == res;
  }

  /** Once full, a count equal to an entry's joins that entry. */
  lemma AppendKeeps(res: seq<CountEntry>, minIdx: nat, counts: map<nat, nat>, seen: seq<TableCount>, t: TableCount, k: nat)
    requires TopInvariant(res, minIdx, counts, seen) && t.id !in counts
    requires t.count > 0 && k < |res| && res[k].count == t.count
    ensures TopInvariant(res[k := res[k].(tables := res[k].tables + [t.id])], minIdx, counts[t.id := t.count], seen + [t])
  {
    var res' := res[k := res[k].(tables := res[k].tables + [t.id])];
    var seen' := seen + [t];
    FirstMinSameCounts(res, res');
    SeenCountedSnoc(counts, seen, t);
    forall j | 0 <= j < |seen'| && seen'[j].count > 0
      ensures Listed(res', seen'[j].id) || (|res'| == TopCapacity && minIdx < |res'| && seen'[j].count <= res'[minIdx].count)
    {
      if j < |seen| {
        assert seen'[j] == seen[j];
        if Listed(res, seen[j].id) {
          var q :| 0 <= q < |res| && seen[j].id in res[q].tables;
          assert seen[j].id in res'[q].tables;
        }
      } else {
        assert t.id in res'[k].tables;
      }
    }
  }

  /** Once full, a larger count with no equal entry replaces the minimum. */
  lemma ReplaceKeeps(res: seq<CountEntry>, minIdx: nat, counts: map<nat, nat>, seen: seq<TableCount>, t: TableCount)
    requires TopInvariant(res, minIdx, counts, seen) && t.id !in counts
    requires |res| == TopCapacity && t.count > res[minIdx].count
    ensures var res' := res[minIdx := CountEntry(t.count, [t.id])];
      TopInvariant(res', FirstMin(res'), counts[t.id := t.count], seen + [t])
  {
    var res' := res[minIdx := CountEntry(t.count, [t.id])];
    var seen' := seen + [t];
    var m' := FirstMin(res');
    assert res'[m'].count >= res[minIdx].count;
    SeenCountedSnoc(counts, seen, t);
    forall j | 0 <= j < |seen'| && seen'[j].count > 0
      ensures Listed(res', seen'[j].id) || seen'[j].count <= res'[m'].count
    {
      if j < |seen| {
        assert seen'[j] == seen[j];
        if Listed(res, seen[j].id) {
          var q :| 0 <= q < |res| && seen[j].id in res[q].tables;
          if q != minIdx {
            assert seen[j].id in res'[q].tables;
          } else {
            assert seen[j].count == counts[seen[j].id] == res[minIdx].count;
          }
        }
      } else {
        assert t.id in res'[minIdx].tables;
      }
    }
  }

  lemma FirstMinSameCounts(res: seq<CountEntry>, res': seq<CountEntry>)
    requires res != [] && |res| == |res'|
    requires forall k :: 0 <= k < |res| ==> res[k].count == res'[k].count
    ensures FirstMin(res) == FirstMin(res')
  {
    if |res| > 1 {
      FirstMinSameCounts(res[..|res| - 1], res'[..|res'| - 1]);
    }
  }

  predicate Ascending(res: seq<CountEntry>)
  {
    forall i, j :: 0 <= i < j < |res| ==> res[i].count <= res[j].count
  }

  /** All the tables the entries list, with their multiplicity. */
  function TablesOf(res: seq<CountEntry>): multiset<nat>
  {
    if res == [] then multiset{} else multiset(res[0].tables) + TablesOf(res[1..])
  }

  /** No table is listed twice, in one entry or in two. */
  predicate ListedOnce(res: seq<CountEntry>)
  {
    forall x :: x in TablesOf(res) ==> TablesOf(res)[x] <= 1
  }

  lemma {:induction false} TablesOfListed(res: seq<CountEntry>, x: nat)
    requires x in TablesOf(res)
    ensures Listed(res, x)
  {
    if x in multiset(res[0].tables) {
      assert x in res[0].tables;
    } else {
      TablesOfListed(res[1..], x);
      var k :| 0 <= k < |res[1..]| && x in res[1..][k].tables;
      assert res[k + 1] == res[1..][k];
    }
  }

  /** Replacing an entry swaps its tables for the new entry's. */
  lemma {:induction false} TablesOfUpdate(res: seq<CountEntry>, k: nat, e: CountEntry)
    requires k < |res|
    ensures TablesOf(res[k := e]) + multiset(res[k].tables) == TablesOf(res) + multiset(e.tables)
  {
    if k == 0 {
      assert res[k := e][1..] == res[1..];
    } else {
      TablesOfUpdate(res[1..], k - 1, e);
      assert res[k := e][1..] == res[1..][k - 1 := e];
      assert res[k := e][0] == res[0];
      assert TablesOf(res[k := e]) == multiset(res[0].tables) + TablesOf(res[1..][k - 1 := e]);
      assert res[1..][k - 1] == res[k];
      var lhs := TablesOf(res[k := e]) + multiset(res[k].tables);
      var rhs := TablesOf(res) + multiset(e.tables);
      forall x ensures lhs[x] == rhs[x] {
        assert (TablesOf(res[1..][k - 1 := e]) + multiset(res[k].tables))[x] == (TablesOf(res[1..]) + multiset(e.tables))[x];
      }
      assert lhs == rhs;
    }
  }

  lemma {:induction false} TablesOfSnoc(res: seq<CountEntry>, e: CountEntry)
    ensures TablesOf(res + [e]) == TablesOf(res) + multiset(e.tables)
  {
    if res == [] {
      assert ([] + [e])[1..] == [];
    } else {
      assert (res + [e])[1..] == res[1..] + [e];
      TablesOfSnoc(res[1..], e);
    }
  }

  /** Every listed table has a count. */
  lemma {:induction false} TablesOfCounted(res: seq<CountEntry>, counts: map<nat, nat>)
    requires EntriesCounted(res, counts)
    ensures forall x :: x in TablesOf(res) ==> x in counts
  {
    forall x | x in TablesOf(res) ensures x in counts {
      TablesOfListed(res, x);
      var k :| 0 <= k < |res| && x in res[k].tables;
      assert EntryCounted(res[k], counts);
    }
  }

  /** A step of the loop that adds one table not seen before, and possibly
      drops an entry's tables, keeps every table listed at most once. */
  lemma OnceStep(res: seq<CountEntry>, res': seq<CountEntry>, counts: map<nat, nat>, id: nat, dropped: multiset<nat>)
    requires ListedOnce(res) && EntriesCounted(res, counts) && id !in counts
    requires TablesOf(res') + dropped == TablesOf(res) + multiset{id}
    ensures ListedOnce(res')
  {
    TablesOfCounted(res, counts);
    assert TablesOf(res)[id] == 0;
    forall x | x in TablesOf(res') ensures TablesOf(res')[x] <= 1 {
      assert TablesOf(res')[x] <= (TablesOf(res) + multiset{id})[x];
    }
  }

  /** The three ways the loop lists a table keep each table listed once. */
  lemma OnceFill(res: seq<CountEntry>, counts: map<nat, nat>, t: TableCount)
    requires ListedOnce(res) && EntriesCounted(res, counts) && t.id !in counts
    ensures ListedOnce(res + [CountEntry(t.count, [t.id])])
  {
    TablesOfSnoc(res, CountEntry(t.count, [t.id]));
    OnceStep(res, res + [CountEntry(t.count, [t.id])], counts, t.id, multiset{});
  }

  lemma OnceAppend(res: seq<CountEntry>, counts: map<nat, nat>, t: TableCount, k: nat)
    requires ListedOnce(res) && EntriesCounted(res, counts) && t.id !in counts && k < |res|
    ensures ListedOnce(res[k := res[k].(tables := res[k].tables + [t.id])])
  {
    var e := res[k];
    TablesOfUpdate(res, k, e.(tables := e.tables + [t.id]));
    var res' := res[k := e.(tables := e.tables + [t.id])];
    assert multiset(e.tables + [t.id]) == multiset(e.tables) + multiset{t.id};
    assert TablesOf(res') == TablesOf(res) + multiset{t.id} by {
      forall x ensures TablesOf(res')[x] == (TablesOf(res) + multiset{t.id})[x] {
        assert (TablesOf(res') + multiset(e.tables))[x] == (TablesOf(res) + multiset(e.tables + [t.id]))[x];
      }
    }
    OnceStep(res, res', counts, t.id, multiset{});
  }

  lemma OnceReplace(res: seq<CountEntry>, counts: map<nat, nat>, t: TableCount, k: nat)
    requires ListedOnce(res) && EntriesCounted(res, counts) && t.id !in counts && k < |res|
    ensures ListedOnce(res[k := CountEntry(t.count, [t.id])])
  {
    TablesOfUpdate(res, k, CountEntry(t.count, [t.id]));
    OnceStep(res, res[k := CountEntry(t.count, [t.id])], counts, t.id, multiset(res[k].tables));
  }

  function InsertByCount(res: seq<CountEntry>, e: CountEntry): (r: seq<CountEntry>)
    requires Ascending(res)
    ensures Ascending(r) && |r| == |res| + 1
    ensures forall x :: x in r <==> x in res || x == e
    ensures r[0] == e || (res != [] && r[0] == res[0])
  {
    if res == [] || e.count <= res[0].count then [e] + res
    else
      assert res == [res[0]] + res[1..];
      var rest := InsertByCount(res[1..], e);
      assert res[0].count <= rest[0].count;
      [res[0]] + rest
  }

  /** `boost::sort` by count (ties in unspecified order). */
  function SortByCount(res: seq<CountEntry>): (r: seq<CountEntry>)
    ensures Ascending(r) && |r| == |res|
    ensures forall x :: x in r <==> x in res
  {
    if res == [] then []
    else
      assert res == [res[0]] + res[1..];
      InsertByCount(SortByCount(res[1..]), res[0])
  }

  lemma {:induction false} TablesOfInsert(res: seq<CountEntry>, e: CountEntry)
    requires Ascending(res)
    ensures TablesOf(InsertByCount(res, e)) == TablesOf(res) + multiset(e.tables)
  {
    if res == [] || e.count <= res[0].count {
      assert ([e] + res)[1..] == res;
    } else {
      assert res == [res[0]] + res[1..];
      TablesOfInsert(res[1..], e);
      assert InsertByCount(res, e)[1..] == InsertByCount(res[1..], e);
    }
  }

  /** Sorting lists the same tables, as often as before. */
  lemma {:induction false} TablesOfSort(res: seq<CountEntry>)
    ensures TablesOf(SortByCount(res)) == TablesOf(res)
  {
    if res != [] {
      assert res == [res[0]] + res[1..];
      TablesOfSort(res[1..]);
      TablesOfInsert(SortByCount(res[1..]), res[0]);
    }
  }

  /** Sorting keeps the entries, hence the listed tables and the bounds. */
  lemma SortKeeps(res: seq<CountEntry>, minIdx: nat, counts: map<nat, nat>, seen: seq<TableCount>)
    requires TopInvariant(res, minIdx, counts, seen) && ListedOnce(res)
    ensures TopResult(SortByCount(res), counts, seen)
  {
    TablesOfSort(res);
    SortEntriesCounted(res, counts);
    SortSeenListed(res, minIdx, seen);
  }

  lemma SortEntriesCounted(res: seq<CountEntry>, counts: map<nat, nat>)
    requires EntriesCounted(res, counts)
    ensures EntriesCounted(SortByCount(res), counts)
  {
    var r := SortByCount(res);
    forall k | 0 <= k < |r| ensures EntryCounted(r[k], counts) {
      assert r[k] in res;
      var q :| 0 <= q < |res| && res[q] == r[k];
    }
  }

  lemma SortSeenListed(res: seq<CountEntry>, minIdx: nat, seen: seq<TableCount>)
    requires res != [] ==> minIdx == FirstMin(res)
    requires SeenListed(res, minIdx, seen)
    ensures var r := SortByCount(res);
      forall j :: 0 <= j < |seen| && seen[j].count > 0 ==>
        Listed(r, seen[j].id) || (|r| == TopCapacity && forall k :: 0 <= k < |r| ==> seen[j].count <= r[k].count)
  {
    var r := SortByCount(res);
    forall j | 0 <= j < |seen| && seen[j].count > 0
      ensures Listed(r, seen[j].id) || (|r| == TopCapacity && forall k :: 0 <= k < |r| ==> seen[j].count <= r[k].count)
    {
      if Listed(res, seen[j].id) {
        var q :| 0 <= q < |res| && seen[j].id in res[q].tables;
        assert res[q] in r;
        var k :| 0 <= k < |r| && r[k] == res[q];
      } else {
        forall k | 0 <= k < |r| ensures seen[j].count <= r[k].count {
          assert r[k] in res;
          var q :| 0 <= q < |res| && res[q] == r[k];
        }
      }
    }
  }

  /** The promise of the selection: at most ten entries in ascending count
      order, each holding tables that have its (non-zero) count, no table
      listed twice, and every table with a count is listed unless all ten
      entries have a count at least as large. */
  predicate TopResult(r: seq<CountEntry>, counts: map<nat, nat>, seen: seq<TableCount>)
  {
    |r| <= TopCapacity && Ascending(r) && EntriesCounted(r, counts) && ListedOnce(r) &&
    (forall j :: 0 <= j < |seen| && seen[j].count > 0 ==>
       Listed(r, seen[j].id) || (|r| == TopCapacity && forall k :: 0 <= k < |r| ==> seen[j].count <= r[k].count))
  }

  /** `phased_barrier_top_10_counts` */
  method PhasedBarrierTop10Counts(tables: seq<TableCount>) returns (res: seq<CountEntry>)
    requires DistinctIds(tables)
    ensures TopResult(res, CountsOf(tables), tables)
  {
    res := [];
    var minIdx: nat := 0;
    for i := 0 to |tables|
      invariant TopInvariant(res, minIdx, CountsOf(tables[..i]), tables[..i])
      invariant ListedOnce(res)
    {
      var t := tables[i];
      ghost var seen := tables[..i];
      ghost var counts := CountsOf(seen);
      assert tables[..i + 1] == seen + [t];
      assert tables[..i + 1][..i] == seen;
      assert t.id !in counts by {
        FreshId(tables, i);
      }
      if t.count == 0 {
        SkipKeeps(res, minIdx, counts, seen, t);
        continue;
      }
      if |res| < TopCapacity {
        FillKeeps(res, minIdx, counts, seen, t);
        OnceFill(res, counts, t);
        if res == [] || res[minIdx].count > t.count {
          minIdx := |res|;
        }
        res := res + [CountEntry(t.count, [t.id])];
        continue;
      }
      if res[minIdx].count > t.count {
        SkipKeeps(res, minIdx, counts, seen, t);
        continue;
      }
      var equal := FindCount(res, t.count);
      if equal.Some? {
        AppendKeeps(res, minIdx, counts, seen, t, equal.value);
        OnceAppend(res, counts, t, equal.value);
        res := res[equal.value := res[equal.value].(tables := res[equal.value].tables + [t.id])];
        continue;
      }
      ReplaceKeeps(res, minIdx, counts, seen, t);
      OnceReplace(res, counts, t, minIdx);
      res := res[minIdx := CountEntry(t.count, [t.id])];
      minIdx := FirstMin(res);
    }
    assert tables[..|tables|] == tables;
    SortKeeps(res, minIdx, CountsOf(tables), tables);
    res := SortByCount(res);
  }

  lemma {:induction false} FreshId(tables: seq<TableCount>, i: nat)
    requires DistinctIds(tables) && i < |tables|
    ensures tables[i].id !in CountsOf(tables[..i])
  {
    if i > 0 {
      FreshId(tables[..i], i - 1);
      assert tables[..i][..i - 1] == tables[..i - 1];
    }
    assert forall x :: x in CountsOf(tables[..i]) ==> exists j :: 0 <= j < i && tables[j].id == x by {
      CountsOfKeys(tables[..i]);
    }
  }

  lemma {:induction false} CountsOfKeys(ts: seq<TableCount>)
    ensures forall x :: x in CountsOf(ts) ==> exists j :: 0 <= j < |ts| && ts[j].id == x
  {
    if ts != [] {
      CountsOfKeys(ts[..|ts| - 1]);
    }
  }

  // ----- the database state --------------------------------------------------

  class DatabaseState {
    /** `_version` and `_schema_change_count` */
    var version: string
    var schemaChangeCount: nat
    /** `_column_families`, by table uuid, holding each table's (ks, cf) */
    var columnFamilies: map<string, (string, string)>
    /** `_ks_cf_to_uuid` */
    var ksCfToUuid: map<(string, string), string>

    /** Both registries describe the same tables. */
    predicate Valid()
      reads this
    {
      (forall kc :: kc in ksCfToUuid ==> ksCfToUuid[kc] in columnFamilies && columnFamilies[ksCfToUuid[kc]] == kc) &&
      (forall u :: u in columnFamilies ==> columnFamilies[u] in ksCfToUuid && ksCfToUuid[columnFamilies[u]] == u)
    }

    constructor (version: string)
      ensures Valid() && this.version == version && schemaChangeCount == 0
      ensures columnFamilies == map[] && ksCfToUuid == map[]
    {
      this.version := version;
      schemaChangeCount := 0;
      columnFamilies := map[];
      ksCfToUuid := map[];
    }

    /** `update_version`: the change counter moves only when the version does. */
    method UpdateVersion(v: string)
      modifies this`version, this`schemaChangeCount
      ensures version == v
      ensures schemaChangeCount == old(schemaChangeCount) + (if old(version) != v then 1 else 0)
    {
      if version != v {
        schemaChangeCount := schemaChangeCount + 1;
      }
      version := v;
    }

    /** The registration part of `add_column_family`. */
    method AddColumnFamily(uuid: string, ks: string, cf: string) returns (o: Outcome)
      requires Valid()
      modifies this`columnFamilies, this`ksCfToUuid
      ensures Valid()
      ensures o == AddCheck(old(columnFamilies), old(ksCfToUuid), uuid, ks, cf)
      ensures o.Pass? ==> columnFamilies == old(columnFamilies)[uuid := (ks, cf)] && ksCfToUuid == old(ksCfToUuid)[(ks, cf) := uuid]
      ensures o.Fail? ==> columnFamilies == old(columnFamilies) && ksCfToUuid == old(ksCfToUuid)
    {
      o := AddCheck(columnFamilies, ksCfToUuid, uuid, ks, cf);
      if o.Pass? {
        columnFamilies := columnFamilies[uuid := (ks, cf)];
        ksCfToUuid := ksCfToUuid[(ks, cf) := uuid];
      }
    }

    /** `find_uuid` */
    function FindUuid(ks: string, cf: string): (r: Result<string>)
      reads this
      requires Valid()
      ensures r.Ok? <==> (ks, cf) in ksCfToUuid
      ensures r.Ok? ==> r.value in columnFamilies && columnFamilies[r.value] == (ks, cf)
      ensures r.Err? ==> r.error == NoSuchColumnFamily(ks, cf)
    {
      if (ks, cf) in ksCfToUuid then Ok(ksCfToUuid[(ks, cf)]) else Err(NoSuchColumnFamily(ks, cf))
    }
  }

  function NoSuchColumnFamily(ks: string, cf: string): string
  {
    "Can't find a column family " + cf + " in keyspace " + ks
  }

  function UuidMappedMessage(uuid: string): string
  {
    "UUID " + uuid + " already mapped"
  }

  function CfExistsMessage(cf: string): string
  {
    "Column family " + cf + " exists"
  }

  /** The duplicate checks of `add_column_family`, the uuid first. */
  function AddCheck(columnFamilies: map<string, (string, string)>, ksCfToUuid: map<(string, string), string>,
                    uuid: string, ks: string, cf: string): (o: Outcome)
    ensures o.Pass? <==> uuid !in columnFamilies && (ks, cf) !in ksCfToUuid
    ensures uuid in columnFamilies ==> o == Fail(UuidMappedMessage(uuid))
    ensures uuid !in columnFamilies && (ks, cf) in ksCfToUuid ==> o == Fail(CfExistsMessage(cf))
  {
    if uuid in columnFamilies then Fail(UuidMappedMessage(uuid))
    else if (ks, cf) in ksCfToUuid then Fail(CfExistsMessage(cf))
    else Pass
  }

  // ----- table directories ---------------------------------------------------

  /** `boost::erase_all(s, "-")` */
  function EraseDashes(s: string): (r: string)
    ensures '-' !in r
    ensures forall c :: c in r <==> c in s && c != '-'
  {
    if s == [] then [] else (if s[0] == '-' then [] else [s[0]]) + EraseDashes(s[1..])
  }

  /** The directory entry name of a table: `name-uuid` with the uuid's dashes removed. */
  function TableDirName(name: string, uuid: string): string
  {
    name + "-" + EraseDashes(uuid)
  }

  /** `column_family_directory`: an entry of the base directory from whose
      name the table name is recovered. */
  function ColumnFamilyDirectory(base: string, name: string, uuid: string): (r: string)
    ensures |r| > |base| && r[..|base| + 1] == base + "/"
    ensures ExtractCfName(r[|base| + 1..]) == Ok(name)
  {
    ExtractCfNameRoundTrip(name, uuid);
    var r := base + "/" + TableDirName(name, uuid);
    assert r[..|base| + 1] == base + "/";
    assert r[|base| + 1..] == TableDirName(name, uuid);
    r
  }

  function LastIndexOf(s: string, c: char): (r: Option<nat>)
    ensures r.None? <==> c !in s
    ensures r.Some? ==> r.value < |s| && s[r.value] == c && c !in s[r.value + 1..]
  {
    if s == [] then None
    else if s[|s| - 1] == c then Some(|s| - 1)
    else
      var r := LastIndexOf(s[..|s| - 1], c);
      assert s[..|s| - 1] + [s[|s| - 1]] == s;
      if r.Some? then
        assert s[r.value + 1..] == s[..|s| - 1][r.value + 1..] + [s[|s| - 1]];
        r
      else r
  }

  function NoSeparatorMessage(dir: string): string
  {
    "table directory entry name '" + dir + "' is invalid: no '-' separator found"
  }

  /** `extract_cf_name`: the part before the last `-`; an entry without one
      is an internal error. */
  function ExtractCfName(dirName: string): (r: Result<string>)
    ensures r.Err? <==> '-' !in dirName
    ensures r.Err? ==> r.error == NoSeparatorMessage(dirName)
  {
    var pos := LastIndexOf(dirName, '-');
    if pos.None? then Err(NoSeparatorMessage(dirName)) else Ok(dirName[..pos.value])
  }

  /** The table name is recovered from its directory name, even when it
      holds dashes itself. */
  lemma ExtractCfNameRoundTrip(name: string, uuid: string)
    ensures ExtractCfName(TableDirName(name, uuid)) == Ok(name)
  {
    var d := TableDirName(name, uuid);
    var u := EraseDashes(uuid);
    assert d == name + "-" + u;
    var pos := LastIndexOf(d, '-');
    assert d[|name|] == '-';
    assert d[..|name|] == name;
  }

  // ----- secondary index names ---------------------------------------------

  /** The `i`-th candidate: the base name, then `base_1`, `base_2`, ... */
  function IndexNameCandidate(base: string, i: nat): string
  {
    if i == 0 then base else base + "_" + NatToString(i)
  }

  /** A name is taken when an index has it or its index table exists. */
  predicate Taken(name: string, existingNames: set<string>, indexTableExists: set<string>)
  {
    name in existingNames || name in indexTableExists
  }

  /** `get_available_index_name`; `indexTableExists` holds the names whose
      index table is already in the keyspace. */
  method GetAvailableIndexName(base: string, existingNames: set<string>, indexTableExists: set<string>) returns (name: string)
    ensures !Taken(name, existingNames, indexTableExists)
    ensures exists i: nat :: (name == IndexNameCandidate(base, i) &&
      forall k :: 0 <= k < i ==> Taken(IndexNameCandidate(base, k), existingNames, indexTableExists))
  {
    var blocked := existingNames + indexTableExists;
    name := base;
    var i: nat := 0;
    ghost var tried: set<string> := {};
    while Taken(name, existingNames, indexTableExists)
      invariant name == IndexNameCandidate(base, i)
      invariant forall k :: 0 <= k < i ==> Taken(IndexNameCandidate(base, k), existingNames, indexTableExists)
      invariant tried == set k | 0 <= k < i :: IndexNameCandidate(base, k)
      invariant tried <= blocked && |tried| == i
      decreases |blocked| - i
    {
      CandidateFresh(base, i);
      CandidatesCount(base, i);
      tried := tried + {name};
      assert tried == set k | 0 <= k < i + 1 :: IndexNameCandidate(base, k);
      i := i + 1;
      name := IndexNameCandidate(base, i);
      assert tried <= blocked;
      SubsetCard(tried, blocked);
    }
  }

  lemma SubsetCard(a: set<string>, b: set<string>)
    requires a <= b
    ensures |a| <= |b|
  {
    if a != {} {
      var x :| x in a;
      SubsetCard(a - {x}, b - {x});
    }
  }

  /** Different candidates have different names. */
  lemma CandidateInjective(base: string, i: nat, j: nat)
    requires i != j
    ensures IndexNameCandidate(base, i) != IndexNameCandidate(base, j)
  {
    if i != 0 && j != 0 {
      if IndexNameCandidate(base, i) == IndexNameCandidate(base, j) {
        var p := base + "_";
        assert NatToString(i) == IndexNameCandidate(base, i)[|p|..];
        assert NatToString(j) == IndexNameCandidate(base, j)[|p|..];
        NatToStringRoundTrip(i);
        NatToStringRoundTrip(j);
      }
    }
  }

  lemma CandidateFresh(base: string, i: nat)
    ensures IndexNameCandidate(base, i) !in set k | 0 <= k < i :: IndexNameCandidate(base, k)
  {
    forall k | 0 <= k < i ensures IndexNameCandidate(base, k) != IndexNameCandidate(base, i) {
      CandidateInjective(base, k, i);
    }
  }

  lemma {:induction false} CandidatesCount(base: string, i: nat)
    ensures |set k | 0 <= k < i :: IndexNameCandidate(base, k)| == i
  {
    if i > 0 {
      CandidatesCount(base, i - 1);
      CandidateFresh(base, i - 1);
      assert (set k | 0 <= k < i :: IndexNameCandidate(base, k)) ==
        (set k | 0 <= k < i - 1 :: IndexNameCandidate(base, k)) + {IndexNameCandidate(base, i - 1)};
    }
  }

  // ----- classify_query --------------------------------------------------------

  datatype QueryClass = UserQuery | SystemQuery | MaintenanceQuery

  /** The scheduling groups of the database configuration, by identity. */
  datatype GroupConfig = GroupConfig(
    statement: nat, defaultGroup: nat, compaction: nat, gossip: nat,
    memoryCompaction: nat, memtable: nat, memtableToCache: nat, streaming: nat)

  predicate IsSystemGroup(g: nat, cfg: GroupConfig)
  {
    g == cfg.defaultGroup || g == cfg.compaction || g == cfg.gossip ||
    g == cfg.memoryCompaction || g == cfg.memtable || g == cfg.memtableToCache
  }

  /** `classify_query`: the statement group first, then the system groups,
      then streaming; anything else is a user query. */
  function ClassifyQuery(current: nat, cfg: GroupConfig): (c: QueryClass)
    ensures c == SystemQuery <==> current != cfg.statement && IsSystemGroup(current, cfg)
    ensures c == MaintenanceQuery <==> current != cfg.statement && !IsSystemGroup(current, cfg) && current == cfg.streaming
    ensures current == cfg.statement ==> c == UserQuery
  {
    if current == cfg.statement then UserQuery
    else if IsSystemGroup(current, cfg) then SystemQuery
    else if current == cfg.streaming then MaintenanceQuery
    else UserQuery
  }
}
