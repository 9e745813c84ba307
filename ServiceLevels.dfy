/** Model of the service-level bookkeeping of
    service/qos/service_level_controller.cc: the diff between the running
    service levels and the distributed table, the static configuration
    layer under the running levels, the validity checks of a distributed
    write, and the fold that picks the options of a set of roles.

    One shard is modelled; the per-shard fan-out, the subscribers, the I/O
    priority classes and the scheduling-group lookup table are not. */
module ServiceLevels {
  import opened Util

  /** The `shares` variant: unset, a delete marker, or a share count. */
  datatype Shares = UnsetShares | DeleteShares | ShareCount(n: int)

  /** `service_level_options`: the shares, the name recorded by
      `find_service_level`, and the other options compared as a whole. */
  datatype Options = Options(shares: Shares, sharesName: Option<string>, rest: int)

  const DefaultShares: int := 1000

  /** The share count of the options, 1000 when they carry none. */
  function SharesOf(o: Options): int
  {
    if o.shares.ShareCount? then o.shares.n else DefaultShares
  }

  /** A running service level: its options, whether it runs the static
      configuration, its scheduling group and that group's shares. */
  datatype ServiceLevel = ServiceLevel(slo: Options, isStatic: bool, sg: nat, sgShares: int)

  /** The scheduling group of a level that comes back with new options
      (`notify_service_level_updated`): the group's shares follow the new
      options when they change. */
  function UpdatedLevel(sl: ServiceLevel, slo: Options): (r: ServiceLevel)
    ensures r.slo == slo && r.isStatic == sl.isStatic && r.sg == sl.sg
    ensures sl.sgShares == SharesOf(sl.slo) ==> r.sgShares == SharesOf(slo)
  {
    if sl.slo.shares != slo.shares then sl.(slo := slo, sgShares := SharesOf(slo)) else sl.(slo := slo)
  }

  /** `notify_service_level_updated` as written: the new shares are read
      from the level before its options are replaced, so a group whose
      shares matched its options keeps those shares whatever the update. */
  function UpdatedLevelAsWritten(sl: ServiceLevel, slo: Options): (r: ServiceLevel)
    ensures r.slo == slo && r.isStatic == sl.isStatic && r.sg == sl.sg
    ensures sl.sgShares == SharesOf(sl.slo) ==> r.sgShares == sl.sgShares
  {
    if sl.slo.shares != slo.shares then sl.(sgShares := SharesOf(sl.slo), slo := slo) else sl.(slo := slo)
  }

  /** As written, a level updated from 1000 to 500 shares keeps its
      scheduling group at 1000 shares. */
  lemma StaleSharesAsWritten()
    ensures var before := ServiceLevel(Options(ShareCount(1000), None, 0), false, 1, 1000);
      var after := UpdatedLevelAsWritten(before, Options(ShareCount(500), None, 0));
      before.sgShares == SharesOf(before.slo) && after.sgShares == 1000 && SharesOf(after.slo) == 500
  {
  }

  // ----- the controller ------------------------------------------------------

  class ServiceLevelController {
    /** `_service_levels_db` */
    var db: map<string, ServiceLevel>
    /** `static_configurations` */
    var staticConfigurations: map<string, Options>
    /** `deleted_scheduling_groups`, reused first-in first-out */
    var deletedGroups: seq<nat>
    /** `schedg_group_cnt` */
    var groupCount: nat
    const defaultGroup: nat

    /** A level running the static layer runs exactly the saved static
        configuration.  (The group's shares do not follow the options: an
        update keeps the old shares, see `UpdatedLevelAsWritten`.) */
    predicate Valid()
      reads this
    {
      forall n :: n in db && db[n].isStatic ==> n in staticConfigurations && staticConfigurations[n] == db[n].slo
    }

    /** The global controller: the default group is put in the pool for
        reuse, since the default service level is the first one added. */
    constructor (defaultGroup: nat)
      ensures Valid() && db == map[] && staticConfigurations == map[] && groupCount == 0
      ensures deletedGroups == [defaultGroup] && this.defaultGroup == defaultGroup
    {
      db := map[];
      staticConfigurations := map[];
      deletedGroups := [defaultGroup];
      groupCount := 0;
      this.defaultGroup := defaultGroup;
    }

    /** `get_scheduling_group`: unknown names get the default group. */
    function GetSchedulingGroup(name: string): (g: nat)
      reads this
      ensures name in db ==> g == db[name].sg
      ensures name !in db ==> g == defaultGroup
    {
      if name in db then db[name].sg else defaultGroup
    }

    /** `notify_service_level_updated`, as written: the group's shares are
        set from the options being replaced. */
    method NotifyServiceLevelUpdated(name: string, slo: Options)
      modifies this`db
      ensures db == if name in old(db) then old(db)[name := UpdatedLevelAsWritten(old(db)[name], slo)] else old(db)
    {
      if name in db {
        db := db[name := UpdatedLevelAsWritten(db[name], slo)];
      }
    }

    /** `notify_service_level_removed`: the group goes to the reuse queue. */
    method NotifyServiceLevelRemoved(name: string)
      modifies this`db, this`deletedGroups
      ensures db == old(db) - {name}
      ensures deletedGroups == if name in old(db) then old(deletedGroups) + [old(db)[name].sg] else old(deletedGroups)
    {
      if name in db {
        deletedGroups := deletedGroups + [db[name].sg];
        db := db - {name};
      }
    }

    /** `do_add_service_level` */
    method DoAddServiceLevel(name: string, slo: Options, isStatic: bool)
      requires Valid()
      modifies this
      ensures Valid()
      ensures staticConfigurations == if isStatic then old(staticConfigurations)[name := slo] else old(staticConfigurations)
      ensures forall n :: n != name ==> (n in db <==> n in old(db)) && (n in db ==> db[n] == old(db)[n])
      ensures name in old(db) && isStatic && !old(db)[name].isStatic ==> db == old(db)
      ensures name in old(db) && !(isStatic && !old(db)[name].isStatic) ==>
        name in db && db[name] == UpdatedLevelAsWritten(old(db)[name], slo).(isStatic := isStatic)
      ensures name !in old(db) ==>
        name in db && db[name].slo == slo && db[name].isStatic == isStatic && db[name].sgShares == SharesOf(slo)
      ensures name !in old(db) && old(deletedGroups) != [] ==>
        db[name].sg == old(deletedGroups)[0] && deletedGroups == old(deletedGroups)[1..] && groupCount == old(groupCount)
      ensures name !in old(db) && old(deletedGroups) == [] ==>
        db[name].sg == NewGroup(old(groupCount)) && deletedGroups == [] && groupCount == old(groupCount) + 1
      ensures name in old(db) ==> deletedGroups == old(deletedGroups) && groupCount == old(groupCount)
    {
      if isStatic {
        staticConfigurations := staticConfigurations[name := slo];
      }
      if name in db {
        if (isStatic && db[name].isStatic) || !isStatic {
          if db[name].isStatic && !isStatic {
            db := db[name := db[name].(isStatic := false)];
          }
          NotifyServiceLevelUpdated(name, slo);
        }
      } else {
        var sg: nat;
        if deletedGroups != [] {
          sg := deletedGroups[0];
          deletedGroups := deletedGroups[1..];
        } else {
          sg := NewGroup(groupCount);
          groupCount := groupCount + 1;
        }
        db := db[name := ServiceLevel(slo, isStatic, sg, SharesOf(slo))];
      }
    }

    /** `do_remove_service_level`: a non-static removal falls back to the
        saved static configuration when there is one; a static removal
        drops the static configuration and only static levels. */
    method DoRemoveServiceLevel(name: string, removeStatic: bool)
      requires Valid()
      modifies this
      ensures Valid()
      ensures forall n :: n != name ==> (n in db <==> n in old(db)) && (n in db ==> db[n] == old(db)[n])
      ensures name !in old(db) ==> db == old(db) && staticConfigurations == old(staticConfigurations)
      ensures name in old(db) && removeStatic ==>
        staticConfigurations == old(staticConfigurations) - {name} &&
        (old(db)[name].isStatic ==> name !in db) &&
        (!old(db)[name].isStatic ==> db == old(db))
      ensures name in old(db) && !removeStatic ==>
        staticConfigurations == old(staticConfigurations) &&
        (old(db)[name].isStatic ==> db == old(db)) &&
        (!old(db)[name].isStatic && name in old(staticConfigurations) ==>
           name in db && db[name].isStatic && db[name].slo == old(staticConfigurations)[name]) &&
        (!old(db)[name].isStatic && name !in old(staticConfigurations) ==> name !in db)
    {
      if name in db {
        var staticExists := false;
        if removeStatic {
          staticConfigurations := staticConfigurations - {name};
        } else {
          staticExists := name in staticConfigurations;
        }
        if removeStatic && db[name].isStatic {
          NotifyServiceLevelRemoved(name);
        } else if !removeStatic && !db[name].isStatic {
          if staticExists {
            db := db[name := db[name].(isStatic := true)];
            NotifyServiceLevelUpdated(name, staticConfigurations[name]);
          } else {
            NotifyServiceLevelRemoved(name);
          }
        }
      }
    }

    /** `update_service_levels_from_distributed_data`: every deletion is
        applied before any addition or update.  Afterwards every level of
        the distributed table runs its options, and every other running
        level runs its static configuration. */
    method UpdateServiceLevelsFromDistributedData(serviceLevels: map<string, Options>)
      requires Valid()
      modifies this
      ensures Valid()
      ensures forall n :: n in serviceLevels ==> n in db && db[n].slo == serviceLevels[n]
      ensures forall n :: n in db ==> n in serviceLevels || db[n].isStatic
    {
      var current := db;
      var forAddOrUpdate, forDelete := DiffServiceLevels(current, serviceLevels);
      var deletes := SortStrings(forDelete.Keys);
      RemoveAll(deletes);
      var adds := SortStrings(forAddOrUpdate.Keys);
      AddAll(adds, serviceLevels);
    }

    /** The deletion loop: each name falls back to its static configuration
        or stops running; no other level changes. */
    method RemoveAll(names: seq<string>)
      requires Valid()
      modifies this
      ensures Valid()
      ensures forall n :: n in db ==> n in old(db)
      ensures forall n :: n in names && n in db ==> db[n].isStatic
      ensures forall n :: n !in names ==> (n in db <==> n in old(db)) && (n in db ==> db[n] == old(db)[n])
    {
      for i := 0 to |names|
        invariant Valid()
        invariant forall n :: n in db ==> n in old(db)
        invariant forall n :: n in names[..i] && n in db ==> db[n].isStatic
        invariant forall n :: n !in names[..i] ==> (n in db <==> n in old(db)) && (n in db ==> db[n] == old(db)[n])
      {
        assert names[..i + 1] == names[..i] + [names[i]];
        DoRemoveServiceLevel(names[i], false);
      }
      assert names[..|names|] == names;
    }

    /** The addition loop: each name runs its options from the table as a
        non-static level; no other level changes. */
    method AddAll(names: seq<string>, serviceLevels: map<string, Options>)
      requires Valid()
      requires forall n :: n in names ==> n in serviceLevels
      modifies this
      ensures Valid()
      ensures forall n :: n in names ==> n in db && db[n].slo == serviceLevels[n] && !db[n].isStatic
      ensures forall n :: n !in names ==> (n in db <==> n in old(db)) && (n in db ==> db[n] == old(db)[n])
    {
      for i := 0 to |names|
        invariant Valid()
        invariant forall n :: n in names[..i] ==> n in db && db[n].slo == serviceLevels[n] && !db[n].isStatic
        invariant forall n :: n !in names[..i] ==> (n in db <==> n in old(db)) && (n in db ==> db[n] == old(db)[n])
      {
        assert names[..i + 1] == names[..i] + [names[i]];
        DoAddServiceLevel(names[i], serviceLevels[names[i]], false);
      }
      assert names[..|names|] == names;
    }
  }

  /** The id of the `n`-th scheduling group the controller creates. */
  function NewGroup(n: nat): nat
  {
    n + 1
  }

  // ----- the diff ----------------------------------------------------------------

  /** A name on both sides is to be updated when its options differ. */
  function UpdateStep(current: map<string, ServiceLevel>, serviceLevels: map<string, Options>, n: string,
                      forAddOrUpdate: map<string, Options>): map<string, Options>
    requires n in current && n in serviceLevels
  {
    if current[n].slo != serviceLevels[n] then forAddOrUpdate[n := serviceLevels[n]] else forAddOrUpdate
  }

  /** A running level missing from the table is to be deleted unless it is static. */
  function DeleteStep(current: map<string, ServiceLevel>, n: string, forDelete: map<string, Options>): map<string, Options>
    requires n in current
  {
    if !current[n].isStatic then forDelete[n := current[n].slo] else forDelete
  }

  /** No name walked on one side is still ahead on the other side. */
  ghost predicate Separated(ck: seq<string>, nk: seq<string>, i: nat, j: nat)
    requires i <= |ck| && j <= |nk|
  {
    (forall n :: n in ck[..i] ==> n !in nk[j..]) &&
    (forall n :: n in nk[..j] ==> n !in ck[i..])
  }

  /** The deletions decided by walking the first `i` running names. */
  ghost predicate DeletesDecided(current: map<string, ServiceLevel>, serviceLevels: map<string, Options>,
                                 ck: seq<string>, i: nat, forDelete: map<string, Options>)
    requires forall n :: n in ck ==> n in current
    requires i <= |ck|
  {
    (forall n :: n in forDelete <==> n in ck[..i] && n !in serviceLevels && !current[n].isStatic) &&
    (forall n :: n in forDelete ==> forDelete[n] == current[n].slo)
  }

  /** The additions and updates decided by walking the first `j` table names. */
  ghost predicate AddsDecided(current: map<string, ServiceLevel>, serviceLevels: map<string, Options>,
                              nk: seq<string>, j: nat, forAddOrUpdate: map<string, Options>)
    requires forall n :: n in nk ==> n in serviceLevels
    requires j <= |nk|
  {
    (forall n :: n in forAddOrUpdate <==> n in nk[..j] && (n !in current || current[n].slo != serviceLevels[n])) &&
    (forall n :: n in forAddOrUpdate ==> forAddOrUpdate[n] == serviceLevels[n])
  }

  /** A name below an element of a sorted list is not in the list from there on. */
  lemma NotFrom(x: string, s: seq<string>, j: nat)
    requires StrictlySorted(s) && j <= |s|
    requires j < |s| ==> StrLt(x, s[j])
    ensures x !in s[j..]
  {
    forall q | j <= q < |s| ensures s[q] != x {
      if s[q] == x {
        if q > j { StrLtTransitive(x, s[j], s[q]); }
        StrLtIrreflexive(x);
      }
    }
  }

  /** An element of a sorted list occurs only at its own place. */
  lemma OnlyAt(s: seq<string>, i: nat)
    requires StrictlySorted(s) && i < |s|
    ensures s[i] !in s[..i] && s[i] !in s[i + 1..]
  {
    forall q | 0 <= q < |s| && q != i ensures s[q] != s[i] {
      if s[q] == s[i] { StrLtIrreflexive(s[i]); }
    }
  }

  /** Walking one more running name. */
  lemma DeletesStep(current: map<string, ServiceLevel>, serviceLevels: map<string, Options>,
                    ck: seq<string>, i: nat, forDelete: map<string, Options>)
    requires forall n :: n in ck ==> n in current
    requires i < |ck| && DeletesDecided(current, serviceLevels, ck, i, forDelete)
    ensures ck[i] in serviceLevels ==> DeletesDecided(current, serviceLevels, ck, i + 1, forDelete)
    ensures ck[i] !in serviceLevels ==> DeletesDecided(current, serviceLevels, ck, i + 1, DeleteStep(current, ck[i], forDelete))
  {
    assert ck[..i + 1] == ck[..i] + [ck[i]];
  }

  /** Walking one more table name. */
  lemma AddsStep(current: map<string, ServiceLevel>, serviceLevels: map<string, Options>,
                 nk: seq<string>, j: nat, forAddOrUpdate: map<string, Options>)
    requires forall n :: n in nk ==> n in serviceLevels
    requires j < |nk| && AddsDecided(current, serviceLevels, nk, j, forAddOrUpdate)
    ensures nk[j] in current ==> AddsDecided(current, serviceLevels, nk, j + 1, UpdateStep(current, serviceLevels, nk[j], forAddOrUpdate))
    ensures nk[j] !in current ==> AddsDecided(current, serviceLevels, nk, j + 1, forAddOrUpdate[nk[j] := serviceLevels[nk[j]]])
  {
    assert nk[..j + 1] == nk[..j] + [nk[j]];
  }

  /** Walking a name present on both sides keeps the walked names apart. */
  lemma SeparatedEqual(ck: seq<string>, nk: seq<string>, i: nat, j: nat)
    requires StrictlySorted(ck) && StrictlySorted(nk)
    requires i < |ck| && j < |nk| && ck[i] == nk[j] && Separated(ck, nk, i, j)
    ensures Separated(ck, nk, i + 1, j + 1)
  {
    assert ck[..i + 1] == ck[..i] + [ck[i]];
    assert nk[..j + 1] == nk[..j] + [nk[j]];
    assert ck[i..] == [ck[i]] + ck[i + 1..];
    assert nk[j..] == [nk[j]] + nk[j + 1..];
    OnlyAt(ck, i);
    OnlyAt(nk, j);
  }

  /** A running name below the next table name is not in the table. */
  lemma SeparatedDelete(ck: seq<string>, nk: seq<string>, i: nat, j: nat)
    requires StrictlySorted(nk)
    requires i < |ck| && j <= |nk| && (j < |nk| ==> StrLt(ck[i], nk[j])) && Separated(ck, nk, i, j)
    ensures ck[i] !in nk
    ensures Separated(ck, nk, i + 1, j)
  {
    assert ck[..i + 1] == ck[..i] + [ck[i]];
    assert ck[i..] == [ck[i]] + ck[i + 1..];
    assert nk == nk[..j] + nk[j..];
    NotFrom(ck[i], nk, j);
  }

  /** A table name below the next running name is not running. */
  lemma SeparatedAdd(ck: seq<string>, nk: seq<string>, i: nat, j: nat)
    requires StrictlySorted(ck)
    requires i <= |ck| && j < |nk| && (i < |ck| ==> StrLt(nk[j], ck[i])) && Separated(ck, nk, i, j)
    ensures nk[j] !in ck
    ensures Separated(ck, nk, i, j + 1)
  {
    assert nk[..j + 1] == nk[..j] + [nk[j]];
    assert nk[j..] == [nk[j]] + nk[j + 1..];
    assert ck == ck[..i] + ck[i..];
    NotFrom(nk[j], ck, i);
  }

  /** The diff of `update_service_levels_from_distributed_data`: a walk over
      both name-ordered maps.  A name in both with other options is to be
      updated; a name only among the running levels is to be deleted unless
      it is static; a name only in the table is to be added. */
  method DiffServiceLevels(current: map<string, ServiceLevel>, serviceLevels: map<string, Options>)
    returns (forAddOrUpdate: map<string, Options>, forDelete: map<string, Options>)
    ensures forall n :: n in forDelete <==> n in current && n !in serviceLevels && !current[n].isStatic
    ensures forall n :: n in forDelete ==> forDelete[n] == current[n].slo
    ensures forall n :: n in forAddOrUpdate <==> n in serviceLevels && (n !in current || current[n].slo != serviceLevels[n])
    ensures forall n :: n in forAddOrUpdate ==> forAddOrUpdate[n] == serviceLevels[n]
  {
    var ck := SortStrings(current.Keys);
    var nk := SortStrings(serviceLevels.Keys);
    forAddOrUpdate, forDelete := map[], map[];
    var i, j := 0, 0;
    assert ck[i..] == ck && nk[j..] == nk;
    while i < |ck| && j < |nk|
      invariant i <= |ck| && j <= |nk| && Separated(ck, nk, i, j)
      invariant StrictlySorted(ck) && StrictlySorted(nk)
      invariant forall n :: n in ck ==> n in current
      invariant forall n :: n in nk ==> n in serviceLevels
      invariant DeletesDecided(current, serviceLevels, ck, i, forDelete)
      invariant AddsDecided(current, serviceLevels, nk, j, forAddOrUpdate)
      decreases |ck| - i + |nk| - j
    {
      var c, n := ck[i], nk[j];
      if c == n {
        SeparatedEqual(ck, nk, i, j);
        DeletesStep(current, serviceLevels, ck, i, forDelete);
        AddsStep(current, serviceLevels, nk, j, forAddOrUpdate);
        forAddOrUpdate := UpdateStep(current, serviceLevels, n, forAddOrUpdate);
        i, j := i + 1, j + 1;
      } else if StrLt(c, n) {
        SeparatedDelete(ck, nk, i, j);
        DeletesStep(current, serviceLevels, ck, i, forDelete);
        forDelete := DeleteStep(current, c, forDelete);
        i := i + 1;
      } else {
        StrLtTotal(c, n);
        SeparatedAdd(ck, nk, i, j);
        AddsStep(current, serviceLevels, nk, j, forAddOrUpdate);
        forAddOrUpdate := forAddOrUpdate[n := serviceLevels[n]];
        j := j + 1;
      }
    }
    while i < |ck|
      invariant i <= |ck| && j <= |nk| && (i < |ck| ==> j == |nk|) && Separated(ck, nk, i, j)
      invariant DeletesDecided(current, serviceLevels, ck, i, forDelete)
    {
      SeparatedDelete(ck, nk, i, j);
      DeletesStep(current, serviceLevels, ck, i, forDelete);
      forDelete := DeleteStep(current, ck[i], forDelete);
      i := i + 1;
    }
    while j < |nk|
      invariant j <= |nk| && i == |ck| && Separated(ck, nk, i, j)
      invariant AddsDecided(current, serviceLevels, nk, j, forAddOrUpdate)
    {
      var n := nk[j];
      SeparatedAdd(ck, nk, i, j);
      AddsStep(current, serviceLevels, nk, j, forAddOrUpdate);
      forAddOrUpdate := forAddOrUpdate[n := serviceLevels[n]];
      j := j + 1;
    }
    WalkedAll(current, serviceLevels, ck, nk, forAddOrUpdate, forDelete);
  }

  /** Once both name lists are walked, the decisions cover both maps. */
  lemma WalkedAll(current: map<string, ServiceLevel>, serviceLevels: map<string, Options>,
                  ck: seq<string>, nk: seq<string>, forAddOrUpdate: map<string, Options>, forDelete: map<string, Options>)
    requires forall n :: n in ck <==> n in current
    requires forall n :: n in nk <==> n in serviceLevels
    requires DeletesDecided(current, serviceLevels, ck, |ck|, forDelete)
    requires AddsDecided(current, serviceLevels, nk, |nk|, forAddOrUpdate)
    ensures forall n :: n in forDelete <==> n in current && n !in serviceLevels && !current[n].isStatic
    ensures forall n :: n in forDelete ==> forDelete[n] == current[n].slo
    ensures forall n :: n in forAddOrUpdate <==> n in serviceLevels && (n !in current || current[n].slo != serviceLevels[n])
    ensures forall n :: n in forAddOrUpdate ==> forAddOrUpdate[n] == serviceLevels[n]
  {
    assert ck[..|ck|] == ck && nk[..|nk|] == nk;
  }

  // ----- distributed writes -------------------------------------------------

  datatype SetOp = AddOp | AddIfNotExists | AlterOp

  function MissingLevelMessage(name: string): string
  {
    "The service level '" + name + "' desn't exist."
  }

  function ExistingLevelMessage(name: string): string
  {
    "The service level '" + name + "' already exists."
  }

  /** `set_distributed_service_level` on the table read back: the table
      after the write, or the request error. */
  function SetDistributedServiceLevel(info: map<string, Options>, name: string, slo: Options, op: SetOp): (r: Result<map<string, Options>>)
    ensures r.Err? <==> (name !in info && op == AlterOp) || (name in info && op == AddOp)
    ensures r.Err? ==> r.error == (if name in info then ExistingLevelMessage(name) else MissingLevelMessage(name))
    ensures r.Ok? && name in info && op == AddIfNotExists ==> r.value == info
    ensures r.Ok? && !(name in info && op == AddIfNotExists) ==> r.value == info[name := slo]
  {
    if name !in info then
      if op == AlterOp then Err(MissingLevelMessage(name)) else Ok(info[name := slo])
    else if op == AddOp then Err(ExistingLevelMessage(name))
    else if op == AddIfNotExists then Ok(info)
    else Ok(info[name := slo])
  }

  // ----- options of a set of roles ------------------------------------------

  /** The options one role maps to: its `service_level` attribute names a
      running level; a failed lookup counts as no attribute. */
  function RoleOptions(role: string, attributes: map<string, string>, db: map<string, ServiceLevel>): Option<Options>
  {
    if role in attributes && attributes[role] in db then
      Some(db[attributes[role]].slo.(sharesName := Some(attributes[role])))
    else None
  }

  /** The reducer of `find_service_level`: an absent side yields the other. */
  function Combine(first: Option<Options>, second: Option<Options>, merge: (Options, Options) -> Options): Option<Options>
  {
    if second.None? then first
    else if first.None? then second
    else Some(merge(first.value, second.value))
  }

  /** `find_service_level`: the fold over the roles, from no options;
      `merge` is `service_level_options::merge_with`. Roles find options
      exactly when one of them has a running level, and a single such role
      gets its own level's options. */
  function FindServiceLevel(roles: seq<string>, attributes: map<string, string>, db: map<string, ServiceLevel>,
                            merge: (Options, Options) -> Options): (r: Option<Options>)
    ensures r.Some? <==> exists i :: 0 <= i < |roles| && RoleOptions(roles[i], attributes, db).Some?
    ensures (forall i :: 0 <= i < |roles| - 1 ==> RoleOptions(roles[i], attributes, db).None?) ==>
      r == (if roles == [] then None else RoleOptions(roles[|roles| - 1], attributes, db))
  {
    if roles == [] then None
    else
      var init := roles[..|roles| - 1];
      assert forall i :: 0 <= i < |init| ==> init[i] == roles[i];
      Combine(FindServiceLevel(init, attributes, db, merge),
              RoleOptions(roles[|roles| - 1], attributes, db), merge)
  }
}
