/** The pure decisions of the storage service: the external status a mode
    is reported as, whether a node-operation command is admitted, the two
    option-list parsers, the wrap-around merge of `describe_ring`, the split
    count of `get_splits`, and the ranges between consecutive ring tokens. */
module StorageService {
  import opened Util
  import opened Ring
  import opened Text

  // ----- mode mapping ------------------------------------------------------------

  datatype Mode = None | Starting | Joining | Bootstrap | Normal | Leaving
                | Decommissioned | Moving | Draining | Drained

  datatype ExternalStatus = Unknown | StatusStarting | StatusJoining | StatusNormal
                          | StatusLeaving | StatusDecommissioned | StatusDraining
                          | StatusDrained | StatusMoving

  /** `map_operation_mode`. The trailing `UNKNOWN` of the source is reached by
      no enumerator, so the match is total without it. The status is STARTING
      exactly for NONE and STARTING, and JOINING exactly for BOOTSTRAP and
      JOINING. */
  function MapOperationMode(m: Mode): (r: ExternalStatus)
    ensures r != Unknown
    ensures r == StatusStarting <==> m == Mode.None || m == Starting
    ensures r == StatusJoining <==> m == Bootstrap || m == Joining
  {
    match m
    case None => StatusStarting
    case Starting => StatusStarting
    case Bootstrap => StatusJoining
    case Joining => StatusJoining
    case Normal => StatusNormal
    case Leaving => StatusLeaving
    case Decommissioned => StatusDecommissioned
    case Draining => StatusDraining
    case Drained => StatusDrained
    case Moving => StatusMoving
  }

  /** Only NONE/STARTING and BOOTSTRAP/JOINING share a status. */
  lemma OnlyStartAndJoinCollapse(m1: Mode, m2: Mode)
    ensures MapOperationMode(m1) == MapOperationMode(m2) && m1 != m2 ==>
              ({m1, m2} == {Mode.None, Starting} || {m1, m2} == {Bootstrap, Joining})
  {
  }

  // ----- node_ops_cmd_check --------------------------------------------------------

  datatype NodeOpsCmd =
    | RemovenodePrepare | RemovenodeHeartbeat | RemovenodeSyncData | RemovenodeAbort | RemovenodeDone
    | ReplacePrepare | ReplacePrepareMarkAlive | ReplacePreparePendingRanges | ReplaceHeartbeat
    | ReplaceAbort | ReplaceDone
    | DecommissionPrepare | DecommissionHeartbeat | DecommissionAbort | DecommissionDone
    | BootstrapPrepare | BootstrapHeartbeat | BootstrapAbort | BootstrapDone
    | QueryPendingOps | RepairUpdater

  datatype Uuid = Uuid(msb: int, lsb: int)

  predicate StartsOperation(cmd: NodeOpsCmd)
  {
    cmd == RemovenodePrepare || cmd == ReplacePrepare || cmd == DecommissionPrepare || cmd == BootstrapPrepare
  }

  /** `node_ops_cmd_check`: `pending` is the key set of `_node_ops`. A
      failure is the `runtime_error` the source throws. */
  function NodeOpsCmdCheck(pending: set<Uuid>, cmd: NodeOpsCmd, opsUuid: Uuid): (r: Outcome)
    ensures StartsOperation(cmd) ==> (r.Pass? <==> pending == {})
    ensures !StartsOperation(cmd) ==> (r.Pass? <==> pending == {opsUuid})
    ensures !StartsOperation(cmd) && pending == {} ==> r == Fail("the node ops is unknown")
  {
    if StartsOperation(cmd) then
      if pending != {} then Fail("pending node ops is in progress") else Pass
    else if |pending| == 1 && opsUuid in pending then
      OneElement(pending, opsUuid);
      Pass
    else if |pending| == 0 then Fail("the node ops is unknown")
    else Fail("pending node ops is in progress")
  }

  lemma OneElement(s: set<Uuid>, x: Uuid)
    requires |s| == 1 && x in s
    ensures s == {x}
  {
    assert |s - {x}| == 0;
    assert s - {x} == {};
  }

  /** An admitted command never belongs beside another node operation: at
      most the request's own operation is pending. */
  lemma AdmittedIsExclusive(pending: set<Uuid>, cmd: NodeOpsCmd, opsUuid: Uuid)
    requires NodeOpsCmdCheck(pending, cmd, opsUuid).Pass?
    ensures pending <= {opsUuid}
    ensures |pending| <= 1
  {
  }

  // ----- get_ignore_dead_nodes_for_replace -------------------------------------------

  /** One comma-separated entry with its quotes turned into spaces, then
      `trim_all`-ed. */
  function CleanEntry(p: string): string
  {
    TrimAll(Replace(Replace(p, '"', ' '), '\'', ' '))
  }

  /** The addresses named by `pieces`, in order; `isAddress` stands for the
      `inet_address` parser, whose failure becomes the `runtime_error`. The
      call succeeds iff every non-empty cleaned piece is an address; the
      result skips empty pieces and holds only addresses without quotes or
      surrounding spaces. */
  function IgnoreNodes(pieces: seq<string>, isAddress: string -> bool): (r: Result<seq<string>>)
    ensures r.Ok? <==> AllAddresses(pieces, isAddress)
    ensures r.Ok? ==> |r.value| <= |pieces| && CleanAddresses(r.value, isAddress)
  {
    if pieces == [] then Ok([])
    else
      var init := pieces[..|pieces| - 1];
      var last := pieces[|pieces| - 1];
      AllAddressesSnoc(pieces, isAddress);
      CleanAddressesSnoc(IgnoreNodes(init, isAddress), last, isAddress);
      match IgnoreNodes(init, isAddress)
      case Err(e) => Err(e)
      case Ok(nodes) =>
        var n := CleanEntry(last);
        if n == [] then Ok(nodes)
        else if isAddress(n) then Ok(nodes + [n])
        else Err("Failed to parse --ignore-dead-nodes-for-replace parameter")
  }

  /** Every non-empty cleaned piece is an address. */
  predicate AllAddresses(pieces: seq<string>, isAddress: string -> bool)
  {
    forall i :: 0 <= i < |pieces| && CleanEntry(pieces[i]) != [] ==> isAddress(CleanEntry(pieces[i]))
  }

  /** Non-empty addresses without quotes or surrounding blanks. */
  predicate CleanAddresses(nodes: seq<string>, isAddress: string -> bool)
  {
    forall k :: 0 <= k < |nodes| ==>
      nodes[k] != [] && isAddress(nodes[k]) && '"' !in nodes[k] && '\'' !in nodes[k] &&
      !IsSpace(nodes[k][0]) && !IsSpace(nodes[k][|nodes[k]| - 1])
  }

  /** The pieces all parse iff the ones before the last do and the last does. */
  lemma AllAddressesSnoc(pieces: seq<string>, isAddress: string -> bool)
    requires pieces != []
    ensures var n := CleanEntry(pieces[|pieces| - 1]);
      AllAddresses(pieces, isAddress) <==>
        AllAddresses(pieces[..|pieces| - 1], isAddress) && (n != [] ==> isAddress(n))
  {
    var init := pieces[..|pieces| - 1];
    assert forall i :: 0 <= i < |init| ==> init[i] == pieces[i];
  }

  /** A parsed address appended to clean addresses keeps them clean. */
  lemma CleanAddressesSnoc(prev: Result<seq<string>>, last: string, isAddress: string -> bool)
    ensures var n := CleanEntry(last);
      prev.Ok? && CleanAddresses(prev.value, isAddress) && n != [] && isAddress(n) ==>
        CleanAddresses(prev.value + [n], isAddress)
  {
    CleanHasNoQuotes(last);
    TrimAllShape(Replace(Replace(last, '"', ' '), '\'', ' '));
    var n := CleanEntry(last);
    if prev.Ok? && CleanAddresses(prev.value, isAddress) && n != [] && isAddress(n) {
      var nodes := prev.value + [n];
      forall k | 0 <= k < |nodes|
        ensures nodes[k] != [] && isAddress(nodes[k]) && '"' !in nodes[k] && '\'' !in nodes[k] &&
                !IsSpace(nodes[k][0]) && !IsSpace(nodes[k][|nodes[k]| - 1])
      {
        if k < |prev.value| {
          assert nodes[k] == prev.value[k];
        }
      }
    }
  }

  /** `get_ignore_dead_nodes_for_replace` on the option's text. */
  method GetIgnoreDeadNodesForReplace(option: string, isAddress: string -> bool) returns (r: Result<seq<string>>)
    ensures r == IgnoreNodes(Split(option, ','), isAddress)
  {
    r := ParseIgnoreNodes(Split(option, ','), isAddress);
  }

  /** The loop of `get_ignore_dead_nodes_for_replace` over the split entries. */
  method ParseIgnoreNodes(pieces: seq<string>, isAddress: string -> bool) returns (r: Result<seq<string>>)
    ensures r == IgnoreNodes(pieces, isAddress)
  {
    var nodes: seq<string> := [];
    var i := 0;
    while i < |pieces|
      invariant 0 <= i <= |pieces|
      invariant IgnoreNodes(pieces[..i], isAddress) == Ok(nodes)
    {
      IgnoreNodesStep(pieces, i, isAddress);
      var n := CleanEntry(pieces[i]);
      if n != [] {
        if !isAddress(n) {
          IgnoreNodesErrSticks(pieces, i + 1, isAddress);
          assert pieces[..|pieces|] == pieces;
          return Err("Failed to parse --ignore-dead-nodes-for-replace parameter");
        }
        nodes := nodes + [n];
      }
      i := i + 1;
    }
    assert pieces[..i] == pieces;
    return Ok(nodes);
  }

  /** One more piece: skipped when it cleans to nothing, appended when it
      is an address, and an error otherwise. */
  lemma IgnoreNodesStep(pieces: seq<string>, i: nat, isAddress: string -> bool)
    requires i < |pieces|
    ensures var n := CleanEntry(pieces[i]);
      IgnoreNodes(pieces[..i + 1], isAddress) ==
        match IgnoreNodes(pieces[..i], isAddress)
        case Err(e) => Err(e)
        case Ok(nodes) =>
          if n == [] then Ok(nodes)
          else if isAddress(n) then Ok(nodes + [n])
          else Err("Failed to parse --ignore-dead-nodes-for-replace parameter")
  {
    assert pieces[..i + 1][..i] == pieces[..i];
  }

  lemma {:induction false} IgnoreNodesErrSticks(pieces: seq<string>, i: nat, isAddress: string -> bool)
    requires i <= |pieces|
    requires IgnoreNodes(pieces[..i], isAddress).Err?
    ensures IgnoreNodes(pieces, isAddress) == IgnoreNodes(pieces[..i], isAddress)
    decreases |pieces| - i
  {
    if i < |pieces| {
      assert pieces[..i + 1][..i] == pieces[..i];
      IgnoreNodesErrSticks(pieces, i + 1, isAddress);
    } else {
      assert pieces[..i] == pieces;
    }
  }

  /** The quotes turned into spaces stay out of the trimmed entry. */
  lemma CleanHasNoQuotes(p: string)
    ensures '"' !in CleanEntry(p) && '\'' !in CleanEntry(p)
  {
    var q := Replace(Replace(p, '"', ' '), '\'', ' ');
    ReplaceAt(p, '"', ' ');
    ReplaceAt(Replace(p, '"', ' '), '\'', ' ');
    assert '"' !in q && '\'' !in q;
    TrimAllChars(q);
  }

  /** `trim_all` keeps only characters that were in its input. */
  lemma TrimAllChars(s: string)
    ensures forall c :: c in TrimAll(s) ==> c in s
  {
    var t := TrimRight(TrimLeft(s));
    TrimLeftShape(s);
    TrimRightShape(TrimLeft(s));
    CompressChars(t);
    assert forall c :: c in t ==> c in TrimLeft(s);
  }

  lemma {:induction false} CompressChars(s: string)
    ensures forall c :: c in Compress(s) ==> c in s
    decreases |s|
  {
    if |s| >= 2 {
      if IsSpace(s[0]) && IsSpace(s[1]) {
        CompressChars([s[0]] + s[2..]);
      } else {
        CompressChars(s[1..]);
      }
    }
  }

  // ----- is_repair_based_node_ops_enabled ---------------------------------------------

  datatype StreamReason = Unspecified | BootstrapReason | DecommissionReason | RemovenodeReason
                        | RebuildReason | RepairReason | ReplaceReason

  /** The source's `reason_map`. */
  function ReasonNamed(op: string): Option<StreamReason>
  {
    if op == "replace" then Some(ReplaceReason)
    else if op == "bootstrap" then Some(BootstrapReason)
    else if op == "decommission" then Some(DecommissionReason)
    else if op == "removenode" then Some(RemovenodeReason)
    else if op == "rebuild" then Some(RebuildReason)
    else Option.None
  }

  /** The reasons the entries name; an entry that is neither empty nor a
      known name is the `invalid_argument` of the source. */
  function EnabledReasons(ops: seq<string>): Result<set<StreamReason>>
  {
    if ops == [] then Ok({})
    else
      match EnabledReasons(ops[..|ops| - 1])
      case Err(e) => Err(e)
      case Ok(set_) =>
        var op := ops[|ops| - 1];
        if op == [] then Ok(set_)
        else if ReasonNamed(op).Some? then Ok(set_ + {ReasonNamed(op).value})
        else Err("unsupported operation name")
  }

  /** The entries of `allowed_repair_based_node_ops` as the source splits
      them: the whole string is trimmed first, and only then are quotes
      turned into spaces. No entry holds a comma, and the entries joined by
      commas give back the trimmed option, now free of quotes. */
  function AllowedOps(option: string): (ops: seq<string>)
    ensures |ops| >= 1
    ensures forall i :: 0 <= i < |ops| ==> ',' !in ops[i]
    ensures JoinWith(',', ops) == Replace(Replace(TrimAll(option), '"', ' '), '\'', ' ')
    ensures '"' !in JoinWith(',', ops) && '\'' !in JoinWith(',', ops)
  {
    var q := Replace(Replace(TrimAll(option), '"', ' '), '\'', ' ');
    ReplaceAt(TrimAll(option), '"', ' ');
    ReplaceAt(Replace(TrimAll(option), '"', ' '), '\'', ' ');
    assert '"' !in q && '\'' !in q;
    SplitJoin(q, ',');
    SplitPiecesFree(q, ',');
    Split(q, ',')
  }

  /** `is_repair_based_node_ops_enabled`. */
  method IsRepairBasedNodeOpsEnabled(option: string, globalEnabled: bool, reason: StreamReason)
    returns (r: Result<bool>)
    ensures EnabledReasons(AllowedOps(option)).Err? ==> r.Err?
    ensures EnabledReasons(AllowedOps(option)).Ok? ==>
              r == Ok(globalEnabled && reason in EnabledReasons(AllowedOps(option)).value)
  {
    var enabled := CollectReasons(AllowedOps(option));
    if enabled.Err? {
      return Err(enabled.error);
    }
    return Ok(globalEnabled && reason in enabled.value);
  }

  /** The loop over the entries, filling `enabled_set`. */
  method CollectReasons(ops: seq<string>) returns (r: Result<set<StreamReason>>)
    ensures r == EnabledReasons(ops)
  {
    var enabled: set<StreamReason> := {};
    var i := 0;
    while i < |ops|
      invariant 0 <= i <= |ops|
      invariant EnabledReasons(ops[..i]) == Ok(enabled)
    {
      assert ops[..i + 1][..i] == ops[..i];
      var op := ops[i];
      if op != [] {
        var found := ReasonNamed(op);
        if found.None? {
          EnabledErrSticks(ops, i + 1);
          assert ops[..|ops|] == ops;
          return EnabledReasons(ops);
        }
        enabled := enabled + {found.value};
      }
      i := i + 1;
    }
    assert ops[..i] == ops;
    return Ok(enabled);
  }

  lemma {:induction false} EnabledErrSticks(ops: seq<string>, i: nat)
    requires i <= |ops|
    requires EnabledReasons(ops[..i]).Err?
    ensures EnabledReasons(ops) == EnabledReasons(ops[..i])
    decreases |ops| - i
  {
    if i < |ops| {
      assert ops[..i + 1][..i] == ops[..i];
      EnabledErrSticks(ops, i + 1);
    } else {
      assert ops[..i] == ops;
    }
  }

  /** The list parses exactly when every non-empty entry is one of the five
      names, and then the enabled set is the set of reasons they name. */
  lemma {:induction false} EnabledReasonsMeaning(ops: seq<string>)
    ensures EnabledReasons(ops).Ok? <==>
              forall i :: 0 <= i < |ops| && ops[i] != [] ==> ReasonNamed(ops[i]).Some?
    ensures EnabledReasons(ops).Ok? ==>
              forall x :: x in EnabledReasons(ops).value <==>
                exists i :: 0 <= i < |ops| && ReasonNamed(ops[i]) == Some(x)
  {
    if ops != [] {
      var init := ops[..|ops| - 1];
      EnabledReasonsMeaning(init);
      assert forall i :: 0 <= i < |init| ==> init[i] == ops[i];
      if EnabledReasons(ops).Ok? {
        forall x ensures x in EnabledReasons(ops).value <==>
                           exists i :: 0 <= i < |ops| && ReasonNamed(ops[i]) == Some(x) {
          if x in EnabledReasons(ops).value && x !in EnabledReasons(init).value {
            assert ReasonNamed(ops[|ops| - 1]) == Some(x);
          }
          if i :| 0 <= i < |ops| && ReasonNamed(ops[i]) == Some(x) {
            if i < |init| {
              assert ReasonNamed(init[i]) == Some(x);
            }
          }
        }
      }
    }
  }

  /** A name of lower-case letters, as every entry of `reason_map` is. */
  predicate PlainName(n: string)
  {
    n != [] && forall i :: 0 <= i < |n| ==> 'a' <= n[i] <= 'z'
  }

  /** As written: the whole list is trimmed before its quotes become
      spaces, so a quoted name such as `'replace'` is left as ` replace `,
      which no name matches, and the list is refused. */
  lemma QuotedNameRefused(n: string)
    requires PlainName(n)
    ensures EnabledReasons(AllowedOps("'" + n + "'")).Err?
  {
    var s := "'" + n + "'";
    var q := " " + n + " ";
    QuotedNameTrimmed(n);
    QuotesBlanked(n);
    SplitNoSeparator(q, ',');
    assert AllowedOps(s) == [q];
    assert [q][..0] == NoEntries();
    assert ReasonNamed(q).None? by {
      assert q[0] == ' ';
    }
  }

  lemma QuotedNameTrimmed(n: string)
    requires PlainName(n)
    ensures TrimAll("'" + n + "'") == "'" + n + "'"
  {
    var s := "'" + n + "'";
    assert forall i :: 0 <= i < |s| ==> !IsSpace(s[i]) by {
      forall i | 0 <= i < |s| ensures !IsSpace(s[i]) {
        if 0 < i < |s| - 1 {
          assert s[i] == n[i - 1];
        }
      }
    }
    TrimAllKeeps(s);
  }

  lemma QuotesBlanked(n: string)
    requires PlainName(n)
    ensures Replace(Replace("'" + n + "'", '"', ' '), '\'', ' ') == " " + n + " "
  {
    var s := "'" + n + "'";
    assert forall i :: 0 <= i < |s| ==> s[i] != '"' by {
      forall i | 0 <= i < |s| ensures s[i] != '"' {
        if 0 < i < |s| - 1 {
          assert s[i] == n[i - 1];
        }
      }
    }
    ReplaceAbsent(s, '"', ' ');
    ReplaceAt(s, '\'', ' ');
    var q := Replace(s, '\'', ' ');
    var want := " " + n + " ";
    forall i | 0 <= i < |q| ensures q[i] == want[i] {
      if 0 < i < |s| - 1 {
        assert s[i] == n[i - 1];
      }
    }
  }

  /** Corrected: each entry, with its quotes turned into spaces, is trimmed
      before the lookup, as the ignore-dead-nodes parser does. */
  function AllowedOpsCorrected(option: string): seq<string>
  {
    var pieces := Split(option, ',');
    seq(|pieces|, i requires 0 <= i < |pieces| => CleanEntry(pieces[i]))
  }

  lemma QuotedNameAcceptedCorrected(n: string)
    requires PlainName(n) && ReasonNamed(n).Some?
    ensures EnabledReasons(AllowedOpsCorrected("'" + n + "'")) == Ok({ReasonNamed(n).value})
  {
    var s := "'" + n + "'";
    var q := " " + n + " ";
    assert forall i :: 0 <= i < |s| ==> s[i] != ',' by {
      forall i | 0 <= i < |s| ensures s[i] != ',' {
        if 0 < i < |s| - 1 {
          assert s[i] == n[i - 1];
        }
      }
    }
    SplitNoSeparator(s, ',');
    QuotesBlanked(n);
    BlankedNameTrimmed(n);
    assert AllowedOpsCorrected(s) == [n];
    EnabledReasonsMeaning([n]);
    var got := EnabledReasons([n]).value;
    assert forall x :: x in got <==> x == ReasonNamed(n).value by {
      forall x ensures x in got <==> x == ReasonNamed(n).value {
        if x == ReasonNamed(n).value { assert ReasonNamed([n][0]) == Some(x); }
      }
    }
    assert got == {ReasonNamed(n).value};
    assert EnabledReasons([n]) == Ok(got);
    assert EnabledReasons(AllowedOpsCorrected(s)) == Ok(got);
  }



  lemma BlankedNameTrimmed(n: string)
    requires PlainName(n)
    ensures TrimAll(" " + n + " ") == n
  {
    var q := " " + n + " ";
    assert q[1..] == n + " ";
    assert !IsSpace(n[0]);
    assert TrimLeft(q) == n + " ";
    assert (n + " ")[..|n|] == n;
    assert TrimRight(n + " ") == n;
    PlainNameTrimmed(n);
  }

  /** As written: a list with a blank after the comma, `a, b`, splits into
      `a` and ` b`, and the second entry matches no name. */
  lemma SpacedListRefused(a: string, b: string)
    requires PlainName(a) && PlainName(b) && ReasonNamed(a).Some?
    ensures EnabledReasons(AllowedOps(a + ", " + b)).Err?
  {
    SpacedListOps(a, b);
    assert [a, " " + b][..1] == [a];
    assert [a][..0] == NoEntries();
    assert ReasonNamed(" " + b).None? by {
      assert (" " + b)[0] == ' ';
    }
  }

  /** The source's split of `a, b`: `a` and ` b`. */
  lemma SpacedListOps(a: string, b: string)
    requires PlainName(a) && PlainName(b)
    ensures AllowedOps(a + ", " + b) == [a, " " + b]
  {
    SpacedListPieces(a, b);
    SpacedListClean(a, b);
  }

  lemma SpacedListPieces(a: string, b: string)
    requires PlainName(a) && PlainName(b)
    ensures Split(a + ", " + b, ',') == [a, " " + b]
  {
    assert a + ", " + b == a + [','] + (" " + b);
    assert ',' !in a;
    SplitAfterPiece(a, ',', " " + b);
    assert ',' !in " " + b;
    SplitNoSeparator(" " + b, ',');
  }

  lemma SpacedListClean(a: string, b: string)
    requires PlainName(a) && PlainName(b)
    ensures Replace(Replace(TrimAll(a + ", " + b), '"', ' '), '\'', ' ') == a + ", " + b
  {
    var s := a + ", " + b;
    assert forall i :: 0 <= i < |s| ==> s[i] != '"' && s[i] != '\'' && (IsSpace(s[i]) ==> i == |a| + 1) by {
      forall i | 0 <= i < |s| ensures s[i] != '"' && s[i] != '\'' && (IsSpace(s[i]) ==> i == |a| + 1) {
        if i < |a| {
          assert s[i] == a[i];
        } else if i >= |a| + 2 {
          assert s[i] == b[i - |a| - 2];
        }
      }
    }
    assert !IsSpace(s[|s| - 1]) by { assert s[|s| - 1] == b[|b| - 1]; }
    TrimAllKeeps(s);
    ReplaceAbsent(s, '"', ' ');
    ReplaceAbsent(s, '\'', ' ');
  }

  /** The corrected parser accepts the same list. */
  lemma SpacedListAcceptedCorrected(a: string, b: string)
    requires PlainName(a) && PlainName(b) && ReasonNamed(a).Some? && ReasonNamed(b).Some?
    ensures EnabledReasons(AllowedOpsCorrected(a + ", " + b)) == Ok({ReasonNamed(a).value, ReasonNamed(b).value})
  {
    SpacedListPieces(a, b);
    CleanPlainName(a);
    LeadingBlankClean(b);
    assert AllowedOpsCorrected(a + ", " + b) == [a, b];
    TwoNamesEnabled(a, b);
  }

  lemma TwoNamesEnabled(a: string, b: string)
    requires ReasonNamed(a).Some? && ReasonNamed(b).Some?
    ensures EnabledReasons([a, b]) == Ok({ReasonNamed(a).value, ReasonNamed(b).value})
  {
    EnabledReasonsMeaning([a, b]);
    var got := EnabledReasons([a, b]).value;
    var want := {ReasonNamed(a).value, ReasonNamed(b).value};
    assert forall x :: x in got <==> x in want by {
      forall x ensures x in got <==> x in want {
        if x == ReasonNamed(a).value { assert ReasonNamed([a, b][0]) == Some(x); }
        if x == ReasonNamed(b).value { assert ReasonNamed([a, b][1]) == Some(x); }
      }
    }
    assert got == want;
  }


  /** A name without quotes or blanks is its own clean entry. */
  lemma CleanPlainName(n: string)
    requires n != [] && forall i :: 0 <= i < |n| ==> 'a' <= n[i] <= 'z'
    ensures CleanEntry(n) == n
  {
    PlainNameUnquoted(n);
    PlainNameTrimmed(n);
  }

  lemma PlainNameUnquoted(n: string)
    requires '"' !in n && '\'' !in n
    ensures Replace(Replace(n, '"', ' '), '\'', ' ') == n
  {
    ReplaceAbsent(n, '"', ' ');
    ReplaceAbsent(n, '\'', ' ');
  }

  lemma LeadingBlankClean(b: string)
    requires PlainName(b)
    ensures CleanEntry(" " + b) == b
  {
    var q := " " + b;
    assert forall i :: 0 <= i < |q| ==> q[i] != '"' && q[i] != '\'' by {
      forall i | 0 <= i < |q| ensures q[i] != '"' && q[i] != '\'' {
        if i > 0 { assert q[i] == b[i - 1]; }
      }
    }
    assert TrimLeft(q) == TrimLeft(b) by {
      assert q[1..] == b;
    }
    calc {
      CleanEntry(q);
      { PlainNameUnquoted(q); }
      TrimAll(q);
      TrimAll(b);
      { PlainNameTrimmed(b); }
      b;
    }
  }

  function NoEntries(): seq<string> { [] }

  lemma PlainNameTrimmed(n: string)
    requires forall i :: 0 <= i < |n| ==> 'a' <= n[i] <= 'z'
    ensures TrimAll(n) == n
  {
    TrimAllKeeps(n);
  }

  // ----- describe_ring: wrap-around merge ------------------------------------------

  /** A `token_range_endpoints`; an empty token string is an unbounded side. */
  datatype RangeEndpoints = RangeEndpoints(startToken: string, endToken: string, endpoints: seq<string>)

  /** `boost::find_if` for an empty start token: `|ranges|` when none. */
  function FirstUnboundedStart(ranges: seq<RangeEndpoints>): (i: nat)
    ensures i <= |ranges|
    ensures i < |ranges| ==> ranges[i].startToken == []
    ensures forall j :: 0 <= j < i ==> ranges[j].startToken != []
  {
    if ranges == [] || ranges[0].startToken == [] then 0 else 1 + FirstUnboundedStart(ranges[1..])
  }

  function FirstUnboundedEnd(ranges: seq<RangeEndpoints>): (i: nat)
    ensures i <= |ranges|
    ensures i < |ranges| ==> ranges[i].endToken == []
    ensures forall j :: 0 <= j < i ==> ranges[j].endToken != []
  {
    if ranges == [] || ranges[0].endToken == [] then 0 else 1 + FirstUnboundedEnd(ranges[1..])
  }

  predicate MergesWrap(ranges: seq<RangeEndpoints>)
  {
    var l := FirstUnboundedStart(ranges);
    var r := FirstUnboundedEnd(ranges);
    l != r && l < |ranges| && r < |ranges| && (set e | e in ranges[l].endpoints) == (set e | e in ranges[r].endpoints)
  }

  /** The end of `describe_ring`: the range unbounded on the left takes over
      the start of the range unbounded on the right, which is erased. */
  function MergeWrapped(ranges: seq<RangeEndpoints>): (out: seq<RangeEndpoints>)
    ensures !MergesWrap(ranges) ==> out == ranges
    ensures MergesWrap(ranges) ==> |out| == |ranges| - 1
  {
    if MergesWrap(ranges) then
      var l := FirstUnboundedStart(ranges);
      var r := FirstUnboundedEnd(ranges);
      var updated := ranges[l := ranges[l].(startToken := ranges[r].startToken)];
      updated[..r] + updated[r + 1..]
    else ranges
  }

  function StartTokens(ranges: seq<RangeEndpoints>): seq<string>
  {
    seq(|ranges|, i requires 0 <= i < |ranges| => ranges[i].startToken)
  }

  function EndTokens(ranges: seq<RangeEndpoints>): seq<string>
  {
    seq(|ranges|, i requires 0 <= i < |ranges| => ranges[i].endToken)
  }

  /** The merge drops exactly one unbounded start and keeps every other
      start token. */
  lemma MergeDropsOneUnboundedStart(ranges: seq<RangeEndpoints>)
    requires MergesWrap(ranges)
    ensures multiset(StartTokens(MergeWrapped(ranges))) + multiset{""} == multiset(StartTokens(ranges))
  {
    var l := FirstUnboundedStart(ranges);
    var r := FirstUnboundedEnd(ranges);
    var updated := ranges[l := ranges[l].(startToken := ranges[r].startToken)];
    var starts := StartTokens(updated);
    EraseTokens(updated, r);
    EraseMultiset(starts, r);
    assert starts == StartTokens(ranges)[l := ranges[r].startToken];
    UpdateMultiset(StartTokens(ranges), l, ranges[r].startToken);
    var x := ranges[r].startToken;
    var out := multiset(StartTokens(MergeWrapped(ranges)));
    assert out + multiset{x} == multiset(starts);
    assert multiset(starts) + multiset{""} == multiset(StartTokens(ranges)) + multiset{x};
    assert (out + multiset{""}) + multiset{x} == multiset(StartTokens(ranges)) + multiset{x};
    MultisetCancel(out + multiset{""}, multiset(StartTokens(ranges)), x);
  }

  lemma MultisetCancel(a: multiset<string>, b: multiset<string>, x: string)
    requires a + multiset{x} == b + multiset{x}
    ensures a == b
  {
    assert forall y :: a[y] == (a + multiset{x})[y] - multiset{x}[y];
    assert forall y :: b[y] == (b + multiset{x})[y] - multiset{x}[y];
  }

  /** ... and exactly one unbounded end, keeping every other end token. */
  lemma MergeDropsOneUnboundedEnd(ranges: seq<RangeEndpoints>)
    requires MergesWrap(ranges)
    ensures multiset(EndTokens(MergeWrapped(ranges))) + multiset{""} == multiset(EndTokens(ranges))
  {
    var l := FirstUnboundedStart(ranges);
    var r := FirstUnboundedEnd(ranges);
    var ends := EndTokens(ranges);
    assert EndTokens(MergeWrapped(ranges)) == ends[..r] + ends[r + 1..] by {
      var updated := ranges[l := ranges[l].(startToken := ranges[r].startToken)];
      EraseTokens(updated, r);
      assert EndTokens(updated) == ends;
    }
    assert ends[r] == "";
    EraseMultiset(ends, r);
  }

  /** The merged range spans from the start of the erased range to its own
      end, with its own endpoints. */
  lemma MergedRangeWraps(ranges: seq<RangeEndpoints>)
    requires MergesWrap(ranges)
    ensures var l := FirstUnboundedStart(ranges);
            var r := FirstUnboundedEnd(ranges);
            var m := if l < r then l else l - 1;
            0 <= m < |MergeWrapped(ranges)| &&
            MergeWrapped(ranges)[m] == RangeEndpoints(ranges[r].startToken, ranges[l].endToken, ranges[l].endpoints)
  {
    var l := FirstUnboundedStart(ranges);
    var r := FirstUnboundedEnd(ranges);
    var updated := ranges[l := ranges[l].(startToken := ranges[r].startToken)];
    var out := MergeWrapped(ranges);
    MergeWrappedErases(ranges);
    if l < r {
      assert out[l] == updated[..r][l] == updated[l];
    } else {
      assert out[l - 1] == updated[r + 1..][l - 1 - r] == updated[l];
    }
  }

  lemma MergeWrappedErases(ranges: seq<RangeEndpoints>)
    requires MergesWrap(ranges)
    ensures var l, r := FirstUnboundedStart(ranges), FirstUnboundedEnd(ranges);
      var updated := ranges[l := ranges[l].(startToken := ranges[r].startToken)];
      MergeWrapped(ranges) == updated[..r] + updated[r + 1..]
  {
  }

  /** Erasing a range erases its tokens. */
  lemma EraseTokens(u: seq<RangeEndpoints>, r: nat)
    requires r < |u|
    ensures StartTokens(u[..r] + u[r + 1..]) == StartTokens(u)[..r] + StartTokens(u)[r + 1..]
    ensures EndTokens(u[..r] + u[r + 1..]) == EndTokens(u)[..r] + EndTokens(u)[r + 1..]
    ensures StartTokens(u)[r] == u[r].startToken && EndTokens(u)[r] == u[r].endToken
  {
  }

  lemma EraseMultiset(s: seq<string>, r: nat)
    requires r < |s|
    ensures multiset(s[..r] + s[r + 1..]) + multiset{s[r]} == multiset(s)
  {
    assert s == s[..r] + [s[r]] + s[r + 1..];
  }

  lemma UpdateMultiset(s: seq<string>, l: nat, x: string)
    requires l < |s|
    ensures multiset(s[l := x]) + multiset{s[l]} == multiset(s) + multiset{x}
  {
    assert s == s[..l] + [s[l]] + s[l + 1..];
    assert s[l := x] == s[..l] + [x] + s[l + 1..];
  }

  // ----- get_splits: split count ----------------------------------------------------

  /** The quotient is the largest multiple count of `k` that fits in `a`. */
  lemma QuotientBounds(a: nat, k: nat)
    requires k > 0
    ensures (a / k) * k <= a < (a / k + 1) * k
  {
    var q, r := a / k, a % k;
    assert a == q * k + r;
    assert (q + 1) * k == q * k + k;
  }

  /** The number of splits `get_splits` asks for; `keysPerSplit` is a
      divisor in the source, so it must not be zero. */
  function SplitCount(tokenCount: nat, rowEstimate: nat, keysPerSplit: nat): (n: nat)
    requires keysPerSplit > 0
    ensures 1 <= n <= tokenCount / 4 + 1
    ensures n == 1 || n * keysPerSplit <= rowEstimate
    ensures n == tokenCount / 4 + 1 || n == 1 || n == rowEstimate / keysPerSplit
    ensures n < tokenCount / 4 + 1 ==> (n + 1) * keysPerSplit > rowEstimate
  {
    var maxSplitCount := tokenCount / 4 + 1;
    var wanted := rowEstimate / keysPerSplit;
    QuotientBounds(rowEstimate, keysPerSplit);
    if wanted < maxSplitCount then (if wanted < 1 then 1 else wanted) else maxSplitCount
  }

  // ----- get_all_ranges --------------------------------------------------------------

  /** Range `i` of `get_all_ranges` over `n` tokens: `(-inf, t0]`, then
      `(t(i-1), t(i)]`, then `(t(n-1), +inf)`. */
  function RangeAt(sorted: seq<Token>, i: nat): TokenRange
    requires 0 < |sorted| && i <= |sorted|
  {
    if i == 0 then TokenRange(Option.None, Some(Bound(sorted[0], true)))
    else if i == |sorted| then TokenRange(Some(Bound(sorted[i - 1], false)), Option.None)
    else OpenClosed(sorted[i - 1], sorted[i])
  }

  method GetAllRanges(sorted: seq<Token>) returns (ranges: seq<TokenRange>)
    ensures sorted == [] ==> ranges == []
    ensures sorted != [] ==> |ranges| == |sorted| + 1
    ensures sorted != [] ==> forall i :: 0 <= i <= |sorted| ==> ranges[i] == RangeAt(sorted, i)
  {
    if sorted == [] {
      return [];
    }
    var size := |sorted|;
    ranges := [TokenRange(Option.None, Some(Bound(sorted[0], true)))];
    for i := 1 to size
      invariant |ranges| == i
      invariant forall j :: 0 <= j < i ==> ranges[j] == RangeAt(sorted, j)
    {
      ranges := ranges + [OpenClosed(sorted[i - 1], sorted[i])];
    }
    ranges := ranges + [TokenRange(Some(Bound(sorted[size - 1], false)), Option.None)];
  }

  /** Over ascending tokens the ranges partition the ring: a token lies in
      range `i` exactly when `i` is its lower bound among the tokens. */
  lemma RangesPartitionRing(sorted: seq<Token>, x: Token, i: nat)
    requires Increasing(sorted) && sorted != [] && i <= |sorted|
    ensures Contains(RangeAt(sorted, i), x) <==> i == LowerBound(sorted, x)
  {
    var lb := LowerBound(sorted, x);
    LowerBoundPartitions(sorted, x);
    if 0 < i < |sorted| {
      if Contains(RangeAt(sorted, i), x) {
        assert sorted[i - 1] < x <= sorted[i];
        assert lb <= i;
      }
    }
  }
}
