/** Model of `merge` of tools/scyllarepair/scyllarepair.py: the union of
    token ranges as separated ranges, computed by sorting the start and end
    events of the ranges and scanning them with a stack.  The method uses no
    state of the partitioner it belongs to in the source, so it is modelled
    on its own. */
module ScyllaRepairMerge {
  import opened ScyllaRepair

  // ----- events --------------------------------------------------------------

  /** Python encodes a start as 0 and an end as 1, so that at the same
      position starts sort before ends. */
  datatype Kind = Start | End

  datatype Event = Event(pos: int, kind: Kind)

  /** Python's order on `(position, kind)` tuples. */
  predicate EvLe(a: Event, b: Event)
  {
    a.pos < b.pos || (a.pos == b.pos && (a.kind == Start || b.kind == End))
  }

  predicate EvLt(a: Event, b: Event)
  {
    EvLe(a, b) && a != b
  }

  predicate Sorted(e: seq<Event>)
  {
    forall i, j :: 0 <= i < j < |e| ==> EvLe(e[i], e[j])
  }

  /** The events of the ranges, a start and an end for each, in the order
      the source appends them. */
  function Events(rs: seq<TokenRange>): (e: seq<Event>)
    ensures |e| == 2 * |rs|
  {
    if rs == [] then []
    else Events(rs[..|rs| - 1]) + [Event(rs[|rs| - 1].start, Start), Event(rs[|rs| - 1].end, End)]
  }

  // ----- sorting -------------------------------------------------------------

  function Insert(x: Event, e: seq<Event>): (r: seq<Event>)
    ensures |r| == |e| + 1
  {
    if e == [] then [x]
    else if EvLe(x, e[0]) then [x] + e
    else [e[0]] + Insert(x, e[1..])
  }

  /** `data.sort()`: the order on events is total and equal events are
      identical, so every sort gives this list. */
  function SortEvents(e: seq<Event>): (r: seq<Event>)
    ensures |r| == |e|
  {
    if e == [] then [] else Insert(e[0], SortEvents(e[1..]))
  }

  lemma {:induction false} InsertPermutes(x: Event, e: seq<Event>)
    ensures multiset(Insert(x, e)) == multiset(e) + multiset{x}
  {
    if e != [] && !EvLe(x, e[0]) {
      InsertPermutes(x, e[1..]);
      assert e == [e[0]] + e[1..];
    }
  }

  lemma {:induction false} InsertSorted(x: Event, e: seq<Event>)
    requires Sorted(e)
    ensures Sorted(Insert(x, e))
  {
    if e != [] && !EvLe(x, e[0]) {
      var rest := Insert(x, e[1..]);
      InsertSorted(x, e[1..]);
      InsertPermutes(x, e[1..]);
      forall j | 0 <= j < |rest|
        ensures EvLe(e[0], rest[j])
      {
        assert rest[j] in multiset(rest);
        if rest[j] != x {
          assert rest[j] in multiset(e[1..]);
          var k :| 0 <= k < |e[1..]| && e[1..][k] == rest[j];
          assert e[k + 1] == rest[j];
        }
      }
      var r := [e[0]] + rest;
      forall i, j | 0 <= i < j < |r|
        ensures EvLe(r[i], r[j])
      {
        if i > 0 {
          assert r[i] == rest[i - 1] && r[j] == rest[j - 1];
        } else {
          assert r[j] == rest[j - 1];
        }
      }
    }
  }

  /** The sort gives a sorted permutation. */
  lemma {:induction false} SortEventsSorted(e: seq<Event>)
    ensures Sorted(SortEvents(e))
    ensures multiset(SortEvents(e)) == multiset(e)
  {
    if e != [] {
      SortEventsSorted(e[1..]);
      InsertSorted(e[0], SortEvents(e[1..]));
      InsertPermutes(e[0], SortEvents(e[1..]));
      assert e == [e[0]] + e[1..];
    }
  }

  // ----- counting ------------------------------------------------------------

  /** The number of events that satisfy `p`. */
  function CountIf(e: seq<Event>, p: Event -> bool): nat
  {
    if e == [] then 0 else (if p(e[0]) then 1 else 0) + CountIf(e[1..], p)
  }

  lemma {:induction false} CountIfAppend(a: seq<Event>, b: seq<Event>, p: Event -> bool)
    ensures CountIf(a + b, p) == CountIf(a, p) + CountIf(b, p)
  {
    if a != [] {
      CountIfAppend(a[1..], b, p);
      assert (a + b)[0] == a[0];
      assert (a + b)[1..] == a[1..] + b;
    } else {
      assert a + b == b;
    }
  }

  lemma {:induction false} CountIfInsert(x: Event, e: seq<Event>, p: Event -> bool)
    ensures CountIf(Insert(x, e), p) == CountIf(e, p) + (if p(x) then 1 else 0)
  {
    if e != [] && !EvLe(x, e[0]) {
      CountIfInsert(x, e[1..], p);
      assert ([e[0]] + Insert(x, e[1..]))[1..] == Insert(x, e[1..]);
    } else if e != [] {
      assert ([x] + e)[1..] == e;
    }
  }

  /** Sorting keeps every count. */
  lemma {:induction false} CountIfSort(e: seq<Event>, p: Event -> bool)
    ensures CountIf(SortEvents(e), p) == CountIf(e, p)
  {
    if e != [] {
      CountIfSort(e[1..], p);
      CountIfInsert(e[0], SortEvents(e[1..]), p);
    }
  }

  /** Counts agree for predicates that agree on the events. */
  lemma {:induction false} CountIfSame(e: seq<Event>, p: Event -> bool, q: Event -> bool)
    requires forall i :: 0 <= i < |e| ==> p(e[i]) == q(e[i])
    ensures CountIf(e, p) == CountIf(e, q)
  {
    if e != [] {
      CountIfSame(e[1..], p, q);
    }
  }

  /** A count is at most that of a weaker predicate. */
  lemma {:induction false} CountIfWeaker(e: seq<Event>, p: Event -> bool, q: Event -> bool)
    requires forall i :: 0 <= i < |e| ==> p(e[i]) ==> q(e[i])
    ensures CountIf(e, p) <= CountIf(e, q)
  {
    if e != [] {
      CountIfWeaker(e[1..], p, q);
    }
  }

  lemma {:induction false} CountIfNone(e: seq<Event>, p: Event -> bool)
    requires forall i :: 0 <= i < |e| ==> !p(e[i])
    ensures CountIf(e, p) == 0
  {
    if e != [] {
      CountIfNone(e[1..], p);
    }
  }

  lemma CountIfPair(a: Event, b: Event, p: Event -> bool)
    ensures CountIf([a, b], p) == (if p(a) then 1 else 0) + (if p(b) then 1 else 0)
  {
    var s := [a, b];
    assert s[0] == a && s[1..] == [b];
    assert [b][0] == b && [b][1..] == [];
    assert CountIf([b], p) == (if p(b) then 1 else 0) + CountIf([], p);
  }

  lemma CountIfLast(e: seq<Event>, i: nat, p: Event -> bool)
    requires i < |e|
    ensures CountIf(e[..i + 1], p) == CountIf(e[..i], p) + (if p(e[i]) then 1 else 0)
  {
    assert e[..i + 1] == e[..i] + [e[i]];
    CountIfAppend(e[..i], [e[i]], p);
  }

  function IsStart(x: Event): bool { x.kind == Start }

  function IsEnd(x: Event): bool { x.kind == End }

  /** The number of open ranges after the events: starts less ends. */
  function Depth(e: seq<Event>): int
  {
    CountIf(e, IsStart) - CountIf(e, IsEnd)
  }

  // ----- the depth never goes below zero ------------------------------------

  /** Over the events of forward ranges, the ends at or before `t` are no
      more than the starts strictly before `t`. */
  lemma {:induction false} EndsBeforeStarts(rs: seq<TokenRange>, t: Event)
    requires Forward(rs)
    ensures CountIf(Events(rs), (x: Event) => x.kind == End && EvLe(x, t))
         <= CountIf(Events(rs), (x: Event) => x.kind == Start && EvLt(x, t))
  {
    if rs != [] {
      var init := rs[..|rs| - 1];
      var r := rs[|rs| - 1];
      assert Forward(init) by {
        assert forall i :: 0 <= i < |init| ==> init[i] == rs[i];
      }
      EndsBeforeStarts(init, t);
      var two := [Event(r.start, Start), Event(r.end, End)];
      assert Events(rs) == Events(init) + two;
      CountIfAppend(Events(init), two, (x: Event) => x.kind == End && EvLe(x, t));
      CountIfAppend(Events(init), two, (x: Event) => x.kind == Start && EvLt(x, t));
      CountIfPair(two[0], two[1], (x: Event) => x.kind == End && EvLe(x, t));
      CountIfPair(two[0], two[1], (x: Event) => x.kind == Start && EvLt(x, t));
      assert r.start <= r.end;
    }
  }

  /** In sorted events, the ends of a prefix are ends at or before its last
      event. */
  lemma PrefixEnds(e: seq<Event>, k: nat)
    requires Sorted(e) && 0 < k <= |e|
    ensures CountIf(e[..k], IsEnd) <= CountIf(e, (x: Event) => x.kind == End && EvLe(x, e[k - 1]))
  {
    var endsLe := (x: Event) => x.kind == End && EvLe(x, e[k - 1]);
    assert e == e[..k] + e[k..];
    CountIfWeaker(e[..k], IsEnd, endsLe);
    CountIfAppend(e[..k], e[k..], endsLe);
  }

  /** In sorted events, the starts before the last event of a prefix all lie
      in the prefix. */
  lemma PrefixStarts(e: seq<Event>, k: nat)
    requires Sorted(e) && 0 < k <= |e|
    ensures CountIf(e, (x: Event) => x.kind == Start && EvLt(x, e[k - 1])) <= CountIf(e[..k], IsStart)
  {
    var startsLt := (x: Event) => x.kind == Start && EvLt(x, e[k - 1]);
    assert e == e[..k] + e[k..];
    forall j | 0 <= j < |e[k..]|
      ensures !startsLt(e[k..][j])
    {
      assert e[k..][j] == e[k + j];
      assert EvLe(e[k - 1], e[k + j]);
    }
    CountIfNone(e[k..], startsLt);
    CountIfAppend(e[..k], e[k..], startsLt);
    CountIfWeaker(e[..k], startsLt, IsStart);
  }

  /** Every prefix of the sorted events of forward ranges holds at least as
      many starts as ends. */
  lemma {:induction false} PrefixDepth(rs: seq<TokenRange>, k: nat)
    requires Forward(rs) && k <= 2 * |rs|
    ensures Depth(SortEvents(Events(rs))[..k]) >= 0
  {
    var e := SortEvents(Events(rs));
    SortEventsSorted(Events(rs));
    if k > 0 {
      var t := e[k - 1];
      PrefixEnds(e, k);
      PrefixStarts(e, k);
      CountIfSort(Events(rs), (x: Event) => x.kind == End && EvLe(x, t));
      CountIfSort(Events(rs), (x: Event) => x.kind == Start && EvLt(x, t));
      EndsBeforeStarts(rs, t);
    }
  }

  /** The events of the ranges hold a start and an end for each range. */
  lemma {:induction false} EventCounts(rs: seq<TokenRange>)
    ensures CountIf(Events(rs), IsStart) == |rs| && CountIf(Events(rs), IsEnd) == |rs|
  {
    if rs != [] {
      var r := rs[|rs| - 1];
      var two := [Event(r.start, Start), Event(r.end, End)];
      EventCounts(rs[..|rs| - 1]);
      assert Events(rs) == Events(rs[..|rs| - 1]) + two;
      CountIfAppend(Events(rs[..|rs| - 1]), two, IsStart);
      CountIfAppend(Events(rs[..|rs| - 1]), two, IsEnd);
      CountIfPair(two[0], two[1], IsStart);
      CountIfPair(two[0], two[1], IsEnd);
    }
  }

  // ----- the depth at a token decides whether it is covered -----------------

  /** Token `x` is covered when more ranges start than end before it. */
  ghost predicate Covered(e: seq<Event>, x: int)
  {
    CountIf(e, (y: Event) => y.kind == Start && y.pos < x) > CountIf(e, (y: Event) => y.kind == End && y.pos < x)
  }

  /** For forward ranges, more ranges start than end before `x` exactly when
      some range holds `x`. */
  lemma {:induction false} CoveredByRanges(rs: seq<TokenRange>, x: int)
    requires Forward(rs)
    ensures CountIf(Events(rs), (y: Event) => y.kind == Start && y.pos < x)
         >= CountIf(Events(rs), (y: Event) => y.kind == End && y.pos < x)
    ensures Covered(Events(rs), x) <==> InSome(rs, x)
  {
    if rs != [] {
      var init := rs[..|rs| - 1];
      var r := rs[|rs| - 1];
      assert Forward(init) by {
        assert forall i :: 0 <= i < |init| ==> init[i] == rs[i];
      }
      CoveredByRanges(init, x);
      var two := [Event(r.start, Start), Event(r.end, End)];
      assert Events(rs) == Events(init) + two;
      CountIfAppend(Events(init), two, (y: Event) => y.kind == Start && y.pos < x);
      CountIfAppend(Events(init), two, (y: Event) => y.kind == End && y.pos < x);
      CountIfPair(two[0], two[1], (y: Event) => y.kind == Start && y.pos < x);
      CountIfPair(two[0], two[1], (y: Event) => y.kind == End && y.pos < x);
      assert rs == init + [r];
      InSomeAppend(init, r, x);
    }
  }

  /** Between the last processed position and the next one, the tokens are
      covered exactly when ranges are open after the processed events. */
  lemma CoveredBetween(e: seq<Event>, i: nat, x: int)
    requires Sorted(e) && 0 < i <= |e|
    requires e[i - 1].pos < x && (i < |e| ==> x <= e[i].pos)
    ensures Covered(e, x) <==> Depth(e[..i]) > 0
  {
    var starts := (y: Event) => y.kind == Start && y.pos < x;
    var ends := (y: Event) => y.kind == End && y.pos < x;
    assert e == e[..i] + e[i..];
    CountIfSame(e[..i], starts, IsStart);
    CountIfSame(e[..i], ends, IsEnd);
    CountIfNone(e[i..], starts);
    CountIfNone(e[i..], ends);
    CountIfAppend(e[..i], e[i..], starts);
    CountIfAppend(e[..i], e[i..], ends);
  }

  /** No token at or before the first position is covered. */
  lemma NotCoveredBeforeFirst(e: seq<Event>, x: int)
    requires Sorted(e) && e != [] && x <= e[0].pos
    ensures !Covered(e, x)
  {
    CountIfNone(e, (y: Event) => y.kind == Start && y.pos < x);
  }

  // ----- the scan --------------------------------------------------------------

  /** What the scan keeps after `i` events with `depth` ranges open, the
      outermost of them opened at `open`: the tokens up to the last processed
      position are covered exactly when they lie in a merged range or in the
      open one, and the merged ranges run forward, separated, and before the
      open one. */
  ghost predicate ScanState(e: seq<Event>, i: nat, depth: nat, open: int, merged: seq<TokenRange>)
    requires 0 < i <= |e|
  {
    (depth > 0 ==> open <= e[i - 1].pos)
    && (forall j :: 0 <= j < |merged| ==> merged[j].start <= merged[j].end <= e[i - 1].pos)
    && (forall j :: 0 <= j < |merged| - 1 ==> merged[j].end < merged[j + 1].start)
    && (depth > 0 && merged != [] ==> merged[|merged| - 1].end < open)
    && (depth == 0 ==> merged != [] && e[i - 1] == Event(merged[|merged| - 1].end, End))
    && (forall x :: x <= e[i - 1].pos ==> (Covered(e, x) <==> InSome(merged, x) || (depth > 0 && open < x)))
  }

  /** Ranges that end by `last` hold no token after it. */
  lemma NotInLater(ms: seq<TokenRange>, last: int, x: int)
    requires forall j :: 0 <= j < |ms| ==> ms[j].end <= last
    requires last < x
    ensures !InSome(ms, x)
  {
  }

  /** One event of the scan keeps the scan state: a start opens a range (the
      outermost one when none was open), an end closes one, and closing the
      outermost one appends the merged range from its start to the end. */
  lemma ScanStep(rs: seq<TokenRange>, e: seq<Event>, i: nat,
                  before: seq<TokenRange>, open: int, merged: seq<TokenRange>, depth2: nat, open2: int)
    requires Forward(rs) && e == SortedEvents(rs) && 1 <= i < |e|
    requires Depth(e[..i]) >= 0 && depth2 == Depth(e[..i + 1])
    requires ScanState(e, i, Depth(e[..i]), open, before)
    requires e[i].kind == Start ==>
      depth2 == Depth(e[..i]) + 1 && merged == before
      && open2 == (if Depth(e[..i]) == 0 then e[i].pos else open)
    requires e[i].kind == End ==>
      depth2 == Depth(e[..i]) - 1
      && (depth2 > 0 ==> open2 == open && merged == before)
      && (depth2 == 0 ==> merged == before + [TokenRange(open, e[i].pos)])
    ensures ScanState(e, i + 1, depth2, open2, merged)
  {
    SortEventsSorted(Events(rs));
    var depth := Depth(e[..i]);
    var p := e[i].pos;
    assert EvLe(e[i - 1], e[i]);
    forall x | x <= p
      ensures Covered(e, x) <==> InSome(merged, x) || (depth2 > 0 && open2 < x)
    {
      if x > e[i - 1].pos {
        CoveredBetween(e, i, x);
        NotInLater(before, e[i - 1].pos, x);
      }
      if merged != before {
        InSomeAppend(before, TokenRange(open, p), x);
      }
    }
    if merged != before {
      var m := |before|;
      assert merged[m] == TokenRange(open, p);
      assert forall j :: 0 <= j < m ==> merged[j] == before[j];
    }
  }

  /** The sorted events of the ranges, as the scan reads them. */
  function SortedEvents(rs: seq<TokenRange>): (e: seq<Event>)
    ensures |e| == 2 * |rs|
  {
    SortEvents(Events(rs))
  }

  /** The scan starts with the first event open and nothing merged. */
  lemma ScanStart(rs: seq<TokenRange>)
    requires Forward(rs) && rs != []
    ensures Depth(SortedEvents(rs)[..1]) == 1
    ensures ScanState(SortedEvents(rs), 1, 1, SortedEvents(rs)[0].pos, [])
  {
    var data := SortedEvents(rs);
    assert Depth(data[..1]) == 1 by {
      PrefixDepth(rs, 1);
      assert data[..0] == [];
      CountIfLast(data, 0, IsStart);
      CountIfLast(data, 0, IsEnd);
    }
    assert forall x :: x <= data[0].pos ==> !Covered(data, x) by {
      SortEventsSorted(Events(rs));
      forall x | x <= data[0].pos
        ensures !Covered(data, x)
      {
        NotCoveredBeforeFirst(data, x);
      }
    }
  }

  /** Event `i` changes the depth by one and keeps it non-negative. */
  lemma ScanDepth(rs: seq<TokenRange>, i: nat)
    requires Forward(rs) && 1 <= i < 2 * |rs|
    ensures Depth(SortedEvents(rs)[..i + 1]) >= 0
    ensures Depth(SortedEvents(rs)[..i + 1])
         == Depth(SortedEvents(rs)[..i]) + (if SortedEvents(rs)[i].kind == Start then 1 else -1)
  {
    var data := SortedEvents(rs);
    PrefixDepth(rs, i + 1);
    CountIfLast(data, i, IsStart);
    CountIfLast(data, i, IsEnd);
  }

  /** After the last event no range is open, and the merged ranges cover
      exactly the tokens the input ranges cover. */
  lemma ScanEnd(rs: seq<TokenRange>, depth: nat, open: int, merged: seq<TokenRange>)
    requires Forward(rs) && rs != []
    requires depth == Depth(SortedEvents(rs))
    requires ScanState(SortedEvents(rs), |SortedEvents(rs)|, depth, open, merged)
    ensures Forward(merged)
    ensures forall j :: 0 <= j < |merged| - 1 ==> merged[j].end < merged[j + 1].start
    ensures forall x :: InSome(merged, x) <==> InSome(rs, x)
  {
    var data := SortedEvents(rs);
    SortEventsSorted(Events(rs));
    assert depth == 0 by {
      EventCounts(rs);
      CountIfSort(Events(rs), IsStart);
      CountIfSort(Events(rs), IsEnd);
    }
    assert data[..|data|] == data;
    var last := data[|data| - 1].pos;
    forall x
      ensures InSome(merged, x) <==> InSome(rs, x)
    {
      var starts := (y: Event) => y.kind == Start && y.pos < x;
      var ends := (y: Event) => y.kind == End && y.pos < x;
      CoveredByRanges(rs, x);
      CountIfSort(Events(rs), starts);
      CountIfSort(Events(rs), ends);
      assert Covered(data, x) <==> InSome(rs, x);
      if x > last {
        CoveredBetween(data, |data|, x);
        NotInLater(merged, last, x);
      }
    }
  }

  /** The loop of `merge` that lists a start and an end event per range. */
  method CollectEvents(intervals: seq<TokenRange>) returns (data: seq<Event>)
    ensures data == Events(intervals)
  {
    data := [];
    var k := 0;
    while k < |intervals|
      invariant k <= |intervals| && data == Events(intervals[..k])
    {
      assert intervals[..k + 1][..k] == intervals[..k];
      data := data + [Event(intervals[k].start, Start), Event(intervals[k].end, End)];
      k := k + 1;
    }
    assert intervals[..|intervals|] == intervals;
  }

  /** `merge`: the union of the ranges as separated ranges, through a sort
      of their start and end events and a scan that keeps the open starts on
      a stack and closes a merged range when the stack empties. */
  method Merge(intervals: seq<TokenRange>) returns (merged: seq<TokenRange>)
    ensures intervals == [] ==> merged == []
    ensures Forward(intervals) ==> Forward(merged)
    ensures Forward(intervals) ==> forall j :: 0 <= j < |merged| - 1 ==> merged[j].end < merged[j + 1].start
    ensures Forward(intervals) ==> forall x :: InSome(merged, x) <==> InSome(intervals, x)
  {
    if intervals == [] {
      return [];
    }
    var data := CollectEvents(intervals);
    data := SortEvents(data);
    ghost var fwd := Forward(intervals);
    if fwd {
      ScanStart(intervals);
    }
    merged := [];
    var stack := [data[0]];
    var start := data[0];
    ghost var popped := false;
    var i := 1;
    while i < |data|
      invariant data == SortedEvents(intervals)
      invariant 1 <= i <= |data|
      invariant popped || |stack| >= 1
      invariant fwd ==> |stack| == Depth(data[..i])
      invariant fwd ==> ScanState(data, i, |stack|, if stack == [] then 0 else stack[0].pos, merged)
    {
      var d := data[i];
      ghost var before := merged;
      ghost var open := if stack == [] then 0 else stack[0].pos;
      if fwd {
        ScanDepth(intervals, i);
      }
      if d.kind == Start {
        stack := stack + [d];
      } else if d.kind == End {
        if stack != [] {
          start := stack[|stack| - 1];
          stack := stack[..|stack| - 1];
          popped := true;
        }
        if |stack| == 0 {
          assert popped;
          merged := merged + [TokenRange(start.pos, d.pos)];
        }
      }
      ghost var open2 := if stack == [] then 0 else stack[0].pos;
      if fwd {
        ScanStep(intervals, data, i, before, open, merged, |stack|, open2);
      }
      i := i + 1;
    }
    if fwd {
      assert data[..|data|] == data;
      ScanEnd(intervals, |stack|, if stack == [] then 0 else stack[0].pos, merged);
    }
  }
}
