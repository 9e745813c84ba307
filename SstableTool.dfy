/** Model of parts of tools/scylla-sstable.cc: the output-format and
    bucket options, the write-time histogram collected by the
    `writetime-histogram` operation, and the reader of the partitions file
    that splits it into whitespace-separated partition keys.  Reading
    sstables, decoding hex keys and writing files are left to the caller. */
module SstableTool {
  import opened Util
  import opened Ring

  // ----- options -------------------------------------------------------------

  datatype OutputFormat = Text | Json

  function FormatName(f: OutputFormat): string
  {
    match f
    case Text => "text"
    case Json => "json"
  }

  /** `get_output_format_from_options`: the default when the option is
      absent, `text` or `json` by name, an error for anything else. */
  function GetOutputFormatFromOptions(option: Option<string>, defaultFormat: OutputFormat): (r: Result<OutputFormat>)
    ensures option.None? ==> r == Ok(defaultFormat)
    ensures option.Some? ==> (r.Ok? <==> option.value == "text" || option.value == "json")
    ensures option.Some? && r.Ok? ==> FormatName(r.value) == option.value
    ensures r.Err? ==> r.error == "error: invalid value for dump option output-format: " + option.value
  {
    match option
    case None => Ok(defaultFormat)
    case Some(v) =>
      if v == "text" then Ok(Text)
      else if v == "json" then Ok(Json)
      else Err("error: invalid value for dump option output-format: " + v)
  }

  /** Every format reads back from its own name. */
  lemma OutputFormatRoundTrip(f: OutputFormat, d: OutputFormat)
    ensures GetOutputFormatFromOptions(Some(FormatName(f)), d) == Ok(f)
  {
  }

  /** The unit of time of a histogram bucket. */
  datatype Bucket = Years | Months | Weeks | Days | Hours

  function BucketName(b: Bucket): string
  {
    match b
    case Years => "years"
    case Months => "months"
    case Weeks => "weeks"
    case Days => "days"
    case Hours => "hours"
  }

  /** The `bucket` option of the histogram consumer's constructor: months
      when absent, one of the five unit names, an error otherwise. */
  function ParseBucket(option: Option<string>): (r: Result<Bucket>)
    ensures option.None? ==> r == Ok(Months)
    ensures option.Some? && r.Ok? ==> BucketName(r.value) == option.value
    ensures option.Some? && r.Err? ==> (r.error == "error: invalid value for writetime-histogram option bucket: " + option.value &&
      forall b :: BucketName(b) != option.value)
  {
    match option
    case None => Ok(Months)
    case Some(v) =>
      if v == "years" then Ok(Years)
      else if v == "months" then Ok(Months)
      else if v == "weeks" then Ok(Weeks)
      else if v == "days" then Ok(Days)
      else if v == "hours" then Ok(Hours)
      else Err("error: invalid value for writetime-histogram option bucket: " + v)
  }

  /** Every unit reads back from its own name. */
  lemma BucketRoundTrip(b: Bucket)
    ensures ParseBucket(Some(BucketName(b))) == Ok(b)
  {
  }

  // ----- timestamp buckets ------------------------------------------------

  /** The length of a unit in microseconds, as `std::chrono` defines them:
      a year is 365.2425 days and a month a twelfth of it. */
  function UnitMicros(b: Bucket): (u: nat)
    ensures u >= 3_600_000_000
  {
    match b
    case Years => 31_556_952_000_000
    case Months => 2_629_746_000_000
    case Weeks => 604_800_000_000
    case Days => 86_400_000_000
    case Hours => 3_600_000_000
  }

  /** Integer division rounding toward zero, as `duration_cast` does. */
  function TruncDiv(x: int, d: nat): int
    requires d >= 1
  {
    if x >= 0 then x / d else -((-x) / d)
  }

  /** `x` cut down to a multiple of `u`, toward zero. */
  function TruncMultiple(x: int, u: nat): int
    requires u >= 1
  {
    TruncDiv(x, u) * u
  }

  lemma TruncMultipleBounds(x: int, u: nat)
    requires u >= 1
    ensures TruncMultiple(x, u) % u == 0
    ensures x >= 0 ==> 0 <= TruncMultiple(x, u) <= x < TruncMultiple(x, u) + u
    ensures x < 0 ==> TruncMultiple(x, u) - u < x <= TruncMultiple(x, u) <= 0
  {
    if x >= 0 {
      NonNegativeTrunc(x, u);
    } else {
      NonNegativeTrunc(-x, u);
      assert TruncMultiple(x, u) == -TruncMultiple(-x, u);
      ModUnique(TruncMultiple(x, u), TruncDiv(x, u), 0, u);
    }
  }

  /** For a non-negative value the truncation is the floor multiple. */
  lemma NonNegativeTrunc(x: nat, u: nat)
    requires u >= 1
    ensures TruncMultiple(x, u) == (x / u) * u
    ensures TruncMultiple(x, u) % u == 0
    ensures 0 <= TruncMultiple(x, u) <= x < TruncMultiple(x, u) + u
  {
    var q, r := x / u, x % u;
    assert x == q * u + r && 0 <= r < u;
    assert q * u >= 0 by {
      assert q >= 0;
    }
    ModUnique(q * u, q, 0, u);
  }

  lemma TruncMultipleIdempotent(x: int, u: nat)
    requires u >= 1
    ensures TruncMultiple(TruncMultiple(x, u), u) == TruncMultiple(x, u)
  {
    var r := TruncMultiple(x, u);
    TruncMultipleBounds(x, u);
    var k := r / u;
    assert r == k * u;
    if r >= 0 {
      ModUnique(r, k, 0, u);
    } else {
      ModUnique(-r, -k, 0, u);
    }
  }

  lemma TruncMultipleMonotone(x: int, y: int, u: nat)
    requires u >= 1 && x <= y
    ensures TruncMultiple(x, u) <= TruncMultiple(y, u)
  {
    var r1 := TruncMultiple(x, u);
    var r2 := TruncMultiple(y, u);
    TruncMultipleBounds(x, u);
    TruncMultipleBounds(y, u);
    if r1 > r2 {
      var d := r1 / u - r2 / u;
      assert r1 - r2 == d * u by {
        assert r1 == (r1 / u) * u && r2 == (r2 / u) * u;
      }
      assert r1 - r2 < u;
      MulMonotone(1, d, u);
    }
  }

  /** `timestamp_bucket`: a microsecond timestamp cut down to a whole
      number of units, toward zero, and expressed in microseconds again;
      so the multiple of the unit nearest to it on the side of zero. */
  function TimestampBucket(b: Bucket, ts: int): (bucket: int)
    ensures bucket % UnitMicros(b) == 0
    ensures ts >= 0 ==> 0 <= bucket <= ts < bucket + UnitMicros(b)
    ensures ts < 0 ==> bucket - UnitMicros(b) < ts <= bucket <= 0
  {
    TruncMultipleBounds(ts, UnitMicros(b));
    TruncMultiple(ts, UnitMicros(b))
  }

  /** A bucket is its own bucket. */
  lemma BucketIdempotent(b: Bucket, ts: int)
    ensures TimestampBucket(b, TimestampBucket(b, ts)) == TimestampBucket(b, ts)
  {
    TruncMultipleIdempotent(ts, UnitMicros(b));
  }

  /** Buckets keep the order of the timestamps. */
  lemma BucketMonotone(b: Bucket, ts1: int, ts2: int)
    requires ts1 <= ts2
    ensures TimestampBucket(b, ts1) <= TimestampBucket(b, ts2)
  {
    TruncMultipleMonotone(ts1, ts2, UnitMicros(b));
  }

  // ----- the histogram -----------------------------------------------------

  /** The histogram of the timestamps `stamps`: each bucket mapped to the
      number of timestamps that fall in it. */
  function Tally(b: Bucket, stamps: seq<int>): (h: map<int, nat>)
    decreases |stamps|
  {
    if stamps == [] then map[]
    else
      var h := Tally(b, stamps[..|stamps| - 1]);
      var k := TimestampBucket(b, stamps[|stamps| - 1]);
      h[k := (if k in h then h[k] else 0) + 1]
  }

  /** Every key of the histogram is a bucket boundary with a positive
      count. */
  lemma {:induction false} TallyKeys(b: Bucket, stamps: seq<int>)
    ensures forall k :: k in Tally(b, stamps) ==> TimestampBucket(b, k) == k && Tally(b, stamps)[k] >= 1
    decreases |stamps|
  {
    if stamps != [] {
      TallyKeys(b, stamps[..|stamps| - 1]);
      BucketIdempotent(b, stamps[|stamps| - 1]);
    }
  }

  /** The number of timestamps a bucket holds. */
  function CountIn(b: Bucket, stamps: seq<int>, k: int): nat
    decreases |stamps|
  {
    if stamps == [] then 0
    else CountIn(b, stamps[..|stamps| - 1], k) + (if TimestampBucket(b, stamps[|stamps| - 1]) == k then 1 else 0)
  }

  /** The histogram holds exactly the buckets some timestamp falls in, each
      with the number of timestamps that fall in it. */
  lemma {:induction false} TallyCounts(b: Bucket, stamps: seq<int>, k: int)
    ensures k in Tally(b, stamps) <==> CountIn(b, stamps, k) > 0
    ensures k in Tally(b, stamps) ==> Tally(b, stamps)[k] == CountIn(b, stamps, k)
    decreases |stamps|
  {
    if stamps != [] {
      TallyCounts(b, stamps[..|stamps| - 1], k);
    }
  }

  /** The sum of the counts of a histogram. */
  ghost function Total(h: map<int, nat>): nat
    decreases |h|
  {
    if h == map[] then 0
    else
      EmptyOrInhabited(h.Keys);
      var k :| k in h; h[k] + Total(h - {k})
  }

  /** The total does not depend on which bucket is taken first. */
  lemma {:induction false} TotalRemove(h: map<int, nat>, j: int)
    requires j in h
    ensures Total(h) == h[j] + Total(h - {j})
    decreases |h|
  {
    var k :| k in h && Total(h) == h[k] + Total(h - {k});
    if k != j {
      TotalRemove(h - {k}, j);
      TotalRemove(h - {j}, k);
      assert h - {k} - {j} == h - {j} - {k};
    }
  }

  /** The histogram's counts add up to the number of timestamps collected. */
  lemma {:induction false} TallyTotal(b: Bucket, stamps: seq<int>)
    ensures Total(Tally(b, stamps)) == |stamps|
    decreases |stamps|
  {
    if stamps != [] {
      var init := stamps[..|stamps| - 1];
      var h := Tally(b, init);
      var k := TimestampBucket(b, stamps[|stamps| - 1]);
      var h' := Tally(b, stamps);
      TallyTotal(b, init);
      TotalRemove(h', k);
      assert h' - {k} == h - {k};
      if k in h {
        TotalRemove(h, k);
      } else {
        assert h - {k} == h;
      }
    }
  }

  /** A column of a row as the histogram sees it. */
  datatype Cell =
    | AtomicCell(timestamp: int)
    | CollectionCell(tomb: Option<int>, cellStamps: seq<int>)
    | UnknownTypeCell(column: string, typeName: string)

  /** The timestamps a supported column contributes: the collection's
      tombstone first, then its cells. */
  function CellStamps(c: Cell): seq<int>
  {
    match c
    case AtomicCell(ts) => [ts]
    case CollectionCell(tomb, cs) => (if tomb.Some? then [tomb.value] else []) + cs
    case UnknownTypeCell(_, _) => []
  }

  function CellCount(c: Cell): nat
  {
    match c
    case AtomicCell(_) => 1
    case CollectionCell(_, cs) => |cs|
    case UnknownTypeCell(_, _) => 0
  }

  function RowStamps(cells: seq<Cell>): seq<int>
  {
    if cells == [] then [] else RowStamps(cells[..|cells| - 1]) + CellStamps(cells[|cells| - 1])
  }

  function RowCells(cells: seq<Cell>): nat
  {
    if cells == [] then 0 else RowCells(cells[..|cells| - 1]) + CellCount(cells[|cells| - 1])
  }

  lemma AppendAssoc<T>(a: seq<T>, b: seq<T>, c: seq<T>)
    ensures a + b + c == a + (b + c)
  {
  }

  lemma RowStep(row: seq<Cell>, i: nat)
    requires i < |row|
    ensures RowStamps(row[..i + 1]) == RowStamps(row[..i]) + CellStamps(row[i])
    ensures RowCells(row[..i + 1]) == RowCells(row[..i]) + CellCount(row[i])
  {
    assert row[..i + 1][..i] == row[..i];
  }

  /** The position of the first column of an unsupported type, or the
      number of columns when there is none. */
  function FirstUnknown(cells: seq<Cell>): (i: nat)
    ensures i <= |cells|
    ensures forall j :: 0 <= j < i ==> !cells[j].UnknownTypeCell?
    ensures i < |cells| ==> cells[i].UnknownTypeCell?
  {
    if cells == [] then 0
    else if cells[0].UnknownTypeCell? then 0
    else 1 + FirstUnknown(cells[1..])
  }

  function UnknownTypeMessage(c: Cell): string
    requires c.UnknownTypeCell?
  {
    "Cannot collect timestamp of cell (column " + c.column + " of uknown type " + c.typeName + ")"
  }

  /** `writetime_histogram_collecting_consumer`.  `collected` is the
      sequence of raw timestamps seen so far, in order. */
  class HistogramConsumer {
    const bucket: Bucket
    var histogram: map<int, nat>
    var partitions: nat
    var rows: nat
    var cells: nat
    var timestamps: nat
    ghost var collected: seq<int>

    ghost predicate Valid()
      reads this
    {
      histogram == Tally(bucket, collected) && timestamps == |collected|
    }

    constructor (bucket: Bucket)
      ensures Valid() && this.bucket == bucket && collected == []
      ensures partitions == 0 && rows == 0 && cells == 0
    {
      this.bucket := bucket;
      histogram := map[];
      partitions := 0;
      rows := 0;
      cells := 0;
      timestamps := 0;
      collected := [];
    }

    /** `collect_timestamp`: one more timestamp in its bucket. */
    method CollectTimestamp(ts: int)
      requires Valid()
      modifies this`histogram, this`timestamps, this`collected
      ensures Valid() && collected == old(collected) + [ts]
      ensures var k := TimestampBucket(bucket, ts);
        histogram == old(histogram)[k := (if k in old(histogram) then old(histogram)[k] else 0) + 1]
    {
      var k := TimestampBucket(bucket, ts);
      if k !in histogram {
        histogram := histogram[k := 0];
      }
      histogram := histogram[k := histogram[k] + 1];
      timestamps := timestamps + 1;
      collected := collected + [ts];
      assert collected[..|collected| - 1] == old(collected);
    }

    /** `collect_column`: an atomic cell's timestamp, or a collection's
        tombstone and then its cells' timestamps; a column of any other
        type is an error. */
    method CollectColumn(c: Cell) returns (o: Outcome)
      requires Valid()
      modifies this`histogram, this`timestamps, this`collected, this`cells
      ensures Valid() && collected == old(collected) + CellStamps(c) && cells == old(cells) + CellCount(c)
      ensures o == Pass <==> !c.UnknownTypeCell?
      ensures c.UnknownTypeCell? ==> o == Fail(UnknownTypeMessage(c))
    {
      if c.UnknownTypeCell? {
        return Fail(UnknownTypeMessage(c));
      }
      if c.AtomicCell? {
        cells := cells + 1;
        CollectTimestamp(c.timestamp);
      } else {
        CollectCollection(c.tomb, c.cellStamps);
      }
      return Pass;
    }

    /** The collection branch of `collect_column`: the tombstone's
        timestamp when there is one, then one cell per element. */
    method CollectCollection(tomb: Option<int>, cs: seq<int>)
      requires Valid()
      modifies this`histogram, this`timestamps, this`collected, this`cells
      ensures Valid() && collected == old(collected) + (if tomb.Some? then [tomb.value] else []) + cs
      ensures cells == old(cells) + |cs|
    {
      if tomb.Some? {
        CollectTimestamp(tomb.value);
      }
      ghost var start := collected;
      var j := 0;
      while j < |cs|
        invariant 0 <= j <= |cs| && Valid()
        invariant collected == start + cs[..j]
        invariant cells == old(cells) + j
        decreases |cs| - j
      {
        cells := cells + 1;
        CollectTimestamp(cs[j]);
        assert cs[..j + 1] == cs[..j] + [cs[j]];
        j := j + 1;
      }
      assert cs[..j] == cs;
    }

    /** `collect_row`: one more row, then each column in turn until one
        of a type that has no timestamp. */
    method CollectRow(row: seq<Cell>) returns (o: Outcome)
      requires Valid()
      modifies this`histogram, this`timestamps, this`collected, this`rows, this`cells
      ensures Valid() && rows == old(rows) + 1
      ensures var n := FirstUnknown(row);
        collected == old(collected) + RowStamps(row[..n]) && cells == old(cells) + RowCells(row[..n]) &&
        (o == Pass <==> n == |row|) &&
        (n < |row| ==> o == Fail(UnknownTypeMessage(row[n])))
    {
      rows := rows + 1;
      ghost var n := FirstUnknown(row);
      var i := 0;
      while i < |row|
        invariant 0 <= i <= n
        invariant Valid() && rows == old(rows) + 1
        invariant collected == old(collected) + RowStamps(row[..i]) && cells == old(cells) + RowCells(row[..i])
        decreases |row| - i
      {
        RowStep(row, i);
        AppendAssoc(old(collected), RowStamps(row[..i]), CellStamps(row[i]));
        o := CollectColumn(row[i]);
        if o.Fail? {
          assert i == n;
          return;
        }
        assert i < n;
        i := i + 1;
      }
      assert n == |row| && row[..n] == row;
      return Pass;
    }

    /** `collect_clustering_row`: the row marker's timestamp when there is
        a marker, the row tombstone's when it is not empty, then the
        columns. */
    method CollectClusteringRow(marker: Option<int>, tomb: Option<int>, row: seq<Cell>) returns (o: Outcome)
      requires Valid()
      modifies this`histogram, this`timestamps, this`collected, this`rows, this`cells
      ensures Valid() && rows == old(rows) + 1
      ensures var n := FirstUnknown(row);
        collected == old(collected) + (if marker.Some? then [marker.value] else []) +
          (if tomb.Some? then [tomb.value] else []) + RowStamps(row[..n]) &&
        cells == old(cells) + RowCells(row[..n]) && (o == Pass <==> n == |row|)
    {
      ghost var m: seq<int> := if marker.Some? then [marker.value] else [];
      ghost var t: seq<int> := if tomb.Some? then [tomb.value] else [];
      if marker.Some? {
        CollectTimestamp(marker.value);
      } else {
        assert old(collected) + m == old(collected);
      }
      ghost var mid := collected;
      if tomb.Some? {
        CollectTimestamp(tomb.value);
      } else {
        assert mid + t == mid;
      }
      o := CollectRow(row);
    }

    /** `consume(partition_start)`: one more partition and its tombstone's
        timestamp when it has one. */
    method ConsumePartitionStart(tomb: Option<int>)
      requires Valid()
      modifies this`histogram, this`timestamps, this`collected, this`partitions
      ensures Valid() && partitions == old(partitions) + 1
      ensures collected == old(collected) + (if tomb.Some? then [tomb.value] else [])
    {
      partitions := partitions + 1;
      if tomb.Some? {
        CollectTimestamp(tomb.value);
      }
    }

    /** `consume(range_tombstone_change)` */
    method ConsumeRangeTombstoneChange(ts: int)
      requires Valid()
      modifies this`histogram, this`timestamps, this`collected
      ensures Valid() && collected == old(collected) + [ts]
    {
      CollectTimestamp(ts);
    }

    /** `on_end_of_stream`: nothing when the histogram is empty, else the
        buckets in ascending order and their counts, in the same order. */
    method EndOfStream() returns (written: Option<(seq<int>, seq<nat>)>)
      requires Valid()
      ensures written.None? <==> histogram == map[]
      ensures written.Some? ==> var (buckets, counts) := written.value;
        Increasing(buckets) && |counts| == |buckets| &&
        (forall k :: k in buckets <==> k in histogram) &&
        (forall i :: 0 <= i < |buckets| ==> buckets[i] in histogram && counts[i] == histogram[buckets[i]])
    {
      if histogram == map[] {
        return None;
      }
      var buckets := SortTokens(histogram.Keys);
      var counts := [];
      var i := 0;
      while i < |buckets|
        invariant 0 <= i <= |buckets| && |counts| == i
        invariant forall p :: 0 <= p < i ==> counts[p] == histogram[buckets[p]]
        decreases |buckets| - i
      {
        counts := counts + [histogram[buckets[i]]];
        i := i + 1;
      }
      return Some((buckets, counts));
    }
  }

  /** Every timestamp collected is counted exactly once: the counts add up
      to `timestamps`. */
  lemma HistogramSumsToTimestamps(h: HistogramConsumer)
    requires h.Valid()
    ensures Total(h.histogram) == h.timestamps
  {
    TallyTotal(h.bucket, h.collected);
  }

  // ----- the partitions file ----------------------------------------------

  /** `std::isspace` in the C locale. */
  predicate IsSpace(c: char)
  {
    c == ' ' || c == '\t' || c == '\n' || c == '\U{000B}' || c == '\U{000C}' || c == '\r'
  }

  /** The words of `s`, maximal runs of non-space characters, when a word
      `pending` is already under way. */
  function WordsFrom(pending: seq<char>, s: seq<char>): seq<seq<char>>
    decreases |s|
  {
    if s == [] then (if pending == [] then [] else [pending])
    else if IsSpace(s[0]) then (if pending == [] then [] else [pending]) + WordsFrom([], s[1..])
    else WordsFrom(pending + [s[0]], s[1..])
  }

  function Words(s: seq<char>): seq<seq<char>>
  {
    WordsFrom([], s)
  }

  /** Every word is non-empty and free of spaces. */
  lemma {:induction false} WordsAreWords(pending: seq<char>, s: seq<char>)
    requires forall c :: c in pending ==> !IsSpace(c)
    ensures forall w :: w in WordsFrom(pending, s) ==> w != [] && forall c :: c in w ==> !IsSpace(c)
    decreases |s|
  {
    if s != [] {
      if IsSpace(s[0]) {
        WordsAreWords([], s[1..]);
      } else {
        WordsAreWords(pending + [s[0]], s[1..]);
      }
    }
  }

  function Concat(bufs: seq<seq<char>>): seq<char>
  {
    if bufs == [] then [] else bufs[0] + Concat(bufs[1..])
  }

  /** The position of the first space in `buf`, or its length (`find_if`). */
  function FindSpace(buf: seq<char>): (i: nat)
    ensures i <= |buf|
    ensures forall j :: 0 <= j < i ==> !IsSpace(buf[j])
    ensures i < |buf| ==> IsSpace(buf[i])
  {
    if buf == [] then 0 else if IsSpace(buf[0]) then 0 else 1 + FindSpace(buf[1..])
  }

  /** A run of non-space characters joins the word under way. */
  lemma {:induction false} RunJoinsWord(pending: seq<char>, run: seq<char>, rest: seq<char>)
    requires forall j :: 0 <= j < |run| ==> !IsSpace(run[j])
    ensures WordsFrom(pending, run + rest) == WordsFrom(pending + run, rest)
    decreases |run|
  {
    if run != [] {
      assert (run + rest)[0] == run[0] && (run + rest)[1..] == run[1..] + rest;
      assert run == [run[0]] + run[1..];
      RunJoinsWord(pending + [run[0]], run[1..], rest);
      assert pending + [run[0]] + run[1..] == pending + run;
    } else {
      assert run + rest == rest && pending + run == pending;
    }
  }

  /** A space ends the word under way. */
  lemma SpaceEndsWord(pending: seq<char>, buf: seq<char>, tail: seq<char>)
    requires buf != [] && IsSpace(buf[0])
    ensures WordsFrom(pending, buf + tail) == (if pending == [] then [] else [pending]) + WordsFrom([], buf[1..] + tail)
  {
    assert (buf + tail)[0] == buf[0] && (buf + tail)[1..] == buf[1..] + tail;
  }

  /** The inner loop of the partitions-file reader over one buffer: the
      words it completes, and the word still under way at its end. */
  method SplitBuffer(buf0: seq<char>, pk0: seq<char>, ghost tail: seq<char>) returns (keys: seq<seq<char>>, pkBuf: seq<char>)
    ensures keys + WordsFrom(pkBuf, tail) == WordsFrom(pk0, buf0 + tail)
  {
    keys := [];
    pkBuf := pk0;
    var buf := buf0;
    while buf != []
      invariant keys + WordsFrom(pkBuf, buf + tail) == WordsFrom(pk0, buf0 + tail)
      decreases |buf|
    {
      var len := FindSpace(buf);
      if len == 0 && pkBuf == [] {
        // discard extra leading whitespace
        SpaceEndsWord(pkBuf, buf, tail);
        buf := buf[1..];
      } else {
        RunJoinsWord(pkBuf, buf[..len], buf[len..] + tail);
        assert buf + tail == buf[..len] + (buf[len..] + tail);
        pkBuf := pkBuf + buf[..len];
        buf := buf[len..];
        if buf != [] {
          SpaceEndsWord(pkBuf, buf, tail);
          AppendAssoc(keys, [pkBuf], WordsFrom([], buf[1..] + tail));
          keys := keys + [pkBuf];
          pkBuf := [];
          buf := buf[1..];
        }
      }
    }
    assert buf + tail == tail;
  }

  /** The partitions-file reader of `get_partitions`: `chunks` are the
      buffers the file stream returns before its end, each non-empty.
      A word cut by the end of a buffer is carried over in `pkBuf` and
      completed from the next one; a last word with no newline after it is
      kept.  The words come out in file order. */
  method ReadPartitionsFile(chunks: seq<seq<char>>) returns (keys: seq<seq<char>>)
    requires forall i :: 0 <= i < |chunks| ==> chunks[i] != []
    ensures keys == Words(Concat(chunks))
  {
    keys := [];
    var pkBuf: seq<char> := [];
    var i := 0;
    while i < |chunks|
      invariant 0 <= i <= |chunks|
      invariant keys + WordsFrom(pkBuf, Concat(chunks[i..])) == Words(Concat(chunks))
      decreases |chunks| - i
    {
      assert Concat(chunks[i..]) == chunks[i] + Concat(chunks[i + 1..]) by {
        assert chunks[i..][1..] == chunks[i + 1..];
      }
      var more;
      more, pkBuf := SplitBuffer(chunks[i], pkBuf, Concat(chunks[i + 1..]));
      keys := keys + more;
      i := i + 1;
    }
    assert chunks[i..] == [];
    if pkBuf != [] {
      // the last line might not end in a newline
      keys := keys + [pkBuf];
    }
  }
}
