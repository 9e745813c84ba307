/** Model of cql3/restrictions/single_column_primary_key_restrictions.hh: the
    set of single-column restrictions on the partition key or the clustering
    key, kept ordered by column position, with its merge checks, its
    filtering decision, the keys it selects (`values_as_keys`) and the key
    ranges it selects (`compute_bounds`, `bounds_ranges`).

    A column's position in the key is its `column_definition::id`. Values of
    every type are integers; a null value is `None`. A key or key prefix is
    the sequence of its components. */
module SingleColumnPk {
  import opened Util

  /** One side of a slice: `a > v`, `a >= v`, `a < v` or `a <= v`. */
  datatype Bound = Bound(value: Option<int>, inclusive: bool)

  /** The kinds of `single_column_restriction`. */
  datatype Kind =
    | Eq(value: Option<int>)
    | In(values: seq<Option<int>>)
    | Slice(start: Option<Bound>, end: Option<Bound>)
    | Contains(values: seq<Option<int>>)

  /** A restriction on the column at position `pos`. */
  datatype Restriction = Restriction(pos: nat, name: string, reversed: bool, kind: Kind)

  /** Restrictions are kept in a map ordered by column position. */
  predicate Ordered(rs: seq<Restriction>)
  {
    forall i, j :: 0 <= i < j < |rs| ==> rs[i].pos < rs[j].pos
  }

  /** Some restriction is on the column at position `p`. */
  predicate Restricted(rs: seq<Restriction>, p: nat)
  {
    exists i :: 0 <= i < |rs| && rs[i].pos == p
  }

  // ----- adding a restriction ---------------------------------------------

  /** Two restrictions on one column: two slices bounding different sides
      combine into one slice; every other combination is refused. */
  function MergeSameColumn(a: Restriction, b: Restriction): (r: Result<Restriction>)
    ensures r.Ok? <==> (a.kind.Slice? && b.kind.Slice? &&
                        !(a.kind.start.Some? && b.kind.start.Some?) && !(a.kind.end.Some? && b.kind.end.Some?))
    ensures r.Ok? ==> r.value.pos == a.pos && r.value.kind.Slice?
  {
    if a.kind.Slice? && b.kind.Slice? && !(a.kind.start.Some? && b.kind.start.Some?) && !(a.kind.end.Some? && b.kind.end.Some?)
    then Ok(a.(kind := Slice(if a.kind.start.Some? then a.kind.start else b.kind.start,
                             if a.kind.end.Some? then a.kind.end else b.kind.end)))
    else Err(a.name + " cannot be restricted by more than one relation")
  }

  /** `single_column_restrictions::add_restriction`: insert in position
      order, or combine with the restriction already on that column. */
  function AddRestriction(rs: seq<Restriction>, x: Restriction): (r: Result<seq<Restriction>>)
    requires Ordered(rs)
    ensures r.Ok? ==> Ordered(r.value) && |r.value| >= |rs|
    ensures r.Ok? ==> r.value != [] && (r.value[0].pos == x.pos || (rs != [] && r.value[0] == rs[0]))
    ensures !Restricted(rs, x.pos) ==> r == Ok(InsertAt(rs, x))
  {
    if rs == [] || x.pos < rs[0].pos then Ok([x] + rs)
    else if x.pos == rs[0].pos then
      match MergeSameColumn(rs[0], x)
      case Err(e) => Err(e)
      case Ok(m) => Ok([m] + rs[1..])
    else
      match AddRestriction(rs[1..], x)
      case Err(e) => Err(e)
      case Ok(t) =>
        assert !Restricted(rs, x.pos) ==> !Restricted(rs[1..], x.pos) by {
          if Restricted(rs[1..], x.pos) {
            var k :| 0 <= k < |rs[1..]| && rs[1..][k].pos == x.pos;
            assert rs[k + 1].pos == x.pos;
          }
        }
        Ok([rs[0]] + t)
  }

  /** Insertion in position order of a restriction on a new column. */
  function InsertAt(rs: seq<Restriction>, x: Restriction): (r: seq<Restriction>)
    requires Ordered(rs) && !Restricted(rs, x.pos)
    ensures Ordered(r) && x in r && |r| == |rs| + 1
    ensures r[0] == x || r[0] == rs[0]
  {
    if rs == [] || x.pos < rs[0].pos then [x] + rs
    else
      [rs[0]] + InsertAt(rs[1..], x)
  }

  /** The slice restriction, if any, is on the last restricted column: the
      shape `do_merge_with` maintains when filtering is not allowed. */
  predicate SliceOnlyLast(rs: seq<Restriction>)
  {
    forall i :: 0 <= i < |rs| - 1 ==> !rs[i].kind.Slice?
  }

  predicate AnySlice(rs: seq<Restriction>)
  {
    exists i :: 0 <= i < |rs| && rs[i].kind.Slice?
  }

  function AfterSliceMessage(newName: string, lastName: string): string
  {
    "Clustering column \"" + newName + "\" cannot be restricted (preceding column \"" + lastName + "\" is restricted by a non-EQ relation)"
  }

  function SliceBeforeMessage(lastName: string, newName: string): string
  {
    "PRIMARY KEY column \"" + lastName + "\" cannot be restricted (preceding column \"" + newName + "\" is restricted by a non-EQ relation)"
  }

  /** The two checks of `do_merge_with`, made only when the set is not
      empty and filtering is not allowed. */
  function MergeCheck(rs: seq<Restriction>, slice: bool, allowFiltering: bool, x: Restriction): (r: Option<string>)
    ensures r.Some? <==> (rs != [] && !allowFiltering &&
                          ((slice && x.pos > rs[|rs| - 1].pos) || (x.pos < rs[|rs| - 1].pos && x.kind.Slice?)))
    ensures r.Some? && slice && x.pos > rs[|rs| - 1].pos ==> r.value == AfterSliceMessage(x.name, rs[|rs| - 1].name)
    ensures r.Some? && !(slice && x.pos > rs[|rs| - 1].pos) ==> r.value == SliceBeforeMessage(rs[|rs| - 1].name, x.name)
  {
    if rs == [] || allowFiltering then None
    else
      var last := rs[|rs| - 1];
      if slice && x.pos > last.pos then Some(AfterSliceMessage(x.name, last.name))
      else if x.pos < last.pos && x.kind.Slice? then Some(SliceBeforeMessage(last.name, x.name))
      else None
  }

  /** Without filtering, a merge that passes the checks keeps every slice
      on the last restricted column. */
  lemma {:induction false} MergeKeepsSliceLast(rs: seq<Restriction>, x: Restriction)
    requires Ordered(rs) && SliceOnlyLast(rs)
    requires MergeCheck(rs, AnySlice(rs), false, x).None?
    requires AddRestriction(rs, x).Ok?
    ensures SliceOnlyLast(AddRestriction(rs, x).value)
  {
    if rs == [] {
    } else if x.pos < rs[0].pos {
      assert AddRestriction(rs, x).value == [x] + rs;
      assert !x.kind.Slice?;
    } else if x.pos == rs[0].pos {
      assert AddRestriction(rs, x).value[1..] == rs[1..];
    } else {
      var rest := rs[1..];
      var t := AddRestriction(rest, x).value;
      assert AddRestriction(rs, x).value == [rs[0]] + t;
      if rest == [] {
        assert t == [x];
      } else {
        assert rest[|rest| - 1] == rs[|rs| - 1];
        assert AnySlice(rest) ==> AnySlice(rs) by {
          if AnySlice(rest) {
            var k :| 0 <= k < |rest| && rest[k].kind.Slice?;
            assert rs[k + 1] == rest[k];
          }
        }
        MergeKeepsSliceLast(rest, x);
      }
    }
  }

  // ----- the restriction set ------------------------------------------------

  /** What `merge_with` is given. */
  datatype Incoming = MultiColumnIncoming | TokenIncoming | SingleColumnIncoming(r: Restriction)

  function Names(rs: seq<Restriction>): (ns: seq<string>)
    ensures |ns| == |rs| && forall i :: 0 <= i < |rs| ==> ns[i] == rs[i].name
  {
    if rs == [] then [] else [rs[0].name] + Names(rs[1..])
  }

  const MixingMessage := "Mixing single column relations and multi column relations on clustering columns is not allowed"

  function TokenMessage(rs: seq<Restriction>): string
  {
    "Columns \"" + Join(", ", Names(rs)) + "\" cannot be restricted by both a normal relation and a token relation"
  }

  class SingleColumnPrimaryKeyRestrictions {
    const allowFiltering: bool
    var restrictions: seq<Restriction>
    var slice: bool
    var contains: bool
    var isIn: bool

    predicate Valid()
      reads this
    {
      Ordered(restrictions)
    }

    constructor (allowFiltering: bool)
      ensures Valid() && this.allowFiltering == allowFiltering
      ensures restrictions == [] && !slice && !contains && !isIn
    {
      this.allowFiltering := allowFiltering;
      restrictions := [];
      slice, contains, isIn := false, false, false;
    }

    /** `do_merge_with`: the checks, then the flags are OR-ed, then the
        restriction is added (which may still fail on an already restricted
        column, after the flags have changed). */
    method DoMergeWith(x: Restriction) returns (r: Outcome)
      requires Valid()
      modifies this
      ensures Valid()
      ensures MergeCheck(old(restrictions), old(slice), allowFiltering, x).Some? ==>
        r == Fail(MergeCheck(old(restrictions), old(slice), allowFiltering, x).value) &&
        restrictions == old(restrictions) && slice == old(slice) && contains == old(contains) && isIn == old(isIn)
      ensures MergeCheck(old(restrictions), old(slice), allowFiltering, x).None? ==>
        slice == (old(slice) || x.kind.Slice?) && isIn == (old(isIn) || x.kind.In?) &&
        contains == (old(contains) || x.kind.Contains?) &&
        (r.Pass? <==> AddRestriction(old(restrictions), x).Ok?) &&
        (r.Pass? ==> restrictions == AddRestriction(old(restrictions), x).value) &&
        (r.Fail? ==> restrictions == old(restrictions) && r.error == AddRestriction(old(restrictions), x).error)
      ensures !allowFiltering && SliceOnlyLast(old(restrictions)) && (AnySlice(old(restrictions)) ==> old(slice)) ==>
        SliceOnlyLast(restrictions)
    {
      var check := MergeCheck(restrictions, slice, allowFiltering, x);
      if check.Some? {
        return Fail(check.value);
      }
      if !allowFiltering && SliceOnlyLast(restrictions) && (AnySlice(restrictions) ==> slice) &&
         AddRestriction(restrictions, x).Ok? {
        assert MergeCheck(restrictions, AnySlice(restrictions), false, x).None?;
        MergeKeepsSliceLast(restrictions, x);
      }
      slice := slice || x.kind.Slice?;
      isIn := isIn || x.kind.In?;
      contains := contains || x.kind.Contains?;
      var added := AddRestriction(restrictions, x);
      if added.Err? {
        return Fail(added.error);
      }
      restrictions := added.value;
      r := Pass;
    }

    /** `merge_with`: multi-column and token restrictions are refused. */
    method MergeWith(other: Incoming) returns (r: Outcome)
      requires Valid()
      modifies this
      ensures Valid()
      ensures !other.SingleColumnIncoming? ==>
        restrictions == old(restrictions) && slice == old(slice) && contains == old(contains) && isIn == old(isIn)
      ensures other.MultiColumnIncoming? ==> r == Fail(MixingMessage)
      ensures other.TokenIncoming? ==> r == Fail(TokenMessage(old(restrictions)))
      ensures other.SingleColumnIncoming? && MergeCheck(old(restrictions), old(slice), allowFiltering, other.r).Some? ==>
        r == Fail(MergeCheck(old(restrictions), old(slice), allowFiltering, other.r).value) &&
        restrictions == old(restrictions) && slice == old(slice) && contains == old(contains) && isIn == old(isIn)
      ensures other.SingleColumnIncoming? && MergeCheck(old(restrictions), old(slice), allowFiltering, other.r).None? ==>
        slice == (old(slice) || other.r.kind.Slice?) && isIn == (old(isIn) || other.r.kind.In?) &&
        contains == (old(contains) || other.r.kind.Contains?) &&
        (r.Pass? <==> AddRestriction(old(restrictions), other.r).Ok?) &&
        (r.Pass? ==> restrictions == AddRestriction(old(restrictions), other.r).value) &&
        (r.Fail? ==> restrictions == old(restrictions) && r.error == AddRestriction(old(restrictions), other.r).error)
      ensures !allowFiltering && SliceOnlyLast(old(restrictions)) && (AnySlice(old(restrictions)) ==> old(slice)) ==>
        SliceOnlyLast(restrictions)
    {
      match other {
        case MultiColumnIncoming =>
          r := Fail(MixingMessage);
        case TokenIncoming =>
          r := Fail(TokenMessage(restrictions));
        case SingleColumnIncoming(x) =>
          r := DoMergeWith(x);
      }
    }

    /** `needs_filtering` for the clustering key: the loop with its expected
        `position`. */
    method NeedsFiltering() returns (r: bool)
      requires Valid()
      ensures r <==> NeedsFilteringSpec(restrictions)
    {
      var rs := restrictions;
      var position := 0;
      var i := 0;
      while i < |rs|
        invariant 0 <= i <= |rs|
        invariant forall j :: 0 <= j < i ==> rs[j].pos == j && !rs[j].kind.Contains?
        invariant forall j :: 0 <= j < i - 1 ==> !rs[j].kind.Slice?
        invariant position == if i > 0 && rs[i - 1].kind.Slice? then i - 1 else i
      {
        if rs[i].kind.Contains? || position != rs[i].pos {
          if i > 0 && rs[i - 1].kind.Slice? {
            assert rs[i - 1].pos < rs[i].pos;
          }
          return true;
        }
        if !rs[i].kind.Slice? {
          position := rs[i].pos + 1;
        }
        i := i + 1;
      }
      r := false;
    }

    /** `values_as_keys`: gather each column's values, then take the
        cartesian product. */
    method ValuesAsKeys() returns (r: Result<seq<seq<int>>>)
      requires Valid() && NoSlice(restrictions)
      ensures r == ValuesAsKeysOf(restrictions)
    {
      var rs := restrictions;
      var lists: seq<seq<int>> := [];
      for i := 0 to |rs|
        invariant CollectFrom(rs, 0, []) == CollectFrom(rs, i, lists)
      {
        var vs := ColumnValues(rs[i].kind);
        for j := 0 to |vs|
          invariant forall m :: 0 <= m < j ==> vs[m].Some?
        {
          if vs[j].None? {
            return Err(NullMessage(rs[i].name));
          }
        }
        if vs == [] {
          return Ok([]);
        }
        lists := lists + [Present(vs)];
      }
      r := Ok(Product(lists));
    }

    /** `compute_bounds`: one singular range when every restriction is an
        equality; otherwise the longest prefix of contiguous EQ/IN columns,
        closed by an optional slice. */
    method ComputeBounds(partition: bool) returns (r: Result<seq<KeyRange>>)
      requires Valid()
      ensures r == ComputeBoundsOf(restrictions, partition)
    {
      var rs := restrictions;
      if AllEq(rs) {
        if |rs| == 1 {
          var v := rs[0].kind.value;
          if v.None? {
            return Err(KeyNullMessage(partition, rs[0].name));
          }
          return Ok([Singular([v.value])]);
        }
        var comps: seq<int> := [];
        for i := 0 to |rs|
          invariant AllEqFrom(rs, partition, 0, []) == AllEqFrom(rs, partition, i, comps)
        {
          if |comps| != rs[i].pos {
            return Err(ComponentOrderMessage);
          }
          var v := rs[i].kind.value;
          if v.None? {
            return Err(KeyNullMessage(partition, rs[i].name));
          }
          comps := comps + [v.value];
        }
        return Ok([Singular(comps)]);
      }
      var vec: seq<seq<int>> := [];
      var i := 0;
      while i < |rs|
        invariant i <= |rs|
        invariant PrefixFrom(rs, partition, 0, []) == PrefixFrom(rs, partition, i, vec)
      {
        if |vec| != rs[i].pos || rs[i].kind.Contains? {
          break;
        }
        if rs[i].kind.Slice? {
          if ProductIsEmpty(vec) {
            var one := SliceRange(rs[i], [], true, partition);
            if one.Err? {
              return Err(one.error);
            }
            return Ok([one.value]);
          }
          return SliceRanges(rs[i], Product(vec), partition);
        }
        var vs := ColumnValues(rs[i].kind);
        if !AllPresent(vs) {
          return Err(KeyNullMessage(partition, rs[i].name));
        }
        if vs == [] {
          return Ok([]);
        }
        vec := vec + [Present(vs)];
        i := i + 1;
      }
      r := Ok(Singulars(Product(vec)));
    }

    /** `bounds_ranges` for the partition key: every range must be a single key. */
    method PartitionBoundsRanges() returns (r: Result<seq<KeyRange>>)
      requires Valid()
      ensures r == PartitionBoundsRangesOf(restrictions)
    {
      var computed := ComputeBounds(true);
      if computed.Err? {
        return Err(computed.error);
      }
      var ranges := computed.value;
      for i := 0 to |ranges|
        invariant forall j :: 0 <= j < i ==> ranges[j].singular
      {
        if !ranges[i].singular {
          return Err(RangeQueryMessage);
        }
      }
      r := Ok(ranges);
    }

    /** `bounds_ranges` for the clustering key. */
    method ClusteringBoundsRanges() returns (r: Result<seq<KeyRange>>)
      requires Valid()
      ensures r.Err? <==> ComputeBoundsOf(restrictions, false).Err?
      ensures r.Ok? ==> r.value == ClusteringBoundsRangesOf(ComputeBoundsOf(restrictions, false).value)
    {
      var computed := ComputeBounds(false);
      if computed.Err? {
        return Err(computed.error);
      }
      r := Ok(ClusteringBoundsRangesOf(computed.value));
    }
  }

  /** Filtering is needed when some restriction is a CONTAINS, when the
      restricted columns are not exactly the first ones in order, or when a
      slice is followed by another restriction. */
  predicate NeedsFilteringSpec(rs: seq<Restriction>)
  {
    (exists i :: 0 <= i < |rs| && rs[i].kind.Contains?) ||
    (exists i :: 0 <= i < |rs| && rs[i].pos != i) ||
    (exists i :: 0 <= i < |rs| - 1 && rs[i].kind.Slice?)
  }

  // ----- cartesian products ---------------------------------------------

  function Prepend(x: int, ks: seq<seq<int>>): (r: seq<seq<int>>)
    ensures |r| == |ks| && forall j :: 0 <= j < |ks| ==> r[j] == [x] + ks[j]
  {
    seq(|ks|, j requires 0 <= j < |ks| => [x] + ks[j])
  }

  function ProductWith(xs: seq<int>, rest: seq<seq<int>>): (r: seq<seq<int>>)
  {
    if xs == [] then [] else Prepend(xs[0], rest) + ProductWith(xs[1..], rest)
  }

  /** `make_cartesian_product`: every choice of one value from each list,
      the last list varying fastest. */
  function Product(lists: seq<seq<int>>): seq<seq<int>>
  {
    if lists == [] then [[]] else ProductWith(lists[0], Product(lists[1..]))
  }

  /** `k` takes its `j`-th component from the `j`-th list. */
  predicate Choice(k: seq<int>, lists: seq<seq<int>>)
  {
    |k| == |lists| && forall j :: 0 <= j < |k| ==> k[j] in lists[j]
  }

  function SizeProduct(lists: seq<seq<int>>): nat
  {
    if lists == [] then 1 else |lists[0]| * SizeProduct(lists[1..])
  }

  lemma {:induction false} ProductWithMembers(xs: seq<int>, rest: seq<seq<int>>, k: seq<int>)
    ensures k in ProductWith(xs, rest) <==> k != [] && k[0] in xs && k[1..] in rest
    ensures |ProductWith(xs, rest)| == |xs| * |rest|
  {
    if xs != [] {
      ProductWithMembers(xs[1..], rest, k);
      if k in Prepend(xs[0], rest) {
        var j :| 0 <= j < |rest| && Prepend(xs[0], rest)[j] == k;
        assert k[1..] == rest[j];
      }
      if k != [] && k[0] == xs[0] && k[1..] in rest {
        var j :| 0 <= j < |rest| && rest[j] == k[1..];
        assert Prepend(xs[0], rest)[j] == k;
      }
    }
  }

  /** The product holds exactly the choices, as many as the product of the
      list sizes. */
  lemma {:induction false} ProductMembers(lists: seq<seq<int>>, k: seq<int>)
    ensures k in Product(lists) <==> Choice(k, lists)
    ensures |Product(lists)| == SizeProduct(lists)
  {
    if lists != [] {
      ProductWithMembers(lists[0], Product(lists[1..]), k);
      if k != [] {
        ProductMembers(lists[1..], k[1..]);
        if Choice(k, lists) {
          assert Choice(k[1..], lists[1..]) by {
            forall j | 0 <= j < |k| - 1 ensures k[1..][j] in lists[1..][j] {
              assert k[j + 1] in lists[j + 1];
            }
          }
        }
        if k[0] in lists[0] && Choice(k[1..], lists[1..]) {
          forall j | 0 <= j < |k| ensures k[j] in lists[j] {
            if j > 0 {
              assert k[1..][j - 1] in lists[1..][j - 1];
            }
          }
        }
      } else {
        ProductMembers(lists[1..], []);
      }
    }
  }

  // ----- values_as_keys -------------------------------------------------

  /** The values a non-slice restriction allows. */
  function ColumnValues(k: Kind): seq<Option<int>>
  {
    match k
    case Eq(v) => [v]
    case In(vs) => vs
    case Contains(vs) => vs
    case Slice(_, _) => []
  }

  predicate AllPresent(vs: seq<Option<int>>)
  {
    forall i :: 0 <= i < |vs| ==> vs[i].Some?
  }

  function Present(vs: seq<Option<int>>): (r: seq<int>)
    requires AllPresent(vs)
    ensures |r| == |vs| && forall i :: 0 <= i < |vs| ==> vs[i] == Some(r[i])
  {
    if vs == [] then [] else [vs[0].value] + Present(vs[1..])
  }

  function NullMessage(name: string): string
  {
    "Invalid null value for column " + name
  }

  /** The loop of `values_as_keys` from restriction `i` on, having gathered
      `acc`: the first null value is an error, the first empty list ends the
      walk with no keys (`None`). */
  function CollectFrom(rs: seq<Restriction>, i: nat, acc: seq<seq<int>>): Result<Option<seq<seq<int>>>>
    requires i <= |rs|
    decreases |rs| - i
  {
    if i == |rs| then Ok(Some(acc))
    else
      var vs := ColumnValues(rs[i].kind);
      if !AllPresent(vs) then Err(NullMessage(rs[i].name))
      else if vs == [] then Ok(None)
      else CollectFrom(rs, i + 1, acc + [Present(vs)])
  }

  /** `values_as_keys`: the keys are the cartesian product of the columns' value lists. */
  function ValuesAsKeysOf(rs: seq<Restriction>): Result<seq<seq<int>>>
  {
    match CollectFrom(rs, 0, [])
    case Err(e) => Err(e)
    case Ok(None) => Ok([])
    case Ok(Some(lists)) => Ok(Product(lists))
  }

  predicate NoSlice(rs: seq<Restriction>)
  {
    forall i :: 0 <= i < |rs| ==> !rs[i].kind.Slice?
  }

  lemma {:induction false} CollectAll(rs: seq<Restriction>, i: nat, acc: seq<seq<int>>)
    requires i <= |rs| && |acc| == i
    requires forall j :: 0 <= j < |rs| ==> AllPresent(ColumnValues(rs[j].kind)) && ColumnValues(rs[j].kind) != []
    requires forall j :: 0 <= j < i ==> acc[j] == Present(ColumnValues(rs[j].kind))
    ensures CollectFrom(rs, i, acc).Ok? && CollectFrom(rs, i, acc).value.Some?
    ensures var lists := CollectFrom(rs, i, acc).value.value;
      |lists| == |rs| && forall j :: 0 <= j < |rs| ==> lists[j] == Present(ColumnValues(rs[j].kind))
    decreases |rs| - i
  {
    if i < |rs| {
      CollectAll(rs, i + 1, acc + [Present(ColumnValues(rs[i].kind))]);
    }
  }

  /** With no null and no empty list, a key is selected exactly when each of
      its components is one of its column's values. */
  lemma ValuesAsKeysMembers(rs: seq<Restriction>, k: seq<int>)
    requires forall j :: 0 <= j < |rs| ==> AllPresent(ColumnValues(rs[j].kind)) && ColumnValues(rs[j].kind) != []
    ensures ValuesAsKeysOf(rs).Ok?
    ensures k in ValuesAsKeysOf(rs).value <==>
      |k| == |rs| && forall j :: 0 <= j < |rs| ==> Some(k[j]) in ColumnValues(rs[j].kind)
  {
    CollectAll(rs, 0, []);
    var lists := CollectFrom(rs, 0, []).value.value;
    ProductMembers(lists, k);
    if |k| == |rs| {
      forall j | 0 <= j < |rs| ensures k[j] in lists[j] <==> Some(k[j]) in ColumnValues(rs[j].kind) {
        var vs := ColumnValues(rs[j].kind);
        if Some(k[j]) in vs {
          var m :| 0 <= m < |vs| && vs[m] == Some(k[j]);
          assert lists[j][m] == k[j];
        }
        if k[j] in lists[j] {
          var m :| 0 <= m < |lists[j]| && lists[j][m] == k[j];
          assert vs[m] == Some(k[j]);
        }
      }
    }
  }

  /** A null value on a column reached by the walk is reported with that column's name. */
  lemma {:induction false} CollectNull(rs: seq<Restriction>, i: nat, acc: seq<seq<int>>, n: nat)
    requires i <= n < |rs|
    requires forall j :: i <= j < n ==> AllPresent(ColumnValues(rs[j].kind)) && ColumnValues(rs[j].kind) != []
    requires !AllPresent(ColumnValues(rs[n].kind))
    ensures CollectFrom(rs, i, acc) == Err(NullMessage(rs[n].name))
    decreases n - i
  {
    if i < n {
      CollectNull(rs, i + 1, acc + [Present(ColumnValues(rs[i].kind))], n);
    }
  }

  // ----- compute_bounds -------------------------------------------------

  /** A bound of a key range: a key prefix and whether it is included. */
  datatype KeyBound = KeyBound(prefix: seq<int>, inclusive: bool)

  /** A key range; a missing bound is unbounded. */
  datatype KeyRange = KeyRange(start: Option<KeyBound>, end: Option<KeyBound>, singular: bool)

  function Singular(k: seq<int>): KeyRange
  {
    KeyRange(Some(KeyBound(k, true)), Some(KeyBound(k, true)), true)
  }

  function Singulars(ks: seq<seq<int>>): (r: seq<KeyRange>)
    ensures |r| == |ks| && forall i :: 0 <= i < |ks| ==> r[i] == Singular(ks[i])
  {
    seq(|ks|, i requires 0 <= i < |ks| => Singular(ks[i]))
  }

  /** `range::reverse`: a non-singular range swaps its bounds. */
  function Reversed(r: KeyRange): KeyRange
  {
    if r.singular then r else KeyRange(r.end, r.start, false)
  }

  function KeyNullMessage(partition: bool, name: string): string
  {
    (if partition then "Invalid null value for partition key part " else "Invalid null value for clustering key part ") + name
  }

  /** The `assert` that the equalities cover the key's columns in order. */
  const ComponentOrderMessage := "assertion failed: components.size() == position"

  const RangeQueryMessage := "Range queries on partition key values not supported."

  predicate AllEq(rs: seq<Restriction>)
  {
    forall i :: 0 <= i < |rs| ==> rs[i].kind.Eq?
  }

  /** The all-equalities loop of `compute_bounds` from restriction `i` on. */
  function AllEqFrom(rs: seq<Restriction>, partition: bool, i: nat, comps: seq<int>): Result<seq<int>>
    requires AllEq(rs) && i <= |rs|
    decreases |rs| - i
  {
    if i == |rs| then Ok(comps)
    else if |comps| != rs[i].pos then Err(ComponentOrderMessage)
    else if rs[i].kind.value.None? then Err(KeyNullMessage(partition, rs[i].name))
    else AllEqFrom(rs, partition, i + 1, comps + [rs[i].kind.value.value])
  }

  /** `read_bound`: a missing bound is unbounded (`open`) or the prefix
      itself, inclusive; a null bound value is an error. */
  function ReadBound(b: Option<Bound>, prefix: seq<int>, open: bool, msg: string): (r: Result<Option<KeyBound>>)
    ensures r.Ok? && b.Some? ==> b.value.value.Some? && r.value == Some(KeyBound(prefix + [b.value.value.value], b.value.inclusive))
  {
    if b.None? then (if open then Ok(None) else Ok(Some(KeyBound(prefix, true))))
    else if b.value.value.None? then Err(msg)
    else Ok(Some(KeyBound(prefix + [b.value.value.value], b.value.inclusive)))
  }

  /** The range of a slice after `prefix`, reversed on a descending column. */
  function SliceRange(r: Restriction, prefix: seq<int>, open: bool, partition: bool): (x: Result<KeyRange>)
    requires r.kind.Slice?
    ensures x.Ok? ==> !x.value.singular
  {
    var msg := KeyNullMessage(partition, r.name);
    match ReadBound(r.kind.start, prefix, open, msg)
    case Err(e) => Err(e)
    case Ok(start) =>
      match ReadBound(r.kind.end, prefix, open, msg)
      case Err(e) => Err(e)
      case Ok(end) =>
        var range := KeyRange(start, end, false);
        Ok(if r.reversed then Reversed(range) else range)
  }

  function SliceRanges(r: Restriction, prefixes: seq<seq<int>>, partition: bool): (x: Result<seq<KeyRange>>)
    requires r.kind.Slice?
    ensures x.Ok? ==> |x.value| == |prefixes| && forall i :: 0 <= i < |prefixes| ==> !x.value[i].singular
  {
    if prefixes == [] then Ok([])
    else
      match SliceRange(r, prefixes[0], false, partition)
      case Err(e) => Err(e)
      case Ok(first) =>
        match SliceRanges(r, prefixes[1..], partition)
        case Err(e) => Err(e)
        case Ok(rest) => Ok([first] + rest)
  }

  /** `cartesian_product_is_empty`: no factor, or an empty one. */
  predicate ProductIsEmpty(vec: seq<seq<int>>)
  {
    vec == [] || exists i :: 0 <= i < |vec| && vec[i] == []
  }

  /** The prefix loop of `compute_bounds` from restriction `i` on, having
      gathered the value lists `vec`: a gap in the column positions or a
      CONTAINS ends the prefix, a slice closes it. */
  function PrefixFrom(rs: seq<Restriction>, partition: bool, i: nat, vec: seq<seq<int>>): Result<seq<KeyRange>>
    requires i <= |rs|
    decreases |rs| - i
  {
    if i == |rs| || |vec| != rs[i].pos || rs[i].kind.Contains? then Ok(Singulars(Product(vec)))
    else if rs[i].kind.Slice? then
      if ProductIsEmpty(vec) then
        match SliceRange(rs[i], [], true, partition)
        case Err(e) => Err(e)
        case Ok(one) => Ok([one])
      else SliceRanges(rs[i], Product(vec), partition)
    else
      var vs := ColumnValues(rs[i].kind);
      if !AllPresent(vs) then Err(KeyNullMessage(partition, rs[i].name))
      else if vs == [] then Ok([])
      else PrefixFrom(rs, partition, i + 1, vec + [Present(vs)])
  }

  function ComputeBoundsOf(rs: seq<Restriction>, partition: bool): Result<seq<KeyRange>>
  {
    if AllEq(rs) then
      if |rs| == 1 then
        if rs[0].kind.value.None? then Err(KeyNullMessage(partition, rs[0].name))
        else Ok([Singular([rs[0].kind.value.value])])
      else
        match AllEqFrom(rs, partition, 0, [])
        case Err(e) => Err(e)
        case Ok(comps) => Ok([Singular(comps)])
    else PrefixFrom(rs, partition, 0, [])
  }

  /** The partition-key ranges: a range that is not a single key is refused. */
  function PartitionBoundsRangesOf(rs: seq<Restriction>): (r: Result<seq<KeyRange>>)
    ensures r.Ok? ==> forall i :: 0 <= i < |r.value| ==> r.value[i].singular
    ensures r.Ok? <==> (ComputeBoundsOf(rs, true).Ok? &&
                        forall i :: 0 <= i < |ComputeBoundsOf(rs, true).value| ==> ComputeBoundsOf(rs, true).value[i].singular)
  {
    match ComputeBoundsOf(rs, true)
    case Err(e) => Err(e)
    case Ok(ranges) =>
      if forall i :: 0 <= i < |ranges| ==> ranges[i].singular then Ok(ranges) else Err(RangeQueryMessage)
  }

  // ----- properties of compute_bounds -------------------------------------

  /** Restrictions on consecutive columns `0, 1, …` that are all equalities
      on non-null values give the one key made of those values. */
  lemma {:induction false} AllEqKey(rs: seq<Restriction>, partition: bool, i: nat, comps: seq<int>)
    requires AllEq(rs) && i <= |rs| && |comps| == i
    requires forall j :: 0 <= j < |rs| ==> rs[j].pos == j && rs[j].kind.value.Some?
    requires forall j :: 0 <= j < i ==> comps[j] == rs[j].kind.value.value
    ensures AllEqFrom(rs, partition, i, comps).Ok?
    ensures var key := AllEqFrom(rs, partition, i, comps).value;
      |key| == |rs| && forall j :: 0 <= j < |rs| ==> key[j] == rs[j].kind.value.value
    decreases |rs| - i
  {
    if i < |rs| {
      AllEqKey(rs, partition, i + 1, comps + [rs[i].kind.value.value]);
    }
  }

  /** Restrictions from the first gap in the column positions, or the first
      CONTAINS, on do not change the ranges. */
  lemma {:induction false} PrefixStops(rs: seq<Restriction>, partition: bool, i: nat, vec: seq<seq<int>>, p: nat)
    requires i <= p <= |rs| && |vec| == i
    requires p < |rs| ==> rs[p].pos != p || rs[p].kind.Contains?
    ensures PrefixFrom(rs, partition, i, vec) == PrefixFrom(rs[..p], partition, i, vec)
    decreases p - i
  {
    assert forall j :: 0 <= j < p ==> rs[..p][j] == rs[j];
    if i < p {
      var vs := ColumnValues(rs[i].kind);
      if |vec| == rs[i].pos && !rs[i].kind.Contains? && !rs[i].kind.Slice? && AllPresent(vs) && vs != [] {
        PrefixStops(rs, partition, i + 1, vec + [Present(vs)], p);
      }
    }
  }

  /** Without a slice, every range of the prefix loop is a single key. */
  lemma {:induction false} PrefixSingular(rs: seq<Restriction>, partition: bool, i: nat, vec: seq<seq<int>>)
    requires i <= |rs| && NoSlice(rs)
    requires PrefixFrom(rs, partition, i, vec).Ok?
    ensures forall j :: 0 <= j < |PrefixFrom(rs, partition, i, vec).value| ==> PrefixFrom(rs, partition, i, vec).value[j].singular
    decreases |rs| - i
  {
    if i < |rs| && |vec| == rs[i].pos && !rs[i].kind.Contains? {
      var vs := ColumnValues(rs[i].kind);
      if AllPresent(vs) && vs != [] {
        PrefixSingular(rs, partition, i + 1, vec + [Present(vs)]);
      }
    }
  }

  /** Equality and IN restrictions alone never make a partition-key range query. */
  lemma NoSlicePartitionRanges(rs: seq<Restriction>)
    requires NoSlice(rs) && ComputeBoundsOf(rs, true).Ok?
    ensures PartitionBoundsRangesOf(rs) == ComputeBoundsOf(rs, true)
  {
    if !AllEq(rs) {
      PrefixSingular(rs, true, 0, []);
    }
  }

  /** A slice on the first partition-key column is refused as a range query. */
  lemma SlicePartitionRefused(rs: seq<Restriction>)
    requires rs != [] && rs[0].pos == 0 && rs[0].kind.Slice? && ComputeBoundsOf(rs, true).Ok?
    ensures PartitionBoundsRangesOf(rs) == Err(RangeQueryMessage)
  {
    assert !AllEq(rs);
    assert !ComputeBoundsOf(rs, true).value[0].singular;
  }

  // ----- bounds_ranges for the clustering key -----------------------------

  /** `clustering_key_prefix::less_compare` as a three-way comparison:
      lexicographic, a proper prefix first. */
  function PrefixCompare(a: seq<int>, b: seq<int>): int
  {
    if a == [] && b == [] then 0
    else if a == [] then -1
    else if b == [] then 1
    else if a[0] != b[0] then (if a[0] < b[0] then -1 else 1)
    else PrefixCompare(a[1..], b[1..])
  }

  lemma {:induction false} PrefixCompareZero(a: seq<int>, b: seq<int>)
    ensures PrefixCompare(a, b) == 0 <==> a == b
  {
    if a != [] && b != [] && a[0] == b[0] {
      PrefixCompareZero(a[1..], b[1..]);
      assert a == [a[0]] + a[1..] && b == [b[0]] + b[1..];
    }
  }

  lemma {:induction false} PrefixCompareAntisymmetric(a: seq<int>, b: seq<int>)
    ensures PrefixCompare(b, a) == -PrefixCompare(a, b)
  {
    if a != [] && b != [] && a[0] == b[0] {
      PrefixCompareAntisymmetric(a[1..], b[1..]);
    }
  }

  lemma {:induction false} PrefixCompareTransitive(a: seq<int>, b: seq<int>, c: seq<int>)
    requires PrefixCompare(a, b) < 0 && PrefixCompare(b, c) < 0
    ensures PrefixCompare(a, c) < 0
  {
    if a != [] && b != [] && c != [] && a[0] == b[0] && b[0] == c[0] {
      PrefixCompareTransitive(a[1..], b[1..], c[1..]);
    }
  }

  /** A position among clustering rows: before or after every row, or just
      before (`weight` -1) or just after (`weight` 1) the rows that start
      with `prefix`. */
  datatype Position = Bottom | Top | At(prefix: seq<int>, weight: int)

  function StartPosition(r: KeyRange): Position
  {
    if r.start.None? then Bottom else At(r.start.value.prefix, if r.start.value.inclusive then -1 else 1)
  }

  function EndPosition(r: KeyRange): Position
  {
    if r.end.None? then Top else At(r.end.value.prefix, if r.end.value.inclusive then 1 else -1)
  }

  function WeightedCompare(a: seq<int>, wa: int, b: seq<int>, wb: int): int
  {
    if a == [] && b == [] then (if wa < wb then -1 else if wa == wb then 0 else 1)
    else if a == [] then (if wa < 0 then -1 else 1)
    else if b == [] then (if wb < 0 then 1 else -1)
    else if a[0] != b[0] then (if a[0] < b[0] then -1 else 1)
    else WeightedCompare(a[1..], wa, b[1..], wb)
  }

  /** `bound_view::compare` */
  function PositionCompare(a: Position, b: Position): int
  {
    match (a, b)
    case (Bottom, Bottom) => 0
    case (Bottom, _) => -1
    case (_, Bottom) => 1
    case (Top, Top) => 0
    case (Top, _) => 1
    case (_, Top) => -1
    case (At(p, wp), At(q, wq)) => WeightedCompare(p, wp, q, wq)
  }

  /** The range's end lies before its start. */
  predicate EmptyRange(r: KeyRange)
  {
    PositionCompare(EndPosition(r), StartPosition(r)) < 0
  }

  lemma {:induction false} WeightedCompareSame(k: seq<int>)
    ensures WeightedCompare(k, 1, k, -1) > 0
  {
    if k != [] {
      WeightedCompareSame(k[1..]);
    }
  }

  /** A single key is never dropped as an empty range. */
  lemma SingularNotEmpty(k: seq<int>)
    ensures !EmptyRange(Singular(k))
  {
    WeightedCompareSame(k);
  }

  /** The `filtered` step: the non-empty ranges, in order. */
  function NonEmpty(rs: seq<KeyRange>): (r: seq<KeyRange>)
    ensures forall x :: x in r <==> x in rs && !EmptyRange(x)
  {
    if rs == [] then []
    else (if EmptyRange(rs[0]) then [] else [rs[0]]) + NonEmpty(rs[1..])
  }

  predicate StartLess(a: Option<KeyBound>, b: Option<KeyBound>)
  {
    (a.None? && b.Some?) || (a.Some? && b.Some? && PrefixCompare(a.value.prefix, b.value.prefix) < 0)
  }

  predicate SameStart(a: Option<KeyBound>, b: Option<KeyBound>)
  {
    (a.None? && b.None?) || (a.Some? && b.Some? && a.value.prefix == b.value.prefix)
  }

  predicate StartLe(a: Option<KeyBound>, b: Option<KeyBound>)
  {
    StartLess(a, b) || SameStart(a, b)
  }

  lemma StartTotal(a: Option<KeyBound>, b: Option<KeyBound>)
    ensures StartLe(a, b) || StartLess(b, a)
  {
    if a.Some? && b.Some? {
      PrefixCompareZero(a.value.prefix, b.value.prefix);
      PrefixCompareAntisymmetric(a.value.prefix, b.value.prefix);
    }
  }

  lemma StartLessTransitive(a: Option<KeyBound>, b: Option<KeyBound>, c: Option<KeyBound>)
    requires StartLess(a, b) && StartLess(b, c)
    ensures StartLess(a, c)
  {
    if a.Some? {
      PrefixCompareTransitive(a.value.prefix, b.value.prefix, c.value.prefix);
    }
  }

  predicate SortedByStart(rs: seq<KeyRange>)
  {
    forall i :: 0 <= i < |rs| - 1 ==> StartLe(rs[i].start, rs[i + 1].start)
  }

  function InsertByStart(rs: seq<KeyRange>, x: KeyRange): (r: seq<KeyRange>)
    requires SortedByStart(rs)
    ensures SortedByStart(r) && multiset(r) == multiset(rs) + multiset{x}
    ensures r[0] == x || (rs != [] && r[0] == rs[0])
  {
    if rs == [] || StartLe(x.start, rs[0].start) then [x] + rs
    else
      StartTotal(x.start, rs[0].start);
      assert rs == [rs[0]] + rs[1..];
      [rs[0]] + InsertByStart(rs[1..], x)
  }

  /** The `std::sort` by start, unbounded starts first. */
  function SortByStart(rs: seq<KeyRange>): (r: seq<KeyRange>)
    ensures SortedByStart(r) && multiset(r) == multiset(rs)
  {
    if rs == [] then []
    else
      assert rs == [rs[0]] + rs[1..];
      InsertByStart(SortByStart(rs[1..]), rs[0])
  }

  /** The `std::unique` step: of consecutive ranges with the same start,
      only the first is kept. */
  function Unique(rs: seq<KeyRange>): (r: seq<KeyRange>)
    ensures forall x :: x in r ==> x in rs
    ensures rs != [] ==> r != [] && r[0] == rs[0]
    decreases |rs|
  {
    if |rs| <= 1 then rs
    else if SameStart(rs[0].start, rs[1].start) then
      var t := [rs[0]] + rs[2..];
      assert forall x :: x in t ==> x in rs;
      Unique(t)
    else [rs[0]] + Unique(rs[1..])
  }

  predicate IncreasingStarts(rs: seq<KeyRange>)
  {
    forall i :: 0 <= i < |rs| - 1 ==> StartLess(rs[i].start, rs[i + 1].start)
  }

  /** After `Unique`, consecutive starts strictly increase. */
  lemma {:induction false} UniqueStrict(rs: seq<KeyRange>)
    requires SortedByStart(rs)
    ensures IncreasingStarts(Unique(rs))
    decreases |rs|
  {
    if |rs| > 1 {
      if SameStart(rs[0].start, rs[1].start) {
        var t := [rs[0]] + rs[2..];
        assert SortedByStart(t) by {
          if |rs| > 2 {
            assert StartLe(rs[1].start, rs[2].start);
            assert t[1] == rs[2];
            assert StartLe(t[0].start, t[1].start);
          }
          forall i | 1 <= i < |t| - 1 ensures StartLe(t[i].start, t[i + 1].start) {
            assert t[i] == rs[i + 1] && t[i + 1] == rs[i + 2];
          }
        }
        UniqueStrict(t);
        assert Unique(rs) == Unique(t);
      } else {
        assert SortedByStart(rs[1..]) by {
          forall i | 0 <= i < |rs| - 2 ensures StartLe(rs[1..][i].start, rs[1..][i + 1].start) {
            assert rs[1..][i] == rs[i + 1];
          }
        }
        UniqueStrict(rs[1..]);
        StartTotal(rs[0].start, rs[1].start);
      }
    }
  }

  /** Every start of the input survives `Unique`. */
  lemma {:induction false} UniqueCovers(rs: seq<KeyRange>, x: KeyRange)
    requires x in rs
    ensures exists y :: y in Unique(rs) && SameStart(x.start, y.start)
    decreases |rs|
  {
    if |rs| > 1 {
      if SameStart(rs[0].start, rs[1].start) {
        var t := [rs[0]] + rs[2..];
        if x == rs[1] {
          UniqueCovers(t, rs[0]);
          var y :| y in Unique(t) && SameStart(rs[0].start, y.start);
          assert SameStart(x.start, y.start);
        } else {
          assert x in t;
          UniqueCovers(t, x);
        }
      } else if x == rs[0] {
        assert SameStart(x.start, Unique(rs)[0].start);
      } else {
        assert x in rs[1..];
        UniqueCovers(rs[1..], x);
        var y :| y in Unique(rs[1..]) && SameStart(x.start, y.start);
        assert y in Unique(rs);
      }
    } else {
      assert SameStart(x.start, x.start);
    }
  }

  lemma {:induction false} AdjacentToAll(rs: seq<KeyRange>, i: nat, j: nat)
    requires IncreasingStarts(rs)
    requires i < j < |rs|
    ensures StartLess(rs[i].start, rs[j].start)
    decreases j - i
  {
    if i + 1 < j {
      AdjacentToAll(rs, i + 1, j);
      StartLessTransitive(rs[i].start, rs[i + 1].start, rs[j].start);
    }
  }

  /** `bounds_ranges` for the clustering key: drop empty ranges, sort by
      start, and keep one range per start. */
  function ClusteringBoundsRangesOf(rs: seq<KeyRange>): seq<KeyRange>
  {
    Unique(SortByStart(NonEmpty(rs)))
  }

  /** The clustering ranges have strictly increasing starts, an unbounded
      start first. */
  lemma ClusteringRangesIncreasing(rs: seq<KeyRange>)
    ensures var r := ClusteringBoundsRangesOf(rs);
      forall i, j :: 0 <= i < j < |r| ==> StartLess(r[i].start, r[j].start)
  {
    var r := ClusteringBoundsRangesOf(rs);
    UniqueStrict(SortByStart(NonEmpty(rs)));
    assert r == Unique(SortByStart(NonEmpty(rs)));
    forall i, j | 0 <= i < j < |r| ensures StartLess(r[i].start, r[j].start) {
      AdjacentToAll(r, i, j);
    }
  }

  /** The clustering ranges are non-empty ranges of the input. */
  lemma ClusteringRangesFromInput(rs: seq<KeyRange>)
    ensures forall x :: x in ClusteringBoundsRangesOf(rs) ==> x in rs && !EmptyRange(x)
  {
    var sorted := SortByStart(NonEmpty(rs));
    forall x | x in ClusteringBoundsRangesOf(rs) ensures x in rs && !EmptyRange(x) {
      assert x in multiset(sorted);
    }
  }

  /** Every start of a non-empty input range is the start of some clustering range. */
  lemma ClusteringRangesKeepStarts(rs: seq<KeyRange>, x: KeyRange)
    requires x in rs && !EmptyRange(x)
    ensures exists y :: y in ClusteringBoundsRangesOf(rs) && SameStart(x.start, y.start)
  {
    var sorted := SortByStart(NonEmpty(rs));
    assert x in multiset(NonEmpty(rs));
    assert x in multiset(sorted);
    UniqueCovers(sorted, x);
  }
}
