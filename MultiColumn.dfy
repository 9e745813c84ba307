/** Model of the multi-column clustering restrictions of
    cql3/restrictions/multi_column_restriction.hh: a restriction such as
    `(a, b, c) >= (0, 1, 2)` on several clustering columns at once, its
    ordering flags, merging with a second restriction, and the expansion of
    a tuple bound into single-column restrictions.

    A `column_definition*` is modelled by `ColumnDef`; the pointer order that
    `std::sort` uses on column definitions is modelled by the column id. */
module MultiColumn {
  import opened Util
  import opened Expression

  /** A clustering column; `reversed` is `type->is_reversed()`. */
  datatype ColumnDef = ColumnDef(id: nat, name: string, reversed: bool)

  /** The three concrete subclasses: EQ, IN and slice. */
  datatype Kind = EqKind | InKind | SliceKind

  /** `comparison_order`: plain CQL order or SCYLLA_CLUSTERING_BOUND. */
  datatype Mode = Cql | ClusteringBound

  /** `statements::bound` */
  datatype BoundSide = Start | End

  /** One side of a `term_slice`: its inclusiveness and tuple value. */
  datatype SliceBound = SliceBound(inclusive: bool, values: seq<int>)

  datatype TermSlice = TermSlice(start: Option<SliceBound>, end: Option<SliceBound>)

  /** Lexicographic comparison of a tuple with a bound over their common
      prefix: a bound shorter than the tuple constrains only its first
      components. */
  function PrefixCompare(v: seq<int>, w: seq<int>): int
  {
    if v == [] || w == [] then 0
    else if v[0] != w[0] then Compare(v[0], w[0])
    else PrefixCompare(v[1..], w[1..])
  }

  /** A tuple of clustering values lies within a slice: at or after its
      start bound and at or before its end bound, strictly for an exclusive
      bound. */
  predicate InSlice(v: seq<int>, s: TermSlice)
  {
    (s.start.Some? ==> var c := PrefixCompare(v, s.start.value.values); c > 0 || (c == 0 && s.start.value.inclusive)) &&
    (s.end.Some? ==> var c := PrefixCompare(v, s.end.value.values); c < 0 || (c == 0 && s.end.value.inclusive))
  }

  /** `term_slice::merge`: each side comes from whichever slice has it.  A
      tuple within both slices is within the merge, and once the callers
      have ruled out two bounds on the same side, the merge holds exactly
      the tuples within both. */
  function MergeSlice(a: TermSlice, b: TermSlice): (r: TermSlice)
    ensures forall v :: InSlice(v, a) && InSlice(v, b) ==> InSlice(v, r)
    ensures !(a.start.Some? && b.start.Some?) && !(a.end.Some? && b.end.Some?) ==>
      forall v :: InSlice(v, r) <==> InSlice(v, a) && InSlice(v, b)
  {
    TermSlice(if a.start.Some? then a.start else b.start,
              if a.end.Some? then a.end else b.end)
  }

  /** `pick_operator(bound, inclusive)` */
  function PickOperator(b: BoundSide, inclusive: bool): (op: Oper)
    ensures IsSlice(op)
  {
    match b
    case Start => if inclusive then GTE else GT
    case End => if inclusive then LTE else LT
  }

  /** `has_slice(e)`: some binary operator inside `e` is a slice. */
  predicate HasSlice(e: Expr)
  {
    match e
    case BoolLit(_) => false
    case BinOp(_, op, _) => IsSlice(op)
    case Conjunction(children) => exists i :: 0 <= i < |children| && HasSlice(children[i])
  }

  // ----- ordering flags -------------------------------------------------

  /** Number of reversed (descending) columns, counted from the end. */
  function NumReversed(cs: seq<ColumnDef>): (n: nat)
    ensures n <= |cs|
  {
    if cs == [] then 0
    else NumReversed(cs[..|cs| - 1]) + (if cs[|cs| - 1].reversed then 1 else 0)
  }

  lemma {:induction false} NumReversedZero(cs: seq<ColumnDef>)
    ensures NumReversed(cs) == 0 <==> forall i :: 0 <= i < |cs| ==> !cs[i].reversed
  {
    if cs != [] {
      var p := cs[..|cs| - 1];
      NumReversedZero(p);
      assert forall i :: 0 <= i < |p| ==> p[i] == cs[i];
    }
  }

  lemma {:induction false} NumReversedAll(cs: seq<ColumnDef>)
    ensures NumReversed(cs) == |cs| <==> forall i :: 0 <= i < |cs| ==> cs[i].reversed
  {
    if cs != [] {
      var p := cs[..|cs| - 1];
      NumReversedAll(p);
      assert forall i :: 0 <= i < |p| ==> p[i] == cs[i];
    }
  }

  // ----- columns in common ----------------------------------------------

  /** The columns of `ours` that also appear in `theirs`, in the order of `ours`. */
  function Shared(ours: seq<ColumnDef>, theirs: seq<ColumnDef>): (r: seq<ColumnDef>)
    ensures forall c :: c in r <==> c in ours && c in theirs
  {
    if ours == [] then []
    else (if ours[0] in theirs then [ours[0]] else []) + Shared(ours[1..], theirs)
  }

  predicate SortedById(cs: seq<ColumnDef>)
  {
    forall i, j :: 0 <= i < j < |cs| ==> cs[i].id <= cs[j].id
  }

  function InsertById(cs: seq<ColumnDef>, c: ColumnDef): (r: seq<ColumnDef>)
    requires SortedById(cs)
    ensures SortedById(r)
    ensures forall x :: x in r <==> x in cs || x == c
  {
    if cs == [] then [c]
    else if c.id <= cs[0].id then [c] + cs
    else
      var rest := InsertById(cs[1..], c);
      assert forall k :: 0 <= k < |rest| ==> rest[k] in cs[1..] || rest[k] == c;
      assert forall k :: 0 <= k < |cs| ==> cs[0].id <= cs[k].id;
      [cs[0]] + rest
  }

  function SortById(cs: seq<ColumnDef>): (r: seq<ColumnDef>)
    ensures SortedById(r)
    ensures forall x :: x in r <==> x in cs
  {
    if cs == [] then [] else InsertById(SortById(cs[1..]), cs[0])
  }

  /** The sorted intersection `get_columns_in_commons` builds with
      `std::sort` and `std::set_intersection`. */
  function CommonColumns(ours: seq<ColumnDef>, theirs: seq<ColumnDef>): (r: seq<ColumnDef>)
    ensures SortedById(r)
    ensures forall c :: c in r <==> c in ours && c in theirs
  {
    SortById(Shared(ours, theirs))
  }

  function Names(cs: seq<ColumnDef>): (r: seq<string>)
    ensures |r| == |cs| && forall i :: 0 <= i < |cs| ==> r[i] == cs[i].name
  {
    if cs == [] then [] else [cs[0].name] + Names(cs[1..])
  }

  /** `get_columns_in_commons`: the common columns' names joined by " ,";
      the message names every column the two restrictions share. */
  function ColumnsInCommon(ours: seq<ColumnDef>, theirs: seq<ColumnDef>): (r: string)
    ensures forall c :: c in ours && c in theirs ==> Occurs(c.name, r)
  {
    var common := CommonColumns(ours, theirs);
    var names := Names(common);
    forall c | c in ours && c in theirs ensures Occurs(c.name, Join(" ,", names)) {
      var k :| 0 <= k < |common| && common[k] == c;
      JoinContains(" ,", names, k);
    }
    Join(" ,", names)
  }

  // ----- the restriction object -----------------------------------------

  /** The restriction handed to `merge_with`: either another multi-column
      restriction (a `clustering_key_restrictions`) or a single-column one. */
  datatype Other =
    | SingleColumnOther(expression: Expr, columns: seq<ColumnDef>)
    | MultiColumnOther(kind: Kind, columns: seq<ColumnDef>, slice: TermSlice, mode: Mode, expression: Expr)

  class MultiColumnRestriction {
    const kind: Kind
    var columns: seq<ColumnDef>
    var hasOnlyAsc: bool
    var hasOnlyDesc: bool
    var slice: TermSlice
    const mode: Mode
    var expression: Expr

    /** The flags agree with the reversed columns. */
    predicate Valid()
      reads this
    {
      hasOnlyAsc == (NumReversed(columns) == 0) && hasOnlyDesc == (NumReversed(columns) == |columns|)
    }

    constructor (kind: Kind, columns: seq<ColumnDef>, slice: TermSlice, mode: Mode, expression: Expr)
      ensures Valid()
      ensures this.kind == kind && this.columns == columns && this.slice == slice
      ensures this.mode == mode && this.expression == expression
    {
      this.kind := kind;
      this.columns := columns;
      this.slice := slice;
      this.mode := mode;
      this.expression := expression;
      new;
      UpdateAscDescExistence();
    }

    /** `update_asc_desc_existence`: count the reversed columns. */
    method UpdateAscDescExistence()
      modifies this`hasOnlyAsc, this`hasOnlyDesc
      ensures Valid()
    {
      var n := 0;
      var i := 0;
      while i < |columns|
        invariant 0 <= i <= |columns|
        invariant n == NumReversed(columns[..i])
      {
        assert columns[..i + 1][..i] == columns[..i];
        if columns[i].reversed {
          n := n + 1;
        }
        i := i + 1;
      }
      assert columns[..i] == columns;
      hasOnlyAsc := n == 0;
      hasOnlyDesc := n == |columns|;
    }

    /** `is_asc_order` */
    predicate IsAscOrder()
      reads this
      requires Valid()
      ensures IsAscOrder() <==> forall i :: 0 <= i < |columns| ==> !columns[i].reversed
    {
      NumReversedZero(columns);
      hasOnlyAsc
    }

    /** `is_desc_order` */
    predicate IsDescOrder()
      reads this
      requires Valid()
      ensures IsDescOrder() <==> forall i :: 0 <= i < |columns| ==> columns[i].reversed
    {
      NumReversedAll(columns);
      hasOnlyDesc
    }

    /** `is_mixed_order`: some column ascends and some descends. */
    predicate IsMixedOrder()
      reads this
      requires Valid()
      ensures IsMixedOrder() <==>
        (exists i :: 0 <= i < |columns| && columns[i].reversed) &&
        (exists i :: 0 <= i < |columns| && !columns[i].reversed)
    {
      !IsDescOrder() && !IsAscOrder()
    }

    /** `merge_with` followed by the subclass's `do_merge_with`: only a slice
        merges, and only with another slice of the same mode that adds the
        missing bound. On success the longer column list is kept, the slices
        merge, the flags are recomputed and the expressions are conjoined;
        on failure nothing changes. */
    method MergeWith(other: Other) returns (r: Outcome)
      requires Valid()
      modifies this
      ensures Valid()
      ensures r.Pass? <==> MergeError(kind, old(columns), old(slice), mode, other).None?
      ensures r.Fail? ==> r.error == MergeError(kind, old(columns), old(slice), mode, other).value
      ensures r.Fail? ==> columns == old(columns) && slice == old(slice) && expression == old(expression)
      ensures r.Pass? ==>
        columns == (if |old(columns)| < |other.columns| then other.columns else old(columns)) &&
        slice == MergeSlice(old(slice), other.slice) &&
        expression == MakeConjunction(old(expression), other.expression)
      ensures r.Pass? ==> forall row :: Eval(expression, row) == AndThen(Eval(old(expression), row), Eval(other.expression, row))
    {
      var err := MergeError(kind, columns, slice, mode, other);
      if err.Some? {
        return Fail(err.value);
      }
      if |columns| < |other.columns| {
        columns := other.columns;
      }
      slice := MergeSlice(slice, other.slice);
      UpdateAscDescExistence();
      var before := expression;
      expression := MakeConjunction(expression, other.expression);
      forall row: Row
        ensures Eval(expression, row) == AndThen(Eval(before, row), Eval(other.expression, row))
      {
        MakeConjunctionEval(before, other.expression, row);
      }
      r := Pass;
    }
  }

  const MixingMessage := "Mixing single column relations and multi column relations on clustering columns is not allowed"

  function EqMergeMessage(common: string): string
  {
    common + " cannot be restricted by more than one relation if it includes an Equal"
  }

  function InMergeMessage(common: string): string
  {
    common + " cannot be restricted by more than one relation if it includes a IN"
  }

  function SliceMergeMessage(common: string, slice: TermSlice, mode: Mode, other: Other): string
    requires other.MultiColumnOther?
  {
    if !HasSlice(other.expression) then
      "Column \"" + common + "\" cannot be restricted by both an equality and an inequality relation"
    else if other.mode != mode then
      "Invalid combination of restrictions (" + ModeName(mode) + " / " + ModeName(other.mode) + ")"
    else if slice.start.Some? && other.slice.start.Some? then
      "More than one restriction was found for the start bound on " + common
    else
      "More than one restriction was found for the end bound on " + common
  }

  /** The checks of `merge_with` and `do_merge_with`, in the order they are
      made: the error of the first that fails, if any. */
  function MergeError(kind: Kind, columns: seq<ColumnDef>, slice: TermSlice, mode: Mode, other: Other): (r: Option<string>)
    ensures r.None? <==>
      other.MultiColumnOther? && kind == SliceKind && HasSlice(other.expression) &&
      other.mode == mode && !(slice.start.Some? && other.slice.start.Some?) &&
      !(slice.end.Some? && other.slice.end.Some?)
    ensures other.SingleColumnOther? ==> r == Some(MixingMessage)
    ensures other.MultiColumnOther? && kind == EqKind ==> r == Some(EqMergeMessage(ColumnsInCommon(columns, other.columns)))
    ensures other.MultiColumnOther? && kind == InKind ==> r == Some(InMergeMessage(ColumnsInCommon(columns, other.columns)))
  {
    if other.SingleColumnOther? then Some(MixingMessage)
    else
      var common := ColumnsInCommon(columns, other.columns);
      match kind
      case EqKind => Some(EqMergeMessage(common))
      case InKind => Some(InMergeMessage(common))
      case SliceKind =>
        if HasSlice(other.expression) && other.mode == mode && !(slice.start.Some? && other.slice.start.Some?)
           && !(slice.end.Some? && other.slice.end.Some?)
        then None
        else Some(SliceMergeMessage(common, slice, mode, other))
  }

  function ModeName(m: Mode): string
  {
    if m == Cql then "plain" else "SCYLLA_CLUSTERING_BOUND"
  }

  // ----- first unequal component ----------------------------------------

  /** The index `find_first_neq_component` looks for: the first position
      where the tuples differ, or the shorter length when one is a proper
      prefix of the other, or none when they are equal. */
  function FirstNeq(s: seq<int>, e: seq<int>): (r: Option<nat>)
    ensures r.None? <==> s == e
    ensures r.Some? ==> r.value <= |s| && r.value <= |e| && s[..r.value] == e[..r.value]
    ensures r.Some? && r.value < |s| && r.value < |e| ==> s[r.value] != e[r.value]
    ensures r.Some? && (r.value == |s| || r.value == |e|) ==> |s| != |e|
  {
    if s == [] || e == [] then (if |s| == |e| then None else Some(0))
    else if s[0] != e[0] then Some(0)
    else
      match FirstNeq(s[1..], e[1..])
      case None =>
        assert s == [s[0]] + s[1..] && e == [e[0]] + e[1..];
        None
      case Some(j) =>
        assert s[..j + 1] == [s[0]] + s[1..][..j] && e[..j + 1] == [e[0]] + e[1..][..j];
        Some(j + 1)
  }

  /** `find_first_neq_component`: the loop over the common components. */
  method FindFirstNeqComponent(s: seq<int>, e: seq<int>) returns (r: Option<nat>)
    ensures r == FirstNeq(s, e)
  {
    var common := if |s| < |e| then |s| else |e|;
    for i := 0 to common
      invariant s[..i] == e[..i]
    {
      if s[i] != e[i] {
        assert forall j :: 0 <= j < i ==> s[j] == s[..i][j];
        return Some(i);
      }
      assert s[..i + 1] == s[..i] + [s[i]] && e[..i + 1] == e[..i] + [e[i]];
    }
    var max := if |s| < |e| then |e| else |s|;
    assert forall j :: 0 <= j < common ==> s[j] == s[..common][j];
    if common < max {
      r := Some(common);
    } else {
      assert s == s[..common] && e == e[..common];
      r := None;
    }
  }

  // ----- tuple bounds as single-column restrictions ---------------------

  /** A single-column restriction `column[pos] op value`. */
  datatype ColumnRestriction = ColumnRestriction(pos: nat, op: Oper, value: int)

  /** Restriction `i` of `make_single_bound_restrictions`: equality on the
      columns before `k + i`, then the bound on column `k + i`, inclusive
      only for the last restriction of an inclusive bound. */
  function SingleBound(b: BoundSide, inclusive: bool, values: seq<int>, k: nat, i: nat): (r: seq<ColumnRestriction>)
    requires k + i < |values|
    ensures |r| == k + i + 1
    ensures forall j :: 0 <= j < k + i ==> r[j] == ColumnRestriction(j, EQ, values[j])
    ensures r[k + i] == ColumnRestriction(k + i, PickOperator(b, inclusive && i == |values| - k - 1), values[k + i])
  {
    seq(k + i, j requires 0 <= j < k + i => ColumnRestriction(j, EQ, values[j]))
      + [ColumnRestriction(k + i, PickOperator(b, inclusive && i == |values| - k - 1), values[k + i])]
  }

  function SingleBoundRestrictions(b: BoundSide, inclusive: bool, values: seq<int>, k: nat): (r: seq<seq<ColumnRestriction>>)
    requires k <= |values|
    ensures |r| == |values| - k
    ensures forall i :: 0 <= i < |r| ==> r[i] == SingleBound(b, inclusive, values, k, i)
  {
    seq(|values| - k, i requires 0 <= i < |values| - k => SingleBound(b, inclusive, values, k, i))
  }

  /** `make_single_bound_restrictions`: the nested loops that build each
      restriction column by column. */
  method MakeSingleBoundRestrictions(b: BoundSide, inclusive: bool, values: seq<int>, k: nat)
    returns (r: seq<seq<ColumnRestriction>>)
    requires k <= |values|
    ensures r == SingleBoundRestrictions(b, inclusive, values, k)
  {
    var count := |values| - k;
    r := [];
    for i := 0 to count
      invariant |r| == i
      invariant forall x :: 0 <= x < i ==> r[x] == SingleBound(b, inclusive, values, k, x)
    {
      var one: seq<ColumnRestriction> := [];
      var neq := k + i;
      for j := 0 to neq
        invariant |one| == j
        invariant forall y :: 0 <= y < j ==> one[y] == ColumnRestriction(y, EQ, values[y])
      {
        one := one + [ColumnRestriction(j, EQ, values[j])];
      }
      var last := i == count - 1 && inclusive;
      one := one + [ColumnRestriction(neq, PickOperator(b, last), values[neq])];
      r := r + [one];
    }
  }

  /** A row's clustering values satisfy every restriction of the set. */
  predicate Satisfied(rs: seq<ColumnRestriction>, row: seq<int>)
  {
    forall j :: 0 <= j < |rs| ==> rs[j].pos < |row| && Limits(row[rs[j].pos], rs[j].op, rs[j].value) == Ok(true)
  }

  predicate AnySatisfied(rss: seq<seq<ColumnRestriction>>, row: seq<int>)
  {
    exists i :: 0 <= i < |rss| && Satisfied(rss[i], row)
  }

  lemma FirstRestriction(b: BoundSide, inclusive: bool, values: seq<int>, k: nat, row: seq<int>)
    requires |row| == |values| && k < |values|
    ensures Satisfied(SingleBound(b, inclusive, values, k, 0), row) <==>
      row[..k] == values[..k] && Limits(row[k], PickOperator(b, inclusive && k == |values| - 1), values[k]) == Ok(true)
  {
    var rs := SingleBound(b, inclusive, values, k, 0);
    if Satisfied(rs, row) {
      forall j | 0 <= j < k ensures row[..k][j] == values[..k][j] {
        assert rs[j] == ColumnRestriction(j, EQ, values[j]);
      }
      assert rs[k].pos == k;
    }
    if row[..k] == values[..k] && Limits(row[k], PickOperator(b, inclusive && k == |values| - 1), values[k]) == Ok(true) {
      forall j | 0 <= j < |rs| ensures rs[j].pos < |row| && Limits(row[rs[j].pos], rs[j].op, rs[j].value) == Ok(true) {
        if j < k {
          assert row[j] == row[..k][j];
        }
      }
    }
  }

  lemma SingleBoundShift(b: BoundSide, inclusive: bool, values: seq<int>, k: nat, i: nat)
    requires 1 <= i && k + i < |values|
    ensures SingleBound(b, inclusive, values, k, i) == SingleBound(b, inclusive, values, k + 1, i - 1)
  {
  }

  lemma ShiftRestrictions(b: BoundSide, inclusive: bool, values: seq<int>, k: nat, row: seq<int>)
    requires |row| == |values| && k + 1 < |values|
    ensures AnySatisfied(SingleBoundRestrictions(b, inclusive, values, k), row) <==>
      Satisfied(SingleBound(b, inclusive, values, k, 0), row) ||
      AnySatisfied(SingleBoundRestrictions(b, inclusive, values, k + 1), row)
  {
    var rk := SingleBoundRestrictions(b, inclusive, values, k);
    var rk1 := SingleBoundRestrictions(b, inclusive, values, k + 1);
    assert rk[0] == SingleBound(b, inclusive, values, k, 0);
    forall i | 1 <= i < |rk| ensures rk[i] == rk1[i - 1] {
      SingleBoundShift(b, inclusive, values, k, i);
    }
    AnySatisfiedShift(rk, rk1, row);
  }

  /** A row satisfies one of `rk` exactly when it satisfies its head or one
      of the rest. */
  lemma AnySatisfiedShift(rk: seq<seq<ColumnRestriction>>, rk1: seq<seq<ColumnRestriction>>, row: seq<int>)
    requires |rk| == |rk1| + 1
    requires forall i :: 1 <= i < |rk| ==> rk[i] == rk1[i - 1]
    ensures AnySatisfied(rk, row) <==> Satisfied(rk[0], row) || AnySatisfied(rk1, row)
  {
    if AnySatisfied(rk, row) {
      var i :| 0 <= i < |rk| && Satisfied(rk[i], row);
      if i > 0 {
        assert Satisfied(rk1[i - 1], row);
      }
    }
    if AnySatisfied(rk1, row) {
      var i :| 0 <= i < |rk1| && Satisfied(rk1[i], row);
      assert Satisfied(rk[i + 1], row);
    }
  }

  /** The single-column restrictions are equivalent to the tuple bound: a
      row satisfies one of them exactly when it agrees with the bound on the
      first `k` columns and its remaining columns compare to the bound's
      lexicographically as the operator demands. */
  lemma {:induction false} SingleBoundSemantics(b: BoundSide, inclusive: bool, values: seq<int>, k: nat, row: seq<int>)
    requires |row| == |values| && k < |values|
    ensures AnySatisfied(SingleBoundRestrictions(b, inclusive, values, k), row) <==>
      row[..k] == values[..k] && Holds(LexCompare(row[k..], values[k..]), PickOperator(b, inclusive)) == Ok(true)
    decreases |values| - k
  {
    var rk := SingleBoundRestrictions(b, inclusive, values, k);
    FirstRestriction(b, inclusive, values, k, row);
    assert row[k..][1..] == row[k + 1..] && values[k..][1..] == values[k + 1..];
    assert row[k..][0] == row[k] && values[k..][0] == values[k];
    if k + 1 < |values| {
      ShiftRestrictions(b, inclusive, values, k, row);
      SingleBoundSemantics(b, inclusive, values, k + 1, row);
      assert row[..k + 1] == row[..k] + [row[k]] && values[..k + 1] == values[..k] + [values[k]];
      if row[..k + 1] == values[..k + 1] {
        assert row[k] == row[..k + 1][k];
        assert row[..k] == row[..k + 1][..k] && values[..k] == values[..k + 1][..k];
      }
    } else {
      assert AnySatisfied(rk, row) <==> Satisfied(rk[0], row);
      assert row[k + 1..] == [] && values[k + 1..] == [];
    }
  }
}
