/** Model of the restriction-expression logic of cql3/expr/expression.cc:
    evaluating a WHERE-clause expression against a row (`is_satisfied_by`),
    flattening conjunctions, turning a comparison into a range, and computing
    the set of values a column may take under an expression
    (`possible_lhs_values`) by intersecting value sets.

    Values of every CQL type are modelled as integers compared by their
    natural order (the type's `compare`); a null value is `None`. Ranges of
    values are the non-wrapping ranges of the `Ring` module. */
module Expression {
  import opened Util
  import opened Ring

  /** `oper_t` */
  datatype Oper = EQ | NEQ | LT | LTE | GTE | GT | IN | CONTAINS | CONTAINS_KEY | IS_NOT | LIKE

  predicate IsSlice(op: Oper)
  {
    op == LT || op == LTE || op == GT || op == GTE
  }

  predicate IsCompare(op: Oper)
  {
    op == EQ || op == NEQ || IsSlice(op)
  }

  /** `abstract_type::compare`: negative, zero or positive. */
  function Compare(a: int, b: int): (c: int)
    ensures c < 0 <==> a < b
    ensures c == 0 <==> a == b
  {
    if a < b then -1 else if a == b then 0 else 1
  }

  /** Whether a three-way comparison result satisfies `op`: the switch of
      `limits`, which rejects every operator that is not a comparison. */
  function Holds(cmp: int, op: Oper): (r: Result<bool>)
    ensures r.Err? <==> !IsCompare(op)
    ensures r.Err? ==> r.error == "logic_error"
  {
    match op
    case LT => Ok(cmp < 0)
    case LTE => Ok(cmp <= 0)
    case GT => Ok(cmp > 0)
    case GTE => Ok(cmp >= 0)
    case EQ => Ok(cmp == 0)
    case NEQ => Ok(cmp != 0)
    case _ => Err("logic_error")
  }

  /** `limits(lhs, op, rhs, type)`: whether `lhs op rhs` holds. */
  function Limits(lhs: int, op: Oper, rhs: int): (r: Result<bool>)
    ensures r.Err? <==> !IsCompare(op)
    ensures op == LT ==> r == Ok(lhs < rhs)
    ensures op == LTE ==> r == Ok(lhs <= rhs)
    ensures op == GT ==> r == Ok(lhs > rhs)
    ensures op == GTE ==> r == Ok(lhs >= rhs)
    ensures op == EQ ==> r == Ok(lhs == rhs)
    ensures op == NEQ ==> r == Ok(lhs != rhs)
  {
    Holds(Compare(lhs, rhs), op)
  }

  /** `limits(column, op, rhs, bag)`: only slice operators are allowed, and a
      null on either side fails the comparison. */
  function ColumnLimits(lhs: Option<int>, op: Oper, rhs: Option<int>): (r: Result<bool>)
    ensures r.Err? <==> !IsSlice(op)
    ensures r == Ok(true) <==> IsSlice(op) && lhs.Some? && rhs.Some? && Limits(lhs.value, op, rhs.value) == Ok(true)
  {
    if !IsSlice(op) then Err("logic_error")
    else if lhs.None? || rhs.None? then Ok(false)
    else Limits(lhs.value, op, rhs.value)
  }

  // ----- lexicographic tuple comparison -------------------------------------

  /** Lexicographic order of equally long tuples: the first unequal
      component decides, and only equal tuples compare equal. */
  function LexCompare(a: seq<int>, b: seq<int>): (r: int)
    requires |a| == |b|
    ensures r == 0 <==> a == b
  {
    if a == [] then 0
    else if a[0] != b[0] then Compare(a[0], b[0])
    else
      assert a == [a[0]] + a[1..] && b == [b[0]] + b[1..];
      LexCompare(a[1..], b[1..])
  }

  lemma {:induction false} LexCompareFirstDifference(a: seq<int>, b: seq<int>, i: nat)
    requires |a| == |b| && i < |a|
    requires a[..i] == b[..i] && a[i] != b[i]
    ensures LexCompare(a, b) == Compare(a[i], b[i])
    decreases i
  {
    if i > 0 {
      assert a[0] == a[..i][0] == b[..i][0] == b[0];
      assert a[1..][..i - 1] == a[1..i] == b[1..i] == b[1..][..i - 1];
      LexCompareFirstDifference(a[1..], b[1..], i - 1);
    }
  }

  /** Swapping the tuples negates the comparison. */
  lemma {:induction false} LexCompareAntisymmetric(a: seq<int>, b: seq<int>)
    requires |a| == |b|
    ensures LexCompare(b, a) == -LexCompare(a, b)
    decreases |a|
  {
    if a != [] && a[0] == b[0] {
      LexCompareAntisymmetric(a[1..], b[1..]);
    }
  }

  /** The first components are ordered like the tuples, though not strictly. */
  lemma LexCompareFirstComponent(a: seq<int>, b: seq<int>)
    requires |a| == |b| && a != []
    ensures LexCompare(a, b) < 0 ==> a[0] <= b[0]
    ensures LexCompare(a, b) > 0 ==> a[0] >= b[0]
    ensures LexCompare(a, b) == 0 ==> a[0] == b[0]
  {
  }

  /** `limits(column_value_tuple, op, t, bag)` as a value: the slice
      operators compare lexicographically; a right-hand side that is not a
      tuple, or one of another length, is an `invalid_request_exception`. */
  function TupleLimitsOf(lhs: seq<int>, op: Oper, rhs: Option<seq<int>>): (r: Result<bool>)
    ensures r.Err? <==> !IsSlice(op) || rhs.None? || |rhs.value| != |lhs|
    ensures IsSlice(op) && rhs.Some? && |rhs.value| == |lhs| ==> r == Holds(LexCompare(lhs, rhs.value), op)
  {
    if !IsSlice(op) then Err("logic_error")
    else if rhs.None? || |rhs.value| != |lhs| then Err("invalid_request_exception")
    else Holds(LexCompare(lhs, rhs.value), op)
  }

  /** The component loop of `limits` on a column tuple: stops at the first
      unequal component; equal tuples satisfy only LTE and GTE. */
  method TupleLimits(lhs: seq<int>, op: Oper, rhs: Option<seq<int>>) returns (r: Result<bool>)
    ensures r == TupleLimitsOf(lhs, op, rhs)
  {
    if !IsSlice(op) {
      return Err("logic_error");
    }
    if rhs.None? {
      return Err("invalid_request_exception");
    }
    var t := rhs.value;
    if |t| != |lhs| {
      return Err("invalid_request_exception");
    }
    for i := 0 to |t|
      invariant lhs[..i] == t[..i]
    {
      var cmp := Compare(lhs[i], t[i]);
      if cmp < 0 {
        LexCompareFirstDifference(lhs, t, i);
        return Ok(op == LT || op == LTE);
      } else if cmp > 0 {
        LexCompareFirstDifference(lhs, t, i);
        return Ok(op == GT || op == GTE);
      }
      assert lhs[..i + 1] == lhs[..i] + [lhs[i]] && t[..i + 1] == t[..i] + [t[i]];
    }
    assert lhs == lhs[..|t|] && t == t[..|t|];
    r := Ok(op == LTE || op == GTE);
  }

  /** A one-column tuple compares like its only column. */
  lemma SingleColumnTuple(x: int, op: Oper, y: int)
    requires IsSlice(op)
    ensures TupleLimitsOf([x], op, Some([y])) == Limits(x, op, y)
  {
    assert [x][1..] == [] && [y][1..] == [];
    assert LexCompare([x], [y]) == Compare(x, y);
  }

  // ----- expressions and their evaluation -----------------------------------

  /** The left-hand side of a binary operator. */
  datatype Lhs = Column(col: nat) | ColumnTuple(cols: seq<nat>) | TokenOf

  /** The bound right-hand side of a binary operator: a single value; a
      tuple, `None` when the term is not a tuple; the elements of `IN (...)`;
      the tuples of a multi-column `IN`. Every value may be null. */
  datatype Term =
    | Value(v: Option<int>)
    | TupleValue(t: Option<seq<Option<int>>>)
    | InValues(elems: seq<Option<int>>)
    | InTuples(tuples: seq<seq<Option<int>>>)

  /** `expression`: a boolean literal, a conjunction or a binary operator. */
  datatype Expr = BoolLit(b: bool) | Conjunction(children: seq<Expr>) | BinOp(lhs: Lhs, op: Oper, rhs: Term)

  /** A collection cell, deserialized. */
  datatype Collection = ListOf(elems: seq<int>) | SetOf(elems: seq<int>) | MapOf(keys: seq<int>, values: seq<int>)

  /** The fetched row: atomic cells and collection cells by column, a
      missing column being null; the columns of string type; the LIKE
      pattern matcher. */
  datatype Row = Row(cells: map<nat, int>, collections: map<nat, Collection>, strings: set<nat>,
                     like: (int, int) -> bool)

  /** `get_value` of a column. */
  function GetValue(row: Row, c: nat): Option<int>
  {
    if c in row.cells then Some(row.cells[c]) else None
  }

  /** `equal(rhs, column)`: a null on either side is unequal. */
  predicate Equal(rhs: Option<int>, lhs: Option<int>)
  {
    rhs.Some? && lhs.Some? && rhs.value == lhs.value
  }

  /** `contains`: a null collection contains nothing; otherwise a null value
      is contained; lists and sets are searched by element, maps by value. */
  function CollectionContains(row: Row, c: nat, value: Option<int>): (r: bool)
    ensures c !in row.collections ==> !r
    ensures c in row.collections && value.None? ==> r
  {
    if c !in row.collections then false
    else if value.None? then true
    else match row.collections[c]
      case ListOf(elems) => value.value in elems
      case SetOf(elems) => value.value in elems
      case MapOf(_, values) => value.value in values
  }

  /** `contains_key`: a null key is contained, checked before the column is
      read; a null map contains no key; a column that is not a map cannot be
      read as one. */
  function ContainsKey(row: Row, c: nat, key: Option<int>): (r: Result<bool>)
    ensures key.None? ==> r == Ok(true)
    ensures key.Some? && c !in row.collections ==> r == Ok(false)
    ensures r.Err? ==> c in row.collections && !row.collections[c].MapOf?
  {
    if key.None? then Ok(true)
    else if c !in row.collections then Ok(false)
    else match row.collections[c]
      case MapOf(keys, _) => Ok(key.value in keys)
      case _ => Err("bad_cast")
  }

  /** `like`: only string columns can be matched; a null value or pattern
      does not match. */
  function Like(row: Row, c: nat, pattern: Option<int>): (r: Result<bool>)
    ensures r.Err? <==> c !in row.strings
    ensures r == Ok(true) ==> pattern.Some? && GetValue(row, c).Some?
  {
    if c !in row.strings then Err("invalid_request_exception")
    else Ok(pattern.Some? && GetValue(row, c).Some? && row.like(pattern.value, GetValue(row, c).value))
  }

  /** `is_one_of(column, rhs)`: some element of the list equals the column. */
  predicate OneOf(row: Row, c: nat, elems: seq<Option<int>>)
  {
    exists i :: 0 <= i < |elems| && Equal(elems[i], GetValue(row, c))
  }

  /** The values of a column tuple, when none is null. */
  function TupleValues(row: Row, cols: seq<nat>): (r: Option<seq<int>>)
    ensures r.Some? ==> |r.value| == |cols|
    ensures r.Some? ==> forall i :: 0 <= i < |cols| ==> GetValue(row, cols[i]) == Some(r.value[i])
    ensures r.None? ==> exists i :: 0 <= i < |cols| && GetValue(row, cols[i]).None?
  {
    if cols == [] then Some([])
    else
      var rest := TupleValues(row, cols[1..]);
      if GetValue(row, cols[0]).None? then None
      else if rest.None? then None
      else Some([GetValue(row, cols[0]).value] + rest.value)
  }

  /** The components of a tuple, when none is null. */
  function Deref(t: seq<Option<int>>): (r: Option<seq<int>>)
    ensures r.Some? <==> forall i :: 0 <= i < |t| ==> t[i].Some?
    ensures r.Some? ==> |r.value| == |t| && forall i :: 0 <= i < |t| ==> t[i] == Some(r.value[i])
  {
    if t == [] then Some([])
    else
      var rest := Deref(t[1..]);
      assert forall i :: 1 <= i < |t| ==> t[i] == t[1..][i - 1];
      if t[0].None? || rest.None? then None else Some([t[0].value] + rest.value)
  }

  /** `equal(t, column_tuple)` against one candidate tuple, compared
      component by component (`boost::equal`: unequal lengths differ). */
  predicate TupleEquals(row: Row, cols: seq<nat>, t: seq<Option<int>>)
  {
    |t| == |cols| && forall i :: 0 <= i < |cols| ==> Equal(t[i], GetValue(row, cols[i]))
  }

  /** `is_satisfied_by(binary_operator)`. A right-hand side of a shape the
      operator does not take, which preparation rules out, is a `logic_error`.
      NEQ is exactly the negation of EQ, a null on either side is unequal
      and outside every slice, a column tuple with a null column equals no
      tuple, and a token restriction holds of every fetched row. */
  function EvalBinOp(lhs: Lhs, op: Oper, rhs: Term, row: Row): (r: Result<bool>)
    ensures lhs.Column? && rhs.Value? && (op == EQ || op == NEQ) ==>
              r == Ok((op == EQ) == (rhs.v.Some? && rhs.v == GetValue(row, lhs.col)))
    ensures lhs.Column? && rhs.Value? && IsSlice(op) && (rhs.v.None? || GetValue(row, lhs.col).None?) ==>
              r == Ok(false)
    ensures lhs.ColumnTuple? && op == EQ && r == Ok(true) ==>
              rhs.TupleValue? && forall i :: 0 <= i < |lhs.cols| ==> GetValue(row, lhs.cols[i]).Some?
    ensures lhs.TokenOf? ==> r == Ok(true)
  {
    match lhs
    case Column(c) =>
      if op == EQ then
        if rhs.Value? then Ok(Equal(rhs.v, GetValue(row, c))) else Err("logic_error")
      else if op == NEQ then
        if rhs.Value? then Ok(!Equal(rhs.v, GetValue(row, c))) else Err("logic_error")
      else if IsSlice(op) then
        if rhs.Value? then ColumnLimits(GetValue(row, c), op, rhs.v) else Err("logic_error")
      else if op == CONTAINS then
        if rhs.Value? then Ok(CollectionContains(row, c, rhs.v)) else Err("logic_error")
      else if op == CONTAINS_KEY then
        if rhs.Value? then ContainsKey(row, c, rhs.v) else Err("logic_error")
      else if op == LIKE then
        if rhs.Value? then Like(row, c, rhs.v) else Err("logic_error")
      else if op == IN then
        if rhs.InValues? then Ok(OneOf(row, c, rhs.elems)) else Err("logic_error")
      else Err("unsupported_operation_exception")
    case ColumnTuple(cols) =>
      if op == EQ then
        if !rhs.TupleValue? then Err("logic_error")
        else if rhs.t.None? || |rhs.t.value| != |cols| then Err("invalid_request_exception")
        else Ok(TupleEquals(row, cols, rhs.t.value))
      else if IsSlice(op) then
        if !rhs.TupleValue? then Err("logic_error")
        else if rhs.t.None? || |rhs.t.value| != |cols| then Err("invalid_request_exception")
        else if Deref(rhs.t.value).None? then Err("null_tuple_component")
        else if TupleValues(row, cols).None? then Err("null_clustering_value")
        else TupleLimitsOf(TupleValues(row, cols).value, op, Deref(rhs.t.value))
      else if op == IN then
        if rhs.InTuples? then Ok(exists j :: 0 <= j < |rhs.tuples| && TupleEquals(row, cols, rhs.tuples[j]))
        else Err("logic_error")
      else Err("unsupported_operation_exception")
    case TokenOf =>
      // the token restriction already selected the fetched rows
      Ok(true)
  }

  /** `is_satisfied_by(expression)`: a literal is itself, a conjunction is
      the short-circuit AND of its children. */
  function Eval(e: Expr, row: Row): Result<bool>
  {
    match e
    case BoolLit(b) => Ok(b)
    case Conjunction(children) => EvalAll(children, row)
    case BinOp(lhs, op, rhs) => EvalBinOp(lhs, op, rhs, row)
  }

  /** `all_of` over the children, stopping at the first false one. */
  function EvalAll(es: seq<Expr>, row: Row): Result<bool>
  {
    if es == [] then Ok(true)
    else
      var first := Eval(es[0], row);
      if first.Err? || !first.value then first else EvalAll(es[1..], row)
  }

  /** A conjunction holds iff every child holds (when no child throws). */
  lemma {:induction false} EvalAllTrue(es: seq<Expr>, row: Row)
    ensures EvalAll(es, row) == Ok(true) <==> forall i :: 0 <= i < |es| ==> Eval(es[i], row) == Ok(true)
    decreases |es|
  {
    if es != [] {
      EvalAllTrue(es[1..], row);
      if forall i :: 1 <= i < |es| ==> Eval(es[i], row) == Ok(true) {
        assert forall i :: 0 <= i < |es[1..]| ==> Eval(es[1..][i], row) == Ok(true);
      }
    }
  }

  /** Sequencing two short-circuit ANDs. */
  function AndThen(x: Result<bool>, y: Result<bool>): (r: Result<bool>)
    ensures r == Ok(true) <==> x == Ok(true) && y == Ok(true)
  {
    if x.Err? || !x.value then x else y
  }

  lemma {:induction false} EvalAllAppend(s: seq<Expr>, t: seq<Expr>, row: Row)
    ensures EvalAll(s + t, row) == AndThen(EvalAll(s, row), EvalAll(t, row))
    decreases |s|
  {
    if s != [] {
      assert (s + t)[0] == s[0] && (s + t)[1..] == s[1..] + t;
      EvalAllAppend(s[1..], t, row);
    } else {
      assert s + t == t;
    }
  }

  /** `explode_conjunction`: a conjunction's children, or the expression alone. */
  function Explode(e: Expr): (r: seq<Expr>)
    ensures !e.Conjunction? ==> r == [e]
  {
    if e.Conjunction? then e.children else [e]
  }

  lemma ExplodeEval(e: Expr, row: Row)
    ensures EvalAll(Explode(e), row) == Eval(e, row)
  {
    if !e.Conjunction? {
      assert [e][1..] == [];
    }
  }

  /** `make_conjunction(a, b)`: one conjunction holding the children of
      `a` (or `a` itself) followed by those of `b` (or `b` itself). */
  function MakeConjunction(a: Expr, b: Expr): (r: Expr)
    ensures r.Conjunction?
    ensures |r.children| == |Explode(a)| + |Explode(b)|
    ensures a.Conjunction? && b.Conjunction? ==> r.children == a.children + b.children
    ensures !a.Conjunction? ==> r.children[0] == a
    ensures !b.Conjunction? ==> r.children[|r.children| - 1] == b
  {
    Conjunction(Explode(a) + Explode(b))
  }

  /** The flattened conjunction evaluates like `a AND b`. */
  lemma MakeConjunctionEval(a: Expr, b: Expr, row: Row)
    ensures Eval(MakeConjunction(a, b), row) == AndThen(Eval(a, row), Eval(b, row))
  {
    EvalAllAppend(Explode(a), Explode(b), row);
    ExplodeEval(a, row);
    ExplodeEval(b, row);
  }

  // ----- ranges and value sets ---------------------------------------------

  /** `to_range(op, val)`: EQ is the singular range, GT/GTE start at `val`
      (exclusive/inclusive), LT/LTE end there; anything else throws. */
  function ToRange(op: Oper, v: int): (r: Result<TokenRange>)
    ensures r.Err? <==> !(op == EQ || IsSlice(op))
    ensures r.Ok? ==> forall x :: Contains(r.value, x) <==> Limits(x, op, v) == Ok(true)
  {
    match op
    case EQ => Ok(TokenRange(Some(Bound(v, true)), Some(Bound(v, true))))
    case GT => Ok(TokenRange(Some(Bound(v, false)), None))
    case GTE => Ok(TokenRange(Some(Bound(v, true)), None))
    case LT => Ok(TokenRange(None, Some(Bound(v, false))))
    case LTE => Ok(TokenRange(None, Some(Bound(v, true))))
    case _ => Err("logic_error")
  }

  /** `value_set`: a sorted list of values or a range. */
  datatype ValueSet = ValueList(vs: seq<int>) | ValueRange(r: TokenRange)

  const EmptyValueSet: ValueSet := ValueList([])
  const UnboundedValueSet: ValueSet := ValueRange(TokenRange(None, None))

  predicate InValueSet(s: ValueSet, x: int)
  {
    match s
    case ValueList(vs) => x in vs
    case ValueRange(r) => Contains(r, x)
  }

  /** Lists in value sets are sorted without duplicates. */
  predicate WellFormed(s: ValueSet)
  {
    s.ValueList? ==> Increasing(s.vs)
  }

  /** The later of two start bounds. */
  function LaterStart(a: Option<Bound>, b: Option<Bound>): (r: Option<Bound>)
    ensures forall x :: AfterStart(TokenRange(r, None), x) <==>
      AfterStart(TokenRange(a, None), x) && AfterStart(TokenRange(b, None), x)
  {
    if a.None? then b
    else if b.None? then a
    else if a.value.value > b.value.value then a
    else if b.value.value > a.value.value then b
    else Some(Bound(a.value.value, a.value.inclusive && b.value.inclusive))
  }

  /** The earlier of two end bounds. */
  function EarlierEnd(a: Option<Bound>, b: Option<Bound>): (r: Option<Bound>)
    ensures forall x :: BeforeEnd(TokenRange(None, r), x) <==>
      BeforeEnd(TokenRange(None, a), x) && BeforeEnd(TokenRange(None, b), x)
  {
    if a.None? then b
    else if b.None? then a
    else if a.value.value < b.value.value then a
    else if b.value.value < a.value.value then b
    else Some(Bound(a.value.value, a.value.inclusive && b.value.inclusive))
  }

  /** A range whose start lies after its end, or touches it without both
      bounds being inclusive. */
  predicate EmptyRange(r: TokenRange)
  {
    r.start.Some? && r.end.Some? &&
    (r.start.value.value > r.end.value.value ||
     (r.start.value.value == r.end.value.value && !(r.start.value.inclusive && r.end.value.inclusive)))
  }

  /** `nonwrapping_range::intersection`: none when the ranges do not overlap. */
  function RangeIntersection(a: TokenRange, b: TokenRange): (r: Option<TokenRange>)
    ensures forall x :: (Contains(a, x) && Contains(b, x)) <==> (r.Some? && Contains(r.value, x))
  {
    var c := TokenRange(LaterStart(a.start, b.start), EarlierEnd(a.end, b.end));
    assert forall x :: Contains(c, x) <==> Contains(a, x) && Contains(b, x) by {
      forall x ensures Contains(c, x) <==> Contains(a, x) && Contains(b, x) {
        assert AfterStart(c, x) == AfterStart(TokenRange(c.start, None), x);
        assert BeforeEnd(c, x) == BeforeEnd(TokenRange(None, c.end), x);
        assert AfterStart(a, x) == AfterStart(TokenRange(a.start, None), x);
        assert AfterStart(b, x) == AfterStart(TokenRange(b.start, None), x);
        assert BeforeEnd(a, x) == BeforeEnd(TokenRange(None, a.end), x);
        assert BeforeEnd(b, x) == BeforeEnd(TokenRange(None, b.end), x);
      }
    }
    if EmptyRange(c) then None else Some(c)
  }

  /** `boost::set_intersection` of two sorted lists. */
  function SortedIntersection(a: seq<int>, b: seq<int>): (r: seq<int>)
    requires Increasing(a) && Increasing(b)
    ensures Increasing(r)
    ensures forall x :: x in r <==> x in a && x in b
    decreases |a| + |b|
  {
    if a == [] || b == [] then []
    else if a[0] < b[0] then
      assert a[0] !in b by { HeadIsLeast(b); }
      SortedIntersection(a[1..], b)
    else if b[0] < a[0] then
      assert b[0] !in a by { HeadIsLeast(a); }
      SortedIntersection(a, b[1..])
    else
      var rest := SortedIntersection(a[1..], b[1..]);
      HeadIsLeast(a);
      IncreasingCons(a[0], rest);
      [a[0]] + rest
  }

  lemma IncreasingCons(x: int, s: seq<int>)
    requires Increasing(s) && forall y :: y in s ==> x < y
    ensures Increasing([x] + s)
  {
    forall i, j | 0 <= i < j < |[x] + s| ensures ([x] + s)[i] < ([x] + s)[j] {
      if i > 0 {
        assert ([x] + s)[i] == s[i - 1];
      }
      assert ([x] + s)[j] == s[j - 1] && s[j - 1] in s;
    }
  }

  lemma HeadIsLeast(s: seq<int>)
    requires Increasing(s) && s != []
    ensures forall x :: x in s ==> s[0] <= x
    ensures forall x :: x in s[1..] ==> s[0] < x
  {
  }

  /** The elements of a list that a range contains, in order. */
  function InRange(r: TokenRange, vs: seq<int>): (k: seq<int>)
    ensures forall x :: x in k <==> x in vs && Contains(r, x)
    ensures Increasing(vs) ==> Increasing(k)
  {
    if vs == [] then []
    else if Contains(r, vs[0]) then
      if Increasing(vs) then
        HeadIsLeast(vs);
        IncreasingCons(vs[0], InRange(r, vs[1..]));
        [vs[0]] + InRange(r, vs[1..])
      else [vs[0]] + InRange(r, vs[1..])
    else InRange(r, vs[1..])
  }

  /** `intersection_visitor`. */
  function Intersection(a: ValueSet, b: ValueSet): (r: ValueSet)
    requires WellFormed(a) && WellFormed(b)
    ensures WellFormed(r)
    ensures forall x :: InValueSet(r, x) <==> InValueSet(a, x) && InValueSet(b, x)
  {
    match (a, b)
    case (ValueList(x), ValueList(y)) => ValueList(SortedIntersection(x, y))
    case (ValueRange(x), ValueList(y)) => ValueList(InRange(x, y))
    case (ValueList(x), ValueRange(y)) => ValueList(InRange(y, x))
    case (ValueRange(x), ValueRange(y)) =>
      var common := RangeIntersection(x, y);
      if common.Some? then ValueRange(common.value) else EmptyValueSet
  }

  /** `to_sorted_vector`: sorted, duplicates removed. */
  function SortedUnique(s: seq<int>): (r: seq<int>)
    ensures Increasing(r)
    ensures forall x :: x in r <==> x in s
  {
    if s == [] then []
    else
      var rest := SortedUnique(s[..|s| - 1]);
      assert forall x :: x in s <==> x in s[..|s| - 1] || x == s[|s| - 1] by {
        assert s == s[..|s| - 1] + [s[|s| - 1]];
      }
      if s[|s| - 1] in rest then rest else InsertToken(rest, s[|s| - 1])
  }

  /** The non-null values of a list (`non_null | deref`). */
  function NonNull(vs: seq<Option<int>>): (r: seq<int>)
    ensures forall x :: x in r <==> Some(x) in vs
  {
    if vs == [] then []
    else
      var rest := NonNull(vs[1..]);
      assert forall o :: o in vs <==> o == vs[0] || o in vs[1..];
      if vs[0].Some? then [vs[0].value] + rest else rest
  }

  /** Some candidate tuple has `o` as its k-th component. */
  predicate HasKth(ts: seq<seq<Option<int>>>, k: nat, o: Option<int>)
  {
    exists j :: 0 <= j < |ts| && k < |ts[j]| && ts[j][k] == o
  }

  /** The k-th components of the candidate tuples (`get_kth`). */
  function Kth(ts: seq<seq<Option<int>>>, k: nat): (r: seq<Option<int>>)
    ensures forall o :: o in r <==> HasKth(ts, k, o)
  {
    if ts == [] then []
    else
      var rest := Kth(ts[1..], k);
      assert forall o :: HasKth(ts, k, o) <==> (k < |ts[0]| && ts[0][k] == o) || HasKth(ts[1..], k, o) by {
        forall o ensures HasKth(ts, k, o) <==> (k < |ts[0]| && ts[0][k] == o) || HasKth(ts[1..], k, o) {
          if HasKth(ts, k, o) {
            var j :| 0 <= j < |ts| && k < |ts[j]| && ts[j][k] == o;
            if j > 0 {
              assert ts[1..][j - 1] == ts[j];
            }
          }
          if HasKth(ts[1..], k, o) {
            var j :| 0 <= j < |ts[1..]| && k < |ts[1..][j]| && ts[1..][j][k] == o;
            assert ts[j + 1] == ts[1..][j];
          }
        }
      }
      (if k < |ts[0]| then [ts[0][k]] else []) + rest
  }

  /** The position of the first occurrence of a column in a tuple. */
  function IndexOf(cols: seq<nat>, c: nat): (i: nat)
    ensures i <= |cols|
    ensures i < |cols| ==> cols[i] == c
    ensures forall j :: 0 <= j < i ==> cols[j] != c
  {
    if cols == [] then 0
    else if cols[0] == c then 0
    else 1 + IndexOf(cols[1..], c)
  }

  const MinToken: int := -0x8000_0000_0000_0000
  const MaxToken: int := 0x7fff_ffff_ffff_ffff

  /** The value set of a token restriction: an upper bound equal to the
      minimal token is read as the maximal one. */
  function TokenValues(op: Oper, v: Option<int>): (r: Result<ValueSet>)
    ensures r.Ok? ==> WellFormed(r.value)
    ensures v.None? ==> r == Ok(EmptyValueSet)
    ensures r.Err? <==> v.Some? && !(op == EQ || IsSlice(op))
  {
    if v.None? then Ok(EmptyValueSet)
    else if op == EQ then Ok(ValueList([v.value]))
    else if op == GT then Ok(ValueRange(TokenRange(Some(Bound(v.value, false)), None)))
    else if op == GTE then Ok(ValueRange(TokenRange(Some(Bound(v.value, true)), None)))
    else
      var adjusted := if v.value == MinToken then MaxToken else v.value;
      if op == LT then Ok(ValueRange(TokenRange(None, Some(Bound(adjusted, false)))))
      else if op == LTE then Ok(ValueRange(TokenRange(None, Some(Bound(adjusted, true)))))
      else Err("logic_error")
  }

  /** The operator whose range restricts the first column of a multi-column
      comparison. */
  function FirstColumnOp(op: Oper, width: nat): Oper
  {
    if width > 1 && op == LT then LTE
    else if width > 1 && op == GT then GTE
    else op
  }

  /** The value set of one binary operator for the column `cdef` (or for the
      token when `cdef` is none). `relaxFirst` selects the corrected bound for
      the first column of a multi-column comparison. */
  function BinOpValues(cdef: Option<nat>, lhs: Lhs, op: Oper, rhs: Term, relaxFirst: bool): (r: Result<ValueSet>)
    ensures r.Ok? ==> WellFormed(r.value)
  {
    match lhs
    case Column(c) =>
      if cdef.None? || cdef.value != c then Ok(UnboundedValueSet)
      else if IsCompare(op) then
        if !rhs.Value? then Err("logic_error")
        else if rhs.v.None? then Ok(EmptyValueSet)
        else if op == EQ then Ok(ValueList([rhs.v.value]))
        else
          var range := ToRange(op, rhs.v.value);
          if range.Err? then Err(range.error) else Ok(ValueRange(range.value))
      else if op == IN then
        if rhs.InValues? then Ok(ValueList(SortedUnique(NonNull(rhs.elems)))) else Err("logic_error")
      else Err("logic_error")
    case ColumnTuple(cols) =>
      if cdef.None? then Ok(UnboundedValueSet)
      else
        var k := IndexOf(cols, cdef.value);
        if k == |cols| then Ok(UnboundedValueSet)
        else if IsCompare(op) then
          if !rhs.TupleValue? || rhs.t.None? || k >= |rhs.t.value| then Err("logic_error")
          else if rhs.t.value[k].None? then Ok(EmptyValueSet)
          else if op == EQ then Ok(ValueList([rhs.t.value[k].value]))
          else if k > 0 then Ok(UnboundedValueSet)
          else
            var range := ToRange(if relaxFirst then FirstColumnOp(op, |cols|) else op, rhs.t.value[k].value);
            if range.Err? then Err(range.error) else Ok(ValueRange(range.value))
        else if op == IN then
          if rhs.InTuples? then Ok(ValueList(SortedUnique(NonNull(Kth(rhs.tuples, k))))) else Err("logic_error")
        else Ok(UnboundedValueSet)
    case TokenOf =>
      if cdef.Some? then Ok(UnboundedValueSet)
      else if rhs.Value? then TokenValues(op, rhs.v)
      else Err("logic_error")
  }

  /** `possible_lhs_values` as written: a literal is everything or nothing, a
      conjunction folds its children by intersection starting from the
      unbounded set, and a comparison with null matches nothing. */
  function PossibleLhsValuesAsWritten(cdef: Option<nat>, e: Expr): (r: Result<ValueSet>)
    ensures r.Ok? ==> WellFormed(r.value)
  {
    Possible(cdef, e, false)
  }

  /** `possible_lhs_values` with the first column of a multi-column strict
      comparison bounded inclusively. */
  function PossibleLhsValues(cdef: Option<nat>, e: Expr): (r: Result<ValueSet>)
    ensures r.Ok? ==> WellFormed(r.value)
  {
    Possible(cdef, e, true)
  }

  function Possible(cdef: Option<nat>, e: Expr, relaxFirst: bool): (r: Result<ValueSet>)
    ensures r.Ok? ==> WellFormed(r.value)
  {
    match e
    case BoolLit(b) => Ok(if b then UnboundedValueSet else EmptyValueSet)
    case Conjunction(children) => Fold(cdef, children, UnboundedValueSet, relaxFirst)
    case BinOp(lhs, op, rhs) => BinOpValues(cdef, lhs, op, rhs, relaxFirst)
  }

  /** `boost::accumulate` of the children's value sets by intersection. */
  function Fold(cdef: Option<nat>, es: seq<Expr>, acc: ValueSet, relaxFirst: bool): (r: Result<ValueSet>)
    requires WellFormed(acc)
    ensures r.Ok? ==> WellFormed(r.value)
    ensures r.Ok? ==> forall x :: InValueSet(r.value, x) ==> InValueSet(acc, x)
  {
    if es == [] then Ok(acc)
    else
      var first := Possible(cdef, es[0], relaxFirst);
      if first.Err? then first
      else Fold(cdef, es[1..], Intersection(acc, first.value), relaxFirst)
  }

  /** `to_range(value_set)`: a range is itself, a one-element list is the
      singular range, any other list is a `logic_error`. */
  function ValueSetToRange(s: ValueSet): (r: Result<TokenRange>)
    ensures r.Err? <==> s.ValueList? && |s.vs| != 1
    ensures r.Ok? ==> forall x :: Contains(r.value, x) <==> InValueSet(s, x)
  {
    match s
    case ValueRange(range) => Ok(range)
    case ValueList(vs) =>
      if |vs| != 1 then Err("logic_error")
      else
        assert forall x :: x in vs <==> x == vs[0];
        Ok(TokenRange(Some(Bound(vs[0], true)), Some(Bound(vs[0], true))))
  }

  // ----- soundness of the possible values ----------------------------------

  /** No `!=` anywhere in the expression: with a null operand `!=` is
      satisfied while its value set is empty, and restrictions never hold it. */
  predicate NoNeq(e: Expr)
  {
    match e
    case BoolLit(_) => true
    case Conjunction(children) => forall i :: 0 <= i < |children| ==> NoNeq(children[i])
    case BinOp(_, op, _) => op != NEQ
  }

  lemma UnboundedHoldsAll(x: int)
    ensures InValueSet(UnboundedValueSet, x)
  {
  }

  /** A single-column comparison that a row satisfies admits the row's value. */
  lemma ColumnSound(c: nat, op: Oper, rhs: Term, row: Row, x: int)
    requires op != NEQ && GetValue(row, c) == Some(x)
    requires EvalBinOp(Column(c), op, rhs, row) == Ok(true)
    requires BinOpValues(Some(c), Column(c), op, rhs, true).Ok?
    ensures InValueSet(BinOpValues(Some(c), Column(c), op, rhs, true).value, x)
  {
    if op == IN {
      var i :| 0 <= i < |rhs.elems| && Equal(rhs.elems[i], GetValue(row, c));
      assert rhs.elems[i] == Some(x);
      assert x in NonNull(rhs.elems);
    }
  }

  /** The first column of a tuple that satisfies a slice lies in the range
      of the (relaxed) first-column operator. */
  lemma TupleSliceSound(tv: seq<int>, op: Oper, t: seq<int>)
    requires IsSlice(op) && |tv| == |t| && tv != []
    requires Holds(LexCompare(tv, t), op) == Ok(true)
    ensures ToRange(FirstColumnOp(op, |tv|), t[0]).Ok?
    ensures Contains(ToRange(FirstColumnOp(op, |tv|), t[0]).value, tv[0])
  {
    LexCompareFirstComponent(tv, t);
    if |tv| == 1 {
      assert tv[1..] == [] && t[1..] == [];
      assert LexCompare(tv, t) == Compare(tv[0], t[0]);
    }
  }

  lemma TupleSound(c: nat, cols: seq<nat>, op: Oper, rhs: Term, row: Row, x: int)
    requires op != NEQ && GetValue(row, c) == Some(x)
    requires EvalBinOp(ColumnTuple(cols), op, rhs, row) == Ok(true)
    requires BinOpValues(Some(c), ColumnTuple(cols), op, rhs, true).Ok?
    ensures InValueSet(BinOpValues(Some(c), ColumnTuple(cols), op, rhs, true).value, x)
  {
    var k := IndexOf(cols, c);
    if k < |cols| {
      if op == EQ {
        assert Equal(rhs.t.value[k], GetValue(row, cols[k]));
      } else if IsSlice(op) && k == 0 {
        var tv := TupleValues(row, cols).value;
        var t := Deref(rhs.t.value).value;
        assert tv[0] == x;
        TupleSliceSound(tv, op, t);
      } else if op == IN {
        var j :| 0 <= j < |rhs.tuples| && TupleEquals(row, cols, rhs.tuples[j]);
        assert rhs.tuples[j][k] == Some(x);
        assert HasKth(rhs.tuples, k, Some(x));
        assert x in NonNull(Kth(rhs.tuples, k));
      }
    }
  }

  /** Every value of column `c` in a row that satisfies `e` is among the
      possible values of `c` under `e`. */
  lemma {:induction false} PossibleSound(c: nat, e: Expr, row: Row, x: int)
    requires NoNeq(e) && GetValue(row, c) == Some(x)
    requires Eval(e, row) == Ok(true)
    requires PossibleLhsValues(Some(c), e).Ok?
    ensures InValueSet(PossibleLhsValues(Some(c), e).value, x)
  {
    match e
    case BoolLit(_) =>
    case Conjunction(children) =>
      UnboundedHoldsAll(x);
      FoldSound(c, children, UnboundedValueSet, row, x);
    case BinOp(lhs, op, rhs) =>
      match lhs
      case Column(col) =>
        if col == c {
          ColumnSound(c, op, rhs, row, x);
        }
      case ColumnTuple(cols) => TupleSound(c, cols, op, rhs, row, x);
      case TokenOf =>
  }

  lemma {:induction false} FoldSound(c: nat, es: seq<Expr>, acc: ValueSet, row: Row, x: int)
    requires forall i :: 0 <= i < |es| ==> NoNeq(es[i])
    requires GetValue(row, c) == Some(x)
    requires WellFormed(acc) && InValueSet(acc, x)
    requires EvalAll(es, row) == Ok(true)
    requires Fold(Some(c), es, acc, true).Ok?
    ensures InValueSet(Fold(Some(c), es, acc, true).value, x)
  {
    if es != [] {
      PossibleSound(c, es[0], row, x);
      var first := Possible(Some(c), es[0], true);
      FoldSound(c, es[1..], Intersection(acc, first.value), row, x);
    }
  }

  /** As written, a strict multi-column comparison bounds its first column
      strictly: `(a, b) < (1, 5)` holds for a = 1, b = 3, yet 1 is not
      among the possible values of `a`. */
  lemma StrictTupleBoundMissesRow()
    ensures var row := Row(map[0 := 1, 1 := 3], map[], {}, (p: int, v: int) => false);
            var e := BinOp(ColumnTuple([0, 1]), LT, TupleValue(Some([Some(1), Some(5)])));
            Eval(e, row) == Ok(true) &&
            GetValue(row, 0) == Some(1) &&
            PossibleLhsValuesAsWritten(Some(0), e).Ok? &&
            !InValueSet(PossibleLhsValuesAsWritten(Some(0), e).value, 1)
  {
    var row := Row(map[0 := 1, 1 := 3], map[], {}, (p: int, v: int) => false);
    var tv := TupleValues(row, [0, 1]);
    assert GetValue(row, 0) == Some(1) && GetValue(row, 1) == Some(3);
    assert [0, 1][1..] == [1] && [1][1..] == [];
    assert [3] + [] == [3] && [1] + [3] == [1, 3] && [5] + [] == [5] && [1] + [5] == [1, 5];
    assert TupleValues(row, [1]) == Some([3]);
    assert tv == Some([1, 3]);
    assert [Some(1), Some(5)][1..] == [Some(5)] && [Some(5)][1..] == [];
    assert Deref([Some(5)]) == Some([5]);
    assert Deref([Some(1), Some(5)]) == Some([1, 5]);
    assert LexCompare([1, 3], [1, 5]) == LexCompare([3], [5]) by {
      assert [1, 3][1..] == [3] && [1, 5][1..] == [5];
    }
    assert [3][1..] == [] && [5][1..] == [];
    assert IndexOf([0, 1], 0) == 0;
  }

  /** For a single column the two computations agree: only tuples of two or
      more columns are affected. */
  lemma SingleColumnUnaffected(c: nat, op: Oper, rhs: Term)
    ensures BinOpValues(Some(c), ColumnTuple([c]), op, rhs, true) == BinOpValues(Some(c), ColumnTuple([c]), op, rhs, false)
  {
  }
}
