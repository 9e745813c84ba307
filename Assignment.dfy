/** Model of the assignability test and the preparation of CQL literals
    against a receiver (cql3/expr/prepare_expr.cc, and the older
    `prepare_term` variant in cql3/expr/term_expr.cc). Assignability is a
    three-point lattice NOT < WEAKLY < EXACT; a literal is prepared only when
    it is assignable, and the older variant also refuses bind markers inside
    collection literals. */
module Assignment {
  import opened Util

  /** `assignment_testable::test_result` */
  datatype TestResult = NotAssignable | WeaklyAssignable | ExactMatch

  predicate IsAssignable(r: TestResult)
  {
    r != NotAssignable
  }

  /** `cql3_type::kind` */
  datatype Kind =
    | ASCII | BIGINT | BLOB | BOOLEAN | COUNTER | DECIMAL | DOUBLE | DURATION | EMPTY | FLOAT | INET
    | INT | SMALLINT | TEXT | TIMESTAMP | TINYINT | UUID | VARINT | TIMEUUID | DATE | TIME

  /** The type of a receiver. A tuple type and a custom type are not native,
      and neither is a collection nor a user type. */
  datatype CqlType =
    | Native(kind: Kind)
    | ListType(elem: CqlType, multiCell: bool)
    | SetType(elem: CqlType, multiCell: bool)
    | MapType(keys: CqlType, values: CqlType, multiCell: bool)
    | TupleType(components: seq<CqlType>)
    | UserType(fields: seq<Field>)
    | CustomType(name: string)

  datatype Field = Field(name: string, ftype: CqlType)

  predicate IsCollection(t: CqlType)
  {
    t.ListType? || t.SetType? || t.MapType?
  }

  predicate IsMultiCell(t: CqlType)
  {
    IsCollection(t) && t.multiCell
  }

  /** A user type is a tuple type (`user_type_impl` derives from
      `tuple_type_impl`), so both take tuple literals. */
  predicate IsTupleLike(t: CqlType)
  {
    t.TupleType? || t.UserType?
  }

  /** The component types of a tuple-like type: a user type's are the
      types of its fields, in order. */
  function Components(t: CqlType): (cs: seq<CqlType>)
    requires IsTupleLike(t)
    ensures t.TupleType? ==> cs == t.components
    ensures t.UserType? ==> |cs| == |t.fields| && forall i :: 0 <= i < |cs| ==> cs[i] == t.fields[i].ftype
  {
    if t.TupleType? then t.components else seq(|t.fields|, i requires 0 <= i < |t.fields| => t.fields[i].ftype)
  }

  /** `untyped_constant::type_class` */
  datatype TypeClass = StringClass | IntegerClass | UuidClass | FloatClass | BooleanClass | HexClass | DurationClass

  /** `bind_variable::shape_type` */
  datatype Shape = Scalar | ScalarIn | TupleShape | TupleIn

  /** A literal of the parser's output. */
  datatype Literal =
    | Null
    | BindVariable(shape: Shape, index: nat)
    | Untyped(cls: TypeClass, text: string)
    | TupleLiteral(elems: seq<Literal>)
    | ListLiteral(elems: seq<Literal>)
    | SetLiteral(elems: seq<Literal>)
    | MapLiteral(entries: seq<MapEntry>)
    | UserLiteral(values: seq<FieldValue>)

  datatype MapEntry = MapEntry(key: Literal, value: Literal)
  datatype FieldValue = FieldValue(name: string, value: Literal)

  // ----- assignability ------------------------------------------------------

  /** The kinds a literal of each class may weakly be assigned to: the
      switch of `untyped_constant_test_assignment`. */
  predicate WeakKind(cls: TypeClass, k: Kind)
  {
    match cls
    case StringClass => k in {ASCII, TEXT, INET, TIMESTAMP, DATE, TIME}
    case IntegerClass => k in {BIGINT, COUNTER, DECIMAL, DOUBLE, FLOAT, INT, SMALLINT, TIMESTAMP, DATE, TINYINT, VARINT}
    case UuidClass => k in {UUID, TIMEUUID}
    case FloatClass => k in {DECIMAL, DOUBLE, FLOAT}
    case BooleanClass => k == BOOLEAN
    case HexClass => k == BLOB
    case DurationClass => false
  }

  /** `untyped_constant_test_assignment` */
  function UntypedConstantTest(cls: TypeClass, receiver: CqlType): (r: TestResult)
    ensures IsCollection(receiver) || receiver.UserType? ==> r == NotAssignable
    ensures receiver.TupleType? || receiver.CustomType? ==> r == WeaklyAssignable
    ensures r == ExactMatch <==> cls == DurationClass && receiver == Native(DURATION)
    ensures receiver.Native? && cls != DurationClass ==> (r == WeaklyAssignable <==> WeakKind(cls, receiver.kind))
  {
    if IsCollection(receiver) || receiver.UserType? then NotAssignable
    else if !receiver.Native? then WeaklyAssignable
    else if cls == DurationClass then
      if receiver.kind == DURATION then ExactMatch else NotAssignable
    else if WeakKind(cls, receiver.kind) then WeaklyAssignable
    else NotAssignable
  }

  /** `null_test_assignment` */
  function NullTest(receiver: CqlType): (r: TestResult)
    ensures r == NotAssignable <==> receiver == Native(COUNTER)
    ensures r != ExactMatch
  {
    if receiver == Native(COUNTER) then NotAssignable else WeaklyAssignable
  }

  /** The first literal field with the given name, or `|values|`. */
  function FieldIndex(values: seq<FieldValue>, name: string): (j: nat)
    ensures j <= |values|
    ensures j < |values| ==> values[j].name == name
    ensures j == |values| ==> forall i :: 0 <= i < |values| ==> values[i].name != name
  {
    if values == [] then 0
    else if values[0].name == name then 0
    else 1 + FieldIndex(values[1..], name)
  }

  /** `test_assignment`: the result of assigning a literal to a receiver.
      Null and bind variables are never an exact match; a list, map or user
      literal is not assignable to a receiver of another kind, nor a tuple
      literal to anything but a tuple or user type with at least as many
      components. */
  function TestAssignment(e: Literal, receiver: CqlType): (r: TestResult)
    ensures e.Null? || e.BindVariable? ==> r != ExactMatch
    ensures e.ListLiteral? && !receiver.ListType? ==> r == NotAssignable
    ensures e.MapLiteral? && !receiver.MapType? ==> r == NotAssignable
    ensures e.UserLiteral? && !receiver.UserType? ==> r == NotAssignable
    ensures e.TupleLiteral? && !(IsTupleLike(receiver) && |e.elems| <= |Components(receiver)|) ==> r == NotAssignable
  {
    match e
    case Null => NullTest(receiver)
    case BindVariable(_, _) => WeaklyAssignable
    case Untyped(cls, _) => UntypedConstantTest(cls, receiver)
    case TupleLiteral(elems) =>
      // `tuple_constructor_validate_assignable_to`, a throw being NOT
      if IsTupleLike(receiver) && |elems| <= |Components(receiver)| &&
         forall i :: 0 <= i < |elems| ==> IsAssignable(TestAssignment(elems[i], Components(receiver)[i]))
      then WeaklyAssignable
      else NotAssignable
    case ListLiteral(elems) =>
      if !receiver.ListType? then NotAssignable
      else if elems == [] then WeaklyAssignable
      else TestAll(elems, receiver.elem)
    case SetLiteral(elems) =>
      // an empty map is parsed as an empty set literal
      if !receiver.SetType? then (if receiver.MapType? && elems == [] then WeaklyAssignable else NotAssignable)
      else if elems == [] then WeaklyAssignable
      else TestAll(elems, receiver.elem)
    case MapLiteral(entries) =>
      if !receiver.MapType? then NotAssignable
      else if entries == [] then WeaklyAssignable
      else TestEntries(entries, receiver.keys, receiver.values)
    case UserLiteral(values) =>
      // `usertype_constructor_validate_assignable_to`, a throw being NOT
      if receiver.UserType? &&
         forall i :: 0 <= i < |receiver.fields| ==>
           var j := FieldIndex(values, receiver.fields[i].name);
           j < |values| ==> IsAssignable(TestAssignment(values[j].value, receiver.fields[i].ftype))
      then WeaklyAssignable
      else NotAssignable
  }

  /** `test_assignment_all`: NOT as soon as one element is NOT, otherwise
      WEAKLY if one is WEAKLY, otherwise EXACT; so NOT iff some element is
      NOT, and EXACT iff every element is EXACT. */
  function TestAll(es: seq<Literal>, receiver: CqlType): (r: TestResult)
    ensures r == NotAssignable <==> exists i :: 0 <= i < |es| && TestAssignment(es[i], receiver) == NotAssignable
    ensures r == ExactMatch <==> forall i :: 0 <= i < |es| ==> TestAssignment(es[i], receiver) == ExactMatch
  {
    if es == [] then ExactMatch
    else
      assert forall i :: 1 <= i < |es| ==> es[i] == es[1..][i - 1];
      var t := TestAssignment(es[0], receiver);
      if t == NotAssignable then NotAssignable
      else
        var rest := TestAll(es[1..], receiver);
        if rest == NotAssignable then NotAssignable
        else if t == WeaklyAssignable || rest == WeaklyAssignable then WeaklyAssignable
        else ExactMatch
  }

  /** One entry of a map literal: NOT when its key or its value is NOT,
      EXACT when both are EXACT, WEAKLY otherwise. */
  function TestEntry(entry: MapEntry, keys: CqlType, values: CqlType): TestResult
  {
    var t1 := TestAssignment(entry.key, keys);
    var t2 := TestAssignment(entry.value, values);
    if t1 == NotAssignable || t2 == NotAssignable then NotAssignable
    else if t1 != ExactMatch || t2 != ExactMatch then WeaklyAssignable
    else ExactMatch
  }

  lemma TestEntryRule(entry: MapEntry, keys: CqlType, values: CqlType)
    ensures TestEntry(entry, keys, values) == NotAssignable <==>
      TestAssignment(entry.key, keys) == NotAssignable || TestAssignment(entry.value, values) == NotAssignable
    ensures TestEntry(entry, keys, values) == ExactMatch <==>
      TestAssignment(entry.key, keys) == ExactMatch && TestAssignment(entry.value, values) == ExactMatch
  {
  }

  /** The entry loop of `map_test_assignment`: NOT as soon as an entry is
      NOT; EXACT only while every entry is EXACT. */
  function TestEntries(entries: seq<MapEntry>, keys: CqlType, values: CqlType): TestResult
  {
    if entries == [] then ExactMatch
    else
      var t := TestEntry(entries[0], keys, values);
      if t == NotAssignable then NotAssignable
      else
        var rest := TestEntries(entries[1..], keys, values);
        if rest == NotAssignable then NotAssignable
        else if t == WeaklyAssignable || rest == WeaklyAssignable then WeaklyAssignable
        else ExactMatch
  }

  /** The combining rule of `map_test_assignment`, both ways. */
  lemma TestEntriesRule(entries: seq<MapEntry>, keys: CqlType, values: CqlType)
    ensures TestEntries(entries, keys, values) == NotAssignable <==>
      exists i :: 0 <= i < |entries| && TestEntry(entries[i], keys, values) == NotAssignable
    ensures TestEntries(entries, keys, values) == ExactMatch <==>
      forall i :: 0 <= i < |entries| ==> TestEntry(entries[i], keys, values) == ExactMatch
  {
    TestEntriesNot(entries, keys, values);
    TestEntriesExact(entries, keys, values);
  }

  lemma {:induction false} TestEntriesNot(entries: seq<MapEntry>, keys: CqlType, values: CqlType)
    ensures TestEntries(entries, keys, values) == NotAssignable <==>
      exists i :: 0 <= i < |entries| && TestEntry(entries[i], keys, values) == NotAssignable
    decreases |entries|
  {
    if entries != [] {
      TestEntriesNot(entries[1..], keys, values);
      assert forall i :: 1 <= i < |entries| ==> entries[i] == entries[1..][i - 1];
    }
  }

  lemma {:induction false} TestEntriesExact(entries: seq<MapEntry>, keys: CqlType, values: CqlType)
    ensures TestEntries(entries, keys, values) == ExactMatch <==>
      forall i :: 0 <= i < |entries| ==> TestEntry(entries[i], keys, values) == ExactMatch
    decreases |entries|
  {
    if entries != [] {
      var rest := entries[1..];
      TestEntriesExact(rest, keys, values);
      if TestEntries(entries, keys, values) == ExactMatch {
        forall i | 1 <= i < |entries| ensures TestEntry(entries[i], keys, values) == ExactMatch {
          assert entries[i] == rest[i - 1];
        }
      }
      if forall i :: 0 <= i < |entries| ==> TestEntry(entries[i], keys, values) == ExactMatch {
        forall i | 0 <= i < |rest| ensures TestEntry(rest[i], keys, values) == ExactMatch {
          assert rest[i] == entries[i + 1];
        }
      }
    }
  }

  /** The loop of `test_assignment_all`, returning NOT at the first element
      that is NOT. */
  method TestAssignmentAll(es: seq<Literal>, receiver: CqlType) returns (r: TestResult)
    ensures r == TestAll(es, receiver)
    ensures r == NotAssignable <==> exists i :: 0 <= i < |es| && TestAssignment(es[i], receiver) == NotAssignable
    ensures r == ExactMatch <==> forall i :: 0 <= i < |es| ==> TestAssignment(es[i], receiver) == ExactMatch
  {
    r := ExactMatch;
    for k := 0 to |es|
      invariant r != NotAssignable
      invariant TestAll(es, receiver) == Combine(r, TestAll(es[k..], receiver))
    {
      TestAllStep(es, k, receiver);
      var t := TestAssignment(es[k], receiver);
      if t == NotAssignable {
        return NotAssignable;
      }
      if t == WeaklyAssignable {
        r := WeaklyAssignable;
      }
    }
    assert es[|es|..] == [];
  }

  /** The verdict on the elements from `k` on folds the verdict on
      element `k` into the verdict on the rest. */
  lemma TestAllStep(es: seq<Literal>, k: nat, receiver: CqlType)
    requires k < |es|
    ensures TestAll(es[k..], receiver) == Combine(TestAssignment(es[k], receiver), TestAll(es[k + 1..], receiver))
  {
    assert es[k..][0] == es[k] && es[k..][1..] == es[k + 1..];
  }

  /** `map_test_assignment` */
  method MapTestAssignment(entries: seq<MapEntry>, receiver: CqlType) returns (r: TestResult)
    ensures r == TestAssignment(MapLiteral(entries), receiver)
    ensures !receiver.MapType? ==> r == NotAssignable
    ensures receiver.MapType? && entries == [] ==> r == WeaklyAssignable
  {
    if !receiver.MapType? {
      return NotAssignable;
    }
    if entries == [] {
      return WeaklyAssignable;
    }
    var keys, values := receiver.keys, receiver.values;
    r := ExactMatch;
    for k := 0 to |entries|
      invariant r != NotAssignable
      invariant TestEntries(entries, keys, values) == Combine(r, TestEntries(entries[k..], keys, values))
    {
      assert entries[k..][1..] == entries[k + 1..];
      var t1 := TestAssignment(entries[k].key, keys);
      var t2 := TestAssignment(entries[k].value, values);
      TestEntryRule(entries[k], keys, values);
      if t1 == NotAssignable || t2 == NotAssignable {
        return NotAssignable;
      }
      if t1 != ExactMatch || t2 != ExactMatch {
        r := WeaklyAssignable;
      }
    }
    assert entries[|entries|..] == [];
  }

  /** The verdict on a prefix of entries, `done`, combined with the verdict
      on the rest, as the entry loop combines them. */
  function Combine(done: TestResult, rest: TestResult): (r: TestResult)
    ensures r == NotAssignable <==> rest == NotAssignable || done == NotAssignable
    ensures r == ExactMatch <==> done == ExactMatch && rest == ExactMatch
  {
    if rest == NotAssignable || done == NotAssignable then NotAssignable
    else if done == ExactMatch && rest == ExactMatch then ExactMatch
    else WeaklyAssignable
  }

  /** Empty collection literals are polymorphic, hence never an exact match. */
  lemma EmptyLiteralsWeak(receiver: CqlType)
    ensures receiver.ListType? ==> TestAssignment(ListLiteral([]), receiver) == WeaklyAssignable
    ensures receiver.SetType? || receiver.MapType? ==> TestAssignment(SetLiteral([]), receiver) == WeaklyAssignable
    ensures receiver.MapType? ==> TestAssignment(MapLiteral([]), receiver) == WeaklyAssignable
  {
  }

  /** A tuple literal longer than the receiver's tuple or user type is not
      assignable. */
  lemma TooLongTupleNotAssignable(elems: seq<Literal>, receiver: CqlType)
    requires IsTupleLike(receiver) && |elems| > |Components(receiver)|
    ensures TestAssignment(TupleLiteral(elems), receiver) == NotAssignable
  {
  }

  /** A user type takes a tuple literal exactly as the tuple of its field
      types does, and prepares it the same way, typed by the user type. */
  lemma UserTypeTakesTuples(elems: seq<Literal>, fields: seq<Field>, variant: Variant, fromString: FromString)
    ensures TestAssignment(TupleLiteral(elems), UserType(fields)) ==
      TestAssignment(TupleLiteral(elems), TupleType(Components(UserType(fields))))
    ensures Prepare(TupleLiteral(elems), UserType(fields), variant, fromString).Ok? <==>
      Prepare(TupleLiteral(elems), TupleType(Components(UserType(fields))), variant, fromString).Ok?
    ensures Prepare(TupleLiteral(elems), UserType(fields), variant, fromString).Ok? ==>
      Prepare(TupleLiteral(elems), UserType(fields), variant, fromString).value ==
      Prepare(TupleLiteral(elems), TupleType(Components(UserType(fields))), variant, fromString).value.(t := UserType(fields))
  {
  }

  // ----- preparation ---------------------------------------------------------

  /** A prepared term, typed by its receiver. Folding of all-constant
      collections into a single constant is not distinguished. */
  datatype Term =
    | NullConstant(t: CqlType)
    | Constant(cls: TypeClass, text: string, t: CqlType)
    | Marker(shape: Shape, index: nat, t: CqlType)
    | TupleTerm(elems: seq<Term>, t: CqlType)
    | ListTerm(elems: seq<Term>, t: CqlType)
    | SetTerm(elems: seq<Term>, t: CqlType)
    | MapTerm(keys: seq<Term>, values: seq<Term>, t: CqlType)
    | UserTerm(fields: seq<Term>, t: CqlType)

  /** Which preparation: `prepare_expression`, or the older `prepare_term`. */
  datatype Variant = ExpressionVariant | TermVariant

  /** Whether `from_string` of a column type accepts a text. The types'
      parsers (types.cc) are not part of this model, so preparation takes
      them as a parameter. */
  type FromString = (CqlType, string) -> bool

  /** `untyped_constant_parsed_value` succeeds: a hex literal for a blob is
      parsed without its `0x` prefix, a literal for a counter as a bigint,
      and any other literal by the receiver type itself. */
  predicate ParsedValueOk(cls: TypeClass, text: string, validator: CqlType, fromString: FromString)
  {
    if cls == HexClass && validator == Native(BLOB) then fromString(validator, text[if |text| < 2 then |text| else 2..])
    else if validator == Native(COUNTER) then fromString(Native(BIGINT), text)
    else fromString(validator, text)
  }

  function ContainsBindMarker(t: Term): bool
  {
    match t
    case Marker(_, _, _) => true
    case TupleTerm(elems, _) => exists i :: 0 <= i < |elems| && ContainsBindMarker(elems[i])
    case ListTerm(elems, _) => exists i :: 0 <= i < |elems| && ContainsBindMarker(elems[i])
    case SetTerm(elems, _) => exists i :: 0 <= i < |elems| && ContainsBindMarker(elems[i])
    case MapTerm(keys, values, _) =>
      (exists i :: 0 <= i < |keys| && ContainsBindMarker(keys[i])) ||
      (exists i :: 0 <= i < |values| && ContainsBindMarker(values[i]))
    case UserTerm(fields, _) => exists i :: 0 <= i < |fields| && ContainsBindMarker(fields[i])
    case _ => false
  }

  /** `null_prepare_expression` */
  function PrepareNull(receiver: CqlType): (r: Result<Term>)
    ensures r.Ok? <==> IsAssignable(NullTest(receiver))
    ensures r.Ok? ==> r.value == NullConstant(receiver)
  {
    if !IsAssignable(NullTest(receiver)) then Err("invalid_request_exception")
    else Ok(NullConstant(receiver))
  }

  /** `list_validate_assignable_to` and its set and map siblings: the receiver
      has the right shape and every element is assignable. */
  predicate AllAssignable(es: seq<Literal>, t: CqlType)
  {
    forall i :: 0 <= i < |es| ==> IsAssignable(TestAssignment(es[i], t))
  }

  predicate ListValid(elems: seq<Literal>, receiver: CqlType)
  {
    receiver.ListType? && AllAssignable(elems, receiver.elem)
  }

  predicate SetValid(elems: seq<Literal>, receiver: CqlType)
  {
    if !receiver.SetType? then receiver.MapType? && elems == [] else AllAssignable(elems, receiver.elem)
  }

  predicate MapValid(entries: seq<MapEntry>, receiver: CqlType)
  {
    receiver.MapType? &&
    forall i :: 0 <= i < |entries| ==>
      IsAssignable(TestAssignment(entries[i].key, receiver.keys)) &&
      IsAssignable(TestAssignment(entries[i].value, receiver.values))
  }

  /** `prepare_expression` (or `prepare_term`) of a literal for a receiver.
      Every literal is checked for assignability before its parts are
      prepared, and a constant's text must then be accepted by the
      receiver type's parser; the older variant refuses a bind marker
      inside a collection literal. A prepared literal is typed by its receiver; only scalar bind
      variables are prepared here, a scalar IN marker becoming a scalar
      marker of the list type. */
  function Prepare(e: Literal, receiver: CqlType, variant: Variant, fromString: FromString): (r: Result<Term>)
    ensures r.Ok? && !e.BindVariable? ==> r.value.t == receiver
    ensures e.BindVariable? ==> (r.Ok? <==> e.shape in {Scalar, ScalarIn})
    ensures e.Untyped? ==> (r.Ok? <==>
      IsAssignable(UntypedConstantTest(e.cls, receiver)) && ParsedValueOk(e.cls, e.text, receiver, fromString))
    ensures e.Untyped? && r.Err? ==> r.error == "invalid_request_exception"
    ensures r.Ok? && e.BindVariable? ==>
      r.value == Marker(Scalar, e.index, if e.shape == Scalar then receiver else ListType(receiver, false))
  {
    match e
    case Null => PrepareNull(receiver)
    case BindVariable(shape, index) =>
      if shape == Scalar then Ok(Marker(Scalar, index, receiver))
      else if shape == ScalarIn then Ok(Marker(Scalar, index, ListType(receiver, false)))
      else Err("internal_error")
    case Untyped(cls, text) =>
      if !IsAssignable(UntypedConstantTest(cls, receiver)) then Err("invalid_request_exception")
      else if !ParsedValueOk(cls, text, receiver, fromString) then Err("invalid_request_exception")
      else Ok(Constant(cls, text, receiver))
    case TupleLiteral(elems) =>
      if !IsAssignable(TestAssignment(e, receiver)) then Err("invalid_request_exception")
      else
        var ts := PrepareEach(elems, Components(receiver)[..|elems|], variant, fromString, false);
        if ts.Err? then Err(ts.error) else Ok(TupleTerm(ts.value, receiver))
    case ListLiteral(elems) =>
      if !ListValid(elems, receiver) then Err("invalid_request_exception")
      else if receiver.multiCell && elems == [] then Ok(NullConstant(receiver))
      else
        var ts := PrepareEach(elems, Repeat(receiver.elem, |elems|), variant, fromString, variant == TermVariant);
        if ts.Err? then Err(ts.error) else Ok(ListTerm(ts.value, receiver))
    case SetLiteral(elems) =>
      if !SetValid(elems, receiver) then Err("invalid_request_exception")
      else if elems == [] && IsMultiCell(receiver) then Ok(NullConstant(receiver))
      else if elems == [] && receiver.MapType? then Ok(MapTerm([], [], receiver))
      else
        var ts := PrepareEach(elems, Repeat(receiver.elem, |elems|), variant, fromString, variant == TermVariant);
        if ts.Err? then Err(ts.error) else Ok(SetTerm(ts.value, receiver))
    case MapLiteral(entries) =>
      if !MapValid(entries, receiver) then Err("invalid_request_exception")
      else
        var kvs := PrepareEntries(entries, receiver.keys, receiver.values, variant, fromString);
        if kvs.Err? then Err(kvs.error) else Ok(MapTerm(kvs.value.0, kvs.value.1, receiver))
    case UserLiteral(values) =>
      if !IsAssignable(TestAssignment(e, receiver)) then Err("invalid_request_exception")
      else
        var fs := PrepareFields(values, receiver.fields, variant, fromString);
        if fs.Err? then Err(fs.error)
        else if exists i :: 0 <= i < |values| && !KnownField(receiver.fields, values[i].name) then
          Err("invalid_request_exception")
        else Ok(UserTerm(fs.value, receiver))
  }

  /** The parser that decides a constant: a counter column parses its
      literal as a bigint, a blob column parses a hex literal after its
      `0x` prefix, and a text column parses a string literal itself. */
  lemma ConstantParsedByValidator(cls: TypeClass, text: string, variant: Variant, fromString: FromString)
    ensures Prepare(Untyped(cls, text), Native(COUNTER), variant, fromString).Ok? <==>
      cls == IntegerClass && fromString(Native(BIGINT), text)
    ensures |text| >= 2 ==>
      (Prepare(Untyped(HexClass, text), Native(BLOB), variant, fromString).Ok? <==> fromString(Native(BLOB), text[2..]))
    ensures Prepare(Untyped(StringClass, text), Native(TEXT), variant, fromString).Ok? <==> fromString(Native(TEXT), text)
  {
  }

  function Repeat(t: CqlType, n: nat): (r: seq<CqlType>)
    ensures |r| == n && forall i :: 0 <= i < n ==> r[i] == t
  {
    if n == 0 then [] else [t] + Repeat(t, n - 1)
  }

  predicate KnownField(fields: seq<Field>, name: string)
  {
    exists i :: 0 <= i < |fields| && fields[i].name == name
  }

  /** Prepares each literal for its own receiver, in order; with
      `noMarkers`, a prepared element holding a bind marker is refused. */
  function PrepareEach(es: seq<Literal>, types: seq<CqlType>, variant: Variant, fromString: FromString, noMarkers: bool): Result<seq<Term>>
    requires |types| == |es|
  {
    if es == [] then Ok([])
    else
      var first := Prepare(es[0], types[0], variant, fromString);
      if first.Err? then Err(first.error)
      else if noMarkers && ContainsBindMarker(first.value) then Err("invalid_request_exception")
      else
        var rest := PrepareEach(es[1..], types[1..], variant, fromString, noMarkers);
        if rest.Err? then rest else Ok([first.value] + rest.value)
  }

  /** Prepares the key and the value of one map entry; the older variant
      refuses an entry whose key or value holds a bind marker. */
  function PrepareEntry(entry: MapEntry, keys: CqlType, values: CqlType, variant: Variant, fromString: FromString): Result<(Term, Term)>
  {
    var k := Prepare(entry.key, keys, variant, fromString);
    var v := Prepare(entry.value, values, variant, fromString);
    if k.Err? then Err(k.error)
    else if v.Err? then Err(v.error)
    else if variant == TermVariant && (ContainsBindMarker(k.value) || ContainsBindMarker(v.value)) then
      Err("invalid_request_exception")
    else Ok((k.value, v.value))
  }

  /** Prepares the entries of a map literal in order. */
  function PrepareEntries(entries: seq<MapEntry>, keys: CqlType, values: CqlType, variant: Variant, fromString: FromString): Result<(seq<Term>, seq<Term>)>
  {
    if entries == [] then Ok(([], []))
    else
      var first := PrepareEntry(entries[0], keys, values, variant, fromString);
      if first.Err? then Err(first.error)
      else
        var rest := PrepareEntries(entries[1..], keys, values, variant, fromString);
        if rest.Err? then rest else Ok(([first.value.0] + rest.value.0, [first.value.1] + rest.value.1))
  }

  /** Prepares one value per field of the user type, in the type's order; a
      field the literal leaves out is null. */
  function PrepareFields(values: seq<FieldValue>, fields: seq<Field>, variant: Variant, fromString: FromString): Result<seq<Term>>
  {
    if fields == [] then Ok([])
    else
      var j := FieldIndex(values, fields[0].name);
      var first := if j < |values| then Prepare(values[j].value, fields[0].ftype, variant, fromString) else PrepareNull(fields[0].ftype);
      if first.Err? then Err(first.error)
      else
        var rest := PrepareFields(values, fields[1..], variant, fromString);
        if rest.Err? then rest else Ok([first.value] + rest.value)
  }

  /** Only an assignable literal is prepared. */
  lemma PreparedIsAssignable(e: Literal, receiver: CqlType, variant: Variant, fromString: FromString)
    requires Prepare(e, receiver, variant, fromString).Ok?
    ensures IsAssignable(TestAssignment(e, receiver))
  {
    match e
    case MapLiteral(entries) =>
      if entries != [] {
        TestEntriesRule(entries, receiver.keys, receiver.values);
      }
    case _ =>
  }

  /** An empty literal for a non-frozen list or set is the null constant. */
  lemma EmptyMultiCellIsNull(receiver: CqlType, variant: Variant, fromString: FromString)
    requires (receiver.ListType? || receiver.SetType?) && receiver.multiCell
    ensures receiver.ListType? ==> Prepare(ListLiteral([]), receiver, variant, fromString) == Ok(NullConstant(receiver))
    ensures receiver.SetType? ==> Prepare(SetLiteral([]), receiver, variant, fromString) == Ok(NullConstant(receiver))
  {
  }

  /** An empty set literal for a frozen map is the empty map, and for a
      non-frozen map the null constant. */
  lemma EmptySetForMap(receiver: CqlType, variant: Variant, fromString: FromString)
    requires receiver.MapType?
    ensures Prepare(SetLiteral([]), receiver, variant, fromString) ==
      Ok(if receiver.multiCell then NullConstant(receiver) else MapTerm([], [], receiver))
  {
  }

  /** Preparing a sequence succeeds only when every element prepares, and
      then gives each element's preparation in order, with no bind marker
      when markers are refused; without that refusal the converse holds. */
  lemma {:induction false} PrepareEachAt(es: seq<Literal>, types: seq<CqlType>, variant: Variant, fromString: FromString, noMarkers: bool)
    requires |types| == |es|
    ensures PrepareEach(es, types, variant, fromString, noMarkers).Ok? ==>
      |PrepareEach(es, types, variant, fromString, noMarkers).value| == |es| &&
      forall i :: 0 <= i < |es| ==>
        Prepare(es[i], types[i], variant, fromString).Ok? &&
        PrepareEach(es, types, variant, fromString, noMarkers).value[i] == Prepare(es[i], types[i], variant, fromString).value &&
        (noMarkers ==> !ContainsBindMarker(Prepare(es[i], types[i], variant, fromString).value))
    ensures !noMarkers && (forall i :: 0 <= i < |es| ==> Prepare(es[i], types[i], variant, fromString).Ok?) ==>
      PrepareEach(es, types, variant, fromString, noMarkers).Ok?
    decreases |es|
  {
    if es != [] {
      PrepareEachAt(es[1..], types[1..], variant, fromString, noMarkers);
      assert forall i :: 1 <= i < |es| ==> es[i] == es[1..][i - 1] && types[i] == types[1..][i - 1];
    }
  }

  /** A prepared non-empty list literal holds each element prepared
      against the list's element type, in order. */
  lemma PrepareListElements(elems: seq<Literal>, receiver: CqlType, variant: Variant, fromString: FromString)
    requires elems != [] && Prepare(ListLiteral(elems), receiver, variant, fromString).Ok?
    ensures receiver.ListType?
    ensures Prepare(ListLiteral(elems), receiver, variant, fromString).value.ListTerm?
    ensures Prepare(ListLiteral(elems), receiver, variant, fromString).value.t == receiver
    ensures |Prepare(ListLiteral(elems), receiver, variant, fromString).value.elems| == |elems|
    ensures forall i :: 0 <= i < |elems| ==>
      Prepare(elems[i], receiver.elem, variant, fromString).Ok? &&
      Prepare(ListLiteral(elems), receiver, variant, fromString).value.elems[i] == Prepare(elems[i], receiver.elem, variant, fromString).value
  {
    PrepareEachAt(elems, Repeat(receiver.elem, |elems|), variant, fromString, variant == TermVariant);
  }

  /** A list literal holding a bind marker: the older variant refuses it;
      the newer one prepares it exactly when the receiver is a list whose
      element type takes every element and every element prepares. */
  lemma MarkerInListLiteral(elems: seq<Literal>, k: nat, receiver: CqlType, fromString: FromString)
    requires k < |elems| && elems[k].BindVariable?
    ensures Prepare(ListLiteral(elems), receiver, TermVariant, fromString).Err?
    ensures Prepare(ListLiteral(elems), receiver, ExpressionVariant, fromString).Ok? <==>
      ListValid(elems, receiver) &&
      forall i :: 0 <= i < |elems| ==> Prepare(elems[i], receiver.elem, ExpressionVariant, fromString).Ok?
  {
    if ListValid(elems, receiver) {
      var ts := Repeat(receiver.elem, |elems|);
      PrepareEachAt(elems, ts, TermVariant, fromString, true);
      PrepareEachAt(elems, ts, ExpressionVariant, fromString, false);
      if Prepare(elems[k], ts[k], TermVariant, fromString).Ok? {
        assert ContainsBindMarker(Prepare(elems[k], ts[k], TermVariant, fromString).value);
      }
    }
  }

  /** `prepare_expression_multi_column`: a tuple literal needs exactly one
      element per receiver and is typed by the tuple of the receivers. */
  function PrepareMultiColumn(e: Literal, receivers: seq<CqlType>, variant: Variant, fromString: FromString): (r: Result<Term>)
    ensures r.Ok? && e.TupleLiteral? ==> |e.elems| == |receivers| && r.value.TupleTerm? && r.value.t == TupleType(receivers)
    ensures e.TupleLiteral? && |e.elems| != |receivers| ==> r == Err("invalid_request_exception")
    ensures r.Ok? ==> e.TupleLiteral? || e.BindVariable?
  {
    match e
    case BindVariable(shape, index) =>
      if shape == TupleShape then Ok(Marker(TupleShape, index, TupleType(receivers)))
      else if shape == TupleIn then
        if exists i :: 0 <= i < |receivers| && IsMultiCell(receivers[i]) then Err("invalid_request_exception")
        else Ok(Marker(TupleIn, index, ListType(TupleType(receivers), false)))
      else Err("internal_error")
    case TupleLiteral(elems) =>
      if |elems| != |receivers| then Err("invalid_request_exception")
      else
        var ts := PrepareEach(elems, receivers, variant, fromString, false);
        if ts.Err? then Err(ts.error) else Ok(TupleTerm(ts.value, TupleType(receivers)))
    case _ => Err("internal_error")
  }
}
