/** The AST of idl-compiler.py and its type helpers: `list_types`,
    `param_type`, `flat_type`, `param_view_type` and the classification
    predicates.  Rendering is proved to be a faithful encoding: the
    C++ spelling produced by `param_type` parses back to the same type. */
module IdlTypes {
  import opened Util

  // ----- AST ----------------------------------------------------------------

  /** `BasicType` and `TemplateType`.  Template types cannot be const in the grammar. */
  datatype Type =
    | BasicType(name: string, isConst: bool)
    | TemplateType(name: string, params: seq<Type>)

  /** A template argument as the grammar delivers it: a type or a number. */
  datatype TemplateArg = TypeArg(ty: Type) | NumberArg(n: int)

  datatype Attribute = Attribute(name: string)

  datatype EnumValue = EnumValue(name: string, initializer: Option<int>)

  datatype ClassTemplateParam = ClassTemplateParam(typename: string, name: string)

  /** What setup_additional_metadata attaches to classes and enums. */
  datatype Meta = Meta(nsContext: seq<string>, parentTemplateParams: seq<ClassTemplateParam>)

  const NoMeta := Meta([], [])

  /** Data members and accessor-style (function) members share one shape. */
  datatype MemberKind = DataMember | FunctionMember

  datatype Decl =
    | Field(kind: MemberKind, ty: Type, name: string, attribute: Option<Attribute>, defaultValue: Option<string>)
    | EnumDef(name: string, underlyingType: string, values: seq<EnumValue>, meta: Meta)
    | ClassDef(name: string, members: seq<Decl>, final: bool, stub: bool,
               attribute: Option<Attribute>, templateParams: Option<seq<ClassTemplateParam>>, meta: Meta)
    | NamespaceDef(name: string, members: seq<Decl>)

  /** What parsing a file yields: the top-level declarations, or the
      failure that `parseAll=True` raises on any unparsed input. */
  datatype ParseOutcome = Parsed(tree: seq<Decl>) | ParseFailure(line: nat, column: nat)

  /** Python truthiness of `template_params`: None and [] are both false. */
  function OwnTemplateParams(c: Decl): seq<ClassTemplateParam>
    requires c.ClassDef?
  {
    if c.templateParams.Some? then c.templateParams.value else []
  }

  // ----- template argument normalisation ------------------------------------

  function NormalizeArg(a: TemplateArg): Type
  {
    match a
    case TypeArg(t) => t
    case NumberArg(n) => BasicType(IntToString(n), false)
  }

  /** The TemplateType constructor: numbers become basic types named by the number. */
  function MakeTemplateType(name: string, args: seq<TemplateArg>): (t: Type)
    ensures t.TemplateType? && t.name == name && |t.params| == |args|
    ensures forall i :: 0 <= i < |args| && args[i].NumberArg? ==>
              t.params[i] == BasicType(IntToString(args[i].n), false)
    ensures forall i :: 0 <= i < |args| && args[i].TypeArg? ==> t.params[i] == args[i].ty
  {
    TemplateType(name, seq(|args|, i requires 0 <= i < |args| => NormalizeArg(args[i])))
  }

  // ----- list_types -----------------------------------------------------------

  /** The leaf type names, left to right, one per occurrence.  (Python's
      `reduce` without an initial value would raise on an empty argument
      list, which the grammar cannot produce; here that gives [].) */
  function ListTypes(t: Type): seq<string>
    decreases t, 1
  {
    match t
    case BasicType(n, _) => [n]
    case TemplateType(_, ps) => ListTypesOf(ps)
  }

  function ListTypesOf(ps: seq<Type>): seq<string>
    decreases ps, 0
  {
    if ps == [] then [] else ListTypes(ps[0]) + ListTypesOf(ps[1..])
  }

  /** `Basic(n, _)` occurs somewhere inside `t`. */
  predicate HasLeaf(t: Type, n: string)
  {
    match t
    case BasicType(m, _) => m == n
    case TemplateType(_, ps) => exists p :: p in ps && HasLeaf(p, n)
  }

  lemma {:induction false} ListTypesIsLeaves(t: Type, n: string)
    ensures n in ListTypes(t) <==> HasLeaf(t, n)
    decreases t, 1
  {
    match t
    case BasicType(_, _) =>
    case TemplateType(_, ps) => ListTypesOfIsLeaves(ps, n);
  }

  lemma {:induction false} ListTypesOfIsLeaves(ps: seq<Type>, n: string)
    ensures n in ListTypesOf(ps) <==> exists p :: p in ps && HasLeaf(p, n)
    decreases ps, 0
  {
    if ps != [] {
      ListTypesIsLeaves(ps[0], n);
      ListTypesOfIsLeaves(ps[1..], n);
      assert forall p :: p in ps <==> p == ps[0] || p in ps[1..];
    }
  }

  /** Left-to-right order: the arguments' leaves are concatenated in order. */
  lemma {:induction false} ListTypesOfAppend(ps: seq<Type>, qs: seq<Type>)
    ensures ListTypesOf(ps + qs) == ListTypesOf(ps) + ListTypesOf(qs)
  {
    if ps == [] {
      assert ps + qs == qs;
    } else {
      assert (ps + qs)[1..] == ps[1..] + qs;
      ListTypesOfAppend(ps[1..], qs);
    }
  }

  /** A numeric template argument shows up among the leaves under its decimal name. */
  lemma NumberArgIsLeaf(name: string, args: seq<TemplateArg>, i: nat)
    requires i < |args| && args[i].NumberArg?
    ensures IntToString(args[i].n) in ListTypes(MakeTemplateType(name, args))
  {
    var t := MakeTemplateType(name, args);
    assert t.params[i] in t.params && HasLeaf(t.params[i], IntToString(args[i].n));
    ListTypesIsLeaves(t, IntToString(args[i].n));
  }

  // ----- classification -----------------------------------------------------

  predicate IsVector(t: Type)
  {
    t.TemplateType? && (t.name == "std::vector" || t.name == "utils::chunked_vector")
  }

  predicate IsVariant(t: Type)
  {
    t.TemplateType? && (t.name == "boost::variant" || t.name == "std::variant")
  }

  predicate IsOptional(t: Type)
  {
    t.TemplateType? && t.name == "std::optional"
  }

  /** The leaves of `t` that are registered writable types (list_local_writable_types). */
  function LocalWritableLeaves(t: Type, writable: set<string>): (r: set<string>)
    ensures forall l :: l in r <==> l in writable && HasLeaf(t, l)
  {
    forall l ensures l in ListTypes(t) <==> HasLeaf(t, l) { ListTypesIsLeaves(t, l); }
    set l | l in ListTypes(t) && l in writable
  }

  // ----- param_type ---------------------------------------------------------

  /** The C++ spelling of a type. */
  function ParamType(t: Type): string
    decreases t, 1
  {
    match t
    case BasicType(n, c) => if c then "const " + n else n
    case TemplateType(n, ps) => n + "<" + ParamTypes(ps) + ">"
  }

  /** `", ".join(param_type(p) for p in ps)`. */
  function ParamTypes(ps: seq<Type>): string
    decreases ps, 0
  {
    if ps == [] then ""
    else if |ps| == 1 then ParamType(ps[0])
    else ParamType(ps[0]) + ", " + ParamTypes(ps[1..])
  }

  // ----- decoding the spelling back -----------------------------------------

  /** Characters an identifier (possibly `::`-qualified, or a number) may hold. */
  predicate NameChar(c: char)
  {
    c != '<' && c != '>' && c != ',' && c != ' '
  }

  predicate ValidName(n: string)
  {
    |n| > 0 && forall i :: 0 <= i < |n| ==> NameChar(n[i])
  }

  /** What the grammar can produce: identifier names and at least one template argument. */
  predicate WellFormedType(t: Type)
  {
    match t
    case BasicType(n, _) => ValidName(n)
    case TemplateType(n, ps) => ValidName(n) && |ps| > 0 && forall p :: p in ps ==> WellFormedType(p)
  }

  /** Splits off the longest prefix of name characters. */
  function TakeName(s: string): (r: (string, string))
    ensures r.0 + r.1 == s
    ensures forall i :: 0 <= i < |r.0| ==> NameChar(r.0[i])
    ensures r.1 != [] ==> !NameChar(r.1[0])
  {
    if s == [] || !NameChar(s[0]) then ([], s)
    else
      var r := TakeName(s[1..]);
      assert [s[0]] + r.0 + r.1 == [s[0]] + (r.0 + r.1) == s;
      ConsNameChars(s[0], r.0);
      ([s[0]] + r.0, r.1)
  }

  lemma ConsNameChars(c: char, t: string)
    requires NameChar(c) && forall i :: 0 <= i < |t| ==> NameChar(t[i])
    ensures forall i :: 0 <= i < |[c] + t| ==> NameChar(([c] + t)[i])
  {
    forall i | 0 < i < |[c] + t| ensures NameChar(([c] + t)[i]) {
      assert ([c] + t)[i] == t[i - 1];
    }
  }

  lemma {:induction false} TakeNameOf(n: string, rest: string)
    requires forall i :: 0 <= i < |n| ==> NameChar(n[i])
    requires rest != [] ==> !NameChar(rest[0])
    ensures TakeName(n + rest) == (n, rest)
  {
    var s := n + rest;
    if n == [] {
      assert s == rest;
    } else {
      assert s[0] == n[0] && NameChar(s[0]);
      assert s[1..] == n[1..] + rest;
      TakeNameOf(n[1..], rest);
      var r := TakeName(s[1..]);
      assert r == (n[1..], rest);
      assert TakeName(s) == ([s[0]] + r.0, r.1);
      assert [n[0]] + n[1..] == n;
    }
  }

  /** A name followed by `<`, `>`, `,` or nothing never looks like a `const ` prefix. */
  lemma NoConstPrefix(n: string, tail: string)
    requires forall i :: 0 <= i < |n| ==> NameChar(n[i])
    requires tail == [] || tail[0] == '<' || tail[0] == '>' || tail[0] == ','
    ensures !(|n + tail| >= 6 && (n + tail)[..6] == "const ")
  {
    var s := n + tail;
    if |s| >= 6 {
      var k := if |n| >= 6 then 5 else |n|;
      assert s[k] == if k < |n| then n[k] else tail[0];
      assert s[k] != "const "[k];
      assert s[..6][k] == s[k];
    }
  }

  /** Reads one type spelling from the front of `s`; returns it and what follows. */
  function ParseType(s: string): (r: Option<(Type, string)>)
    ensures r.Some? ==> |r.value.1| < |s|
    decreases |s|, 0
  {
    if |s| >= 6 && s[..6] == "const " then
      var (n, rest) := TakeName(s[6..]);
      if n == [] then None else Some((BasicType(n, true), rest))
    else
      var (n, rest) := TakeName(s);
      if n == [] then None
      else if rest != [] && rest[0] == '<' then
        match ParseTypes(rest[1..])
        case None => None
        case Some((ps, after)) =>
          if after != [] && after[0] == '>' then Some((TemplateType(n, ps), after[1..])) else None
      else Some((BasicType(n, false), rest))
  }

  /** Reads a non-empty `", "`-separated list of type spellings. */
  function ParseTypes(s: string): (r: Option<(seq<Type>, string)>)
    ensures r.Some? ==> |r.value.1| < |s| && |r.value.0| > 0
    decreases |s|, 1
  {
    match ParseType(s)
    case None => None
    case Some((t, rest)) =>
      if |rest| >= 2 && rest[..2] == ", " then
        match ParseTypes(rest[2..])
        case None => None
        case Some((ts, after)) => Some(([t] + ts, after))
      else Some(([t], rest))
  }

  /** What may follow a type spelling inside the rendering. */
  predicate Follower(rest: string)
  {
    rest == [] || rest[0] == ',' || rest[0] == '>'
  }

  lemma ParseBasicStep(n: string, c: bool, rest: string)
    requires ValidName(n) && Follower(rest)
    ensures ParseType(ParamType(BasicType(n, c)) + rest) == Some((BasicType(n, c), rest))
  {
    TakeNameOf(n, rest);
    if c {
      var s := "const " + n + rest;
      assert s[..6] == "const ";
      assert s[6..] == n + rest;
    } else {
      NoConstPrefix(n, rest);
    }
  }

  /** The template branch of ParseType, taken once the name is read. */
  lemma ParseTypeTemplateBranch(s: string, n: string, tail: string)
    requires !(|s| >= 6 && s[..6] == "const ")
    requires TakeName(s) == (n, tail) && n != [] && tail != [] && tail[0] == '<'
    ensures ParseType(s) ==
              match ParseTypes(tail[1..])
              case None => None
              case Some((ps, after)) =>
                if after != [] && after[0] == '>' then Some((TemplateType(n, ps), after[1..])) else None
  {
  }

  lemma TemplateSpellingSplit(n: string, inner: string, rest: string)
    ensures n + "<" + inner + ">" + rest == n + ("<" + (inner + (">" + rest)))
  {
  }

  lemma ParseTemplateStep(n: string, inner: string, rest: string, ps: seq<Type>)
    requires ValidName(n)
    requires ParseTypes(inner + (">" + rest)) == Some((ps, ">" + rest))
    ensures ParseType(n + "<" + inner + ">" + rest) == Some((TemplateType(n, ps), rest))
  {
    var after := ">" + rest;
    var tail := "<" + (inner + after);
    var s := n + "<" + inner + ">" + rest;
    TemplateSpellingSplit(n, inner, rest);
    NoConstPrefix(n, tail);
    TakeNameOf(n, tail);
    assert tail[1..] == inner + after;
    assert after[1..] == rest;
    ParseTypeTemplateBranch(s, n, tail);
  }

  lemma {:induction false} ParamTypeRoundTrip(t: Type, rest: string)
    requires WellFormedType(t) && Follower(rest)
    ensures ParseType(ParamType(t) + rest) == Some((t, rest))
    decreases t, 1
  {
    match t
    case BasicType(n, c) =>
      ParseBasicStep(n, c, rest);
    case TemplateType(n, ps) =>
      ParamTypesRoundTrip(ps, ">" + rest);
      ParseTemplateStep(n, ParamTypes(ps), rest, ps);
  }

  lemma {:induction false} ParamTypesRoundTrip(ps: seq<Type>, rest: string)
    requires |ps| > 0 && forall p :: p in ps ==> WellFormedType(p)
    requires rest != [] && rest[0] == '>'
    ensures ParseTypes(ParamTypes(ps) + rest) == Some((ps, rest))
    decreases ps, 0
  {
    if |ps| == 1 {
      ParamTypeRoundTrip(ps[0], rest);
      assert rest[..1] == ">";
      assert [ps[0]] == ps;
    } else {
      var tail := ParamTypes(ps[1..]) + rest;
      assert ParamTypes(ps) + rest == ParamType(ps[0]) + (", " + tail);
      ParamTypeRoundTrip(ps[0], ", " + tail);
      assert (", " + tail)[..2] == ", ";
      assert (", " + tail)[2..] == tail;
      ParamTypesRoundTrip(ps[1..], rest);
      assert [ps[0]] + ps[1..] == ps;
    }
  }

  /** Two well-formed types with the same spelling are the same type. */
  lemma ParamTypeInjective(t1: Type, t2: Type)
    requires WellFormedType(t1) && WellFormedType(t2)
    requires ParamType(t1) == ParamType(t2)
    ensures t1 == t2
  {
    ParamTypeRoundTrip(t1, []);
    ParamTypeRoundTrip(t2, []);
    assert ParamType(t1) + [] == ParamType(t1);
    assert ParamType(t2) + [] == ParamType(t2);
  }

  /** A basic type is spelled with a `const ` prefix exactly when it is const. */
  lemma BasicConstPrefix(n: string, c: bool)
    requires ValidName(n)
    ensures var s := ParamType(BasicType(n, c));
            (|s| >= 6 && s[..6] == "const ") <==> c
  {
    ParamTypeRoundTrip(BasicType(n, c), []);
    assert ParamType(BasicType(n, c)) + [] == ParamType(BasicType(n, c));
  }

  // ----- flat_type -----------------------------------------------------------

  /** `s.replace('::', '__')`: left-to-right, non-overlapping. */
  function ReplaceColons(s: string): (r: string)
    ensures |r| == |s|
  {
    if |s| >= 2 && s[0] == ':' && s[1] == ':' then "__" + ReplaceColons(s[2..])
    else if s == [] then []
    else [s[0]] + ReplaceColons(s[1..])
  }

  predicate HasDoubleColon(s: string)
  {
    exists i :: 0 <= i < |s| - 1 && s[i] == ':' && s[i + 1] == ':'
  }

  lemma {:induction false} ReplaceColonsHead(s: string)
    requires s != []
    ensures ReplaceColons(s)[0] == (if s[0] == ':' && |s| >= 2 && s[1] == ':' then '_' else s[0])
  {
  }

  lemma {:induction false} ReplaceColonsRemovesAll(s: string)
    ensures !HasDoubleColon(ReplaceColons(s))
    decreases |s|
  {
    var r := ReplaceColons(s);
    if |s| >= 2 && s[0] == ':' && s[1] == ':' {
      ReplaceColonsRemovesAll(s[2..]);
      var t := ReplaceColons(s[2..]);
      assert r == "__" + t;
      forall i | 0 <= i < |r| - 1 ensures !(r[i] == ':' && r[i + 1] == ':') {
        if i >= 2 { assert r[i] == t[i - 2] && r[i + 1] == t[i - 1]; }
      }
    } else if s != [] {
      ReplaceColonsRemovesAll(s[1..]);
      var t := ReplaceColons(s[1..]);
      assert r == [s[0]] + t;
      forall i | 0 <= i < |r| - 1 ensures !(r[i] == ':' && r[i + 1] == ':') {
        if i >= 1 {
          assert r[i] == t[i - 1] && r[i + 1] == t[i];
        } else if s[0] == ':' {
          ReplaceColonsHead(s[1..]);
        }
      }
    }
  }

  lemma {:induction false} ReplaceColonsIdentity(s: string)
    requires !HasDoubleColon(s)
    ensures ReplaceColons(s) == s
    decreases |s|
  {
    if s != [] {
      ReplaceColonsIdentity(s[1..]);
      assert !(|s| >= 2 && s[0] == ':' && s[1] == ':');
    }
  }

  /** Replacing twice is replacing once. */
  lemma ReplaceColonsIdempotent(s: string)
    ensures ReplaceColons(ReplaceColons(s)) == ReplaceColons(s)
  {
    ReplaceColonsRemovesAll(s);
    ReplaceColonsIdentity(ReplaceColons(s));
  }

  /** An identifier-friendly flattening used to name writer nodes.  The
      replacement is applied to the template case only, so a top-level basic
      type keeps its `::` and a flattened template type never holds one;
      constness is dropped. */
  function FlatType(t: Type): (r: string)
    ensures t.TemplateType? ==> !HasDoubleColon(r)
    decreases t, 1
  {
    match t
    case BasicType(n, _) => n
    case TemplateType(n, ps) =>
      ReplaceColonsRemovesAll(n + "__" + FlatTypes(ps));
      ReplaceColons(n + "__" + FlatTypes(ps))
  }

  /** `"_".join(flat_type(p) for p in ps)`. */
  function FlatTypes(ps: seq<Type>): string
    decreases ps, 0
  {
    if ps == [] then ""
    else if |ps| == 1 then FlatType(ps[0])
    else FlatType(ps[0]) + "_" + FlatTypes(ps[1..])
  }

  // ----- param_view_type -------------------------------------------------------

  function ToView(val: string, writable: set<string>): string
  {
    if val in writable then val + "_view" else val
  }

  /** Like ParamType, but writable leaves become their `_view` types,
      variants get a trailing `unknown_variant_type` alternative, and
      constness is not spelled. */
  function ParamViewType(t: Type, writable: set<string>): string
    decreases t, 1
  {
    match t
    case BasicType(n, _) => ToView(n, writable)
    case TemplateType(n, ps) =>
      var args := ParamViewTypes(ps, writable);
      if n == "boost::variant" || n == "std::variant" then
        n + "<" + (if ps == [] then "unknown_variant_type" else args + ", unknown_variant_type") + ">"
      else n + "<" + args + ">"
  }

  function ParamViewTypes(ps: seq<Type>, writable: set<string>): string
    decreases ps, 0
  {
    if ps == [] then ""
    else if |ps| == 1 then ParamViewType(ps[0], writable)
    else ParamViewType(ps[0], writable) + ", " + ParamViewTypes(ps[1..], writable)
  }

  /** No writable leaf, no const leaf and no variant anywhere in `t`. */
  predicate PlainType(t: Type, writable: set<string>)
  {
    match t
    case BasicType(n, c) => !c && n !in writable
    case TemplateType(n, ps) =>
      n != "boost::variant" && n != "std::variant" && forall p :: p in ps ==> PlainType(p, writable)
  }

  /** Without writable leaves, const leaves or variants, the view spelling is the plain spelling. */
  lemma {:induction false} ViewTypeOfPlainType(t: Type, writable: set<string>)
    requires PlainType(t, writable)
    ensures ParamViewType(t, writable) == ParamType(t)
    decreases t, 1
  {
    match t
    case BasicType(_, _) =>
    case TemplateType(_, ps) => ViewTypesOfPlainTypes(ps, writable);
  }

  lemma {:induction false} ViewTypesOfPlainTypes(ps: seq<Type>, writable: set<string>)
    requires forall p :: p in ps ==> PlainType(p, writable)
    ensures ParamViewTypes(ps, writable) == ParamTypes(ps)
    decreases ps, 0
  {
    if ps != [] {
      ViewTypeOfPlainType(ps[0], writable);
      ViewTypesOfPlainTypes(ps[1..], writable);
    }
  }

  /** A variant's view spelling is the spelling of the same variant with one
      more alternative, `unknown_variant_type`, at the end. */
  lemma ViewTypeOfVariant(n: string, ps: seq<Type>, writable: set<string>)
    requires n == "boost::variant" || n == "std::variant"
    requires forall p :: p in ps ==> PlainType(p, writable)
    ensures ParamViewType(TemplateType(n, ps), writable)
         == ParamType(TemplateType(n, ps + [BasicType("unknown_variant_type", false)]))
  {
    var u := BasicType("unknown_variant_type", false);
    ViewTypesOfPlainTypes(ps, writable);
    ParamTypesSnoc(ps, u);
    var x := if ps == [] then "unknown_variant_type" else ParamTypes(ps) + ", unknown_variant_type";
    assert ParamViewType(TemplateType(n, ps), writable) == n + "<" + x + ">";
    assert ParamType(u) == "unknown_variant_type";
    assert ParamTypes(ps + [u]) == x by {
      VariantTailLiteral();
      ConcatAssoc(ParamTypes(ps), ", ", "unknown_variant_type");
    }
  }

  lemma ConcatAssoc(a: string, b: string, c: string)
    ensures a + b + c == a + (b + c)
  {
  }

  lemma VariantTailLiteral()
    ensures ", unknown_variant_type" == ", " + "unknown_variant_type"
  {
  }

  lemma SnocAssoc(head: string, tail: string, last: string)
    ensures head + ", " + (tail + ", " + last) == head + ", " + tail + ", " + last
  {
  }

  lemma {:induction false} ParamTypesSnoc(ps: seq<Type>, u: Type)
    ensures ParamTypes(ps + [u]) == if ps == [] then ParamType(u) else ParamTypes(ps) + ", " + ParamType(u)
  {
    if |ps| > 1 {
      var head, tail, last := ParamType(ps[0]), ParamTypes(ps[1..]), ParamType(u);
      assert (ps + [u])[0] == ps[0] && (ps + [u])[1..] == ps[1..] + [u];
      ParamTypesSnoc(ps[1..], u);
      assert ParamTypes(ps[1..] + [u]) == tail + ", " + last;
      assert ParamTypes(ps + [u]) == head + ", " + (tail + ", " + last);
      assert ParamTypes(ps) == head + ", " + tail;
      SnocAssoc(head, tail, last);
    } else if |ps| == 1 {
      assert (ps + [u])[1..] == [u];
    } else {
      assert ps + [u] == [u];
    }
  }
}
