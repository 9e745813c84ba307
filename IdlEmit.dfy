/** The serializer emission of idl-compiler.py: `declare_methods`,
    `handle_enum`, `handle_class`, `handle_objects` and the three
    `ClassDef.serializer_*_impl` generators.  The generated C++ text is not
    modelled character by character: each emitted block is a `Section`
    holding the decisions the generator takes (names, template spellings,
    the size envelope, the members written, the locals read, how to skip). */
module IdlEmit {
  import opened Util
  import opened IdlTypes
  import opened IdlMetadata
  import opened IdlRegistry

  // ----- emitted sections -----------------------------------------------------

  /** How `read` frames the members: skip a memberless body by its size, read
      the members from a size-delimited substream, read them in place (final
      classes), or nothing at all (final and memberless). */
  datatype ReadEnvelope = SkipWhole | Substream | InPlace | NoEnvelope

  /** `auto __local_<i> = ...`: the local, the type read, and for versioned
      members the value used when the stream has no more bytes. */
  datatype ReadLocal = ReadLocal(local: string, ty: string, fallback: Option<string>)

  datatype SkipPlan = SkipBySize | SkipEach(viewTypes: seq<string>)

  datatype Written = Written(member: string, ty: string)

  datatype Section =
    | SerializerDecl(fullName: string, templateParams: string)
    | ConstAlias(fullName: string, templateParams: string)
    | WriteDef(templateDecl: string, name: string, setSize: bool, written: seq<Written>)
    | ReadDef(templateDecl: string, name: string, envelope: ReadEnvelope, locals: seq<ReadLocal>, ctorArgs: seq<string>)
    | SkipDef(templateDecl: string, name: string, plan: SkipPlan)
    | EnumWriteDef(templateDecl: string, name: string, underlying: string)
    | EnumReadDef(templateDecl: string, name: string, underlying: string)

  /** The header (`hout`) and implementation (`cout`) streams. */
  datatype Out = Out(header: seq<Section>, impl: seq<Section>)

  const Empty := Out([], [])

  function Cat(a: Out, b: Out): Out
  {
    Out(a.header + b.header, a.impl + b.impl)
  }

  /** What the emitter reads from the rest of the compiler: the names of the
      local writable types (for `param_view_type`) and the types that appear
      somewhere with `const` (`types_with_const_appearances`). */
  datatype Ctx = Ctx(writable: set<string>, constTypes: set<string>)

  // ----- declare_methods ------------------------------------------------------

  function DeclareSections(name: string, templateParam: string, constTypes: set<string>): (r: seq<Section>)
    ensures |r| >= 1 && r[0] == SerializerDecl(name, templateParam)
    ensures ConstAlias(name, templateParam) in r <==> name in constTypes
    ensures |r| <= 2
  {
    [SerializerDecl(name, templateParam)] + (if name in constTypes then [ConstAlias(name, templateParam)] else [])
  }

  // ----- names -----------------------------------------------------------------

  /** The name handle_class declares: the qualified name, with `<T,U>` when
      the class has a template clause (`is not None`, unlike the metadata). */
  function ClassFullName(c: Decl): string
    requires c.ClassDef?
  {
    NsQualifiedName(c) + (if c.templateParams.Some? then "<" + Join(",", ParamNames(c.templateParams.value)) + ">" else "")
  }

  /** The name the three definitions are written for. */
  function ImplName(c: Decl): string
    requires c.ClassDef?
  {
    NsQualifiedName(c) + TemplateNamesSuffix(c)
  }

  /** The template parameters of the declaration: own, then the parent's. */
  function ClassTemplateParamsStr(c: Decl): string
    requires c.ClassDef?
  {
    TemplateParamsStr((if c.templateParams.Some? then c.templateParams.value else []) + c.meta.parentTemplateParams)
  }

  // ----- write ---------------------------------------------------------------

  /** One `serialize(buf, obj.<name>)` per data or function member, in order. */
  function WrittenOf(ms: seq<Decl>): (r: seq<Written>)
  {
    if ms == [] then []
    else WrittenOf(ms[..|ms| - 1]) + (if ms[|ms| - 1].Field? then [Written(ms[|ms| - 1].name, ParamType(ms[|ms| - 1].ty))] else [])
  }

  function WriteSection(c: Decl): Section
    requires c.ClassDef?
  {
    WriteDef(TemplateDeclaration(c), ImplName(c), !c.final, WrittenOf(c.members))
  }

  // ----- read ----------------------------------------------------------------

  function Envelope(c: Decl): ReadEnvelope
    requires c.ClassDef?
  {
    if c.members == [] then (if !c.final then SkipWhole else NoEnvelope)
    else if !c.final then Substream
    else InPlace
  }

  function LocalName(index: nat): string
  {
    "__local_" + NatToString(index)
  }

  /** The default of a versioned member before name resolution: the given
      default value when it is non-empty, else a value-initialised type. */
  function DefaultText(m: Decl): string
    requires m.Field?
  {
    if m.defaultValue.Some? && m.defaultValue.value != "" then m.defaultValue.value else ParamType(m.ty) + "()"
  }

  /** The read loop's state: the locals so far and `local_names`. */
  datatype ReadState = ReadState(locals: seq<ReadLocal>, localNames: map<string, string>)

  /** One iteration of the read loop for the member at `index`.  The member's
      own name is bound before its default is resolved. */
  function ReadStep(st: ReadState, m: Decl, index: nat): ReadState
  {
    if !m.Field? then st
    else
      var local := LocalName(index);
      var names := st.localNames[m.name := local];
      var dt := DefaultText(m);
      var fallback := if m.attribute.Some? then Some(if dt in names then names[dt] else dt) else None;
      ReadState(st.locals + [ReadLocal(local, ParamType(m.ty), fallback)], names)
  }

  /** The read loop after the first `i` members. */
  function ReadUpTo(ms: seq<Decl>, i: nat): ReadState
    requires i <= |ms|
  {
    if i == 0 then ReadState([], map[]) else ReadStep(ReadUpTo(ms, i - 1), ms[i - 1], i - 1)
  }

  function MoveArgs(ls: seq<ReadLocal>): (r: seq<string>)
    ensures |r| == |ls|
    ensures forall k :: 0 <= k < |ls| ==> r[k] == "std::move(" + ls[k].local + ")"
  {
    if ls == [] then [] else MoveArgs(ls[..|ls| - 1]) + ["std::move(" + ls[|ls| - 1].local + ")"]
  }

  function ReadSection(c: Decl): Section
    requires c.ClassDef?
  {
    var ls := ReadUpTo(c.members, |c.members|).locals;
    ReadDef(TemplateDeclaration(c), ImplName(c), Envelope(c), ls, MoveArgs(ls))
  }

  // ----- skip ------------------------------------------------------------------

  function ViewTypesOf(ms: seq<Decl>, writable: set<string>): seq<string>
  {
    if ms == [] then []
    else ViewTypesOf(ms[..|ms| - 1], writable) +
         (if ms[|ms| - 1].Field? then [ParamViewType(ms[|ms| - 1].ty, writable)] else [])
  }

  function SkipSection(c: Decl, writable: set<string>): Section
    requires c.ClassDef?
  {
    SkipDef(TemplateDeclaration(c), ImplName(c), if !c.final then SkipBySize else SkipEach(ViewTypesOf(c.members, writable)))
  }

  // ----- handle_enum / handle_class / handle_objects -------------------------

  function EnumOut(e: Decl, ctx: Ctx): Out
    requires e.EnumDef?
  {
    var name := NsQualifiedName(e);
    Out(DeclareSections(name, TemplateParamsStr(e.meta.parentTemplateParams), ctx.constTypes),
        [EnumWriteDef(TemplateDeclaration(e), name, e.underlyingType),
         EnumReadDef(TemplateDeclaration(e), name, e.underlyingType)])
  }

  /** The three definitions handle_class writes for a class itself. */
  function OwnImpl(c: Decl, ctx: Ctx): seq<Section>
    requires c.ClassDef?
  {
    [WriteSection(c), ReadSection(c), SkipSection(c, ctx.writable)]
  }

  /** A stub class emits nothing, not even for its nested types; otherwise
      the nested classes and enums come first, then the class's own
      declaration and definitions. */
  function ClassOut(c: Decl, ctx: Ctx): Out
    requires c.ClassDef?
    decreases c, 0
  {
    if c.stub then Empty
    else Cat(SubtypesOut(c.members, ctx), Out(DeclareSections(ClassFullName(c), ClassTemplateParamsStr(c), ctx.constTypes), OwnImpl(c, ctx)))
  }

  /** The loop over a class's members: classes and enums only. */
  function SubtypesOut(ms: seq<Decl>, ctx: Ctx): Out
    decreases ms, 1
  {
    if ms == [] then Empty else Cat(SubtypesOut(ms[..|ms| - 1], ctx), MemberOut(ms[|ms| - 1], ctx))
  }

  /** What the member loop emits for one member. */
  function MemberOut(m: Decl, ctx: Ctx): Out
    decreases m, 1
  {
    if m.ClassDef? then ClassOut(m, ctx) else if m.EnumDef? then EnumOut(m, ctx) else Empty
  }

  /** handle_objects: classes, enums, and namespaces recursively; anything
      else is reported on standard output and emits nothing. */
  function ObjectsOut(tree: seq<Decl>, ctx: Ctx): Out
    decreases tree, 1
  {
    if tree == [] then Empty
    else
      var obj := tree[|tree| - 1];
      Cat(ObjectsOut(tree[..|tree| - 1], ctx), ObjectOut(obj, ctx))
  }

  function ObjectOut(obj: Decl, ctx: Ctx): Out
    decreases obj, 2
  {
    match obj
    case ClassDef(_, _, _, _, _, _, _) => ClassOut(obj, ctx)
    case EnumDef(_, _, _, _) => EnumOut(obj, ctx)
    case NamespaceDef(_, ms) => ObjectsOut(ms, ctx)
    case Field(_, _, _, _, _) => Empty
  }

  // ----- the emitter ---------------------------------------------------------

  class Emitter {
    const ctx: Ctx
    var hout: seq<Section>
    var cout: seq<Section>

    constructor (ctx: Ctx)
      ensures this.ctx == ctx && hout == [] && cout == []
    {
      this.ctx := ctx;
      hout := [];
      cout := [];
    }

    method DeclareMethods(name: string, templateParam: string)
      modifies this
      ensures hout == old(hout) + DeclareSections(name, templateParam, ctx.constTypes)
      ensures cout == old(cout)
    {
      hout := hout + [SerializerDecl(name, templateParam)];
      if name in ctx.constTypes {
        hout := hout + [ConstAlias(name, templateParam)];
      }
    }

    method SerializerWriteImpl(c: Decl)
      requires c.ClassDef?
      modifies this
      ensures cout == old(cout) + [WriteSection(c)]
      ensures hout == old(hout)
    {
      var written := [];
      for i := 0 to |c.members|
        invariant written == WrittenOf(c.members[..i])
      {
        var m := c.members[i];
        assert c.members[..i + 1][..i] == c.members[..i];
        if m.Field? {
          written := written + [Written(m.name, ParamType(m.ty))];
        }
      }
      assert c.members[..|c.members|] == c.members;
      cout := cout + [WriteDef(TemplateDeclaration(c), ImplName(c), !c.final, written)];
    }

    method SerializerReadImpl(c: Decl)
      requires c.ClassDef?
      modifies this
      ensures cout == old(cout) + [ReadSection(c)]
      ensures hout == old(hout)
    {
      var envelope := if c.members == [] then (if !c.final then SkipWhole else NoEnvelope)
                      else if !c.final then Substream else InPlace;
      var locals: seq<ReadLocal> := [];
      var params: seq<string> := [];
      var localNames: map<string, string> := map[];
      for index := 0 to |c.members|
        invariant ReadState(locals, localNames) == ReadUpTo(c.members, index)
        invariant params == MoveArgs(locals)
      {
        var param := c.members[index];
        if !param.Field? {
          continue;
        }
        var localParam := "__local_" + NatToString(index);
        localNames := localNames[param.name := localParam];
        var fallback := None;
        if param.attribute.Some? {
          var deflt := ParamType(param.ty) + "()";
          if param.defaultValue.Some? && param.defaultValue.value != "" {
            deflt := param.defaultValue.value;
          }
          if deflt in localNames {
            deflt := localNames[deflt];
          }
          fallback := Some(deflt);
        }
        locals := locals + [ReadLocal(localParam, ParamType(param.ty), fallback)];
        params := params + ["std::move(" + localParam + ")"];
      }
      cout := cout + [ReadDef(TemplateDeclaration(c), ImplName(c), envelope, locals, params)];
    }

    method SerializerSkipImpl(c: Decl)
      requires c.ClassDef?
      modifies this
      ensures cout == old(cout) + [SkipSection(c, ctx.writable)]
      ensures hout == old(hout)
    {
      if !c.final {
        cout := cout + [SkipDef(TemplateDeclaration(c), ImplName(c), SkipBySize)];
        return;
      }
      var views := [];
      for i := 0 to |c.members|
        invariant views == ViewTypesOf(c.members[..i], ctx.writable)
      {
        var m := c.members[i];
        assert c.members[..i + 1][..i] == c.members[..i];
        if m.Field? {
          views := views + [ParamViewType(m.ty, ctx.writable)];
        }
      }
      assert c.members[..|c.members|] == c.members;
      cout := cout + [SkipDef(TemplateDeclaration(c), ImplName(c), SkipEach(views))];
    }

    method HandleEnum(e: Decl)
      requires e.EnumDef?
      modifies this
      ensures hout == old(hout) + EnumOut(e, ctx).header
      ensures cout == old(cout) + EnumOut(e, ctx).impl
    {
      var name := NsQualifiedName(e);
      DeclareMethods(name, TemplateParamsStr(e.meta.parentTemplateParams));
      cout := cout + [EnumWriteDef(TemplateDeclaration(e), name, e.underlyingType)];
      cout := cout + [EnumReadDef(TemplateDeclaration(e), name, e.underlyingType)];
    }

    method HandleClass(c: Decl)
      requires c.ClassDef?
      modifies this
      ensures hout == old(hout) + ClassOut(c, ctx).header
      ensures cout == old(cout) + ClassOut(c, ctx).impl
      decreases c, 1
    {
      if c.stub {
        return;
      }
      ghost var h0, c0 := hout, cout;
      HandleSubtypes(c.members);
      ghost var sub := SubtypesOut(c.members, ctx);
      ghost var c2 := cout;
      DeclareMethods(ClassFullName(c), ClassTemplateParamsStr(c));
      SerializerWriteImpl(c);
      SerializerReadImpl(c);
      SerializerSkipImpl(c);
      ThreeAppended(c2, WriteSection(c), ReadSection(c), SkipSection(c, ctx.writable));
      ClassOutParts(c, ctx);
      AppendAssoc(h0, sub.header, DeclareSections(ClassFullName(c), ClassTemplateParamsStr(c), ctx.constTypes));
      AppendAssoc(c0, sub.impl, OwnImpl(c, ctx));
    }

    /** The member loop of handle_class: nested classes and enums, in order. */
    method HandleSubtypes(ms: seq<Decl>)
      modifies this
      ensures hout == old(hout) + SubtypesOut(ms, ctx).header
      ensures cout == old(cout) + SubtypesOut(ms, ctx).impl
      decreases ms, 0
    {
      ghost var h0, c0 := hout, cout;
      for i := 0 to |ms|
        invariant hout == h0 + SubtypesOut(ms[..i], ctx).header
        invariant cout == c0 + SubtypesOut(ms[..i], ctx).impl
      {
        var member := ms[i];
        ghost var before := SubtypesOut(ms[..i], ctx);
        ghost var step := MemberOut(member, ctx);
        SubtypesStep(ms, i, ctx);
        ghost var h1, c1 := hout, cout;
        if member.ClassDef? {
          HandleClass(member);
        } else if member.EnumDef? {
          HandleEnum(member);
        }
        assert hout == h1 + step.header && cout == c1 + step.impl;
        AppendAssoc(h0, before.header, step.header);
        AppendAssoc(c0, before.impl, step.impl);
      }
      assert ms[..|ms|] == ms;
    }

    method HandleObjects(tree: seq<Decl>)
      modifies this
      ensures hout == old(hout) + ObjectsOut(tree, ctx).header
      ensures cout == old(cout) + ObjectsOut(tree, ctx).impl
      decreases tree
    {
      ghost var h0, c0 := hout, cout;
      for i := 0 to |tree|
        invariant hout == h0 + ObjectsOut(tree[..i], ctx).header
        invariant cout == c0 + ObjectsOut(tree[..i], ctx).impl
      {
        var obj := tree[i];
        ghost var before := ObjectsOut(tree[..i], ctx);
        ObjectsStep(tree, i, ctx);
        ghost var h1, c1 := hout, cout;
        if obj.ClassDef? {
          HandleClass(obj);
        } else if obj.EnumDef? {
          HandleEnum(obj);
        } else if obj.NamespaceDef? {
          HandleObjects(obj.members);
        }
        AppendAssoc(h0, before.header, hout[|h1|..]);
        AppendAssoc(c0, before.impl, cout[|c1|..]);
      }
      assert tree[..|tree|] == tree;
    }
  }

  lemma ThreeAppended(s: seq<Section>, a: Section, b: Section, c: Section)
    ensures s + [a] + [b] + [c] == s + [a, b, c]
  {
  }

  lemma AppendAssoc(a: seq<Section>, b: seq<Section>, c: seq<Section>)
    ensures a + b + c == a + (b + c)
  {
  }

  lemma ClassOutParts(c: Decl, ctx: Ctx)
    requires c.ClassDef? && !c.stub
    ensures ClassOut(c, ctx).header ==
            SubtypesOut(c.members, ctx).header + DeclareSections(ClassFullName(c), ClassTemplateParamsStr(c), ctx.constTypes)
    ensures ClassOut(c, ctx).impl == SubtypesOut(c.members, ctx).impl + OwnImpl(c, ctx)
  {
  }

  lemma SubtypesStep(ms: seq<Decl>, i: nat, ctx: Ctx)
    requires i < |ms|
    ensures SubtypesOut(ms[..i + 1], ctx) == Cat(SubtypesOut(ms[..i], ctx), MemberOut(ms[i], ctx))
  {
    assert ms[..i + 1][..i] == ms[..i];
  }

  lemma ObjectsStep(tree: seq<Decl>, i: nat, ctx: Ctx)
    requires i < |tree|
    ensures ObjectsOut(tree[..i + 1], ctx) == Cat(ObjectsOut(tree[..i], ctx), ObjectOut(tree[i], ctx))
  {
    assert tree[..i + 1][..i] == tree[..i];
  }

  // ----- properties ----------------------------------------------------------

  /** The positions, among all members, of the data and function members. */
  function FieldPositions(ms: seq<Decl>, i: nat): (r: seq<nat>)
    requires i <= |ms|
    ensures forall k :: 0 <= k < |r| ==> r[k] < i && ms[r[k]].Field?
    ensures forall k, l :: 0 <= k < l < |r| ==> r[k] < r[l]
  {
    if i == 0 then [] else FieldPositions(ms, i - 1) + (if ms[i - 1].Field? then [i - 1] else [])
  }

  lemma LocalNameInjective(p: nat, q: nat)
    requires LocalName(p) == LocalName(q)
    ensures p == q
  {
    var pre := "__local_";
    assert NatToString(p) == LocalName(p)[|pre|..];
    assert NatToString(q) == LocalName(q)[|pre|..];
    NatToStringRoundTrip(p);
    NatToStringRoundTrip(q);
  }

  /** What `read` reads agrees with what `write` writes: one local per data or
      function member, in member order and of the written type; the local of
      the k-th such member is named after its position among all members; a
      fallback exists exactly for versioned members. */
  lemma ReadUpToShape(ms: seq<Decl>, i: nat)
    requires i <= |ms|
    ensures var ls := ReadUpTo(ms, i).locals;
            var ps := FieldPositions(ms, i);
            |ls| == |ps| == |WrittenOf(ms[..i])| &&
            (forall k :: 0 <= k < |ls| ==> ls[k].ty == WrittenOf(ms[..i])[k].ty) &&
            (forall k :: 0 <= k < |ls| ==> ls[k].local == LocalName(ps[k])) &&
            (forall k :: 0 <= k < |ls| ==> (ls[k].fallback.Some? <==> ms[ps[k]].attribute.Some?))
  {
    ReadCounts(ms, i);
    ReadTypes(ms, i);
    var ls := ReadUpTo(ms, i).locals;
    forall k | 0 <= k < |ls| ensures ls[k] == LocalFor(ms, FieldPositions(ms, i)[k]) {
      ReadLocalAt(ms, i, k);
    }
  }

  lemma {:induction false} ReadCounts(ms: seq<Decl>, i: nat)
    requires i <= |ms|
    ensures |ReadUpTo(ms, i).locals| == |FieldPositions(ms, i)| == |WrittenOf(ms[..i])|
  {
    if i > 0 {
      ReadCounts(ms, i - 1);
      assert ms[..i][..i - 1] == ms[..i - 1];
    }
  }

  lemma {:induction false} ReadTypes(ms: seq<Decl>, i: nat)
    requires i <= |ms|
    ensures |ReadUpTo(ms, i).locals| == |WrittenOf(ms[..i])|
    ensures forall k :: 0 <= k < |ReadUpTo(ms, i).locals| ==> ReadUpTo(ms, i).locals[k].ty == WrittenOf(ms[..i])[k].ty
  {
    ReadCounts(ms, i);
    if i > 0 {
      ReadTypes(ms, i - 1);
      assert ms[..i][..i - 1] == ms[..i - 1];
    }
  }

  /** The locals of one read are pairwise distinct. */
  lemma ReadLocalsDistinct(c: Decl)
    requires c.ClassDef?
    ensures var ls := ReadSection(c).locals;
            forall k, l :: 0 <= k < l < |ls| ==> ls[k].local != ls[l].local
  {
    var ls := ReadSection(c).locals;
    var ps := FieldPositions(c.members, |c.members|);
    ReadUpToShape(c.members, |c.members|);
    forall k, l | 0 <= k < l < |ls| ensures ls[k].local != ls[l].local {
      if ls[k].local == ls[l].local {
        LocalNameInjective(ps[k], ps[l]);
      }
    }
  }

  /** `local_names` after the first `i` members. */
  function NamesAfter(ms: seq<Decl>, i: nat): map<string, string>
    requires i <= |ms|
  {
    if i == 0 then map[]
    else if ms[i - 1].Field? then NamesAfter(ms, i - 1)[ms[i - 1].name := LocalName(i - 1)]
    else NamesAfter(ms, i - 1)
  }

  lemma {:induction false} NamesAfterIsLocalNames(ms: seq<Decl>, i: nat)
    requires i <= |ms|
    ensures ReadUpTo(ms, i).localNames == NamesAfter(ms, i)
  {
    if i > 0 {
      NamesAfterIsLocalNames(ms, i - 1);
    }
  }

  /** A name is bound iff some member read so far has it, and it is bound to
      the local of the last such member. */
  lemma {:induction false} NamesAfterContents(ms: seq<Decl>, i: nat, x: string)
    requires i <= |ms|
    ensures x in NamesAfter(ms, i) <==> exists j :: 0 <= j < i && ms[j].Field? && ms[j].name == x
    ensures x in NamesAfter(ms, i) ==>
              exists j :: 0 <= j < i && ms[j].Field? && ms[j].name == x && NamesAfter(ms, i)[x] == LocalName(j) &&
                          forall q :: j < q < i ==> !(ms[q].Field? && ms[q].name == x)
  {
    if i > 0 {
      NamesAfterContents(ms, i - 1, x);
      var m := ms[i - 1];
      if m.Field? && m.name == x {
        assert NamesAfter(ms, i)[x] == LocalName(i - 1);
      } else if x in NamesAfter(ms, i - 1) {
        var j :| 0 <= j < i - 1 && ms[j].Field? && ms[j].name == x && NamesAfter(ms, i - 1)[x] == LocalName(j) &&
                 forall q :: j < q < i - 1 ==> !(ms[q].Field? && ms[q].name == x);
        assert NamesAfter(ms, i)[x] == LocalName(j);
      }
    }
  }

  /** The local the read loop declares for the member at position `p`. */
  function LocalFor(ms: seq<Decl>, p: nat): ReadLocal
    requires p < |ms| && ms[p].Field?
  {
    var dt := DefaultText(ms[p]);
    var names := NamesAfter(ms, p + 1);
    ReadLocal(LocalName(p), ParamType(ms[p].ty),
              if ms[p].attribute.Some? then Some(if dt in names then names[dt] else dt) else None)
  }

  /** The k-th local is the one declared for the k-th data or function member. */
  lemma {:induction false} ReadLocalAt(ms: seq<Decl>, i: nat, k: nat)
    requires i <= |ms| && k < |ReadUpTo(ms, i).locals|
    ensures |ReadUpTo(ms, i).locals| == |FieldPositions(ms, i)|
    ensures ReadUpTo(ms, i).locals[k] == LocalFor(ms, FieldPositions(ms, i)[k])
  {
    ReadCounts(ms, i);
    ReadCounts(ms, i - 1);
    var prev := ReadUpTo(ms, i - 1);
    if k < |prev.locals| {
      ReadLocalAt(ms, i - 1, k);
    } else {
      NamesAfterIsLocalNames(ms, i - 1);
    }
  }

  /** A versioned member falls back to the local of the last member at or
      before it whose name is its default text (itself included, as the
      member's own name is bound first), and to the default text when no
      member has that name. */
  ghost predicate ResolvedFallback(ms: seq<Decl>, p: nat, fb: Option<string>)
    requires p < |ms| && ms[p].Field?
  {
    var dt := DefaultText(ms[p]);
    (fb.Some? <==> ms[p].attribute.Some?) &&
    (fb.Some? && !(exists j :: 0 <= j <= p && ms[j].Field? && ms[j].name == dt) ==> fb.value == dt) &&
    (fb.Some? && (exists j :: 0 <= j <= p && ms[j].Field? && ms[j].name == dt) ==>
       exists j :: 0 <= j <= p && ms[j].Field? && ms[j].name == dt && fb.value == LocalName(j) &&
                   forall q :: j < q <= p ==> !(ms[q].Field? && ms[q].name == dt))
  }

  lemma LocalForFallback(ms: seq<Decl>, p: nat)
    requires p < |ms| && ms[p].Field?
    ensures ResolvedFallback(ms, p, LocalFor(ms, p).fallback)
  {
    NamesAfterContents(ms, p + 1, DefaultText(ms[p]));
  }

  lemma FallbackResolution(c: Decl, k: nat)
    requires c.ClassDef? && k < |ReadSection(c).locals|
    ensures |ReadSection(c).locals| == |FieldPositions(c.members, |c.members|)|
    ensures ResolvedFallback(c.members, FieldPositions(c.members, |c.members|)[k], ReadSection(c).locals[k].fallback)
  {
    var ms := c.members;
    ReadLocalAt(ms, |ms|, k);
    LocalForFallback(ms, FieldPositions(ms, |ms|)[k]);
  }

  /** The size envelope agrees across the three generators: `write` emits a
      size exactly when `read` consumes one and `skip` skips by it, which is
      exactly when the class is not final. */
  lemma EnvelopeAgreement(c: Decl, writable: set<string>)
    requires c.ClassDef?
    ensures WriteSection(c).setSize <==> !c.final
    ensures (ReadSection(c).envelope == SkipWhole || ReadSection(c).envelope == Substream) <==> !c.final
    ensures SkipSection(c, writable).plan == SkipBySize <==> !c.final
    ensures SkipSection(c, writable).plan.SkipEach? ==> |SkipSection(c, writable).plan.viewTypes| == |WrittenOf(c.members)|
  {
    ViewTypesCount(c.members, writable);
  }

  lemma {:induction false} ViewTypesCount(ms: seq<Decl>, writable: set<string>)
    ensures |ViewTypesOf(ms, writable)| == |WrittenOf(ms)|
  {
    if ms != [] {
      ViewTypesCount(ms[..|ms| - 1], writable);
    }
  }

  // ----- which declarations are emitted ----------------------------------------

  /** A path below a class that handle_class follows: through non-stub
      classes, ending at a non-stub class or an enum. */
  predicate InClassPath(ms: seq<Decl>, path: seq<nat>)
    decreases path
  {
    |path| > 0 && path[0] < |ms| &&
    if |path| == 1 then (ms[path[0]].ClassDef? && !ms[path[0]].stub) || ms[path[0]].EnumDef?
    else ms[path[0]].ClassDef? && !ms[path[0]].stub && InClassPath(ms[path[0]].members, path[1..])
  }

  /** A path handle_objects follows: through namespaces, then as InClassPath
      once it enters a class. */
  predicate EmitPath(tree: seq<Decl>, path: seq<nat>)
    decreases path
  {
    |path| > 0 && path[0] < |tree| &&
    if |path| == 1 then (tree[path[0]].ClassDef? && !tree[path[0]].stub) || tree[path[0]].EnumDef?
    else if tree[path[0]].NamespaceDef? then EmitPath(tree[path[0]].members, path[1..])
    else tree[path[0]].ClassDef? && !tree[path[0]].stub && InClassPath(tree[path[0]].members, path[1..])
  }

  /** The sections handle_class or handle_enum writes for the declaration itself. */
  predicate SectionsPresent(d: Decl, o: Out, ctx: Ctx)
    requires d.ClassDef? || d.EnumDef?
  {
    if d.ClassDef? then
      SerializerDecl(ClassFullName(d), ClassTemplateParamsStr(d)) in o.header &&
      WriteSection(d) in o.impl && ReadSection(d) in o.impl && SkipSection(d, ctx.writable) in o.impl
    else
      SerializerDecl(NsQualifiedName(d), TemplateParamsStr(d.meta.parentTemplateParams)) in o.header &&
      EnumWriteDef(TemplateDeclaration(d), NsQualifiedName(d), d.underlyingType) in o.impl &&
      EnumReadDef(TemplateDeclaration(d), NsQualifiedName(d), d.underlyingType) in o.impl
  }

  lemma SectionsInCat(d: Decl, a: Out, b: Out, ctx: Ctx)
    requires d.ClassDef? || d.EnumDef?
    requires SectionsPresent(d, a, ctx) || SectionsPresent(d, b, ctx)
    ensures SectionsPresent(d, Cat(a, b), ctx)
  {
  }

  /** A declaration's sections survive being emitted among others. */
  lemma SubtypesKeep(ms: seq<Decl>, i: nat, d: Decl, ctx: Ctx)
    requires i < |ms| && (d.ClassDef? || d.EnumDef?)
    requires SectionsPresent(d, MemberOut(ms[i], ctx), ctx)
    ensures SectionsPresent(d, SubtypesOut(ms, ctx), ctx)
  {
    SubtypesDecompose(ms, i, ctx);
    var a, b :| SubtypesOut(ms, ctx) == Cat(Cat(a, MemberOut(ms[i], ctx)), b);
    SectionsInCat(d, a, MemberOut(ms[i], ctx), ctx);
    SectionsInCat(d, Cat(a, MemberOut(ms[i], ctx)), b, ctx);
  }

  lemma {:induction false} SubtypesDecompose(ms: seq<Decl>, i: nat, ctx: Ctx)
    requires i < |ms|
    ensures exists a, b :: SubtypesOut(ms, ctx) == Cat(Cat(a, MemberOut(ms[i], ctx)), b)
    decreases |ms|
  {
    var n := |ms| - 1;
    SubtypesStep(ms, n, ctx);
    assert ms[..n + 1] == ms;
    var last := MemberOut(ms[n], ctx);
    if i == n {
      CatEmpty(Cat(SubtypesOut(ms[..n], ctx), last));
    } else {
      assert ms[..n][i] == ms[i];
      SubtypesDecompose(ms[..n], i, ctx);
      var a, b :| SubtypesOut(ms[..n], ctx) == Cat(Cat(a, MemberOut(ms[i], ctx)), b);
      CatAssoc(Cat(a, MemberOut(ms[i], ctx)), b, last);
    }
  }

  lemma CatEmpty(o: Out)
    ensures Cat(o, Empty) == o
  {
    assert o.header + [] == o.header && o.impl + [] == o.impl;
  }

  lemma CatAssoc(x: Out, y: Out, z: Out)
    ensures Cat(Cat(x, y), z) == Cat(x, Cat(y, z))
  {
    AppendAssoc(x.header, y.header, z.header);
    AppendAssoc(x.impl, y.impl, z.impl);
  }

  lemma ObjectsKeep(tree: seq<Decl>, i: nat, d: Decl, ctx: Ctx)
    requires i < |tree| && (d.ClassDef? || d.EnumDef?)
    requires SectionsPresent(d, ObjectOut(tree[i], ctx), ctx)
    ensures SectionsPresent(d, ObjectsOut(tree, ctx), ctx)
  {
    ObjectsDecompose(tree, i, ctx);
    var a, b :| ObjectsOut(tree, ctx) == Cat(Cat(a, ObjectOut(tree[i], ctx)), b);
    SectionsInCat(d, a, ObjectOut(tree[i], ctx), ctx);
    SectionsInCat(d, Cat(a, ObjectOut(tree[i], ctx)), b, ctx);
  }

  lemma {:induction false} ObjectsDecompose(tree: seq<Decl>, i: nat, ctx: Ctx)
    requires i < |tree|
    ensures exists a, b :: ObjectsOut(tree, ctx) == Cat(Cat(a, ObjectOut(tree[i], ctx)), b)
    decreases |tree|
  {
    var n := |tree| - 1;
    ObjectsStep(tree, n, ctx);
    assert tree[..n + 1] == tree;
    var last := ObjectOut(tree[n], ctx);
    if i == n {
      CatEmpty(Cat(ObjectsOut(tree[..n], ctx), last));
    } else {
      assert tree[..n][i] == tree[i];
      ObjectsDecompose(tree[..n], i, ctx);
      var a, b :| ObjectsOut(tree[..n], ctx) == Cat(Cat(a, ObjectOut(tree[i], ctx)), b);
      CatAssoc(Cat(a, ObjectOut(tree[i], ctx)), b, last);
    }
  }

  /** A non-stub class or an enum emits its own sections. */
  lemma OwnSectionsPresent(d: Decl, ctx: Ctx)
    requires (d.ClassDef? && !d.stub) || d.EnumDef?
    ensures SectionsPresent(d, MemberOut(d, ctx), ctx)
    ensures ObjectOut(d, ctx) == MemberOut(d, ctx)
  {
    if d.ClassDef? {
      ClassOutParts(d, ctx);
    }
  }

  /** A non-stub class passes on the sections of its nested types. */
  lemma NestedSectionsPresent(m: Decl, d: Decl, ctx: Ctx)
    requires m.ClassDef? && !m.stub && (d.ClassDef? || d.EnumDef?)
    requires SectionsPresent(d, SubtypesOut(m.members, ctx), ctx)
    ensures SectionsPresent(d, MemberOut(m, ctx), ctx)
    ensures SectionsPresent(d, ObjectOut(m, ctx), ctx)
  {
    ClassOutParts(m, ctx);
  }

  /** Every class or enum reached through namespaces and non-stub classes
      gets its declaration and its definitions. */
  lemma {:induction false} InClassEmitted(ms: seq<Decl>, path: seq<nat>, ctx: Ctx)
    requires InClassPath(ms, path)
    ensures Lookup(ms, path).Some? && (Lookup(ms, path).value.ClassDef? || Lookup(ms, path).value.EnumDef?)
    ensures SectionsPresent(Lookup(ms, path).value, SubtypesOut(ms, ctx), ctx)
    decreases path
  {
    var m := ms[path[0]];
    if |path| == 1 {
      OwnSectionsPresent(m, ctx);
      SubtypesKeep(ms, path[0], m, ctx);
    } else {
      InClassEmitted(m.members, path[1..], ctx);
      var d := Lookup(m.members, path[1..]).value;
      NestedSectionsPresent(m, d, ctx);
      SubtypesKeep(ms, path[0], d, ctx);
    }
  }

  lemma {:induction false} Emitted(tree: seq<Decl>, path: seq<nat>, ctx: Ctx)
    requires EmitPath(tree, path)
    ensures Lookup(tree, path).Some? && (Lookup(tree, path).value.ClassDef? || Lookup(tree, path).value.EnumDef?)
    ensures SectionsPresent(Lookup(tree, path).value, ObjectsOut(tree, ctx), ctx)
    decreases path
  {
    var obj := tree[path[0]];
    if |path| == 1 {
      OwnSectionsPresent(obj, ctx);
      ObjectsKeep(tree, path[0], obj, ctx);
    } else if obj.NamespaceDef? {
      Emitted(obj.members, path[1..], ctx);
      var d := Lookup(obj.members, path[1..]).value;
      ObjectsKeep(tree, path[0], d, ctx);
    } else {
      InClassEmitted(obj.members, path[1..], ctx);
      var d := Lookup(obj.members, path[1..]).value;
      NestedSectionsPresent(obj, d, ctx);
      ObjectsKeep(tree, path[0], d, ctx);
    }
  }

  // ----- load_file -------------------------------------------------------------

  /** The classes attributed `[[writable]]` that handle_types registers. */
  function WritableNames(tree: seq<Decl>): set<string>
  {
    RegisterAll(map[], WritableOnly(ClassesIn(tree))).Keys
  }

  /** What load_file emits for a parsed file: nothing for an empty parse,
      otherwise the annotated tree's objects, with the writable types known
      before any object is emitted. */
  function LoadedOut(tree: seq<Decl>, constTypes: set<string>): Out
  {
    if tree == [] then Empty
    else
      var annotated := SetupAdditionalMetadata(tree);
      ObjectsOut(annotated, Ctx(WritableNames(annotated), constTypes))
  }

  /** load_file's pipeline: metadata, then type registration, then emission.
      A parse error propagates as pyparsing's exception. */
  method LoadFile(o: ParseOutcome, constTypes: set<string>) returns (r: Result<Out>)
    ensures o.ParseFailure? ==> r == Err("ParseException")
    ensures o.Parsed? ==> r == Ok(LoadedOut(o.tree, constTypes))
  {
    if o.ParseFailure? {
      return Err("ParseException");
    }
    var data := o.tree;
    if data == [] {
      return Ok(Empty);
    }
    var annotated := SetupAdditionalMetadata(data);
    var compiler := new Compiler();
    compiler.HandleTypes(annotated);
    var emitter := new Emitter(Ctx(compiler.localWritableTypes.Keys, constTypes));
    assert compiler.localWritableTypes.Keys == WritableNames(annotated);
    emitter.HandleObjects(annotated);
    assert emitter.hout == ObjectsOut(annotated, emitter.ctx).header;
    assert emitter.cout == ObjectsOut(annotated, emitter.ctx).impl;
    return Ok(Out(emitter.hout, emitter.cout));
  }

  /** Every class or enum of the file reached through namespaces and
      non-stub classes has its declaration and definitions in the output. */
  lemma LoadedEmitsAll(tree: seq<Decl>, path: seq<nat>, constTypes: set<string>)
    requires EmitPath(SetupAdditionalMetadata(tree), path)
    ensures var d := Lookup(SetupAdditionalMetadata(tree), path);
            d.Some? && (d.value.ClassDef? || d.value.EnumDef?) &&
            SectionsPresent(d.value, LoadedOut(tree, constTypes), Ctx(WritableNames(SetupAdditionalMetadata(tree)), constTypes))
  {
    var annotated := SetupAdditionalMetadata(tree);
    Emitted(annotated, path, Ctx(WritableNames(annotated), constTypes));
  }
}
