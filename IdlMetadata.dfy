/** setup_additional_metadata of idl-compiler.py: every class and enum
    learns its namespace context (the enclosing namespaces and class scopes,
    outermost first) and the template parameters of its parent scope.  The
    Python code assigns these fields on the AST nodes in place; here the pass
    returns the annotated tree, and the strings it caches on a node are
    functions of the node and its metadata. */
module IdlMetadata {
  import opened Util
  import opened IdlTypes

  // ----- template parameter spellings ---------------------------------------

  function ParamDecls(ps: seq<ClassTemplateParam>): (r: seq<string>)
    ensures |r| == |ps|
    ensures forall i :: 0 <= i < |ps| ==> r[i] == ps[i].typename + " " + ps[i].name
  {
    if ps == [] then [] else [ps[0].typename + " " + ps[0].name] + ParamDecls(ps[1..])
  }

  function ParamNames(ps: seq<ClassTemplateParam>): (r: seq<string>)
    ensures |r| == |ps|
    ensures forall i :: 0 <= i < |ps| ==> r[i] == ps[i].name
  {
    if ps == [] then [] else [ps[0].name] + ParamNames(ps[1..])
  }

  /** template_params_str: "" for no parameters, else "typename name, ...". */
  function TemplateParamsStr(ps: seq<ClassTemplateParam>): string
  {
    if ps == [] then "" else Join(", ", ParamDecls(ps))
  }

  /** `<T,U>` for a class with template parameters, "" otherwise
      (`template_param_names_str`, and the suffix of `current_scope`). */
  function TemplateNamesSuffix(c: Decl): string
    requires c.ClassDef?
  {
    if OwnTemplateParams(c) == [] then "" else "<" + Join(",", ParamNames(OwnTemplateParams(c))) + ">"
  }

  /** The scope name a class contributes to the namespace context of its members. */
  function CurrentScope(c: Decl): string
    requires c.ClassDef?
  {
    c.name + TemplateNamesSuffix(c)
  }

  /** The parent template parameters handed to a class's members: its
      parent's followed by its own when it has any, and none otherwise. */
  function NestedParams(c: Decl, parent: seq<ClassTemplateParam>): seq<ClassTemplateParam>
    requires c.ClassDef?
  {
    if OwnTemplateParams(c) == [] then [] else parent + OwnTemplateParams(c)
  }

  /** `template_declaration` as setup_additional_metadata caches it. */
  function TemplateDeclaration(d: Decl): (r: string)
    requires d.ClassDef? || d.EnumDef?
    ensures d.EnumDef? ==> (r == "" <==> d.meta.parentTemplateParams == [])
    ensures d.ClassDef? ==> (r == "" <==> OwnTemplateParams(d) == [])
  {
    if d.EnumDef? then
      (if d.meta.parentTemplateParams == [] then ""
       else "template <" + TemplateParamsStr(d.meta.parentTemplateParams) + ">")
    else if OwnTemplateParams(d) == [] then ""
    else "template <" + TemplateParamsStr(OwnTemplateParams(d) + d.meta.parentTemplateParams) + ">"
  }

  /** ns_qualified_name: the context joined by "::" in front of the name. */
  function NsQualifiedName(d: Decl): (r: string)
    requires d.ClassDef? || d.EnumDef?
    ensures d.meta.nsContext == [] ==> r == d.name
  {
    if d.meta.nsContext == [] then d.name else Join("::", d.meta.nsContext) + "::" + d.name
  }

  // ----- the pass -----------------------------------------------------------

  function Annotate(tree: seq<Decl>, ns: seq<string>, parent: seq<ClassTemplateParam>): seq<Decl>
    decreases tree, 0
  {
    seq(|tree|, i requires 0 <= i < |tree| => AnnotateDecl(tree[i], ns, parent))
  }

  /** A namespace resets the parent template parameters; a class passes its
      scope and NestedParams to its members; members are left as they are. */
  function AnnotateDecl(obj: Decl, ns: seq<string>, parent: seq<ClassTemplateParam>): (r: Decl)
    ensures r.NamespaceDef? == obj.NamespaceDef? && r.EnumDef? == obj.EnumDef? && r.ClassDef? == obj.ClassDef?
    ensures r.name == obj.name
    decreases obj, 1
  {
    match obj
    case NamespaceDef(n, ms) => NamespaceDef(n, Annotate(ms, ns + [n], []))
    case EnumDef(n, u, vs, _) => EnumDef(n, u, vs, Meta(ns, parent))
    case ClassDef(n, ms, f, st, at, tp, _) =>
      ClassDef(n, Annotate(ms, ns + [CurrentScope(obj)], NestedParams(obj, parent)), f, st, at, tp, Meta(ns, parent))
    case Field(_, _, _, _, _) => obj
  }

  // ----- shape: nothing but the metadata changes -------------------------------

  function Erase(tree: seq<Decl>): seq<Decl>
    decreases tree, 0
  {
    seq(|tree|, i requires 0 <= i < |tree| => EraseDecl(tree[i]))
  }

  function EraseDecl(obj: Decl): Decl
    decreases obj, 1
  {
    match obj
    case NamespaceDef(n, ms) => NamespaceDef(n, Erase(ms))
    case EnumDef(n, u, vs, _) => EnumDef(n, u, vs, NoMeta)
    case ClassDef(n, ms, f, st, at, tp, _) => ClassDef(n, Erase(ms), f, st, at, tp, NoMeta)
    case Field(_, _, _, _, _) => obj
  }

  /** The pass changes metadata only: names, members, flags and types stay. */
  lemma {:induction false} AnnotateKeepsShape(tree: seq<Decl>, ns: seq<string>, parent: seq<ClassTemplateParam>)
    ensures Erase(Annotate(tree, ns, parent)) == Erase(tree)
    decreases tree, 0
  {
    forall i | 0 <= i < |tree|
      ensures EraseDecl(Annotate(tree, ns, parent)[i]) == EraseDecl(tree[i])
    {
      AnnotateDeclKeepsShape(tree[i], ns, parent);
    }
  }

  lemma {:induction false} AnnotateDeclKeepsShape(obj: Decl, ns: seq<string>, parent: seq<ClassTemplateParam>)
    ensures EraseDecl(AnnotateDecl(obj, ns, parent)) == EraseDecl(obj)
    decreases obj, 1
  {
    match obj
    case NamespaceDef(n, ms) => AnnotateKeepsShape(ms, ns + [n], []);
    case EnumDef(_, _, _, _) =>
    case ClassDef(_, ms, _, _, _, _, _) => AnnotateKeepsShape(ms, ns + [CurrentScope(obj)], NestedParams(obj, parent));
    case Field(_, _, _, _, _) =>
  }

  /** The result depends on the shape of the tree only, not on metadata
      already present. */
  lemma {:induction false} AnnotateIgnoresOldMeta(tree: seq<Decl>, ns: seq<string>, parent: seq<ClassTemplateParam>)
    ensures Annotate(Erase(tree), ns, parent) == Annotate(tree, ns, parent)
    decreases tree, 0
  {
    forall i | 0 <= i < |tree|
      ensures AnnotateDecl(Erase(tree)[i], ns, parent) == AnnotateDecl(tree[i], ns, parent)
    {
      AnnotateDeclIgnoresOldMeta(tree[i], ns, parent);
    }
  }

  lemma {:induction false} AnnotateDeclIgnoresOldMeta(obj: Decl, ns: seq<string>, parent: seq<ClassTemplateParam>)
    ensures AnnotateDecl(EraseDecl(obj), ns, parent) == AnnotateDecl(obj, ns, parent)
    decreases obj, 1
  {
    match obj
    case NamespaceDef(n, ms) => AnnotateIgnoresOldMeta(ms, ns + [n], []);
    case EnumDef(_, _, _, _) =>
    case ClassDef(_, ms, _, _, _, _, _) =>
      AnnotateIgnoresOldMeta(ms, ns + [CurrentScope(obj)], NestedParams(obj, parent));
    case Field(_, _, _, _, _) =>
  }

  /** Running the pass twice is the same as running it once. */
  lemma AnnotateIdempotent(tree: seq<Decl>, ns: seq<string>, parent: seq<ClassTemplateParam>)
    ensures Annotate(Annotate(tree, ns, parent), ns, parent) == Annotate(tree, ns, parent)
  {
    AnnotateIgnoresOldMeta(Annotate(tree, ns, parent), ns, parent);
    AnnotateKeepsShape(tree, ns, parent);
    AnnotateIgnoresOldMeta(tree, ns, parent);
  }

  // ----- an independent, path-based description ----------------------------

  /** The declaration reached by following member indices from the top level. */
  function Lookup(tree: seq<Decl>, path: seq<nat>): Option<Decl>
    decreases path
  {
    if path == [] || path[0] >= |tree| then None
    else if |path| == 1 then Some(tree[path[0]])
    else match tree[path[0]]
      case NamespaceDef(_, ms) => Lookup(ms, path[1..])
      case ClassDef(_, ms, _, _, _, _, _) => Lookup(ms, path[1..])
      case _ => None
  }

  /** The scopes a path passes through before its last step. */
  function EnclosingScopes(tree: seq<Decl>, path: seq<nat>): seq<string>
    decreases path
  {
    if |path| <= 1 || path[0] >= |tree| then []
    else match tree[path[0]]
      case NamespaceDef(n, ms) => [n] + EnclosingScopes(ms, path[1..])
      case ClassDef(_, ms, _, _, _, _, _) => [CurrentScope(tree[path[0]])] + EnclosingScopes(ms, path[1..])
      case _ => []
  }

  /** The template parameters in force at the end of a path: namespaces reset
      them, template classes extend them, non-template classes drop them. */
  function EnclosingTemplates(tree: seq<Decl>, path: seq<nat>, parent: seq<ClassTemplateParam>): seq<ClassTemplateParam>
    decreases path
  {
    if |path| <= 1 || path[0] >= |tree| then parent
    else match tree[path[0]]
      case NamespaceDef(_, ms) => EnclosingTemplates(ms, path[1..], [])
      case ClassDef(_, ms, _, _, _, _, _) => EnclosingTemplates(ms, path[1..], NestedParams(tree[path[0]], parent))
      case _ => parent
  }

  /** Every class or enum of the tree, at any depth, ends up with the scopes on
      its path as namespace context and the templates in force there as
      parent template parameters. */
  lemma {:induction false} MetadataAlongPath(tree: seq<Decl>, path: seq<nat>, ns: seq<string>, parent: seq<ClassTemplateParam>)
    requires Lookup(tree, path).Some?
    requires Lookup(tree, path).value.ClassDef? || Lookup(tree, path).value.EnumDef?
    ensures Lookup(Annotate(tree, ns, parent), path).Some?
    ensures Lookup(Annotate(tree, ns, parent), path).value.name == Lookup(tree, path).value.name
    ensures Lookup(Annotate(tree, ns, parent), path).value.ClassDef? == Lookup(tree, path).value.ClassDef?
    ensures Lookup(Annotate(tree, ns, parent), path).value.EnumDef? == Lookup(tree, path).value.EnumDef?
    ensures Lookup(Annotate(tree, ns, parent), path).value.meta ==
            Meta(ns + EnclosingScopes(tree, path), EnclosingTemplates(tree, path, parent))
    decreases path
  {
    var a := Annotate(tree, ns, parent);
    var obj := tree[path[0]];
    assert a[path[0]] == AnnotateDecl(obj, ns, parent);
    if |path| == 1 {
      assert a[path[0]] == AnnotateDecl(obj, ns, parent);
      assert ns + [] == ns;
    } else {
      match obj
      case NamespaceDef(n, ms) =>
        MetadataAlongPath(ms, path[1..], ns + [n], []);
        assert ns + [n] + EnclosingScopes(ms, path[1..]) == ns + ([n] + EnclosingScopes(ms, path[1..]));
      case ClassDef(_, ms, _, _, _, _, _) =>
        var s := CurrentScope(obj);
        MetadataAlongPath(ms, path[1..], ns + [s], NestedParams(obj, parent));
        assert ns + [s] + EnclosingScopes(ms, path[1..]) == ns + ([s] + EnclosingScopes(ms, path[1..]));
    }
  }

  /** The top-level call: `setup_additional_metadata(data)`. */
  function SetupAdditionalMetadata(tree: seq<Decl>): (r: seq<Decl>)
    ensures Erase(r) == Erase(tree)
  {
    AnnotateKeepsShape(tree, [], []);
    Annotate(tree, [], [])
  }

  /** A top-level class has no namespace context, so its qualified name is its name. */
  lemma TopLevelClassUnqualified(tree: seq<Decl>, i: nat)
    requires i < |tree| && (tree[i].ClassDef? || tree[i].EnumDef?)
    ensures SetupAdditionalMetadata(tree)[i].ClassDef? || SetupAdditionalMetadata(tree)[i].EnumDef?
    ensures SetupAdditionalMetadata(tree)[i].meta == NoMeta
    ensures NsQualifiedName(SetupAdditionalMetadata(tree)[i]) == tree[i].name
  {
    MetadataAlongPath(tree, [i], [], []);
    assert Lookup(Annotate(tree, [], []), [i]) == Some(SetupAdditionalMetadata(tree)[i]);
  }
}
