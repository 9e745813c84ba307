/** The type registries of idl-compiler.py (`local_types`,
    `local_writable_types`, `stubs`), filled by `handle_types`, and the
    writable-type dependency analysis: `get_dependency` and the Kahn-style
    `sort_dependencies`. */
module IdlRegistry {
  import opened Util
  import opened IdlTypes

  // ----- members and dependencies --------------------------------------------

  /** `get_members`: the data and function members, nested classes and enums dropped. */
  function FieldsOf(ms: seq<Decl>): (r: seq<Decl>)
    ensures forall d :: d in r <==> d in ms && d.Field?
    ensures |r| <= |ms|
  {
    if ms == [] then [] else (if ms[0].Field? then [ms[0]] else []) + FieldsOf(ms[1..])
  }

  /** The union, over the members, of their writable leaves (the `reduce` in get_dependency). */
  function DependencyOf(ms: seq<Decl>, writable: set<string>): set<string>
  {
    if ms == [] then {}
    else (if ms[0].Field? then LocalWritableLeaves(ms[0].ty, writable) else {}) + DependencyOf(ms[1..], writable)
  }

  /** `get_dependency`: a class depends on exactly the registered writable
      types that occur as a leaf of one of its data or function members;
      nested classes and enums do not contribute. */
  function GetDependency(c: Decl, writable: set<string>): (r: set<string>)
    requires c.ClassDef?
    ensures forall x :: x in r <==>
              x in writable && exists i :: 0 <= i < |c.members| && c.members[i].Field? && HasLeaf(c.members[i].ty, x)
  {
    forall x ensures x in DependencyOf(c.members, writable) <==>
        x in writable && exists i :: 0 <= i < |c.members| && c.members[i].Field? && HasLeaf(c.members[i].ty, x) {
      DependencyOfMembers(c.members, writable, x);
    }
    DependencyOf(c.members, writable)
  }

  lemma {:induction false} DependencyOfMembers(ms: seq<Decl>, writable: set<string>, x: string)
    ensures x in DependencyOf(ms, writable) <==>
            x in writable && exists i :: 0 <= i < |ms| && ms[i].Field? && HasLeaf(ms[i].ty, x)
  {
    if ms != [] {
      DependencyOfMembers(ms[1..], writable, x);
      if x in writable && exists i :: 0 <= i < |ms| && ms[i].Field? && HasLeaf(ms[i].ty, x) {
        var i :| 0 <= i < |ms| && ms[i].Field? && HasLeaf(ms[i].ty, x);
        if i > 0 { assert ms[1..][i - 1] == ms[i]; }
      }
      if exists i :: 0 <= i < |ms[1..]| && ms[1..][i].Field? && HasLeaf(ms[1..][i].ty, x) {
        var i :| 0 <= i < |ms[1..]| && ms[1..][i].Field? && HasLeaf(ms[1..][i].ty, x);
        assert ms[i + 1] == ms[1..][i];
      }
    }
  }

  /** The `dep_tree` that sort_dependencies starts from. */
  function DepGraph(w: map<string, Decl>): (g: map<string, set<string>>)
    ensures g.Keys == w.Keys
    ensures forall k :: k in g ==> g[k] <= w.Keys
  {
    map k | k in w :: if w[k].ClassDef? then GetDependency(w[k], w.Keys) else {}
  }

  // ----- graph vocabulary --------------------------------------------------

  /** Every edge ends inside the graph. */
  ghost predicate ClosedGraph(g: map<string, set<string>>)
  {
    forall k :: k in g ==> g[k] <= g.Keys
  }

  /** `k` depends on some member of `s`. */
  ghost predicate DependsInto(g: map<string, set<string>>, s: set<string>, k: string)
  {
    k in g && exists d :: d in g[k] && d in s
  }

  /** A non-empty set of nodes each of which depends on a member of the set. */
  ghost predicate CycleSet(g: map<string, set<string>>, s: set<string>)
  {
    s != {} && s <= g.Keys && forall k {:trigger DependsInto(g, s, k)} :: k in s ==> DependsInto(g, s, k)
  }

  ghost predicate HasCycle(g: map<string, set<string>>)
  {
    exists s :: CycleSet(g, s)
  }

  /** A type that mentions itself is a cycle. */
  lemma SelfReferenceIsCycle(g: map<string, set<string>>, k: string)
    requires k in g && k in g[k]
    ensures HasCycle(g)
  {
    assert DependsInto(g, {k}, k);
    assert CycleSet(g, {k});
  }

  /** Each type appears after every type it depends on. */
  ghost predicate Topological(g: map<string, set<string>>, order: seq<string>)
  {
    forall i, d :: 0 <= i < |order| && order[i] in g && d in g[order[i]] ==> d in order[..i]
  }

  /** The level strictly drops along every edge. */
  ghost predicate Descending(g: map<string, set<string>>, level: map<string, nat>)
  {
    forall k, d :: k in g && d in g[k] ==> d in level && k in level && level[d] < level[k]
  }

  /** `k` depends on something exactly one level below it. */
  ghost predicate ChainBelow(g: map<string, set<string>>, level: map<string, nat>, k: string)
  {
    k in g && k in level && exists d :: d in g[k] && d in level && level[d] + 1 == level[k]
  }

  /** `a` comes before `b`: a lower level, or the same level and a smaller name. */
  ghost predicate Precedes(level: map<string, nat>, a: string, b: string)
  {
    a in level && b in level && (level[a] < level[b] || (level[a] == level[b] && StrLt(a, b)))
  }

  ghost predicate OrderedByLevel(order: seq<string>, level: map<string, nat>)
  {
    && (forall i :: 0 <= i < |order| ==> order[i] in level)
    && forall i, j :: 0 <= i < j < |order| ==> Precedes(level, order[i], order[j])
  }

  /** The order lists a layering of the graph: a type's level is the length of
      the longest dependency chain below it, levels come in increasing order,
      and within a level names ascend. */
  ghost predicate LayeredOrder(g: map<string, set<string>>, order: seq<string>, level: map<string, nat>)
  {
    && level.Keys == g.Keys
    && Descending(g, level)
    && (forall k {:trigger ChainBelow(g, level, k)} :: k in level && level[k] > 0 ==> ChainBelow(g, level, k))
    && OrderedByLevel(order, level)
  }

  /** Every key exactly once. */
  ghost predicate PermutationOfKeys(order: seq<string>, g: map<string, set<string>>)
  {
    |order| == |g| && (forall k :: k in order <==> k in g) &&
    forall i, j :: 0 <= i < j < |order| ==> order[i] != order[j]
  }

  lemma {:induction false} MinLevelExists(s: set<string>, level: map<string, nat>)
    requires s != {} && s <= level.Keys
    ensures exists m :: m in s && forall x :: x in s ==> level[m] <= level[x]
    decreases |s|
  {
    var y :| y in s;
    if s != {y} {
      MinLevelExists(s - {y}, level);
      var m :| m in s - {y} && forall x :: x in s - {y} ==> level[m] <= level[x];
      if level[y] < level[m] {
        assert forall x :: x in s ==> level[y] <= level[x];
      } else {
        assert forall x :: x in s ==> level[m] <= level[x];
      }
    }
  }

  /** A strictly decreasing level along every edge rules out cycles. */
  lemma LevelsExcludeCycles(g: map<string, set<string>>, level: map<string, nat>)
    requires level.Keys == g.Keys && Descending(g, level)
    ensures !HasCycle(g)
  {
    forall s | s != {} && s <= g.Keys ensures !CycleSet(g, s) {
      MinLevelExists(s, level);
      var m :| m in s && forall x :: x in s ==> level[m] <= level[x];
      assert forall d :: d in g[m] ==> d !in s;
      assert !DependsInto(g, s, m);
    }
  }

  lemma IndexFollowsLevel(order: seq<string>, level: map<string, nat>, i: int, j: int)
    requires 0 <= i < |order| && 0 <= j < |order|
    requires OrderedByLevel(order, level)
    requires level[order[j]] < level[order[i]]
    ensures j < i
  {
  }

  /** The layering makes the order topological. */
  lemma LayeredIsTopological(g: map<string, set<string>>, order: seq<string>, level: map<string, nat>)
    requires LayeredOrder(g, order, level) && PermutationOfKeys(order, g)
    ensures Topological(g, order)
  {
    forall i, d | 0 <= i < |order| && order[i] in g && d in g[order[i]] ensures d in order[..i] {
      assert d in level && level[d] < level[order[i]];
      assert d in order;
      var j :| 0 <= j < |order| && order[j] == d;
      IndexFollowsLevel(order, level, i, j);
      assert order[..i][j] == d;
    }
  }

  // ----- registries ---------------------------------------------------------

  /** The attribute test of register_writable_local_type. */
  predicate IsWritableClass(c: Decl)
  {
    c.ClassDef? && c.attribute.Some? && c.attribute.value.name == "writable"
  }

  /** The classes handle_types visits, in order: top-level classes and the
      classes of namespaces at every depth, but not classes nested in classes. */
  function ClassesIn(tree: seq<Decl>): (r: seq<Decl>)
    ensures forall c :: c in r ==> c.ClassDef?
    decreases tree, 0
  {
    if tree == [] then [] else ClassesOf(tree[0]) + ClassesIn(tree[1..])
  }

  /** A class visits itself, a namespace its members, anything else nothing. */
  function ClassesOf(obj: Decl): (r: seq<Decl>)
    ensures forall c :: c in r ==> c.ClassDef?
    decreases obj, 1
  {
    match obj
    case ClassDef(_, _, _, _, _, _, _) => [obj]
    case NamespaceDef(_, ms) => ClassesIn(ms)
    case _ => []
  }

  lemma {:induction false} ClassesInAppend(a: seq<Decl>, b: seq<Decl>)
    ensures ClassesIn(a + b) == ClassesIn(a) + ClassesIn(b)
  {
    if a == [] {
      assert a + b == b;
    } else {
      assert (a + b)[0] == a[0];
      assert (a + b)[1..] == a[1..] + b;
      ClassesInAppend(a[1..], b);
      SeqAssoc(ClassesOf(a[0]), ClassesIn(a[1..]), ClassesIn(b));
    }
  }

  lemma SeqAssoc<T>(x: seq<T>, y: seq<T>, z: seq<T>)
    ensures x + (y + z) == x + y + z
  {
  }

  /** Dictionary assignments in order: `m[c.name] = c` for each class. */
  function RegisterAll(m: map<string, Decl>, cs: seq<Decl>): map<string, Decl>
    decreases cs
  {
    if cs == [] then m else RegisterAll(m[cs[0].name := cs[0]], cs[1..])
  }

  function WritableOnly(cs: seq<Decl>): (r: seq<Decl>)
    ensures forall c :: c in r <==> c in cs && IsWritableClass(c)
  {
    if cs == [] then [] else (if IsWritableClass(cs[0]) then [cs[0]] else []) + WritableOnly(cs[1..])
  }

  function StubNames(cs: seq<Decl>): set<string>
  {
    set c | c in cs && IsWritableClass(c) && c.stub :: c.name
  }

  lemma {:induction false} RegisterAllAppend(m: map<string, Decl>, a: seq<Decl>, b: seq<Decl>)
    ensures RegisterAll(m, a + b) == RegisterAll(RegisterAll(m, a), b)
    decreases a
  {
    if a == [] {
      assert a + b == b;
    } else {
      assert (a + b)[1..] == a[1..] + b;
      RegisterAllAppend(m[a[0].name := a[0]], a[1..], b);
    }
  }

  /** Registration adds exactly the names of the classes; a name maps to the
      last class that carries it, or keeps its old entry. */
  lemma {:induction false} RegisterAllContents(m: map<string, Decl>, cs: seq<Decl>, k: string)
    ensures k in RegisterAll(m, cs) <==> k in m || exists c :: c in cs && c.name == k
    ensures k in RegisterAll(m, cs) ==>
              (RegisterAll(m, cs)[k] in cs && RegisterAll(m, cs)[k].name == k) ||
              ((forall c :: c in cs ==> c.name != k) && RegisterAll(m, cs)[k] == m[k])
    ensures forall i :: 0 <= i < |cs| && cs[i].name == k && (forall j :: i < j < |cs| ==> cs[j].name != k) ==>
              RegisterAll(m, cs)[k] == cs[i]
    decreases cs
  {
    if cs != [] {
      var m' := m[cs[0].name := cs[0]];
      RegisterAllContents(m', cs[1..], k);
      assert forall c :: c in cs <==> c == cs[0] || c in cs[1..];
      forall i | 0 <= i < |cs| && cs[i].name == k && (forall j :: i < j < |cs| ==> cs[j].name != k)
        ensures RegisterAll(m, cs)[k] == cs[i]
      {
        if i > 0 {
          assert cs[1..][i - 1] == cs[i];
          forall j | i - 1 < j < |cs[1..]| ensures cs[1..][j].name != k { assert cs[1..][j] == cs[j + 1]; }
        } else {
          forall c | c in cs[1..] ensures c.name != k {
            var j :| 0 <= j < |cs[1..]| && cs[1..][j] == c;
            assert cs[j + 1] == c;
          }
        }
      }
    }
  }

  /** After handle_types on a fresh compiler, a name is writable iff some
      visited class of that name has the attribute `writable`, and it is a stub
      iff some such class is also `stub`; writable names are local types. */
  lemma RegistriesFromTree(tree: seq<Decl>, k: string)
    ensures k in RegisterAll(map[], WritableOnly(ClassesIn(tree))) <==>
            exists c :: c in ClassesIn(tree) && c.name == k && IsWritableClass(c)
    ensures k in StubNames(ClassesIn(tree)) <==>
            exists c :: c in ClassesIn(tree) && c.name == k && IsWritableClass(c) && c.stub
    ensures k in RegisterAll(map[], WritableOnly(ClassesIn(tree))) ==> k in RegisterAll(map[], ClassesIn(tree))
  {
    RegisterAllContents(map[], WritableOnly(ClassesIn(tree)), k);
    RegisterAllContents(map[], ClassesIn(tree), k);
  }

  class Compiler {
    /** `local_types`: every visited class by name. */
    var localTypes: map<string, Decl>
    /** `local_writable_types`: the classes attributed `[[writable]]`. */
    var localWritableTypes: map<string, Decl>
    /** `stubs`: names of writable classes that are also `stub`. */
    var stubs: set<string>

    ghost predicate Valid()
      reads this
    {
      RegistryInvariant(localTypes, localWritableTypes, stubs)
    }

    constructor ()
      ensures Valid()
      ensures localTypes == map[] && localWritableTypes == map[] && stubs == {}
    {
      localTypes := map[];
      localWritableTypes := map[];
      stubs := {};
    }

    method RegisterLocalType(c: Decl)
      requires c.ClassDef?
      modifies this
      ensures localTypes == old(localTypes)[c.name := c]
      ensures localWritableTypes == old(localWritableTypes) && stubs == old(stubs)
    {
      localTypes := localTypes[c.name := c];
    }

    method RegisterWritableLocalType(c: Decl)
      requires c.ClassDef?
      modifies this
      ensures localWritableTypes == if IsWritableClass(c) then old(localWritableTypes)[c.name := c] else old(localWritableTypes)
      ensures stubs == if IsWritableClass(c) && c.stub then old(stubs) + {c.name} else old(stubs)
      ensures localTypes == old(localTypes)
    {
      if c.attribute.None? || c.attribute.value.name != "writable" {
        return;
      }
      localWritableTypes := localWritableTypes[c.name := c];
      if c.stub {
        stubs := stubs + {c.name};
      }
    }

    /** `handle_types`: records the visited classes; enums are skipped and
        nested classes are not visited. */
    method HandleTypes(tree: seq<Decl>)
      requires Valid()
      modifies this
      ensures Valid()
      ensures localTypes == RegisterAll(old(localTypes), ClassesIn(tree))
      ensures localWritableTypes == RegisterAll(old(localWritableTypes), WritableOnly(ClassesIn(tree)))
      ensures stubs == old(stubs) + StubNames(ClassesIn(tree))
      decreases tree
    {
      for i := 0 to |tree|
        invariant Valid()
        invariant localTypes == RegisterAll(old(localTypes), ClassesIn(tree[..i]))
        invariant localWritableTypes == RegisterAll(old(localWritableTypes), WritableOnly(ClassesIn(tree[..i])))
        invariant stubs == old(stubs) + StubNames(ClassesIn(tree[..i]))
      {
        var obj := tree[i];
        ghost var before := ClassesIn(tree[..i]);
        ghost var t0, w0, s0 := localTypes, localWritableTypes, stubs;
        PrefixStep(tree, i);
        if obj.ClassDef? {
          ClassStep(old(localTypes), old(localWritableTypes), old(stubs), before, obj);
          RegisterLocalType(obj);
          RegisterWritableLocalType(obj);
          RegisterKeepsValid(t0, w0, s0, obj);
        } else {
          RegistrationStep(old(localTypes), old(localWritableTypes), old(stubs), before, ClassesOf(obj));
          if obj.NamespaceDef? {
            HandleTypes(obj.members);
          }
        }
      }
      assert tree[..|tree|] == tree;
    }

    /** `sort_dependencies`: builds `dep_tree` from the writable types and
        orders it. */
    method SortDependencies() returns (res: Option<seq<string>>)
      ensures res.Some? <==> !HasCycle(DepGraph(localWritableTypes))
      ensures res.Some? ==> PermutationOfKeys(res.value, DepGraph(localWritableTypes))
      ensures res.Some? ==> Topological(DepGraph(localWritableTypes), res.value)
      ensures res.Some? ==> exists level :: LayeredOrder(DepGraph(localWritableTypes), res.value, level)
    {
      var depTree := DepGraph(localWritableTypes);
      res := SortLayers(depTree);
    }
  }

  /** The loop of sort_dependencies.  Each round emits, in ascending name
      order, the types whose remaining dependency set is empty, then removes
      them from the others.  The source loops forever when a round finds
      nothing to emit (a cycle); here that is the `None` result. */
  method SortLayers(g: map<string, set<string>>) returns (res: Option<seq<string>>)
    requires ClosedGraph(g)
    ensures res.Some? <==> !HasCycle(g)
    ensures res.Some? ==> PermutationOfKeys(res.value, g)
    ensures res.Some? ==> Topological(g, res.value)
    ensures res.Some? ==> exists level :: LayeredOrder(g, res.value, level)
  {
    var depTree := g;
    var order: seq<string> := [];
    ghost var done: set<string> := {};
    ghost var level: map<string, nat> := map[];
    ghost var round: nat := 0;
    SortStart(g);
    while |depTree| > 0
      invariant SortInv(g, depTree, order, done, level, round)
      decreases |depTree|
    {
      var ready := Ready(depTree);
      var found := SortStrings(ready);
      if found == [] {
        StuckIsCycle(g, depTree, done);
        return None;
      }
      SortRound(g, depTree, order, done, level, round, ready, found);
      order := order + found;
      depTree := Shrink(depTree, ready);
      level := level + LevelOf(ready, round);
      done := done + ready;
      round := round + 1;
    }
    SortFinish(g, depTree, order, done, level, round);
    res := Some(order);
  }

  lemma ClassesInSnoc(prefix: seq<Decl>, obj: Decl)
    ensures ClassesIn(prefix + [obj]) == ClassesIn(prefix) + ClassesOf(obj)
  {
    ClassesInAppend(prefix, [obj]);
    assert [obj][1..] == [];
    assert ClassesIn([obj]) == ClassesOf(obj) + [];
  }

  lemma PrefixStep(tree: seq<Decl>, i: int)
    requires 0 <= i < |tree|
    ensures ClassesIn(tree[..i + 1]) == ClassesIn(tree[..i]) + ClassesOf(tree[i])
  {
    assert tree[..i + 1] == tree[..i] + [tree[i]];
    ClassesInSnoc(tree[..i], tree[i]);
  }

  lemma ClassStep(t: map<string, Decl>, w: map<string, Decl>, st: set<string>, before: seq<Decl>, c: Decl)
    requires c.ClassDef?
    ensures RegisterAll(t, before + ClassesOf(c)) == RegisterAll(t, before)[c.name := c]
    ensures RegisterAll(w, WritableOnly(before + ClassesOf(c))) ==
              if IsWritableClass(c) then RegisterAll(w, WritableOnly(before))[c.name := c] else RegisterAll(w, WritableOnly(before))
    ensures st + StubNames(before + ClassesOf(c)) ==
              if IsWritableClass(c) && c.stub then st + StubNames(before) + {c.name} else st + StubNames(before)
  {
    assert ClassesOf(c) == [c];
    RegistrationStep(t, w, st, before, [c]);
    assert StubNames(before + [c]) == StubNames(before) + (if IsWritableClass(c) && c.stub then {c.name} else {});
  }

  /** The registry invariant on plain values. */
  ghost predicate RegistryInvariant(t: map<string, Decl>, w: map<string, Decl>, st: set<string>)
  {
    && w.Keys <= t.Keys
    && st <= w.Keys
    && forall k :: k in w ==> IsWritableClass(w[k]) && w[k].name == k
  }

  lemma RegisterKeepsValid(t: map<string, Decl>, w: map<string, Decl>, st: set<string>, c: Decl)
    requires RegistryInvariant(t, w, st) && c.ClassDef?
    ensures RegistryInvariant(t[c.name := c],
                              if IsWritableClass(c) then w[c.name := c] else w,
                              if IsWritableClass(c) && c.stub then st + {c.name} else st)
  {
  }

  lemma WritableOnlyAppend(a: seq<Decl>, b: seq<Decl>)
    ensures WritableOnly(a + b) == WritableOnly(a) + WritableOnly(b)
  {
    if a == [] {
      assert a + b == b;
    } else {
      assert (a + b)[1..] == a[1..] + b;
      WritableOnlyAppend(a[1..], b);
    }
  }

  /** Appending a batch of classes composes the registry functions. */
  lemma RegistrationStep(t: map<string, Decl>, w: map<string, Decl>, st: set<string>, before: seq<Decl>, more: seq<Decl>)
    ensures RegisterAll(t, before + more) == RegisterAll(RegisterAll(t, before), more)
    ensures RegisterAll(w, WritableOnly(before + more)) == RegisterAll(RegisterAll(w, WritableOnly(before)), WritableOnly(more))
    ensures st + StubNames(before + more) == (st + StubNames(before)) + StubNames(more)
    ensures |more| == 1 ==> RegisterAll(t, before + more) == RegisterAll(t, before)[more[0].name := more[0]]
    ensures |more| == 1 && IsWritableClass(more[0]) ==>
              RegisterAll(w, WritableOnly(before + more)) == RegisterAll(w, WritableOnly(before))[more[0].name := more[0]]
    ensures |more| == 1 && !IsWritableClass(more[0]) ==>
              RegisterAll(w, WritableOnly(before + more)) == RegisterAll(w, WritableOnly(before))
    ensures more == [] ==> before + more == before
  {
    RegisterAllAppend(t, before, more);
    WritableOnlyAppend(before, more);
    RegisterAllAppend(w, WritableOnly(before), WritableOnly(more));
    if |more| == 1 && IsWritableClass(more[0]) {
      assert WritableOnly(more) == [more[0]] + WritableOnly(more[1..]);
      assert more[1..] == [];
    }
  }

  // ----- the sort's loop invariant, one piece at a time --------------------

  /** What remains maps each pending type to its dependencies not yet emitted. */
  ghost predicate Partition(g: map<string, set<string>>, depTree: map<string, set<string>>, done: set<string>)
  {
    && depTree.Keys + done == g.Keys && depTree.Keys !! done
    && forall k :: k in depTree ==> depTree[k] == g[k] - done
  }

  ghost predicate Emitted(order: seq<string>, done: set<string>)
  {
    (forall x :: x in order <==> x in done) && |order| == |done|
  }

  /** Levels of the emitted types: below the current round, strictly
      increasing along edges, and each the end of a chain one level shorter. */
  ghost predicate Levelled(g: map<string, set<string>>, done: set<string>, level: map<string, nat>, round: nat)
  {
    && done <= g.Keys
    && level.Keys == done
    && (forall x :: x in done ==> level[x] < round)
    && (forall k, d :: k in done && d in g[k] ==> d in done && level[d] < level[k])
    && (forall k {:trigger ChainBelow(g, level, k)} :: k in done && level[k] > 0 ==> ChainBelow(g, level, k))
  }

  /** `k` waited, in the last round, on a type pending or emitted then. */
  ghost predicate WaitsOn(g: map<string, set<string>>, depTree: map<string, set<string>>, level: map<string, nat>,
                          round: nat, k: string)
  {
    k in g && exists d :: d in g[k] && (d in depTree || (d in level && level[d] == round - 1))
  }

  ghost predicate Frontier(g: map<string, set<string>>, depTree: map<string, set<string>>, level: map<string, nat>, round: nat)
  {
    forall k {:trigger WaitsOn(g, depTree, level, round, k)} :: k in depTree && round > 0 ==> WaitsOn(g, depTree, level, round, k)
  }

  ghost predicate SortInv(g: map<string, set<string>>, depTree: map<string, set<string>>, order: seq<string>,
                          done: set<string>, level: map<string, nat>, round: nat)
  {
    && ClosedGraph(g)
    && Partition(g, depTree, done)
    && Emitted(order, done)
    && Levelled(g, done, level, round)
    && Frontier(g, depTree, level, round)
    && OrderedByLevel(order, level)
  }

  /** The types with no pending dependency. */
  function Ready(depTree: map<string, set<string>>): set<string>
  {
    set k | k in depTree && depTree[k] == {}
  }

  /** Removing the emitted types: `pop` them and `difference_update` the rest. */
  function Shrink(depTree: map<string, set<string>>, ready: set<string>): (r: map<string, set<string>>)
    ensures r.Keys == depTree.Keys - ready
    ensures forall k :: k in r ==> r[k] == depTree[k] - ready
  {
    map k | k in depTree && k !in ready :: depTree[k] - ready
  }

  ghost function LevelOf(ready: set<string>, round: nat): map<string, nat>
  {
    map k | k in ready :: round
  }

  lemma ShrinkSmaller(depTree: map<string, set<string>>, ready: set<string>)
    requires ready != {} && ready <= depTree.Keys
    ensures |Shrink(depTree, ready)| < |depTree|
  {
    var rest := Shrink(depTree, ready);
    CardLess(depTree.Keys, ready);
    assert |rest| == |rest.Keys| == |depTree.Keys - ready|;
  }

  lemma CardLess(s: set<string>, r: set<string>)
    requires r != {} && r <= s
    ensures |s - r| < |s|
  {
    var x :| x in r;
    assert s - r <= s - {x};
    assert |s - {x}| == |s| - 1;
  }

  /** A round that finds nothing ready leaves a cycle behind. */
  lemma StuckIsCycle(g: map<string, set<string>>, depTree: map<string, set<string>>, done: set<string>)
    requires ClosedGraph(g) && Partition(g, depTree, done) && |depTree| > 0
    requires Ready(depTree) == {}
    ensures HasCycle(g)
  {
    assert depTree.Keys <= g.Keys;
    assert depTree.Keys != {} by { var k0 :| k0 in depTree; }
    AllPendingDepend(g, depTree, done);
    assert CycleSet(g, depTree.Keys);
  }

  lemma AllPendingDepend(g: map<string, set<string>>, depTree: map<string, set<string>>, done: set<string>)
    requires ClosedGraph(g) && Partition(g, depTree, done)
    requires Ready(depTree) == {}
    ensures forall k {:trigger DependsInto(g, depTree.Keys, k)} :: k in depTree.Keys ==> DependsInto(g, depTree.Keys, k)
  {
    forall k | k in depTree.Keys ensures DependsInto(g, depTree.Keys, k) {
      assert k !in Ready(depTree);
      PendingDepends(g, depTree, done, k);
    }
  }

  /** A pending type with a remaining dependency depends on a pending type. */
  lemma PendingDepends(g: map<string, set<string>>, depTree: map<string, set<string>>, done: set<string>, k: string)
    requires ClosedGraph(g) && Partition(g, depTree, done)
    requires k in depTree && depTree[k] != {}
    ensures DependsInto(g, depTree.Keys, k)
  {
    var d :| d in depTree[k];
    assert d in g[k] && d in depTree.Keys;
  }

  lemma SortRoundLevels(g: map<string, set<string>>, depTree: map<string, set<string>>, done: set<string>,
                        ready: set<string>, level: map<string, nat>, round: nat)
    requires Partition(g, depTree, done)
    requires ready == Ready(depTree)
    requires Levelled(g, done, level, round) && Frontier(g, depTree, level, round)
    ensures Levelled(g, done + ready, level + LevelOf(ready, round), round + 1)
  {
    var level' := level + LevelOf(ready, round);
    assert forall x :: x in done ==> level'[x] == level[x];
    LevelsDescend(g, depTree, done, ready, level, round);
    LevelsChain(g, depTree, done, ready, level, round);
  }

  lemma LevelsDescend(g: map<string, set<string>>, depTree: map<string, set<string>>, done: set<string>,
                      ready: set<string>, level: map<string, nat>, round: nat)
    requires Partition(g, depTree, done)
    requires ready == Ready(depTree)
    requires Levelled(g, done, level, round)
    ensures var level' := level + LevelOf(ready, round);
            forall k, d :: k in done + ready && d in g[k] ==> d in done + ready && level'[d] < level'[k]
  {
    var level' := level + LevelOf(ready, round);
    forall k, d | k in done + ready && d in g[k] ensures d in done + ready && level'[d] < level'[k] {
      if k in ready { assert d in depTree[k] || d in done; }
    }
  }

  lemma LevelsChain(g: map<string, set<string>>, depTree: map<string, set<string>>, done: set<string>,
                    ready: set<string>, level: map<string, nat>, round: nat)
    requires Partition(g, depTree, done)
    requires ready == Ready(depTree)
    requires Levelled(g, done, level, round) && Frontier(g, depTree, level, round)
    ensures var level' := level + LevelOf(ready, round);
            forall k {:trigger ChainBelow(g, level', k)} :: k in done + ready && level'[k] > 0 ==> ChainBelow(g, level', k)
  {
    var level' := level + LevelOf(ready, round);
    forall k | k in done + ready && level'[k] > 0 ensures ChainBelow(g, level', k) {
      if k in done {
        assert ChainBelow(g, level, k);
        var d :| d in g[k] && d in level && level[d] + 1 == level[k];
        assert level'[d] + 1 == level'[k];
      } else {
        assert WaitsOn(g, depTree, level, round, k);
        var d :| d in g[k] && (d in depTree || (d in level && level[d] == round - 1));
        assert d in done by { assert d !in depTree[k]; }
        assert level'[d] + 1 == level'[k];
      }
    }
  }

  lemma SortRoundFrontier(g: map<string, set<string>>, depTree: map<string, set<string>>, done: set<string>,
                          ready: set<string>, level: map<string, nat>, round: nat)
    requires ClosedGraph(g) && Partition(g, depTree, done)
    requires ready == Ready(depTree)
    ensures Frontier(g, Shrink(depTree, ready), level + LevelOf(ready, round), round + 1)
  {
    FrontierNext(g, depTree, done, ready, level, round);
  }

  lemma FrontierNext(g: map<string, set<string>>, depTree: map<string, set<string>>, done: set<string>,
                     ready: set<string>, level: map<string, nat>, round: nat)
    requires ClosedGraph(g) && Partition(g, depTree, done)
    requires ready == Ready(depTree)
    ensures var level' := level + LevelOf(ready, round);
            var rest := Shrink(depTree, ready);
            forall k {:trigger WaitsOn(g, rest, level', round + 1, k)} :: k in rest ==> WaitsOn(g, rest, level', round + 1, k)
  {
    var level' := level + LevelOf(ready, round);
    var rest := Shrink(depTree, ready);
    forall k | k in rest ensures WaitsOn(g, rest, level', round + 1, k) {
      assert k !in ready;
      var d :| d in depTree[k];
      assert d in g[k] && d in g.Keys && d !in done;
      if d in ready { assert d in level' && level'[d] == round; } else { assert d in rest; }
    }
  }

  lemma SortRoundOrder(order: seq<string>, found: seq<string>, done: set<string>, ready: set<string>,
                       level: map<string, nat>, round: nat)
    requires (forall i :: 0 <= i < |order| ==> order[i] in done) && OrderedByLevel(order, level) && ready !! done
    requires level.Keys == done && (forall x :: x in done ==> level[x] < round)
    requires StrictlySorted(found) && forall i :: 0 <= i < |found| ==> found[i] in ready
    ensures OrderedByLevel(order + found, level + LevelOf(ready, round))
  {
    var level' := level + LevelOf(ready, round);
    var o := order + found;
    forall i | 0 <= i < |o| ensures o[i] in level' {
      if i >= |order| { assert o[i] == found[i - |order|]; } else { assert o[i] == order[i]; }
    }
    forall i, j | 0 <= i < j < |o| ensures Precedes(level', o[i], o[j]) {
      if j < |order| {
        assert o[i] == order[i] && o[j] == order[j];
        assert Precedes(level, order[i], order[j]);
        PrecedesKept(level, ready, round, order[i], order[j]);
      } else if i < |order| {
        assert o[i] == order[i] && o[i] in done;
        assert o[j] == found[j - |order|] && o[j] in ready;
        PrecedesNewer(level, ready, round, o[i], o[j]);
      } else {
        assert o[i] == found[i - |order|] && o[j] == found[j - |order|];
        PrecedesSameRound(level, ready, round, o[i], o[j]);
      }
    }
  }

  lemma PrecedesKept(level: map<string, nat>, ready: set<string>, round: nat, a: string, b: string)
    requires Precedes(level, a, b) && a !in ready && b !in ready
    ensures Precedes(level + LevelOf(ready, round), a, b)
  {
  }

  lemma PrecedesNewer(level: map<string, nat>, ready: set<string>, round: nat, a: string, b: string)
    requires a in level && level[a] < round && a !in ready && b in ready
    ensures Precedes(level + LevelOf(ready, round), a, b)
  {
  }

  lemma PrecedesSameRound(level: map<string, nat>, ready: set<string>, round: nat, a: string, b: string)
    requires a in ready && b in ready && StrLt(a, b)
    ensures Precedes(level + LevelOf(ready, round), a, b)
  {
  }

  /** One round of the sort keeps the invariant and shrinks what remains. */
  lemma SortRound(g: map<string, set<string>>, depTree: map<string, set<string>>, order: seq<string>,
                  done: set<string>, level: map<string, nat>, round: nat, ready: set<string>, found: seq<string>)
    requires SortInv(g, depTree, order, done, level, round)
    requires ready == Ready(depTree)
    requires StrictlySorted(found) && |found| == |ready| && (forall y :: y in found <==> y in ready)
    requires found != []
    ensures SortInv(g, Shrink(depTree, ready), order + found, done + ready, level + LevelOf(ready, round), round + 1)
    ensures |Shrink(depTree, ready)| < |depTree|
  {
    assert found[0] in ready;
    SortRoundPartition(g, depTree, done, ready);
    ShrinkSmaller(depTree, ready);
    SortRoundEmitted(order, found, done, ready);
    SortRoundLevels(g, depTree, done, ready, level, round);
    SortRoundFrontier(g, depTree, done, ready, level, round);
    ElementsIn(order, done);
    ElementsIn(found, ready);
    SortRoundOrder(order, found, done, ready, level, round);
  }

  lemma ElementsIn(xs: seq<string>, s: set<string>)
    requires forall x :: x in xs <==> x in s
    ensures forall i :: 0 <= i < |xs| ==> xs[i] in s
  {
  }

  lemma SortRoundPartition(g: map<string, set<string>>, depTree: map<string, set<string>>, done: set<string>,
                           ready: set<string>)
    requires Partition(g, depTree, done)
    requires ready == Ready(depTree)
    ensures Partition(g, Shrink(depTree, ready), done + ready)
    ensures ready !! done
  {
    var rest := Shrink(depTree, ready);
    assert ready <= depTree.Keys;
    assert rest.Keys + (done + ready) == g.Keys;
    forall k | k in rest ensures rest[k] == g[k] - (done + ready) {
      assert rest[k] == (g[k] - done) - ready;
    }
  }

  lemma SortRoundEmitted(order: seq<string>, found: seq<string>, done: set<string>, ready: set<string>)
    requires Emitted(order, done) && ready !! done
    requires |found| == |ready| && (forall y :: y in found <==> y in ready)
    ensures Emitted(order + found, done + ready)
  {
    assert forall x :: x in order + found <==> x in order || x in found;
    assert |done + ready| == |done| + |ready|;
  }

  lemma SortStart(g: map<string, set<string>>)
    requires ClosedGraph(g)
    ensures SortInv(g, g, [], {}, map[], 0)
  {
    assert forall k :: k in g ==> g[k] == g[k] - {};
  }

  lemma SortFinish(g: map<string, set<string>>, depTree: map<string, set<string>>, order: seq<string>,
                   done: set<string>, level: map<string, nat>, round: nat)
    requires SortInv(g, depTree, order, done, level, round) && |depTree| == 0
    ensures !HasCycle(g)
    ensures PermutationOfKeys(order, g)
    ensures Topological(g, order)
    ensures exists level :: LayeredOrder(g, order, level)
  {
    assert depTree.Keys == {};
    assert done == g.Keys;
    assert Descending(g, level);
    assert LayeredOrder(g, order, level);
    LevelsExcludeCycles(g, level);
    DistinctFromLayers(order, level);
    LayeredIsTopological(g, order, level);
  }

  lemma DistinctFromLayers(order: seq<string>, level: map<string, nat>)
    requires OrderedByLevel(order, level)
    ensures forall i, j :: 0 <= i < j < |order| ==> order[i] != order[j]
  {
    forall i, j | 0 <= i < j < |order| ensures order[i] != order[j] {
      StrLtIrreflexive(order[i]);
      assert Precedes(level, order[i], order[j]);
    }
  }
}
