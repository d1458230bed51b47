/**
 * `sortTypesByDependencies`: a depth-first topological sort of the schema's
 * `types` list over the `ofType` references of their fields, with cycle
 * detection through the set of names on the current DFS stack.
 *
 * As written, the function does not compile: it asserts `schema["types"]` to
 * `interface{}` and then ranges over it, and its root loop tests
 * `err != visit(name)` with `err` undeclared. The model follows the evident
 * intent: `types` must be a list, and the first error from `visit` is
 * returned.
 */
module DependencySort {
  import opened Wrappers
  import opened ConfigTree

  const TypesKey: string := "types"
  const NameKey: string := "name"
  const FieldsKey: string := "fields"
  const OfTypeKey: string := "ofType"

  /** The two errors: `types` missing or not a list, and a cycle met at the named type. */
  datatype SortError = TypesNotList | CycleAt(name: string)

  /** A type object of the schema. */
  type TypeObject = map<string, Node>

  /**
   * What the type assertions of the indexing loop demand, since Go panics
   * otherwise: every type is a mapping with a string `name`, and when it has
   * a `fields` list, every field is a mapping.
   */
  predicate WellFormedType(t: Node)
  {
    && t.Mapping?
    && NameKey in t.entries && t.entries[NameKey].Scalar?
    && (FieldsKey in t.entries && t.entries[FieldsKey].Sequence? ==>
          forall f :: f in t.entries[FieldsKey].items ==> f.Mapping?)
  }

  predicate WellFormedTypes(types: seq<Node>)
  {
    forall t :: t in types ==> WellFormedType(t)
  }

  function TypeName(t: Node): string
    requires WellFormedType(t)
  {
    t.entries[NameKey].text
  }

  /** The `ofType` names of a field list, in order; a field without a string `ofType` adds nothing. */
  function OfTypes(fields: seq<Node>): seq<string>
    requires forall f :: f in fields ==> f.Mapping?
  {
    if fields == [] then []
    else
      var f := fields[|fields| - 1].entries;
      OfTypes(fields[..|fields| - 1]) + (if OfTypeKey in f && f[OfTypeKey].Scalar? then [f[OfTypeKey].text] else [])
  }

  /** The references of a type: the `ofType` names of its fields; its `args` are not looked at. */
  function FieldRefs(t: Node): seq<string>
    requires WellFormedType(t)
  {
    if FieldsKey in t.entries && t.entries[FieldsKey].Sequence? then OfTypes(t.entries[FieldsKey].items) else []
  }

  /** The dependency list of `name`: empty when the name has none, like a missing key of a Go map. */
  function Deps(depMap: map<string, seq<string>>, name: string): seq<string>
  {
    if name in depMap then depMap[name] else []
  }

  /** Appends `refs` to the dependency list of `name`; the key is created only for a non-empty list. */
  function AddRefs(depMap: map<string, seq<string>>, name: string, refs: seq<string>): map<string, seq<string>>
  {
    if refs == [] then depMap else depMap[name := Deps(depMap, name) + refs]
  }

  /** `typeMap` after the indexing loop: each name maps to the last type object with that name. */
  function TypeMapOf(types: seq<Node>): map<string, TypeObject>
    requires WellFormedTypes(types)
  {
    if types == [] then map[]
    else
      var last := types[|types| - 1];
      TypeMapOf(types[..|types| - 1])[TypeName(last) := last.entries]
  }

  /** `dependencyMap` after the indexing loop: each name maps to the references of all types with that name, in order. */
  function DepMapOf(types: seq<Node>): map<string, seq<string>>
    requires WellFormedTypes(types)
  {
    if types == [] then map[]
    else
      var last := types[|types| - 1];
      AddRefs(DepMapOf(types[..|types| - 1]), TypeName(last), FieldRefs(last))
  }

  /** The loop that indexes the types by name and collects their dependencies. */
  method IndexTypes(types: seq<Node>) returns (typeMap: map<string, TypeObject>, dependencyMap: map<string, seq<string>>)
    requires WellFormedTypes(types)
    ensures typeMap == TypeMapOf(types) && dependencyMap == DepMapOf(types)
  {
    typeMap := map[];
    dependencyMap := map[];
    for i := 0 to |types|
      invariant typeMap == TypeMapOf(types[..i]) && dependencyMap == DepMapOf(types[..i])
    {
      assert types[..i + 1][..i] == types[..i];
      assert types[i] in types;
      var typeObj := types[i].entries;
      var name := typeObj[NameKey].text;
      typeMap := typeMap[name := typeObj];
      if FieldsKey in typeObj && typeObj[FieldsKey].Sequence? {
        dependencyMap := CollectRefs(dependencyMap, name, typeObj[FieldsKey].items);
      }
    }
    assert types[..|types|] == types;
  }

  /** The inner loop of the indexing: appends the `ofType` of each field, in order, to the list of `name`. */
  method CollectRefs(dependencyMap: map<string, seq<string>>, name: string, fields: seq<Node>)
    returns (dm: map<string, seq<string>>)
    requires forall f :: f in fields ==> f.Mapping?
    ensures dm == AddRefs(dependencyMap, name, OfTypes(fields))
  {
    dm := dependencyMap;
    for j := 0 to |fields|
      invariant dm == AddRefs(dependencyMap, name, OfTypes(fields[..j]))
    {
      assert fields[..j + 1][..j] == fields[..j];
      assert fields[j] in fields;
      var field := fields[j].entries;
      assert fields[..j + 1][j] == fields[j];
      if OfTypeKey in field && field[OfTypeKey].Scalar? {
        assert OfTypes(fields[..j + 1]) == OfTypes(fields[..j]) + [field[OfTypeKey].text];
        AddOneRef(dependencyMap, name, OfTypes(fields[..j]), field[OfTypeKey].text);
        dm := dm[name := Deps(dm, name) + [field[OfTypeKey].text]];
      } else {
        assert OfTypes(fields[..j + 1]) == OfTypes(fields[..j]) + [];
        assert OfTypes(fields[..j]) + [] == OfTypes(fields[..j]);
      }
    }
    assert fields[..|fields|] == fields;
  }

  /** Appending the references one at a time, as the loop does, is appending them all at once. */
  lemma AddOneRef(depMap: map<string, seq<string>>, name: string, refs: seq<string>, r: string)
    ensures var m := AddRefs(depMap, name, refs);
      AddRefs(depMap, name, refs + [r]) == m[name := Deps(m, name) + [r]]
  {
    var m := AddRefs(depMap, name, refs);
    assert refs + [r] != [];
    if refs == [] {
      assert refs + [r] == [r];
    } else {
      assert Deps(m, name) == Deps(depMap, name) + refs;
      assert Deps(depMap, name) + refs + [r] == Deps(depMap, name) + (refs + [r]);
    }
  }

  /** The dependency graph: the indexed types and their collected references. */
  datatype Graph = Graph(typeMap: map<string, TypeObject>, depMap: map<string, seq<string>>)

  function GraphOf(types: seq<Node>): Graph
    requires WellFormedTypes(types)
  {
    Graph(TypeMapOf(types), DepMapOf(types))
  }

  /** `u` depends on `v`: both are declared and `v` is among the references of `u`; undeclared names are no edge. */
  predicate Edge(g: Graph, u: string, v: string)
  {
    u in g.typeMap && v in g.typeMap && v in Deps(g.depMap, u)
  }

  /** `c` is a closed walk along dependency edges. */
  predicate IsCycle(g: Graph, c: seq<string>)
  {
    && |c| >= 2
    && c[0] == c[|c| - 1]
    && forall i :: 0 <= i < |c| - 1 ==> Edge(g, c[i], c[i + 1])
  }

  /** `order` lists every declared type once, each after every type it depends on. */
  ghost predicate IsTopoOrder(g: Graph, order: seq<string>)
  {
    && Enumerates(order, g.typeMap.Keys)
    && forall i, v :: 0 <= i < |order| && Edge(g, order[i], v) ==> v in order[..i]
  }

  /** The type objects named by `names`, in that order. */
  function Objects(names: seq<string>, typeMap: map<string, TypeObject>): (objs: seq<Node>)
    requires forall i :: 0 <= i < |names| ==> names[i] in typeMap
    ensures |objs| == |names|
    ensures forall i :: 0 <= i < |names| ==> objs[i] == Mapping(typeMap[names[i]])
  {
    if names == [] then [] else [Mapping(typeMap[names[0]])] + Objects(names[1..], typeMap)
  }

  /** The maps captured by `visit`: `visited`, `inStack`, and the names appended to `sortedTypes`. */
  datatype DfsState = DfsState(visited: set<string>, inStack: set<string>, sorted: seq<string>)

  /** The set of names listed in `s`. */
  function Elems(s: seq<string>): set<string>
  {
    if s == [] then {} else Elems(s[..|s| - 1]) + {s[|s| - 1]}
  }

  lemma {:induction false} ElemsOf(s: seq<string>)
    ensures forall x :: x in Elems(s) <==> x in s
  {
    if s != [] {
      ElemsOf(s[..|s| - 1]);
      assert s == s[..|s| - 1] + [s[|s| - 1]];
    }
  }

  lemma ElemsAppend(s: seq<string>, x: string)
    ensures Elems(s + [x]) == Elems(s) + {x}
  {
    assert (s + [x])[..|s|] == s;
  }

  /** Each name of `s` depends on the next one. */
  ghost predicate IsPath(g: Graph, s: seq<string>)
  {
    forall i :: 0 <= i < |s| - 1 ==> Edge(g, s[i], s[i + 1])
  }

  ghost predicate Distinct(s: seq<string>)
  {
    forall i, j :: 0 <= i < j < |s| ==> s[i] != s[j]
  }

  /** Every name of `s` comes after each declared type it depends on. */
  ghost predicate DependenciesFirst(g: Graph, s: seq<string>)
  {
    forall i, v :: 0 <= i < |s| && Edge(g, s[i], v) ==> v in s[..i]
  }

  /**
   * The invariant of the search: `inStack` holds the names of the stack,
   * which is a path along dependency edges; the finished names are
   * `visited`, none of them on the stack, listed once each in `sorted`, each
   * after every type it depends on.
   */
  ghost predicate DfsInv(g: Graph, st: DfsState, stack: seq<string>)
  {
    && st.visited <= g.typeMap.Keys
    && st.inStack == Elems(stack)
    && st.visited !! st.inStack
    && st.visited == Elems(st.sorted)
    && IsPath(g, stack)
    && Distinct(st.sorted)
    && DependenciesFirst(g, st.sorted)
  }

  /** Removing one more element from below a set makes it strictly smaller. */
  lemma FewerLeft(a: set<string>, b: set<string>, x: string)
    requires a <= b - {x} && x in b
    ensures |a| < |b|
  {
    assert |b - {x}| == |b| - 1;
    SubsetCard(a, b - {x});
  }

  lemma {:induction false} SubsetCard(a: set<string>, b: set<string>)
    requires a <= b
    ensures |a| <= |b|
    decreases |a|
  {
    if a != {} {
      var x :| x in a;
      SubsetCard(a - {x}, b - {x});
    }
  }

  /**
   * `visit`: a name on the stack is a cycle; a visited name is done;
   * otherwise the name goes on the stack, each declared dependency is
   * visited in list order, the first error is passed up, and the name is
   * then taken off the stack, marked visited and appended.
   */
  method Visit(g: Graph, st: DfsState, name: string, ghost stack: seq<string>) returns (st': DfsState, err: Option<SortError>)
    requires name in g.typeMap && DfsInv(g, st, stack)
    requires stack != [] ==> Edge(g, stack[|stack| - 1], name)
    ensures err.None? ==>
      && DfsInv(g, st', stack)
      && st'.inStack == st.inStack
      && st.visited <= st'.visited && name in st'.visited
      && st.sorted <= st'.sorted
    ensures err.Some? ==> err.value.CycleAt? && exists c :: IsCycle(g, c) && c[0] == err.value.name
    decreases |g.typeMap.Keys - st.visited - st.inStack|, 1
  {
    if name in st.inStack {
      StackCycle(g, st, stack, name);
      return st, Some(CycleAt(name));
    }
    if name in st.visited {
      return st, None;
    }
    var cur := st.(inStack := st.inStack + {name});
    StartVisit(g, st, stack, name);
    FewerLeft(g.typeMap.Keys - cur.visited - cur.inStack, g.typeMap.Keys - st.visited - st.inStack, name);
    cur, err := VisitDependencies(g, cur, name, stack + [name]);
    if err.Some? {
      return cur, err;
    }
    FinishVisit(g, st, cur, stack, name);
    st' := DfsState(cur.visited + {name}, cur.inStack - {name}, cur.sorted + [name]);
  }

  /**
   * The loop of `visit` over the dependency list of `name`, which is on top
   * of the stack: each declared dependency is visited in order, and the first
   * error ends the loop.
   */
  method VisitDependencies(g: Graph, st: DfsState, name: string, ghost path: seq<string>)
    returns (st': DfsState, err: Option<SortError>)
    requires name in g.typeMap && DfsInv(g, st, path) && path != [] && path[|path| - 1] == name
    ensures err.None? ==>
      && DfsInv(g, st', path)
      && st'.inStack == st.inStack
      && st.visited <= st'.visited && st.sorted <= st'.sorted
      && forall k :: 0 <= k < |Deps(g.depMap, name)| && Deps(g.depMap, name)[k] in g.typeMap ==>
           Deps(g.depMap, name)[k] in st'.visited
    ensures err.Some? ==> err.value.CycleAt? && exists c :: IsCycle(g, c) && c[0] == err.value.name
    decreases |g.typeMap.Keys - st.visited - st.inStack| + 1, 0
  {
    st' := st;
    var deps := Deps(g.depMap, name);
    for i := 0 to |deps|
      invariant DfsInv(g, st', path)
      invariant st'.inStack == st.inStack
      invariant st.visited <= st'.visited && st.sorted <= st'.sorted
      invariant forall k :: 0 <= k < i && deps[k] in g.typeMap ==> deps[k] in st'.visited
    {
      var dep := deps[i];
      if dep in g.typeMap {
        SubsetCard(g.typeMap.Keys - st'.visited - st'.inStack, g.typeMap.Keys - st.visited - st.inStack);
        var next, e := Visit(g, st', dep, path);
        if e.Some? {
          return next, e;
        }
        st' := next;
      }
    }
    err := None;
  }

  /** A name met again while on the stack closes a cycle: the stack from that name on, back to it. */
  lemma StackCycle(g: Graph, st: DfsState, stack: seq<string>, name: string)
    requires DfsInv(g, st, stack) && name in st.inStack
    requires stack != [] ==> Edge(g, stack[|stack| - 1], name)
    ensures exists c :: IsCycle(g, c) && c[0] == name
  {
    ElemsOf(stack);
    var idx :| 0 <= idx < |stack| && stack[idx] == name;
    var cycle := stack[idx..] + [name];
    assert forall i :: 0 <= i < |cycle| - 1 ==> Edge(g, cycle[i], cycle[i + 1]) by {
      forall i | 0 <= i < |cycle| - 1 ensures Edge(g, cycle[i], cycle[i + 1]) {
        if i < |cycle| - 2 {
          assert cycle[i] == stack[idx + i] && cycle[i + 1] == stack[idx + i + 1];
        }
      }
    }
    assert IsCycle(g, cycle);
  }

  /** Pushing a fresh name reached along an edge keeps the invariant. */
  lemma StartVisit(g: Graph, st: DfsState, stack: seq<string>, name: string)
    requires name in g.typeMap && DfsInv(g, st, stack)
    requires stack != [] ==> Edge(g, stack[|stack| - 1], name)
    requires name !in st.inStack && name !in st.visited
    ensures DfsInv(g, st.(inStack := st.inStack + {name}), stack + [name])
  {
    var path := stack + [name];
    ElemsAppend(stack, name);
    assert forall i :: 0 <= i < |stack| ==> path[i] == stack[i];
  }

  /** Popping a name whose declared dependencies are all finished, and appending it, keeps the invariant. */
  lemma FinishVisit(g: Graph, st: DfsState, cur: DfsState, stack: seq<string>, name: string)
    requires name in g.typeMap && DfsInv(g, st, stack) && DfsInv(g, cur, stack + [name])
    requires name !in st.inStack && cur.inStack == st.inStack + {name}
    requires forall k :: 0 <= k < |Deps(g.depMap, name)| && Deps(g.depMap, name)[k] in g.typeMap ==>
      Deps(g.depMap, name)[k] in cur.visited
    requires st.visited <= cur.visited && st.sorted <= cur.sorted
    ensures var st' := DfsState(cur.visited + {name}, cur.inStack - {name}, cur.sorted + [name]);
      && DfsInv(g, st', stack)
      && st'.inStack == st.inStack
      && st.visited <= st'.visited && name in st'.visited
      && st.sorted <= st'.sorted
  {
    ElemsAppend(stack, name);
    ElemsAppend(cur.sorted, name);
    ElemsOf(cur.sorted);
    forall v | Edge(g, name, v) ensures v in cur.sorted {
      var k :| 0 <= k < |Deps(g.depMap, name)| && Deps(g.depMap, name)[k] == v;
    }
    AppendFinished(g, cur.sorted, name);
  }

  /** Appending a new name whose dependencies are all listed keeps a list distinct and in dependency order. */
  lemma AppendFinished(g: Graph, sorted: seq<string>, name: string)
    requires Distinct(sorted) && DependenciesFirst(g, sorted) && name !in sorted
    requires forall v :: Edge(g, name, v) ==> v in sorted
    ensures Distinct(sorted + [name]) && DependenciesFirst(g, sorted + [name])
  {
    var s := sorted + [name];
    forall i, v | 0 <= i < |s| && Edge(g, s[i], v) ensures v in s[..i] {
      if i < |sorted| {
        assert s[..i] == sorted[..i];
      } else {
        assert s[..i] == sorted;
      }
    }
  }

  /** A list of declared types in dependency order admits no cycle. */
  lemma TopoOrderAcyclic(g: Graph, order: seq<string>)
    requires IsTopoOrder(g, order)
    ensures forall c :: !IsCycle(g, c)
  {
    forall c ensures !IsCycle(g, c) {
      if IsCycle(g, c) {
        CycleBackwards(g, order, c, |c| - 1);
      }
    }
  }

  /** The position of `x` in `s`. */
  function IndexOf(s: seq<string>, x: string): (n: nat)
    requires x in s
    ensures n < |s| && s[n] == x
  {
    if s[0] == x then 0 else 1 + IndexOf(s[1..], x)
  }

  /** Every step along a cycle moves strictly earlier in a dependency order. */
  lemma {:induction false} CycleBackwards(g: Graph, order: seq<string>, c: seq<string>, k: nat)
    requires IsTopoOrder(g, order) && IsCycle(g, c) && 1 <= k < |c|
    ensures c[k] in order && c[0] in order && IndexOf(order, c[k]) < IndexOf(order, c[0])
    decreases k
  {
    EdgeEarlier(g, order, c[k - 1], c[k]);
    if k > 1 {
      CycleBackwards(g, order, c, k - 1);
    }
  }

  /** A dependency comes earlier than the type that depends on it. */
  lemma EdgeEarlier(g: Graph, order: seq<string>, u: string, v: string)
    requires IsTopoOrder(g, order) && Edge(g, u, v)
    ensures u in order && v in order && IndexOf(order, v) < IndexOf(order, u)
  {
    var i := IndexOf(order, u);
    assert v in order[..i];
    var j :| 0 <= j < i && order[..i][j] == v;
    assert order[j] == v;
    assert IndexOf(order, v) == j;
  }

  /** `types` is present and is a list. */
  predicate HasTypeList(schema: map<string, Node>)
  {
    TypesKey in schema && schema[TypesKey].Sequence?
  }

  /**
   * `sortTypesByDependencies`: without a `types` list the schema is refused;
   * otherwise the types are indexed, every indexed name is visited in map
   * order, and the first cycle found is the error. When there is no cycle,
   * `types` is replaced by one object per distinct name, each after the
   * declared types its fields refer to. Success happens exactly when the
   * dependency graph has no cycle.
   */
  method SortTypesByDependencies(schema: map<string, Node>) returns (r: Result<map<string, Node>, SortError>)
    requires HasTypeList(schema) ==> WellFormedTypes(schema[TypesKey].items)
    ensures !HasTypeList(schema) ==> r == Failure(TypesNotList)
    ensures HasTypeList(schema) ==>
      var g := GraphOf(schema[TypesKey].items);
      && (r.Success? <==> forall c :: !IsCycle(g, c))
      && (r.Success? ==>
            exists order :: IsTopoOrder(g, order) && r.value == schema[TypesKey := Sequence(Objects(order, g.typeMap))])
      && (r.Failure? ==> r.error.CycleAt? && exists c :: IsCycle(g, c) && c[0] == r.error.name)
    ensures HasTypeList(schema) && r.Success? && DistinctNames(schema[TypesKey].items) ==>
      multiset(r.value[TypesKey].items) == multiset(schema[TypesKey].items)
  {
    if !HasTypeList(schema) {
      return Failure(TypesNotList);
    }
    var types := schema[TypesKey].items;
    var typeMap, dependencyMap := IndexTypes(types);
    var g := Graph(typeMap, dependencyMap);
    assert g == GraphOf(types);
    var st := DfsState({}, {}, []);
    var remaining := typeMap.Keys;
    while remaining != {}
      invariant remaining <= typeMap.Keys
      invariant DfsInv(g, st, [])
      invariant typeMap.Keys - remaining <= st.visited
      decreases |remaining|
    {
      var name :| name in remaining;
      var next, err := Visit(g, st, name, []);
      if err.Some? {
        ghost var c :| IsCycle(g, c) && c[0] == err.value.name;
        return Failure(err.value);
      }
      st := next;
      remaining := remaining - {name};
    }
    SearchDone(g, st);
    TopoOrderAcyclic(g, st.sorted);
    if DistinctNames(types) {
      ObjectsPermuteTypes(types, st.sorted);
    }
    r := Success(schema[TypesKey := Sequence(Objects(st.sorted, typeMap))]);
  }

  /** When every declared type is finished, the finished list is a dependency order. */
  lemma SearchDone(g: Graph, st: DfsState)
    requires DfsInv(g, st, []) && g.typeMap.Keys <= st.visited
    ensures IsTopoOrder(g, st.sorted)
  {
    ElemsOf(st.sorted);
  }

  /** The indexed names are exactly the names of the listed types. */
  lemma {:induction false} TypeMapKeys(types: seq<Node>)
    requires WellFormedTypes(types)
    ensures forall n :: n in TypeMapOf(types) <==> exists t :: t in types && TypeName(t) == n
  {
    if types != [] {
      var pre := types[..|types| - 1];
      var last := types[|types| - 1];
      assert types == pre + [last];
      TypeMapKeys(pre);
      forall n ensures n in TypeMapOf(types) <==> exists t :: t in types && TypeName(t) == n {
        if n in TypeMapOf(types) {
          if n == TypeName(last) {
            assert last in types;
          } else {
            assert n in TypeMapOf(pre);
            var t :| t in pre && TypeName(t) == n;
            assert t in types;
          }
        }
        if exists t :: t in types && TypeName(t) == n {
          var t :| t in types && TypeName(t) == n;
          if t != last {
            assert t in pre;
          }
        }
      }
    }
  }

  /** Under each indexed name sits the last listed type with that name. */
  lemma {:induction false} TypeMapValue(types: seq<Node>, n: string)
    requires WellFormedTypes(types) && n in TypeMapOf(types)
    ensures exists i ::
      && 0 <= i < |types| && TypeName(types[i]) == n && types[i] == Mapping(TypeMapOf(types)[n])
      && forall j :: i < j < |types| ==> TypeName(types[j]) != n
  {
    var pre := types[..|types| - 1];
    var last := types[|types| - 1];
    assert types == pre + [last];
    if TypeName(last) == n {
      assert types[|types| - 1] == Mapping(TypeMapOf(types)[n]);
    } else {
      assert n in TypeMapOf(pre);
      TypeMapValue(pre, n);
      var i :| 0 <= i < |pre| && TypeName(pre[i]) == n && pre[i] == Mapping(TypeMapOf(pre)[n])
        && forall j :: i < j < |pre| ==> TypeName(pre[j]) != n;
      assert types[i] == pre[i];
      forall j | i < j < |types| ensures TypeName(types[j]) != n {
        if j < |pre| {
          assert types[j] == pre[j];
        }
      }
    }
  }

  /** No two listed types share a name. */
  ghost predicate DistinctNames(types: seq<Node>)
    requires WellFormedTypes(types)
  {
    forall i, j :: 0 <= i < j < |types| ==> TypeName(types[i]) != TypeName(types[j])
  }

  /** A sequence without repetitions holds each of its elements exactly once. */
  lemma {:induction false} DistinctMultiset<T>(s: seq<T>)
    requires forall i, j :: 0 <= i < j < |s| ==> s[i] != s[j]
    ensures forall x :: multiset(s)[x] == if x in s then 1 else 0
  {
    if s != [] {
      var tail := s[1..];
      assert s == [s[0]] + tail;
      forall i, j | 0 <= i < j < |tail| ensures tail[i] != tail[j] {
        assert tail[i] == s[i + 1] && tail[j] == s[j + 1];
      }
      DistinctMultiset(tail);
      assert s[0] !in tail by {
        forall i | 0 <= i < |tail| ensures tail[i] != s[0] {
          assert tail[i] == s[i + 1];
        }
      }
      assert multiset(s) == multiset{s[0]} + multiset(tail);
    }
  }

  /** Two sequences without repetitions and with the same elements are permutations of each other. */
  lemma SameElements<T>(a: seq<T>, b: seq<T>)
    requires forall i, j :: 0 <= i < j < |a| ==> a[i] != a[j]
    requires forall i, j :: 0 <= i < j < |b| ==> b[i] != b[j]
    requires forall x :: x in a <==> x in b
    ensures multiset(a) == multiset(b)
  {
    DistinctMultiset(a);
    DistinctMultiset(b);
    assert forall x :: multiset(a)[x] == multiset(b)[x];
  }

  /**
   * When no two types share a name, the objects listed in any order of the
   * indexed names are the input types rearranged: each declared type appears
   * exactly once.
   */
  lemma ObjectsPermuteTypes(types: seq<Node>, order: seq<string>)
    requires WellFormedTypes(types) && DistinctNames(types)
    requires Enumerates(order, TypeMapOf(types).Keys)
    ensures multiset(Objects(order, TypeMapOf(types))) == multiset(types)
  {
    var tm := TypeMapOf(types);
    var objs := Objects(order, tm);
    forall k | 0 <= k < |objs| ensures objs[k] in types && TypeName(objs[k]) == order[k] {
      TypeMapValue(types, order[k]);
    }
    forall x | x in types ensures x in objs {
      var i :| 0 <= i < |types| && types[i] == x;
      var n := TypeName(x);
      TypeMapKeys(types);
      assert n in tm;
      TypeMapValue(types, n);
      var i' :| 0 <= i' < |types| && TypeName(types[i']) == n && types[i'] == Mapping(tm[n]);
      assert i' == i;
      var k :| 0 <= k < |order| && order[k] == n;
      assert objs[k] == x;
    }
    forall k, l | 0 <= k < l < |objs| ensures objs[k] != objs[l] {
      assert order[k] != order[l];
    }
    SameElements(objs, types);
  }

  /** The dependency list of `n` holds the references of every listed type named `n`, and nothing else. */
  lemma {:induction false} DepMapRefs(types: seq<Node>)
    requires WellFormedTypes(types)
    ensures forall n, v :: v in Deps(DepMapOf(types), n) <==>
      exists t :: t in types && TypeName(t) == n && v in FieldRefs(t)
  {
    if types != [] {
      var pre := types[..|types| - 1];
      var last := types[|types| - 1];
      assert types == pre + [last];
      DepMapRefs(pre);
      forall n, v ensures v in Deps(DepMapOf(types), n) <==> exists t :: t in types && TypeName(t) == n && v in FieldRefs(t) {
        DepsOfAdd(DepMapOf(pre), TypeName(last), FieldRefs(last), n);
        if v in Deps(DepMapOf(types), n) {
          if n == TypeName(last) && v in FieldRefs(last) {
            assert last in types;
          } else {
            var t :| t in pre && TypeName(t) == n && v in FieldRefs(t);
            assert t in types;
          }
        }
        if exists t :: t in types && TypeName(t) == n && v in FieldRefs(t) {
          var t :| t in types && TypeName(t) == n && v in FieldRefs(t);
          if t != last {
            assert t in pre;
          }
        }
      }
    }
  }

  lemma DepsOfAdd(depMap: map<string, seq<string>>, name: string, refs: seq<string>, n: string)
    ensures Deps(AddRefs(depMap, name, refs), n) == if n == name then Deps(depMap, n) + refs else Deps(depMap, n)
  {
  }

  /**
   * Scenario: with A declared first and B referring to A, the graph has the
   * single edge from B to A, and [A, B] is the only dependency order.
   */
  lemma DependentAfterDependency()
    ensures var a := Mapping(map[NameKey := Scalar("A")]);
      var b := Mapping(map[NameKey := Scalar("B"), FieldsKey := Sequence([Mapping(map[OfTypeKey := Scalar("A")])])]);
      WellFormedTypes([b, a]) &&
      var g := GraphOf([b, a]);
      && IsTopoOrder(g, ["A", "B"])
      && forall order :: IsTopoOrder(g, order) ==> order == ["A", "B"]
  {
    var a := Mapping(map[NameKey := Scalar("A")]);
    var field := Mapping(map[OfTypeKey := Scalar("A")]);
    var b := Mapping(map[NameKey := Scalar("B"), FieldsKey := Sequence([field])]);
    assert [b, a][..1] == [b] && [b][..0] == [];
    assert OfTypes([field]) == OfTypes([]) + ["A"];
    assert TypeName(a) == "A" && TypeName(b) == "B";
    assert FieldRefs(a) == [] && FieldRefs(b) == ["A"];
    assert TypeMapOf([b, a]) == TypeMapOf([b])["A" := a.entries];
    assert TypeMapOf([b]) == map[]["B" := b.entries];
    assert DepMapOf([b]) == map["B" := ["A"]];
    assert DepMapOf([b, a]) == DepMapOf([b]);
    var g := GraphOf([b, a]);
    assert g.typeMap.Keys == {"A", "B"};
    assert Deps(g.depMap, "B") == ["A"] && Deps(g.depMap, "A") == [];
    OnlyOrder(g, "A", "B");
  }

  /** Over two declared types where only `y` depends, on `x`, the one dependency order is [x, y]. */
  lemma OnlyOrder(g: Graph, x: string, y: string)
    requires x != y && g.typeMap.Keys == {x, y}
    requires Deps(g.depMap, x) == [] && Deps(g.depMap, y) == [x]
    ensures IsTopoOrder(g, [x, y])
    ensures forall order :: IsTopoOrder(g, order) ==> order == [x, y]
  {
    assert [x, y][..1] == [x];
    forall order | IsTopoOrder(g, order) ensures order == [x, y] {
      EnumerationLength(order, g.typeMap.Keys);
      assert Edge(g, y, x);
      var i := IndexOf(order, y);
      assert x in order[..i];
      assert order[0] != order[1];
    }
  }

  /** Scenario: types referring to each other form a cycle, so the sort fails. */
  lemma MutualReferenceIsCycle()
    ensures var a := Mapping(map[NameKey := Scalar("A"), FieldsKey := Sequence([Mapping(map[OfTypeKey := Scalar("B")])])]);
      var b := Mapping(map[NameKey := Scalar("B"), FieldsKey := Sequence([Mapping(map[OfTypeKey := Scalar("A")])])]);
      WellFormedTypes([a, b]) && IsCycle(GraphOf([a, b]), ["A", "B", "A"])
  {
    var fa := Mapping(map[OfTypeKey := Scalar("B")]);
    var fb := Mapping(map[OfTypeKey := Scalar("A")]);
    var a := Mapping(map[NameKey := Scalar("A"), FieldsKey := Sequence([fa])]);
    var b := Mapping(map[NameKey := Scalar("B"), FieldsKey := Sequence([fb])]);
    assert [a, b][..1] == [a] && [a][..0] == [];
    assert OfTypes([fa]) == OfTypes([]) + ["B"];
    assert OfTypes([fb]) == OfTypes([]) + ["A"];
    assert TypeName(a) == "A" && TypeName(b) == "B";
    assert FieldRefs(a) == ["B"] && FieldRefs(b) == ["A"];
    assert TypeMapOf([a]) == map[]["A" := a.entries];
    assert TypeMapOf([a, b]) == TypeMapOf([a])["B" := b.entries];
    assert DepMapOf([a]) == map["A" := ["B"]];
    assert DepMapOf([a, b]) == DepMapOf([a])["B" := ["A"]];
    var g := GraphOf([a, b]);
    assert Deps(g.depMap, "A") == ["B"] && Deps(g.depMap, "B") == ["A"];
    assert Edge(g, "A", "B") && Edge(g, "B", "A");
  }

  /** Scenario: a reference to an undeclared type is no edge, so a type referring only to undeclared names sorts alone. */
  lemma UndeclaredReferenceIgnored()
    ensures var a := Mapping(map[NameKey := Scalar("A"), FieldsKey := Sequence([Mapping(map[OfTypeKey := Scalar("String")])])]);
      WellFormedTypes([a]) &&
      var g := GraphOf([a]);
      && Deps(g.depMap, "A") == ["String"]
      && !Edge(g, "A", "String")
      && IsTopoOrder(g, ["A"])
  {
    var f := Mapping(map[OfTypeKey := Scalar("String")]);
    var a := Mapping(map[NameKey := Scalar("A"), FieldsKey := Sequence([f])]);
    assert [a][..0] == [];
    assert OfTypes([f]) == OfTypes([]) + ["String"];
    assert TypeName(a) == "A" && FieldRefs(a) == ["String"];
    assert TypeMapOf([a]) == map[]["A" := a.entries];
    assert DepMapOf([a]) == map["A" := ["String"]];
    var g := GraphOf([a]);
    assert g.typeMap.Keys == {"A"};
  }
}
