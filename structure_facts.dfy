/**
 * What `buildStructure` produces for small parameter sets: where a single
 * parameter lands, and the two shapes sibling parameters take.
 */
module StructureFacts {
  import opened Wrappers
  import opened Paths
  import opened ConfigTree
  import opened Levels
  import opened NestedPaths
  import opened Assembly

  /** The level map of a single parameter. */
  lemma GroupOfOne(p: Parameter, loc: Parameter -> Slot)
    ensures GroupBy([p], loc) == map[loc(p).level := map[loc(p).child := p]]
  {
    assert [p][..0] == [];
  }

  /** The level map of two parameters filed at different levels. */
  lemma GroupOfTwo(p: Parameter, q: Parameter, loc: Parameter -> Slot)
    requires loc(p).level != loc(q).level
    ensures GroupBy([p, q], loc) == map[loc(p).level := map[loc(p).child := p], loc(q).level := map[loc(q).child := q]]
  {
    assert [p, q][..1] == [p];
    GroupOfOne(p, loc);
  }

  /** The level map of two parameters filed at the same level under different child keys. */
  lemma GroupOfTwoChildren(p: Parameter, q: Parameter, loc: Parameter -> Slot)
    requires loc(p).level == loc(q).level && loc(p).child != loc(q).child
    ensures GroupBy([p, q], loc) == map[loc(p).level := map[loc(p).child := p, loc(q).child := q]]
  {
    assert [p, q][..1] == [p];
    GroupOfOne(p, loc);
  }

  /** The tree assembled from a level map holding one parameter at slot `s`. */
  lemma SingleSlot(p: Parameter, s: Slot, json: JsonParser, result: map<string, Node>)
    requires AssembledFrom(result, map[s.level := map[s.child := p]], json)
    ensures var v := ParseValue(json, p.value);
      && (s.level == Here ==> result == map[s.child := v])
      && (s.level != Here && s.child == Here ==> result == map[s.level := v])
      && (s.level != Here && s.child != Here ==> result == map[s.level := Mapping(InsertPath(map[], Split(s.child), v))])
  {
    var v := ParseValue(json, p.value);
    var lp := map[s.child := p];
    var levels := map[s.level := lp];
    var order: seq<string>, trace: seq<map<string, Node>> :| Enumerates(order, levels.Keys) && |trace| == |order| + 1
      && trace[0] == map[] && trace[|order|] == result
      && forall i :: 0 <= i < |order| ==> LevelStep(trace[i], trace[i + 1], order[i], levels[order[i]], json);
    EnumerationLength(order, levels.Keys);
    assert order[0] == s.level;
    assert LevelStep(map[], result, s.level, lp, json);
    if s.level == Here {
      assert result == map[][s.child := v];
    } else {
      assert result == map[s.level := result[s.level]];
    }
  }

  /**
   * A single parameter becomes a one-key tree decided by its slot: at the root
   * level it is stored under its child key; a level whose child is the
   * sentinel holds the value itself; any other level holds a chain of
   * mappings along the child path, so the value is found along the pieces of
   * the relative path.
   */
  lemma SingleParameter(p: Parameter, basePath: string, stripPrefix: bool, json: JsonParser, result: map<string, Node>)
    requires AssembledFrom(result, Group([p], basePath, stripPrefix), json)
    ensures var s := Locate(p, basePath, stripPrefix);
      var v := ParseValue(json, p.value);
      && (s.level == Here ==> result == map[s.child := v])
      && (s.level != Here && s.child == Here ==> result == map[s.level := v])
      && (s.level != Here && s.child != Here ==> result == map[s.level := Mapping(InsertPath(map[], Split(s.child), v))])
    ensures var s := Locate(p, basePath, stripPrefix);
      s.level != Here && s.child != Here ==>
        LookupPath(result, [s.level] + Split(s.child)) == Some(ParseValue(json, p.value))
  {
    var s := Locate(p, basePath, stripPrefix);
    var v := ParseValue(json, p.value);
    GroupOfOne(p, q => Locate(q, basePath, stripPrefix));
    SingleSlot(p, s, json, result);
    if s.level != Here && s.child != Here {
      InsertPathFinds(map[], Split(s.child), v);
      assert ([s.level] + Split(s.child))[1..] == Split(s.child);
    }
  }

  /** A name directly under the base path sits at the level of that name, under the sentinel. */
  lemma ChildSlot(basePath: string, a: string, value: string)
    requires basePath == [] || basePath[|basePath| - 1] != Slash
    requires a != [] && Slash !in a
    ensures Locate(Parameter(basePath + [Slash] + a, value), basePath, true) == Slot(a, Here)
  {
    RelativeOfChild(basePath, a);
    SplitNoSlash(a);
  }

  /** Two parameters directly under the base path give an object with one key each. */
  lemma SiblingLeaves(basePath: string, a: string, b: string, va: string, vb: string, json: JsonParser, result: map<string, Node>)
    requires basePath == [] || basePath[|basePath| - 1] != Slash
    requires a != [] && Slash !in a && a != Here
    requires b != [] && Slash !in b && b != Here && a != b
    requires AssembledFrom(result, Group([Parameter(basePath + [Slash] + a, va), Parameter(basePath + [Slash] + b, vb)], basePath, true), json)
    ensures result == map[a := ParseValue(json, va), b := ParseValue(json, vb)]
  {
    var pa := Parameter(basePath + [Slash] + a, va);
    var pb := Parameter(basePath + [Slash] + b, vb);
    ChildSlot(basePath, a, va);
    ChildSlot(basePath, b, vb);
    GroupOfTwo(pa, pb, p => Locate(p, basePath, true));
    SiblingSlots(pa, pb, a, b, json, result);
  }

  lemma SiblingSlots(pa: Parameter, pb: Parameter, a: string, b: string, json: JsonParser, result: map<string, Node>)
    requires a != Here && b != Here && a != b
    requires AssembledFrom(result, map[a := map[Here := pa], b := map[Here := pb]], json)
    ensures result == map[a := ParseValue(json, pa.value), b := ParseValue(json, pb.value)]
  {
    var levels := map[a := map[Here := pa], b := map[Here := pb]];
    AssembledKeys(result, levels, json);
    AssembledLevel(result, levels, json, a);
    AssembledLevel(result, levels, json, b);
  }

  /** A name two segments under the base path sits at the level of its first segment, under the second. */
  lemma GrandchildSlot(basePath: string, level: string, child: string, value: string)
    requires basePath == [] || basePath[|basePath| - 1] != Slash
    requires level != [] && Slash !in level && child != [] && Slash !in child
    ensures Locate(Parameter(basePath + [Slash] + (level + [Slash] + child), value), basePath, true) == Slot(level, child)
  {
    var rel := level + [Slash] + child;
    RelativeOfChild(basePath, rel);
    SlotOfTwoSegments(basePath + [Slash] + rel, level, child);
  }

  lemma SlotOfTwoSegments(name: string, level: string, child: string)
    requires level != [] && Slash !in level && child != [] && Slash !in child
    ensures SlotOf(name, level + [Slash] + child) == Slot(level, child)
  {
    SplitNoSlash(child);
    SplitCons(level, child);
    assert Split(level + [Slash] + child) == [level, child];
    assert Join([child]) == child;
  }

  /**
   * Two leaf parameters under the same level become a list, not an object:
   * with base "/app", "/app/user/name" and "/app/user/age" give `user` as a
   * list holding both values.
   */
  lemma LeafSiblingsBecomeList(basePath: string, level: string, c1: string, c2: string, v1: string, v2: string,
                               json: JsonParser, result: map<string, Node>)
    requires basePath == [] || basePath[|basePath| - 1] != Slash
    requires level != [] && Slash !in level && level != Here
    requires c1 != [] && Slash !in c1 && c2 != [] && Slash !in c2 && c1 != c2
    requires AssembledFrom(result, Group([Parameter(basePath + [Slash] + (level + [Slash] + c1), v1),
                                          Parameter(basePath + [Slash] + (level + [Slash] + c2), v2)], basePath, true), json)
    ensures result.Keys == {level} && result[level].Sequence?
    ensures var items := result[level].items;
      |items| == 2 && ParseValue(json, v1) in items && ParseValue(json, v2) in items
  {
    var p1 := Parameter(basePath + [Slash] + (level + [Slash] + c1), v1);
    var p2 := Parameter(basePath + [Slash] + (level + [Slash] + c2), v2);
    GrandchildSlot(basePath, level, c1, v1);
    GrandchildSlot(basePath, level, c2, v2);
    GroupOfTwoChildren(p1, p2, p => Locate(p, basePath, true));
    LeafSlots(p1, p2, level, c1, c2, json, result);
  }

  lemma LeafSlots(p1: Parameter, p2: Parameter, level: string, c1: string, c2: string, json: JsonParser, result: map<string, Node>)
    requires level != Here && Slash !in c1 && Slash !in c2 && c1 != c2
    requires AssembledFrom(result, map[level := map[c1 := p1, c2 := p2]], json)
    ensures result.Keys == {level} && result[level].Sequence?
    ensures var items := result[level].items;
      |items| == 2 && ParseValue(json, p1.value) in items && ParseValue(json, p2.value) in items
  {
    var lp := map[c1 := p1, c2 := p2];
    var levels := map[level := lp];
    AssembledKeys(result, levels, json);
    TwoLeavesArrayShaped(p1, p2, c1, c2);
    AssembledLevel(result, levels, json, level);
    assert result[level].Sequence? && ListsValues(result[level].items, lp, json);
    ListsValuesFacts(result[level].items, lp, json);
    assert c1 in lp && lp[c1] == p1 && c2 in lp && lp[c2] == p2;
  }

  /** Two distinct separator-free child keys make a level that becomes a list. */
  lemma TwoLeavesArrayShaped(p1: Parameter, p2: Parameter, c1: string, c2: string)
    requires Slash !in c1 && Slash !in c2 && c1 != c2
    ensures ArrayShaped(map[c1 := p1, c2 := p2]) && |map[c1 := p1, c2 := p2]| == 2
  {
    var lp := map[c1 := p1, c2 := p2];
    assert lp.Keys == {c1, c2};
    assert |lp| == 2;
    assert Count(c1) == 0 && Count(c2) == 0;
  }
}
