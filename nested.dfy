/**
 * `buildNestedStructure` and `buildNestedObject`: turning the child paths of
 * one level into nested mappings.
 */
module NestedPaths {
  import opened Wrappers
  import opened Paths
  import opened ConfigTree

  /**
   * The mapping the walk steps into at `key`: the existing mapping there, or a
   * fresh empty one when the key is missing or holds a non-mapping value.
   */
  function Descend(m: map<string, Node>, key: string): map<string, Node>
  {
    if key in m && m[key].Mapping? then m[key].entries else map[]
  }

  /**
   * `m` after the walk of `buildNestedStructure` stores `v` at `parts`:
   * intermediate mappings are kept, created when missing, and REPLACED by a
   * fresh mapping when a non-mapping value is in the way.
   */
  function InsertPath(m: map<string, Node>, parts: seq<string>, v: Node): map<string, Node>
    requires |parts| >= 1
    decreases |parts|
  {
    if |parts| == 1 then m[parts[0] := v]
    else m[parts[0] := Mapping(InsertPath(Descend(m, parts[0]), parts[1..], v))]
  }

  /**
   * The inner loop of `buildNestedStructure`: walks down `parts` remembering
   * each mapping it steps into (creating or replacing as the source does), then
   * stores `v` under the last part and writes the changed mappings back on the
   * way up. Go changes the nested maps through the `current` reference; a
   * value model writes each level back explicitly.
   */
  method InsertAlongPath(root: map<string, Node>, parts: seq<string>, v: Node)
    returns (r: map<string, Node>)
    requires |parts| >= 1
    ensures r == InsertPath(root, parts, v)
  {
    var trail := [root];
    var i := 0;
    while i < |parts| - 1
      invariant 0 <= i <= |parts| - 1
      invariant |trail| == i + 1 && trail[0] == root
      invariant forall j :: 0 <= j < i ==> trail[j + 1] == Descend(trail[j], parts[j])
    {
      var current := trail[i];
      var part := parts[i];
      var next: map<string, Node>;
      if part in current {
        var existing := current[part];
        if existing.Mapping? {
          next := existing.entries;
        } else {
          next := map[];
        }
      } else {
        next := map[];
      }
      trail := trail + [next];
      i := i + 1;
    }
    var current := trail[i][parts[i] := v];
    while i > 0
      invariant 0 <= i <= |parts| - 1
      invariant current == InsertPath(trail[i], parts[i..], v)
    {
      assert parts[i - 1..][1..] == parts[i..];
      i := i - 1;
      current := trail[i][parts[i] := Mapping(current)];
    }
    assert parts[0..] == parts;
    r := current;
  }

  /** After the walk, following `parts` finds `v`. */
  lemma {:induction false} InsertPathFinds(m: map<string, Node>, parts: seq<string>, v: Node)
    requires |parts| >= 1
    ensures LookupPath(InsertPath(m, parts, v), parts) == Some(v)
    decreases |parts|
  {
    if |parts| > 1 {
      InsertPathFinds(Descend(m, parts[0]), parts[1..], v);
    }
  }

  /**
   * The walk changes nothing off its path: every path that is neither a prefix
   * nor an extension of `parts` finds what it found before (found or not).
   */
  lemma {:induction false} InsertPathOffPath(m: map<string, Node>, parts: seq<string>, v: Node, q: seq<string>)
    requires |parts| >= 1 && |q| >= 1
    requires !IsPrefix(q, parts) && !IsPrefix(parts, q)
    ensures LookupPath(InsertPath(m, parts, v), q) == LookupPath(m, q)
    decreases |parts|
  {
    if q[0] == parts[0] {
      PrefixTail(q, parts);
      PrefixTail(parts, q);
      var sub := Descend(m, parts[0]);
      InsertPathOffPath(sub, parts[1..], v, q[1..]);
      if !(parts[0] in m && m[parts[0]].Mapping?) {
        assert LookupPath(map[], q[1..]) == None;
      }
    }
  }

  /**
   * A non-mapping value met at an intermediate segment is discarded: the walk
   * leaves there a mapping that holds only the rest of the path.
   */
  lemma {:induction false} InsertPathReplacesConflict(m: map<string, Node>, parts: seq<string>, v: Node, j: nat)
    requires 1 <= j < |parts|
    requires LookupPath(m, parts[..j]).Some? && !LookupPath(m, parts[..j]).value.Mapping?
    ensures LookupPath(InsertPath(m, parts, v), parts[..j]) == Some(Mapping(InsertPath(map[], parts[j..], v)))
    decreases j
  {
    if j > 1 {
      assert parts[..j][1..] == parts[1..][..j - 1];
      assert parts[0] in m && m[parts[0]].Mapping?;
      InsertPathReplacesConflict(Descend(m, parts[0]), parts[1..], v, j - 1);
      assert parts[1..][j - 1..] == parts[j..];
    }
  }

  /**
   * `buildNestedObject`: a chain of single-key mappings, one per path segment,
   * ending in `v`. Go walks forwards through freshly created maps; the value
   * model builds the same chain from its innermost layer out.
   */
  method BuildNestedObject(childPath: string, v: Node) returns (r: map<string, Node>)
    ensures r == InsertPath(map[], Split(childPath), v)
  {
    var pathParts := Split(childPath);
    var i := |pathParts| - 1;
    r := map[pathParts[i] := v];
    while i > 0
      invariant 0 <= i < |pathParts|
      invariant r == InsertPath(map[], pathParts[i..], v)
    {
      assert pathParts[i - 1..][1..] == pathParts[i..];
      i := i - 1;
      r := map[pathParts[i] := Mapping(r)];
    }
    assert pathParts[0..] == pathParts;
  }

  /**
   * The chain holds exactly the one path: each proper prefix leads to a
   * mapping with the single next segment as key, the whole path finds `v`,
   * and every path that leaves it finds nothing.
   */
  lemma {:induction false} ChainShape(parts: seq<string>, v: Node, q: seq<string>)
    requires |parts| >= 1 && |q| >= 1
    ensures IsPrefix(q, parts) && |q| < |parts| ==>
      && LookupPath(InsertPath(map[], parts, v), q) == Some(Mapping(InsertPath(map[], parts[|q|..], v)))
      && InsertPath(map[], parts[|q|..], v).Keys == {parts[|q|]}
    ensures IsPrefix(q, parts) && |q| == |parts| ==> LookupPath(InsertPath(map[], parts, v), q) == Some(v)
    ensures !IsPrefix(q, parts) && !IsPrefix(parts, q) ==> LookupPath(InsertPath(map[], parts, v), q) == None
    decreases |q|
  {
    if IsPrefix(q, parts) {
      if |q| == |parts| {
        assert q == parts;
        InsertPathFinds(map[], parts, v);
      } else if |q| > 1 {
        assert q[1..] == parts[1..][..|q| - 1];
        ChainShape(parts[1..], v, q[1..]);
        assert parts[1..][|q| - 1..] == parts[|q|..];
      }
    } else if !IsPrefix(parts, q) {
      InsertPathOffPath(map[], parts, v, q);
    }
  }

  /** The level map of `buildNestedStructure`: child path to parameter. */
  type Children = map<string, Parameter>

  /** The child mapping after inserting the children named by `order`, in that order. */
  function InsertAll(m: map<string, Node>, order: seq<string>, children: Children, json: JsonParser): map<string, Node>
    requires forall i :: 0 <= i < |order| ==> order[i] in children
    decreases |order|
  {
    if order == [] then m
    else
      var last := order[|order| - 1];
      InsertPath(InsertAll(m, order[..|order| - 1], children, json), Split(last), ParseValue(json, children[last].value))
  }

  /** `m` is what `buildNestedStructure` may return for `children`, for some iteration order. */
  ghost predicate NestedFrom(m: map<string, Node>, children: Children, json: JsonParser)
  {
    exists order :: Enumerates(order, children.Keys) && m == InsertAll(map[], order, children, json)
  }

  /** `buildNestedStructure`: walks each child's path in turn, in map order. */
  method BuildNestedStructure(levelParams: Children, json: JsonParser) returns (result: map<string, Node>)
    ensures NestedFrom(result, levelParams, json)
  {
    result := map[];
    var remaining := levelParams.Keys;
    ghost var order: seq<string> := [];
    while remaining != {}
      invariant remaining <= levelParams.Keys
      invariant forall i, j :: 0 <= i < j < |order| ==> order[i] != order[j]
      invariant forall i :: 0 <= i < |order| ==> order[i] in levelParams && order[i] !in remaining
      invariant forall k :: k in levelParams && k !in remaining ==> k in order
      invariant result == InsertAll(map[], order, levelParams, json)
      decreases |remaining|
    {
      var childPath :| childPath in remaining;
      var pathParts := Split(childPath);
      result := InsertAlongPath(result, pathParts, ParseValue(json, levelParams[childPath].value));
      order := order + [childPath];
      remaining := remaining - {childPath};
    }
    assert Enumerates(order, levelParams.Keys);
  }

  /** The first segments of the child paths named by `order`. */
  function FirstSegments(order: seq<string>): (heads: set<string>)
    ensures forall i :: 0 <= i < |order| ==> Split(order[i])[0] in heads
    decreases |order|
  {
    if order == [] then {} else FirstSegments(order[..|order| - 1]) + {Split(order[|order| - 1])[0]}
  }

  /** Every first segment comes from a child named by `order`. */
  lemma {:induction false} FirstSegmentsFrom(order: seq<string>, k: string)
    requires k in FirstSegments(order)
    ensures exists i :: 0 <= i < |order| && Split(order[i])[0] == k
    decreases |order|
  {
    var n := |order|;
    if Split(order[n - 1])[0] != k {
      FirstSegmentsFrom(order[..n - 1], k);
      var i :| 0 <= i < n - 1 && Split(order[..n - 1][i])[0] == k;
      assert order[..n - 1][i] == order[i];
    }
  }

  /** The keys inserted by `InsertAll` are the first segments of the children inserted. */
  lemma {:induction false} InsertAllKeys(m: map<string, Node>, order: seq<string>, children: Children, json: JsonParser)
    requires forall i :: 0 <= i < |order| ==> order[i] in children
    ensures InsertAll(m, order, children, json).Keys == m.Keys + FirstSegments(order)
    decreases |order|
  {
    if order != [] {
      InsertAllKeys(m, order[..|order| - 1], children, json);
    }
  }

  /** No child's path is a prefix of another's (as sequences of segments). */
  ghost predicate PrefixFree(children: Children)
  {
    forall c1, c2 :: c1 in children && c2 in children && c1 != c2 ==> !IsPrefix(Split(c1), Split(c2))
  }

  /** In a prefix-free level, each child inserted can be found at its path, whatever the order. */
  lemma {:induction false} InsertAllFinds(m: map<string, Node>, order: seq<string>, children: Children, json: JsonParser)
    requires forall i :: 0 <= i < |order| ==> order[i] in children
    requires forall i, j :: 0 <= i < j < |order| ==> order[i] != order[j]
    requires PrefixFree(children)
    ensures forall i :: 0 <= i < |order| ==>
      LookupPath(InsertAll(m, order, children, json), Split(order[i])) == Some(ParseValue(json, children[order[i]].value))
    decreases |order|
  {
    if order != [] {
      var n := |order|;
      var pre := order[..n - 1];
      var last := order[n - 1];
      var v := ParseValue(json, children[last].value);
      var before := InsertAll(m, pre, children, json);
      var after := InsertAll(m, order, children, json);
      assert after == InsertPath(before, Split(last), v);
      InsertAllFinds(m, pre, children, json);
      InsertPathFinds(before, Split(last), v);
      forall i | 0 <= i < n - 1
        ensures LookupPath(after, Split(order[i])) == Some(ParseValue(json, children[order[i]].value))
      {
        assert pre[i] == order[i] && order[i] != last;
        InsertPathOffPath(before, Split(last), v, Split(order[i]));
      }
    }
  }

  /** The keys of a nested structure are the first segments of the level's child paths. */
  lemma NestedFromKeys(m: map<string, Node>, children: Children, json: JsonParser)
    requires NestedFrom(m, children, json)
    ensures m.Keys == set c | c in children :: Split(c)[0]
  {
    var order :| Enumerates(order, children.Keys) && m == InsertAll(map[], order, children, json);
    InsertAllKeys(map[], order, children, json);
    forall k | k in m ensures k in set c | c in children :: Split(c)[0] {
      FirstSegmentsFrom(order, k);
      var i :| 0 <= i < |order| && Split(order[i])[0] == k;
    }
    forall c | c in children ensures Split(c)[0] in m {
      var i :| 0 <= i < |order| && order[i] == c;
    }
  }

  /**
   * In a level where no child path is a prefix of another, every child's value
   * is found along its split path, for every iteration order.
   */
  lemma NestedFromFinds(m: map<string, Node>, children: Children, json: JsonParser)
    requires NestedFrom(m, children, json)
    requires PrefixFree(children)
    ensures forall c :: c in children ==> LookupPath(m, Split(c)) == Some(ParseValue(json, children[c].value))
  {
    var order :| Enumerates(order, children.Keys) && m == InsertAll(map[], order, children, json);
    InsertAllFinds(map[], order, children, json);
    forall c | c in children
      ensures LookupPath(m, Split(c)) == Some(ParseValue(json, children[c].value))
    {
      var i :| 0 <= i < |order| && order[i] == c;
    }
  }

  /**
   * When one child path extends another, the result depends on the map
   * order: with children "b" and "b/c", where the value of "b" is not a
   * mapping, visiting "b" first lets "b/c" replace that value by a mapping, and visiting "b/c" first lets "b" overwrite that
   * mapping. Both trees are possible outcomes of `buildNestedStructure`.
   */
  lemma NestedOrderDependent(pb: Parameter, pbc: Parameter, json: JsonParser)
    requires !ParseValue(json, pb.value).Mapping?
    ensures var children := map["b" := pb, "b/c" := pbc];
      var vb := ParseValue(json, pb.value);
      var vbc := ParseValue(json, pbc.value);
      && NestedFrom(map["b" := Mapping(map["c" := vbc])], children, json)
      && NestedFrom(map["b" := vb], children, json)
  {
    var children := map["b" := pb, "b/c" := pbc];
    var first := ["b", "b/c"];
    var second := ["b/c", "b"];
    assert Enumerates(first, children.Keys);
    assert Enumerates(second, children.Keys);
    ParentFirst(pb, pbc, json);
    ChildFirst(pb, pbc, json);
  }

  /** The pieces of the two child paths "b" and "b/c". */
  lemma SplitBC()
    ensures Split("b") == ["b"] && Split("b/c") == ["b", "c"]
  {
    SplitNoSlash("b");
    SplitNoSlash("c");
    assert "b/c" == "b" + [Slash] + "c";
    SplitCons("b", "c");
  }

  /** Visiting "b" and then "b/c": the mapping built for "b/c" replaces the value of "b". */
  lemma ParentFirst(pb: Parameter, pbc: Parameter, json: JsonParser)
    requires !ParseValue(json, pb.value).Mapping?
    ensures var vbc := ParseValue(json, pbc.value);
      InsertAll(map[], ["b", "b/c"], map["b" := pb, "b/c" := pbc], json) == map["b" := Mapping(map["c" := vbc])]
  {
    var children := map["b" := pb, "b/c" := pbc];
    var vb := ParseValue(json, pb.value);
    var vbc := ParseValue(json, pbc.value);
    SplitBC();
    assert ["b", "b/c"][..1] == ["b"] && ["b"][..0] == [];
    assert ["b", "c"][1..] == ["c"];
    assert InsertAll(map[], ["b"], children, json) == map["b" := vb];
    assert InsertPath(map["b" := vb], ["b", "c"], vbc) == map["b" := Mapping(map["c" := vbc])];
  }

  /** Visiting "b/c" and then "b": the value of "b" overwrites the mapping built for "b/c". */
  lemma ChildFirst(pb: Parameter, pbc: Parameter, json: JsonParser)
    ensures var vb := ParseValue(json, pb.value);
      InsertAll(map[], ["b/c", "b"], map["b" := pb, "b/c" := pbc], json) == map["b" := vb]
  {
    var children := map["b" := pb, "b/c" := pbc];
    var vbc := ParseValue(json, pbc.value);
    SplitBC();
    assert ["b/c", "b"][..1] == ["b/c"] && ["b/c"][..0] == [];
    assert ["b", "c"][1..] == ["c"];
    assert InsertPath(map[], ["b", "c"], vbc) == map["b" := Mapping(map["c" := vbc])];
    assert InsertAll(map[], ["b/c"], children, json) == map["b" := Mapping(map["c" := vbc])];
  }
}
