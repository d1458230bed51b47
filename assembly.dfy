/**
 * `buildStructure` and the functions it drives: the level map is turned into
 * the configuration tree one level at a time, in map order.
 */
module Assembly {
  import opened Paths
  import opened ConfigTree
  import opened Levels
  import opened NestedPaths

  /** The key under which a root level with several parameters is stored as a list. */
  const Items: string := "items"

  /** `shouldBeArray`'s answer: more than one child, and no child path holds a separator. */
  predicate ArrayShaped(levelParams: Children)
  {
    |levelParams| > 1 && forall c :: c in levelParams ==> Count(c) == 0
  }

  /**
   * `shouldBeArray`: remembers the separator count of the first child seen and
   * gives up as soon as another child's count differs; the level is a list
   * only when all counts agree and are zero.
   */
  method ShouldBeArray(levelParams: Children) returns (b: bool)
    ensures b <==> ArrayShaped(levelParams)
  {
    if |levelParams| <= 1 {
      return false;
    }
    var firstDepth: int := -1;
    ghost var first: string := "";
    var remaining := levelParams.Keys;
    while remaining != {}
      invariant remaining <= levelParams.Keys
      invariant firstDepth == -1 <==> remaining == levelParams.Keys
      invariant firstDepth != -1 ==> first in levelParams && Count(first) == firstDepth
      invariant forall c :: c in levelParams && c !in remaining ==> Count(c) == firstDepth
      decreases |remaining|
    {
      var childPath :| childPath in remaining;
      var depth := Count(childPath);
      if firstDepth == -1 {
        firstDepth := depth;
        first := childPath;
      } else if depth != firstDepth {
        assert Count(first) != 0 || Count(childPath) != 0;
        return false;
      }
      remaining := remaining - {childPath};
    }
    return firstDepth == 0;
  }

  /** `items` lists the decoded values of the level's parameters, one per child, in some map order. */
  ghost predicate ListsValues(items: seq<Node>, levelParams: Children, json: JsonParser)
  {
    exists order ::
      && Enumerates(order, levelParams.Keys)
      && |items| == |order|
      && forall i :: 0 <= i < |order| ==> items[i] == ParseValue(json, levelParams[order[i]].value)
  }

  /** `buildArrayFromMap`: appends each parameter's decoded value, in map order. */
  method BuildArrayFromMap(params: Children, json: JsonParser) returns (result: seq<Node>)
    ensures ListsValues(result, params, json)
  {
    result := [];
    var remaining := params.Keys;
    ghost var order: seq<string> := [];
    while remaining != {}
      invariant remaining <= params.Keys
      invariant forall i, j :: 0 <= i < j < |order| ==> order[i] != order[j]
      invariant forall i :: 0 <= i < |order| ==> order[i] in params && order[i] !in remaining
      invariant forall k :: k in params && k !in remaining ==> k in order
      invariant |result| == |order|
      invariant forall i :: 0 <= i < |order| ==> result[i] == ParseValue(json, params[order[i]].value)
      decreases |remaining|
    {
      var key :| key in remaining;
      result := result + [ParseValue(json, params[key].value)];
      order := order + [key];
      remaining := remaining - {key};
    }
    assert Enumerates(order, params.Keys);
  }

  /** A list built from a level has one element per parameter, and holds every parameter's value and no other. */
  lemma ListsValuesFacts(items: seq<Node>, levelParams: Children, json: JsonParser)
    requires ListsValues(items, levelParams, json)
    ensures |items| == |levelParams|
    ensures forall c :: c in levelParams ==> ParseValue(json, levelParams[c].value) in items
    ensures forall x :: x in items ==> exists c :: c in levelParams && x == ParseValue(json, levelParams[c].value)
  {
    var order :| Enumerates(order, levelParams.Keys) && |items| == |order|
      && forall i :: 0 <= i < |order| ==> items[i] == ParseValue(json, levelParams[order[i]].value);
    EnumerationLength(order, levelParams.Keys);
    forall c | c in levelParams ensures ParseValue(json, levelParams[c].value) in items {
      var i :| 0 <= i < |order| && order[i] == c;
      assert items[i] == ParseValue(json, levelParams[c].value);
    }
    forall x | x in items ensures exists c :: c in levelParams && x == ParseValue(json, levelParams[c].value) {
      var i :| 0 <= i < |items| && items[i] == x;
      assert order[i] in levelParams;
    }
  }

  /** The keys a root level writes: "items" when it holds several parameters, else its own names. */
  function RootKeys(levelParams: Children): set<string>
  {
    if |levelParams| > 1 then {Items} else levelParams.Keys
  }

  /**
   * What `processRootLevel` does to `before`: several parameters become a
   * list under "items"; a single one is stored under its name; an empty level
   * changes nothing.
   */
  ghost predicate RootStep(before: map<string, Node>, after: map<string, Node>, levelParams: Children, json: JsonParser)
  {
    if |levelParams| > 1 then
      && Items in after
      && after == before[Items := after[Items]]
      && after[Items].Sequence?
      && ListsValues(after[Items].items, levelParams, json)
    else if |levelParams| == 1 then
      forall n :: n in levelParams ==> after == before[n := ParseValue(json, levelParams[n].value)]
    else
      after == before
  }

  /**
   * `processRootLevel`. With at most one parameter, Go's loop over the level
   * runs at most once; the model picks the one entry.
   */
  method ProcessRootLevel(result: map<string, Node>, levelParams: Children, json: JsonParser)
    returns (result': map<string, Node>)
    ensures RootStep(result, result', levelParams, json)
  {
    if |levelParams| > 1 {
      var items := BuildArrayFromMap(levelParams, json);
      result' := result[Items := Sequence(items)];
    } else if |levelParams| == 1 {
      var paramName :| paramName in levelParams;
      assert levelParams.Keys == {paramName} by {
        assert |levelParams.Keys - {paramName}| == 0;
      }
      result' := result[paramName := ParseValue(json, levelParams[paramName].value)];
    } else {
      result' := result;
    }
  }

  /**
   * The value `processNestedLevel` stores for a level: a single child is its
   * decoded value when it is the sentinel, and a chain of mappings along its
   * path otherwise; several children are a list when `shouldBeArray` holds
   * and a nested mapping otherwise.
   */
  ghost predicate LevelValue(v: Node, levelParams: Children, json: JsonParser)
  {
    if |levelParams| == 1 then
      forall c :: c in levelParams ==>
        v == if c == Here then ParseValue(json, levelParams[c].value)
             else Mapping(InsertPath(map[], Split(c), ParseValue(json, levelParams[c].value)))
    else if ArrayShaped(levelParams) then
      v.Sequence? && ListsValues(v.items, levelParams, json)
    else
      v.Mapping? && NestedFrom(v.entries, levelParams, json)
  }

  /** `processNestedLevel`: stores the level's value under its key and changes nothing else. */
  method ProcessNestedLevel(result: map<string, Node>, levelKey: string, levelParams: Children, json: JsonParser)
    returns (result': map<string, Node>)
    ensures levelKey in result' && result' == result[levelKey := result'[levelKey]]
    ensures LevelValue(result'[levelKey], levelParams, json)
  {
    if |levelParams| == 1 {
      var childPath :| childPath in levelParams;
      assert levelParams.Keys == {childPath} by {
        assert |levelParams.Keys - {childPath}| == 0;
      }
      var v := ParseValue(json, levelParams[childPath].value);
      if childPath == Here {
        result' := result[levelKey := v];
      } else {
        var nested := BuildNestedObject(childPath, v);
        result' := result[levelKey := Mapping(nested)];
      }
    } else {
      var isArray := ShouldBeArray(levelParams);
      if isArray {
        var items := BuildArrayFromMap(levelParams, json);
        result' := result[levelKey := Sequence(items)];
      } else {
        var nested := BuildNestedStructure(levelParams, json);
        result' := result[levelKey := Mapping(nested)];
      }
    }
  }

  /** One turn of `buildGenericStructure` over the level `key`. */
  ghost predicate LevelStep(before: map<string, Node>, after: map<string, Node>, key: string, levelParams: Children, json: JsonParser)
  {
    if key == Here then RootStep(before, after, levelParams, json)
    else key in after && after == before[key := after[key]] && LevelValue(after[key], levelParams, json)
  }

  /**
   * `result` is what `buildGenericStructure` may return for `levels`: starting
   * from the empty mapping, one step per level in some order of the level keys.
   */
  ghost predicate AssembledFrom(result: map<string, Node>, levels: LevelMap, json: JsonParser)
  {
    exists order: seq<string>, trace: seq<map<string, Node>> ::
      Enumerates(order, levels.Keys) && Traced(order, trace, levels, json) && trace[|order|] == result
  }

  /** `buildGenericStructure`: the root level goes to `processRootLevel`, every other to `processNestedLevel`. */
  method BuildGenericStructure(levels: LevelMap, json: JsonParser) returns (result: map<string, Node>)
    ensures AssembledFrom(result, levels, json)
  {
    result := map[];
    var remaining := levels.Keys;
    ghost var order: seq<string> := [];
    ghost var trace: seq<map<string, Node>> := [map[]];
    while remaining != {}
      invariant AssembledSoFar(levels, json, remaining, order, trace, result)
      decreases |remaining|
    {
      var levelKey :| levelKey in remaining;
      var levelParams := levels[levelKey];
      ghost var before := result;
      if levelKey == Here {
        result := ProcessRootLevel(result, levelParams, json);
      } else {
        result := ProcessNestedLevel(result, levelKey, levelParams, json);
      }
      AssembleStep(levels, json, remaining, order, trace, before, levelKey, result);
      order := order + [levelKey];
      trace := trace + [result];
      remaining := remaining - {levelKey};
    }
    AssembleDone(levels, json, order, trace, result);
  }

  /**
   * The loop invariant of `buildGenericStructure`: the levels done so far
   * were visited in the order `order`, with `trace` holding the mapping after
   * each step.
   */
  ghost predicate AssembledSoFar(levels: LevelMap, json: JsonParser, remaining: set<string>,
                                 order: seq<string>, trace: seq<map<string, Node>>, result: map<string, Node>)
  {
    && remaining <= levels.Keys
    && Enumerates(order, levels.Keys - remaining)
    && Traced(order, trace, levels, json)
    && trace[|order|] == result
  }

  /** One turn of the loop of `buildGenericStructure` keeps its invariant. */
  lemma AssembleStep(levels: LevelMap, json: JsonParser, remaining: set<string>, order: seq<string>,
                     trace: seq<map<string, Node>>, before: map<string, Node>, key: string, after: map<string, Node>)
    requires AssembledSoFar(levels, json, remaining, order, trace, before) && key in remaining
    requires if key == Here then RootStep(before, after, levels[key], json)
             else key in after && after == before[key := after[key]] && LevelValue(after[key], levels[key], json)
    ensures AssembledSoFar(levels, json, remaining - {key}, order + [key], trace + [after], after)
  {
    assert LevelStep(before, after, key, levels[key], json);
    TracedExtend(order, trace, levels, json, key, after);
    EnumeratesExtend(order, levels.Keys - remaining, key);
    assert levels.Keys - (remaining - {key}) == (levels.Keys - remaining) + {key};
  }

  /** A trace extended by one more step is a trace. */
  lemma TracedExtend(order: seq<string>, trace: seq<map<string, Node>>, levels: LevelMap, json: JsonParser, key: string, after: map<string, Node>)
    requires Traced(order, trace, levels, json) && key in levels
    requires LevelStep(trace[|order|], after, key, levels[key], json)
    ensures Traced(order + [key], trace + [after], levels, json)
  {
    var order', trace' := order + [key], trace + [after];
    forall i | 0 <= i < |order'|
      ensures LevelStep(trace'[i], trace'[i + 1], order'[i], levels[order'[i]], json)
    {
      if i < |order| {
        assert trace'[i] == trace[i] && trace'[i + 1] == trace[i + 1] && order'[i] == order[i];
      }
    }
  }

  /** When no level remains, the loop has assembled the levels. */
  lemma AssembleDone(levels: LevelMap, json: JsonParser, order: seq<string>, trace: seq<map<string, Node>>, result: map<string, Node>)
    requires AssembledSoFar(levels, json, {}, order, trace, result)
    ensures AssembledFrom(result, levels, json)
  {
    assert levels.Keys - {} == levels.Keys;
  }

  /** `buildStructure`: no parameters give the empty mapping; otherwise the levels are grouped and assembled. */
  method BuildStructure(params: seq<Parameter>, basePath: string, stripPrefix: bool, json: JsonParser)
    returns (result: map<string, Node>)
    ensures params == [] ==> result == map[]
    ensures AssembledFrom(result, Group(params, basePath, stripPrefix), json)
  {
    if |params| == 0 {
      result := map[];
      ghost var order: seq<string> := [];
      ghost var trace: seq<map<string, Node>> := [map[]];
      assert Enumerates(order, Group(params, basePath, stripPrefix).Keys);
      assert Traced(order, trace, Group(params, basePath, stripPrefix), json) && trace[|order|] == result;
      return;
    }
    var levels := OrganizeParametersByLevel(params, basePath, stripPrefix);
    result := BuildGenericStructure(levels, json);
  }

  /** The keys the step over level `key` writes. */
  function Contributed(key: string, levelParams: Children): set<string>
  {
    if key == Here then RootKeys(levelParams) else {key}
  }

  /** One step adds exactly the keys it contributes and leaves every other entry as it was. */
  lemma StepEffect(before: map<string, Node>, after: map<string, Node>, key: string, levelParams: Children, json: JsonParser)
    requires LevelStep(before, after, key, levelParams, json)
    ensures after.Keys == before.Keys + Contributed(key, levelParams)
    ensures forall k :: k in before && k !in Contributed(key, levelParams) ==> after[k] == before[k]
  {
    if key == Here {
      if |levelParams| > 1 {
        UpdateEffect(before, after, Items);
      } else if |levelParams| == 1 {
        var n :| n in levelParams;
        assert levelParams.Keys == {n} by {
          assert |levelParams.Keys - {n}| == 0;
        }
        assert after == before[n := ParseValue(json, levelParams[n].value)];
        UpdateEffect(before, after, n);
      }
    } else {
      UpdateEffect(before, after, key);
    }
  }

  lemma UpdateEffect(before: map<string, Node>, after: map<string, Node>, key: string)
    requires key in after && after == before[key := after[key]]
    ensures after.Keys == before.Keys + {key}
    ensures forall k :: k in before && k != key ==> after[k] == before[k]
  {
  }

  /** `trace` records the steps over the levels named by `order`, from the empty mapping. */
  ghost predicate Traced(order: seq<string>, trace: seq<map<string, Node>>, levels: LevelMap, json: JsonParser)
  {
    && (forall i :: 0 <= i < |order| ==> order[i] in levels)
    && |trace| == |order| + 1
    && trace[0] == map[]
    && forall i :: 0 <= i < |order| ==> LevelStep(trace[i], trace[i + 1], order[i], levels[order[i]], json)
  }

  /** The union of the first `n` sets of `cs`. */
  function UnionUpTo(cs: seq<set<string>>, n: nat): set<string>
    requires n <= |cs|
  {
    if n == 0 then {} else UnionUpTo(cs, n - 1) + cs[n - 1]
  }

  lemma {:induction false} UnionUpToHas(cs: seq<set<string>>, n: nat)
    requires n <= |cs|
    ensures forall k :: k in UnionUpTo(cs, n) <==> exists i :: 0 <= i < n && k in cs[i]
    decreases n
  {
    if n > 0 {
      UnionUpToHas(cs, n - 1);
    }
  }

  /** Key sets that grow from nothing by `cs[i]` at step `i` hold, after `n` steps, the union of the first `n`. */
  lemma {:induction false} UnionSteps(ks: seq<set<string>>, cs: seq<set<string>>, n: nat)
    requires |ks| == |cs| + 1 && ks[0] == {} && n <= |cs|
    requires forall i :: 0 <= i < |cs| ==> ks[i + 1] == ks[i] + cs[i]
    ensures ks[n] == UnionUpTo(cs, n)
    decreases n
  {
    if n > 0 {
      UnionSteps(ks, cs, n - 1);
    }
  }

  /** An entry written at step `i` survives to step `n` when no step in between contributes its key. */
  lemma {:induction false} TracePersists(order: seq<string>, trace: seq<map<string, Node>>, levels: LevelMap, json: JsonParser, i: nat, k: string, n: nat)
    requires Traced(order, trace, levels, json) && i < n <= |order|
    requires k in trace[i + 1]
    requires forall j :: i < j < n ==> k !in Contributed(order[j], levels[order[j]])
    ensures k in trace[n] && trace[n][k] == trace[i + 1][k]
    decreases n
  {
    if n > i + 1 {
      TracePersists(order, trace, levels, json, i, k, n - 1);
      StepEffect(trace[n - 1], trace[n], order[n - 1], levels[order[n - 1]], json);
    }
  }

  /** The root level's keys: "items" or its own names. */
  function RootContribution(levels: LevelMap): set<string>
  {
    if Here in levels then RootKeys(levels[Here]) else {}
  }

  /** The assembled tree holds one key per non-root level, plus the keys the root level writes, and nothing else. */
  lemma AssembledKeys(result: map<string, Node>, levels: LevelMap, json: JsonParser)
    requires AssembledFrom(result, levels, json)
    ensures result.Keys == (levels.Keys - {Here}) + RootContribution(levels)
  {
    var order: seq<string>, trace: seq<map<string, Node>> :| Enumerates(order, levels.Keys) && Traced(order, trace, levels, json) && trace[|order|] == result;
    TracedKeys(order, trace, levels, json);
    KeysOfSteps(order, trace, levels);
  }

  /** Each step of `trace` adds the keys its level contributes. */
  ghost predicate KeysTraced(order: seq<string>, trace: seq<map<string, Node>>, levels: LevelMap)
  {
    && (forall i :: 0 <= i < |order| ==> order[i] in levels)
    && |trace| == |order| + 1
    && trace[0] == map[]
    && forall i :: 0 <= i < |order| ==> trace[i + 1].Keys == trace[i].Keys + Contributed(order[i], levels[order[i]])
  }

  lemma TracedKeys(order: seq<string>, trace: seq<map<string, Node>>, levels: LevelMap, json: JsonParser)
    requires Traced(order, trace, levels, json)
    ensures KeysTraced(order, trace, levels)
  {
    forall i | 0 <= i < |order|
      ensures trace[i + 1].Keys == trace[i].Keys + Contributed(order[i], levels[order[i]])
    {
      StepEffect(trace[i], trace[i + 1], order[i], levels[order[i]], json);
    }
  }

  /** Steps over an enumeration of the levels end with the non-root level keys and the root level's keys. */
  lemma KeysOfSteps(order: seq<string>, trace: seq<map<string, Node>>, levels: LevelMap)
    requires KeysTraced(order, trace, levels) && Enumerates(order, levels.Keys)
    ensures trace[|order|].Keys == (levels.Keys - {Here}) + RootContribution(levels)
  {
    var ks: seq<set<string>> := seq(|trace|, i requires 0 <= i < |trace| => trace[i].Keys);
    var cs: seq<set<string>> := seq(|order|, i requires 0 <= i < |order| => Contributed(order[i], levels[order[i]]));
    UnionSteps(ks, cs, |order|);
    UnionOfContributions(order, levels, cs);
  }

  /** Over an enumeration of the levels, the contributed keys are the non-root level keys and the root level's keys. */
  lemma UnionOfContributions(order: seq<string>, levels: LevelMap, cs: seq<set<string>>)
    requires Enumerates(order, levels.Keys) && |cs| == |order|
    requires forall i :: 0 <= i < |order| ==> cs[i] == Contributed(order[i], levels[order[i]])
    ensures UnionUpTo(cs, |order|) == (levels.Keys - {Here}) + RootContribution(levels)
  {
    UnionUpToHas(cs, |order|);
    forall k | k in UnionUpTo(cs, |order|) ensures k in (levels.Keys - {Here}) + RootContribution(levels) {
      var i :| 0 <= i < |order| && k in cs[i];
      ContributedIn(levels, order[i], k);
    }
    forall k | k in (levels.Keys - {Here}) + RootContribution(levels) ensures k in UnionUpTo(cs, |order|) {
      var key := ContributorOf(levels, k);
      var i :| 0 <= i < |order| && order[i] == key;
      assert k in cs[i];
    }
  }

  lemma ContributedIn(levels: LevelMap, key: string, k: string)
    requires key in levels && k in Contributed(key, levels[key])
    ensures k in (levels.Keys - {Here}) + RootContribution(levels)
  {
  }

  /** The level that contributes `k`: its own level, or the root level. */
  function ContributorOf(levels: LevelMap, k: string): (key: string)
    requires k in (levels.Keys - {Here}) + RootContribution(levels)
    ensures key in levels && k in Contributed(key, levels[key])
  {
    if k in levels && k != Here then k else Here
  }

  /** No non-root level has a key the root level also writes, so no level's entry is overwritten. */
  ghost predicate NoCollision(levels: LevelMap)
  {
    forall k :: k in levels && k != Here ==> k !in RootContribution(levels)
  }

  /**
   * Without a collision, every non-root level's entry is the value
   * `processNestedLevel` builds for it, whatever the order of the levels.
   */
  lemma AssembledLevel(result: map<string, Node>, levels: LevelMap, json: JsonParser, key: string)
    requires AssembledFrom(result, levels, json)
    requires key in levels && key != Here && key !in RootContribution(levels)
    ensures key in result && LevelValue(result[key], levels[key], json)
  {
    var order: seq<string>, trace: seq<map<string, Node>> :| Enumerates(order, levels.Keys) && Traced(order, trace, levels, json) && trace[|order|] == result;
    var i :| 0 <= i < |order| && order[i] == key;
    assert LevelStep(trace[i], trace[i + 1], key, levels[key], json);
    forall j | i < j < |order| ensures key !in Contributed(order[j], levels[order[j]]) {
      assert order[j] != order[i];
    }
    TracePersists(order, trace, levels, json, i, key, |order|);
  }

  /**
   * Without a collision, the root level's entries are those `processRootLevel`
   * writes: a list of all its values under "items" when it has several
   * parameters, and its single value under its name otherwise.
   */
  lemma AssembledRoot(result: map<string, Node>, levels: LevelMap, json: JsonParser)
    requires AssembledFrom(result, levels, json)
    requires Here in levels && NoCollision(levels)
    ensures |levels[Here]| > 1 ==> Items in result && result[Items].Sequence? && ListsValues(result[Items].items, levels[Here], json)
    ensures |levels[Here]| <= 1 ==> forall n :: n in levels[Here] ==> n in result && result[n] == ParseValue(json, levels[Here][n].value)
  {
    var order: seq<string>, trace: seq<map<string, Node>> :| Enumerates(order, levels.Keys) && Traced(order, trace, levels, json) && trace[|order|] == result;
    var i :| 0 <= i < |order| && order[i] == Here;
    var root := levels[Here];
    assert RootStep(trace[i], trace[i + 1], root, json);
    StepEffect(trace[i], trace[i + 1], Here, root, json);
    forall k | k in RootKeys(root) ensures k in result && result[k] == trace[i + 1][k] {
      forall j | i < j < |order| ensures k !in Contributed(order[j], levels[order[j]]) {
        assert order[j] != order[i];
      }
      TracePersists(order, trace, levels, json, i, k, |order|);
    }
  }
}
