/**
 * `buildYAMLStructure`: rule documents stored one per parameter, merged into
 * one tree or stored as single rules under their own key.
 */
module YamlRules {
  import opened Wrappers
  import opened Paths
  import opened ConfigTree
  import opened DeepMerge

  /** `yaml.Unmarshal` into a mapping: None when the text is not a YAML mapping. */
  type MapParser = string -> Option<map<string, Node>>

  /** `yaml.Unmarshal` into a list: None when the text is not a YAML list. */
  type ListParser = string -> Option<seq<Node>>

  /** Why the YAML builder gives up, each error naming the parameter or key at fault. */
  datatype YamlError =
    | NestedParameter(name: string)
    | UnparsableRule(name: string)
    | DuplicateRuleKey(key: string)

  /** The rule key of a parameter: its relative path, or its last name segment when that path is empty. */
  function RuleKey(name: string, rel: string): (key: string)
    ensures rel != [] ==> key == rel
    ensures rel == [] ==> Slash !in key && |key| <= |name| && name[|name| - |key|..] == key
    ensures rel == [] && |key| < |name| ==> name[|name| - |key| - 1] == Slash
  {
    if rel == [] then LastPathSegment(name) else rel
  }

  /**
   * One turn of the loop over the parameters, given the parameter's relative
   * path: a relative path with a separator is refused; a value that is a YAML
   * mapping is merged into the tree; a value that is a YAML list is stored
   * under the rule key unless that key is already present; anything else is
   * refused.
   */
  function YamlStep(result: map<string, Node>, p: Parameter, rel: string, maps: MapParser, lists: ListParser)
    : Result<map<string, Node>, YamlError>
  {
    if Slash in rel then Failure(NestedParameter(p.name))
    else
      var key := RuleKey(p.name, rel);
      match maps(p.value)
      case Some(m) => Success(Merge(result, m))
      case None =>
        match lists(p.value)
        case None => Failure(UnparsableRule(p.name))
        case Some(l) =>
          if key in result then Failure(DuplicateRuleKey(key)) else Success(result[key := Sequence(l)])
  }

  /** The outcome after the parameters in list order, given each one's relative path: the first failure, if any. */
  function YamlFold(params: seq<Parameter>, relOf: Parameter -> string, maps: MapParser, lists: ListParser)
    : Result<map<string, Node>, YamlError>
    decreases |params|
  {
    if params == [] then Success(map[])
    else
      match YamlFold(params[..|params| - 1], relOf, maps, lists)
      case Failure(e) => Failure(e)
      case Success(r) => YamlStep(r, params[|params| - 1], relOf(params[|params| - 1]), maps, lists)
  }

  /** What `buildYAMLStructure` returns. */
  function YamlStructure(params: seq<Parameter>, basePath: string, stripPrefix: bool, maps: MapParser, lists: ListParser)
    : Result<map<string, Node>, YamlError>
  {
    YamlFold(params, (p: Parameter) => ExtractRelativePath(p.name, basePath, stripPrefix), maps, lists)
  }

  /** A failure after some prefix of the parameters is the outcome for the whole list. */
  lemma {:induction false} FailureIsFinal(params: seq<Parameter>, relOf: Parameter -> string, maps: MapParser, lists: ListParser, i: nat)
    requires i <= |params| && YamlFold(params[..i], relOf, maps, lists).Failure?
    ensures YamlFold(params, relOf, maps, lists) == YamlFold(params[..i], relOf, maps, lists)
    decreases |params|
  {
    if i < |params| {
      var pre := params[..|params| - 1];
      assert pre[..i] == params[..i];
      FailureIsFinal(pre, relOf, maps, lists, i);
    } else {
      assert params[..i] == params;
    }
  }

  /**
   * `buildYAMLStructure`: the loop over the parameters, returning at the first
   * error.
   */
  method BuildYamlStructure(params: seq<Parameter>, basePath: string, stripPrefix: bool, maps: MapParser, lists: ListParser)
    returns (r: Result<map<string, Node>, YamlError>)
    ensures r == YamlStructure(params, basePath, stripPrefix, maps, lists)
  {
    ghost var relOf := (p: Parameter) => ExtractRelativePath(p.name, basePath, stripPrefix);
    var result: map<string, Node> := map[];
    for i := 0 to |params|
      invariant YamlFold(params[..i], relOf, maps, lists) == Success(result)
    {
      var relative := ExtractRelativePath(params[i].name, basePath, stripPrefix);
      var outcome := YamlParameter(result, params[i], relative, maps, lists);
      assert params[..i + 1][..i] == params[..i];
      if outcome.Failure? {
        FailureIsFinal(params, relOf, maps, lists, i + 1);
        return outcome;
      }
      result := outcome.value;
    }
    assert params[..|params|] == params;
    r := Success(result);
  }

  /**
   * The body of the loop of `buildYAMLStructure` for one parameter whose
   * relative path is `relative`: the separator test, the fallback to the last
   * name segment, the mapping parse and merge, the list parse, the
   * duplicate-key test and the store.
   */
  method YamlParameter(result: map<string, Node>, param: Parameter, relative: string, maps: MapParser, lists: ListParser)
    returns (outcome: Result<map<string, Node>, YamlError>)
    ensures outcome == YamlStep(result, param, relative, maps, lists)
  {
    var value := param.value;
    if Slash in relative {
      return Failure(NestedParameter(param.name));
    }
    var key := relative;
    if key == [] {
      key := LastPathSegment(param.name);
    }
    var m := maps(value);
    if m.Some? {
      var merged := MergeMaps(result, m.value);
      return Success(merged);
    }
    var l := lists(value);
    if l.None? {
      return Failure(UnparsableRule(param.name));
    }
    if key in result {
      return Failure(DuplicateRuleKey(key));
    }
    return Success(result[key := Sequence(l.value)]);
  }

  /** A successful step keeps every key; it keeps the value too unless the step merged a mapping holding that key. */
  lemma StepKeeps(result: map<string, Node>, p: Parameter, rel: string, maps: MapParser, lists: ListParser, k: string)
    requires YamlStep(result, p, rel, maps, lists).Success? && k in result
    ensures var after := YamlStep(result, p, rel, maps, lists).value;
      k in after && (!(maps(p.value).Some? && k in maps(p.value).value) ==> after[k] == result[k])
  {
    if maps(p.value).Some? {
      var m := maps(p.value).value;
      assert Merge(result, m)[k] == MergedAt(result, m, k);
    }
  }

  /**
   * On success, what an earlier parameter left in the tree is still there at
   * the end, with the same value unless a later parameter merged a mapping
   * holding the same key.
   */
  lemma {:induction false} EntriesSurvive(params: seq<Parameter>, relOf: Parameter -> string, maps: MapParser, lists: ListParser, i: nat, k: string)
    requires i <= |params| && YamlFold(params, relOf, maps, lists).Success?
    ensures YamlFold(params[..i], relOf, maps, lists).Success?
    ensures var before := YamlFold(params[..i], relOf, maps, lists).value;
      var after := YamlFold(params, relOf, maps, lists).value;
      k in before ==>
        && k in after
        && ((forall j :: i <= j < |params| ==> !(maps(params[j].value).Some? && k in maps(params[j].value).value)) ==> after[k] == before[k])
    decreases |params|
  {
    if i == |params| {
      assert params[..i] == params;
    } else {
      var n := |params|;
      var pre := params[..n - 1];
      assert pre[..i] == params[..i];
      EntriesSurvive(pre, relOf, maps, lists, i, k);
      var before := YamlFold(params[..i], relOf, maps, lists).value;
      var mid := YamlFold(pre, relOf, maps, lists).value;
      if k in before {
        StepKeeps(mid, params[n - 1], relOf(params[n - 1]), maps, lists, k);
      }
    }
  }

  /** The step of parameter `i` is taken on the tree the parameters before it left. */
  lemma FoldStep(params: seq<Parameter>, relOf: Parameter -> string, maps: MapParser, lists: ListParser, i: nat)
    requires i < |params| && YamlFold(params[..i], relOf, maps, lists).Success?
    ensures YamlFold(params[..i + 1], relOf, maps, lists)
      == YamlStep(YamlFold(params[..i], relOf, maps, lists).value, params[i], relOf(params[i]), maps, lists)
  {
    assert params[..i + 1][..i] == params[..i];
  }

  /**
   * A successful build had no parameter nested below the base path and no
   * value that is neither a YAML mapping nor a YAML list: any such parameter
   * makes the whole build fail.
   */
  lemma YamlSuccessFacts(params: seq<Parameter>, relOf: Parameter -> string, maps: MapParser, lists: ListParser)
    requires YamlFold(params, relOf, maps, lists).Success?
    ensures forall i :: 0 <= i < |params| ==> Slash !in relOf(params[i])
    ensures forall i :: 0 <= i < |params| ==> maps(params[i].value).Some? || lists(params[i].value).Some?
  {
    forall i | 0 <= i < |params|
      ensures Slash !in relOf(params[i]) && (maps(params[i].value).Some? || lists(params[i].value).Some?)
    {
      EntriesSurvive(params, relOf, maps, lists, i, "");
      EntriesSurvive(params, relOf, maps, lists, i + 1, "");
      FoldStep(params, relOf, maps, lists, i);
    }
  }

  /** Parameter `i` is a single rule: its value is a YAML list and not a YAML mapping. */
  predicate IsListRule(params: seq<Parameter>, maps: MapParser, lists: ListParser, i: int)
  {
    0 <= i < |params| && maps(params[i].value).None? && lists(params[i].value).Some?
  }

  /**
   * On success, a single rule is present under its rule key, and it is still
   * exactly its list unless a later mapping parameter holds the same key.
   */
  lemma YamlListStored(params: seq<Parameter>, relOf: Parameter -> string, maps: MapParser, lists: ListParser, i: nat)
    requires YamlFold(params, relOf, maps, lists).Success? && IsListRule(params, maps, lists, i)
    ensures var key := RuleKey(params[i].name, relOf(params[i]));
      var r := YamlFold(params, relOf, maps, lists).value;
      && key in r
      && ((forall j :: i < j < |params| ==> !(maps(params[j].value).Some? && key in maps(params[j].value).value))
            ==> r[key] == Sequence(lists(params[i].value).value))
  {
    var key := RuleKey(params[i].name, relOf(params[i]));
    EntriesSurvive(params, relOf, maps, lists, i, key);
    EntriesSurvive(params, relOf, maps, lists, i + 1, key);
    FoldStep(params, relOf, maps, lists, i);
  }

  /** On success, no two single rules share a rule key: the second one would have been refused as a duplicate. */
  lemma YamlListKeysDistinct(params: seq<Parameter>, relOf: Parameter -> string, maps: MapParser, lists: ListParser, i: nat, j: nat)
    requires YamlFold(params, relOf, maps, lists).Success?
    requires i < j && IsListRule(params, maps, lists, i) && IsListRule(params, maps, lists, j)
    ensures RuleKey(params[i].name, relOf(params[i])) != RuleKey(params[j].name, relOf(params[j]))
  {
    EntriesSurvive(params, relOf, maps, lists, j, "");
    EntriesSurvive(params, relOf, maps, lists, j + 1, "");
    assert params[..j][i] == params[i];
    StoredUpTo(params[..j], relOf, maps, lists, i);
    FoldStep(params, relOf, maps, lists, j);
    ListStepFresh(YamlFold(params[..j], relOf, maps, lists).value, params[j], relOf(params[j]), maps, lists);
  }

  /**
   * On success, a single rule never takes a key that an earlier mapping
   * parameter already merged into the tree: that rule would have been refused
   * as a duplicate.
   */
  lemma ListKeyNotInEarlierMapping(params: seq<Parameter>, relOf: Parameter -> string, maps: MapParser, lists: ListParser, i: nat, j: nat)
    requires YamlFold(params, relOf, maps, lists).Success?
    requires i < j && IsListRule(params, maps, lists, j) && maps(params[i].value).Some?
    ensures RuleKey(params[j].name, relOf(params[j])) !in maps(params[i].value).value
  {
    var key := RuleKey(params[j].name, relOf(params[j]));
    EntriesSurvive(params, relOf, maps, lists, j, key);
    EntriesSurvive(params, relOf, maps, lists, j + 1, key);
    FoldStep(params, relOf, maps, lists, j);
    ListStepFresh(YamlFold(params[..j], relOf, maps, lists).value, params[j], relOf(params[j]), maps, lists);
    assert params[..j][i] == params[i];
    if key in maps(params[i].value).value {
      YamlMappingKeysKept(params[..j], relOf, maps, lists, i, key);
    }
  }

  /** A single rule that is accepted had a rule key not yet in the tree. */
  lemma ListStepFresh(result: map<string, Node>, p: Parameter, rel: string, maps: MapParser, lists: ListParser)
    requires YamlStep(result, p, rel, maps, lists).Success? && maps(p.value).None? && lists(p.value).Some?
    ensures RuleKey(p.name, rel) !in result
  {
  }

  /** A single rule successfully stored is still present, under its rule key, at the end of a successful run. */
  lemma StoredUpTo(params: seq<Parameter>, relOf: Parameter -> string, maps: MapParser, lists: ListParser, i: nat)
    requires YamlFold(params, relOf, maps, lists).Success? && IsListRule(params, maps, lists, i)
    ensures RuleKey(params[i].name, relOf(params[i])) in YamlFold(params, relOf, maps, lists).value
  {
    var key := RuleKey(params[i].name, relOf(params[i]));
    EntriesSurvive(params, relOf, maps, lists, i, key);
    EntriesSurvive(params, relOf, maps, lists, i + 1, key);
    FoldStep(params, relOf, maps, lists, i);
  }

  /** On success, every top-level key of a merged mapping parameter is in the tree. */
  lemma YamlMappingKeysKept(params: seq<Parameter>, relOf: Parameter -> string, maps: MapParser, lists: ListParser, i: nat, k: string)
    requires YamlFold(params, relOf, maps, lists).Success? && i < |params|
    requires maps(params[i].value).Some? && k in maps(params[i].value).value
    ensures k in YamlFold(params, relOf, maps, lists).value
  {
    EntriesSurvive(params, relOf, maps, lists, i, k);
    EntriesSurvive(params, relOf, maps, lists, i + 1, k);
    FoldStep(params, relOf, maps, lists, i);
  }
}
