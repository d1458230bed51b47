/**
 * `organizeParametersByLevel`: the flat parameter list bucketed by the first
 * segment of each relative path.
 */
module Levels {
  import opened Paths
  import opened ConfigTree

  /**
   * The sentinel key: as a level key it is the root level; as a child key it
   * is "the value at this level's own name".
   */
  const Here: string := "."

  /** Where a parameter is filed: the level it belongs to and its key inside that level. */
  datatype Slot = Slot(level: string, child: string)

  /** Level key to (child key to parameter); Go's `map[string]map[string]types.Parameter`. */
  type LevelMap = map<string, map<string, Parameter>>

  /** The slot of a parameter named `name` whose relative path is `rel`. */
  function SlotOf(name: string, rel: string): Slot
  {
    if rel == [] then Slot(Here, LastPathSegment(name))
    else
      var parts := Split(rel);
      if |parts| == 1 then Slot(parts[0], Here) else Slot(parts[0], Join(parts[1..]))
  }

  /** The slot `organizeParametersByLevel` computes for one parameter. */
  function Locate(p: Parameter, basePath: string, stripPrefix: bool): Slot
  {
    SlotOf(p.name, ExtractRelativePath(p.name, basePath, stripPrefix))
  }

  /**
   * The slot follows the number of segments of the relative path: none puts
   * the parameter at the root level under its last name segment; one segment
   * names the level and the child is the sentinel; several put it in the level
   * of the part before the first separator, under the rest of the path, whose
   * pieces are the remaining pieces of the relative path.
   */
  lemma LocateCases(p: Parameter, basePath: string, stripPrefix: bool)
    ensures var rel := ExtractRelativePath(p.name, basePath, stripPrefix);
      var s := Locate(p, basePath, stripPrefix);
      && (rel == [] ==> s == Slot(Here, LastPathSegment(p.name)))
      && (rel != [] && Slash !in rel ==> s == Slot(rel, Here))
      && (Slash in rel ==>
            && Slash !in s.level
            && s.level + [Slash] + s.child == rel
            && Split(rel) == [s.level] + Split(s.child))
  {
    var rel := ExtractRelativePath(p.name, basePath, stripPrefix);
    if rel != [] {
      var parts := Split(rel);
      if Slash !in rel {
        SplitNoSlash(rel);
      } else {
        SplitAtFirstSlash(rel);
        SplitJoin(parts[1..]);
        assert [parts[0]] + parts[1..] == parts;
      }
    }
  }

  /** Files `p` at slot `s`, creating the level's map when it is missing. */
  function Place(levels: LevelMap, s: Slot, p: Parameter): LevelMap
  {
    var level := if s.level in levels then levels[s.level] else map[];
    levels[s.level := level[s.child := p]]
  }

  /** The level map after filing every parameter, in list order, at the slot `loc` gives it. */
  function GroupBy(params: seq<Parameter>, loc: Parameter -> Slot): LevelMap
    decreases |params|
  {
    if params == [] then map[]
    else
      var last := params[|params| - 1];
      Place(GroupBy(params[..|params| - 1], loc), loc(last), last)
  }

  /** The level map `organizeParametersByLevel` returns. */
  function Group(params: seq<Parameter>, basePath: string, stripPrefix: bool): LevelMap
  {
    GroupBy(params, p => Locate(p, basePath, stripPrefix))
  }

  /** `organizeParametersByLevel`: files every parameter in turn. */
  method OrganizeParametersByLevel(params: seq<Parameter>, basePath: string, stripPrefix: bool)
    returns (levels: LevelMap)
    ensures levels == Group(params, basePath, stripPrefix)
  {
    var loc := p => Locate(p, basePath, stripPrefix);
    levels := map[];
    for i := 0 to |params|
      invariant levels == GroupBy(params[..i], loc)
    {
      var relativePath := ExtractRelativePath(params[i].name, basePath, stripPrefix);
      levels := FileParameter(levels, params[i], relativePath);
      assert params[..i + 1][..i] == params[..i];
    }
    assert params[..|params|] == params;
  }

  /** One turn of the loop of `organizeParametersByLevel`, given the parameter's relative path. */
  method FileParameter(levels: LevelMap, param: Parameter, relativePath: string)
    returns (levels': LevelMap)
    ensures levels' == Place(levels, SlotOf(param.name, relativePath), param)
  {
    if relativePath == [] {
      var paramName := LastPathSegment(param.name);
      var level: map<string, Parameter> := map[];
      if Here in levels {
        level := levels[Here];
      }
      levels' := levels[Here := level[paramName := param]];
    } else {
      var pathParts := Split(relativePath);
      if |pathParts| == 1 {
        var levelKey := pathParts[0];
        var level: map<string, Parameter> := map[];
        if levelKey in levels {
          level := levels[levelKey];
        }
        levels' := levels[levelKey := level[Here := param]];
      } else {
        var parentLevel := pathParts[0];
        var childPath := Join(pathParts[1..]);
        var level: map<string, Parameter> := map[];
        if parentLevel in levels {
          level := levels[parentLevel];
        }
        levels' := levels[parentLevel := level[childPath := param]];
      }
    }
  }

  /** Every parameter is filed at its slot. */
  lemma {:induction false} GroupComplete(params: seq<Parameter>, loc: Parameter -> Slot)
    ensures var levels := GroupBy(params, loc);
      forall i :: 0 <= i < |params| ==> loc(params[i]).level in levels && loc(params[i]).child in levels[loc(params[i]).level]
    decreases |params|
  {
    if params != [] {
      var pre := params[..|params| - 1];
      GroupComplete(pre, loc);
      forall i | 0 <= i < |params| - 1
        ensures params[i] == pre[i]
      {
      }
    }
  }

  /** `params[i]` is filed at `s` and no later parameter is. */
  ghost predicate LastFiledAt(params: seq<Parameter>, i: int, s: Slot, loc: Parameter -> Slot)
  {
    && 0 <= i < |params|
    && loc(params[i]) == s
    && forall j :: i < j < |params| ==> loc(params[j]) != s
  }

  /**
   * Everything filed comes from the list, sits at its own slot, and is the
   * LAST parameter of the list filed at that slot: a later parameter with the
   * same slot replaces an earlier one.
   */
  lemma {:induction false} GroupLastWins(params: seq<Parameter>, loc: Parameter -> Slot)
    ensures var levels := GroupBy(params, loc);
      forall l, c :: l in levels && c in levels[l] ==>
        exists i :: LastFiledAt(params, i, Slot(l, c), loc) && params[i] == levels[l][c]
    decreases |params|
  {
    if params != [] {
      var n := |params|;
      var pre := params[..n - 1];
      var last := params[n - 1];
      var before := GroupBy(pre, loc);
      var levels := GroupBy(params, loc);
      GroupLastWins(pre, loc);
      forall l, c | l in levels && c in levels[l]
        ensures exists i :: LastFiledAt(params, i, Slot(l, c), loc) && params[i] == levels[l][c]
      {
        if Slot(l, c) == loc(last) {
          assert LastFiledAt(params, n - 1, loc(last), loc);
        } else {
          assert l in before && c in before[l] && levels[l][c] == before[l][c];
          assert pre + [last] == params;
          LastWinsKept(pre, last, Slot(l, c), loc, before[l][c]);
        }
      }
    }
  }

  /** A slot whose last parameter is `p` keeps it when a parameter filed elsewhere is appended. */
  lemma LastWinsKept(pre: seq<Parameter>, last: Parameter, s: Slot, loc: Parameter -> Slot, p: Parameter)
    requires exists i :: LastFiledAt(pre, i, s, loc) && pre[i] == p
    requires loc(last) != s
    ensures exists i :: LastFiledAt(pre + [last], i, s, loc) && (pre + [last])[i] == p
  {
    var i :| LastFiledAt(pre, i, s, loc) && pre[i] == p;
    LastFiledExtends(pre, last, i, s, loc);
  }

  /** Appending a parameter filed elsewhere keeps `i` the last one filed at `s`. */
  lemma LastFiledExtends(pre: seq<Parameter>, last: Parameter, i: int, s: Slot, loc: Parameter -> Slot)
    requires LastFiledAt(pre, i, s, loc)
    requires loc(last) != s
    ensures LastFiledAt(pre + [last], i, s, loc) && (pre + [last])[i] == pre[i]
  {
    var params := pre + [last];
    forall j | i < j < |params|
      ensures loc(params[j]) != s
    {
      if j < |pre| {
        assert params[j] == pre[j];
      }
    }
  }

  /** No level is empty: each holds at least the parameter that created it. */
  lemma {:induction false} GroupLevelsNonEmpty(params: seq<Parameter>, loc: Parameter -> Slot)
    ensures forall l :: l in GroupBy(params, loc) ==> GroupBy(params, loc)[l] != map[]
    decreases |params|
  {
    if params != [] {
      var last := params[|params| - 1];
      var before := GroupBy(params[..|params| - 1], loc);
      GroupLevelsNonEmpty(params[..|params| - 1], loc);
      forall l | l in GroupBy(params, loc)
        ensures GroupBy(params, loc)[l] != map[]
      {
        if l == loc(last).level {
          assert loc(last).child in GroupBy(params, loc)[l];
        } else {
          assert GroupBy(params, loc)[l] == before[l];
        }
      }
    }
  }
}
