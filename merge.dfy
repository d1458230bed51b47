/**
 * `mergeMaps`: the recursive merge that combines configuration trees. The
 * YAML builder uses it to fold rule documents into one tree, and the
 * builder's entry point uses it to fold the trees of several prefixes
 * together, in JSON mode as well as in YAML mode (builder/builder.go:35, 52).
 */
module DeepMerge {
  import opened Wrappers
  import opened ConfigTree

  /**
   * The merged value of a key both sides hold: two mappings merge
   * recursively, two lists are concatenated (destination first), and in every
   * other case the source value replaces the destination value.
   */
  function MergeEntry(d: Node, s: Node): Node
    decreases s, 3
  {
    if d.Mapping? && s.Mapping? then Mapping(Merge(d.entries, s.entries))
    else if d.Sequence? && s.Sequence? then Sequence(d.items + s.items)
    else s
  }

  /** The merged value of key `k`, held by at least one side. */
  function MergedAt(dest: map<string, Node>, src: map<string, Node>, k: string): Node
    requires k in dest || k in src
    decreases Mapping(src), 1
  {
    if k !in src then dest[k]
    else if k in dest then MergeEntry(dest[k], src[k])
    else src[k]
  }

  /** `dest` after `mergeMaps(dest, src)`: every key of either side, merged where both hold it. */
  function Merge(dest: map<string, Node>, src: map<string, Node>): (r: map<string, Node>)
    ensures r.Keys == dest.Keys + src.Keys
    decreases Mapping(src), 2
  {
    map k | k in dest.Keys + src.Keys :: MergedAt(dest, src, k)
  }

  /**
   * `mergeMaps`: visits the source keys in map order and updates the
   * destination one key at a time, recursing into nested mappings. Go updates
   * `dest` and its nested maps in place; the value model returns the new
   * mapping and writes the merged nested mapping back.
   */
  method MergeMaps(dest: map<string, Node>, src: map<string, Node>) returns (r: map<string, Node>)
    ensures r == Merge(dest, src)
    decreases Mapping(src), 2
  {
    r := dest;
    var remaining := src.Keys;
    while remaining != {}
      invariant MergedSoFar(dest, src, r, remaining)
      decreases |remaining|
    {
      var key :| key in remaining;
      var srcValue := src[key];
      var value := srcValue;
      if key in r {
        value := MergeValue(r[key], srcValue);
      }
      MergeStep(dest, src, r, remaining, key, value);
      r := r[key := value];
      remaining := remaining - {key};
    }
    MergeDone(dest, src, r);
  }

  /**
   * The loop invariant of `mergeMaps`: the keys already visited hold their
   * merged value and every other key its destination value.
   */
  ghost predicate MergedSoFar(dest: map<string, Node>, src: map<string, Node>, r: map<string, Node>, remaining: set<string>)
  {
    && remaining <= src.Keys
    && (forall k :: k in r <==> k in dest || (k in src && k !in remaining))
    && (forall k :: k in r ==> r[k] == if k in src && k !in remaining then MergedAt(dest, src, k) else dest[k])
  }

  /** One turn of the loop of `mergeMaps` keeps its invariant. */
  lemma MergeStep(dest: map<string, Node>, src: map<string, Node>, r: map<string, Node>, remaining: set<string>, key: string, value: Node)
    requires MergedSoFar(dest, src, r, remaining) && key in remaining
    requires value == if key in r then MergeEntry(r[key], src[key]) else src[key]
    ensures MergedSoFar(dest, src, r[key := value], remaining - {key})
  {
    assert value == MergedAt(dest, src, key);
  }

  /** When no key remains, the loop has computed the merge. */
  lemma MergeDone(dest: map<string, Node>, src: map<string, Node>, r: map<string, Node>)
    requires MergedSoFar(dest, src, r, {})
    ensures r == Merge(dest, src)
  {
  }

  /**
   * The body of `mergeMaps` for one key both sides hold: recurse into two
   * mappings, append two lists, and otherwise take the source value.
   */
  method MergeValue(destValue: Node, srcValue: Node) returns (value: Node)
    ensures value == MergeEntry(destValue, srcValue)
    decreases srcValue, 3
  {
    if destValue.Mapping? && srcValue.Mapping? {
      var nested := MergeMaps(destValue.entries, srcValue.entries);
      return Mapping(nested);
    }
    if destValue.Sequence? && srcValue.Sequence? {
      return Sequence(destValue.items + srcValue.items);
    }
    return srcValue;
  }

  /** Merging nothing in leaves the destination as it was. */
  lemma MergeEmptySource(dest: map<string, Node>)
    ensures Merge(dest, map[]) == dest
  {
  }

  /** Merging into an empty destination copies the source. */
  lemma MergeIntoEmpty(src: map<string, Node>)
    ensures Merge(map[], src) == src
  {
  }

  /** How two optional values at the same path combine. */
  function Combine(d: Option<Node>, s: Option<Node>): Option<Node>
  {
    match (d, s)
    case (None, None) => None
    case (Some(x), None) => Some(x)
    case (None, Some(y)) => Some(y)
    case (Some(x), Some(y)) => Some(MergeEntry(x, y))
  }

  /** Both sides hold a mapping at every proper prefix of `q`. */
  ghost predicate MappingsAlong(dest: map<string, Node>, src: map<string, Node>, q: seq<string>)
  {
    forall j :: 1 <= j < |q| ==>
      && LookupPath(dest, q[..j]).Some? && LookupPath(dest, q[..j]).value.Mapping?
      && LookupPath(src, q[..j]).Some? && LookupPath(src, q[..j]).value.Mapping?
  }

  /** Looking `q` up through a first mapping is looking the rest up in that mapping. */
  lemma LookupThrough(m: map<string, Node>, q: seq<string>, j: nat)
    requires 1 <= j < |q| && q[0] in m && m[q[0]].Mapping?
    ensures LookupPath(m, q[..j + 1]) == LookupPath(m[q[0]].entries, q[1..][..j])
  {
    assert q[..j + 1][1..] == q[1..][..j];
  }

  /**
   * Along a path where both sides hold mappings, the merged tree holds what
   * the destination alone holds, what the source alone holds, or the merge of
   * both: the destination's leaves survive where the source has nothing, and
   * the source's survive where the destination has nothing.
   */
  lemma {:induction false} MergeAlong(dest: map<string, Node>, src: map<string, Node>, q: seq<string>)
    requires |q| >= 1 && MappingsAlong(dest, src, q)
    ensures LookupPath(Merge(dest, src), q) == Combine(LookupPath(dest, q), LookupPath(src, q))
    decreases |q|
  {
    if |q| > 1 {
      assert q[..1] == [q[0]];
      var d := dest[q[0]].entries;
      var s := src[q[0]].entries;
      assert Merge(dest, src)[q[0]] == MergedAt(dest, src, q[0]) == MergeEntry(dest[q[0]], src[q[0]]);
      assert MergeEntry(dest[q[0]], src[q[0]]) == Mapping(Merge(d, s));
      forall j | 1 <= j < |q| - 1
        ensures && LookupPath(d, q[1..][..j]).Some? && LookupPath(d, q[1..][..j]).value.Mapping?
                && LookupPath(s, q[1..][..j]).Some? && LookupPath(s, q[1..][..j]).value.Mapping?
      {
        LookupThrough(dest, q, j);
        LookupThrough(src, q, j);
      }
      MergeAlong(d, s, q[1..]);
    }
  }

  /**
   * A scalar of the source is found at its path in the merged tree whatever
   * the destination holds: the source side always wins for scalars.
   */
  lemma {:induction false} MergeKeepsSourceScalar(dest: map<string, Node>, src: map<string, Node>, q: seq<string>, t: string)
    requires |q| >= 1 && LookupPath(src, q) == Some(Scalar(t))
    ensures LookupPath(Merge(dest, src), q) == Some(Scalar(t))
    decreases |q|
  {
    var k := q[0];
    assert Merge(dest, src)[k] == MergedAt(dest, src, k);
    if |q| > 1 {
      var s := src[k].entries;
      if k in dest && dest[k].Mapping? {
        assert MergedAt(dest, src, k) == MergeEntry(dest[k], src[k]) == Mapping(Merge(dest[k].entries, s));
        MergeKeepsSourceScalar(dest[k].entries, s, q[1..], t);
      } else if k in dest {
        assert MergedAt(dest, src, k) == MergeEntry(dest[k], src[k]) == src[k];
      }
    } else if k in dest {
      assert MergedAt(dest, src, k) == MergeEntry(dest[k], src[k]) == src[k];
    }
  }

  /** Two lists under the same key are concatenated, the destination's items first. */
  lemma MergeConcatenatesLists(dest: map<string, Node>, src: map<string, Node>, k: string)
    requires k in dest && k in src && dest[k].Sequence? && src[k].Sequence?
    ensures Merge(dest, src)[k] == Sequence(dest[k].items + src[k].items)
  {
    assert Merge(dest, src)[k] == MergedAt(dest, src, k) == MergeEntry(dest[k], src[k]);
  }

  /**
   * The merge is not associative: with a = {a: {p: 1}}, b = {a: [2]} and
   * c = {a: {q: 3}}, merging b then c into a keeps only q, while merging the
   * merge of b and c into a keeps both p and q. Rule documents merged in a
   * different grouping give different trees.
   */
  lemma MergeNotAssociative()
    ensures var a := map["a" := Mapping(map["p" := Scalar("1")])];
      var b := map["a" := Sequence([Scalar("2")])];
      var c := map["a" := Mapping(map["q" := Scalar("3")])];
      && Merge(Merge(a, b), c) == map["a" := Mapping(map["q" := Scalar("3")])]
      && Merge(a, Merge(b, c)) == map["a" := Mapping(map["p" := Scalar("1"), "q" := Scalar("3")])]
  {
    var a := map["a" := Mapping(map["p" := Scalar("1")])];
    var b := map["a" := Sequence([Scalar("2")])];
    var c := map["a" := Mapping(map["q" := Scalar("3")])];
    assert Merge(a, b) == b;
    assert Merge(b, c) == c;
    assert Merge(map["p" := Scalar("1")], map["q" := Scalar("3")]) == map["p" := Scalar("1"), "q" := Scalar("3")];
  }
}
