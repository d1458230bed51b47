/**
 * The configuration tree the builder produces, the parameters it is built
 * from, and the JSON value parser, which is supplied from outside.
 */
module ConfigTree {
  import opened Wrappers

  /**
   * A configuration value: the closed form of Go's `interface{}` trees. A
   * scalar stands for every decoded JSON or YAML scalar (string, number,
   * boolean, null), kept as text.
   */
  datatype Node =
    | Scalar(text: string)
    | Mapping(entries: map<string, Node>)
    | Sequence(items: seq<Node>)

  /** An SSM parameter: its full slash-delimited name and its string value. */
  datatype Parameter = Parameter(name: string, value: string)

  /** `json.Unmarshal` into `interface{}`: None when the text is not JSON. */
  type JsonParser = string -> Option<Node>

  /** `parseParameterValue`: the decoded JSON value, or the raw text when it does not decode. */
  function ParseValue(json: JsonParser, value: string): (v: Node)
    ensures json(value).Some? ==> v == json(value).value
    ensures json(value).None? ==> v == Scalar(value)
  {
    match json(value)
    case Some(v) => v
    case None => Scalar(value)
  }

  /** The value reached from `m` by following the keys of `path`, if every step is a mapping. */
  function LookupPath(m: map<string, Node>, path: seq<string>): Option<Node>
    requires |path| >= 1
    decreases |path|
  {
    if path[0] !in m then None
    else if |path| == 1 then Some(m[path[0]])
    else
      match m[path[0]]
      case Mapping(sub) => LookupPath(sub, path[1..])
      case _ => None
  }

  /** `a` is a prefix of `b`. */
  predicate IsPrefix(a: seq<string>, b: seq<string>)
  {
    |a| <= |b| && b[..|a|] == a
  }

  /** Two paths that start alike are prefix-related exactly when their tails are. */
  lemma PrefixTail(a: seq<string>, b: seq<string>)
    requires |a| >= 1 && |b| >= 1 && a[0] == b[0]
    ensures IsPrefix(a[1..], b[1..]) <==> IsPrefix(a, b)
  {
    if IsPrefix(a[1..], b[1..]) {
      assert b[..|a|] == [b[0]] + b[1..][..|a| - 1];
    }
    if IsPrefix(a, b) {
      assert b[1..][..|a| - 1] == b[..|a|][1..];
    }
  }

  /**
   * `order` lists every key of `keys` exactly once: one of the orders in which
   * Go's `range` over a map may visit its keys.
   */
  ghost predicate Enumerates(order: seq<string>, keys: set<string>)
  {
    && (forall i, j :: 0 <= i < j < |order| ==> order[i] != order[j])
    && (forall i :: 0 <= i < |order| ==> order[i] in keys)
    && (forall k :: k in keys ==> k in order)
  }

  /** An enumeration is as long as the set it enumerates. */
  lemma {:induction false} EnumerationLength(order: seq<string>, keys: set<string>)
    requires Enumerates(order, keys)
    ensures |order| == |keys|
    decreases |order|
  {
    if order != [] {
      var last := order[|order| - 1];
      var pre := order[..|order| - 1];
      assert last !in pre by {
        forall i | 0 <= i < |pre| ensures pre[i] != last {
          assert pre[i] == order[i];
        }
      }
      assert Enumerates(pre, keys - {last}) by {
        forall k | k in keys - {last} ensures k in pre {
          var i :| 0 <= i < |order| && order[i] == k;
          assert i < |order| - 1;
          assert pre[i] == k;
        }
      }
      EnumerationLength(pre, keys - {last});
    }
  }

  /** Appending a key not yet listed enumerates one key more. */
  lemma EnumeratesExtend(order: seq<string>, keys: set<string>, k: string)
    requires Enumerates(order, keys) && k !in keys
    ensures Enumerates(order + [k], keys + {k})
  {
    var order' := order + [k];
    assert forall i :: 0 <= i < |order| ==> order'[i] == order[i];
  }
}
