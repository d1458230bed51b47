/**
 * The string helpers of the builder: splitting, joining and trimming
 * slash-delimited parameter names (Go's `strings.Split`, `strings.Join`,
 * `strings.Count`, `strings.TrimPrefix`, `strings.TrimSuffix`, `strings.Trim`
 * with the separator "/"), and the two path helpers built from them.
 */
module Paths {

  /** The separator of parameter names. */
  const Slash: char := '/'

  /** `strings.Count(s, "/")`: the number of separators in `s`. */
  function Count(s: string): (n: nat)
    ensures n == 0 <==> Slash !in s
    ensures n <= |s|
  {
    if s == [] then 0 else (if s[0] == Slash then 1 else 0) + Count(s[1..])
  }

  /** `Count` gives exactly the number of occurrences of `/` in `s`. */
  lemma {:induction false} CountOccurrences(s: string)
    ensures Count(s) == multiset(s)[Slash]
  {
    if s != [] {
      CountOccurrences(s[1..]);
      assert s == [s[0]] + s[1..];
    }
  }

  /**
   * `strings.Split(s, "/")`: the pieces between separators, empty pieces
   * included. Never empty: `Split("") == [""]`.
   */
  function Split(s: string): (parts: seq<string>)
    ensures |parts| == Count(s) + 1
    ensures forall i :: 0 <= i < |parts| ==> Slash !in parts[i]
  {
    if s == [] then [""]
    else
      var rest := Split(s[1..]);
      if s[0] == Slash then [""] + rest else [[s[0]] + rest[0]] + rest[1..]
  }

  /**
   * `strings.Join(parts, "/")`: the pieces with one separator between
   * neighbours, so the first piece starts the result and separator-free
   * pieces give exactly one separator fewer than there are pieces.
   */
  function Join(parts: seq<string>): (r: string)
    ensures |parts| >= 1 ==> parts[0] <= r
    ensures |parts| >= 1 && (forall i :: 0 <= i < |parts| ==> Slash !in parts[i]) ==> Count(r) == |parts| - 1
  {
    if |parts| == 0 then ""
    else if |parts| == 1 then parts[0]
    else
      var rest := Join(parts[1..]);
      CountConcat(parts[0] + [Slash], rest);
      CountConcat(parts[0], [Slash]);
      parts[0] + [Slash] + rest
  }

  /** Separators of a concatenation are those of its two parts. */
  lemma {:induction false} CountConcat(a: string, b: string)
    ensures Count(a + b) == Count(a) + Count(b)
  {
    if a == [] {
      assert a + b == b;
    } else {
      assert (a + b)[0] == a[0] && (a + b)[1..] == a[1..] + b;
      CountConcat(a[1..], b);
    }
  }

  /** Joining the pieces of a split gives the string back. */
  lemma {:induction false} JoinSplit(s: string)
    ensures Join(Split(s)) == s
  {
    if s != [] {
      JoinSplit(s[1..]);
      if s[0] == Slash {
        JoinSplitAfterSlash(s);
      } else {
        JoinSplitAfterChar(s);
      }
    }
  }

  lemma JoinSplitAfterSlash(s: string)
    requires s != [] && s[0] == Slash && Join(Split(s[1..])) == s[1..]
    ensures Join(Split(s)) == s
  {
    var rest := Split(s[1..]);
    assert Split(s) == [""] + rest;
    JoinCons("", rest);
    assert "" + [Slash] == [Slash];
    assert s == [Slash] + s[1..];
  }

  lemma JoinSplitAfterChar(s: string)
    requires s != [] && s[0] != Slash && Join(Split(s[1..])) == s[1..]
    ensures Join(Split(s)) == s
  {
    var rest := Split(s[1..]);
    assert Split(s) == [[s[0]] + rest[0]] + rest[1..];
    JoinPrepend([s[0]], rest);
    assert s == [s[0]] + s[1..];
  }

  /** Joining a first piece before a non-empty list puts one separator between them. */
  lemma JoinCons(p: string, ps: seq<string>)
    requires ps != []
    ensures Join([p] + ps) == p + [Slash] + Join(ps)
  {
    assert ([p] + ps)[1..] == ps;
  }

  lemma Assoc(a: string, b: string, c: string)
    ensures (a + b) + c == a + (b + c)
  {
  }

  /** Prefixing the first piece prefixes the join. */
  lemma JoinPrepend(x: string, rest: seq<string>)
    requires |rest| >= 1
    ensures Join([x + rest[0]] + rest[1..]) == x + Join(rest)
  {
    var r0, r1 := rest[0], rest[1..];
    assert [r0] + r1 == rest;
    if r1 == [] {
      assert [x + r0] + r1 == [x + r0];
    } else {
      JoinCons(x + r0, r1);
      JoinCons(r0, r1);
      Assoc(x, r0, [Slash]);
      Assoc(x, r0 + [Slash], Join(r1));
    }
  }

  /** Split is injective: different names have different pieces. */
  lemma SplitInjective(a: string, b: string)
    requires Split(a) == Split(b)
    ensures a == b
  {
    JoinSplit(a);
    JoinSplit(b);
  }

  /** A string without separators splits into itself alone. */
  lemma SplitNoSlash(s: string)
    requires Slash !in s
    ensures Split(s) == [s]
  {
    JoinSplit(s);
  }

  /** Splitting `p + "/" + t` for a separator-free `p` gives `p`, then the pieces of `t`. */
  lemma {:induction false} SplitCons(p: string, t: string)
    requires Slash !in p
    ensures Split(p + [Slash] + t) == [p] + Split(t)
  {
    if p == [] {
      assert p + [Slash] + t == [Slash] + t;
      assert ([Slash] + t)[1..] == t;
    } else {
      var s := p + [Slash] + t;
      assert s[1..] == p[1..] + [Slash] + t;
      SplitCons(p[1..], t);
      var rest := Split(s[1..]);
      assert rest == [p[1..]] + Split(t);
      assert s[0] == p[0] && p[0] != Slash;
      assert Split(s) == [[p[0]] + rest[0]] + rest[1..];
      assert rest[0] == p[1..] && rest[1..] == Split(t);
      assert [p[0]] + p[1..] == p;
    }
  }

  /** Splitting a join of separator-free pieces gives the pieces back. */
  lemma {:induction false} SplitJoin(parts: seq<string>)
    requires |parts| >= 1
    requires forall i :: 0 <= i < |parts| ==> Slash !in parts[i]
    ensures Split(Join(parts)) == parts
  {
    if |parts| == 1 {
      SplitNoSlash(parts[0]);
    } else {
      SplitJoin(parts[1..]);
      SplitCons(parts[0], Join(parts[1..]));
      assert [parts[0]] + parts[1..] == parts;
    }
  }

  /** A name with a separator splits into its part before the first separator and the rest. */
  lemma SplitAtFirstSlash(s: string)
    requires Slash in s
    ensures |Split(s)| >= 2
    ensures Split(s)[0] + [Slash] + Join(Split(s)[1..]) == s
  {
    JoinSplit(s);
  }

  /**
   * The last piece of a split is the longest separator-free suffix of the
   * string: it is a suffix, and it is either the whole string or preceded by a
   * separator.
   */
  lemma {:induction false} SplitLast(s: string)
    ensures var seg := Split(s)[|Split(s)| - 1];
      |seg| <= |s| && s[|s| - |seg|..] == seg &&
      (|seg| < |s| ==> s[|s| - |seg| - 1] == Slash)
  {
    if s != [] {
      var rest := Split(s[1..]);
      SplitLast(s[1..]);
      if |rest| == 1 && s[0] != Slash {
        SplitNoSlash(s[1..]);
        assert [s[0]] + s[1..] == s;
      } else {
        var seg := Split(s)[|Split(s)| - 1];
        assert seg == rest[|rest| - 1];
        assert s[1..][|s[1..]| - |seg|..] == s[|s| - |seg|..];
      }
    }
  }

  /** `strings.TrimPrefix(s, prefix)`: what follows `prefix` when `s` starts with it, else `s`. */
  function TrimPrefix(s: string, prefix: string): (r: string)
    ensures prefix <= s ==> s == prefix + r
    ensures !(prefix <= s) ==> r == s
  {
    if prefix <= s then s[|prefix|..] else s
  }

  /** `strings.TrimSuffix(s, suffix)`: what precedes `suffix` when `s` ends with it, else `s`. */
  function TrimSuffix(s: string, suffix: string): (r: string)
    ensures |suffix| <= |s| && s[|s| - |suffix|..] == suffix ==> s == r + suffix
    ensures !(|suffix| <= |s| && s[|s| - |suffix|..] == suffix) ==> r == s
  {
    if |suffix| <= |s| && s[|s| - |suffix|..] == suffix then s[..|s| - |suffix|] else s
  }

  /** `strings.TrimLeft(s, "/")`: drops every leading separator. */
  function TrimLeftSlashes(s: string): (r: string)
    ensures r == [] || r[0] != Slash
    ensures |r| <= |s| && s[|s| - |r|..] == r
    ensures forall i :: 0 <= i < |s| - |r| ==> s[i] == Slash
  {
    if s != [] && s[0] == Slash then TrimLeftSlashes(s[1..]) else s
  }

  /** `strings.TrimRight(s, "/")`: drops every trailing separator. */
  function TrimRightSlashes(s: string): (r: string)
    ensures r == [] || r[|r| - 1] != Slash
    ensures r <= s
    ensures forall i :: |r| <= i < |s| ==> s[i] == Slash
  {
    if s != [] && s[|s| - 1] == Slash then TrimRightSlashes(s[..|s| - 1]) else s
  }

  /**
   * `strings.Trim(s, "/")`: the stretch of `s` left when every leading and
   * every trailing separator is dropped; it neither starts nor ends with one.
   */
  function TrimSlashes(s: string): (r: string)
    ensures r == [] || (r[0] != Slash && r[|r| - 1] != Slash)
    ensures exists i :: SlashesAround(s, i, r)
  {
    var l := TrimLeftSlashes(s);
    var r := TrimRightSlashes(l);
    TrimmedStretch(s, l, r);
    r
  }

  /** Trimming the left end and then the right end leaves a stretch with only separators around it. */
  lemma TrimmedStretch(s: string, l: string, r: string)
    requires |l| <= |s| && s[|s| - |l|..] == l && forall i :: 0 <= i < |s| - |l| ==> s[i] == Slash
    requires r <= l && forall i :: |r| <= i < |l| ==> l[i] == Slash
    ensures SlashesAround(s, |s| - |l|, r)
  {
    var i := |s| - |l|;
    assert s[i..i + |r|] == l[..|r|] == r;
    assert forall k :: i + |r| <= k < |s| ==> s[k] == l[k - i];
  }

  /** `r` is the stretch of `s` from position `i`, with only separators before and after it. */
  predicate SlashesAround(s: string, i: int, r: string)
  {
    && 0 <= i <= |s| - |r| && s[i..i + |r|] == r
    && (forall k :: 0 <= k < i ==> s[k] == Slash)
    && (forall k :: i + |r| <= k < |s| ==> s[k] == Slash)
  }

  /**
   * `extractRelativePath`: with `stripPrefix`, the name with the base path
   * (less one trailing separator) removed from its front when it is there, and
   * then every leading and trailing separator removed; without it, the name
   * itself. The prefix test is on characters, not on segments.
   */
  function ExtractRelativePath(fullPath: string, basePath: string, stripPrefix: bool): (r: string)
    ensures stripPrefix ==> r == [] || (r[0] != Slash && r[|r| - 1] != Slash)
    ensures !stripPrefix ==> r == fullPath
  {
    if stripPrefix then
      var base := TrimSuffix(basePath, [Slash]);
      var relative := TrimPrefix(fullPath, base);
      TrimSlashes(relative)
    else
      fullPath
  }

  /**
   * A parameter strictly under the base path has as relative path what follows
   * the base and one separator, whether or not the base is written with a
   * trailing separator; the base path itself is at relative path "".
   */
  lemma RelativeOfChild(base: string, rest: string)
    requires base == [] || base[|base| - 1] != Slash
    requires rest == [] || (rest[0] != Slash && rest[|rest| - 1] != Slash)
    ensures ExtractRelativePath(base + [Slash] + rest, base, true) == rest
    ensures ExtractRelativePath(base + [Slash] + rest, base + [Slash], true) == rest
    ensures ExtractRelativePath(base, base, true) == []
  {
    var full := base + [Slash] + rest;
    TrimSuffixOfBase(base);
    StripBase(base, rest);
    TrimSlashesOfChild(rest);
    assert TrimPrefix(base, base) == [];
  }

  lemma TrimSuffixOfBase(base: string)
    requires base == [] || base[|base| - 1] != Slash
    ensures TrimSuffix(base, [Slash]) == base
    ensures TrimSuffix(base + [Slash], [Slash]) == base
  {
    assert (base + [Slash])[..|base|] == base;
  }

  lemma StripBase(base: string, rest: string)
    ensures TrimPrefix(base + [Slash] + rest, base) == [Slash] + rest
  {
    var full := base + [Slash] + rest;
    assert full[..|base|] == base;
    assert full[|base|..] == [Slash] + rest;
  }

  lemma TrimSlashesOfChild(rest: string)
    requires rest == [] || (rest[0] != Slash && rest[|rest| - 1] != Slash)
    ensures TrimSlashes([Slash] + rest) == rest
  {
    assert ([Slash] + rest)[1..] == rest;
    assert TrimLeftSlashes([Slash] + rest) == TrimLeftSlashes(rest) == rest;
  }

  /** The prefix test is not aware of segments: base "/p" also strips "/pq/a" to "q/a". */
  lemma PrefixNotSegmentAware()
    ensures ExtractRelativePath("/pq/a", "/p", true) == "q/a"
  {
    assert TrimSuffix("/p", "/") == "/p";
    assert "/p" <= "/pq/a";
    assert TrimPrefix("/pq/a", "/p") == "q/a";
    assert TrimLeftSlashes("q/a") == "q/a";
    assert TrimRightSlashes("q/a") == "q/a";
  }

  /**
   * `getLastPathSegment`: the last piece of the name, which is its longest
   * separator-free suffix.
   */
  function LastPathSegment(path: string): (seg: string)
    ensures Slash !in seg
    ensures |seg| <= |path| && path[|path| - |seg|..] == seg
    ensures |seg| < |path| ==> path[|path| - |seg| - 1] == Slash
  {
    SplitLast(path);
    var parts := Split(path);
    parts[|parts| - 1]
  }
}
