/** Repository paths as text and as lists of components: the string operations on normalized paths
    are list operations on their components. */
module PathText {
  import opened Text

  type Path = seq<string>

  predicate IsPart(s: string) {
    s != "" && '/' !in s
  }

  ghost predicate IsPath(p: Path) {
    forall i :: 0 <= i < |p| ==> IsPart(p[i])
  }

  /** The text of a path; the empty path is the repository root. */
  function Render(p: Path): string {
    if p == [] then "" else if |p| == 1 then p[0] else p[0] + "/" + Render(p[1..])
  }

  lemma {:induction false} RenderSplits(p: Path)
    requires IsPath(p) && p != []
    ensures Split(Render(p), '/') == p
  {
    SplitNothing(p[0], '/');
    if |p| > 1 {
      RenderSplits(p[1..]);
      assert p[0] + "/" + Render(p[1..]) == p[0] + ['/'] + Render(p[1..]);
      SplitConcat(p[0], Render(p[1..]), '/');
    }
  }

  lemma RenderEmpty(p: Path)
    requires IsPath(p)
    ensures Render(p) == "" <==> p == []
  {
    if p != [] {
      assert IsPart(p[0]);
    }
  }

  /** Different paths have different texts. */
  lemma RenderInjective(p: Path, q: Path)
    requires IsPath(p) && IsPath(q)
    ensures Render(p) == Render(q) <==> p == q
  {
    RenderEmpty(p);
    RenderEmpty(q);
    if p != [] && q != [] {
      RenderSplits(p);
      RenderSplits(q);
    }
  }

  lemma {:induction false} RenderConcat(p: Path, q: Path)
    requires p != [] && q != []
    ensures Render(p + q) == Render(p) + "/" + Render(q)
  {
    assert (p + q)[0] == p[0] && (p + q)[1..] == p[1..] + q;
    if |p| == 1 {
      assert p[1..] + q == q;
    } else {
      RenderConcat(p[1..], q);
    }
  }

  // ----------------------------------------------------------------- containment

  /** The path is the directory or lies inside it; the empty directory is the root. */
  predicate IsWithin(path: string, dir: string) {
    dir == "" || path == dir || (|path| > |dir| && path[..|dir|] == dir && path[|dir|] == '/')
  }

  /** Containment respects component boundaries. */
  lemma WithinIsPrefix(p: Path, d: Path)
    requires IsPath(p) && IsPath(d)
    ensures IsWithin(Render(p), Render(d)) <==> d <= p
  {
    RenderEmpty(d);
    RenderInjective(p, d);
    if d != [] && p != d {
      if d < p {
        PrefixIsWithin(p, d);
      } else {
        WithinNeedsPrefix(p, d);
      }
    }
  }

  lemma PrefixIsWithin(p: Path, d: Path)
    requires d != [] && d < p
    ensures IsWithin(Render(p), Render(d))
  {
    RenderConcat(d, p[|d|..]);
    hide Render;
    assert d + p[|d|..] == p;
  }

  lemma WithinNeedsPrefix(p: Path, d: Path)
    requires IsPath(p) && IsPath(d) && d != [] && !(d <= p)
    ensures !IsWithin(Render(p), Render(d))
  {
    var path, dir := Render(p), Render(d);
    RenderEmpty(d);
    RenderEmpty(p);
    RenderInjective(p, d);
    RenderSplits(d);
    if p != [] {
      RenderSplits(p);
    }
    hide Render, Split;
    if |path| > |dir| && path[..|dir|] == dir && path[|dir|] == '/' {
      var tail := path[|dir| + 1..];
      assert path == dir + ['/'] + tail;
      SplitConcat(dir, tail, '/');
    }
  }

  // ------------------------------------------------------- relative paths and children

  function Relative(path: string, base: string): string {
    if base == "" then path else if |base| + 1 <= |path| then path[|base| + 1..] else ""
  }

  function ChildPath(base: string, child: string): string {
    if base == "" then child else base + "/" + child
  }

  datatype Once = NoSlash | Once(head: string, tail: string)

  function SplitOnce(s: string): Once {
    if '/' !in s then NoSlash else SplitOnceFrom(s, 0)
  }

  function SplitOnceFrom(s: string, i: nat): Once
    requires i <= |s|
    decreases |s| - i
  {
    if i == |s| then NoSlash
    else if s[i] == '/' then Once(s[..i], s[i + 1..])
    else SplitOnceFrom(s, i + 1)
  }

  lemma RelativeIsSuffix(base: Path, rest: Path)
    requires IsPath(base) && IsPath(rest) && rest != []
    ensures Relative(Render(base + rest), Render(base)) == Render(rest)
  {
    RenderEmpty(base);
    if base == [] {
      assert base + rest == rest;
    } else {
      RenderConcat(base, rest);
    }
  }

  lemma ChildIsAppended(base: Path, child: string)
    requires IsPath(base) && IsPart(child)
    ensures ChildPath(Render(base), child) == Render(base + [child])
  {
    RenderEmpty(base);
    if base == [] {
      assert base + [child] == [child];
    } else {
      RenderConcat(base, [child]);
    }
  }

  lemma {:induction false} FirstSlash(a: string, b: string, i: nat)
    requires '/' !in a && i <= |a|
    ensures SplitOnceFrom(a + ['/'] + b, i) == Once(a, b)
    decreases |a| - i
  {
    var s := a + ['/'] + b;
    if i < |a| {
      assert a[i] in a && s[i] == a[i];
      FirstSlash(a, b, i + 1);
    } else {
      assert s[i] == '/' && s[..i] == a && s[i + 1..] == b;
    }
  }

  /** A relative path has no slash exactly when the file lies directly in the directory; otherwise the
      first part is the child. */
  lemma SplitOnceIsHead(rest: Path)
    requires IsPath(rest) && rest != []
    ensures SplitOnce(Render(rest)) == if |rest| == 1 then NoSlash else Once(rest[0], Render(rest[1..]))
  {
    if |rest| > 1 {
      assert IsPart(rest[0]);
      assert Render(rest) == rest[0] + ['/'] + Render(rest[1..]);
      assert Render(rest)[|rest[0]|] == '/';
      FirstSlash(rest[0], Render(rest[1..]), 0);
    }
  }

  // ------------------------------------------------------------------- ancestors

  /** The prefixes of the text that end before a slash. */
  function AncestorsFrom(path: string, i: nat): seq<string>
    requires i <= |path|
    decreases |path| - i
  {
    if i == |path| then []
    else (if path[i] == '/' then [path[..i]] else []) + AncestorsFrom(path, i + 1)
  }

  function Ancestors(path: string): seq<string> {
    AncestorsFrom(path, 0)
  }

  lemma {:induction false} SkipPart(path: string, i: nat, j: nat)
    requires i <= j <= |path| && forall k :: i <= k < j ==> path[k] != '/'
    ensures AncestorsFrom(path, i) == AncestorsFrom(path, j)
    decreases j - i
  {
    if i < j {
      SkipPart(path, i + 1, j);
    }
  }

  /** The ancestors of a path are its proper prefixes, from the outermost inwards. */
  lemma {:induction false} AncestorsAfter(p: Path, k: nat)
    requires IsPath(p) && 0 < k <= |p|
    ensures |Render(p[..k])| <= |Render(p)|
    ensures AncestorsFrom(Render(p), |Render(p[..k])|)
      == seq(|p| - k, i requires 0 <= i < |p| - k => Render(p[..k + i]))
    decreases |p| - k
  {
    var path := Render(p);
    if k == |p| {
      assert p[..k] == p;
    } else {
      RenderConcat(p[..k], p[k..]);
      assert p[..k] + p[k..] == p;
      RenderConcat(p[..k], [p[k]]);
      assert p[..k] + [p[k]] == p[..k + 1];
      var i := |Render(p[..k])|;
      assert path[i] == '/' && path[..i] == Render(p[..k]);
      AncestorsAfter(p, k + 1);
      var j := |Render(p[..k + 1])|;
      PartInside(p, k);
      SkipPart(path, i + 1, j);
      PrefixesFrom(p, k);
    }
  }

  lemma PrefixesFrom(p: Path, k: nat)
    requires k < |p|
    ensures seq(|p| - k, i requires 0 <= i < |p| - k => Render(p[..k + i]))
      == [Render(p[..k])] + seq(|p| - k - 1, i requires 0 <= i < |p| - k - 1 => Render(p[..k + 1 + i]))
  {
    hide Render;
  }

  lemma PartInside(p: Path, k: nat)
    requires IsPath(p) && 0 < k < |p|
    ensures var i := |Render(p[..k])| + 1; var j := |Render(p[..k + 1])|;
      i <= j <= |Render(p)| && forall n :: i <= n < j ==> Render(p)[n] != '/'
  {
    var i, j := |Render(p[..k])| + 1, |Render(p[..k + 1])|;
    RenderConcat(p[..k], [p[k]]);
    assert p[..k] + [p[k]] == p[..k + 1];
    assert IsPart(p[k]);
    if k + 1 < |p| {
      RenderConcat(p[..k + 1], p[k + 1..]);
      assert p[..k + 1] + p[k + 1..] == p;
    } else {
      assert p[..k + 1] == p;
    }
    forall n | i <= n < j ensures Render(p)[n] != '/' {
      assert Render(p)[n] == Render(p[..k + 1])[n] == p[k][n - i];
      assert p[k][n - i] in p[k];
    }
  }

  lemma AncestorsAreProperPrefixes(p: Path)
    requires IsPath(p) && p != []
    ensures Ancestors(Render(p)) == seq(|p| - 1, i requires 0 <= i < |p| - 1 => Render(p[..i + 1]))
  {
    assert p[..1] == [p[0]];
    AncestorsAfter(p, 1);
    FirstPart(p);
    hide Render, AncestorsFrom;
    SkipPart(Render(p), 0, |p[0]|);
    assert Render([p[0]]) == p[0] by { OnePart(p[0]); }
    assert seq(|p| - 1, i requires 0 <= i < |p| - 1 => Render(p[..1 + i]))
        == seq(|p| - 1, i requires 0 <= i < |p| - 1 => Render(p[..i + 1]));
  }

  lemma OnePart(part: string)
    ensures Render([part]) == part
  {
  }

  lemma FirstPart(p: Path)
    requires IsPath(p) && p != []
    ensures |p[0]| <= |Render(p)| && forall k :: 0 <= k < |p[0]| ==> Render(p)[k] != '/'
  {
    assert IsPart(p[0]);
    forall k | 0 <= k < |p[0]| ensures Render(p)[k] != '/' {
      assert Render(p)[k] == p[0][k] && p[0][k] in p[0];
    }
  }
}
