/** The texts normalisation and relative paths produce, and the laws that connect them. */
module PathLaws {
  import opened PathText
  import opened PathResolution

  predicate Absolute(p: CStr) { p != "" && IsSep(p[0]) }

  function Root(p: CStr): CStr { if Absolute(p) then "/" else "" }

  /** The text a list of joined paths normalises to. */
  ghost function Normalized(paths: seq<CStr>): CStr
    requires paths != []
  {
    var ts, absolute := AllSegsOf(paths), Absolute(paths[0]);
    var r := Resolve([], ts, absolute);
    ResolvedText(paths);
    Root(paths[0]) + if r == [] && ts != [] && !absolute then "." else Join(r)
  }

  lemma ResolvedText(paths: seq<CStr>)
    requires paths != []
    ensures forall i :: 0 <= i < |Join(Resolve([], AllSegsOf(paths), Absolute(paths[0])))| ==>
                          Join(Resolve([], AllSegsOf(paths), Absolute(paths[0])))[i] != '\0'
  {
    var ts, absolute := AllSegsOf(paths), Absolute(paths[0]);
    AllSegsClean(paths);
    ResolveClean([], ts, absolute);
    JoinCStr(Resolve([], ts, absolute));
  }

  ghost function Stack(p: CStr): seq<string> { Resolve([], Segs(p), Absolute(p)) }

  ghost function Common(a: seq<string>, b: seq<string>): (c: nat)
    ensures c <= |a| && c <= |b| && a[..c] == b[..c]
    ensures c < |a| && c < |b| ==> a[c] != b[c]
  {
    if a == [] || b == [] || a[0] != b[0] then 0 else
      var c := Common(a[1..], b[1..]) + 1;
      assert a[..c] == [a[0]] + a[1..][..c - 1];
      assert b[..c] == [b[0]] + b[1..][..c - 1];
      c
  }

  ghost function Backs(n: nat): (r: seq<string>)
    ensures |r| == n && forall i :: 0 <= i < n ==> r[i] == ".."
  {
    seq(n, i => "..")
  }

  /** One `..` for each segment base has past the common ones, then the rest of path. */
  ghost function RelSegs(base: CStr, path: CStr): seq<string> {
    var b, p := Stack(base), Stack(path);
    Backs(|b| - Common(b, p)) + p[Common(b, p)..]
  }

  lemma RelSegsText(base: CStr, path: CStr)
    ensures forall i :: 0 <= i < |Join(RelSegs(base, path))| ==> Join(RelSegs(base, path))[i] != '\0'
  {
    StackClean(path);
    hide RelSegs, Stack;
    RelSegsAre(base, path);
    JoinCStr(RelSegs(base, path));
  }

  /** The text of the path that leads from base to path. */
  ghost function Relative(base: CStr, path: CStr): CStr {
    RelSegsText(base, path);
    if Root(base) != Root(path) then ""
    else if RelSegs(base, path) == [] then "."
    else Join(RelSegs(base, path))
  }

  // ----- clean stacks -----

  /** What a resolver can hold: real segments, no `.`, every `..` at the front, none under a root. */
  ghost predicate Clean(st: seq<string>, absolute: bool) {
    && AllSegs(st)
    && (forall j :: 0 <= j < |st| ==> KindOf(st[j]) != Current)
    && (forall i, j :: 0 <= i < j < |st| && KindOf(st[j]) == Back ==> KindOf(st[i]) == Back)
    && (absolute ==> forall j :: 0 <= j < |st| ==> KindOf(st[j]) == Normal)
  }

  lemma {:induction false} ResolveClean(st: seq<string>, ts: seq<string>, absolute: bool)
    requires Clean(st, absolute) && AllSegs(ts)
    ensures Clean(Resolve(st, ts, absolute), absolute)
    decreases |ts|
  {
    if ts != [] {
      ResolveClean(Push(st, ts[0], absolute), ts[1..], absolute);
    }
  }

  /** Segments that keep the stack clean are simply added to it. */
  lemma {:induction false} ResolveAppends(st: seq<string>, ts: seq<string>, absolute: bool)
    requires Clean(st + ts, absolute)
    ensures Resolve(st, ts, absolute) == st + ts
    decreases |ts|
  {
    if ts == [] {
      assert st + ts == st;
    } else {
      assert (st + ts)[|st|] == ts[0];
      assert st != [] ==> (st + ts)[|st| - 1] == st[|st| - 1];
      assert st + [ts[0]] + ts[1..] == st + ts;
      ResolveAppends(st + [ts[0]], ts[1..], absolute);
    }
  }

  lemma {:induction false} AllSegsClean(paths: seq<CStr>)
    ensures AllSegs(AllSegsOf(paths))
  {
    if paths != [] {
      SegsAreSegs(paths[0]);
      AllSegsClean(paths[1..]);
    }
  }

  lemma StackClean(p: CStr)
    ensures Clean(Stack(p), Absolute(p))
  {
    SegsAreSegs(p);
    ResolveClean([], Segs(p), Absolute(p));
  }

  lemma RelSegsAre(base: CStr, path: CStr)
    requires AllSegs(Stack(path))
    ensures AllSegs(RelSegs(base, path))
  {
  }

  lemma NormalizedOne(p: CStr)
    ensures Normalized([p]) == Root(p) + if Stack(p) == [] && Segs(p) != [] && !Absolute(p) then "." else Join(Stack(p))
  {
    OneSegs(p);
  }

  /** A root and a clean list of segments read back as themselves. */
  lemma ReadBack(r: CStr, st: seq<string>, absolute: bool)
    requires Clean(st, absolute) && r == if absolute then "/" else ""
    ensures forall i :: 0 <= i < |Join(st)| ==> Join(st)[i] != '\0'
    ensures Absolute(r + Join(st)) == absolute && Segs(r + Join(st)) == st
  {
    JoinCStr(st);
    SegsOfJoin(st);
    if absolute {
      SegsSkipRoot(Join(st));
    } else {
      assert r + Join(st) == Join(st);
    }
  }

  lemma DotReads()
    ensures Segs(".") == ["."] && Stack(".") == []
  {
    SegsOfJoin(["."]);
    assert Resolve([], ["."], false) == Resolve([], [], false);
  }

  /** Normalising a normalised path changes nothing. */
  lemma NormalizeTwice(paths: seq<CStr>)
    requires paths != []
    ensures Normalized([Normalized(paths)]) == Normalized(paths)
  {
    var ts, absolute := AllSegsOf(paths), Absolute(paths[0]);
    var r := Resolve([], ts, absolute);
    AllSegsClean(paths);
    ResolveClean([], ts, absolute);
    var t := Normalized(paths);
    NormalizedOne(t);
    if r == [] && ts != [] && !absolute {
      DotReads();
      assert t == ".";
    } else {
      ReadBack(Root(paths[0]), r, absolute);
      assert [] + r == r;
      ResolveAppends([], r, absolute);
    }
  }

  // ----- joining a relative path -----

  lemma {:induction false} PopNormals(st: seq<string>, n: nat, absolute: bool)
    requires n <= |st| && forall j :: |st| - n <= j < |st| ==> KindOf(st[j]) == Normal
    ensures Resolve(st, Backs(n), absolute) == st[..|st| - n]
    decreases n
  {
    if n > 0 {
      assert Backs(n)[1..] == Backs(n - 1);
      PopNormals(st[..|st| - 1], n - 1, absolute);
      assert st[..|st| - 1][..|st| - n] == st[..|st| - n];
    }
  }

  /** Where base has no `..` past the common segments, the relative path leads to path. */
  lemma RelativeResolves(base: CStr, path: CStr)
    requires Root(base) == Root(path)
    requires forall j :: Common(Stack(base), Stack(path)) <= j < |Stack(base)| ==> KindOf(Stack(base)[j]) == Normal
    ensures Resolve([], Segs(base) + RelSegs(base, path), Absolute(base)) == Stack(path)
  {
    var b, p, absolute := Stack(base), Stack(path), Absolute(base);
    var c := Common(b, p);
    StackClean(path);
    hide Resolve, Clean, Common;
    ResolveConcat([], Segs(base), RelSegs(base, path), absolute);
    ResolveConcat(b, Backs(|b| - c), p[c..], absolute);
    PopNormals(b, |b| - c, absolute);
    assert b[..|b| - (|b| - c)] == p[..c];
    ResolveRest(p, c, absolute);
  }

  lemma ResolveRest(p: seq<string>, c: nat, absolute: bool)
    requires Clean(p, absolute) && c <= |p|
    ensures Resolve(p[..c], p[c..], absolute) == p
  {
    assert p[..c] + p[c..] == p;
    ResolveAppends(p[..c], p[c..], absolute);
  }

  lemma RelativeReads(base: CStr, path: CStr)
    requires Root(base) == Root(path)
    ensures Segs(Relative(base, path)) == if RelSegs(base, path) == [] then ["."] else RelSegs(base, path)
  {
    StackClean(path);
    RelSegsAre(base, path);
    SegsOfJoin(RelSegs(base, path));
    DotReads();
  }

  lemma JoinedStack(base: CStr, path: CStr)
    requires Root(base) == Root(path)
    ensures AllSegsOf([base, Relative(base, path)]) != []
    ensures Resolve([], AllSegsOf([base, Relative(base, path)]), Absolute(base)) ==
            Resolve([], Segs(base) + RelSegs(base, path), Absolute(base))
  {
    var absolute := Absolute(base);
    TwoSegs(base, Relative(base, path));
    RelativeReads(base, path);
    if RelSegs(base, path) == [] {
      ResolveConcat([], Segs(base), ["."], absolute);
      assert Resolve(Stack(base), ["."], absolute) == Stack(base);
      assert Segs(base) + [] == Segs(base);
    }
  }

  /** For absolute paths, joining base with the relative path gives the normal form of path. */
  lemma JoinRelativeAbsolute(base: CStr, path: CStr)
    requires Absolute(base) && Absolute(path)
    ensures Normalized([base, Relative(base, path)]) == Normalized([path])
  {
    StackClean(base);
    RelativeResolves(base, path);
    JoinedStack(base, path);
    NormalizedOne(path);
  }

  // ----- relative paths: exactly when the law holds -----

  /** How many `..` base keeps past the common segments. */
  ghost function ExtraBacks(b: seq<string>, c: nat): (k: nat)
    requires c <= |b|
    ensures c + k <= |b|
    ensures c + k < |b| ==> KindOf(b[c + k]) != Back
    ensures forall j :: c <= j < c + k ==> KindOf(b[j]) == Back
    decreases |b| - c
  {
    if c < |b| && KindOf(b[c]) == Back then 1 + ExtraBacks(b, c + 1) else 0
  }

  lemma {:induction false} PushBacks(st: seq<string>, n: nat)
    requires forall j :: 0 <= j < |st| ==> KindOf(st[j]) == Back
    ensures Resolve(st, Backs(n), false) == st + Backs(n)
    decreases n
  {
    if n > 0 {
      assert Backs(n)[1..] == Backs(n - 1);
      PushBacks(st + [".."], n - 1);
      assert st + [".."] + Backs(n - 1) == st + Backs(n);
    } else {
      assert st + Backs(0) == st;
    }
  }

  /** Going back over the segments of b past c: the normal ones are undone, then its k `..` pile up. */
  lemma BackOver(b: seq<string>, c: nat, k: nat)
    requires Clean(b, false) && c + k <= |b| && 0 < k == ExtraBacks(b, c)
    ensures Resolve(b, Backs(|b| - c), false) == b[..c + k] + Backs(k)
    ensures forall j :: 0 <= j < c + k ==> KindOf(b[j]) == Back
  {
    hide Resolve, AllSegs;
    var n := |b| - c - k;
    forall j | 0 <= j < c + k ensures KindOf(b[j]) == Back {
      assert KindOf(b[c + k - 1]) == Back;
    }
    assert Backs(|b| - c) == Backs(n) + Backs(k);
    ResolveConcat(b, Backs(n), Backs(k), false);
    PopNormals(b, n, false);
    assert b[..|b| - n] == b[..c + k];
    PushBacks(b[..c + k], k);
  }

  /** A base that keeps k > 0 `..` past the common segments ends up 2k of them away. */
  lemma StackStrays(b: seq<string>, p: seq<string>, c: nat, k: nat)
    requires Clean(b, false) && Clean(p, false) && c <= |p| && c + k <= |b| && 0 < k == ExtraBacks(b, c)
    ensures |Resolve(b, Backs(|b| - c) + p[c..], false)| == |p| + 2 * k
  {
    hide Resolve, KindOf, ExtraBacks, AllSegs, Clean;
    ResolveConcat(b, Backs(|b| - c), p[c..], false);
    BackOver(b, c, k);
    FrontIsBacks(b, c + k, k);
    BacksThenRest(b[..c + k] + Backs(k), p, c);
  }

  lemma StrayBack(b: seq<string>, c: nat)
    requires c < |b| && IsBack(b[c])
    ensures ExtraBacks(b, c) > 0
  {
  }

  lemma RelativeStrays(base: CStr, path: CStr)
    requires !Absolute(base) && !Absolute(path) && StraysAbove(base, path)
    ensures Resolve([], Segs(base) + RelSegs(base, path), false) != Stack(path)
    ensures Resolve([], Segs(base) + RelSegs(base, path), false) != []
  {
    var b, p := Stack(base), Stack(path);
    var c := Common(b, p);
    hide Resolve, Push, KindOf;
    StrayBack(b, c);
    assert RelSegs(base, path) == Backs(|b| - c) + p[c..];
    assert b == Resolve([], Segs(base), false);
    hide *;
    StackClean(base);
    StackClean(path);
    ResolveConcat([], Segs(base), RelSegs(base, path), false);
    StackStrays(b, p, c, ExtraBacks(b, c));
  }

  lemma FrontIsBacks(b: seq<string>, n: nat, k: nat)
    requires Clean(b, false) && n <= |b| && forall j :: 0 <= j < n ==> KindOf(b[j]) == Back
    ensures AllSegs(b[..n] + Backs(k))
    ensures forall j :: 0 <= j < n + k ==> KindOf((b[..n] + Backs(k))[j]) == Back
  {
  }

  lemma BacksThenRest(front: seq<string>, p: seq<string>, c: nat)
    requires c <= |p| && Clean(p, false) && AllSegs(front)
    requires forall j :: 0 <= j < |front| ==> KindOf(front[j]) == Back
    ensures Resolve(front, p[c..], false) == front + p[c..]
  {
    ResolveAppends(front, p[c..], false);
  }

  /** Joining base with the relative path gives the normal form of path exactly when the two share a
      root and, if they are relative, path is not empty and base keeps no `..` past the segments they
      have in common. */
  lemma JoinRelative(base: CStr, path: CStr)
    ensures Normalized([base, Relative(base, path)]) == Normalized([path]) <==>
            Root(base) == Root(path) &&
            (Absolute(base) || (path != "" && !StraysAbove(base, path)))
  {
    if Root(base) != Root(path) {
      NormalizedRoot([base, Relative(base, path)]);
      NormalizedRoot([path]);
    } else if Absolute(base) {
      JoinRelativeAbsolute(base, path);
    } else {
      JoinRelativeRelative(base, path);
    }
  }

  predicate IsBack(t: string) { t == ".." }

  ghost predicate StraysAbove(base: CStr, path: CStr) {
    var b := Stack(base);
    var c := Common(b, Stack(path));
    c < |b| && IsBack(b[c])
  }

  lemma NormalizedRoot(paths: seq<CStr>)
    requires paths != []
    ensures Absolute(Normalized(paths)) == Absolute(paths[0])
  {
    var ts, absolute := AllSegsOf(paths), Absolute(paths[0]);
    AllSegsClean(paths);
    ResolveClean([], ts, absolute);
    ReadBack(Root(paths[0]), Resolve([], ts, absolute), absolute);
  }

  lemma EmptyPath(p: CStr)
    requires !Absolute(p)
    ensures Segs(p) == [] <==> p == ""
  {
    if p != "" {
      SpanBounds(p, 0);
    }
  }

  lemma JoinedText(base: CStr, path: CStr)
    requires !Absolute(base) && !Absolute(path)
    ensures var r := Resolve([], Segs(base) + RelSegs(base, path), false);
            Normalized([base, Relative(base, path)]) == if r == [] then "." else Join(r)
  {
    JoinedStack(base, path);
    hide Resolve, RelSegs, Segs, Join;
    var t := Normalized([base, Relative(base, path)]);
    assert "" + t == t;
  }

  /** Where the joined segments lead to path, the texts differ only for the empty path. */
  lemma StraightText(base: CStr, path: CStr)
    requires !Absolute(base) && !Absolute(path)
    requires Resolve([], Segs(base) + RelSegs(base, path), false) == Stack(path)
    ensures Normalized([base, Relative(base, path)]) == Normalized([path]) <==> path != ""
  {
    JoinedText(base, path);
    NormalizedOne(path);
    EmptyPath(path);
    hide Normalized, Relative, RelSegs;
    assert Segs(path) == [] ==> Stack(path) == [] && Join(Stack(path)) == "";
  }

  /** Past the common segments base then has normal ones only. */
  lemma NoStray(base: CStr, path: CStr)
    requires !Absolute(base) && !Absolute(path) && !StraysAbove(base, path)
    ensures Resolve([], Segs(base) + RelSegs(base, path), false) == Stack(path)
  {
    var b, c := Stack(base), Common(Stack(base), Stack(path));
    StackClean(base);
    forall j | c <= j < |b| ensures KindOf(b[j]) == Normal {
      assert KindOf(b[c]) != Back;
    }
    hide Resolve, Common;
    RelativeResolves(base, path);
  }

  lemma JoinRelativeRelative(base: CStr, path: CStr)
    requires !Absolute(base) && !Absolute(path)
    ensures Normalized([base, Relative(base, path)]) == Normalized([path]) <==>
            path != "" && !StraysAbove(base, path)
  {
    hide *;
    if StraysAbove(base, path) {
      RelativeStrays(base, path);
      StrayText(base, path, Resolve([], Segs(base) + RelSegs(base, path), false));
    } else {
      NoStray(base, path);
      StraightText(base, path);
    }
  }

  lemma NormalizedReads(path: CStr)
    requires !Absolute(path)
    ensures Segs(Normalized([path])) == Stack(path) || Segs(Normalized([path])) == ["."]
  {
    NormalizedOne(path);
    StackClean(path);
    SegsOfJoin(Stack(path));
    DotReads();
    var t := if Stack(path) == [] && Segs(path) != [] then "." else Join(Stack(path));
    assert Root(path) + t == t;
  }

  lemma StrayText(base: CStr, path: CStr, r: seq<string>)
    requires !Absolute(base) && !Absolute(path)
    requires r == Resolve([], Segs(base) + RelSegs(base, path), false) && r != [] && r != Stack(path)
    ensures Normalized([base, Relative(base, path)]) != Normalized([path])
  {
    JoinedStack(base, path);
    AllSegsClean([base, Relative(base, path)]);
    ResolveClean([], AllSegsOf([base, Relative(base, path)]), false);
    assert Normalized([base, Relative(base, path)]) == Join(r);
    SegsOfJoin(r);
    NormalizedReads(path);
    assert KindOf(r[0]) != Current;
    assert Segs(Normalized([base, Relative(base, path)])) == r;
  }

  /** The smallest failure: from `..` to `a`. */
  lemma RelativeFails()
    ensures StraysAbove("..", "a")
    ensures Normalized(["..", Relative("..", "a")]) != Normalized(["a"])
  {
    SegsOfJoin([".."]);
    SegsOfJoin(["a"]);
    assert Join([".."]) == ".." && Join(["a"]) == "a";
    assert Stack("..") == [".."] by {
      assert Resolve([], [".."], false) == Resolve([".."], [], false);
    }
    assert Stack("a") == ["a"] by {
      assert Resolve([], ["a"], false) == Resolve(["a"], [], false);
    }
    JoinRelative("..", "a");
  }
}
