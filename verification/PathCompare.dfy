/** linux/cwalk.c walking two paths side by side: relative paths and intersections. */
module PathComparison {
  import opened PathText
  import opened PathResolution
  import opened PathLaws
  import opened Cursors
  import opened PathBuilding

  // ----- what the kept segments of two paths share -----

  ghost function KeptAll(ts: seq<string>, absolute: bool): seq<string> { Kept(ts, |ts|, absolute) }

  lemma {:induction false} KeptPrefix(ts: seq<string>, k: nat, n: nat, absolute: bool)
    requires k <= n <= |ts|
    ensures Kept(ts, k, absolute) <= Kept(ts, n, absolute)
    ensures KeptAt(ts, k, absolute) <= KeptAt(ts, n, absolute)
    decreases n
  {
    if k < n {
      KeptPrefix(ts, k, n - 1, absolute);
    }
  }

  /** The kept segment at position k comes right after those kept before it. */
  lemma KeptNext(ts: seq<string>, k: nat, absolute: bool)
    requires k < |ts| && !Removed(ts, k, absolute)
    ensures |Kept(ts, k, absolute)| < |KeptAll(ts, absolute)|
    ensures KeptAll(ts, absolute)[|Kept(ts, k, absolute)|] == ts[k]
  {
    KeptPrefix(ts, k + 1, |ts|, absolute);
    assert Kept(ts, k + 1, absolute)[|Kept(ts, k, absolute)|] == ts[k];
  }

  lemma {:induction false} CommonIs(a: seq<string>, b: seq<string>, c: nat)
    requires c <= |a| && c <= |b| && a[..c] == b[..c]
    requires c < |a| && c < |b| ==> a[c] != b[c]
    ensures Common(a, b) == c
    decreases c
  {
    if c > 0 {
      assert a[..c][0] == b[..c][0];
      assert a[1..][..c - 1] == a[..c][1..] && b[1..][..c - 1] == b[..c][1..];
      CommonIs(a[1..], b[1..], c - 1);
    }
  }

  /** Two walks that kept the same so far stand where the kept segments diverge. */
  ghost predicate Diverged(bts: seq<string>, b: nat, ots: seq<string>, o: nat, absolute: bool)
    requires b <= |bts| && o <= |ots|
  {
    var c := Common(KeptAll(bts, absolute), KeptAll(ots, absolute));
    && Kept(bts, b, absolute) == KeptAll(bts, absolute)[..c]
    && Kept(ots, o, absolute) == KeptAll(ots, absolute)[..c]
  }

  lemma DivergedAt(bts: seq<string>, b: nat, ots: seq<string>, o: nat, absolute: bool)
    requires b <= |bts| && o <= |ots| && Kept(bts, b, absolute) == Kept(ots, o, absolute)
    requires b == |bts| || o == |ots| ||
             (!Removed(bts, b, absolute) && !Removed(ots, o, absolute) && bts[b] != ots[o])
    ensures Diverged(bts, b, ots, o, absolute)
  {
    KeptPrefix(bts, b, |bts|, absolute);
    KeptPrefix(ots, o, |ots|, absolute);
    if b < |bts| && o < |ots| {
      KeptNext(bts, b, absolute);
      KeptNext(ots, o, absolute);
    }
    CommonIs(KeptAll(bts, absolute), KeptAll(ots, absolute), |Kept(bts, b, absolute)|);
  }

  lemma SameStep(bts: seq<string>, b: nat, ots: seq<string>, o: nat, absolute: bool)
    requires b < |bts| && o < |ots| && Kept(bts, b, absolute) == Kept(ots, o, absolute)
    requires !Removed(bts, b, absolute) && !Removed(ots, o, absolute) && bts[b] == ots[o]
    ensures Kept(bts, b + 1, absolute) == Kept(ots, o + 1, absolute)
  {
  }

  lemma NothingKept(bts: seq<string>, ots: seq<string>, absolute: bool)
    ensures Kept(bts, 0, absolute) == [] == Kept(ots, 0, absolute)
  {
  }

  /** cwk_path_is_string_equal, for UNIX paths. */
  method IsStringEqual(a: CStr, i: nat, n: nat, b: CStr, j: nat, m: nat) returns (r: bool)
    requires i + n <= |a| && j + m <= |b|
    ensures r <==> a[i..i + n] == b[j..j + m]
  {
    if n != m {
      return false;
    }
    for k := 0 to n
      invariant forall q {:trigger a[i..i + n][q]} :: 0 <= q < k ==> a[i..i + n][q] == b[j..j + m][q]
    {
      assert a[i..i + n][k] == a[i + k] && b[j..j + m][k] == b[j + k];
      if CharAt(a, i + k) != CharAt(b, j + k) {
        return false;
      }
    }
    return true;
  }

  method SameSegment(x: Cursor, y: Cursor) returns (r: bool)
    requires x.On() && y.On()
    ensures r <==> x.All()[x.Pos()] == y.All()[y.Pos()]
  {
    x.OnText();
    y.OnText();
    r := IsStringEqual(x.path, x.begin, x.size, y.path, y.begin, y.size);
  }

  /** cwk_path_skip_segments_until_diverge. */
  method SkipSegmentsUntilDiverge(bsj: Cursor, osj: Cursor, absolute: bool)
    returns (baseAvailable: bool, otherAvailable: bool)
    requires bsj != osj && (bsj.On() || bsj.Idle()) && (osj.On() || osj.Idle())
    requires bsj.Pos() == 0 == osj.Pos()
    modifies bsj, osj
    ensures Diverged(bsj.All(), bsj.Pos(), osj.All(), osj.Pos(), absolute)
    ensures if baseAvailable then bsj.On() else bsj.Pos() == |bsj.All()|
    ensures if otherAvailable then osj.On() else osj.Pos() == |osj.All()|
  {
    hide Cursor.On, Cursor.Pos, Cursor.Idle, Kept, Removed, Diverged, Spans;
    ghost var bts, ots := bsj.All(), osj.All();
    NothingKept(bts, ots, absolute);
    while true
      invariant (bsj.On() || bsj.Idle()) && (osj.On() || osj.Idle())
      invariant Kept(bts, bsj.Pos(), absolute) == Kept(ots, osj.Pos(), absolute)
      decreases |bts| - bsj.Pos()
    {
      baseAvailable := bsj.SkipInvisible(absolute);
      otherAvailable := osj.SkipInvisible(absolute);
      ghost var b, o := bsj.Pos(), osj.Pos();
      if !baseAvailable || !otherAvailable {
        DivergedAt(bts, b, ots, o, absolute);
        break;
      }
      var same := SameSegment(bsj, osj);
      if !same {
        DivergedAt(bts, b, ots, o, absolute);
        break;
      }
      baseAvailable := bsj.NextJoined();
      otherAvailable := osj.NextJoined();
      SameStep(bts, b, ots, o, absolute);
      if !(baseAvailable && otherAvailable) {
        DivergedAt(bts, b + 1, ots, o + 1, absolute);
        break;
      }
    }
  }

  // ----- relative paths -----

  /** Segments each followed by a separator, as they are written before the last one is taken back. */
  ghost function Trail(ts: seq<string>): string { if ts == [] then "" else Join(ts) + "/" }

  lemma TrailAppend(ts: seq<string>, t: string)
    ensures Trail(ts + [t]) == Trail(ts) + t + "/"
  {
    JoinAppend(ts, t);
  }

  /** The output so far is the trail of ks. */
  ghost predicate Wrote(buffer: seq<char>, pos: nat, hasOutput: bool, ks: seq<string>) {
    && pos == |Trail(ks)|
    && Holds(buffer, Trail(ks))
    && (hasOutput <==> ks != [])
  }

  /** Outputs t and a separator. */
  method OutputWithSeparator(buffer: array<char>, position: nat, t: string, ghost had: bool, ghost ks: seq<string>)
    returns (pos: nat)
    requires Wrote(buffer[..], position, had, ks)
    modifies buffer
    ensures Wrote(buffer[..], pos, true, ks + [t])
  {
    var n := OutputSized(buffer, position, t, Trail(ks));
    pos := position + n;
    n := OutputSized(buffer, pos, "/", Trail(ks) + t);
    pos := pos + n;
    TrailAppend(ks, t);
  }

  lemma BacksAppend(n: nat)
    ensures Backs(n + 1) == Backs(n) + [".."]
  {
  }

  /** One `../` for every segment base still keeps. */
  method OutputBacks(bsj: Cursor, absolute: bool, buffer: array<char>, ghost c: nat)
    returns (pos: nat, hasOutput: bool)
    requires bsj.On() && |Kept(bsj.All(), bsj.Pos(), absolute)| == c
    modifies bsj, buffer
    ensures c <= |KeptAll(bsj.All(), absolute)|
    ensures Wrote(buffer[..], pos, hasOutput, Backs(|KeptAll(bsj.All(), absolute)| - c))
  {
    hide Cursor.On, Cursor.Pos, Cursor.Idle, Kept, Removed, Wrote, Spans, Backs;
    ghost var ts, ks := bsj.All(), Backs(0);
    NothingWritten(buffer[..]);
    pos, hasOutput := 0, false;
    while true
      invariant bsj.On()
      invariant ks == Backs(|ks|) && |Kept(ts, bsj.Pos(), absolute)| == c + |ks|
      invariant Wrote(buffer[..], pos, hasOutput, ks)
      modifies bsj, buffer
      decreases |ts| - bsj.Pos()
    {
      var more := bsj.SkipInvisible(absolute);
      if !more {
        break;
      }
      ghost var k := bsj.Pos();
      pos := OutputWithSeparator(buffer, pos, "..", hasOutput, ks);
      hasOutput := true;
      BacksAppend(|ks|);
      ks := ks + [".."];
      KeptTailStep(ts, k, c, absolute);
      more := bsj.NextJoined();
      if !more {
        break;
      }
    }
  }

  lemma KeptTailStep(ts: seq<string>, k: nat, c: nat, absolute: bool)
    requires k < |ts| && !Removed(ts, k, absolute) && c <= |Kept(ts, k, absolute)|
    ensures c <= |Kept(ts, k + 1, absolute)|
    ensures Kept(ts, k + 1, absolute)[c..] == Kept(ts, k, absolute)[c..] + [ts[k]]
  {
  }

  /** The segments path still keeps. */
  method OutputRest(osj: Cursor, absolute: bool, buffer: array<char>, position: nat, had: bool,
                    ghost before: seq<string>, ghost c: nat)
    returns (pos: nat, hasOutput: bool)
    requires osj.On() && |Kept(osj.All(), osj.Pos(), absolute)| == c
    requires Wrote(buffer[..], position, had, before)
    modifies osj, buffer
    ensures c <= |KeptAll(osj.All(), absolute)|
    ensures Wrote(buffer[..], pos, hasOutput, before + KeptAll(osj.All(), absolute)[c..])
  {
    hide Cursor.On, Cursor.Pos, Cursor.Idle, Kept, Removed, Wrote, Spans;
    ghost var ts, ks := osj.All(), [];
    pos, hasOutput := position, had;
    assert before + [] == before;
    while true
      invariant osj.On()
      invariant |Kept(ts, osj.Pos(), absolute)| >= c && Kept(ts, osj.Pos(), absolute)[c..] == ks
      invariant Wrote(buffer[..], pos, hasOutput, before + ks)
      modifies osj, buffer
      decreases |ts| - osj.Pos()
    {
      var more := osj.SkipInvisible(absolute);
      if !more {
        break;
      }
      ghost var k := osj.Pos();
      osj.OnText();
      pos := OutputWithSeparator(buffer, pos, osj.path[osj.begin..osj.begin + osj.size], hasOutput, before + ks);
      hasOutput := true;
      assert before + ks + [ts[k]] == before + (ks + [ts[k]]);
      ks := ks + [ts[k]];
      KeptTailStep(ts, k, c, absolute);
      more := osj.NextJoined();
      if !more {
        break;
      }
    }
  }

  /** What one path read on its own keeps is its stack. */
  lemma KeptIsStack(p: CStr)
    ensures AllSegsOf([p]) == Segs(p) && KeptAll(Segs(p), Absolute(p)) == Stack(p)
  {
    OneSegs(p);
    CountersAreStack(Segs(p), Absolute(p));
  }

  /** Takes the last separator back, or stays with `.`, and terminates. */
  method FinishRelative(buffer: array<char>, position: nat, hasOutput: bool, ghost ks: seq<string>)
    returns (pos: nat)
    requires AllSegs(ks) && Wrote(buffer[..], position, hasOutput, ks)
    modifies buffer
    ensures var t := if ks == [] then "." else Join(ks); pos == |t| && Filled(buffer[..], t)
  {
    pos := position;
    if hasOutput {
      pos := pos - 1;
      assert Trail(ks)[..pos] == Join(ks);
    } else {
      var n := OutputSized(buffer, pos, ".", "");
      pos := pos + n;
    }
    TerminateOutput(buffer, pos, if ks == [] then "." else Join(ks));
  }

  /** What two walks that diverged leave of each stack. */
  lemma DivergedStacks(base: CStr, path: CStr, b: nat, o: nat)
    requires Root(base) == Root(path) && b <= |Segs(base)| && o <= |Segs(path)|
    requires Diverged(Segs(base), b, Segs(path), o, Absolute(base))
    ensures var c := Common(Stack(base), Stack(path));
            && |Kept(Segs(base), b, Absolute(base))| == c == |Kept(Segs(path), o, Absolute(base))|
            && (b == |Segs(base)| ==> c == |Stack(base)|)
            && (o == |Segs(path)| ==> c == |Stack(path)|)
  {
    CountersAreStack(Segs(base), Absolute(base));
    CountersAreStack(Segs(path), Absolute(base));
  }

  /** cwk_path_get_relative, for paths with equal roots. */
  method GetRelativeSameRoot(base: CStr, path: CStr, absolute: bool, buffer: array<char>) returns (pos: nat)
    requires Root(base) == Root(path) && absolute == Absolute(base)
    modifies buffer
    ensures pos == |Relative(base, path)| && Filled(buffer[..], Relative(base, path))
  {
    hide Cursor.On, Cursor.Pos, Cursor.Idle, Diverged, Common, Wrote, Spans, Kept, KeptAll, Stack, Holds, Filled;
    KeptIsStack(base);
    KeptIsStack(path);
    var bsj := new Cursor([base]);
    var osj := new Cursor([path]);
    var found := bsj.FirstJoined();
    found := osj.FirstJoined();
    var baseAvailable, otherAvailable := SkipSegmentsUntilDiverge(bsj, osj, absolute);
    DivergedStacks(base, path, bsj.Pos(), osj.Pos());
    ghost var b, p := Stack(base), Stack(path);
    ghost var c := Common(b, p);
    var hasOutput := false;
    pos := 0;
    ghost var ks := Backs(|b| - c);
    if baseAvailable {
      pos, hasOutput := OutputBacks(bsj, absolute, buffer, c);
    } else {
      NothingWritten(buffer[..]);
    }
    if otherAvailable {
      pos, hasOutput := OutputRest(osj, absolute, buffer, pos, hasOutput, ks, c);
    } else {
      assert p[c..] == [] && ks + [] == ks;
    }
    StackClean(path);
    RelSegsAre(base, path);
    pos := FinishRelative(buffer, pos, hasOutput, RelSegs(base, path));
  }

  lemma NothingWritten(buffer: seq<char>)
    ensures Wrote(buffer, 0, false, Backs(0))
  {
  }

  /** cwk_path_get_relative. */
  method GetRelative(base: CStr, path: CStr, buffer: array<char>) returns (pos: nat)
    modifies buffer
    ensures pos == |Relative(base, path)| && Filled(buffer[..], Relative(base, path))
  {
    var baseRoot := RootLength(base);
    var pathRoot := RootLength(path);
    var sameRoot := IsStringEqual(base, 0, baseRoot, path, 0, pathRoot);
    assert base[..baseRoot] == Root(base) && path[..pathRoot] == Root(path);
    if baseRoot != pathRoot || !sameRoot {
      TerminateOutput(buffer, 0, "");
      return 0;
    }
    var absolute := IsRootAbsolute(base, baseRoot);
    pos := GetRelativeSameRoot(base, path, absolute, buffer);
  }

  // ----- intersections -----

  /** The end, in p, of the last of the first c segments p keeps; of its root when c is 0. */
  ghost function KeptEnd(p: CStr, c: nat): nat
    requires c <= |KeptAt(Segs(p), |Segs(p)|, Absolute(p))|
  {
    if c == 0 then |Root(p)| else Spans(p, 0)[KeptAt(Segs(p), |Segs(p)|, Absolute(p))[c - 1]].end
  }

  lemma KeptAtIs(p: CStr)
    ensures |KeptAt(Segs(p), |Segs(p)|, Absolute(p))| == |Stack(p)|
  {
    CountersAreStack(Segs(p), Absolute(p));
    KeptPicks(Segs(p), |Segs(p)|, Absolute(p));
  }

  /** How far into base the segments go that it keeps in common with other. */
  ghost function Intersection(base: CStr, other: CStr): nat {
    KeptAtIs(base);
    if Root(base) != Root(other) then 0 else KeptEnd(base, Common(Stack(base), Stack(other)))
  }

  /** cwk_path_get_intersection. */
  method GetIntersection(base: CStr, other: CStr) returns (n: nat)
    ensures n == Intersection(base, other)
  {
    hide Cursor.On, Cursor.Pos, Cursor.Idle, Kept, Removed, Diverged, Spans, KeptEnd, Common;
    var baseRoot := RootLength(base);
    var otherRoot := RootLength(other);
    var sameRoot := IsStringEqual(base, 0, baseRoot, other, 0, otherRoot);
    assert base[..baseRoot] == Root(base) && other[..otherRoot] == Root(other);
    if !sameRoot {
      return 0;
    }
    OneSegs(base);
    OneSegs(other);
    NoneInCommon(base, other);
    var bsj := new Cursor([base]);
    var osj := new Cursor([other]);
    var found := bsj.FirstJoined();
    if !found {
      return baseRoot;
    }
    found := osj.FirstJoined();
    if !found {
      return baseRoot;
    }
    var absolute := IsRootAbsolute(base, baseRoot);
    n := IntersectionEnd(bsj, osj, absolute, base, other, baseRoot);
  }

  lemma NoneInCommon(base: CStr, other: CStr)
    ensures |Stack(base)| == |KeptAt(Segs(base), |Segs(base)|, Absolute(base))| && KeptEnd(base, 0) == |Root(base)|
    ensures Segs(base) == [] || Segs(other) == [] ==> Common(Stack(base), Stack(other)) == 0
  {
    KeptAtIs(base);
  }

  /** The loop of cwk_path_get_intersection. */
  method IntersectionEnd(bsj: Cursor, osj: Cursor, absolute: bool, base: CStr, other: CStr, baseRoot: nat)
    returns (end: nat)
    requires bsj != osj && bsj.paths == [base] && osj.paths == [other] && bsj.On() && osj.On()
    requires bsj.Pos() == 0 == osj.Pos()
    requires Root(base) == Root(other) && baseRoot == |Root(base)| && absolute == Absolute(base)
    modifies bsj, osj
    ensures end == Intersection(base, other)
  {
    hide Cursor.On, Cursor.Pos, Cursor.Idle, Kept, KeptAll, Removed, Diverged, Spans, KeptEnd, Common, Stack;
    hide Segs, AllSegsOf;
    OneSegs(base);
    OneSegs(other);
    ghost var bts, ots, c := Segs(base), Segs(other), 0;
    NothingKept(bts, ots, absolute);
    NoneInCommon(base, other);
    end := baseRoot;
    while true
      invariant bsj.On() && osj.On()
      invariant Kept(bts, bsj.Pos(), absolute) == Kept(ots, osj.Pos(), absolute)
      invariant c == |Kept(bts, bsj.Pos(), absolute)| && c <= |Stack(base)| && end == KeptEnd(base, c)
      decreases |bts| - bsj.Pos()
    {
      var more := bsj.SkipInvisible(absolute);
      if more {
        more := osj.SkipInvisible(absolute);
      }
      ghost var b, o := bsj.Pos(), osj.Pos();
      if !more {
        DivergedAt(bts, b, ots, o, absolute);
        DivergedStacks(base, other, b, o);
        return;
      }
      var same := SameSegment(bsj, osj);
      if !same {
        DivergedAt(bts, b, ots, o, absolute);
        DivergedStacks(base, other, b, o);
        return;
      }
      end := bsj.end;
      EndOfSegment(bsj, base);
      KeptEndStep(base, b);
      SameStep(bts, b, ots, o, absolute);
      c := c + 1;
      more := bsj.NextJoined();
      if more {
        more := osj.NextJoined();
      }
      if !more {
        DivergedAt(bts, b + 1, ots, o + 1, absolute);
        DivergedStacks(base, other, b + 1, o + 1);
        return;
      }
    }
  }

  lemma EndOfSegment(c: Cursor, p: CStr)
    requires c.On() && c.paths == [p]
    ensures c.Pos() < |Spans(p, 0)| && c.end == Spans(p, 0)[c.Pos()].end
  {
    OneSegs(p);
  }

  /** Keeping segment k moves the end to its end. */
  lemma KeptEndStep(p: CStr, k: nat)
    requires k < |Segs(p)| && !Removed(Segs(p), k, Absolute(p))
    ensures |Kept(Segs(p), k, Absolute(p))| < |Stack(p)| == |KeptAt(Segs(p), |Segs(p)|, Absolute(p))|
    ensures KeptEnd(p, |Kept(Segs(p), k, Absolute(p))| + 1) == Spans(p, 0)[k].end
    ensures |Kept(Segs(p), k + 1, Absolute(p))| == |Kept(Segs(p), k, Absolute(p))| + 1
  {
    var ts, absolute := Segs(p), Absolute(p);
    KeptAtIs(p);
    KeptAtNext(ts, k, absolute);
    hide Segs, Kept, KeptAt, Stack, Spans, Removed;
  }

  /** A kept segment is at its place among the positions of all kept ones. */
  lemma KeptAtNext(ts: seq<string>, k: nat, absolute: bool)
    requires k < |ts| && !Removed(ts, k, absolute)
    ensures var c, ks := |Kept(ts, k, absolute)|, KeptAt(ts, |ts|, absolute);
            c < |ks| && ks[c] == k && |Kept(ts, k + 1, absolute)| == c + 1
  {
    KeptPicks(ts, k, absolute);
    KeptPrefix(ts, k + 1, |ts|, absolute);
    assert KeptAt(ts, k + 1, absolute)[|KeptAt(ts, k, absolute)|] == k;
  }
}
