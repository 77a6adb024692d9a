/** linux/path.c: from a path in the sandbox to a path on the host. */
module HostPaths {
  import opened Wrappers
  import opened Increase
  import opened PathText
  import opened PathResolution
  import opened PathLaws
  import opened PathBuilding
  import opened PathComparison

  // ----- directory maps -----

  /** The index of the first `=`, or the length. */
  ghost function EqAt(m: CStr): (i: nat)
    ensures i <= |m| && (i < |m| ==> m[i] == '=')
    ensures forall k :: 0 <= k < i ==> m[k] != '='
  {
    if m == "" || m[0] == '=' then 0 else EqAt(m[1..]) + 1
  }

  ghost predicate IsMap(m: CStr) { EqAt(m) < |m| }

  /** The sandbox directory of a map, as far as box_dir can hold it. */
  ghost function BoxDir(m: CStr): CStr { m[..Min(EqAt(m), FILENAME_MAX - 1)] }

  ghost function HostDir(m: CStr): CStr
    requires IsMap(m)
  {
    m[EqAt(m) + 1..]
  }

  /** A map is the sandbox directory, an equals sign, and the host directory, when box_dir holds the first. */
  lemma MapParts(m: CStr)
    requires IsMap(m) && EqAt(m) < FILENAME_MAX
    ensures BoxDir(m) + "=" + HostDir(m) == m && '=' !in BoxDir(m)
  {
  }

  ghost function Score(p: CStr, m: CStr): nat { if IsMap(m) then Intersection(p, BoxDir(m)) else 0 }

  /** The first of the best maps, if any is better than nothing. */
  ghost predicate Chosen(p: CStr, maps: seq<CStr>, i: nat) {
    && i < |maps| && Score(p, maps[i]) > 0
    && (forall j :: 0 <= j < |maps| ==> Score(p, maps[j]) <= Score(p, maps[i]))
    && (forall j :: 0 <= j < i ==> Score(p, maps[j]) < Score(p, maps[i]))
  }

  /** strchr(m, '='), with the length for NULL. */
  method StrChrEq(m: CStr) returns (i: nat)
    ensures i == EqAt(m)
  {
    i := 0;
    while CharAt(m, i) != '\0' && CharAt(m, i) != '='
      invariant i <= |m| && EqAt(m) == i + EqAt(m[i..])
      decreases |m| - i
    {
      assert m[i..][1..] == m[i + 1..];
      i := i + 1;
    }
  }

  /** The C string a filled buffer holds. */
  method ReadBack(buffer: array<char>, ghost t: CStr) returns (s: CStr)
    requires buffer.Length > 0 && Filled(buffer[..], t)
    ensures s == Cut(t, buffer.Length)
  {
    ghost var n := Min(|t|, buffer.Length - 1);
    assert forall k :: 0 <= k < n ==> buffer[..][..n][k] == buffer[k];
    var i := 0;
    while buffer[i] != '\0'
      invariant i <= n && forall k :: 0 <= k < i ==> buffer[k] != '\0'
      decreases n - i
    {
      i := i + 1;
    }
    s := buffer[..i];
    assert buffer[..i] == buffer[..][..n];
  }

  /** The path that is looked up: made absolute with the working directory and normalised, each cut
      to what its buffer holds. */
  ghost function Joined(cwd: CStr, path: CStr): CStr {
    if Absolute(path) then path else Cut(Normalized([cwd, path]), FILENAME_MAX)
  }

  ghost function Requested(cwd: CStr, path: CStr): CStr { Cut(Normalized([Joined(cwd, path)]), FILENAME_MAX) }

  /** Neither buffer cuts the path that is looked up. */
  ghost predicate Untruncated(cwd: CStr, path: CStr) {
    if Absolute(path) then |Normalized([path])| < FILENAME_MAX else |Normalized([cwd, path])| < FILENAME_MAX
  }

  lemma CutWhole(t: string)
    requires |t| < FILENAME_MAX
    ensures Cut(t, FILENAME_MAX) == t
  {
  }

  /** An absolute path is looked up as it is, whatever the working directory; a relative one from there. */
  lemma RequestedFrom(cwd: CStr, path: CStr)
    requires Untruncated(cwd, path) && (Absolute(cwd) || Absolute(path))
    ensures Absolute(Requested(cwd, path))
    ensures Absolute(path) ==> Stack(Requested(cwd, path)) == Stack(path)
    ensures !Absolute(path) ==> Stack(Requested(cwd, path)) == Resolve(Stack(cwd), Segs(path), true)
    ensures Segs(Requested(cwd, path)) == Stack(Requested(cwd, path))
  {
    if Absolute(path) {
      CutWhole(Normalized([path]));
      NormalizedKeepsAll(path);
    } else {
      var n := Normalized([cwd, path]);
      NormalizedRoot([cwd, path]);
      StackOfNormalized([cwd, path]);
      TwoSegs(cwd, path);
      ResolveConcat([], Segs(cwd), Segs(path), true);
      NormalizeTwice([cwd, path]);
      CutWhole(n);
      assert Requested(cwd, path) == n;
      NormalizedKeepsAll(n);
    }
  }

  method Request(cwd: CStr, path: CStr) returns (p: CStr)
    ensures p == Requested(cwd, path)
    ensures Absolute(path) && Untruncated(cwd, path) ==> Absolute(p) && Stack(p) == Stack(path)
    ensures Absolute(cwd) && !Absolute(path) && Untruncated(cwd, path) ==>
              Absolute(p) && Stack(p) == Resolve(Stack(cwd), Segs(path), true)
  {
    if (Absolute(cwd) || Absolute(path)) && Untruncated(cwd, path) {
      RequestedFrom(cwd, path);
    }
    hide Stack, Resolve, Segs;
    var abs := path;
    var root := RootLength(path);
    var absolute := IsRootAbsolute(path, root);
    if !absolute {
      var absPath := new char[FILENAME_MAX];
      var n := JoinAndNormalizeMultiple([cwd, path], absPath);
      abs := ReadBack(absPath, Normalized([cwd, path]));
    }
    var normalized := new char[FILENAME_MAX];
    var n := JoinAndNormalizeMultiple([abs], normalized);
    p := ReadBack(normalized, Normalized([abs]));
  }

  /** The loop over the directory maps: the match length and the map it came from. */
  method BestMap(p: CStr, maps: seq<CStr>) returns (hostDir: Option<CStr>, commonMatch: nat, ghost chosen: nat)
    ensures hostDir.Some? ==> Chosen(p, maps, chosen) && IsMap(maps[chosen])
    ensures hostDir.Some? ==> hostDir == Some(HostDir(maps[chosen])) && commonMatch == Score(p, maps[chosen])
    ensures hostDir.None? ==> forall i: nat :: !Chosen(p, maps, i)
  {
    hide Intersection, Absolute, EqAt, Cut;
    hostDir, commonMatch, chosen := None, 0, 0;
    for k := 0 to |maps|
      invariant forall j :: 0 <= j < k ==> Score(p, maps[j]) <= commonMatch
      invariant hostDir.None? ==> commonMatch == 0
      invariant hostDir.Some? ==> chosen < k && IsMap(maps[chosen]) && hostDir == Some(HostDir(maps[chosen]))
      invariant hostDir.Some? ==> 0 < commonMatch == Score(p, maps[chosen])
      invariant hostDir.Some? ==> forall j :: 0 <= j < chosen ==> Score(p, maps[j]) < commonMatch
    {
      var m := maps[k];
      var eq := StrChrEq(m);
      if eq < |m| {
        var boxDir: CStr := m[..if eq < FILENAME_MAX - 1 then eq else FILENAME_MAX - 1];
        var common := GetIntersection(p, boxDir);
        if common > commonMatch {
          hostDir, commonMatch, chosen := Some(m[eq + 1..]), common, k;
        }
      }
    }
  }

  /** The host directory of a map followed by the part of the path its directory does not match. */
  ghost function HostPath(p: CStr, m: CStr): CStr
    requires IsMap(m)
  {
    ScoreBound(p, m);
    var rest: CStr := p[Score(p, m)..];
    Normalized([HostDir(m), rest])
  }

  lemma ChosenUnique(p: CStr, maps: seq<CStr>, i: nat, j: nat)
    requires Chosen(p, maps, i) && Chosen(p, maps, j)
    ensures i == j
  {
    assert Score(p, maps[i]) == Score(p, maps[j]);
  }

  /** What path_resolve leaves in the buffer when it succeeds. */
  ghost predicate Resolved(p: CStr, maps: seq<CStr>, i: nat, buffer: seq<char>) {
    && Chosen(p, maps, i)
    && Score(p, maps[i]) < |buffer|
    && IsMap(maps[i])
    && Filled(buffer, HostPath(p, maps[i]))
  }

  /** path_resolve. */
  method PathResolve(cwd: CStr, dirMaps: Option<seq<CStr>>, path: CStr, buffer: array<char>)
    returns (ok: bool, ghost chosen: nat)
    modifies buffer
    ensures ok ==> dirMaps.Some? && Resolved(Requested(cwd, path), dirMaps.value, chosen, buffer[..])
    ensures !ok ==> buffer[..] == old(buffer[..])
    ensures !ok && dirMaps.Some? ==>
              forall i: nat :: Chosen(Requested(cwd, path), dirMaps.value, i) ==>
                i < |dirMaps.value| && buffer.Length <= Score(Requested(cwd, path), dirMaps.value[i])
  {
    hide Requested, Score, Filled, Normalized;
    var p := Request(cwd, path);
    chosen := 0;
    if dirMaps.None? {
      return false, 0;
    }
    var hostDir, commonMatch;
    hostDir, commonMatch, chosen := BestMap(p, dirMaps.value);
    if hostDir.None? {
      return false, 0;
    }
    if commonMatch >= buffer.Length {
      forall i: nat | Chosen(p, dirMaps.value, i) ensures i == chosen {
        ChosenUnique(p, dirMaps.value, i, chosen);
      }
      return false, 0;
    }
    ScoreBound(p, dirMaps.value[chosen]);
    var rest: CStr := p[commonMatch..];
    var n := JoinAndNormalizeMultiple([hostDir.value, rest], buffer);
    ok := true;
  }

  // ----- what the match length stands for -----

  /** Kept segments end further and further into the path. */
  lemma KeptEndIncreases(p: CStr, c: nat, d: nat)
    requires c < d <= |Stack(p)|
    ensures d <= |KeptAt(Segs(p), |Segs(p)|, Absolute(p))|
    ensures |Root(p)| <= KeptEnd(p, c) < KeptEnd(p, d) <= |p|
  {
    KeptAtIs(p);
    KeptAtMembers(Segs(p), |Segs(p)|, Absolute(p));
    var ks := KeptAt(Segs(p), |Segs(p)|, Absolute(p));
    if c == 0 {
      EndPastRoot(p, ks[d - 1]);
    } else {
      EndPastRoot(p, ks[c - 1]);
      EndsIncrease(p, ks[c - 1], ks[d - 1]);
    }
  }

  lemma EndPastRoot(p: CStr, k: nat)
    requires k < |Spans(p, 0)|
    ensures |Root(p)| < Spans(p, 0)[k].end <= |p|
  {
    SpanBounds(p, 0);
    SpanGap(p, 0, k);
  }

  lemma {:induction false} EndsIncrease(p: CStr, k: nat, n: nat)
    requires k < n < |Spans(p, 0)|
    ensures Spans(p, 0)[k].end < Spans(p, 0)[n].end <= |p|
    decreases n
  {
    SpanGap(p, 0, n);
    if k < n - 1 {
      EndsIncrease(p, k, n - 1);
    }
  }

  lemma ScoreBound(p: CStr, m: CStr)
    ensures Score(p, m) <= |p|
  {
    KeptAtIs(p);
    var c := Common(Stack(p), Stack(BoxDir(m)));
    if c > 0 {
      KeptEndIncreases(p, 0, c);
    }
  }

  /** How many segments of an absolute path the directory of a map shares; -1 when it shares not even the root. */
  ghost function Shared(p: CStr, m: CStr): int {
    if IsMap(m) && Absolute(BoxDir(m)) then Common(Stack(p), Stack(BoxDir(m))) else -1
  }

  lemma ScoreOrder(p: CStr, m: CStr, n: CStr)
    requires Absolute(p)
    ensures Score(p, m) < Score(p, n) <==> Shared(p, m) < Shared(p, n)
    ensures Score(p, m) > 0 <==> Shared(p, m) >= 0
  {
    KeptAtIs(p);
    var c, d := Shared(p, m), Shared(p, n);
    if 0 < c {
      KeptEndIncreases(p, 0, c);
    }
    if 0 < d {
      KeptEndIncreases(p, 0, d);
    }
    if 0 <= c < d {
      KeptEndIncreases(p, c, d);
    }
    if 0 <= d < c {
      KeptEndIncreases(p, d, c);
    }
  }

  /** For an absolute path the chosen map is the first whose directory shares the most segments with it. */
  lemma ChosenIsLongest(p: CStr, maps: seq<CStr>, i: nat)
    requires Absolute(p)
    ensures Chosen(p, maps, i) <==>
            && i < |maps| && Shared(p, maps[i]) >= 0
            && (forall j :: 0 <= j < |maps| ==> Shared(p, maps[j]) <= Shared(p, maps[i]))
            && (forall j :: 0 <= j < i ==> Shared(p, maps[j]) < Shared(p, maps[i]))
  {
    hide Score, Shared;
    if i < |maps| {
      forall j | 0 <= j < |maps|
        ensures Score(p, maps[i]) < Score(p, maps[j]) <==> Shared(p, maps[i]) < Shared(p, maps[j])
        ensures Score(p, maps[j]) < Score(p, maps[i]) <==> Shared(p, maps[j]) < Shared(p, maps[i])
      {
        ScoreOrder(p, maps[i], maps[j]);
        ScoreOrder(p, maps[j], maps[i]);
      }
      ScoreOrder(p, maps[i], maps[i]);
    }
  }

  // ----- what the result leads to -----

  /** An increasing list of n numbers below n is 0, 1, ... */
  lemma {:induction false} IncreasingBounds(ks: seq<nat>, n: nat, j: nat)
    requires Increasing(ks) && j < |ks| <= n && forall i :: 0 <= i < |ks| ==> ks[i] < n
    ensures j <= ks[j]
    ensures ks[j] + (|ks| - 1 - j) < n
  {
    LowerBound(ks, j);
    UpperBound(ks, n, j);
  }

  lemma {:induction false} LowerBound(ks: seq<nat>, j: nat)
    requires Increasing(ks) && j < |ks|
    ensures j <= ks[j]
  {
    if j > 0 {
      LowerBound(ks, j - 1);
    }
  }

  lemma {:induction false} UpperBound(ks: seq<nat>, n: nat, j: nat)
    requires Increasing(ks) && j < |ks| && forall i :: 0 <= i < |ks| ==> ks[i] < n
    ensures ks[j] + (|ks| - 1 - j) < n
    decreases |ks| - j
  {
    if j + 1 < |ks| {
      UpperBound(ks, n, j + 1);
    }
  }

  /** A normalised absolute path keeps all its segments. */
  lemma NormalizedKeepsAll(q: CStr)
    requires Absolute(q)
    ensures var p := Normalized([q]); Absolute(p) && Segs(p) == Stack(p) == Stack(q) && Clean(Segs(p), true)
  {
    NormalizedOne(q);
    StackClean(q);
    PathLaws.ReadBack("/", Stack(q), true);
    ResolveAppends([], Stack(q), true);
    assert [] + Stack(q) == Stack(q);
  }

  /** What follows the first c segments of a path that keeps all its segments. */
  lemma SuffixSegs(p: CStr, c: nat)
    requires Absolute(p) && Segs(p) == Stack(p) && c <= |Stack(p)|
    ensures c <= |KeptAt(Segs(p), |Segs(p)|, Absolute(p))| && KeptEnd(p, c) <= |p|
    ensures Segs(p[KeptEnd(p, c)..]) == Segs(p)[c..]
  {
    var ks := KeptAt(Segs(p), |Segs(p)|, Absolute(p));
    KeptAtIs(p);
    KeptAtMembers(Segs(p), |Segs(p)|, Absolute(p));
    if c == 0 {
      SkipSeps(p, 0, 1);
      SegsFrom(p, 1, 0);
    } else {
      IncreasingBounds(ks, |Segs(p)|, c - 1);
      assert ks[c - 1] == c - 1;
      SpanTail(p, 0, c - 1);
      SegsFrom(p, Spans(p, 0)[c - 1].end, c);
    }
  }

  lemma SegsFrom(p: CStr, e: nat, c: nat)
    requires e <= |p| && c <= |Spans(p, 0)| && Spans(p, 0)[c..] == Spans(p, e)
    ensures Segs(p[e..]) == Segs(p)[c..]
  {
    var head: CStr, tail: CStr := p[..e], p[e..];
    assert head + tail == p;
    SpansShift(head, tail, 0);
    SpanBounds(tail, 0);
    SpanBounds(p, 0);
    forall k | 0 <= k < |Segs(tail)| ensures Segs(tail)[k] == Segs(p)[c + k] {
      assert Spans(p, 0)[c..][k] == Spans(p, 0)[c + k];
    }
  }

  /** Whatever a request says, the result stays inside the host directory of its map: it leads from
      there through the segments of the normalised request the map does not cover. */
  lemma StaysInside(q: CStr, m: CStr)
    requires Absolute(q) && Shared(Normalized([q]), m) >= 0
    ensures var c := Shared(Normalized([q]), m);
            && IsMap(m) && c <= |Stack(q)|
            && Stack(HostPath(Normalized([q]), m)) == Stack(HostDir(m)) + Stack(q)[c..]
            && forall j :: c <= j < |Stack(q)| ==> KindOf(Stack(q)[j]) == Normal
  {
    var p := Normalized([q]);
    NormalizedKeepsAll(q);
    StackClean(q);
    hide Normalized, Stack, Segs, Score, Shared, HostPath, KindOf, AllSegs;
    RestSegs(p, m);
    HostPathLeads(p, m);
  }

  /** What is left of a path that keeps all its segments, past the match. */
  lemma RestSegs(p: CStr, m: CStr)
    requires Absolute(p) && Segs(p) == Stack(p) && Shared(p, m) >= 0
    ensures IsMap(m) && Shared(p, m) <= |Stack(p)| && Score(p, m) <= |p|
    ensures Segs(p[Score(p, m)..]) == Segs(p)[Shared(p, m)..]
  {
    ScoreBound(p, m);
    hide KeptEnd, Common, Stack, Segs;
    SuffixSegs(p, Shared(p, m));
  }

  lemma HostPathLeads(p: CStr, m: CStr)
    requires IsMap(m) && Score(p, m) <= |p| && Clean(Segs(p), true) && 0 <= Shared(p, m) <= |Segs(p)|
    requires Segs(p[Score(p, m)..]) == Segs(p)[Shared(p, m)..]
    ensures Stack(HostPath(p, m)) == Stack(HostDir(m)) + Segs(p)[Shared(p, m)..]
    ensures forall j :: Shared(p, m) <= j < |Segs(p)| ==> KindOf(Segs(p)[j]) == Normal
  {
    hide Normalized, Stack, Segs, Score, Shared, KindOf;
    HostStack(HostDir(m), p[Score(p, m)..], Segs(p)[Shared(p, m)..]);
  }

  /** The segments a request leads through: those of an absolute path; a relative one goes on from the
      working directory. */
  ghost function Looked(cwd: CStr, path: CStr): seq<string> {
    if Absolute(path) then Stack(path) else Resolve(Stack(cwd), Segs(path), true)
  }

  /** A successful path_resolve, when no buffer truncates and the working directory or the path is
      absolute: the map is the first that shares the most segments with the request, and the text in the
      buffer leads to its host directory and on through the unmatched segments. */
  lemma ResolvedPath(cwd: CStr, path: CStr, maps: seq<CStr>, i: nat, buffer: seq<char>)
    requires (Absolute(cwd) || Absolute(path)) && Untruncated(cwd, path)
    requires Resolved(Requested(cwd, path), maps, i, buffer)
    requires |HostPath(Requested(cwd, path), maps[i])| < |buffer|
    ensures var p, h := Requested(cwd, path), HostPath(Requested(cwd, path), maps[i]);
            var c := Shared(p, maps[i]);
            && 0 <= c <= |Looked(cwd, path)| && Stack(p) == Looked(cwd, path)
            && (forall j :: 0 <= j < |maps| ==> Shared(p, maps[j]) <= c)
            && (forall j :: 0 <= j < i ==> Shared(p, maps[j]) < c)
            && buffer[..|h|] == h && buffer[|h|] == '\0'
            && Stack(h) == Stack(HostDir(maps[i])) + Looked(cwd, path)[c..]
  {
    var p := Requested(cwd, path);
    RequestedFrom(cwd, path);
    RequestedTwice(cwd, path);
    hide Requested, Normalized, Score, Shared, Stack, HostPath, Chosen, Resolve, Segs;
    ChosenIsLongest(p, maps, i);
    StaysInside(p, maps[i]);
  }

  /** What is looked up is normal already. */
  lemma RequestedTwice(cwd: CStr, path: CStr)
    requires Untruncated(cwd, path)
    ensures Normalized([Requested(cwd, path)]) == Requested(cwd, path)
  {
    CutWhole(Normalized(if Absolute(path) then [path] else [cwd, path]));
    NormalizeTwice([path]);
    NormalizeTwice([cwd, path]);
  }

  lemma HostStack(host: CStr, rest: CStr, ts: seq<string>)
    requires Segs(rest) == ts && AllSegs(ts) && forall j :: 0 <= j < |ts| ==> KindOf(ts[j]) == Normal
    ensures Stack(Normalized([host, rest])) == Stack(host) + ts
  {
    TwoSegs(host, rest);
    ResolveConcat([], Segs(host), ts, Absolute(host));
    StackClean(host);
    ResolveAppends(Stack(host), ts, Absolute(host));
    StackOfNormalized([host, rest]);
  }

  /** Normalising a path does not change where it leads. */
  lemma StackOfNormalized(paths: seq<CStr>)
    requires paths != []
    ensures Stack(Normalized(paths)) == Resolve([], AllSegsOf(paths), Absolute(paths[0]))
  {
    var ts, absolute := AllSegsOf(paths), Absolute(paths[0]);
    var r := Resolve([], ts, absolute);
    AllSegsClean(paths);
    ResolveClean([], ts, absolute);
    if r == [] && ts != [] && !absolute {
      DotReads();
      assert Root(paths[0]) + "." == ".";
    } else {
      PathLaws.ReadBack(Root(paths[0]), r, absolute);
      assert [] + r == r;
      ResolveAppends([], r, absolute);
    }
  }
}
