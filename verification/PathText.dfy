/** What the text of a UNIX path means: its segments, as spans of characters between separators, and
    the C strings and bounded buffers linux/cwalk.c works on. */
module PathText {

  /** The characters of a C string before its terminator. */
  type CStr = s: string | forall i :: 0 <= i < |s| ==> s[i] != '\0' witness ""

  /** The character a C pointer sees at index i, the terminator included. */
  function CharAt(s: CStr, i: nat): char
    requires i <= |s|
  {
    if i < |s| then s[i] else '\0'
  }

  predicate IsSep(c: char) { c == '/' }

  datatype Span = Span(begin: nat, end: nat)

  /** The first separator, or the end, at or after i. */
  ghost function NextStop(s: CStr, i: nat): (j: nat)
    requires i <= |s|
    ensures i <= j <= |s| && (j < |s| ==> IsSep(s[j]))
    ensures forall k :: i <= k < j ==> !IsSep(s[k])
    decreases |s| - i
  {
    if i == |s| || IsSep(s[i]) then i else NextStop(s, i + 1)
  }

  /** The maximal stretches without separators from i on, where i is not inside one. */
  ghost function Spans(s: CStr, i: nat): seq<Span>
    requires i <= |s|
    decreases |s| - i
  {
    if i == |s| then []
    else if IsSep(s[i]) then Spans(s, i + 1)
    else [Span(i, NextStop(s, i))] + Spans(s, NextStop(s, i))
  }

  ghost function Texts(s: CStr, sp: seq<Span>): seq<string>
    requires forall i :: 0 <= i < |sp| ==> sp[i].begin <= sp[i].end <= |s|
  {
    seq(|sp|, i requires 0 <= i < |sp| => s[sp[i].begin..sp[i].end])
  }

  /** The segments of a path. */
  ghost function Segs(s: CStr): seq<string> {
    SpanBounds(s, 0);
    Texts(s, Spans(s, 0))
  }

  lemma {:induction false} SpanBounds(s: CStr, i: nat)
    requires i <= |s|
    ensures forall k :: 0 <= k < |Spans(s, i)| ==> i <= Spans(s, i)[k].begin < Spans(s, i)[k].end <= |s|
    decreases |s| - i
  {
    if i < |s| {
      SpanBounds(s, if IsSep(s[i]) then i + 1 else NextStop(s, i));
    }
  }

  /** Skipping separators changes nothing. */
  lemma {:induction false} SkipSeps(s: CStr, i: nat, j: nat)
    requires i <= j <= |s| && forall k :: i <= k < j ==> IsSep(s[k])
    ensures Spans(s, i) == Spans(s, j)
    decreases j - i
  {
    if i < j {
      SkipSeps(s, i + 1, j);
    }
  }

  /** What follows span k is what the scan finds from its end. */
  lemma {:induction false} SpanTail(s: CStr, i: nat, k: nat)
    requires i <= |s| && k < |Spans(s, i)|
    ensures Spans(s, i)[k].begin < Spans(s, i)[k].end <= |s|
    ensures Spans(s, i)[k + 1..] == Spans(s, Spans(s, i)[k].end)
    ensures Spans(s, i)[k].end == NextStop(s, Spans(s, i)[k].begin)
    decreases |s| - i
  {
    SpanBounds(s, i);
    if IsSep(s[i]) {
      SpanTail(s, i + 1, k);
    } else if k > 0 {
      SpanTail(s, NextStop(s, i), k - 1);
    }
  }

  /** Around span k: separators on both sides, up to its neighbours or the ends of the string. */
  lemma {:induction false} SpanGap(s: CStr, i: nat, k: nat)
    requires i <= |s| && k < |Spans(s, i)|
    ensures Spans(s, i)[k].begin < Spans(s, i)[k].end <= |s|
    ensures forall c :: Spans(s, i)[k].begin <= c < Spans(s, i)[k].end ==> !IsSep(s[c])
    ensures var lo := if k == 0 then i else Spans(s, i)[k - 1].end;
            i <= lo <= Spans(s, i)[k].begin && forall c :: lo <= c < Spans(s, i)[k].begin ==> IsSep(s[c])
    decreases |s| - i
  {
    SpanBounds(s, i);
    if IsSep(s[i]) {
      SpanGap(s, i + 1, k);
    } else if k > 0 {
      SpanGap(s, NextStop(s, i), k - 1);
    }
  }

  /** The last span is followed by separators only. */
  lemma SpansEmpty(s: CStr, i: nat)
    requires i <= |s|
    ensures Spans(s, i) == [] <==> forall c :: i <= c < |s| ==> IsSep(s[c])
    decreases |s| - i
  {
    if i < |s| && IsSep(s[i]) {
      SpansEmpty(s, i + 1);
    }
  }

  // ----- segments and texts -----

  /** A string that can be a segment. */
  ghost predicate IsSeg(t: string) { t != "" && forall i :: 0 <= i < |t| ==> !IsSep(t[i]) && t[i] != '\0' }

  ghost predicate AllSegs(ts: seq<string>) { forall i :: 0 <= i < |ts| ==> IsSeg(ts[i]) }

  lemma SegsAreSegs(s: CStr)
    ensures AllSegs(Segs(s))
  {
    SpanBounds(s, 0);
    forall k | 0 <= k < |Segs(s)| ensures IsSeg(Segs(s)[k]) {
      SpanGap(s, 0, k);
    }
  }

  /** Segments joined with single separators. */
  ghost function Join(ts: seq<string>): string {
    if |ts| == 0 then "" else if |ts| == 1 then ts[0] else ts[0] + "/" + Join(ts[1..])
  }

  lemma {:induction false} JoinCStr(ts: seq<string>)
    requires AllSegs(ts)
    ensures forall i :: 0 <= i < |Join(ts)| ==> Join(ts)[i] != '\0'
    ensures ts != [] ==> Join(ts) != "" && !IsSep(Join(ts)[0])
  {
    if |ts| > 1 {
      JoinCStr(ts[1..]);
    }
  }

  lemma {:induction false} JoinAppend(ts: seq<string>, t: string)
    ensures Join(ts + [t]) == if ts == [] then t else Join(ts) + "/" + t
  {
    if ts == [] {
      assert ts + [t] == [t];
    } else {
      assert (ts + [t])[1..] == ts[1..] + [t];
      JoinAppend(ts[1..], t);
    }
  }

  /** Spans do not depend on what precedes the scan. */
  lemma {:induction false} SpansShift(p: CStr, s: CStr, i: nat)
    requires i <= |s|
    ensures |Spans(p + s, |p| + i)| == |Spans(s, i)|
    ensures forall k :: 0 <= k < |Spans(s, i)| ==>
                          Spans(p + s, |p| + i)[k] == Span(|p| + Spans(s, i)[k].begin, |p| + Spans(s, i)[k].end)
    decreases |s| - i
  {
    if i < |s| {
      assert (p + s)[|p| + i] == s[i];
      if IsSep(s[i]) {
        SpansShift(p, s, i + 1);
      } else {
        StopShift(p, s, i);
        SpansShift(p, s, NextStop(s, i));
      }
    }
  }

  lemma {:induction false} StopShift(p: CStr, s: CStr, i: nat)
    requires i <= |s|
    ensures NextStop(p + s, |p| + i) == |p| + NextStop(s, i)
    decreases |s| - i
  {
    if i < |s| && !IsSep(s[i]) {
      StopShift(p, s, i + 1);
    }
  }

  lemma TextsShift(p: CStr, s: CStr)
    requires Spans(p + s, 0) == Spans(p + s, |p|)
    ensures Segs(p + s) == Segs(s)
  {
    SpansShift(p, s, 0);
    SpanBounds(s, 0);
    SpanBounds(p + s, 0);
    forall k | 0 <= k < |Segs(s)| ensures Segs(p + s)[k] == Segs(s)[k] {}
  }

  /** Leading separators do not matter. */
  lemma SegsSkipRoot(s: CStr)
    ensures Segs("/" + s) == Segs(s)
  {
    var r: CStr := "/" + s;
    SkipSeps(r, 0, 1);
    TextsShift("/", s);
  }

  /** A segment followed by a separator is the first segment of the whole. */
  lemma SegsCons(t: CStr, s: CStr)
    requires IsSeg(t) && (s == "" || IsSep(s[0]))
    ensures Segs(t + s) == [t] + Segs(s)
  {
    var r: CStr := t + s;
    StopAt(r, 0, |t|);
    SpansShift(t, s, 0);
    SpanBounds(s, 0);
    SpanBounds(r, 0);
    assert Spans(r, 0) == [Span(0, |t|)] + Spans(r, |t|);
    forall k | 0 <= k < |Segs(s)| ensures Segs(r)[k + 1] == Segs(s)[k] {}
  }

  lemma {:induction false} StopAt(s: CStr, i: nat, j: nat)
    requires i <= j <= |s| && (j == |s| || IsSep(s[j]))
    requires forall k :: i <= k < j ==> !IsSep(s[k])
    ensures NextStop(s, i) == j
    decreases j - i
  {
    if i < j {
      StopAt(s, i + 1, j);
    }
  }

  /** Splitting undoes joining. */
  lemma {:induction false} SegsOfJoin(ts: seq<string>)
    requires AllSegs(ts)
    ensures (forall i :: 0 <= i < |Join(ts)| ==> Join(ts)[i] != '\0') && Segs(Join(ts)) == ts
  {
    JoinCStr(ts);
    if |ts| == 1 {
      SegsCons(ts[0], "");
      assert ts[0] + "" == ts[0];
    } else if |ts| > 1 {
      SegsOfJoin(ts[1..]);
      var rest: CStr := Join(ts[1..]);
      SegsCons(ts[0], "/" + rest);
      SegsSkipRoot(rest);
      assert ts[0] + ("/" + rest) == Join(ts);
    }
  }

  // ----- several paths read as one -----

  ghost function AllSegsOf(paths: seq<CStr>): seq<string> {
    if paths == [] then [] else Segs(paths[0]) + AllSegsOf(paths[1..])
  }

  /** How many segments come before path pi. */
  ghost function Offset(paths: seq<CStr>, pi: nat): nat
    requires pi <= |paths|
  {
    if pi == 0 then 0 else Offset(paths, pi - 1) + |Spans(paths[pi - 1], 0)|
  }

  lemma {:induction false} AllSegsSplit(paths: seq<CStr>, pi: nat)
    requires pi <= |paths|
    ensures AllSegsOf(paths) == AllSegsOf(paths[..pi]) + AllSegsOf(paths[pi..])
    ensures |AllSegsOf(paths[..pi])| == Offset(paths, pi)
  {
    if pi == 0 {
      assert paths[0..] == paths;
    } else {
      AllSegsSplit(paths, pi - 1);
      var tail := paths[pi - 1..];
      assert tail[0] == paths[pi - 1] && tail[1..] == paths[pi..];
      AllSegsAppend(paths[..pi - 1], paths[pi - 1]);
      assert paths[..pi] == paths[..pi - 1] + [paths[pi - 1]];
    }
  }

  lemma {:induction false} AllSegsAppend(paths: seq<CStr>, p: CStr)
    ensures AllSegsOf(paths + [p]) == AllSegsOf(paths) + Segs(p)
  {
    if paths == [] {
      assert paths + [p] == [p];
      assert [p][1..] == [];
    } else {
      assert (paths + [p])[1..] == paths[1..] + [p];
      AllSegsAppend(paths[1..], p);
    }
  }

  /** Where segment i of path pi stands in the whole. */
  lemma SegmentAt(paths: seq<CStr>, pi: nat, i: nat)
    requires pi < |paths| && i < |Spans(paths[pi], 0)|
    ensures Offset(paths, pi) + i < |AllSegsOf(paths)|
    ensures AllSegsOf(paths)[Offset(paths, pi) + i] == Segs(paths[pi])[i]
    ensures Spans(paths[pi], 0)[i].begin < Spans(paths[pi], 0)[i].end <= |paths[pi]|
    ensures Segs(paths[pi])[i] == paths[pi][Spans(paths[pi], 0)[i].begin..Spans(paths[pi], 0)[i].end]
  {
    AllSegsSplit(paths, pi);
    assert paths[pi..][0] == paths[pi];
    SpanBounds(paths[pi], 0);
  }

  lemma SegmentsEnd(paths: seq<CStr>)
    ensures Offset(paths, |paths|) == |AllSegsOf(paths)|
  {
    AllSegsSplit(paths, |paths|);
    assert paths[|paths|..] == [] && paths[..|paths|] == paths;
  }

  lemma OneSegs(p: CStr)
    ensures AllSegsOf([p]) == Segs(p)
  {
    assert [p][1..] == [];
  }

  lemma TwoSegs(p: CStr, q: CStr)
    ensures AllSegsOf([p, q]) == Segs(p) + Segs(q)
  {
    assert [p, q][1..] == [q];
    OneSegs(q);
  }
}
