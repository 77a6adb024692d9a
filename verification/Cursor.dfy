/** The segment iterator of linux/cwalk.c, which walks several strings as if they were one path. */
module Cursors {
  import opened PathText
  import opened PathResolution

  /** cwk_path_find_next_stop. */
  method FindNextStop(s: CStr, from: nat) returns (c: nat)
    requires from <= |s|
    ensures c == NextStop(s, from)
  {
    c := from;
    while CharAt(s, c) != '\0' && !IsSep(CharAt(s, c))
      invariant from <= c <= |s| && NextStop(s, c) == NextStop(s, from)
      decreases |s| - c
    {
      c := c + 1;
    }
  }

  /** cwk_path_find_previous_stop: the first character after the separator found going back from `from`. */
  method FindPreviousStop(s: CStr, begin: nat, from: nat) returns (c: nat)
    requires begin <= from < |s|
    ensures begin <= c <= from + 1
    ensures forall k :: c <= k <= from ==> !IsSep(s[k])
    ensures c == begin || IsSep(s[c - 1])
  {
    c := from;
    while c > begin && !IsSep(CharAt(s, c))
      invariant begin <= c <= from
      invariant forall k :: c < k <= from ==> !IsSep(s[k])
    {
      c := c - 1;
    }
    if IsSep(CharAt(s, c)) {
      c := c + 1;
    }
  }

  /** strncmp(s + i, lit, n) == 0, for n characters of a segment. */
  method StrnEqual(s: CStr, i: nat, n: nat, lit: CStr) returns (r: bool)
    requires i + n <= |s|
    ensures r <==> n <= |lit| && s[i..i + n] == lit[..n]
  {
    var k := 0;
    while k < n
      invariant k <= n && k <= |lit|
      invariant forall q :: 0 <= q < k ==> s[i + q] == lit[q]
    {
      if CharAt(s, i + k) != CharAt(lit, k) {
        assert n <= |lit| ==> s[i..i + n][k] != lit[..n][k];
        return false;
      }
      k := k + 1;
    }
    assert s[i..i + n] == lit[..n];
    r := true;
  }

  /** A span starts the string or follows a separator. */
  lemma SpanFollowsSep(s: CStr, k: nat)
    requires k < |Spans(s, 0)|
    ensures 0 < Spans(s, 0)[k].begin <= |s| ==> IsSep(s[Spans(s, 0)[k].begin - 1])
  {
    SpanGap(s, 0, k);
    if k > 0 {
      SpanTail(s, 0, k - 1);
    }
  }

  /** The span before span k ends ahead of it and its first and last characters are no separators. */
  lemma SpanEarlier(s: CStr, k: nat)
    requires 0 < k < |Spans(s, 0)|
    ensures var p := Spans(s, 0)[k - 1];
            p.begin < p.end <= Spans(s, 0)[k].begin <= |s| && !IsSep(s[p.begin]) && !IsSep(s[p.end - 1])
  {
    SpanGap(s, 0, k);
    SpanGap(s, 0, k - 1);
  }

  /** Going back from span k: the nearest stretch without separators is the span before it. */
  lemma SpanBefore(s: CStr, k: nat, root: nat, b: nat, c: nat)
    requires k < |Spans(s, 0)| && Spans(s, 0)[k].begin <= |s|
    requires root <= b <= c < Spans(s, 0)[k].begin && forall i :: 0 <= i < root ==> IsSep(s[i])
    requires forall i :: c < i < Spans(s, 0)[k].begin ==> IsSep(s[i])
    requires forall i :: b <= i <= c ==> !IsSep(s[i])
    requires b == root || IsSep(s[b - 1])
    ensures k > 0 && Spans(s, 0)[k - 1] == Span(b, c + 1)
  {
    SpanGap(s, 0, k);
    assert !IsSep(s[c]);
    if k > 0 {
      SpanEarlier(s, k);
      SpanGap(s, 0, k - 1);
      SpanFollowsSep(s, k - 1);
    }
  }

  class Cursor {
    const paths: seq<CStr>
    var pathIndex: nat
    var path: CStr
    var segments: nat
    var begin: nat
    var end: nat
    var size: nat
    /** The position of the current segment within its path. */
    ghost var at: nat

    /** On a segment. */
    ghost predicate On()
      reads this
    {
      && pathIndex < |paths|
      && path == paths[pathIndex]
      && at < |Spans(paths[pathIndex], 0)|
      && Span(begin, end) == Spans(paths[pathIndex], 0)[at]
      && end == begin + size
      && segments <= begin
      && (forall c :: 0 <= c < segments && c < |paths[pathIndex]| ==> IsSep(paths[pathIndex][c]))
    }

    /** Past the last path. */
    ghost predicate Ended()
      reads this
    {
      pathIndex == |paths|
    }

    /** On no segment because there is none at all. */
    ghost predicate Idle()
      reads this
    {
      Ended() && size == 0 && begin <= |path| && AllSegsOf(paths) == []
    }

    /** The index of the current segment in the whole; their number when there is none. */
    ghost function Pos(): (p: nat)
      reads this
      ensures p <= |AllSegsOf(paths)| && (On() ==> p < |AllSegsOf(paths)|)
    {
      if On() then
        SegmentAt(paths, pathIndex, at);
        Offset(paths, pathIndex) + at
      else |AllSegsOf(paths)|
    }

    ghost function All(): seq<string>
    {
      AllSegsOf(paths)
    }

    lemma OnText()
      requires On()
      ensures Pos() < |All()| && begin < end == begin + size <= |path|
      ensures path[begin..end] == All()[Pos()]
    {
      SegmentAt(paths, pathIndex, at);
    }

    lemma IdleIsEmpty()
      ensures Idle() ==> Pos() == |All()| == 0
    {
    }

    constructor (paths: seq<CStr>)
      ensures this.paths == paths
    {
      this.paths := paths;
      pathIndex, path, segments, begin, end, size, at := 0, "", 0, 0, 0, 0, 0;
    }

    /** A copy of the iterator, as C struct assignment makes it. */
    constructor Copy(c: Cursor)
      ensures paths == c.paths && pathIndex == c.pathIndex && path == c.path && segments == c.segments
      ensures begin == c.begin && end == c.end && size == c.size && at == c.at
    {
      paths := c.paths;
      pathIndex, path, segments, begin, end, size, at := c.pathIndex, c.path, c.segments, c.begin, c.end, c.size, c.at;
    }

    /** cwk_path_get_first_segment_without_root, on the current path from `from`. */
    method FirstFrom(from: nat) returns (r: bool)
      requires pathIndex < |paths| && from <= |paths[pathIndex]|
      requires forall c :: 0 <= c < from ==> IsSep(paths[pathIndex][c])
      modifies this
      ensures pathIndex == old(pathIndex)
      ensures r <==> Spans(paths[pathIndex], 0) != []
      ensures r ==> On() && at == 0
      ensures !r ==> size == 0 && begin <= |path|
    {
      var s := paths[pathIndex];
      path := s;
      segments, begin, end, size := from, from, from, 0;
      SkipSeps(s, 0, from);
      if CharAt(s, from) == '\0' {
        return false;
      }
      var c := from;
      while IsSep(CharAt(s, c))
        invariant from <= c < |s| && forall k :: from <= k < c ==> IsSep(s[k])
        invariant pathIndex == old(pathIndex) && path == s && segments == begin == from && size == 0
        decreases |s| - c
      {
        c := c + 1;
        if CharAt(s, c) == '\0' {
          SkipSeps(s, from, c);
          return false;
        }
      }
      SkipSeps(s, from, c);
      begin := c;
      c := FindNextStop(s, c);
      size := c - begin;
      end := c;
      at := 0;
      return true;
    }

    /** cwk_path_get_first_segment: past the root. */
    method FirstInPath() returns (r: bool)
      requires pathIndex < |paths|
      modifies this
      ensures pathIndex == old(pathIndex)
      ensures r <==> Spans(paths[pathIndex], 0) != []
      ensures r ==> On() && at == 0
      ensures !r ==> size == 0 && begin <= |path|
    {
      r := FirstFrom(if IsSep(CharAt(paths[pathIndex], 0)) then 1 else 0);
    }

    /** cwk_path_get_next_segment. */
    method NextInPath() returns (r: bool)
      requires On()
      modifies this
      ensures pathIndex == old(pathIndex)
      ensures r <==> old(at) + 1 < |Spans(paths[pathIndex], 0)|
      ensures r ==> On() && at == old(at) + 1
      ensures !r ==> On() && at == old(at)
    {
      var s := path;
      SpanTail(s, 0, at);
      var c := begin + size;
      if CharAt(s, c) == '\0' {
        return false;
      }
      assert IsSep(CharAt(s, c));
      ghost var stop := c;
      c := c + 1;
      while IsSep(CharAt(s, c))
        invariant stop < c <= |s| && forall k :: stop <= k < c ==> IsSep(s[k])
        decreases |s| - c
      {
        c := c + 1;
      }
      SkipSeps(s, stop, c);
      if CharAt(s, c) == '\0' {
        return false;
      }
      begin := c;
      c := FindNextStop(s, c);
      end := c;
      size := c - begin;
      at := at + 1;
      assert Spans(s, 0)[at..][0] == Spans(s, 0)[at];
      return true;
    }

    /** cwk_path_get_previous_segment. */
    method PreviousInPath() returns (r: bool)
      requires On()
      modifies this
      ensures pathIndex == old(pathIndex)
      ensures r <==> old(at) > 0
      ensures r ==> On() && at == old(at) - 1
      ensures !r ==> On() && at == old(at)
    {
      var s := path;
      SpanBounds(s, 0);
      var c := begin;
      if c <= segments {
        if at > 0 { SpanEarlier(s, at); }
        return false;
      }
      c := c - 1;
      while IsSep(CharAt(s, c))
        invariant segments <= c < begin && forall k :: c < k < begin ==> IsSep(s[k])
        decreases c
      {
        if c == segments {
          if at > 0 { SpanEarlier(s, at); }
          return false;
        }
        c := c - 1;
      }
      var b := FindPreviousStop(s, segments, c);
      SpanBefore(s, at, segments, b, c);
      end := c + 1;
      begin := b;
      size := end - begin;
      at := at - 1;
      return true;
    }

    /** cwk_path_get_last_segment_without_root, on the current path. */
    method LastFromStart() returns (r: bool)
      requires pathIndex < |paths|
      modifies this
      ensures pathIndex == old(pathIndex)
      ensures r <==> Spans(paths[pathIndex], 0) != []
      ensures r ==> On() && at == |Spans(paths[pathIndex], 0)| - 1
    {
      r := FirstFrom(0);
      if r {
        ToLast();
      }
    }

    /** cwk_path_get_last_segment, on the current path. */
    method LastInPath() returns (r: bool)
      requires pathIndex < |paths|
      modifies this
      ensures pathIndex == old(pathIndex)
      ensures r <==> Spans(paths[pathIndex], 0) != []
      ensures r ==> On() && at == |Spans(paths[pathIndex], 0)| - 1
    {
      r := FirstInPath();
      if r {
        ToLast();
      }
    }

    method ToLast()
      requires On()
      modifies this
      ensures pathIndex == old(pathIndex) && On() && at == |Spans(paths[pathIndex], 0)| - 1
    {
      while true
        invariant On() && pathIndex == old(pathIndex)
        decreases |Spans(paths[pathIndex], 0)| - at
      {
        var more := NextInPath();
        if !more {
          break;
        }
      }
    }

    // ----- several paths as one -----

    /** cwk_path_get_first_segment_joined. */
    method FirstJoined() returns (r: bool)
      modifies this
      ensures r <==> All() != []
      ensures r ==> On() && Pos() == 0
      ensures !r ==> paths == [] || Idle()
      ensures Idle() ==> Pos() == |All()| == 0
    {
      pathIndex := 0;
      r := false;
      while pathIndex < |paths|
        invariant pathIndex <= |paths| && Offset(paths, pathIndex) == 0
        invariant pathIndex > 0 ==> size == 0 && begin <= |path|
      {
        r := FirstInPath();
        if r {
          SegmentAt(paths, pathIndex, 0);
          return;
        }
        pathIndex := pathIndex + 1;
      }
      SegmentsEnd(paths);
      return false;
    }

    /** cwk_path_get_next_segment_joined. */
    method NextJoined() returns (r: bool)
      requires On() || Idle()
      modifies this
      ensures r <==> old(Pos()) + 1 < |All()|
      ensures r ==> On() && Pos() == old(Pos()) + 1
      ensures !r ==> Pos() == |All()|
    {
      if pathIndex == |paths| {
        return false;
      }
      ghost var was := Pos();
      r := NextInPath();
      if r {
        SegmentAt(paths, pathIndex, at);
        return;
      }
      while true
        invariant pathIndex < |paths| && Offset(paths, pathIndex + 1) == was + 1
        decreases |paths| - pathIndex
      {
        pathIndex := pathIndex + 1;
        if pathIndex == |paths| {
          SegmentsEnd(paths);
          return false;
        }
        r := FirstFrom(0);
        if r {
          SegmentAt(paths, pathIndex, 0);
          return;
        }
      }
    }

    /** cwk_path_get_previous_segment_joined. */
    method PreviousJoined() returns (r: bool)
      requires On()
      modifies this
      ensures r <==> old(Pos()) > 0
      ensures r ==> On() && Pos() == old(Pos()) - 1
    {
      ghost var was := Pos();
      r := PreviousInPath();
      if r {
        return;
      }
      while true
        invariant pathIndex < |paths| && Offset(paths, pathIndex) == was
        decreases pathIndex
      {
        if pathIndex == 0 {
          return false;
        }
        pathIndex := pathIndex - 1;
        if pathIndex == 0 {
          r := LastInPath();
        } else {
          r := LastFromStart();
        }
        if r {
          return;
        }
      }
    }

    // ----- the decision for one segment -----

    /** cwk_path_get_segment_type. */
    method SegmentType() returns (k: Kind)
      requires On() || Idle()
      ensures k == if On() then KindOf(All()[Pos()]) else Current
    {
      if On() {
        OnText();
      }
      var current := StrnEqual(path, begin, size, ".");
      if current {
        return Current;
      }
      var back := StrnEqual(path, begin, size, "..");
      if back {
        return Back;
      }
      return Normal;
    }

    /** cwk_path_segment_back_will_be_removed. */
    method BackWillBeRemoved() returns (r: bool)
      requires On()
      modifies this
      ensures r == Backward(All(), old(Pos()), 0)
    {
      hide On, Pos, Idle, Spans;
      OnText();
      var counter := 0;
      while true
        invariant On() && Pos() < |All()| && counter <= 0
        invariant Backward(All(), Pos(), counter) == Backward(All(), old(Pos()), 0)
        decreases Pos()
      {
        var more := PreviousJoined();
        if !more {
          return false;
        }
        OnText();
        var kind := SegmentType();
        if kind == Normal {
          counter := counter + 1;
          if counter > 0 {
            return true;
          }
        } else if kind == Back {
          counter := counter - 1;
        }
      }
    }

    /** cwk_path_segment_normal_will_be_removed. */
    method NormalWillBeRemoved() returns (r: bool)
      requires On()
      modifies this
      ensures r <==> Forward(All(), old(Pos()) + 1, |All()|) < 0
    {
      hide On, Pos, Idle, Spans;
      OnText();
      ghost var k := Pos();
      var counter := 0;
      while true
        invariant On() && k <= Pos() < |All()|
        invariant counter == Forward(All(), k + 1, Pos() + 1) >= 0
        decreases |All()| - Pos()
      {
        var more := NextJoined();
        if !more {
          return false;
        }
        OnText();
        var kind := SegmentType();
        if kind == Normal {
          counter := counter + 1;
        } else if kind == Back {
          counter := counter - 1;
          if counter < 0 {
            ForwardStays(All(), k + 1, Pos() + 1, |All()|);
            return true;
          }
        }
      }
    }

    /** cwk_path_segment_will_be_removed. */
    method WillBeRemoved(absolute: bool) returns (r: bool)
      requires On() || Idle()
      ensures r <==> (On() ==> Removed(All(), Pos(), absolute))
    {
      if On() {
        OnText();
      }
      var copy := new Cursor.Copy(this);
      var kind := SegmentType();
      if kind == Current || (kind == Back && absolute) {
        return true;
      } else if kind == Back {
        r := copy.BackWillBeRemoved();
      } else {
        r := copy.NormalWillBeRemoved();
      }
    }

    /** cwk_path_segment_joined_skip_invisible: on to the next segment that is kept. */
    method SkipInvisible(absolute: bool) returns (r: bool)
      requires On() || Idle()
      modifies this
      ensures old(Pos()) <= Pos() <= |All()|
      ensures Kept(All(), Pos(), absolute) == Kept(All(), old(Pos()), absolute)
      ensures r ==> On() && Pos() < |All()| && !Removed(All(), Pos(), absolute)
      ensures !r ==> Pos() == |All()|
    {
      hide On, Pos, Idle, Removed, Spans;
      ghost var ts, start := All(), Pos();
      while true
        invariant On() || Idle()
        invariant start <= Pos() <= |ts|
        invariant Kept(ts, Pos(), absolute) == Kept(ts, start, absolute)
        decreases |ts| - Pos()
      {
        IdleIsEmpty();
        ghost var k := Pos();
        var removed := WillBeRemoved(absolute);
        if !removed {
          return true;
        }
        var more := NextJoined();
        assert On() || k == |ts| || Kept(ts, k + 1, absolute) == Kept(ts, k, absolute);
        if !more {
          return false;
        }
      }
    }
  }

  /** Once negative, the forward counter stays so. */
  lemma {:induction false} ForwardStays(ts: seq<string>, from: nat, n: nat, m: nat)
    requires n <= m <= |ts| && Forward(ts, from, n) < 0
    ensures Forward(ts, from, m) < 0
    decreases m
  {
    if n < m {
      ForwardStays(ts, from, n, m - 1);
    }
  }
}
