/** linux/cwalk.c writing its results: bounded output, normalisation, relative paths, intersections. */
module PathBuilding {
  import opened Wrappers
  import opened PathText
  import opened PathResolution
  import opened PathLaws
  import opened Cursors

  // ----- bounded output -----

  /** The buffer starts like t, as far as either goes. */
  ghost predicate Holds(buffer: seq<char>, t: string) {
    forall i :: 0 <= i < |t| && i < |buffer| ==> buffer[i] == t[i]
  }

  /** What a buffer of n characters can return of t. */
  ghost function Cut(t: string, n: nat): string
    requires n > 0
  {
    t[..Min(|t|, n - 1)]
  }

  /** A non-empty buffer holds the longest prefix of t that fits, followed by NUL. */
  ghost predicate Filled(buffer: seq<char>, t: string) {
    |buffer| > 0 ==>
      var n := Min(|t|, |buffer| - 1);
      buffer[..n] == Cut(t, |buffer|) && buffer[n] == '\0'
  }

  /** cwk_path_output_sized: appends t to the output so far, of which the buffer holds what fits. */
  method OutputSized(buffer: array<char>, position: nat, t: string, ghost out: string) returns (length: nat)
    requires position == |out| && Holds(buffer[..], out)
    modifies buffer
    ensures length == |t| && Holds(buffer[..], out + t)
    ensures forall i :: position + |t| <= i < buffer.Length ==> buffer[i] == old(buffer[i])
  {
    var amount := 0;
    if buffer.Length > position + |t| {
      amount := |t|;
    } else if buffer.Length > position {
      amount := buffer.Length - position;
    }
    for k := 0 to amount
      invariant forall i :: 0 <= i < position && i < buffer.Length ==> buffer[i] == old(buffer[i])
      invariant forall i :: 0 <= i < k ==> buffer[position + i] == t[i]
      invariant forall i :: position + |t| <= i < buffer.Length ==> buffer[i] == old(buffer[i])
    {
      buffer[position + k] := t[k];
    }
    forall i | 0 <= i < |out + t| && i < buffer.Length ensures buffer[..][i] == (out + t)[i] {
      if i < |out| {
        assert old(buffer[..])[i] == out[i];
      } else {
        assert buffer[position + (i - position)] == t[i - position];
      }
    }
    return |t|;
  }

  /** cwk_path_terminate_output. */
  method TerminateOutput(buffer: array<char>, pos: nat, ghost out: string)
    requires pos == |out| && Holds(buffer[..], out)
    modifies buffer
    ensures Filled(buffer[..], out)
  {
    if buffer.Length > 0 {
      if pos >= buffer.Length {
        buffer[buffer.Length - 1] := '\0';
      } else {
        buffer[pos] := '\0';
      }
      ghost var n := Min(pos, buffer.Length - 1);
      forall i | 0 <= i < n ensures buffer[..][i] == out[i] {
        assert old(buffer[..])[i] == out[i];
      }
      assert buffer[..][..n] == Cut(out, buffer.Length);
    }
  }

  /** cwk_path_get_root, for UNIX paths. */
  method RootLength(p: CStr) returns (n: nat)
    ensures n == |Root(p)|
  {
    n := if IsSep(CharAt(p, 0)) then 1 else 0;
  }

  /** cwk_path_is_root_absolute, for a root cwk_path_get_root returned. */
  method IsRootAbsolute(p: CStr, n: nat) returns (r: bool)
    requires n == |Root(p)|
    ensures r == Absolute(p)
  {
    r := n != 0 && IsSep(CharAt(p, n - 1));
  }

  // ----- joining and normalising -----

  /** The output with one more segment. */
  ghost function Extended(out: string, hasOutput: bool, t: string): string {
    if hasOutput then out + "/" + t else out + t
  }

  lemma KeptStep(ts: seq<string>, k: nat, absolute: bool, root: string)
    requires k < |ts|
    ensures Removed(ts, k, absolute) ==> Kept(ts, k + 1, absolute) == Kept(ts, k, absolute)
    ensures !Removed(ts, k, absolute) ==>
              && Kept(ts, k + 1, absolute) != []
              && root + Join(Kept(ts, k + 1, absolute)) ==
                 Extended(root + Join(Kept(ts, k, absolute)), Kept(ts, k, absolute) != [], ts[k])
  {
    JoinAppend(Kept(ts, k, absolute), ts[k]);
    if !Removed(ts, k, absolute) && Kept(ts, k, absolute) != [] {
      var j := Join(Kept(ts, k, absolute));
      assert root + (j + "/" + ts[k]) == root + j + "/" + ts[k];
    }
  }

  /** The root and the segments the scans keep. */
  ghost function KeptText(paths: seq<CStr>): string
    requires paths != []
  {
    Root(paths[0]) + Join(Kept(AllSegsOf(paths), |AllSegsOf(paths)|, Absolute(paths[0])))
  }

  lemma NormalizedKept(paths: seq<CStr>)
    requires paths != []
    ensures Normalized(paths) == if AllSegsOf(paths) != [] && KeptText(paths) == "" then "." else KeptText(paths)
    ensures AllSegsOf(paths) == [] ==> KeptText(paths) == Root(paths[0])
    ensures KeptText(paths) == "" ==>
              !Absolute(paths[0]) && Kept(AllSegsOf(paths), |AllSegsOf(paths)|, Absolute(paths[0])) == []
  {
    CountersAreStack(AllSegsOf(paths), Absolute(paths[0]));
    hide Kept, Resolve, AllSegsOf, Segs;
    EmptyText(paths);
    assert AllSegsOf(paths) == [] ==> Kept(AllSegsOf(paths), |AllSegsOf(paths)|, Absolute(paths[0])) == [];
  }

  /** Without segments there is nothing to keep, and only then is the text empty. */
  lemma EmptyText(paths: seq<CStr>)
    requires paths != []
    ensures var r := Resolve([], AllSegsOf(paths), Absolute(paths[0]));
            (AllSegsOf(paths) == [] ==> r == []) && (Join(r) == "" ==> r == [])
  {
    AllSegsClean(paths);
    ResolveClean([], AllSegsOf(paths), Absolute(paths[0]));
    JoinCStr(Resolve([], AllSegsOf(paths), Absolute(paths[0])));
  }

  /** Writes the segment the iterator is on, after a separator if it is not the first. */
  method OutputSegment(sj: Cursor, buffer: array<char>, position: nat, hasOutput: bool, ghost out: string)
    returns (pos: nat)
    requires sj.On() && position == |out| && Holds(buffer[..], out)
    modifies buffer
    ensures var all := Extended(out, hasOutput, sj.All()[sj.Pos()]);
            pos == |all| && Holds(buffer[..], all)
  {
    sj.OnText();
    pos := position;
    ghost var before := out;
    if hasOutput {
      var n := OutputSized(buffer, pos, "/", out);
      pos := pos + n;
      before := out + "/";
    }
    var n := OutputSized(buffer, pos, sj.path[sj.begin..sj.begin + sj.size], before);
    pos := pos + n;
  }

  /** The loop of cwk_path_join_and_normalize_multiple: outputs every segment that is kept. */
  method OutputKept(sj: Cursor, absolute: bool, buffer: array<char>, position: nat, ghost root: string)
    returns (pos: nat, hasOutput: bool)
    requires sj.On() && sj.Pos() == 0 && position == |root| && Holds(buffer[..], root)
    modifies sj, buffer
    ensures var r := Kept(sj.All(), |sj.All()|, absolute);
            && (hasOutput <==> r != [])
            && pos == |root + Join(r)| && Holds(buffer[..], root + Join(r))
  {
    hide Cursor.On, Cursor.Pos, Cursor.Idle, Spans, Removed, Resolve, Holds, Extended;
    ghost var ts, k, out := sj.All(), 0, root;
    pos, hasOutput := position, false;
    assert Kept(ts, 0, absolute) == [] && out == root + Join([]);
    hide Kept, Join;
    while true
      invariant sj.On() && k == sj.Pos() && k < |ts|
      invariant hasOutput <==> Kept(ts, k, absolute) != []
      invariant out == root + Join(Kept(ts, k, absolute))
      invariant pos == |out| && Holds(buffer[..], out)
      modifies sj, buffer
      decreases |ts| - k
    {
      var removed := sj.WillBeRemoved(absolute);
      KeptStep(ts, k, absolute, root);
      if !removed {
        pos := OutputSegment(sj, buffer, pos, hasOutput, out);
        out := Extended(out, hasOutput, ts[k]);
        hasOutput := true;
      }
      var more := sj.NextJoined();
      k := k + 1;
      if !more {
        break;
      }
    }
  }

  /** cwk_path_join_and_normalize_multiple. */
  method JoinAndNormalizeMultiple(paths: seq<CStr>, buffer: array<char>) returns (pos: nat)
    requires paths != []
    modifies buffer
    ensures pos == |Normalized(paths)| && Filled(buffer[..], Normalized(paths))
  {
    hide Cursor.On, Cursor.Pos, Cursor.Idle, Spans, Kept, Resolve, Join;
    pos := RootLength(paths[0]);
    var absolute := IsRootAbsolute(paths[0], pos);
    ghost var root, out := Root(paths[0]), KeptText(paths);
    NormalizedKept(paths);
    var n := OutputSized(buffer, 0, paths[0][..pos], "");
    assert "" + paths[0][..pos] == root;
    var sj := new Cursor(paths);
    var found := sj.FirstJoined();
    if !found {
      TerminateOutput(buffer, pos, root);
      return;
    }
    var hasOutput;
    pos, hasOutput := OutputKept(sj, absolute, buffer, pos, root);
    if !hasOutput && pos == 0 {
      assert !absolute;
      n := OutputSized(buffer, pos, ".", out);
      pos := pos + n;
      out := out + ".";
    }
    TerminateOutput(buffer, pos, out);
  }
}
