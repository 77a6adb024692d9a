/** Which segments of a path survive normalisation.

    linux/cwalk.c decides for each segment on its own, by counting forward or backward from it. The
    reference is a resolver that reads the segments left to right and keeps a stack. */
module PathResolution {
  import opened PathText
  import opened Increase

  datatype Kind = Normal | Current | Back

  /** cwk_path_get_segment_type; the empty segment of an exhausted iterator counts as current. */
  function KindOf(t: string): (k: Kind)
    ensures k == Back <==> t == ".."
    ensures k == Current <==> |t| == 0 || t == "."
  {
    if t == "" || t == "." then Current else if t == ".." then Back else Normal
  }

  // ----- the reference: a stack -----

  function Push(stack: seq<string>, t: string, absolute: bool): seq<string> {
    match KindOf(t)
    case Normal => stack + [t]
    case Current => stack
    case Back =>
      if stack != [] && KindOf(stack[|stack| - 1]) == Normal then stack[..|stack| - 1]
      else if absolute then stack
      else stack + [t]
  }

  function Resolve(stack: seq<string>, ts: seq<string>, absolute: bool): seq<string>
    decreases |ts|
  {
    if ts == [] then stack else Resolve(Push(stack, ts[0], absolute), ts[1..], absolute)
  }

  lemma {:induction false} ResolveConcat(stack: seq<string>, a: seq<string>, b: seq<string>, absolute: bool)
    ensures Resolve(stack, a + b, absolute) == Resolve(Resolve(stack, a, absolute), b, absolute)
    decreases |a|
  {
    if a == [] {
      assert a + b == b;
    } else {
      assert (a + b)[0] == a[0] && (a + b)[1..] == a[1..] + b;
      ResolveConcat(Push(stack, a[0], absolute), a[1..], b, absolute);
    }
  }

  // ----- the two counter scans -----

  /** The counter of the forward scan over segments [from, n), or -1 once it has gone negative. */
  function Forward(ts: seq<string>, from: nat, n: nat): int
    requires n <= |ts|
    decreases n
  {
    if n <= from then 0
    else
      var c := Forward(ts, from, n - 1);
      if c < 0 then -1
      else match KindOf(ts[n - 1]) case Normal => c + 1 case Current => c case Back => c - 1
  }

  /** Whether the backward scan from segment k, with counter c so far, finds a normal segment to pair with. */
  function Backward(ts: seq<string>, k: nat, c: int): bool
    requires k <= |ts|
  {
    k > 0 &&
    match KindOf(ts[k - 1])
    case Normal => c + 1 > 0 || Backward(ts, k - 1, c + 1)
    case Current => Backward(ts, k - 1, c)
    case Back => Backward(ts, k - 1, c - 1)
  }

  /** The decision the code takes for segment k. */
  function Removed(ts: seq<string>, k: nat, absolute: bool): bool
    requires k < |ts|
  {
    match KindOf(ts[k])
    case Current => true
    case Back => absolute || Backward(ts, k, 0)
    case Normal => Forward(ts, k + 1, |ts|) < 0
  }

  /** The segments before position n that the code keeps. */
  function Kept(ts: seq<string>, n: nat, absolute: bool): seq<string>
    requires n <= |ts|
  {
    if n == 0 then []
    else Kept(ts, n - 1, absolute) + if Removed(ts, n - 1, absolute) then [] else [ts[n - 1]]
  }

  // ----- both agree -----

  /** A stack of positions after segment k, as Push does it to segments. */
  ghost function PushAt(ts: seq<string>, st: seq<nat>, k: nat, absolute: bool): seq<nat>
    requires k < |ts| && forall j :: 0 <= j < |st| ==> st[j] < |ts|
  {
    match KindOf(ts[k])
    case Normal => st + [k]
    case Current => st
    case Back =>
      if st != [] && KindOf(ts[st[|st| - 1]]) == Normal then st[..|st| - 1]
      else if absolute then st else st + [k]
  }

  /** The stack of positions a resolver holds after n segments. */
  ghost function Positions(ts: seq<string>, n: nat, absolute: bool): (st: seq<nat>)
    requires n <= |ts|
    ensures forall j :: 0 <= j < |st| ==> st[j] < n
  {
    if n == 0 then [] else PushAt(ts, Positions(ts, n - 1, absolute), n - 1, absolute)
  }

  /** How many normal segments a `..` after the first n could still undo. */
  ghost function Depth(ts: seq<string>, n: nat): nat
    requires n <= |ts|
  {
    if n == 0 then 0
    else
      var d := Depth(ts, n - 1);
      match KindOf(ts[n - 1]) case Normal => d + 1 case Current => d case Back => if d > 0 then d - 1 else 0
  }

  /** The backward scan tells whether the depth outweighs the debt collected so far. */
  lemma {:induction false} BackwardIsDepth(ts: seq<string>, k: nat, c: int)
    requires k <= |ts| && c <= 0
    ensures Backward(ts, k, c) <==> Depth(ts, k) + c > 0
  {
    if k > 0 {
      match KindOf(ts[k - 1])
      case Normal => if c < 0 { BackwardIsDepth(ts, k - 1, c + 1); }
      case Current => BackwardIsDepth(ts, k - 1, c);
      case Back => BackwardIsDepth(ts, k - 1, c - 1);
    }
  }

  /** Segment i as the scans see it when only the first n segments exist. */
  ghost predicate Alive(ts: seq<string>, i: nat, n: nat, absolute: bool)
    requires i < n <= |ts|
  {
    match KindOf(ts[i])
    case Current => false
    case Back => !absolute && Depth(ts, i) == 0
    case Normal => Forward(ts, i + 1, n) >= 0
  }

  /** A stack in order: backs below, then d normal segments, each with a counter equal to the number
      of segments above it. */
  ghost predicate Ordered(ts: seq<string>, st: seq<nat>, d: nat, n: nat, absolute: bool)
    requires n <= |ts| && forall j :: 0 <= j < |st| ==> st[j] < n
  {
    && d <= |st|
    && Increasing(st)
    && (forall j :: 0 <= j < |st| - d ==> KindOf(ts[st[j]]) == Back)
    && (forall j :: |st| - d <= j < |st| ==> KindOf(ts[st[j]]) == Normal && Forward(ts, st[j] + 1, n) == |st| - 1 - j)
    && (absolute ==> d == |st|)
  }

  ghost predicate Layout(ts: seq<string>, n: nat, absolute: bool)
    requires n <= |ts|
  {
    Ordered(ts, Positions(ts, n, absolute), Depth(ts, n), n, absolute)
  }

  ghost predicate StackShape(ts: seq<string>, n: nat, absolute: bool)
    requires n <= |ts|
  {
    && Layout(ts, n, absolute)
    && (forall i :: 0 <= i < n ==> (i in Positions(ts, n, absolute) <==> Alive(ts, i, n, absolute)))
  }

  lemma ForwardStep(ts: seq<string>, from: nat, n: nat)
    requires 0 < n <= |ts|
    ensures n <= from ==> Forward(ts, from, n) == 0
    ensures from < n && Forward(ts, from, n - 1) >= 0 ==>
              Forward(ts, from, n) == Forward(ts, from, n - 1) +
                match KindOf(ts[n - 1]) case Normal => 1 case Current => 0 case Back => -1
  {
  }

  /** A normal or kept `..` segment goes on top. */
  lemma OrderedPush(ts: seq<string>, st: seq<nat>, d: nat, n: nat, absolute: bool)
    requires 0 < n <= |ts| && forall j :: 0 <= j < |st| ==> st[j] < n - 1
    requires Ordered(ts, st, d, n - 1, absolute)
    requires KindOf(ts[n - 1]) == Normal || (KindOf(ts[n - 1]) == Back && d == 0 && !absolute)
    ensures Ordered(ts, st + [n - 1], if KindOf(ts[n - 1]) == Normal then d + 1 else 0, n, absolute)
  {
    hide KindOf, Forward;
    ForwardStep(ts, n, n);
    forall j | |st| - d <= j < |st| && KindOf(ts[n - 1]) == Normal ensures Forward(ts, st[j] + 1, n) == |st| - j {
      ForwardStep(ts, st[j] + 1, n);
    }
  }

  /** Every other segment takes the top normal one away, or nothing. */
  lemma OrderedTake(ts: seq<string>, st: seq<nat>, d: nat, m: nat, n: nat, absolute: bool)
    requires 0 < n <= |ts| && forall j :: 0 <= j < |st| ==> st[j] < n - 1
    requires Ordered(ts, st, d, n - 1, absolute)
    requires if KindOf(ts[n - 1]) == Back && d > 0 then m + 1 == |st| else m == |st|
    requires KindOf(ts[n - 1]) == Current || (KindOf(ts[n - 1]) == Back && (d > 0 || absolute))
    ensures Ordered(ts, st[..m], d - (|st| - m), n, absolute)
  {
    hide KindOf, Forward;
    forall j | |st| - d <= j < m ensures Forward(ts, st[j] + 1, n) == m - 1 - j {
      ForwardStep(ts, st[j] + 1, n);
    }
  }

  lemma LayoutPush(ts: seq<string>, n: nat, absolute: bool)
    requires 0 < n <= |ts| && Layout(ts, n - 1, absolute)
    requires KindOf(ts[n - 1]) == Normal || (KindOf(ts[n - 1]) == Back && Depth(ts, n - 1) == 0 && !absolute)
    ensures Layout(ts, n, absolute)
  {
    StackStep(ts, n, absolute);
    hide Positions, Depth, Forward, Ordered, KindOf;
    OrderedPush(ts, Positions(ts, n - 1, absolute), Depth(ts, n - 1), n, absolute);
  }

  lemma BackStep(ts: seq<string>, n: nat, absolute: bool)
    requires 0 < n <= |ts| && Layout(ts, n - 1, absolute)
    requires KindOf(ts[n - 1]) == Back && Depth(ts, n - 1) > 0
    ensures var was := Positions(ts, n - 1, absolute);
            was != [] && Positions(ts, n, absolute) == was[..|was| - 1] && Depth(ts, n) == Depth(ts, n - 1) - 1
  {
    StackStep(ts, n, absolute);
    hide Positions, Depth, Forward, Layout;
  }

  lemma LayoutPop(ts: seq<string>, n: nat, absolute: bool)
    requires 0 < n <= |ts| && Layout(ts, n - 1, absolute)
    requires KindOf(ts[n - 1]) == Back && Depth(ts, n - 1) > 0
    ensures Layout(ts, n, absolute)
  {
    BackStep(ts, n, absolute);
    hide Positions, Depth, Forward, Ordered, KindOf;
    var was := Positions(ts, n - 1, absolute);
    OrderedTake(ts, was, Depth(ts, n - 1), |was| - 1, n, absolute);
  }

  lemma LayoutSame(ts: seq<string>, n: nat, absolute: bool)
    requires 0 < n <= |ts| && Layout(ts, n - 1, absolute)
    requires KindOf(ts[n - 1]) == Current || (KindOf(ts[n - 1]) == Back && Depth(ts, n - 1) == 0 && absolute)
    ensures Layout(ts, n, absolute)
  {
    StackStep(ts, n, absolute);
    hide Positions, Depth, Forward, Ordered, KindOf;
    var was := Positions(ts, n - 1, absolute);
    OrderedTake(ts, was, Depth(ts, n - 1), |was|, n, absolute);
    assert was[..|was|] == was;
  }

  lemma LayoutStep(ts: seq<string>, n: nat, absolute: bool)
    requires 0 < n <= |ts| && Layout(ts, n - 1, absolute)
    ensures Layout(ts, n, absolute)
  {
    hide Layout, Positions, Depth, Forward, Ordered;
    if KindOf(ts[n - 1]) == Normal || (KindOf(ts[n - 1]) == Back && Depth(ts, n - 1) == 0 && !absolute) {
      LayoutPush(ts, n, absolute);
    } else if KindOf(ts[n - 1]) == Back && Depth(ts, n - 1) > 0 {
      LayoutPop(ts, n, absolute);
    } else {
      LayoutSame(ts, n, absolute);
    }
  }

  /** How one segment changes the stack of positions, given its order so far. */
  lemma StackStep(ts: seq<string>, n: nat, absolute: bool)
    requires 0 < n <= |ts| && Layout(ts, n - 1, absolute)
    ensures var was, d := Positions(ts, n - 1, absolute), Depth(ts, n - 1);
            && d <= |was|
            && match KindOf(ts[n - 1])
               case Normal => Positions(ts, n, absolute) == was + [n - 1] && Depth(ts, n) == d + 1
               case Current => Positions(ts, n, absolute) == was && Depth(ts, n) == d
               case Back =>
                 if d > 0 then Positions(ts, n, absolute) == was[..|was| - 1] && Depth(ts, n) == d - 1
                 else Depth(ts, n) == 0 && Positions(ts, n, absolute) == if absolute then was else was + [n - 1]
  {
    hide Forward, KindOf;
  }

  lemma {:induction false} StackHasShape(ts: seq<string>, n: nat, absolute: bool)
    requires n <= |ts|
    ensures StackShape(ts, n, absolute)
  {
    if n > 0 {
      StackHasShape(ts, n - 1, absolute);
      StackShapeStep(ts, n, absolute);
    }
  }

  lemma StackShapeStep(ts: seq<string>, n: nat, absolute: bool)
    requires 0 < n <= |ts| && StackShape(ts, n - 1, absolute)
    ensures StackShape(ts, n, absolute)
  {
    LayoutStep(ts, n, absolute);
    forall i | 0 <= i < n ensures i in Positions(ts, n, absolute) <==> Alive(ts, i, n, absolute) {
      if i < n - 1 {
        OldSegment(ts, i, n, absolute);
      } else {
        NewSegment(ts, n, absolute);
      }
    }
  }

  /** Segment n - 1 is on the stack exactly when the scans keep it. */
  lemma NewSegment(ts: seq<string>, n: nat, absolute: bool)
    requires 0 < n <= |ts| && StackShape(ts, n - 1, absolute)
    ensures n - 1 in Positions(ts, n, absolute) <==> Alive(ts, n - 1, n, absolute)
  {
    var was, st := Positions(ts, n - 1, absolute), Positions(ts, n, absolute);
    assert n - 1 !in was;
    if |st| > |was| {
      assert st[|was|] == n - 1;
    }
  }

  lemma TopGone(st: seq<nat>, i: nat)
    requires Increasing(st) && st != []
    ensures i in st[..|st| - 1] <==> i in st && st[|st| - 1] != i
  {
    if i in st {
      var j :| 0 <= j < |st| && st[j] == i;
      assert j < |st| - 1 ==> st[..|st| - 1][j] == i;
    }
  }

  /** An older segment leaves the stack exactly when segment n - 1 is a `..` and it is on top. */
  lemma PopStep(ts: seq<string>, i: nat, n: nat, absolute: bool)
    requires i + 1 < n <= |ts| && Increasing(Positions(ts, n - 1, absolute))
    ensures var was := Positions(ts, n - 1, absolute);
            i in Positions(ts, n, absolute) <==>
            i in was && !(KindOf(ts[n - 1]) == Back && KindOf(ts[i]) == Normal && was[|was| - 1] == i)
  {
    var was := Positions(ts, n - 1, absolute);
    if was != [] {
      TopGone(was, i);
    }
    PositionsStep(ts, n, absolute);
    hide KindOf, Increasing, Positions;
    if KindOf(ts[n - 1]) == Back && was != [] && KindOf(ts[was[|was| - 1]]) == Normal {
      assert Positions(ts, n, absolute) == was[..|was| - 1];
    } else {
      assert Positions(ts, n, absolute) == was || Positions(ts, n, absolute) == was + [n - 1];
    }
  }

  /** The scans stop keeping an older segment exactly when segment n - 1 drives its counter below zero. */
  lemma AliveStep(ts: seq<string>, i: nat, n: nat, absolute: bool)
    requires i + 1 < n <= |ts|
    ensures Alive(ts, i, n, absolute) <==>
            Alive(ts, i, n - 1, absolute) &&
            !(KindOf(ts[n - 1]) == Back && KindOf(ts[i]) == Normal && Forward(ts, i + 1, n - 1) == 0)
  {
  }

  /** The counter of a normal segment on the stack is zero exactly at the top. */
  lemma TopIsZero(ts: seq<string>, i: nat, n: nat, absolute: bool)
    requires i < n <= |ts| && Layout(ts, n, absolute)
    ensures var st := Positions(ts, n, absolute);
            i in st ==>
              Increasing(st) && (KindOf(ts[i]) == Normal ==> (st[|st| - 1] == i <==> Forward(ts, i + 1, n) == 0))
  {
    hide Positions, Forward, Depth, KindOf;
    var st := Positions(ts, n, absolute);
    if i in st {
      var j :| 0 <= j < |st| && st[j] == i;
      assert j < |st| - 1 ==> st[j] < st[|st| - 1];
    }
  }

  /** Both happen together. */
  lemma OldSegment(ts: seq<string>, i: nat, n: nat, absolute: bool)
    requires i + 1 < n <= |ts| && Layout(ts, n - 1, absolute)
    requires i in Positions(ts, n - 1, absolute) <==> Alive(ts, i, n - 1, absolute)
    ensures i in Positions(ts, n, absolute) <==> Alive(ts, i, n, absolute)
  {
    LayoutIncreases(ts, n - 1, absolute);
    hide *;
    TopIsZero(ts, i, n - 1, absolute);
    PopStep(ts, i, n, absolute);
    AliveStep(ts, i, n, absolute);
  }

  lemma LayoutIncreases(ts: seq<string>, n: nat, absolute: bool)
    requires n <= |ts| && Layout(ts, n, absolute)
    ensures Increasing(Positions(ts, n, absolute))
  {
    hide Positions, Depth, Forward;
  }

  ghost function Pick(ts: seq<string>, ks: seq<nat>): seq<string>
    requires forall j :: 0 <= j < |ks| ==> ks[j] < |ts|
  {
    seq(|ks|, j requires 0 <= j < |ks| => ts[ks[j]])
  }

  /** The positions of the kept segments before n. */
  ghost function KeptAt(ts: seq<string>, n: nat, absolute: bool): (ks: seq<nat>)
    requires n <= |ts|
    ensures forall j :: 0 <= j < |ks| ==> ks[j] < n
  {
    if n == 0 then []
    else KeptAt(ts, n - 1, absolute) + if Removed(ts, n - 1, absolute) then [] else [n - 1]
  }

  lemma {:induction false} KeptAtMembers(ts: seq<string>, n: nat, absolute: bool)
    requires n <= |ts|
    ensures Increasing(KeptAt(ts, n, absolute))
    ensures forall i: nat :: i in KeptAt(ts, n, absolute) <==> i < n && !Removed(ts, i, absolute)
  {
    if n > 0 {
      KeptAtMembers(ts, n - 1, absolute);
    }
  }

  lemma {:induction false} KeptPicks(ts: seq<string>, n: nat, absolute: bool)
    requires n <= |ts|
    ensures Kept(ts, n, absolute) == Pick(ts, KeptAt(ts, n, absolute))
  {
    if n > 0 {
      KeptPicks(ts, n - 1, absolute);
    }
  }

  lemma ResolveOne(stack: seq<string>, t: string, absolute: bool)
    ensures Resolve(stack, [t], absolute) == Push(stack, t, absolute)
  {
    assert [t][1..] == [];
  }

  lemma PickParts(ts: seq<string>, ks: seq<nat>, m: nat, k: nat)
    requires (forall j :: 0 <= j < |ks| ==> ks[j] < |ts|) && m <= |ks| && k < |ts|
    ensures Pick(ts, ks[..m]) == Pick(ts, ks)[..m] && Pick(ts, ks + [k]) == Pick(ts, ks) + [ts[k]]
    ensures |Pick(ts, ks)| == |ks| && (ks != [] ==> Pick(ts, ks)[|ks| - 1] == ts[ks[|ks| - 1]])
  {
  }

  lemma PushPicks(ts: seq<string>, st: seq<nat>, k: nat, absolute: bool)
    requires k < |ts| && forall j :: 0 <= j < |st| ==> st[j] < |ts|
    ensures var now := PushAt(ts, st, k, absolute);
            && (forall j :: 0 <= j < |now| ==> now[j] < |ts|)
            && Pick(ts, now) == Push(Pick(ts, st), ts[k], absolute)
  {
    hide Pick, KindOf;
    PickParts(ts, st, if st == [] then 0 else |st| - 1, k);
  }

  lemma PositionsStep(ts: seq<string>, n: nat, absolute: bool)
    requires 0 < n <= |ts|
    ensures Positions(ts, n, absolute) == PushAt(ts, Positions(ts, n - 1, absolute), n - 1, absolute)
  {
  }

  lemma {:induction false} ResolvePicks(ts: seq<string>, n: nat, absolute: bool)
    requires n <= |ts|
    ensures Resolve([], ts[..n], absolute) == Pick(ts, Positions(ts, n, absolute))
  {
    if n > 0 {
      hide *;
      ResolvePicks(ts, n - 1, absolute);
      ResolveSnoc(ts, n, absolute);
      PositionsStep(ts, n, absolute);
      PushPicks(ts, Positions(ts, n - 1, absolute), n - 1, absolute);
    }
  }

  lemma ResolveSnoc(ts: seq<string>, n: nat, absolute: bool)
    requires 0 < n <= |ts|
    ensures Resolve([], ts[..n], absolute) == Push(Resolve([], ts[..n - 1], absolute), ts[n - 1], absolute)
  {
    hide *;
    assert ts[..n] == ts[..n - 1] + [ts[n - 1]];
    ResolveConcat([], ts[..n - 1], [ts[n - 1]], absolute);
    ResolveOne(Resolve([], ts[..n - 1], absolute), ts[n - 1], absolute);
  }

  /** The positions the counters keep are those a stack resolver ends with, in order. */
  lemma CountersAreStack(ts: seq<string>, absolute: bool)
    ensures KeptAt(ts, |ts|, absolute) == Positions(ts, |ts|, absolute)
    ensures Kept(ts, |ts|, absolute) == Resolve([], ts, absolute)
  {
    StackHasShape(ts, |ts|, absolute);
    KeptAtMembers(ts, |ts|, absolute);
    var ks, st := KeptAt(ts, |ts|, absolute), Positions(ts, |ts|, absolute);
    forall i: nat ensures i in ks <==> i in st {
      if i < |ts| {
        BackwardIsDepth(ts, i, 0);
        assert i in st <==> Alive(ts, i, |ts|, absolute);
      }
    }
    IncreasingUnique(ks, st);
    KeptPicks(ts, |ts|, absolute);
    ResolvePicks(ts, |ts|, absolute);
    assert ts[..|ts|] == ts;
  }
}
