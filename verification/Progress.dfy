/** Whoever is still using a process can leave it: from every state of every run, unless cloning failed,
    the parties can go on to the destroy. */
module Progress {
  import opened Wrappers
  import opened Lists
  import opened Lifecycle

  // ----- every half-made thread has a maker -----

  ghost predicate MadeBy(s: State, r: nat, act: Act) { exists w :: Doing(s, w, act) }

  ghost predicate Makers(s: State) {
    forall r :: r in s.rts ==>
      && (s.rts[r].Listed? ==> MadeBy(s, r, Spawning(r)))
      && (s.rts[r].Dropped? ==> MadeBy(s, r, SpawnFailed(r)))
  }

  /** The makers of other threads stay when one thread's act changes from or to making c. */
  lemma MakersStay(s: State, t: State, w: Who, c: nat)
    requires Makers(s) && w in s.acts && (s.acts[w].InSandbox? || s.acts[w].child == c)
    requires forall v :: v in s.acts && v != w ==> v in t.acts && t.acts[v] == s.acts[v]
    requires forall r :: r in t.rts && r != c ==> r in s.rts && t.rts[r] == s.rts[r]
    requires c in t.rts && t.rts[c].Listed? ==> Doing(t, w, Spawning(c))
    requires c in t.rts && t.rts[c].Dropped? ==> Doing(t, w, SpawnFailed(c))
    ensures Makers(t)
  {
    forall r | r in t.rts
      ensures t.rts[r].Listed? ==> MadeBy(t, r, Spawning(r))
      ensures t.rts[r].Dropped? ==> MadeBy(t, r, SpawnFailed(r))
    {
      if r != c && t.rts[r].Listed? {
        var v :| Doing(s, v, Spawning(r));
        assert Doing(t, v, Spawning(r));
      }
      if r != c && t.rts[r].Dropped? {
        var v :| Doing(s, v, SpawnFailed(r));
        assert Doing(t, v, SpawnFailed(r));
      }
    }
  }

  /** They stay when the acts and the half-made threads do. */
  lemma MakersSame(s: State, t: State)
    requires Makers(s)
    requires forall v :: v in s.acts && !s.acts[v].InSandbox? ==> v in t.acts && t.acts[v] == s.acts[v]
    requires forall r :: r in t.rts && (t.rts[r].Listed? || t.rts[r].Dropped?) ==> r in s.rts && t.rts[r] == s.rts[r]
    ensures Makers(t)
  {
    forall r | r in t.rts
      ensures t.rts[r].Listed? ==> MadeBy(t, r, Spawning(r))
      ensures t.rts[r].Dropped? ==> MadeBy(t, r, SpawnFailed(r))
    {
      if t.rts[r].Listed? {
        var v :| Doing(s, v, Spawning(r));
        assert Doing(t, v, Spawning(r));
      }
      if t.rts[r].Dropped? {
        var v :| Doing(s, v, SpawnFailed(r));
        assert Doing(t, v, SpawnFailed(r));
      }
    }
  }

  lemma CloneMakers(s: State, w: Who, c: nat, ev: CloneEv)
    requires Makers(s) && Inside(s) && Parents(s) && CloneEnabled(s, w, c, ev)
    ensures Makers(CloneApply(s, w, c, ev))
  {
    hide Makers;
    MakersStay(s, CloneApply(s, w, c, ev), w, c);
  }

  lemma HostMakers(s: State, a: nat, ev: HostEv)
    requires Makers(s) && Inside(s) && HostEnabled(s, a, ev)
    ensures Makers(HostApply(s, a, ev))
  {
    hide Makers;
    MakersSame(s, HostApply(s, a, ev));
  }

  lemma ThreadMakers(s: State, r: nat, ev: ThreadEv)
    requires Makers(s) && ThreadEnabled(s, r, ev)
    ensures Makers(ThreadApply(s, r, ev))
  {
    hide Makers;
    MakersSame(s, ThreadApply(s, r, ev));
  }

  lemma FreeMakers(s: State, ev: FreeEv)
    requires Makers(s) && FreeEnabled(s, ev)
    ensures Makers(FreeApply(s, ev))
  {
    hide Makers;
    MakersSame(s, FreeApply(s, ev));
  }

  lemma MakersKeep(s: State, step: Step)
    requires Makers(s) && Inside(s) && Parents(s) && Enabled(s, step)
    ensures Makers(Apply(s, step))
  {
    hide Makers, Parents, Inside, HostApply, ThreadApply, FreeApply, CloneApply;
    hide HostEnabled, ThreadEnabled, FreeEnabled, CloneEnabled;
    match step
    case CloneStep(w, c, ev) => CloneMakers(s, w, c, ev);
    case HostStep(a, ev) => HostMakers(s, a, ev);
    case ThreadStep(r, ev) => ThreadMakers(s, r, ev);
    case FreeStep(ev) => FreeMakers(s, ev);
    case _ => MakersSame(s, Apply(s, step));
  }

  lemma {:induction false} RunMakers(s: State, steps: seq<Step>)
    requires Inv(s) && Makers(s) && IsRun(s, steps)
    ensures Inv(Final(s, steps)) && Makers(Final(s, steps))
    decreases |steps|
  {
    if steps != [] {
      hide Inv, Makers, Enabled, Apply;
      StepKeeps(s, steps[0]);
      InsideParents(s);
      MakersKeep(s, steps[0]);
      RunMakers(Apply(s, steps[0]), steps[1..]);
    }
  }

  lemma InsideParents(s: State)
    requires Inv(s)
    ensures Inside(s) && Parents(s)
  {
  }

  // ----- what is left to do -----

  /** One unit of work that a party still has before it. */
  datatype Token = OfMain | OfHost(a: nat, k: nat) | OfThread(r: nat, k: nat) | OfMaker(w: Who, k: nat) | OfFree(k: nat)

  function AttWork(pc: AttPc): nat {
    match pc
    case Cloning => 5 case Running => 4 case Leaving => 3 case Waiting => 2 case Finishing => 1
    case Detached => 0 case Failed => 0
  }

  function RtWork(pc: RtPc): nat {
    match pc case Listed => 3 case Started => 2 case Exited => 1 case Dropped => 1 case Freed => 0
  }

  function ActWork(act: Act): nat { match act case InSandbox => 0 case Spawning(_) => 2 case SpawnFailed(_) => 1 }

  function FreeWork(pc: FreePc): nat {
    match pc case NotCalled => 4 case Locked => 3 case Counted => 2 case Closing => 1 case Deferred => 0 case Done => 0
  }

  ghost function MainLeft(acts: map<Who, Act>): set<Token> { if Main in acts then {OfMain} else {} }

  ghost function HostLeft(atts: map<nat, AttPc>): set<Token> {
    set a, k | a in atts && 0 <= k < 5 && k < AttWork(atts[a]) :: OfHost(a, k)
  }

  ghost function ThreadLeft(rts: map<nat, RtPc>): set<Token> {
    set r, k | r in rts && 0 <= k < 3 && k < RtWork(rts[r]) :: OfThread(r, k)
  }

  ghost function MakerLeft(acts: map<Who, Act>): set<Token> {
    set w, k | w in acts && 0 <= k < 2 && k < ActWork(acts[w]) :: OfMaker(w, k)
  }

  ghost function FreeLeft(free: FreePc): set<Token> { set k | 0 <= k < 4 && k < FreeWork(free) :: OfFree(k) }

  ghost function Left(s: State): set<Token> {
    MainLeft(s.acts) + HostLeft(s.atts) + ThreadLeft(s.rts) + MakerLeft(s.acts) + FreeLeft(s.free)
  }

  /** A step towards the end: it starts nothing, and no attempt fails. */
  predicate Winding(step: Step) {
    match step
    case HostStep(_, ev) => !ev.AttachStart? && !ev.AttachFail? && !ev.Abort?
    case CloneStep(_, _, ev) => !ev.Spawn? && !ev.CreateFailed?
    case _ => true
  }

  ghost predicate AllWinding(steps: seq<Step>) { forall i :: 0 <= i < |steps| ==> Winding(steps[i]) }

  ghost predicate NoneFailed(s: State) { !s.aborted && forall a :: a in s.atts ==> !s.atts[a].Failed? }

  /** Some work is done and none is added. */
  ghost predicate Less(s: State, t: State) { Left(t) < Left(s) && NoneFailed(t) }

  lemma HostWorks(atts: map<nat, AttPc>, a: nat, pc: AttPc)
    requires a in atts && AttWork(pc) < AttWork(atts[a])
    ensures HostLeft(atts[a := pc]) <= HostLeft(atts)
    ensures OfHost(a, AttWork(pc)) in HostLeft(atts) && OfHost(a, AttWork(pc)) !in HostLeft(atts[a := pc])
  {
  }

  lemma ThreadWorks(rts: map<nat, RtPc>, r: nat, pc: RtPc)
    requires r in rts && RtWork(pc) < RtWork(rts[r])
    ensures ThreadLeft(rts[r := pc]) <= ThreadLeft(rts)
    ensures OfThread(r, RtWork(pc)) in ThreadLeft(rts) && OfThread(r, RtWork(pc)) !in ThreadLeft(rts[r := pc])
  {
  }

  lemma FreeWorks(free: FreePc, pc: FreePc)
    requires FreeWork(pc) < FreeWork(free)
    ensures FreeLeft(pc) <= FreeLeft(free)
    ensures OfFree(FreeWork(pc)) in FreeLeft(free) && OfFree(FreeWork(pc)) !in FreeLeft(pc)
  {
  }

  /** Nobody starts to make a thread or comes in as main. */
  ghost predicate NoMoreActs(was: map<Who, Act>, now: map<Who, Act>) {
    && (Main in now ==> Main in was)
    && forall w :: w in now && !now[w].InSandbox? ==> w in was && ActWork(now[w]) <= ActWork(was[w])
  }

  lemma ActsLess(was: map<Who, Act>, now: map<Who, Act>)
    requires NoMoreActs(was, now)
    ensures MainLeft(now) <= MainLeft(was) && MakerLeft(now) <= MakerLeft(was)
  {
  }

  lemma TokenGone(s: State, t: State, x: Token)
    requires x in Left(s) && x !in Left(t) && NoMoreActs(s.acts, t.acts)
    requires HostLeft(t.atts) <= HostLeft(s.atts) && ThreadLeft(t.rts) <= ThreadLeft(s.rts)
    requires FreeLeft(t.free) <= FreeLeft(s.free)
    ensures Left(t) < Left(s)
  {
    ActsLess(s.acts, t.acts);
    hide HostLeft, ThreadLeft, FreeLeft, MainLeft, MakerLeft, NoMoreActs;
  }

  lemma NotElsewhere(s: State, x: Token)
    ensures x.OfHost? && x !in HostLeft(s.atts) ==> x !in Left(s)
    ensures x.OfThread? && x !in ThreadLeft(s.rts) ==> x !in Left(s)
    ensures x.OfFree? && x !in FreeLeft(s.free) ==> x !in Left(s)
  {
  }

  lemma HostLess(s: State, a: nat, ev: HostEv)
    requires NoneFailed(s) && HostEnabled(s, a, ev) && Winding(HostStep(a, ev)) && !ev.DetachSleep?
    requires Inside(s)
    ensures Less(s, HostApply(s, a, ev))
  {
    hide HostLeft, ThreadLeft, FreeLeft, Left;
    var t := HostApply(s, a, ev);
    var x := OfHost(a, AttWork(t.atts[a]));
    HostWorks(s.atts, a, t.atts[a]);
    NotElsewhere(t, x);
    IsLeft(s, x);
    TokenGone(s, t, x);
  }

  lemma IsLeft(s: State, x: Token)
    requires x in HostLeft(s.atts) || x in ThreadLeft(s.rts) || x in FreeLeft(s.free)
    ensures x in Left(s)
  {
  }

  lemma CloneLess(s: State, w: Who, c: nat, ev: CloneEv)
    requires NoneFailed(s) && CloneEnabled(s, w, c, ev) && Winding(CloneStep(w, c, ev)) && Inside(s) && Parents(s)
    ensures Less(s, CloneApply(s, w, c, ev))
  {
    hide HostLeft, ThreadLeft, FreeLeft, Left;
    var t := CloneApply(s, w, c, ev);
    var x := OfThread(c, RtWork(t.rts[c]));
    ThreadWorks(s.rts, c, t.rts[c]);
    NotElsewhere(t, x);
    IsLeft(s, x);
    TokenGone(s, t, x);
  }

  lemma ThreadLess(s: State, r: nat, ev: ThreadEv)
    requires NoneFailed(s) && ThreadEnabled(s, r, ev) && Inside(s)
    ensures Less(s, ThreadApply(s, r, ev))
  {
    hide HostLeft, ThreadLeft, FreeLeft, Left;
    var t := ThreadApply(s, r, ev);
    var x := OfThread(r, RtWork(t.rts[r]));
    ThreadWorks(s.rts, r, t.rts[r]);
    NotElsewhere(t, x);
    IsLeft(s, x);
    TokenGone(s, t, x);
  }

  lemma FreeLess(s: State, ev: FreeEv)
    requires NoneFailed(s) && FreeEnabled(s, ev) && !ev.FreeSleep?
    ensures Less(s, FreeApply(s, ev))
  {
    hide HostLeft, ThreadLeft, FreeLeft, Left;
    var t := FreeApply(s, ev);
    var x := OfFree(FreeWork(t.free));
    FreeWorks(s.free, t.free);
    NotElsewhere(t, x);
    IsLeft(s, x);
    TokenGone(s, t, x);
  }

  // ----- somebody can always go on -----

  /** A step that is enabled and leaves less to do. */
  ghost predicate Goes(s: State, step: Step) { Enabled(s, step) && Winding(step) && Less(s, Apply(s, step)) }

  lemma MainGoes(s: State)
    requires NoneFailed(s) && Doing(s, Main, InSandbox)
    ensures Goes(s, MainLeave)
  {
    assert OfMain in Left(s) && OfMain !in Left(Apply(s, MainLeave));
    TokenGone(s, Apply(s, MainLeave), OfMain);
  }

  lemma MakerGoes(s: State, w: Who) returns (step: Step)
    requires Inside(s) && Parents(s) && NoneFailed(s) && w in s.acts && !s.acts[w].InSandbox?
    ensures Goes(s, step)
  {
    var c := s.acts[w].child;
    var ev := if s.acts[w].Spawning? then Created else DropChild;
    step := CloneStep(w, c, ev);
    CloneLess(s, w, c, ev);
    hide Less, CloneApply, Inside, Parents;
  }

  lemma NobodyHalfMade(s: State, r: nat)
    requires Makers(s) && r in s.rts && forall w :: w in s.acts ==> s.acts[w].InSandbox?
    ensures !s.rts[r].Listed? && !s.rts[r].Dropped?
  {
  }

  /** pthread_cond_signal wakes whoever sleeps. */
  lemma ThreadGoes(s: State, r: nat) returns (step: Step)
    requires Inside(s) && NoneFailed(s) && r in s.rts && (s.rts[r].Started? || s.rts[r].Exited?)
    requires forall w :: w in s.acts ==> s.acts[w].InSandbox?
    ensures Goes(s, step)
  {
    var ev := ThreadExit;
    if s.rts[r].Exited? {
      ev := ThreadEnd(None);
      if x :| x in s.sleepers {
        ev := ThreadEnd(Some(x));
      }
    }
    step := ThreadStep(r, ev);
    ThreadLess(s, r, ev);
    hide Inside, Less, ThreadApply;
  }

  /** No runtime thread is left and nobody sleeps. */
  ghost predicate Quiet(s: State) { s.active == 0 && forall x :: x !in s.sleepers }

  lemma NoThreadsIsQuiet(s: State)
    requires Inv(s) && forall r :: r in s.rts ==> s.rts[r].Freed?
    ensures Quiet(s)
  {
    assert RtSet(s.rts) == {};
    forall x ensures x !in s.sleepers {
      match x
      case WFree =>
      case WHost(a) =>
    }
  }

  lemma FreeGoes(s: State) returns (step: Step)
    requires NoneFailed(s) && Main !in s.acts && !s.free.Deferred? && !s.free.Done? && Quiet(s)
    ensures Goes(s, step)
  {
    var ev := match s.free
      case NotCalled => FreeCall
      case Locked => FreeSee
      case Counted => FreeDecide
      case _ => FreeDestroy;
    step := FreeStep(ev);
    FreeLess(s, ev);
    hide Less, FreeApply;
  }

  /** A host thread still attached; lk_proc is free by now. */
  lemma HostGoes(s: State, a: nat) returns (step: Step)
    requires Inside(s) && NoneFailed(s) && a in s.atts && !s.atts[a].Detached? && Quiet(s)
    requires forall w :: w in s.acts ==> s.acts[w].InSandbox?
    requires s.free.Deferred? || s.free.Done?
    ensures Goes(s, step)
  {
    var ev := match s.atts[a]
      case Cloning => AttachDone
      case Running => DetachFree
      case Leaving => DetachCount
      case Waiting => DetachSee
      case _ => DetachDestroy;
    step := HostStep(a, ev);
    HostLess(s, a, ev);
    hide Inside, Less, HostApply;
  }

  /** What every state on the way satisfies. */
  ghost predicate Going(s: State) { Inv(s) && Makers(s) && NoneFailed(s) }

  lemma SomebodyGoes(s: State) returns (step: Step)
    requires Going(s) && !Over(s)
    ensures Goes(s, step)
  {
    InsideParents(s);
    hide Goes, Inv, Inside, Parents, Makers;
    if w :| w in s.acts && !s.acts[w].InSandbox? {
      step := MakerGoes(s, w);
    } else if Main in s.acts {
      step := MainLeave;
      MainGoes(s);
    } else if r :| r in s.rts && !s.rts[r].Freed? {
      NobodyHalfMade(s, r);
      step := ThreadGoes(s, r);
    } else {
      NoThreadsIsQuiet(s);
      if !s.free.Deferred? && !s.free.Done? {
        step := FreeGoes(s);
      } else {
        var a :| a in s.atts && !s.atts[a].Detached?;
        step := HostGoes(s, a);
      }
    }
  }

  lemma StepDone(s: State, step: Step)
    requires Going(s) && Goes(s, step)
    ensures Enabled(s, step) && Winding(step) && Left(Apply(s, step)) < Left(s) && Going(Apply(s, step))
  {
    StepKeeps(s, step);
    InsideParents(s);
    MakersKeep(s, step);
    hide Inv, Makers, Apply, Enabled, Left;
  }

  lemma RunMore(s: State, step: Step, rest: seq<Step>)
    requires Enabled(s, step) && IsRun(Apply(s, step), rest)
    ensures IsRun(s, [step] + rest) && Final(s, [step] + rest) == Final(Apply(s, step), rest)
    ensures Winding(step) && AllWinding(rest) ==> AllWinding([step] + rest)
  {
    hide Winding;
    assert ([step] + rest)[1..] == rest;
  }

  lemma {:induction false} Finishes(s: State) returns (more: seq<Step>)
    requires Going(s)
    ensures IsRun(s, more) && Over(Final(s, more)) && AllWinding(more)
    decreases Left(s)
  {
    if Over(s) {
      more := [];
    } else {
      hide Going, Over, Enabled, Apply, Left, Goes, Inv, IsRun, Final, AllWinding;
      var step := SomebodyGoes(s);
      StepDone(s, step);
      var rest := Finishes(Apply(s, step));
      more := [step] + rest;
      RunMore(s, step, rest);
    }
  }

  /** From every state of every run in which nothing was aborted and no cloning failed, there are steps to
      the end that start nothing new and in which nothing fails; the process is then destroyed, once, and
      every runtime thread freed, once. */
  lemma CanAlwaysFinish(steps: seq<Step>) returns (more: seq<Step>)
    requires IsRun(Init(), steps) && NoneFailed(Final(Init(), steps))
    ensures IsRun(Final(Init(), steps), more) && AllWinding(more)
    ensures var t := Final(Final(Init(), steps), more);
            Over(t) && t.destroys == 1 && forall r :: r in t.rts ==> t.frees[r] == 1
  {
    RunMakers(Init(), steps);
    more := Finishes(Final(Init(), steps));
    RunMakers(Final(Init(), steps), more);
    hide Inv, Makers, IsRun, Final, Over;
    OverIsDestroyed(Final(Final(Init(), steps), more));
  }

  // ----- nothing is excluded -----

  /** A new attachment succeeds or fails, and a failed one ends in the abort. */
  ghost predicate AttachOpen(s: State) {
    && (forall a :: IsAt(s, a, Cloning) ==> Enabled(s, HostStep(a, AttachDone)) && Enabled(s, HostStep(a, AttachFail)))
    && (forall a :: IsAt(s, a, Failed) ==> Enabled(s, HostStep(a, Abort)))
    && (s.free.NotCalled? ==> forall a :: a !in s.atts ==> Enabled(s, HostStep(a, AttachStart)))
  }

  /** A thread is made or not, and when it runs it exits or pauses. */
  ghost predicate ThreadsOpen(s: State) {
    && (forall w, c :: Doing(s, w, InSandbox) && c !in s.rts ==> Enabled(s, CloneStep(w, c, Spawn)))
    && (forall w, c :: Doing(s, w, Spawning(c)) ==> CanFail(s, w, c))
    && (forall r :: Doing(s, Thread(r), InSandbox) ==>
          Enabled(s, ThreadStep(r, ThreadExit)) && Enabled(s, ThreadStep(r, ThreadPause)))
  }

  /** Whoever has to wait can fall asleep, and wake up for no reason. */
  ghost predicate WaitsOpen(s: State) {
    && (forall a :: IsAt(s, a, Waiting) && s.active > 0 ==>
          Enabled(s, HostStep(a, DetachSleep)) || Enabled(s, SpuriousWake(WHost(a))))
    && (s.free.Locked? && s.active > 0 ==> Enabled(s, FreeStep(FreeSleep)) || Enabled(s, SpuriousWake(WFree)))
  }

  /** What the environment decides can go either way in every state of every run, and as long as nobody
      frees the process new users can come. */
  lemma EitherWay(steps: seq<Step>)
    requires IsRun(Init(), steps) && !Final(Init(), steps).aborted
    ensures var s := Final(Init(), steps); AttachOpen(s) && ThreadsOpen(s) && WaitsOpen(s)
  {
    hide Final, IsRun, AttachOpen, ThreadsOpen, WaitsOpen;
    var s := Final(Init(), steps);
    AttachIsOpen(s);
    ThreadsAreOpen(s);
    WaitsAreOpen(s);
  }

  lemma AttachIsOpen(s: State)
    requires !s.aborted
    ensures AttachOpen(s)
  {
  }

  lemma WaitsAreOpen(s: State)
    requires !s.aborted
    ensures WaitsOpen(s)
  {
  }

  lemma ThreadsAreOpen(s: State)
    requires !s.aborted
    ensures ThreadsOpen(s)
  {
    forall w, c | Doing(s, w, Spawning(c)) ensures CanFail(s, w, c) {
      var woken := None;
      if x :| x in s.sleepers {
        woken := Some(x);
      }
      assert Enabled(s, CloneStep(w, c, CreateFailed(woken)));
    }
  }

  /** Making thread c can succeed, and it can fail, whoever sleeps. */
  ghost predicate CanFail(s: State, w: Who, c: nat) {
    && Enabled(s, CloneStep(w, c, Created))
    && exists woken :: Enabled(s, CloneStep(w, c, CreateFailed(woken)))
  }
}
