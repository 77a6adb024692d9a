/** linux/trampoline.c, linux/proc.c, linux/sys/sys_clone.c, linux/sys/sys_exit.c: who frees a process.

    A process is shared by host threads attached to it, runtime threads it spawned, the main thread and
    the one caller of lfi_proc_free. Each section under a lock and each atomic operation is one step;
    any interleaving of enabled steps is a run. */
module Lifecycle {
  import opened Wrappers
  import opened Lists

  /** One attachment of a host thread, from the clone callback to the end of detach_ctx. */
  datatype AttPc =
    | Cloning          // counted; thread_create is being invoked on the clone context
    | Running
    | Leaving          // its thread structure is freed; next it takes lk_proc
    | Waiting          // it was the last and a free is pending: waits for the runtime threads
    | Finishing        // saw no active thread; next it calls proc_destroy
    | Detached
    | Failed           // cloning failed; next lfi_clone aborts the whole program

  /** A runtime thread, from list_make_first to its free. */
  datatype RtPc =
    | Listed           // pthread_create has not answered yet
    | Started
    | Exited           // thread_exit took it off the list; threadspawn has not finished
    | Dropped          // pthread_create failed; the parent has still to free it
    | Freed

  /** The threads that can be inside the sandbox, and what each is doing there: running, or in the
      middle of sys_clone. */
  datatype Who = Main | Host(a: nat) | Thread(r: nat)

  datatype Act = InSandbox | Spawning(child: nat) | SpawnFailed(child: nat)

  /** The caller of lfi_proc_free. */
  datatype FreePc =
    | NotCalled
    | Locked           // holds lk_proc and waits for active_threads to reach 0
    | Counted          // saw active_threads == 0; still holds lk_proc
    | Closing          // saw no attached thread; next it calls proc_destroy
    | Deferred         // returned, leaving the free to the last detach
    | Done

  datatype Waiter = WFree | WHost(a: nat)

  datatype State = State(
    attached: int,             // attached_threads
    active: int,               // active_threads
    pending: bool,             // pending_free
    threads: seq<nat>,         // the threads list, first to last
    atts: map<nat, AttPc>,
    rts: map<nat, RtPc>,
    acts: map<Who, Act>,       // the threads inside the sandbox
    free: FreePc,
    sleepers: set<Waiter>,     // blocked in pthread_cond_wait on cond_threads
    destroys: nat,             // completed calls of proc_destroy
    frees: multiset<nat>,      // lfi_thread_free calls on runtime threads
    aborted: bool)

  /** What one attachment does. */
  datatype HostEv = AttachStart | AttachDone | AttachFail | Abort
                  | DetachFree | DetachCount | DetachSleep | DetachSee | DetachDestroy

  /** What a thread inside the sandbox does in sys_clone, for a new runtime thread. */
  datatype CloneEv = Spawn | Created | CreateFailed(woken: Option<Waiter>) | DropChild

  /** What a runtime thread does on its way out: thread_exit takes it off the list before it leaves
      lfi_ctx_run, the pause syscall does not; threadspawn then ends. */
  datatype ThreadEv = ThreadExit | ThreadPause | ThreadEnd(woken: Option<Waiter>)

  /** What lfi_proc_free does. */
  datatype FreeEv = FreeCall | FreeSleep | FreeSee | FreeDecide | FreeDestroy

  datatype Step =
    | HostStep(a: nat, host: HostEv)
    | CloneStep(w: Who, c: nat, clone: CloneEv)
    | ThreadStep(r: nat, thread: ThreadEv)
    | FreeStep(fr: FreeEv)
    | MainLeave
    | SpuriousWake(x: Waiter)
    | Unrelated            // a host thread acting outside the process, a detach that finds no attachment

  function Init(): State {
    State(0, 0, false, [], map[], map[], map[Main := InSandbox], NotCalled, {}, 0, multiset{}, false)
  }

  // ----- the steps -----

  predicate Doing(s: State, w: Who, act: Act) { w in s.acts && s.acts[w] == act }

  predicate ProcLockHeld(s: State) { s.free.Locked? || s.free.Counted? }

  /** pthread_cond_signal: wakes one sleeper if there is any. */
  predicate Signals(s: State, woken: Option<Waiter>) {
    if woken.None? then s.sleepers == {} else woken.value in s.sleepers
  }

  function Woken(s: State, woken: Option<Waiter>): set<Waiter> {
    if woken.None? then s.sleepers else s.sleepers - {woken.value}
  }

  predicate IsAt(s: State, a: nat, pc: AttPc) { a in s.atts && s.atts[a] == pc }

  predicate HostEnabled(s: State, a: nat, ev: HostEv) {
    match ev
    // No attachment starts once lfi_proc_free has been called.
    case AttachStart => a !in s.atts && s.free.NotCalled?
    case AttachDone => IsAt(s, a, Cloning)
    case AttachFail => IsAt(s, a, Cloning)
    case Abort => IsAt(s, a, Failed)
    case DetachFree => Doing(s, Host(a), InSandbox)
    case DetachCount => IsAt(s, a, Leaving) && !ProcLockHeld(s)
    case DetachSleep => IsAt(s, a, Waiting) && s.active != 0 && WHost(a) !in s.sleepers
    case DetachSee => IsAt(s, a, Waiting) && s.active == 0 && WHost(a) !in s.sleepers
    case DetachDestroy => IsAt(s, a, Finishing)
  }

  function HostApply(s: State, a: nat, ev: HostEv): State
    requires HostEnabled(s, a, ev)
  {
    match ev
    case AttachStart => s.(attached := s.attached + 1, atts := s.atts[a := Cloning])
    case AttachDone => s.(atts := s.atts[a := Running], acts := s.acts[Host(a) := InSandbox])
    case AttachFail => s.(attached := s.attached - 1, atts := s.atts[a := Failed])
    case Abort => s.(aborted := true)
    case DetachFree => s.(atts := s.atts[a := Leaving], acts := s.acts - {Host(a)})
    case DetachCount =>
      var remaining := s.attached - 1;
      s.(attached := remaining, atts := s.atts[a := if remaining == 0 && s.pending then Waiting else Detached])
    case DetachSleep => s.(sleepers := s.sleepers + {WHost(a)})
    case DetachSee => s.(atts := s.atts[a := Finishing])
    case DetachDestroy => Destroy(s.(atts := s.atts[a := Detached]))
  }

  predicate CloneEnabled(s: State, w: Who, c: nat, ev: CloneEv) {
    match ev
    case Spawn => Doing(s, w, InSandbox) && c !in s.rts
    case Created => Doing(s, w, Spawning(c))
    case CreateFailed(woken) => Doing(s, w, Spawning(c)) && Signals(s, woken)
    case DropChild => Doing(s, w, SpawnFailed(c))
  }

  function CloneApply(s: State, w: Who, c: nat, ev: CloneEv): State
    requires CloneEnabled(s, w, c, ev)
  {
    match ev
    case Spawn =>
      s.(threads := [c] + s.threads, active := s.active + 1, rts := s.rts[c := Listed],
         acts := s.acts[w := Spawning(c)])
    case Created =>
      s.(rts := s.rts[c := Started], acts := s.acts[w := InSandbox][Thread(c) := InSandbox])
    case CreateFailed(woken) =>
      s.(threads := Without(s.threads, c), active := s.active - 1, rts := s.rts[c := Dropped],
         acts := s.acts[w := SpawnFailed(c)], sleepers := Woken(s, woken))
    case DropChild =>
      s.(rts := s.rts[c := Freed], frees := s.frees + multiset{c}, acts := s.acts[w := InSandbox])
  }

  predicate ThreadEnabled(s: State, r: nat, ev: ThreadEv) {
    match ev
    case ThreadExit => Doing(s, Thread(r), InSandbox)
    case ThreadPause => Doing(s, Thread(r), InSandbox)
    case ThreadEnd(woken) => r in s.rts && s.rts[r].Exited? && Signals(s, woken)
  }

  function ThreadApply(s: State, r: nat, ev: ThreadEv): State
    requires ThreadEnabled(s, r, ev)
  {
    match ev
    case ThreadExit =>
      s.(threads := Without(s.threads, r), rts := s.rts[r := Exited], acts := s.acts - {Thread(r)})
    case ThreadPause => s.(rts := s.rts[r := Exited], acts := s.acts - {Thread(r)})
    case ThreadEnd(woken) =>
      s.(threads := Without(s.threads, r), rts := s.rts[r := Freed], frees := s.frees + multiset{r},
         active := s.active - 1, sleepers := Woken(s, woken))
  }

  predicate FreeEnabled(s: State, ev: FreeEv) {
    match ev
    // lfi_proc_free is called once, after the main thread has left the sandbox.
    case FreeCall => s.free.NotCalled? && Main !in s.acts
    case FreeSleep => s.free.Locked? && s.active != 0 && WFree !in s.sleepers
    case FreeSee => s.free.Locked? && s.active == 0 && WFree !in s.sleepers
    case FreeDecide => s.free.Counted?
    case FreeDestroy => s.free.Closing?
  }

  function FreeApply(s: State, ev: FreeEv): State
    requires FreeEnabled(s, ev)
  {
    match ev
    case FreeCall => s.(free := Locked)
    case FreeSleep => s.(sleepers := s.sleepers + {WFree})
    case FreeSee => s.(free := Counted)
    case FreeDecide => if s.attached > 0 then s.(pending := true, free := Deferred) else s.(free := Closing)
    case FreeDestroy => Destroy(s.(free := Done))
  }

  /** proc_destroy: frees whatever is on the threads list, then the process. */
  function Destroy(s: State): State {
    s.(destroys := s.destroys + 1, frees := s.frees + multiset(s.threads))
  }

  predicate Enabled(s: State, step: Step) {
    !s.aborted &&
    match step
    case HostStep(a, ev) => HostEnabled(s, a, ev)
    case CloneStep(w, c, ev) => CloneEnabled(s, w, c, ev)
    case ThreadStep(r, ev) => ThreadEnabled(s, r, ev)
    case FreeStep(ev) => FreeEnabled(s, ev)
    case MainLeave => Doing(s, Main, InSandbox)
    case SpuriousWake(x) => x in s.sleepers
    case Unrelated => true
  }

  function Apply(s: State, step: Step): State
    requires Enabled(s, step)
  {
    match step
    case HostStep(a, ev) => HostApply(s, a, ev)
    case CloneStep(w, c, ev) => CloneApply(s, w, c, ev)
    case ThreadStep(r, ev) => ThreadApply(s, r, ev)
    case FreeStep(ev) => FreeApply(s, ev)
    case MainLeave => s.(acts := s.acts - {Main})
    case SpuriousWake(x) => s.(sleepers := s.sleepers - {x})
    case Unrelated => s
  }

  /** Every step but these reads or writes memory of the process. */
  predicate TouchesProc(step: Step) { !step.Unrelated? && !(step.HostStep? && step.host.Abort?) }

  // ----- counting -----

  predicate IsCounted(pc: AttPc) { pc.Cloning? || pc.Running? || pc.Leaving? }

  predicate IsActive(pc: RtPc) { pc.Listed? || pc.Started? || pc.Exited? }

  function AttSet(m: map<nat, AttPc>): set<nat> { set a | a in m && IsCounted(m[a]) }

  function RtSet(m: map<nat, RtPc>): set<nat> { set r | r in m && IsActive(m[r]) }

  lemma AttUpdate(m: map<nat, AttPc>, a: nat, pc: AttPc)
    ensures |AttSet(m[a := pc])| ==
            |AttSet(m)| - (if a in AttSet(m) then 1 else 0) + (if IsCounted(pc) then 1 else 0)
  {
    assert AttSet(m[a := pc]) == if IsCounted(pc) then AttSet(m) - {a} + {a} else AttSet(m) - {a};
  }

  lemma RtUpdate(m: map<nat, RtPc>, r: nat, pc: RtPc)
    ensures |RtSet(m[r := pc])| ==
            |RtSet(m)| - (if r in RtSet(m) then 1 else 0) + (if IsActive(pc) then 1 else 0)
  {
    assert RtSet(m[r := pc]) == if IsActive(pc) then RtSet(m) - {r} + {r} else RtSet(m) - {r};
  }

  // ----- the invariant -----

  /** The two counters count what they are meant to count. */
  ghost predicate Counts(s: State) {
    s.attached == |AttSet(s.atts)| && s.active == |RtSet(s.rts)|
  }

  /** The threads inside the sandbox are the attached, started and main threads. */
  ghost predicate Inside(s: State) {
    && (forall a :: Host(a) in s.acts <==> a in s.atts && s.atts[a].Running?)
    && (forall r :: Thread(r) in s.acts <==> r in s.rts && s.rts[r].Started?)
  }

  /** The list holds active threads only, once each; a thread is freed exactly when it is Freed. */
  ghost predicate ListMatches(s: State) {
    && Distinct(s.threads)
    && (forall r :: r in s.threads ==> r in s.rts && IsActive(s.rts[r]))
    && (forall r :: r in s.rts && (s.rts[r].Listed? || s.rts[r].Started?) ==> r in s.threads)
    && (forall r :: s.frees[r] == if r in s.rts && s.rts[r].Freed? then 1 else 0)
  }

  /** A half-made thread is in the state its maker has brought it to. */
  ghost predicate Children(s: State) {
    && (forall w :: w in s.acts && s.acts[w].Spawning? ==> s.acts[w].child in s.rts && s.rts[s.acts[w].child].Listed?)
    && (forall w :: w in s.acts && s.acts[w].SpawnFailed? ==>
                      s.acts[w].child in s.rts && s.rts[s.acts[w].child].Dropped?)
  }

  /** Two threads make different threads. */
  ghost predicate Siblings(s: State) {
    forall v, w :: v in s.acts && w in s.acts && !s.acts[v].InSandbox? && !s.acts[w].InSandbox? && v != w ==>
                     s.acts[v].child != s.acts[w].child
  }

  /** A half-made thread belongs to the one thread that is making it. */
  ghost predicate Parents(s: State) { Children(s) && Siblings(s) }

  predicate IsCloser(pc: AttPc) { pc.Waiting? || pc.Finishing? }

  predicate IsEntered(pc: AttPc) { pc.Running? || pc.Leaving? }

  /** How far the free has come, and what that says about everyone else. */
  ghost predicate FreeProtocol(s: State) {
    && (!s.free.NotCalled? ==> Main !in s.acts)
    && (s.pending <==> s.free.Deferred?)
    && (s.free.Counted? && s.active > 0 ==> exists a :: a in s.atts && IsEntered(s.atts[a]))
    && (s.free.Closing? ==> s.attached == 0 && s.active == 0 && s.destroys == 0)
    && (s.free.Done? ==> s.attached == 0 && s.active == 0 && s.destroys == 1)
    && (s.free.NotCalled? || s.free.Locked? || s.free.Counted? ==> s.destroys == 0)
    && s.destroys <= 1
  }

  /** At most one detach finishes a deferred free, and unless cloning failed one does. */
  ghost predicate Closers(s: State) {
    && (forall a :: a in s.atts && IsCloser(s.atts[a]) ==> s.free.Deferred? && s.attached == 0 && s.destroys == 0)
    && (forall a, b :: a in s.atts && b in s.atts && IsCloser(s.atts[a]) && IsCloser(s.atts[b]) ==> a == b)
    && (forall a :: a in s.atts && s.atts[a].Finishing? ==> s.active == 0)
    && (s.free.Deferred? && s.destroys == 1 ==> s.attached == 0 && s.active == 0)
    && (s.free.Deferred? && s.attached == 0 && s.destroys == 0 ==>
          exists a :: a in s.atts && (IsCloser(s.atts[a]) || s.atts[a].Failed?))
  }

  /** A sleeper waits for threads that are still active, and there is at most one. */
  ghost predicate Sleep(s: State) {
    && (WFree in s.sleepers ==> s.free.Locked? && s.active > 0)
    && (forall a :: WHost(a) in s.sleepers ==> a in s.atts && s.atts[a].Waiting? && s.active > 0)
    && (forall x, y :: x in s.sleepers && y in s.sleepers ==> x == y)
  }

  ghost predicate Inv(s: State) {
    && Counts(s) && Inside(s) && ListMatches(s) && Parents(s)
    && FreeProtocol(s) && Closers(s) && Sleep(s)
  }

  lemma CountedHost(s: State, a: nat)
    requires Counts(s) && a in s.atts && IsCounted(s.atts[a])
    ensures s.attached > 0
  {
    assert a in AttSet(s.atts);
  }

  lemma ActiveThread(s: State, r: nat)
    requires Counts(s) && r in s.rts && IsActive(s.rts[r])
    ensures s.active > 0
  {
    assert r in RtSet(s.rts);
  }

  /** Whoever is inside the sandbox keeps the process in use. */
  lemma ActorInUse(s: State, w: Who)
    requires Inv(s) && w in s.acts
    ensures w == Main ==> s.free.NotCalled?
    ensures w.Host? ==> s.attached > 0 && w.a in s.atts && IsEntered(s.atts[w.a])
    ensures w.Thread? ==> s.active > 0
  {
    match w
    case Main =>
    case Host(a) => assert IsAt(s, a, Running); CountedHost(s, a);
    case Thread(r) => ActiveThread(s, r);
  }

  lemma NoneListed(s: State)
    requires Counts(s) && ListMatches(s) && s.active == 0
    ensures s.threads == []
  {
    if s.threads != [] {
      assert s.threads[0] in s.threads;
      ActiveThread(s, s.threads[0]);
    }
  }

  // ----- attachments -----

  lemma HostCounts(s: State, a: nat, ev: HostEv)
    requires Counts(s) && HostEnabled(s, a, ev) && Inside(s)
    ensures Counts(HostApply(s, a, ev))
  {
    var t := HostApply(s, a, ev);
    if a in t.atts {
      AttUpdate(s.atts, a, t.atts[a]);
    }
  }

  lemma HostInside(s: State, a: nat, ev: HostEv)
    requires Inside(s) && HostEnabled(s, a, ev)
    ensures Inside(HostApply(s, a, ev))
  {
  }

  lemma HostList(s: State, a: nat, ev: HostEv)
    requires Inv(s) && HostEnabled(s, a, ev)
    ensures ListMatches(HostApply(s, a, ev))
  {
    if ev.DetachDestroy? {
      NoneListed(s);
    }
  }

  lemma HostParents(s: State, a: nat, ev: HostEv)
    requires Parents(s) && Inside(s) && HostEnabled(s, a, ev)
    ensures Parents(HostApply(s, a, ev))
  {
  }

  lemma HostFree(s: State, a: nat, ev: HostEv)
    requires Inv(s) && HostEnabled(s, a, ev)
    ensures FreeProtocol(HostApply(s, a, ev))
  {
    if a in s.atts && IsCounted(s.atts[a]) {
      CountedHost(s, a);
    }
    if s.free.Counted? && s.active > 0 {
      var e :| e in s.atts && IsEntered(s.atts[e]);
      assert IsEntered(HostApply(s, a, ev).atts[e]);
    }
  }

  /** The detach that takes the last count of a deferred free becomes its closer. */
  lemma CountCloses(s: State, a: nat)
    requires Counts(s) && Closers(s) && FreeProtocol(s) && HostEnabled(s, a, DetachCount)
    ensures Closers(HostApply(s, a, DetachCount))
  {
    CountedHost(s, a);
    assert IsAt(HostApply(s, a, DetachCount), a, HostApply(s, a, DetachCount).atts[a]);
  }

  lemma FailCloses(s: State, a: nat)
    requires Counts(s) && Closers(s) && HostEnabled(s, a, AttachFail)
    ensures Closers(HostApply(s, a, AttachFail))
  {
    CountedHost(s, a);
    assert HostApply(s, a, AttachFail).atts[a].Failed?;
  }

  /** A step of an attachment that is none of the closers, and stays none. */
  lemma BystanderCloses(s: State, a: nat, ev: HostEv)
    requires Counts(s) && Inside(s) && Closers(s) && FreeProtocol(s) && HostEnabled(s, a, ev)
    requires ev.AttachStart? || ev.AttachDone? || ev.DetachFree? || ev.Abort?
    ensures Closers(HostApply(s, a, ev))
  {
    var t := HostApply(s, a, ev);
    if t.free.Deferred? && t.attached == 0 && t.destroys == 0 {
      var e :| e in s.atts && (IsCloser(s.atts[e]) || s.atts[e].Failed?);
      assert IsCloser(t.atts[e]) || t.atts[e].Failed?;
    }
  }

  /** A step of the closer. */
  lemma CloserCloses(s: State, a: nat, ev: HostEv)
    requires Closers(s) && HostEnabled(s, a, ev)
    requires ev.DetachSleep? || ev.DetachSee? || ev.DetachDestroy?
    ensures Closers(HostApply(s, a, ev))
  {
    assert IsCloser(s.atts[a]) && a in HostApply(s, a, ev).atts;
  }

  lemma HostClosers(s: State, a: nat, ev: HostEv)
    requires Counts(s) && Inside(s) && Closers(s) && FreeProtocol(s) && HostEnabled(s, a, ev)
    ensures Closers(HostApply(s, a, ev))
  {
    match ev
    case DetachCount => CountCloses(s, a);
    case AttachFail => FailCloses(s, a);
    case DetachSleep => CloserCloses(s, a, ev);
    case DetachSee => CloserCloses(s, a, ev);
    case DetachDestroy => CloserCloses(s, a, ev);
    case _ => BystanderCloses(s, a, ev);
  }

  lemma HostSleep(s: State, a: nat, ev: HostEv)
    requires Sleep(s) && Closers(s) && Counts(s) && Inside(s) && HostEnabled(s, a, ev)
    ensures Sleep(HostApply(s, a, ev))
  {
  }

  // ----- sys_clone -----

  lemma CloneCounts(s: State, w: Who, c: nat, ev: CloneEv)
    requires Counts(s) && Parents(s) && CloneEnabled(s, w, c, ev)
    ensures Counts(CloneApply(s, w, c, ev))
  {
    RtUpdate(s.rts, c, CloneApply(s, w, c, ev).rts[c]);
  }

  lemma CloneInside(s: State, w: Who, c: nat, ev: CloneEv)
    requires Inside(s) && Parents(s) && CloneEnabled(s, w, c, ev)
    ensures Inside(CloneApply(s, w, c, ev))
  {
  }

  lemma CloneList(s: State, w: Who, c: nat, ev: CloneEv)
    requires ListMatches(s) && Parents(s) && CloneEnabled(s, w, c, ev)
    ensures ListMatches(CloneApply(s, w, c, ev))
  {
    if ev.CreateFailed? {
      WithoutDistinct(s.threads, c);
    }
  }

  lemma CloneChildren(s: State, w: Who, c: nat, ev: CloneEv)
    requires Parents(s) && Inside(s) && CloneEnabled(s, w, c, ev)
    ensures Children(CloneApply(s, w, c, ev))
  {
  }

  lemma CloneParents(s: State, w: Who, c: nat, ev: CloneEv)
    requires Parents(s) && Inside(s) && CloneEnabled(s, w, c, ev)
    ensures Parents(CloneApply(s, w, c, ev))
  {
    CloneChildren(s, w, c, ev);
  }

  lemma CloneProtocol(s: State, w: Who, c: nat, ev: CloneEv)
    requires Inv(s) && CloneEnabled(s, w, c, ev)
    ensures FreeProtocol(CloneApply(s, w, c, ev)) && Closers(CloneApply(s, w, c, ev))
    ensures Sleep(CloneApply(s, w, c, ev))
  {
    ActorInUse(s, w);
  }

  // ----- runtime threads -----

  lemma ThreadCounts(s: State, r: nat, ev: ThreadEv)
    requires Inv(s) && ThreadEnabled(s, r, ev)
    ensures Counts(ThreadApply(s, r, ev))
  {
    RtUpdate(s.rts, r, ThreadApply(s, r, ev).rts[r]);
  }

  lemma ThreadInside(s: State, r: nat, ev: ThreadEv)
    requires Inside(s) && Parents(s) && ThreadEnabled(s, r, ev)
    ensures Inside(ThreadApply(s, r, ev)) && Parents(ThreadApply(s, r, ev))
  {
  }

  lemma ThreadList(s: State, r: nat, ev: ThreadEv)
    requires ListMatches(s) && Inside(s) && ThreadEnabled(s, r, ev)
    ensures ListMatches(ThreadApply(s, r, ev))
  {
    WithoutDistinct(s.threads, r);
  }

  lemma ThreadProtocol(s: State, r: nat, ev: ThreadEv)
    requires Inv(s) && ThreadEnabled(s, r, ev)
    ensures FreeProtocol(ThreadApply(s, r, ev)) && Closers(ThreadApply(s, r, ev)) && Sleep(ThreadApply(s, r, ev))
  {
    ActiveThread(s, r);
  }

  // ----- lfi_proc_free -----

  lemma FreeCounts(s: State, ev: FreeEv)
    requires Counts(s) && FreeEnabled(s, ev)
    ensures Counts(FreeApply(s, ev))
  {
  }

  lemma FreeInside(s: State, ev: FreeEv)
    requires Inside(s) && FreeEnabled(s, ev)
    ensures Inside(FreeApply(s, ev))
  {
  }

  lemma FreeChildren(s: State, ev: FreeEv)
    requires Children(s) && FreeEnabled(s, ev)
    ensures Children(FreeApply(s, ev))
  {
  }

  lemma FreeSiblings(s: State, ev: FreeEv)
    requires Siblings(s) && FreeEnabled(s, ev)
    ensures Siblings(FreeApply(s, ev))
  {
  }

  lemma FreeList(s: State, ev: FreeEv)
    requires Inv(s) && FreeEnabled(s, ev)
    ensures ListMatches(FreeApply(s, ev))
  {
    if ev.FreeDestroy? {
      NoneListed(s);
    }
  }

  lemma FreeFree(s: State, ev: FreeEv)
    requires Inv(s) && FreeEnabled(s, ev)
    ensures FreeProtocol(FreeApply(s, ev)) && Sleep(FreeApply(s, ev))
  {
    if ev.FreeDecide? && s.active > 0 {
      var e :| e in s.atts && IsEntered(s.atts[e]);
      CountedHost(s, e);
    }
  }

  lemma FreeClosers(s: State, ev: FreeEv)
    requires Inv(s) && FreeEnabled(s, ev)
    ensures Closers(FreeApply(s, ev))
  {
  }

  lemma HostKeeps(s: State, a: nat, ev: HostEv)
    requires Inv(s) && HostEnabled(s, a, ev)
    ensures Inv(HostApply(s, a, ev))
  {
    HostCounts(s, a, ev); HostInside(s, a, ev); HostList(s, a, ev); HostParents(s, a, ev);
    HostFree(s, a, ev); HostClosers(s, a, ev); HostSleep(s, a, ev);
  }

  lemma CloneKeeps(s: State, w: Who, c: nat, ev: CloneEv)
    requires Inv(s) && CloneEnabled(s, w, c, ev)
    ensures Inv(CloneApply(s, w, c, ev))
  {
    CloneCounts(s, w, c, ev); CloneInside(s, w, c, ev); CloneList(s, w, c, ev);
    CloneParents(s, w, c, ev); CloneProtocol(s, w, c, ev);
  }

  lemma ThreadKeeps(s: State, r: nat, ev: ThreadEv)
    requires Inv(s) && ThreadEnabled(s, r, ev)
    ensures Inv(ThreadApply(s, r, ev))
  {
    ThreadCounts(s, r, ev); ThreadInside(s, r, ev); ThreadList(s, r, ev); ThreadProtocol(s, r, ev);
  }

  lemma FreeKeeps(s: State, ev: FreeEv)
    requires Inv(s) && FreeEnabled(s, ev)
    ensures Inv(FreeApply(s, ev))
  {
    FreeCounts(s, ev); FreeInside(s, ev); FreeChildren(s, ev); FreeSiblings(s, ev);
    FreeList(s, ev); FreeFree(s, ev); FreeClosers(s, ev);
  }

  /** Every step keeps the invariant. */
  lemma StepKeeps(s: State, step: Step)
    requires Inv(s) && Enabled(s, step)
    ensures Inv(Apply(s, step))
  {
    match step
    case HostStep(a, ev) => HostKeeps(s, a, ev);
    case CloneStep(w, c, ev) => CloneKeeps(s, w, c, ev);
    case ThreadStep(r, ev) => ThreadKeeps(s, r, ev);
    case FreeStep(ev) => FreeKeeps(s, ev);
    case MainLeave =>
    case SpuriousWake(x) =>
    case Unrelated =>
  }

  // ----- whole runs -----

  ghost predicate IsRun(s: State, steps: seq<Step>)
    decreases |steps|
  {
    steps == [] || (Enabled(s, steps[0]) && IsRun(Apply(s, steps[0]), steps[1..]))
  }

  ghost function Final(s: State, steps: seq<Step>): State
    requires IsRun(s, steps)
    decreases |steps|
  {
    if steps == [] then s else Final(Apply(s, steps[0]), steps[1..])
  }

  lemma {:induction false} RunKeeps(s: State, steps: seq<Step>)
    requires Inv(s) && IsRun(s, steps)
    ensures Inv(Final(s, steps))
    decreases |steps|
  {
    if steps != [] {
      StepKeeps(s, steps[0]);
      RunKeeps(Apply(s, steps[0]), steps[1..]);
    }
  }

  predicate Destroys(step: Step) { step == FreeStep(FreeDestroy) || (step.HostStep? && step.host.DetachDestroy?) }

  /** In every run proc_destroy completes at most once, and it starts only when nobody is attached, no
      runtime thread is active and the threads list is empty. */
  lemma DestroyedOnce(steps: seq<Step>, step: Step)
    requires IsRun(Init(), steps)
    ensures Final(Init(), steps).destroys <= 1
    ensures var s := Final(Init(), steps);
            Enabled(s, step) && Destroys(step) ==>
              s.attached == 0 && s.active == 0 && s.threads == [] && s.destroys == 0
  {
    RunKeeps(Init(), steps);
    hide Final, IsRun;
    var s := Final(Init(), steps);
    if Enabled(s, step) && Destroys(step) {
      DestroyIsLast(s, step);
    }
  }

  lemma DestroyIsLast(s: State, step: Step)
    requires Inv(s) && Enabled(s, step) && Destroys(step)
    ensures s.attached == 0 && s.active == 0 && s.threads == [] && s.destroys == 0
  {
    hide Parents, Inside, Sleep;
    match step
    case HostStep(a, ev) => NoneListed(s);
    case _ => NoneListed(s);
  }

  /** proc_destroy takes no lock and needs none: in every run, when someone is about to destroy the
      process, no other step that anyone can take touches it. */
  lemma DestroyIsAlone(steps: seq<Step>, d: Step, step: Step)
    requires IsRun(Init(), steps)
    requires var s := Final(Init(), steps); Enabled(s, d) && Destroys(d) && Enabled(s, step) && step != d
    ensures !TouchesProc(step)
  {
    RunKeeps(Init(), steps);
    hide Final, IsRun, TouchesProc, Enabled, Destroys;
    OthersDoNotTouch(Final(Init(), steps), d, step);
  }

  lemma OthersDoNotTouch(s: State, d: Step, step: Step)
    requires Inv(s) && Enabled(s, d) && Destroys(d) && Enabled(s, step) && step != d
    ensures !TouchesProc(step)
  {
    DestroyIsLast(s, d);
    hide Parents, ListMatches;
    match step
    case HostStep(a, ev) =>
      if a in s.atts && IsCounted(s.atts[a]) {
        CountedHost(s, a);
      }
    case CloneStep(w, c, ev) => ActorInUse(s, w);
    case ThreadStep(r, ev) => ActiveThread(s, r);
    case _ =>
  }

  /** Once the process is destroyed, no step that anyone can take touches it. */
  lemma NoUseAfterDestroy(steps: seq<Step>, step: Step)
    requires IsRun(Init(), steps)
    requires Final(Init(), steps).destroys > 0 && Enabled(Final(Init(), steps), step)
    ensures !TouchesProc(step)
  {
    RunKeeps(Init(), steps);
    hide Final, IsRun, TouchesProc, Enabled;
    NothingLeftToTouch(Final(Init(), steps), step);
  }

  lemma NothingLeftToTouch(s: State, step: Step)
    requires Inv(s) && s.destroys > 0 && Enabled(s, step)
    ensures !TouchesProc(step)
  {
    hide Parents, ListMatches;
    match step
    case HostStep(a, ev) =>
      if a in s.atts && IsCounted(s.atts[a]) {
        CountedHost(s, a);
      }
    case CloneStep(w, c, ev) => ActorInUse(s, w);
    case ThreadStep(r, ev) => ActiveThread(s, r);
    case _ =>
  }

  /** The threads list never outgrows active_threads, and no runtime thread is freed twice. */
  lemma ListBounded(steps: seq<Step>)
    requires IsRun(Init(), steps)
    ensures var s := Final(Init(), steps); |s.threads| <= s.active && forall r :: s.frees[r] <= 1
  {
    RunKeeps(Init(), steps);
    var s := Final(Init(), steps);
    DistinctBound(s.threads, RtSet(s.rts));
  }

  lemma {:induction false} DistinctBound(t: seq<nat>, b: set<nat>)
    requires Distinct(t) && forall i :: 0 <= i < |t| ==> t[i] in b
    ensures |t| <= |b|
  {
    if t != [] {
      forall i | 0 <= i < |t[1..]| ensures t[1..][i] in b - {t[0]} {
        assert t[1..][i] == t[i + 1];
      }
      DistinctBound(t[1..], b - {t[0]});
    }
  }

  /** Everyone has left: each host thread is detached, each runtime thread is freed, and the call of
      lfi_proc_free is over. */
  ghost predicate Over(s: State) {
    && !s.aborted
    && (forall a :: a in s.atts ==> s.atts[a].Detached?)
    && (forall r :: r in s.rts ==> s.rts[r].Freed?)
    && (s.free.Deferred? || s.free.Done?)
  }

  /** A run in which everyone leaves ends with exactly one destroy, and each runtime thread freed once. */
  lemma EndsDestroyed(steps: seq<Step>)
    requires IsRun(Init(), steps) && Over(Final(Init(), steps))
    ensures Final(Init(), steps).destroys == 1
    ensures forall r :: r in Final(Init(), steps).rts ==> Final(Init(), steps).frees[r] == 1
  {
    RunKeeps(Init(), steps);
    hide Final, IsRun;
    OverIsDestroyed(Final(Init(), steps));
  }

  lemma OverIsDestroyed(s: State)
    requires Inv(s) && Over(s)
    ensures s.destroys == 1 && forall r :: r in s.rts ==> s.frees[r] == 1
  {
    hide Inside, Parents, Sleep;
    assert AttSet(s.atts) == {};
  }

  /** Nobody is left but whoever is to destroy the process. */
  ghost predicate OnlyCloserLeft(s: State) {
    && !s.aborted && !s.free.NotCalled?
    && (forall a :: a in s.atts ==> s.atts[a].Detached? || IsCloser(s.atts[a]))
    && (forall r :: r in s.rts ==> s.rts[r].Freed?)
  }

  lemma QuietCounters(s: State)
    requires Inv(s) && OnlyCloserLeft(s)
    ensures s.attached == 0 && s.active == 0 && s.sleepers == {}
  {
    assert AttSet(s.atts) == {};
    assert RtSet(s.rts) == {};
    if x :| x in s.sleepers {
      match x
      case WFree =>
      case WHost(a) =>
    }
  }

  lemma FreeFinishes(s: State) returns (more: seq<Step>)
    requires Inv(s) && OnlyCloserLeft(s) && (s.free.Locked? || s.free.Counted? || s.free.Closing?)
    ensures IsRun(s, more) && |more| <= 3 && Final(s, more).destroys == 1
  {
    QuietCounters(s);
    if s.free.Locked? {
      more := [FreeStep(FreeSee), FreeStep(FreeDecide), FreeStep(FreeDestroy)];
      RunThree(s, more);
    } else if s.free.Counted? {
      more := [FreeStep(FreeDecide), FreeStep(FreeDestroy)];
      RunTwo(s, more);
    } else {
      more := [FreeStep(FreeDestroy)];
      RunOne(s, more);
    }
  }

  lemma DetachFinishes(s: State) returns (more: seq<Step>)
    requires Inv(s) && OnlyCloserLeft(s) && s.free.Deferred? && s.destroys == 0
    ensures IsRun(s, more) && |more| <= 3 && Final(s, more).destroys == 1
  {
    QuietCounters(s);
    var a :| a in s.atts && (IsCloser(s.atts[a]) || s.atts[a].Failed?);
    if s.atts[a].Waiting? {
      more := [HostStep(a, DetachSee), HostStep(a, DetachDestroy)];
      RunTwo(s, more);
    } else {
      more := [HostStep(a, DetachDestroy)];
      RunOne(s, more);
    }
  }

  /** No wakeup is lost: once the others have left, whoever is to destroy the process is not asleep, and
      at most three more steps destroy it. */
  lemma CanFinish(steps: seq<Step>) returns (more: seq<Step>)
    requires IsRun(Init(), steps) && OnlyCloserLeft(Final(Init(), steps))
    ensures IsRun(Final(Init(), steps), more) && |more| <= 3
    ensures Final(Final(Init(), steps), more).destroys == 1
  {
    RunKeeps(Init(), steps);
    var s := Final(Init(), steps);
    if s.destroys == 1 {
      more := [];
    } else if s.free.Deferred? {
      more := DetachFinishes(s);
    } else {
      more := FreeFinishes(s);
    }
  }

  lemma RunOne(s: State, steps: seq<Step>)
    requires |steps| == 1 && Enabled(s, steps[0])
    ensures IsRun(s, steps) && Final(s, steps) == Apply(s, steps[0])
  {
    assert steps[1..] == [];
  }

  lemma RunTwo(s: State, steps: seq<Step>)
    requires |steps| == 2 && Enabled(s, steps[0]) && Enabled(Apply(s, steps[0]), steps[1])
    ensures IsRun(s, steps) && Final(s, steps) == Apply(Apply(s, steps[0]), steps[1])
  {
    assert steps[1..] == [steps[1]];
    RunOne(Apply(s, steps[0]), steps[1..]);
  }

  lemma RunThree(s: State, steps: seq<Step>)
    requires |steps| == 3 && Enabled(s, steps[0]) && Enabled(Apply(s, steps[0]), steps[1])
    requires Enabled(Apply(Apply(s, steps[0]), steps[1]), steps[2])
    ensures IsRun(s, steps) && Final(s, steps) == Apply(Apply(Apply(s, steps[0]), steps[1]), steps[2])
  {
    assert steps[1..] == [steps[1], steps[2]];
    RunTwo(Apply(s, steps[0]), steps[1..]);
  }
}
