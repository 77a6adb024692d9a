/** The cached %gs base of core/arch_asm.h: every thread has one %gs register and one cache slot, and
    every context points at the slot of the thread it was last entered on. */
module GsCache {
  type Thread = nat
  type Ctx = nat

  /** A thread's nesting, innermost last: sandbox code of a context, or host code called from it. */
  datatype Frame =
    | Sandbox(ctx: Ctx, run: bool)
    | CallbackCode
    | SyscallCode

  datatype State = State(
    gs: map<Thread, int>,
    slot: map<Thread, int>,
    cache: map<Ctx, Thread>,
    base: map<Ctx, int>,
    nest: map<Thread, seq<Frame>>)

  /** lfi_trampoline, lfi_ctx_run, the calls out of the sandbox and the ways back; New is lfi_ctx_new. A
      system call handler may end in lfi_ctx_exit (Exit) or, on an attached thread, in lfi_ret_end (HostExit). */
  datatype Step =
    | Start(t: Thread, gs: int)
    | New(t: Thread, c: Ctx, base: int)
    | Invoke(t: Thread, c: Ctx)
    | Run(t: Thread, c: Ctx)
    | Callback(t: Thread)
    | CallbackReturn(t: Thread)
    | CallbackAbort(t: Thread)
    | Syscall(t: Thread)
    | SyscallReturn(t: Thread)
    | Ret(t: Thread)
    | Exit(t: Thread)
    | HostExit(t: Thread)

  predicate InHost(fs: seq<Frame>) { fs == [] || !fs[|fs| - 1].Sandbox? }

  predicate Top(fs: seq<Frame>, f: Frame) { fs != [] && fs[|fs| - 1] == f }

  /** Host code of the given kind, called from sandbox code. */
  predicate CalledOut(fs: seq<Frame>, f: Frame) { Top(fs, f) && |fs| > 1 && fs[|fs| - 2].Sandbox? }

  ghost predicate Nested(fs: seq<Frame>, c: Ctx) { exists i :: 0 <= i < |fs| && fs[i].Sandbox? && fs[i].ctx == c }

  /** No other thread is inside c. */
  ghost predicate Free(s: State, t: Thread, c: Ctx) {
    forall u :: u in s.nest && u != t ==> !Nested(s.nest[u], c)
  }

  predicate Known(s: State, t: Thread) { t in s.nest && t in s.gs && t in s.slot }

  predicate KnownCtx(s: State, c: Ctx) { c in s.cache && c in s.base && s.cache[c] in s.slot }

  /** What a step needs, but for who else is inside the context. */
  predicate Possible(s: State, step: Step) {
    match step
    case Start(t, _) => t !in s.nest
    case New(t, c, base) => Known(s, t) && InHost(s.nest[t]) && c !in s.cache && base != 0
    case Invoke(t, c) => Known(s, t) && InHost(s.nest[t]) && KnownCtx(s, c)
    case Run(t, c) => Known(s, t) && InHost(s.nest[t]) && KnownCtx(s, c)
    case Callback(t) => Known(s, t) && !InHost(s.nest[t])
    case Syscall(t) => Known(s, t) && !InHost(s.nest[t])
    case CallbackReturn(t) => Known(s, t) && CalledOut(s.nest[t], CallbackCode) && KnownCtx(s, Caller(s.nest[t]))
    case CallbackAbort(t) => Known(s, t) && CalledOut(s.nest[t], CallbackCode) && !s.nest[t][|s.nest[t]| - 2].run
    case SyscallReturn(t) => Known(s, t) && CalledOut(s.nest[t], SyscallCode) && KnownCtx(s, Caller(s.nest[t]))
    case Ret(t) => Known(s, t) && !InHost(s.nest[t]) && !s.nest[t][|s.nest[t]| - 1].run
    case Exit(t) => Known(s, t) && CalledOut(s.nest[t], SyscallCode) && s.nest[t][|s.nest[t]| - 2].run
    case HostExit(t) => Known(s, t) && CalledOut(s.nest[t], SyscallCode) && !s.nest[t][|s.nest[t]| - 2].run
  }

  /** One thread runs a context at a time. */
  ghost predicate Enabled(s: State, step: Step) {
    && Possible(s, step)
    && (step.Invoke? || step.Run? ==> Free(s, step.t, step.c))
  }

  function Caller(fs: seq<Frame>): Ctx
    requires |fs| > 1 && fs[|fs| - 2].Sandbox?
  {
    fs[|fs| - 2].ctx
  }

  function Drop(fs: seq<Frame>, n: nat): seq<Frame>
    requires n <= |fs|
  {
    fs[..|fs| - n]
  }

  /** seg_gs_set on thread t for context c. */
  function SegGsSet(s: State, t: Thread, c: Ctx): State
    requires KnownCtx(s, c)
  {
    if s.slot[s.cache[c]] == s.base[c] then s
    else s.(gs := s.gs[t := s.base[c]], slot := s.slot[s.cache[c] := s.base[c]])
  }

  /** Thread t enters context c. */
  function Entered(s: State, t: Thread, c: Ctx, run: bool): State
    requires Known(s, t) && KnownCtx(s, c)
  {
    SegGsSet(s.(cache := s.cache[c := t]), t, c).(nest := s.nest[t := s.nest[t] + [Sandbox(c, run)]])
  }

  function Apply(s: State, step: Step): State
    requires Possible(s, step)
  {
    match step
    case Start(t, gs) => s.(gs := s.gs[t := gs], slot := s.slot[t := 0], nest := s.nest[t := []])
    case New(t, c, base) => s.(cache := s.cache[c := t], base := s.base[c := base])
    case Invoke(t, c) => Entered(s, t, c, false)
    case Run(t, c) => Entered(s, t, c, true)
    case Callback(t) => s.(nest := s.nest[t := s.nest[t] + [CallbackCode]])
    case Syscall(t) => s.(nest := s.nest[t := s.nest[t] + [SyscallCode]])
    case CallbackReturn(t) => SegGsSet(s, t, Caller(s.nest[t])).(nest := s.nest[t := Drop(s.nest[t], 1)])
    case SyscallReturn(t) => SegGsSet(s, t, Caller(s.nest[t])).(nest := s.nest[t := Drop(s.nest[t], 1)])
    case CallbackAbort(t) => s.(nest := s.nest[t := Drop(s.nest[t], 2)])
    case Ret(t) => s.(nest := s.nest[t := Drop(s.nest[t], 1)])
    case Exit(t) => s.(nest := s.nest[t := Drop(s.nest[t], 2)])
    case HostExit(t) => s.(nest := s.nest[t := Drop(s.nest[t], 2)])
  }

  // ----- the invariant -----

  /** A slot in use tells what its thread's %gs holds. */
  ghost predicate SlotsTrue(s: State) {
    forall t :: t in s.nest ==> t in s.gs && t in s.slot && (s.slot[t] != 0 ==> s.gs[t] == s.slot[t])
  }

  /** A context a thread is inside of points at that thread's slot. */
  ghost predicate Bound(s: State) {
    && (forall c :: c in s.cache ==> c in s.base && s.base[c] != 0 && s.cache[c] in s.nest)
    && (forall t, i :: t in s.nest && 0 <= i < |s.nest[t]| && s.nest[t][i].Sandbox? ==>
                         s.nest[t][i].ctx in s.cache && s.cache[s.nest[t][i].ctx] == t)
  }

  /** Whenever sandbox code executes, %gs holds the base of its context's box. */
  ghost predicate GsRight(s: State) {
    forall t :: t in s.nest && !InHost(s.nest[t]) ==>
      s.nest[t][|s.nest[t]| - 1].ctx in s.base && t in s.gs && s.gs[t] == s.base[s.nest[t][|s.nest[t]| - 1].ctx]
  }

  ghost predicate Inv(s: State) { SlotsTrue(s) && Bound(s) && GsRight(s) }

  function Empty(): State { State(map[], map[], map[], map[], map[]) }

  /** What seg_gs_set does for a context that points at the slot of the running thread. */
  lemma SegGsSetLoads(s: State, t: Thread, c: Ctx)
    requires SlotsTrue(s) && t in s.nest && KnownCtx(s, c) && s.cache[c] == t && s.base[c] != 0
    ensures var r := SegGsSet(s, t, c);
            && SlotsTrue(r) && t in r.gs && r.gs[t] == s.base[c]
            && forall u :: u in s.gs && u != t ==> u in r.gs && r.gs[u] == s.gs[u]
  {
  }

  lemma EnterKeeps(s: State, t: Thread, c: Ctx, run: bool)
    requires Inv(s) && Known(s, t) && InHost(s.nest[t]) && KnownCtx(s, c) && Free(s, t, c)
    ensures Inv(Entered(s, t, c, run))
  {
    EnterLoads(s, t, c, run);
    EnterBound(s, t, c, run);
    var r := Entered(s, t, c, run);
    SegGsSetKeeps(s.(cache := s.cache[c := t]), t, c);
    BoundFields(s.(cache := s.cache[c := t], nest := s.nest[t := s.nest[t] + [Sandbox(c, run)]]), r.gs, r.slot);
    hide SlotsTrue, Bound, GsRight, SegGsSet;
  }

  lemma EnterLoads(s: State, t: Thread, c: Ctx, run: bool)
    requires SlotsTrue(s) && GsRight(s) && Known(s, t) && KnownCtx(s, c) && s.base[c] != 0
    ensures SlotsTrue(Entered(s, t, c, run)) && GsRight(Entered(s, t, c, run))
  {
    var b := s.(cache := s.cache[c := t]);
    SegGsSetLoads(b, t, c);
    SegGsSetKeeps(b, t, c);
    hide SegGsSet;
  }

  /** Being bound does not depend on the registers and slots. */
  lemma BoundFields(s: State, gs: map<Thread, int>, slot: map<Thread, int>)
    requires Bound(s)
    ensures Bound(s.(gs := gs, slot := slot))
  {
  }

  /** The context entered is bound to the thread, and nobody else's binding changes. */
  lemma EnterBound(s: State, t: Thread, c: Ctx, run: bool)
    requires Bound(s) && t in s.nest && c in s.cache && Free(s, t, c)
    ensures Bound(s.(cache := s.cache[c := t], nest := s.nest[t := s.nest[t] + [Sandbox(c, run)]]))
  {
    var r := s.(cache := s.cache[c := t], nest := s.nest[t := s.nest[t] + [Sandbox(c, run)]]);
    forall u, i | u in r.nest && 0 <= i < |r.nest[u]| && r.nest[u][i].Sandbox?
      ensures r.nest[u][i].ctx in r.cache && r.cache[r.nest[u][i].ctx] == u
    {
      if u != t {
        assert !Nested(s.nest[u], c);
      } else if i < |s.nest[t]| {
        assert r.nest[u][i] == s.nest[t][i];
      }
    }
  }

  lemma SegGsSetKeeps(s: State, t: Thread, c: Ctx)
    requires KnownCtx(s, c)
    ensures SegGsSet(s, t, c).cache == s.cache && SegGsSet(s, t, c).base == s.base && SegGsSet(s, t, c).nest == s.nest
  {
  }

  /** Popping frames of one thread down to host code. */
  lemma LeaveKeeps(s: State, t: Thread, n: nat)
    requires Inv(s) && Known(s, t) && n <= |s.nest[t]| && InHost(Drop(s.nest[t], n))
    ensures Inv(s.(nest := s.nest[t := Drop(s.nest[t], n)]))
  {
  }

  /** Coming back into the sandbox code below. */
  lemma ReturnKeeps(s: State, t: Thread)
    requires Inv(s) && Known(s, t) && |s.nest[t]| > 1 && s.nest[t][|s.nest[t]| - 2].Sandbox?
    requires KnownCtx(s, Caller(s.nest[t]))
    ensures Inv(SegGsSet(s, t, Caller(s.nest[t])).(nest := s.nest[t := Drop(s.nest[t], 1)]))
  {
    var c := Caller(s.nest[t]);
    SegGsSetLoads(s, t, c);
    SegGsSetKeeps(s, t, c);
    hide SegGsSet;
  }

  /** Nesting alternates, so that what is below host or sandbox code is the other kind. */
  ghost predicate Alternates(fs: seq<Frame>) {
    forall i :: 0 <= i < |fs| ==> (fs[i].Sandbox? <==> i % 2 == 0)
  }

  ghost predicate NestOk(s: State) { forall t :: t in s.nest ==> Alternates(s.nest[t]) }

  lemma StartKeeps(s: State, t: Thread, gs: int)
    requires Inv(s) && Possible(s, Start(t, gs))
    ensures Inv(Apply(s, Start(t, gs)))
  {
  }

  lemma NewKeeps(s: State, t: Thread, c: Ctx, base: int)
    requires Inv(s) && Possible(s, New(t, c, base))
    ensures Inv(Apply(s, New(t, c, base)))
  {
  }

  lemma CallOutKeeps(s: State, t: Thread, f: Frame)
    requires Inv(s) && Known(s, t) && !f.Sandbox?
    ensures Inv(s.(nest := s.nest[t := s.nest[t] + [f]]))
  {
  }

  lemma NestKeeps(s: State, step: Step)
    requires NestOk(s) && Possible(s, step)
    ensures NestOk(Apply(s, step))
  {
  }

  lemma StepKeeps(s: State, step: Step)
    requires Inv(s) && NestOk(s) && Enabled(s, step)
    ensures Inv(Apply(s, step)) && NestOk(Apply(s, step))
  {
    NestKeeps(s, step);
    hide SlotsTrue, Bound, GsRight, SegGsSet;
    match step
    case Invoke(t, c) => EnterKeeps(s, t, c, false);
    case Run(t, c) => EnterKeeps(s, t, c, true);
    case CallbackReturn(t) => ReturnKeeps(s, t);
    case SyscallReturn(t) => ReturnKeeps(s, t);
    case CallbackAbort(t) => LeaveKeeps(s, t, 2);
    case Exit(t) => LeaveKeeps(s, t, 2);
    case HostExit(t) => LeaveKeeps(s, t, 2);
    case Ret(t) => LeaveKeeps(s, t, 1);
    case Start(t, gs) => StartKeeps(s, t, gs);
    case New(t, c, base) => NewKeeps(s, t, c, base);
    case Callback(t) => CallOutKeeps(s, t, CallbackCode);
    case Syscall(t) => CallOutKeeps(s, t, SyscallCode);
  }

  ghost predicate IsRun(s: State, steps: seq<Step>)
    decreases |steps|
  {
    steps == [] || (Enabled(s, steps[0]) && IsRun(Apply(s, steps[0]), steps[1..]))
  }

  ghost function Final(s: State, steps: seq<Step>): State
    requires IsRun(s, steps)
    decreases |steps|
  {
    if steps == [] then s else Final(Apply(s, steps[0]), steps[1..])
  }

  lemma {:induction false} RunKeeps(s: State, steps: seq<Step>)
    requires Inv(s) && NestOk(s) && IsRun(s, steps)
    ensures Inv(Final(s, steps)) && NestOk(Final(s, steps))
    decreases |steps|
  {
    if steps != [] {
      StepKeeps(s, steps[0]);
      RunKeeps(Apply(s, steps[0]), steps[1..]);
    }
  }

  /** In every run over any threads, contexts and boxes, nested to any depth, %gs is the base of the
      running context's box whenever sandbox code executes. */
  lemma GsAlwaysRight(steps: seq<Step>)
    requires IsRun(Empty(), steps)
    ensures GsRight(Final(Empty(), steps))
  {
    RunKeeps(Empty(), steps);
  }

  // ----- nobody gets stuck -----

  /** Host code can enter any context no other thread is in. */
  ghost predicate CanEnter(s: State, t: Thread) {
    forall c :: c in s.cache && Free(s, t, c) ==> Enabled(s, Invoke(t, c)) && Enabled(s, Run(t, c))
  }

  /** Sandbox code can call out, and return if it was invoked. */
  ghost predicate CanCall(s: State, t: Thread, run: bool) {
    Enabled(s, Callback(t)) && Enabled(s, Syscall(t)) && (!run ==> Enabled(s, Ret(t)))
  }

  /** Host code called from the sandbox can go back into it, and leave it the ways there are. */
  ghost predicate CanGoBack(s: State, t: Thread, f: Frame, run: bool) {
    match f
    case CallbackCode => Enabled(s, CallbackReturn(t)) && (!run ==> Enabled(s, CallbackAbort(t)))
    case SyscallCode => Enabled(s, SyscallReturn(t)) && Enabled(s, if run then Exit(t) else HostExit(t))
    case _ => false
  }

  /** In every state of every run, to any depth and on any thread, every way on and every way back is open. */
  lemma NobodyStuck(steps: seq<Step>, t: Thread)
    requires IsRun(Empty(), steps) && t in Final(Empty(), steps).nest
    ensures var s := Final(Empty(), steps);
            var fs := s.nest[t];
            var n := |fs|;
            if n == 0 then CanEnter(s, t)
            else if fs[n - 1].Sandbox? then CanCall(s, t, fs[n - 1].run)
            else CanEnter(s, t) && n > 1 && fs[n - 2].Sandbox? && CanGoBack(s, t, fs[n - 1], fs[n - 2].run)
  {
    RunKeeps(Empty(), steps);
    hide IsRun, Final;
    WaysOpen(Final(Empty(), steps), t);
  }

  lemma EnterOpen(s: State, t: Thread)
    requires SlotsTrue(s) && Bound(s) && t in s.nest && InHost(s.nest[t])
    ensures CanEnter(s, t)
  {
    hide Free, InHost;
  }

  lemma CallOpen(s: State, t: Thread)
    requires SlotsTrue(s) && t in s.nest && !InHost(s.nest[t])
    ensures CanCall(s, t, s.nest[t][|s.nest[t]| - 1].run)
  {
  }

  lemma CallerKnown(s: State, t: Thread)
    requires SlotsTrue(s) && Bound(s) && NestOk(s) && t in s.nest && s.nest[t] != [] && InHost(s.nest[t])
    ensures |s.nest[t]| > 1 && s.nest[t][|s.nest[t]| - 2].Sandbox? && KnownCtx(s, Caller(s.nest[t]))
  {
    assert Alternates(s.nest[t]);
  }

  lemma BackOpen(s: State, t: Thread)
    requires Known(s, t) && |s.nest[t]| > 1 && InHost(s.nest[t])
    requires s.nest[t][|s.nest[t]| - 2].Sandbox? && KnownCtx(s, Caller(s.nest[t]))
    ensures CanGoBack(s, t, s.nest[t][|s.nest[t]| - 1], s.nest[t][|s.nest[t]| - 2].run)
  {
  }

  lemma WaysOpen(s: State, t: Thread)
    requires Inv(s) && NestOk(s) && t in s.nest
    ensures InHost(s.nest[t]) ==> CanEnter(s, t)
    ensures !InHost(s.nest[t]) ==> CanCall(s, t, s.nest[t][|s.nest[t]| - 1].run)
    ensures var fs := s.nest[t];
            var n := |fs|;
            n > 0 && InHost(fs) ==> n > 1 && fs[n - 2].Sandbox? && CanGoBack(s, t, fs[n - 1], fs[n - 2].run)
  {
    hide Bound, GsRight, NestOk, CanEnter, CanCall, CanGoBack, KnownCtx;
    if InHost(s.nest[t]) {
      EnterOpen(s, t);
      if s.nest[t] != [] {
        CallerKnown(s, t);
        BackOpen(s, t);
      }
    } else {
      CallOpen(s, t);
    }
  }

  // ----- contexts shared between threads -----

  ghost predicate PossibleRun(s: State, steps: seq<Step>)
    decreases |steps|
  {
    steps == [] || (Possible(s, steps[0]) && PossibleRun(Apply(s, steps[0]), steps[1..]))
  }

  ghost function PossibleFinal(s: State, steps: seq<Step>): State
    requires PossibleRun(s, steps)
    decreases |steps|
  {
    if steps == [] then s else PossibleFinal(Apply(s, steps[0]), steps[1..])
  }

  /** seg_gs_set leaves the base of c in the register of t: it writes it, or it is there already. */
  predicate Loads(s: State, t: Thread, c: Ctx)
    requires Known(s, t) && KnownCtx(s, c)
  {
    s.slot[s.cache[c]] != s.base[c] || s.gs[t] == s.base[c]
  }

  /** The same for the execution of seg_gs_set in a step, if there is one. */
  predicate StepLoads(s: State, step: Step)
    requires Possible(s, step)
  {
    match step
    case Invoke(t, c) => Loads(s.(cache := s.cache[c := t]), t, c)
    case Run(t, c) => Loads(s.(cache := s.cache[c := t]), t, c)
    case CallbackReturn(t) => Loads(s, t, Caller(s.nest[t]))
    case SyscallReturn(t) => Loads(s, t, Caller(s.nest[t]))
    case _ => true
  }

  /** Contexts are created before they are entered. */
  ghost predicate Created(s: State) {
    && s.cache.Keys == s.base.Keys
    && forall t, i :: t in s.nest && 0 <= i < |s.nest[t]| && s.nest[t][i].Sandbox? ==> s.nest[t][i].ctx in s.base
  }

  lemma CreatedKeeps(s: State, step: Step)
    requires Created(s) && Possible(s, step)
    ensures Created(Apply(s, step))
  {
  }

  /** Entering c makes %gs right exactly when seg_gs_set loads it; the other threads keep theirs. */
  lemma EnterRightIff(s: State, t: Thread, c: Ctx, run: bool)
    requires GsRight(s) && Known(s, t) && KnownCtx(s, c)
    ensures GsRight(Entered(s, t, c, run)) <==> Loads(s.(cache := s.cache[c := t]), t, c)
  {
    var r := Entered(s, t, c, run);
    assert !InHost(r.nest[t]) && r.nest[t][|r.nest[t]| - 1].ctx == c;
  }

  lemma ReturnRightIff(s: State, t: Thread)
    requires GsRight(s) && Known(s, t) && |s.nest[t]| > 1 && s.nest[t][|s.nest[t]| - 2].Sandbox?
    requires KnownCtx(s, Caller(s.nest[t]))
    ensures GsRight(SegGsSet(s, t, Caller(s.nest[t])).(nest := s.nest[t := Drop(s.nest[t], 1)])) <==>
            Loads(s, t, Caller(s.nest[t]))
  {
    var fs := Drop(s.nest[t], 1);
    assert !InHost(fs) && fs[|fs| - 1].ctx == Caller(s.nest[t]);
  }

  /** A step without seg_gs_set leaves its thread in host code, or does not concern the registers. */
  lemma OtherRight(s: State, step: Step)
    requires GsRight(s) && Created(s) && NestOk(s) && Possible(s, step)
    requires !step.Invoke? && !step.Run? && !step.CallbackReturn? && !step.SyscallReturn?
    ensures GsRight(Apply(s, step))
  {
  }

  /** One step, whoever else is inside the context: %gs stays right exactly when the compare of
      seg_gs_set, if the step executes it, does not skip a write that was needed. */
  lemma StepRightIff(s: State, step: Step)
    requires GsRight(s) && Created(s) && NestOk(s) && Possible(s, step)
    ensures GsRight(Apply(s, step)) <==> StepLoads(s, step)
  {
    hide GsRight, Created, NestOk, SegGsSet, Loads;
    match step
    case Invoke(t, c) => EnterRightIff(s, t, c, false);
    case Run(t, c) => EnterRightIff(s, t, c, true);
    case CallbackReturn(t) => ReturnRightIff(s, t);
    case SyscallReturn(t) => ReturnRightIff(s, t);
    case _ => OtherRight(s, step);
  }

  ghost predicate RightThroughout(s: State, steps: seq<Step>)
    requires PossibleRun(s, steps)
    decreases |steps|
  {
    (steps == [] || RightThroughout(Apply(s, steps[0]), steps[1..])) && GsRight(s)
  }

  ghost predicate AllLoad(s: State, steps: seq<Step>)
    requires PossibleRun(s, steps)
    decreases |steps|
  {
    steps == [] || (StepLoads(s, steps[0]) && AllLoad(Apply(s, steps[0]), steps[1..]))
  }

  lemma {:induction false} RunRightIff(s: State, steps: seq<Step>)
    requires GsRight(s) && Created(s) && NestOk(s) && PossibleRun(s, steps)
    ensures RightThroughout(s, steps) <==> AllLoad(s, steps)
    decreases |steps|
  {
    if steps != [] {
      hide GsRight, Created, NestOk, Apply, Possible, StepLoads;
      var t := Apply(s, steps[0]);
      StepRightIff(s, steps[0]);
      if StepLoads(s, steps[0]) {
        CreatedKeeps(s, steps[0]);
        NestKeeps(s, steps[0]);
        RunRightIff(t, steps[1..]);
      }
    }
  }

  /** In every run, also when threads share contexts: %gs is right throughout exactly when no seg_gs_set
      finds the base in the slot it compares while the register of its thread holds something else. */
  lemma SharedRightIff(steps: seq<Step>)
    requires PossibleRun(Empty(), steps)
    ensures RightThroughout(Empty(), steps) <==> AllLoad(Empty(), steps)
  {
    RunRightIff(Empty(), steps);
  }

  lemma EnterFacts(s: State, t: Thread, c: Ctx)
    requires SlotsTrue(s) && t in s.nest && KnownCtx(s, c) && s.base[c] != 0
    ensures var r := Entered(s, t, c, false);
            && SlotsTrue(r) && r.gs.Keys == s.gs.Keys && r.slot.Keys == s.slot.Keys
            && r.base == s.base && r.cache == s.cache[c := t] && r.slot[t] == r.gs[t] == s.base[c]
            && r.nest == s.nest[t := s.nest[t] + [Sandbox(c, false)]]
            && forall u :: u in s.gs && u != t ==> r.gs[u] == s.gs[u]
  {
    SegGsSetLoads(s.(cache := s.cache[c := t]), t, c);
  }

  /** Thread t is in host code called from c; its register holds the base of another box. */
  ghost predicate Elsewhere(s: State, t: Thread, u: Thread, c: Ctx) {
    && SlotsTrue(s) && t != u && Known(s, t) && Known(s, u) && KnownCtx(s, c) && s.base[c] != 0 && InHost(s.nest[u])
    && CalledOut(s.nest[t], CallbackCode) && Caller(s.nest[t]) == c && s.gs[t] != s.base[c]
  }

  /** Two threads in host code and two contexts of different boxes. */
  ghost predicate Shareable(s: State, t: Thread, u: Thread, c: Ctx, d: Ctx) {
    && SlotsTrue(s) && t != u && Known(s, t) && Known(s, u) && KnownCtx(s, c) && KnownCtx(s, d)
    && s.base[c] != 0 && s.base[d] != 0 && s.base[c] != s.base[d] && InHost(s.nest[t]) && InHost(s.nest[u])
  }

  lemma RunTwo(s: State, a: Step, b: Step, rest: seq<Step>)
    requires Possible(s, a) && Possible(Apply(s, a), b) && PossibleRun(Apply(Apply(s, a), b), rest)
    ensures PossibleRun(s, [a, b] + rest)
    ensures PossibleFinal(s, [a, b] + rest) == PossibleFinal(Apply(Apply(s, a), b), rest)
  {
    hide Possible, Apply;
    assert ([a, b] + rest)[1..] == [b] + rest && ([b] + rest)[1..] == rest;
  }

  lemma WrongReturn(s: State, t: Thread)
    requires Known(s, t) && CalledOut(s.nest[t], CallbackCode) && KnownCtx(s, Caller(s.nest[t]))
    requires !Loads(s, t, Caller(s.nest[t]))
    ensures !GsRight(Apply(s, CallbackReturn(t)))
  {
    var fs := Drop(s.nest[t], 1);
    assert !InHost(fs) && fs[|fs| - 1].ctx == Caller(s.nest[t]);
  }

  /** Thread u enters c, whose cache pointer now names the slot of u; t returns with the wrong base. */
  lemma ClashBreaks(s: State, t: Thread, u: Thread, c: Ctx)
    requires Elsewhere(s, t, u, c)
    ensures PossibleRun(s, [Invoke(u, c), CallbackReturn(t)])
    ensures !GsRight(PossibleFinal(s, [Invoke(u, c), CallbackReturn(t)]))
  {
    EnterFacts(s, u, c);
    WrongReturn(Entered(s, u, c, false), t);
    hide SlotsTrue, GsRight, Entered;
    RunTwo(s, Invoke(u, c), CallbackReturn(t), []);
    assert [Invoke(u, c), CallbackReturn(t)] + [] == [Invoke(u, c), CallbackReturn(t)];
  }

  lemma CallbackElsewhere(s: State, t: Thread, u: Thread, c: Ctx, d: Ctx)
    requires Shareable(s, t, u, c, d)
    ensures Possible(s, Invoke(t, c)) && Possible(Apply(s, Invoke(t, c)), Callback(t))
    ensures var r := Apply(Apply(s, Invoke(t, c)), Callback(t));
            Shareable(r, t, u, c, d) && CalledOut(r.nest[t], CallbackCode) && Caller(r.nest[t]) == c
  {
    EnterFacts(s, t, c);
    hide Entered;
    var fs := s.nest[t];
    assert (fs + [Sandbox(c, false)] + [CallbackCode])[|fs|] == Sandbox(c, false);
  }

  lemma VisitElsewhere(s: State, t: Thread, u: Thread, c: Ctx, d: Ctx)
    requires Shareable(s, t, u, c, d) && CalledOut(s.nest[t], CallbackCode) && Caller(s.nest[t]) == c
    ensures Possible(s, Invoke(t, d)) && Possible(Apply(s, Invoke(t, d)), Ret(t))
    ensures Elsewhere(Apply(Apply(s, Invoke(t, d)), Ret(t)), t, u, c)
  {
    EnterFacts(s, t, d);
    hide Entered;
    assert Drop(s.nest[t] + [Sandbox(d, false)], 1) == s.nest[t];
  }

  /** Wherever two threads are in host code and two boxes exist, sharing a context can break %gs: t is in
      a callback from c and has since been in the other box; u enters c; t returns with the wrong base. */
  lemma SharingBreaks(s: State, t: Thread, u: Thread, c: Ctx, d: Ctx)
    requires Shareable(s, t, u, c, d)
    ensures var steps := [Invoke(t, c), Callback(t), Invoke(t, d), Ret(t), Invoke(u, c), CallbackReturn(t)];
            PossibleRun(s, steps) && !GsRight(PossibleFinal(s, steps))
  {
    CallbackElsewhere(s, t, u, c, d);
    hide *;
    var r := Apply(Apply(s, Invoke(t, c)), Callback(t));
    VisitElsewhere(r, t, u, c, d);
    var clash := [Invoke(u, c), CallbackReturn(t)];
    ClashBreaks(Apply(Apply(r, Invoke(t, d)), Ret(t)), t, u, c);
    RunTwo(r, Invoke(t, d), Ret(t), clash);
    RunTwo(s, Invoke(t, c), Callback(t), [Invoke(t, d), Ret(t)] + clash);
    assert [Invoke(t, c), Callback(t)] + ([Invoke(t, d), Ret(t)] + clash) ==
           [Invoke(t, c), Callback(t), Invoke(t, d), Ret(t), Invoke(u, c), CallbackReturn(t)];
  }

  lemma TwoBoxes()
    ensures Possible(Empty(), Start(0, 7)) && Possible(Apply(Empty(), Start(0, 7)), Start(1, 7))
    ensures var s := Apply(Apply(Empty(), Start(0, 7)), Start(1, 7));
            && Possible(s, New(0, 5, 100)) && Possible(Apply(s, New(0, 5, 100)), New(0, 6, 200))
            && Shareable(Apply(Apply(s, New(0, 5, 100)), New(0, 6, 200)), 0, 1, 5, 6)
  {
  }

  /** Such a run from the start: thread 0 returns to context 5 with the base of context 6. */
  lemma SharedContextFails(steps: seq<Step>)
    requires steps == [Start(0, 7), Start(1, 7), New(0, 5, 100), New(0, 6, 200), Invoke(0, 5), Callback(0),
                       Invoke(0, 6), Ret(0), Invoke(1, 5), CallbackReturn(0)]
    ensures PossibleRun(Empty(), steps) && !GsRight(PossibleFinal(Empty(), steps))
  {
    TwoBoxes();
    hide *;
    var s := Apply(Apply(Empty(), Start(0, 7)), Start(1, 7));
    var r := Apply(Apply(s, New(0, 5, 100)), New(0, 6, 200));
    SharingBreaks(r, 0, 1, 5, 6);
    var rest := [Invoke(0, 5), Callback(0), Invoke(0, 6), Ret(0), Invoke(1, 5), CallbackReturn(0)];
    RunTwo(s, New(0, 5, 100), New(0, 6, 200), rest);
    RunTwo(Empty(), Start(0, 7), Start(1, 7), [New(0, 5, 100), New(0, 6, 200)] + rest);
    assert [Start(0, 7), Start(1, 7)] + ([New(0, 5, 100), New(0, 6, 200)] + rest) == steps;
  }

  // ----- the macro -----

  class Registers {
    var gs: map<Thread, int>
    var slot: map<Thread, int>
    var cache: map<Ctx, Thread>
    const base: map<Ctx, int>

    constructor (s: State)
      ensures gs == s.gs && slot == s.slot && cache == s.cache && base == s.base
    {
      gs, slot, cache, base := s.gs, s.slot, s.cache, s.base;
    }

    function St(nest: map<Thread, seq<Frame>>): State
      reads this
    {
      State(gs, slot, cache, base, nest)
    }

    /** seg_gs_set: compare the cached base, write %gs only when it differs. */
    method Set(t: Thread, c: Ctx, ghost nest: map<Thread, seq<Frame>>)
      requires KnownCtx(St(nest), c)
      modifies `gs, `slot
      ensures St(nest) == SegGsSet(old(St(nest)), t, c)
      ensures old(slot[cache[c]]) == base[c] ==> gs == old(gs)
    {
      var scratch := cache[c];
      if slot[scratch] != base[c] {
        gs := gs[t := base[c]];
        slot := slot[scratch := base[c]];
      }
    }

    /** Entering from the trampoline or lfi_ctx_run: the context is bound to the running thread first. */
    method Enter(t: Thread, c: Ctx, ghost nest: map<Thread, seq<Frame>>)
      requires KnownCtx(St(nest), c) && t in slot && t in nest && SlotsTrue(St(nest)) && base[c] != 0
      modifies this
      ensures St(nest) == SegGsSet(old(St(nest)).(cache := old(cache)[c := t]), t, c)
      ensures t in gs && gs[t] == base[c]
    {
      cache := cache[c := t];
      SegGsSetLoads(St(nest), t, c);
      Set(t, c, nest);
    }
  }
}
