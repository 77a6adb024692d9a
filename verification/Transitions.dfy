/** The x64 transitions between host and sandbox (core/arch/x64): trampoline, return, callback, syscall.

    Host stack words live in `host`; what the sandbox keeps on its own stack is its business, so only
    the value of %rsp is tracked there. Both sides share two slots of the context: REGS_HOST_SP and
    REGS_RSP. */
module Transitions {

  /** The callee-saved registers. */
  datatype Saved = Saved(rbx: int, rbp: int, r12: int, r13: int, r14: int, r15: int)

  datatype State = State(
    rsp: int, saved: Saved, pc: int, host: map<int, int>,
    hostSp: int, regsRsp: int, abort: int, status: int,
    base: int, ctxReg: int, inRun: bool)

  function Read(host: map<int, int>, a: int): int { if a in host then host[a] else 0 }

  /** Host memory after pushing vs, first to last, from stack pointer sp. */
  function Pushed(host: map<int, int>, sp: int, vs: seq<int>): map<int, int>
    decreases |vs|
  {
    if vs == [] then host else Pushed(host[sp - 8 := vs[0]], sp - 8, vs[1..])
  }

  lemma {:induction false} PushedKeeps(host: map<int, int>, sp: int, vs: seq<int>)
    ensures forall a :: a >= sp ==> Read(Pushed(host, sp, vs), a) == Read(host, a)
    decreases |vs|
  {
    if vs != [] {
      PushedKeeps(host[sp - 8 := vs[0]], sp - 8, vs[1..]);
    }
  }

  lemma {:induction false} PushedAt(host: map<int, int>, sp: int, vs: seq<int>, i: nat)
    requires i < |vs|
    ensures Read(Pushed(host, sp, vs), sp - 8 * (i + 1)) == vs[i]
    decreases |vs|
  {
    if i == 0 {
      PushedKeeps(host[sp - 8 := vs[0]], sp - 8, vs[1..]);
    } else {
      PushedAt(host[sp - 8 := vs[0]], sp - 8, vs[1..], i - 1);
    }
  }

  function Align16(x: int): int { x - x % 16 }

  // ----- what one routine does -----

  /** The words a trampoline pushes, the return address of its call first. */
  function FrameWords(s: State, ret: int): (vs: seq<int>)
    ensures |vs| == 9
  {
    var v := s.saved;
    [ret, v.r15, 0, v.r14, v.r13, v.r12, v.rbx, v.rbp, s.regsRsp]
  }

  /** A host call pushes ret and lfi_trampoline saves the registers and REGS_RSP, leaves %rsp in
      REGS_HOST_SP and goes to the sandbox stack with its return address pushed. */
  function Enter(s: State, down: nat, ret: int): State {
    var sp := s.rsp - 8 * down;
    s.(host := Pushed(s.host, sp, FrameWords(s, ret)),
       hostSp := sp - 72,
       rsp := Align16(s.regsRsp) - 8,
       saved := Saved(0, 0, 0, 0, s.base, s.ctxReg))
  }

  /** lfi_ret_end: everything back from the words above REGS_HOST_SP. */
  function RetEnd(s: State): State {
    var h, sp := s.host, s.hostSp;
    s.(regsRsp := Read(h, sp),
       saved := Saved(Read(h, sp + 16), Read(h, sp + 8), Read(h, sp + 24), Read(h, sp + 32), Read(h, sp + 40),
                      Read(h, sp + 56)),
       pc := Read(h, sp + 64),
       rsp := sp + 72)
  }

  /** lfi_callback_gen up to its call: the stacks are swapped, %r12 and REGS_RSP saved. */
  function CallbackEnter(s: State, ctx: int, ret: int): State {
    s.(host := Pushed(s.host, s.hostSp, [s.saved.r12, s.regsRsp, ctx, ret]),
       rsp := s.hostSp - 32,
       hostSp := s.rsp,
       regsRsp := s.rsp,
       saved := s.saved.(r12 := s.rsp))
  }

  /** The way back into the sandbox; the callee has just returned. */
  function CallbackExit(s: State): State {
    s.(rsp := s.regsRsp + 8,
       regsRsp := Read(s.host, s.rsp + 8),
       saved := s.saved.(r12 := Read(s.host, s.rsp + 16)),
       hostSp := s.rsp + 24)
  }

  /** The abort path: straight to lfi_ret_end. */
  function CallbackAbort(s: State, ret: int): State {
    RetEnd(s.(abort := 0, status := 1, hostSp := s.rsp + 24, rsp := s.rsp + 16, host := s.host[s.rsp + 16 := ret]))
  }

  /** lfi_syscall_entry up to its call. */
  function SyscallEnter(s: State, ctx: int, ret: int): State {
    s.(host := Pushed(s.host, s.hostSp, [ctx, ret]), rsp := s.hostSp - 16, regsRsp := s.rsp)
  }

  function SyscallExit(s: State): State { s.(rsp := s.regsRsp) }

  /** lfi_ctx_run and lfi_ctx_entry: like the trampoline, with a frame of its own shape. */
  function EnterRun(s: State, down: nat, ret: int): State {
    var sp, v := s.rsp - 8 * down, s.saved;
    s.(host := Pushed(s.host, sp, [ret, v.r15, v.r14, v.r13, v.r12, v.rbx, v.rbp]),
       hostSp := sp - 56, rsp := s.regsRsp, saved := Saved(0, 0, 0, 0, s.base, s.ctxReg), inRun := true)
  }

  /** lfi_ctx_end. */
  function EndRun(s: State): State {
    var h, sp := s.host, s.hostSp;
    s.(saved := Saved(Read(h, sp + 8), Read(h, sp), Read(h, sp + 16), Read(h, sp + 24), Read(h, sp + 32),
                      Read(h, sp + 40)),
       pc := Read(h, sp + 48), rsp := sp + 56)
  }

  /** lfi_ctx_exit: aborts the program where it stands, unless in_ctx_run is set. */
  function CtxExitEnd(s: State): State { if s.inRun then EndRun(s) else s }

  // ----- runs -----

  /** What host code does: stores below its stack pointer, uses callee-saved registers, marks the current
      callback aborted, invokes the sandbox from further down its stack. */
  datatype Host =
    | Back
    | Store(k: nat, v: int, next: Host)
    | Use(saved: Saved, next: Host)
    | Abort(next: Host)
    | Invoke(down: nat, ret: int, body: Sand, next: Host)

  /** What sandbox code does with the registers it may change, and its calls out. Exit is the system call
      of an attached thread whose handler goes straight to lfi_ret_end, CtxExit one whose handler calls
      lfi_ctx_exit. */
  datatype Sand =
    | Return
    | Work(rsp: int, rbx: int, rbp: int, r12: int, r13: int, next: Sand)
    | Callback(ctx: int, ret: int, handler: Host, next: Sand)
    | Syscall(ctx: int, ret: int, handler: Host, next: Sand)
    | Exit(ctx: int, ret: int, handler: Host)
    | CtxExit(ctx: int, ret: int, handler: Host)

  /** How sandbox code ends: it is about to return through lfi_ret, lfi_ret_end has already taken it back
      to the host, or lfi_ctx_exit was called. */
  datatype How = Returns | Unwinds | Exits

  function RunHost(s: State, ops: Host): State
    decreases ops, 0
  {
    match ops
    case Back => s
    case Store(k, v, next) => RunHost(s.(host := s.host[s.rsp - 8 * k - 8 := v]), next)
    case Use(saved, next) => RunHost(s.(saved := saved), next)
    case Abort(next) => RunHost(s.(abort := 1), next)
    case Invoke(down, ret, body, next) => RunHost(RunInvoke(s, down, ret, body), next)
  }

  /** A host function called with its return address at %rsp: it keeps the calling convention. */
  function RunCallee(s: State, ops: Host): State
    decreases ops, 1
  {
    RunHost(s, ops).(rsp := s.rsp + 8, saved := s.saved)
  }

  function RunInvoke(s: State, down: nat, ret: int, body: Sand): State
    decreases body, 1
  {
    var (t, how) := RunSand(Enter(s, down, ret), body);
    var r := if how.Returns? then RetEnd(t) else t;
    r.(rsp := r.rsp + 8 * down)
  }

  /** Sandbox code up to its end. */
  function RunSand(s: State, ops: Sand): (State, How)
    decreases ops, 0
  {
    match ops
    case Return => (s, Returns)
    case Work(rsp, rbx, rbp, r12, r13, next) =>
      RunSand(s.(rsp := rsp, saved := Saved(rbx, rbp, r12, r13, s.saved.r14, s.saved.r15)), next)
    case Callback(ctx, ret, handler, next) =>
      var t := RunCallee(CallbackEnter(s, ctx, ret), handler);
      if t.abort == 1 then (CallbackAbort(t, ret), Unwinds) else RunSand(CallbackExit(t), next)
    case Syscall(ctx, ret, handler, next) =>
      RunSand(SyscallExit(RunCallee(SyscallEnter(s, ctx, ret), handler)), next)
    case Exit(ctx, ret, handler) => (RetEnd(RunHost(SyscallEnter(s, ctx, ret), handler)), Unwinds)
    case CtxExit(ctx, ret, handler) => (CtxExitEnd(RunHost(SyscallEnter(s, ctx, ret), handler)), Exits)
  }

  // ----- well-behaved runs -----

  predicate Invokes(ops: Host) {
    match ops
    case Back => false
    case Store(_, _, next) => Invokes(next)
    case Use(_, next) => Invokes(next)
    case Abort(next) => Invokes(next)
    case Invoke(_, _, _, _) => true
  }

  /** The abort flag after host code that starts with flag f. */
  predicate HostFlag(ops: Host, f: bool)
    decreases ops, 0
  {
    match ops
    case Back => f
    case Store(_, _, next) => HostFlag(next, f)
    case Use(_, next) => HostFlag(next, f)
    case Abort(next) => HostFlag(next, true)
    case Invoke(_, _, body, next) => HostFlag(next, SandFlag(body, f).0)
  }

  /** The abort flag after sandbox code, and how it ends. */
  function SandFlag(ops: Sand, f: bool): (bool, How)
    decreases ops, 0
  {
    match ops
    case Return => (f, Returns)
    case Work(_, _, _, _, _, next) => SandFlag(next, f)
    case Callback(_, _, handler, next) => if HostFlag(handler, f) then (false, Unwinds) else SandFlag(next, false)
    case Syscall(_, _, handler, next) => SandFlag(next, HostFlag(handler, f))
    case Exit(_, _, handler) => (HostFlag(handler, f), Unwinds)
    case CtxExit(_, _, handler) => (HostFlag(handler, f), Exits)
  }

  predicate Flag(s: State) { s.abort == 1 }

  /** At any depth, and before the code around it has ended: a syscall handler invokes the sandbox on the
      same context, or lfi_ctx_exit is called from inside an invoke. */
  predicate Strays(ops: Sand, f: bool)
    decreases ops, 0
  {
    match ops
    case Return => false
    case Work(_, _, _, _, _, next) => Strays(next, f)
    case Callback(_, _, handler, next) =>
      HostStrays(handler, f) || (!HostFlag(handler, f) && Strays(next, false))
    case Syscall(_, _, handler, next) => Invokes(handler) || Strays(next, HostFlag(handler, f))
    case Exit(_, _, handler) => Invokes(handler)
    case CtxExit(_, _, handler) => Invokes(handler)
  }

  predicate HostStrays(ops: Host, f: bool)
    decreases ops, 0
  {
    match ops
    case Back => false
    case Store(_, _, next) => HostStrays(next, f)
    case Use(_, next) => HostStrays(next, f)
    case Abort(next) => HostStrays(next, true)
    case Invoke(_, _, body, next) =>
      Strays(body, f) || SandFlag(body, f).1.Exits? || HostStrays(next, SandFlag(body, f).0)
  }

  /** The flags are those of the run. */
  lemma {:induction false} HostFlagOfRun(s: State, ops: Host)
    ensures Flag(RunHost(s, ops)) == HostFlag(ops, Flag(s))
    decreases ops, 0
  {
    match ops
    case Back =>
    case Store(k, v, next) => HostFlagOfRun(s.(host := s.host[s.rsp - 8 * k - 8 := v]), next);
    case Use(saved, next) => HostFlagOfRun(s.(saved := saved), next);
    case Abort(next) => HostFlagOfRun(s.(abort := 1), next);
    case Invoke(down, ret, body, next) =>
      InvokeFlag(s, down, ret, body);
      HostFlagOfRun(RunInvoke(s, down, ret, body), next);
  }

  lemma {:induction false} InvokeFlag(s: State, down: nat, ret: int, body: Sand)
    ensures Flag(RunInvoke(s, down, ret, body)) == SandFlag(body, Flag(s)).0
    decreases body, 1
  {
    FlagOfRun(Enter(s, down, ret), body);
  }

  lemma {:induction false} FlagOfRun(s: State, ops: Sand)
    ensures (Flag(RunSand(s, ops).0), RunSand(s, ops).1) == SandFlag(ops, Flag(s))
    decreases ops, 0
  {
    match ops
    case Return =>
    case Work(rsp, rbx, rbp, r12, r13, next) =>
      FlagOfRun(s.(rsp := rsp, saved := Saved(rbx, rbp, r12, r13, s.saved.r14, s.saved.r15)), next);
    case Callback(ctx, ret, handler, next) =>
      var e := CallbackEnter(s, ctx, ret);
      HostFlagOfRun(e, handler);
      if !HostFlag(handler, Flag(s)) {
        FlagOfRun(CallbackExit(RunCallee(e, handler)), next);
      }
    case Syscall(ctx, ret, handler, next) =>
      var e := SyscallEnter(s, ctx, ret);
      HostFlagOfRun(e, handler);
      FlagOfRun(SyscallExit(RunCallee(e, handler)), next);
    case Exit(ctx, ret, handler) => HostFlagOfRun(SyscallEnter(s, ctx, ret), handler);
    case CtxExit(ctx, ret, handler) => HostFlagOfRun(SyscallEnter(s, ctx, ret), handler);
  }

  /** Host memory from sp up is the same. */
  ghost predicate SameAbove(a: State, b: State, sp: int) {
    forall w :: w >= sp ==> Read(a.host, w) == Read(b.host, w)
  }

  ghost predicate SameConstants(a: State, b: State) {
    a.base == b.base && a.ctxReg == b.ctxReg && a.inRun == b.inRun
  }

  /** Host code keeps its stack pointer, the words above it and REGS_RSP; REGS_HOST_SP too, unless it
      invoked the sandbox, and then REGS_HOST_SP is left at least a frame below its stack pointer. */
  ghost predicate HostKept(s: State, t: State, invoked: bool) {
    && t.rsp == s.rsp && t.regsRsp == s.regsRsp && SameAbove(s, t, s.rsp) && SameConstants(s, t)
    && (if invoked then t.hostSp <= s.rsp - 72 else t.hostSp == s.hostSp)
  }

  /** Sandbox code keeps REGS_HOST_SP, the host stack above it and the reserved registers; after an early
      end the registers are those lfi_ret_end or lfi_ctx_end finds there. */
  ghost predicate SandKept(s: State, t: State, how: How) {
    && t.hostSp == s.hostSp && SameAbove(s, t, s.hostSp) && SameConstants(s, t)
    && match how
       case Returns => t.saved.r14 == s.saved.r14 && t.saved.r15 == s.saved.r15
       case Unwinds => t == RetEnd(t)
       case Exits => s.inRun ==> t == EndRun(t)
  }

  /** Back at the caller: its stack pointer, callee-saved registers and return address, the words above
      its stack pointer, REGS_RSP. */
  ghost predicate Landed(s: State, t: State, ret: int) {
    && t.rsp == s.rsp && t.saved == s.saved && t.pc == ret && t.regsRsp == s.regsRsp
    && SameAbove(s, t, s.rsp) && SameConstants(s, t)
  }

  lemma FrameWord(s: State, down: nat, ret: int, t: State, i: nat)
    requires t.hostSp == s.rsp - 8 * down - 72 && SameAbove(Enter(s, down, ret), t, t.hostSp) && i < 9
    ensures Read(t.host, t.hostSp + 64 - 8 * i) == FrameWords(s, ret)[i]
  {
    hide Pushed, Read;
    var sp := s.rsp - 8 * down;
    PushedAt(s.host, sp, FrameWords(s, ret), i);
    assert t.hostSp + 64 - 8 * i == sp - 8 * (i + 1);
  }

  /** What lfi_ret_end pops when the frame of the trampoline is intact. */
  lemma FrameReads(s: State, down: nat, ret: int, t: State)
    requires t.hostSp == s.rsp - 8 * down - 72 && SameAbove(Enter(s, down, ret), t, t.hostSp)
    ensures var r := RetEnd(t);
            r.rsp == s.rsp - 8 * down && r.saved == s.saved && r.pc == ret && r.regsRsp == s.regsRsp
  {
    hide Enter, SameAbove, Read, Pushed;
    FrameWord(s, down, ret, t, 0);
    FrameWord(s, down, ret, t, 1);
    FrameWord(s, down, ret, t, 3);
    FrameWord(s, down, ret, t, 4);
    FrameWord(s, down, ret, t, 5);
    FrameWord(s, down, ret, t, 6);
    FrameWord(s, down, ret, t, 7);
    FrameWord(s, down, ret, t, 8);
  }

  /** A callback whose host function behaved: back in the sandbox with everything as it was. */
  lemma CallbackBack(s: State, ctx: int, ret: int, t: State, invoked: bool)
    requires HostKept(CallbackEnter(s, ctx, ret), t, invoked)
    ensures var u := CallbackExit(t.(rsp := s.hostSp - 24, saved := CallbackEnter(s, ctx, ret).saved));
            && u.rsp == s.rsp + 8 && u.regsRsp == s.regsRsp && u.saved == s.saved
            && u.hostSp == s.hostSp && SameAbove(s, u, s.hostSp) && SameConstants(s, u)
  {
    var e := CallbackEnter(s, ctx, ret);
    var vs := [s.saved.r12, s.regsRsp, ctx, ret];
    PushedKeeps(s.host, s.hostSp, vs);
    PushedAt(s.host, s.hostSp, vs, 0);
    PushedAt(s.host, s.hostSp, vs, 1);
    assert Read(t.host, s.hostSp - 8) == Read(e.host, s.hostSp - 8 * (0 + 1));
    assert Read(t.host, s.hostSp - 16) == Read(e.host, s.hostSp - 8 * (1 + 1));
  }

  /** An aborted callback: the flag is taken down, the status set, and the frame of the invoke is intact. */
  lemma CallbackAborted(s: State, ctx: int, ret: int, t: State, invoked: bool)
    requires HostKept(CallbackEnter(s, ctx, ret), t, invoked)
    ensures var u := CallbackAbort(t.(rsp := s.hostSp - 24, saved := CallbackEnter(s, ctx, ret).saved), ret);
            SandKept(s, u, Unwinds) && u.abort == 0 && u.status == 1
  {
    PushedKeeps(s.host, s.hostSp, [s.saved.r12, s.regsRsp, ctx, ret]);
  }

  lemma SyscallBack(s: State, ctx: int, ret: int, t: State)
    requires HostKept(SyscallEnter(s, ctx, ret), t, false)
    ensures var u := SyscallExit(t.(rsp := s.hostSp - 8, saved := s.saved));
            && u.rsp == s.rsp && u.saved == s.saved
            && u.hostSp == s.hostSp && SameAbove(s, u, s.hostSp) && SameConstants(s, u)
  {
    PushedKeeps(s.host, s.hostSp, [ctx, ret]);
  }

  // ----- every well-nested run -----

  lemma {:induction false} HostKeeps(s: State, ops: Host)
    requires !HostStrays(ops, Flag(s))
    ensures HostKept(s, RunHost(s, ops), Invokes(ops))
    decreases ops, 0
  {
    match ops
    case Back =>
    case Store(k, v, next) => HostKeeps(s.(host := s.host[s.rsp - 8 * k - 8 := v]), next);
    case Use(saved, next) => HostKeeps(s.(saved := saved), next);
    case Abort(next) => HostKeeps(s.(abort := 1), next);
    case Invoke(down, ret, body, next) =>
      InvokeLands(s, down, ret, body);
      InvokeFlag(s, down, ret, body);
      HostKeeps(RunInvoke(s, down, ret, body), next);
  }

  /** Invoke, to any depth of callbacks, syscalls and nested invokes: lfi_ret lands on the frame its own
      trampoline pushed and the host gets everything back, also when a callback aborted. */
  lemma {:induction false} InvokeLands(s: State, down: nat, ret: int, body: Sand)
    requires !Strays(body, Flag(s)) && !SandFlag(body, Flag(s)).1.Exits?
    ensures Landed(s, RunInvoke(s, down, ret, body), ret)
    ensures RunInvoke(s, down, ret, body).hostSp == s.rsp - 8 * down - 72
    decreases body, 1
  {
    var e := Enter(s, down, ret);
    SandKeeps(e, body);
    FlagOfRun(e, body);
    var t := RunSand(e, body).0;
    FrameReads(s, down, ret, t);
    PushedKeeps(s.host, s.rsp - 8 * down, FrameWords(s, ret));
    hide RunSand, Pushed;
    assert SameAbove(s, t, s.rsp);
  }

  lemma {:induction false} SandKeeps(s: State, ops: Sand)
    requires !Strays(ops, Flag(s))
    ensures SandKept(s, RunSand(s, ops).0, RunSand(s, ops).1)
    decreases ops, 0
  {
    match ops
    case Return =>
    case Work(rsp, rbx, rbp, r12, r13, next) =>
      SandKeeps(s.(rsp := rsp, saved := Saved(rbx, rbp, r12, r13, s.saved.r14, s.saved.r15)), next);
    case Callback(ctx, ret, handler, next) =>
      CallbackKeeps(s, ctx, ret, handler);
      hide Read, CallbackEnter, CallbackExit, CallbackAbort, RetEnd, RunCallee;
      var t := RunCallee(CallbackEnter(s, ctx, ret), handler);
      if t.abort != 1 {
        SandKeeps(CallbackExit(t), next);
      }
    case Syscall(ctx, ret, handler, next) =>
      QuietKeeps(s, ctx, ret, handler);
      hide Read, SyscallEnter, SyscallExit, RetEnd, RunCallee, RunHost;
      SandKeeps(SyscallExit(RunCallee(SyscallEnter(s, ctx, ret), handler)), next);
    case Exit(ctx, ret, handler) =>
      QuietKeeps(s, ctx, ret, handler);
      hide SyscallEnter, RunHost, Read;
    case CtxExit(ctx, ret, handler) =>
      QuietKeeps(s, ctx, ret, handler);
      hide SyscallEnter, RunHost, Read;
  }

  /** A system call whose handler does not invoke, before and after the way back. */
  lemma {:induction false} QuietKeeps(s: State, ctx: int, ret: int, handler: Host)
    requires !Invokes(handler)
    ensures var t := RunHost(SyscallEnter(s, ctx, ret), handler);
            t.hostSp == s.hostSp && SameAbove(s, t, s.hostSp) && SameConstants(s, t)
    ensures var u := SyscallExit(RunCallee(SyscallEnter(s, ctx, ret), handler));
            && u.saved == s.saved && u.hostSp == s.hostSp && Flag(u) == HostFlag(handler, Flag(s))
            && SameAbove(s, u, s.hostSp) && SameConstants(s, u)
    decreases handler, 1
  {
    var e := SyscallEnter(s, ctx, ret);
    var h := RunHost(e, handler);
    QuietHost(handler, Flag(s));
    HostKeeps(e, handler);
    HostFlagOfRun(e, handler);
    SyscallBack(s, ctx, ret, h);
    PushedKeeps(s.host, s.hostSp, [ctx, ret]);
    assert RunCallee(e, handler) == h.(rsp := s.hostSp - 8, saved := e.saved);
    hide RunHost, RunCallee, Read, Pushed;
  }

  lemma {:induction false} CallbackKeeps(s: State, ctx: int, ret: int, handler: Host)
    requires !HostStrays(handler, Flag(s))
    ensures var t := RunCallee(CallbackEnter(s, ctx, ret), handler);
            && Flag(t) == HostFlag(handler, Flag(s))
            && (Flag(t) ==> SandKept(s, CallbackAbort(t, ret), Unwinds))
            && (!Flag(t) ==>
                  var u := CallbackExit(t);
                  && u.saved == s.saved && u.hostSp == s.hostSp && Flag(u) == Flag(t)
                  && SameAbove(s, u, s.hostSp) && SameConstants(s, u))
    decreases handler, 1
  {
    var e := CallbackEnter(s, ctx, ret);
    var h := RunHost(e, handler);
    assert RunCallee(e, handler) == h.(rsp := s.hostSp - 24, saved := e.saved) && Flag(e) == Flag(s);
    hide RunHost, RunCallee, HostKept, SandKept, SameAbove, SameConstants, Read, Pushed, RetEnd, CallbackEnter;
    HostKeeps(e, handler);
    HostFlagOfRun(e, handler);
    CallbackBack(s, ctx, ret, h, Invokes(handler));
    CallbackAborted(s, ctx, ret, h, Invokes(handler));
  }

  lemma {:induction false} QuietHost(ops: Host, f: bool)
    requires !Invokes(ops)
    ensures !HostStrays(ops, f)
  {
    match ops
    case Back =>
    case Store(_, _, next) => QuietHost(next, f);
    case Use(_, next) => QuietHost(next, f);
    case Abort(next) => QuietHost(next, true);
  }

  /** A callback returns to the sandbox with its stack pointer (past the return address), REGS_RSP,
      REGS_HOST_SP and the callee-saved registers as they were at the call. */
  lemma CallbackReturns(s: State, ctx: int, ret: int, handler: Host)
    requires !HostStrays(handler, Flag(s)) && !HostFlag(handler, Flag(s))
    ensures var t := RunCallee(CallbackEnter(s, ctx, ret), handler);
            var u := CallbackExit(t);
            && t.abort != 1
            && u.rsp == s.rsp + 8 && u.regsRsp == s.regsRsp && u.saved == s.saved && u.hostSp == s.hostSp
  {
    var e := CallbackEnter(s, ctx, ret);
    HostKeeps(e, handler);
    HostFlagOfRun(e, handler);
    CallbackBack(s, ctx, ret, RunHost(e, handler), Invokes(handler));
  }

  // ----- exactly when every return lands -----

  /** Every invoke that host code makes, directly or from inside one it makes, comes back to the stack
      pointer it was called with. */
  ghost predicate HostLands(s: State, ops: Host)
    decreases ops, 0
  {
    match ops
    case Back => true
    case Store(k, v, next) => HostLands(s.(host := s.host[s.rsp - 8 * k - 8 := v]), next)
    case Use(saved, next) => HostLands(s.(saved := saved), next)
    case Abort(next) => HostLands(s.(abort := 1), next)
    case Invoke(down, ret, body, next) =>
      AllLand(s, down, ret, body) && HostLands(RunInvoke(s, down, ret, body), next)
  }

  /** This invoke and every one inside it. */
  ghost predicate AllLand(s: State, down: nat, ret: int, body: Sand)
    decreases body, 1
  {
    SandLands(Enter(s, down, ret), body) && RunInvoke(s, down, ret, body).rsp == s.rsp
  }

  ghost predicate SandLands(s: State, ops: Sand)
    decreases ops, 0
  {
    match ops
    case Return => true
    case Work(rsp, rbx, rbp, r12, r13, next) =>
      SandLands(s.(rsp := rsp, saved := Saved(rbx, rbp, r12, r13, s.saved.r14, s.saved.r15)), next)
    case Callback(ctx, ret, handler, next) =>
      var e := CallbackEnter(s, ctx, ret);
      HostLands(e, handler) &&
      (RunCallee(e, handler).abort != 1 ==> SandLands(CallbackExit(RunCallee(e, handler)), next))
    case Syscall(ctx, ret, handler, next) =>
      var e := SyscallEnter(s, ctx, ret);
      HostLands(e, handler) && SandLands(SyscallExit(RunCallee(e, handler)), next)
    case Exit(ctx, ret, handler) => HostLands(SyscallEnter(s, ctx, ret), handler)
    case CtxExit(ctx, ret, handler) => HostLands(SyscallEnter(s, ctx, ret), handler)
  }

  lemma {:induction false} HostLandsIff(s: State, ops: Host)
    ensures HostLands(s, ops) <==> !HostStrays(ops, Flag(s))
    decreases ops, 0
  {
    match ops
    case Back =>
    case Store(k, v, next) => HostLandsIff(s.(host := s.host[s.rsp - 8 * k - 8 := v]), next);
    case Use(saved, next) => HostLandsIff(s.(saved := saved), next);
    case Abort(next) => HostLandsIff(s.(abort := 1), next);
    case Invoke(down, ret, body, next) =>
      LandsIff(s, down, ret, body);
      InvokeFlag(s, down, ret, body);
      HostLandsIff(RunInvoke(s, down, ret, body), next);
  }

  /** REGS_HOST_SP never comes back up once a syscall handler has moved it. */
  ghost predicate Sinks(s: State, ops: Sand) {
    var (t, how) := RunSand(s, ops);
    && (!Strays(ops, Flag(s)) ==> SandLands(s, ops))
    && (SandLands(s, ops) ==>
          && (if Strays(ops, Flag(s)) then t.hostSp <= s.hostSp - 72 else t.hostSp == s.hostSp)
          && (how.Unwinds? ==> t.rsp == t.hostSp + 72)
          && (how.Exits? ==> if s.inRun then t.rsp == t.hostSp + 56 else t.rsp < s.hostSp))
  }

  lemma {:induction false} SandSinks(s: State, ops: Sand)
    ensures Sinks(s, ops)
    decreases ops, 1
  {
    match ops
    case Return =>
    case Work(rsp, rbx, rbp, r12, r13, next) =>
      SandSinks(s.(rsp := rsp, saved := Saved(rbx, rbp, r12, r13, s.saved.r14, s.saved.r15)), next);
    case Callback(_, _, _, _) => SinksCallback(s, ops);
    case Syscall(_, _, _, _) => SinksSyscall(s, ops);
    case Exit(ctx, ret, handler) =>
      SyscallSinks(s, ctx, ret, handler);
      hide SyscallEnter, RunHost, HostLands, Invokes;
    case CtxExit(ctx, ret, handler) =>
      SyscallSinks(s, ctx, ret, handler);
      hide SyscallEnter, RunHost, HostLands, Invokes;
  }

  lemma {:induction false} SinksCallback(s: State, ops: Sand)
    requires ops.Callback?
    ensures Sinks(s, ops)
    decreases ops, 0
  {
    CallbackSinks(s, ops.ctx, ops.ret, ops.handler);
    hide CallbackEnter, CallbackExit, CallbackAbort, RunCallee, HostFlag, HostStrays, HostLands;
    var t := RunCallee(CallbackEnter(s, ops.ctx, ops.ret), ops.handler);
    if t.abort != 1 {
      SandSinks(CallbackExit(t), ops.next);
    }
  }

  lemma {:induction false} SinksSyscall(s: State, ops: Sand)
    requires ops.Syscall?
    ensures Sinks(s, ops)
    decreases ops, 0
  {
    SyscallSinks(s, ops.ctx, ops.ret, ops.handler);
    hide SyscallEnter, SyscallExit, RunCallee, RunHost, HostFlag, HostLands, Invokes;
    SandSinks(SyscallExit(RunCallee(SyscallEnter(s, ops.ctx, ops.ret), ops.handler)), ops.next);
  }

  lemma {:induction false} CallbackSinks(s: State, ctx: int, ret: int, handler: Host)
    ensures var e := CallbackEnter(s, ctx, ret);
            var t := RunCallee(e, handler);
            && (HostLands(e, handler) <==> !HostStrays(handler, Flag(s))) && Flag(t) == HostFlag(handler, Flag(s))
            && (HostLands(e, handler) ==>
                  && CallbackExit(t).hostSp == s.hostSp && CallbackExit(t).inRun == s.inRun
                  && Flag(CallbackExit(t)) == Flag(t)
                  && CallbackAbort(t, ret).hostSp == s.hostSp && CallbackAbort(t, ret).rsp == s.hostSp + 72)
    decreases handler, 2
  {
    HandlerKeeps(CallbackEnter(s, ctx, ret), handler);
    hide Pushed, Read, SameAbove, HostLands, RunHost;
  }

  lemma {:induction false} SyscallSinks(s: State, ctx: int, ret: int, handler: Host)
    ensures var e := SyscallEnter(s, ctx, ret);
            var h, u := RunHost(e, handler), SyscallExit(RunCallee(e, handler));
            && (!Invokes(handler) ==> HostLands(e, handler)) && Flag(u) == HostFlag(handler, Flag(s))
            && (HostLands(e, handler) ==>
                  && u.inRun == h.inRun == s.inRun && u.hostSp == h.hostSp && h.rsp == s.hostSp - 16
                  && (if Invokes(handler) then h.hostSp <= s.hostSp - 72 else h.hostSp == s.hostSp))
    decreases handler, 2
  {
    HandlerKeeps(SyscallEnter(s, ctx, ret), handler);
    hide Pushed, Read, SameAbove, HostLands, RunHost;
  }

  lemma {:induction false} HandlerKeeps(s: State, ops: Host)
    ensures !Invokes(ops) ==> HostLands(s, ops)
    ensures HostLands(s, ops) <==> !HostStrays(ops, Flag(s))
    ensures HostLands(s, ops) ==> HostKept(s, RunHost(s, ops), Invokes(ops))
    ensures Flag(RunHost(s, ops)) == HostFlag(ops, Flag(s))
    decreases ops, 1
  {
    HostLandsIff(s, ops);
    HostFlagOfRun(s, ops);
    if !Invokes(ops) {
      QuietHost(ops, Flag(s));
    }
    if HostLands(s, ops) {
      HostKeeps(s, ops);
    }
  }

  /** For any nesting: an invoke and all those inside it come back to their own stack pointers exactly
      when no syscall handler invokes on the same context on the way, because lfi_syscall_entry does not
      put REGS_HOST_SP back, and lfi_ctx_exit is not called. Then everything else is given back too. */
  lemma {:induction false} LandsIff(s: State, down: nat, ret: int, body: Sand)
    ensures AllLand(s, down, ret, body) <==> !Strays(body, Flag(s)) && !SandFlag(body, Flag(s)).1.Exits?
    ensures AllLand(s, down, ret, body) ==> Landed(s, RunInvoke(s, down, ret, body), ret)
    decreases body, 2
  {
    SandSinks(Enter(s, down, ret), body);
    FlagOfRun(Enter(s, down, ret), body);
    if !Strays(body, Flag(s)) && !SandFlag(body, Flag(s)).1.Exits? {
      InvokeLands(s, down, ret, body);
    }
  }

  /** The smallest failure: a syscall whose handler invokes and returns. The outer lfi_ret then returns
      into the handler's invoke a second time. */
  lemma ReentryFails(s: State, ctx: int)
    ensures var body := Syscall(ctx, 3, Invoke(0, 2, Return, Back), Return);
            RunInvoke(s, 0, 1, body).rsp != s.rsp && RunInvoke(s, 0, 1, body).pc == 2
  {
    var body := Syscall(ctx, 3, Invoke(0, 2, Return, Back), Return);
    var e := SyscallEnter(Enter(s, 0, 1), ctx, 3);
    PushedAt(e.host, e.rsp, FrameWords(e, 2), 0);
    var n := RunInvoke(e, 0, 2, Return);
    assert RunSand(Enter(e, 0, 2), Return) == (Enter(e, 0, 2), Returns);
    assert n.hostSp == e.rsp - 72 && Read(n.host, n.hostSp + 64) == 2;
    var t := SyscallExit(n.(rsp := e.rsp + 8, saved := e.saved));
    assert RunHost(e, Invoke(0, 2, Return, Back)) == RunHost(n, Back) == n;
    assert RunSand(Enter(s, 0, 1), body) == RunSand(t, Return) == (t, Returns);
  }

  // ----- where sandbox code is entered -----

  /** The trampoline enters the sandbox on the first place below REGS_RSP for a return address that leaves
      the stack aligned as at a function entry, with the reserved registers set and the others cleared. */
  lemma EnteredAt(s: State, down: nat, ret: int)
    ensures var e := Enter(s, down, ret);
            && e.rsp % 16 == 8 && s.regsRsp - 24 < e.rsp <= s.regsRsp - 8
            && Reserved(e) && e.saved.rbx == e.saved.rbp == e.saved.r12 == e.saved.r13 == 0
  {
  }

  /** %r14 is the sandbox base and %r15 the context register array. */
  predicate Reserved(s: State) { s.saved.r14 == s.base && s.saved.r15 == s.ctxReg }

  /** Each invoke that host code makes pushes its sandbox return address below sp, and so on inside it. */
  ghost predicate HostBelow(s: State, ops: Host, sp: int)
    decreases ops, 0
  {
    match ops
    case Back => true
    case Store(k, v, next) => HostBelow(s.(host := s.host[s.rsp - 8 * k - 8 := v]), next, sp)
    case Use(saved, next) => HostBelow(s.(saved := saved), next, sp)
    case Abort(next) => HostBelow(s.(abort := 1), next, sp)
    case Invoke(down, ret, body, next) =>
      && Enter(s, down, ret).rsp + 8 <= sp
      && Below(Enter(s, down, ret), body) && HostBelow(RunInvoke(s, down, ret, body), next, sp)
  }

  /** Whenever sandbox code executes the reserved registers are right, and whatever is invoked from one of
      its calls out runs on the stack below the place it called from. */
  ghost predicate Below(s: State, ops: Sand)
    decreases ops, 0
  {
    Reserved(s) &&
    match ops
    case Return => true
    case Work(rsp, rbx, rbp, r12, r13, next) =>
      Below(s.(rsp := rsp, saved := Saved(rbx, rbp, r12, r13, s.saved.r14, s.saved.r15)), next)
    case Callback(ctx, ret, handler, next) =>
      var e := CallbackEnter(s, ctx, ret);
      && HostBelow(e, handler, s.rsp)
      && (RunCallee(e, handler).abort != 1 ==> Below(CallbackExit(RunCallee(e, handler)), next))
    case Syscall(ctx, ret, handler, next) =>
      var e := SyscallEnter(s, ctx, ret);
      HostBelow(e, handler, s.rsp) && Below(SyscallExit(RunCallee(e, handler)), next)
    case Exit(ctx, ret, handler) => HostBelow(SyscallEnter(s, ctx, ret), handler, s.rsp)
    case CtxExit(ctx, ret, handler) => HostBelow(SyscallEnter(s, ctx, ret), handler, s.rsp)
  }

  lemma {:induction false} QuietBelow(s: State, ops: Host, sp: int)
    requires !Invokes(ops)
    ensures HostBelow(s, ops, sp)
    decreases ops
  {
    match ops
    case Back =>
    case Store(k, v, next) => QuietBelow(s.(host := s.host[s.rsp - 8 * k - 8 := v]), next, sp);
    case Use(saved, next) => QuietBelow(s.(saved := saved), next, sp);
    case Abort(next) => QuietBelow(s.(abort := 1), next, sp);
  }

  lemma {:induction false} HostEntersBelow(s: State, ops: Host)
    requires !HostStrays(ops, Flag(s))
    ensures HostBelow(s, ops, s.regsRsp)
    decreases ops, 0
  {
    match ops
    case Back =>
    case Store(k, v, next) => HostEntersBelow(s.(host := s.host[s.rsp - 8 * k - 8 := v]), next);
    case Use(saved, next) => HostEntersBelow(s.(saved := saved), next);
    case Abort(next) => HostEntersBelow(s.(abort := 1), next);
    case Invoke(down, ret, body, next) =>
      EnteredAt(s, down, ret);
      EntersBelow(Enter(s, down, ret), body);
      InvokeLands(s, down, ret, body);
      InvokeFlag(s, down, ret, body);
      HostEntersBelow(RunInvoke(s, down, ret, body), next);
  }

  /** In every run without re-entry, to any depth: nested sandbox code is entered strictly below the saved
      stack pointer of the callback around it, and always with the reserved registers right. */
  lemma {:induction false} EntersBelow(s: State, ops: Sand)
    requires Reserved(s) && !Strays(ops, Flag(s))
    ensures Below(s, ops)
    decreases ops, 0
  {
    match ops
    case Return =>
    case Work(rsp, rbx, rbp, r12, r13, next) =>
      EntersBelow(s.(rsp := rsp, saved := Saved(rbx, rbp, r12, r13, s.saved.r14, s.saved.r15)), next);
    case Callback(ctx, ret, handler, next) =>
      var e := CallbackEnter(s, ctx, ret);
      HostEntersBelow(e, handler);
      CallbackKeeps(s, ctx, ret, handler);
      hide CallbackExit, CallbackAbort, RunCallee, HostBelow;
      if RunCallee(e, handler).abort != 1 {
        EntersBelow(CallbackExit(RunCallee(e, handler)), next);
      }
    case Syscall(ctx, ret, handler, next) =>
      QuietBelow(SyscallEnter(s, ctx, ret), handler, s.rsp);
      QuietKeeps(s, ctx, ret, handler);
      hide SyscallEnter, SyscallExit, RunCallee, HostBelow;
      EntersBelow(SyscallExit(RunCallee(SyscallEnter(s, ctx, ret), handler)), next);
    case Exit(ctx, ret, handler) => QuietBelow(SyscallEnter(s, ctx, ret), handler, s.rsp);
    case CtxExit(ctx, ret, handler) => QuietBelow(SyscallEnter(s, ctx, ret), handler, s.rsp);
  }

  // ----- lfi_ctx_run -----

  /** lfi_ctx_run. */
  function RunContext(s: State, down: nat, ret: int, body: Sand): State {
    var (t, how) := RunSand(EnterRun(s, down, ret), body);
    var r := if how.Returns? then RetEnd(t) else t;
    r.(rsp := r.rsp + 8 * down, inRun := false)
  }

  /** The run and every invoke inside it come back to the stack pointers they were called with. */
  ghost predicate RunAllLand(s: State, down: nat, ret: int, body: Sand) {
    SandLands(EnterRun(s, down, ret), body) && RunContext(s, down, ret, body).rsp == s.rsp
  }

  /** For any nesting: lfi_ctx_run and every invoke inside it land on their own frames exactly when the
      sandbox code directly under it ends in lfi_ctx_exit and nothing strays: no syscall handler invokes
      on the same context, and lfi_ctx_exit is not called from inside an invoke. Going through lfi_ret_end
      directly under lfi_ctx_run, as an aborted callback does, unwinds a frame of the trampoline's shape. */
  lemma RunContextLands(s: State, down: nat, ret: int, body: Sand)
    ensures RunAllLand(s, down, ret, body) <==> !Strays(body, Flag(s)) && SandFlag(body, Flag(s)).1.Exits?
    ensures RunAllLand(s, down, ret, body) ==>
              var t := RunContext(s, down, ret, body);
              t.saved == s.saved && t.pc == ret && SameAbove(s, t, s.rsp)
  {
    var e := EnterRun(s, down, ret);
    FlagOfRun(e, body);
    SandSinks(e, body);
    if !Strays(body, Flag(s)) && SandFlag(body, Flag(s)).1.Exits? {
      RunContextRestores(s, down, ret, body);
    }
  }

  lemma RunContextRestores(s: State, down: nat, ret: int, body: Sand)
    requires !Strays(body, Flag(s)) && SandFlag(body, Flag(s)).1.Exits?
    ensures var t := RunContext(s, down, ret, body);
            t.saved == s.saved && t.pc == ret && SameAbove(s, t, s.rsp)
  {
    var e, v := EnterRun(s, down, ret), s.saved;
    var t := RunSand(e, body).0;
    FlagOfRun(e, body);
    SandKeeps(e, body);
    RunFrameReads(s, down, ret, t);
    PushedKeeps(s.host, s.rsp - 8 * down, [ret, v.r15, v.r14, v.r13, v.r12, v.rbx, v.rbp]);
    hide RunSand, Pushed;
    assert SameAbove(s, t, s.rsp);
  }

  /** The smallest failure: a callback aborted directly under lfi_ctx_run. */
  lemma AbortUnderRunFails(s: State, ret: int, ctx: int, callRet: int, next: Sand)
    ensures RunContext(s, 0, ret, Callback(ctx, callRet, Abort(Back), next)).rsp != s.rsp
  {
    var body := Callback(ctx, callRet, Abort(Back), next);
    FlagOfRun(EnterRun(s, 0, ret), body);
    SandSinks(EnterRun(s, 0, ret), body);
  }

  /** lfi_ctx_exit from inside an invoke under lfi_ctx_run: in_ctx_run is set, so the call is not
      refused, and lfi_ctx_end takes the zero the trampoline pushed as its return address. */
  lemma ExitInsideFails(s: State, down: nat, ret: int, body: Sand)
    requires s.inRun && !Strays(body, Flag(s)) && SandFlag(body, Flag(s)).1.Exits?
    ensures RunInvoke(s, down, ret, body).pc == 0 && RunInvoke(s, down, ret, body).rsp == s.rsp - 16
  {
    var e := Enter(s, down, ret);
    var t := RunSand(e, body).0;
    FlagOfRun(e, body);
    SandKeeps(e, body);
    FrameWord(s, down, ret, t, 2);
    assert t.hostSp + 64 - 8 * 2 == t.hostSp + 48;
  }

  lemma RunFrameReads(s: State, down: nat, ret: int, t: State)
    requires t.hostSp == s.rsp - 8 * down - 56 && SameAbove(EnterRun(s, down, ret), t, t.hostSp)
    ensures EndRun(t).rsp == s.rsp - 8 * down && EndRun(t).saved == s.saved && EndRun(t).pc == ret
  {
    var sp, v := s.rsp - 8 * down, s.saved;
    var vs := [ret, v.r15, v.r14, v.r13, v.r12, v.rbx, v.rbp];
    forall i: nat | i < 7 ensures Read(t.host, t.hostSp + 48 - 8 * i) == vs[i] {
      PushedAt(s.host, sp, vs, i);
      assert t.hostSp + 48 - 8 * i == sp - 8 * (i + 1);
    }
    assert Read(t.host, t.hostSp + 48 - 8 * 6) == vs[6];
    assert Read(t.host, t.hostSp + 48 - 8 * 5) == vs[5];
    assert Read(t.host, t.hostSp + 48 - 8 * 4) == vs[4];
    assert Read(t.host, t.hostSp + 48 - 8 * 3) == vs[3];
    assert Read(t.host, t.hostSp + 48 - 8 * 2) == vs[2];
    assert Read(t.host, t.hostSp + 48 - 8 * 1) == vs[1];
    assert Read(t.host, t.hostSp + 48 - 8 * 0) == vs[0];
  }

  // ----- the routines, instruction by instruction -----

  class Cpu {
    var rsp: int
    var rbx: int
    var rbp: int
    var r12: int
    var r13: int
    var r14: int
    var r15: int
    var pc: int
    var host: map<int, int>
    var hostSp: int
    var regsRsp: int
    var abort: int
    var status: int
    var inRun: bool
    const base: int
    const ctxReg: int

    function St(): State
      reads this
    {
      State(rsp, Saved(rbx, rbp, r12, r13, r14, r15), pc, host, hostSp, regsRsp, abort, status, base, ctxReg,
            inRun)
    }

    constructor (s: State)
      ensures St() == s
    {
      rsp, pc, host, hostSp, regsRsp := s.rsp, s.pc, s.host, s.hostSp, s.regsRsp;
      rbx, rbp, r12, r13 := s.saved.rbx, s.saved.rbp, s.saved.r12, s.saved.r13;
      r14, r15, abort, status := s.saved.r14, s.saved.r15, s.abort, s.status;
      base, ctxReg, inRun := s.base, s.ctxReg, s.inRun;
    }

    /** pushq on the host stack. */
    method Push(v: int)
      modifies `rsp, `host
      ensures rsp == old(rsp) - 8 && host == old(host)[old(rsp) - 8 := v]
    {
      rsp := rsp - 8;
      host := host[rsp := v];
    }

    /** popq from the host stack. */
    method Pop() returns (v: int)
      modifies `rsp
      ensures v == Read(host, old(rsp)) && rsp == old(rsp) + 8
    {
      v := Read(host, rsp);
      rsp := rsp + 8;
    }

    /** ret. */
    method Ret()
      modifies `rsp, `pc
      ensures rsp == old(rsp) + 8 && pc == Read(host, old(rsp))
    {
      pc := Pop();
    }

    /** The words a trampoline leaves on the host stack. */
    method SaveFrame(ret: int)
      modifies `rsp, `host
      ensures rsp == old(rsp) - 72
      ensures host == Pushed(old(host), old(rsp), [ret, r15, 0, r14, r13, r12, rbx, rbp, regsRsp])
    {
      hide Pushed;
      ghost var h, sp := host, rsp;
      Push(ret);
      Push(r15);
      Push(0);
      Push(r14);
      Push(r13);
      Push(r12);
      Push(rbx);
      Push(rbp);
      Push(regsRsp);
      PushedNine(h, sp, ret, r15, 0, r14, r13, r12, rbx, rbp, regsRsp);
    }

    /** A call to lfi_trampoline from `down` words further down the host stack. */
    method Trampoline(down: nat, ret: int)
      modifies this
      ensures St() == Enter(old(St()), down, ret)
      ensures rsp % 16 == 8 && old(regsRsp) - 24 < rsp <= old(regsRsp) - 8
      ensures r14 == base && r15 == ctxReg && rbx == rbp == r12 == r13 == 0
    {
      EnteredAt(St(), down, ret);
      hide Pushed, Align16;
      rsp := rsp - 8 * down;
      SaveFrame(ret);
      SwitchToSandbox();
    }

    /** .lfi_trampoline_common from the saved stack pointer to the jump. */
    method SwitchToSandbox()
      modifies `hostSp, `rsp, `rbx, `rbp, `r12, `r13, `r14, `r15
      ensures hostSp == old(rsp) && rsp == Align16(regsRsp) - 8
      ensures rbx == rbp == r12 == r13 == 0 && r14 == base && r15 == ctxReg
    {
      hostSp := rsp;
      rsp := regsRsp;
      r14 := base;
      rsp := Align16(rsp);
      r15 := ctxReg;
      rsp := rsp - 8;
      rbx, rbp, r12, r13 := 0, 0, 0, 0;
    }

    /** The pops of lfi_ret_end that restore the host's registers. */
    method RestoreSaved()
      modifies `rsp, `rbx, `rbp, `r12, `r13, `r14, `r15
      ensures rsp == old(rsp) + 56
      ensures rbp == Read(host, old(rsp)) && rbx == Read(host, old(rsp) + 8) && r12 == Read(host, old(rsp) + 16)
      ensures r13 == Read(host, old(rsp) + 24) && r14 == Read(host, old(rsp) + 32) && r15 == Read(host, old(rsp) + 48)
    {
      hide Read;
      rbp := Pop();
      rbx := Pop();
      r12 := Pop();
      r13 := Pop();
      r14 := Pop();
      rsp := rsp + 8;
      r15 := Pop();
    }

    /** lfi_ret and lfi_ret_end. */
    method LfiRet()
      modifies `rsp, `regsRsp, `rbx, `rbp, `r12, `r13, `r14, `r15, `pc
      ensures St() == RetEnd(old(St()))
    {
      hide Read;
      rsp := hostSp;
      rbp := Pop();
      regsRsp := rbp;
      RestoreSaved();
      Ret();
    }

    /** lfi_callback up to the call. */
    method CallbackIn(ctx: int, ret: int)
      modifies this
      ensures St() == CallbackEnter(old(St()), ctx, ret)
    {
      hide Pushed;
      ghost var s := St();
      hostSp, rsp := rsp, hostSp;
      Push(r12);
      r12 := hostSp;
      Push(regsRsp);
      regsRsp := r12;
      Push(ctx);
      Push(ret);
      PushedFour(s.host, s.hostSp, s.saved.r12, s.regsRsp, ctx, ret);
    }

    /** lfi_callback after the call. */
    method CallbackOut(ret: int) returns (aborted: bool)
      modifies this
      ensures aborted == (old(abort) == 1)
      ensures St() == if aborted then CallbackAbort(old(St()), ret) else CallbackExit(old(St()))
    {
      hide Read, RetEnd;
      rsp := rsp + 8;
      aborted := abort == 1;
      if aborted {
        abort := 0;
        status := 1;
        rsp := rsp + 16;
        hostSp := rsp;
        Push(ret);
        LfiRet();
      } else {
        CallbackResume();
      }
    }

    /** The end of lfi_callback, after the context is popped. */
    method CallbackResume()
      modifies `rsp, `hostSp, `regsRsp, `r12
      ensures rsp == old(regsRsp) + 8 && hostSp == old(rsp) + 16
      ensures regsRsp == Read(host, old(rsp)) && r12 == Read(host, old(rsp) + 8)
    {
      hide Read;
      var r10 := regsRsp;
      regsRsp := Pop();
      r12 := Pop();
      hostSp := rsp;
      rsp := r10;
      rsp := rsp + 8;
    }

    /** lfi_callback: around the call of the host function. */
    method LfiCallback(ctx: int, ret: int, handler: Host) returns (aborted: bool)
      modifies this
      ensures var t := RunCallee(CallbackEnter(old(St()), ctx, ret), handler);
              && aborted == (t.abort == 1)
              && St() == if aborted then CallbackAbort(t, ret) else CallbackExit(t)
      decreases handler, 2
    {
      hide RunCallee, CallbackEnter, CallbackAbort, CallbackExit;
      CallbackIn(ctx, ret);
      HostFunction(handler);
      aborted := CallbackOut(ret);
    }

    /** lfi_syscall_entry: around the call of the handler. */
    method LfiSyscall(ctx: int, ret: int, handler: Host)
      modifies this
      ensures St() == SyscallExit(RunCallee(SyscallEnter(old(St()), ctx, ret), handler))
      decreases handler, 2
    {
      ghost var s := St();
      regsRsp := rsp;
      rsp := hostSp;
      Push(ctx);
      Push(ret);
      assert St() == SyscallEnter(s, ctx, ret) by {
        PushedTwo(s.host, s.hostSp, ctx, ret);
      }
      HostFunction(handler);
      rsp := rsp + 8;
      rsp := regsRsp;
    }

    /** A system call whose handler ends in lfi_ret_end. */
    method ExitThread(ctx: int, ret: int, handler: Host)
      modifies this
      ensures St() == RetEnd(RunHost(SyscallEnter(old(St()), ctx, ret), handler))
      decreases handler, 2
    {
      hide Pushed, RetEnd, RunHost;
      ghost var s := St();
      regsRsp := rsp;
      rsp := hostSp;
      Push(ctx);
      Push(ret);
      PushedTwo(s.host, s.hostSp, ctx, ret);
      HostCode(handler);
      LfiRet();
    }

    /** A system call whose handler ends in lfi_ctx_exit. */
    method ExitContext(ctx: int, ret: int, handler: Host)
      modifies this
      ensures St() == CtxExitEnd(RunHost(SyscallEnter(old(St()), ctx, ret), handler))
      decreases handler, 2
    {
      hide Pushed, EndRun, RunHost;
      ghost var s := St();
      regsRsp := rsp;
      rsp := hostSp;
      Push(ctx);
      Push(ret);
      PushedTwo(s.host, s.hostSp, ctx, ret);
      HostCode(handler);
      if inRun {
        CtxEnd();
      }
    }

    /** lfi_ctx_end. */
    method CtxEnd()
      modifies `rsp, `rbx, `rbp, `r12, `r13, `r14, `r15, `pc
      ensures St() == EndRun(old(St()))
    {
      hide Read;
      rsp := hostSp;
      RestoreRun();
      Ret();
    }

    method RestoreRun()
      modifies `rsp, `rbx, `rbp, `r12, `r13, `r14, `r15
      ensures rsp == old(rsp) + 48
      ensures rbp == Read(host, old(rsp)) && rbx == Read(host, old(rsp) + 8) && r12 == Read(host, old(rsp) + 16)
      ensures r13 == Read(host, old(rsp) + 24) && r14 == Read(host, old(rsp) + 32) && r15 == Read(host, old(rsp) + 40)
    {
      hide Read;
      rbp := Pop();
      rbx := Pop();
      r12 := Pop();
      r13 := Pop();
      r14 := Pop();
      r15 := Pop();
    }

    /** lfi_ctx_run up to the jump into the sandbox, called from `down` words further down. */
    method CtxEntry(down: nat, ret: int)
      modifies this
      ensures St() == EnterRun(old(St()), down, ret)
      ensures rsp == regsRsp == old(regsRsp) && inRun && r14 == base && r15 == ctxReg
    {
      hide Pushed;
      inRun := true;
      rsp := rsp - 8 * down;
      SaveRun(ret);
      LoadRun();
    }

    method LoadRun()
      modifies `hostSp, `rsp, `rbx, `rbp, `r12, `r13, `r14, `r15
      ensures hostSp == old(rsp) && rsp == regsRsp
      ensures rbx == rbp == r12 == r13 == 0 && r14 == base && r15 == ctxReg
    {
      hostSp := rsp;
      rsp := regsRsp;
      rbx, rbp, r12, r13, r14, r15 := 0, 0, 0, 0, base, ctxReg;
    }

    method SaveRun(ret: int)
      modifies `rsp, `host
      ensures rsp == old(rsp) - 56
      ensures host == Pushed(old(host), old(rsp), [ret, r15, r14, r13, r12, rbx, rbp])
    {
      hide Pushed;
      ghost var h, sp := host, rsp;
      Push(ret);
      Push(r15);
      Push(r14);
      Push(r13);
      Push(r12);
      Push(rbx);
      Push(rbp);
      PushedSeven(h, sp, ret, r15, r14, r13, r12, rbx, rbp);
    }

    /** lfi_ctx_run from call to return. */
    method LfiCtxRun(down: nat, ret: int, body: Sand)
      modifies this
      ensures St() == RunContext(old(St()), down, ret, body)
    {
      CtxEntry(down, ret);
      var how := SandCode(body);
      if how == Returns {
        LfiRet();
      }
      rsp := rsp + 8 * down;
      inRun := false;
    }

    /** A host function that keeps the calling convention. */
    method HostFunction(ops: Host)
      modifies this
      ensures St() == RunCallee(old(St()), ops)
      decreases ops, 1
    {
      var sp, b, p, w, x, y, z := rsp, rbx, rbp, r12, r13, r14, r15;
      HostCode(ops);
      rsp, rbx, rbp, r12, r13, r14, r15 := sp + 8, b, p, w, x, y, z;
    }

    method UseRegisters(saved: Saved)
      modifies `rbx, `rbp, `r12, `r13, `r14, `r15
      ensures St() == old(St()).(saved := saved)
    {
      rbx, rbp, r12, r13, r14, r15 := saved.rbx, saved.rbp, saved.r12, saved.r13, saved.r14, saved.r15;
    }

    method HostCode(ops: Host)
      modifies this
      ensures St() == RunHost(old(St()), ops)
      decreases ops, 0
    {
      hide RunInvoke, RunSand, RunCallee, Pushed, Flag;
      match ops
      case Back =>
      case Store(k, v, next) =>
        host := host[rsp - 8 * k - 8 := v];
        HostCode(next);
      case Use(saved, next) =>
        UseRegisters(saved);
        HostCode(next);
      case Abort(next) =>
        abort := 1;
        HostCode(next);
      case Invoke(down, ret, body, next) =>
        LfiInvoke(down, ret, body);
        HostCode(next);
    }

    /** One invoke from call to return. */
    method LfiInvoke(down: nat, ret: int, body: Sand)
      modifies this
      ensures St() == RunInvoke(old(St()), down, ret, body)
      decreases body, 1
    {
      Trampoline(down, ret);
      var how := SandCode(body);
      if how == Returns {
        LfiRet();
      }
      rsp := rsp + 8 * down;
    }

    method SandCode(ops: Sand) returns (how: How)
      modifies this
      ensures (St(), how) == RunSand(old(St()), ops)
      decreases ops, 0
    {
      hide RunHost, RunCallee, CallbackEnter, CallbackExit, CallbackAbort, SyscallEnter, SyscallExit, RetEnd,
        CtxExitEnd;
      match ops
      case Return => how := Returns;
      case Work(sp, b, p, w, x, next) =>
        rsp, rbx, rbp, r12, r13 := sp, b, p, w, x;
        how := SandCode(next);
      case Callback(ctx, ret, handler, next) =>
        var aborted := LfiCallback(ctx, ret, handler);
        how := Unwinds;
        if !aborted {
          how := SandCode(next);
        }
      case Syscall(ctx, ret, handler, next) =>
        LfiSyscall(ctx, ret, handler);
        how := SandCode(next);
      case Exit(ctx, ret, handler) =>
        ExitThread(ctx, ret, handler);
        how := Unwinds;
      case CtxExit(ctx, ret, handler) =>
        ExitContext(ctx, ret, handler);
        how := Exits;
    }
  }

  lemma PushedOne(h: map<int, int>, sp: int, a: int, vs: seq<int>)
    ensures Pushed(h, sp, [a] + vs) == Pushed(h[sp - 8 := a], sp - 8, vs)
  {
    assert ([a] + vs)[1..] == vs;
  }

  lemma PushedTwo(h: map<int, int>, sp: int, a: int, b: int)
    ensures Pushed(h, sp, [a, b]) == h[sp - 8 := a][sp - 16 := b]
  {
    PushedOne(h, sp, a, [b]);
    PushedOne(h[sp - 8 := a], sp - 8, b, []);
    assert [a, b] == [a] + [b] && [b] + [] == [b];
  }

  lemma PushedFour(h: map<int, int>, sp: int, a: int, b: int, c: int, d: int)
    ensures Pushed(h, sp, [a, b, c, d]) == h[sp - 8 := a][sp - 16 := b][sp - 24 := c][sp - 32 := d]
  {
    hide Pushed;
    PushedOne(h, sp, a, [b, c, d]);
    PushedOne(h[sp - 8 := a], sp - 8, b, [c, d]);
    assert [a, b, c, d] == [a] + [b, c, d] && [b, c, d] == [b] + [c, d];
    PushedTwo(h[sp - 8 := a][sp - 16 := b], sp - 16, c, d);
  }

  lemma PushedSeven(h: map<int, int>, sp: int, a: int, b: int, c: int, d: int, e: int, f: int, g: int)
    ensures Pushed(h, sp, [a, b, c, d, e, f, g]) ==
            h[sp - 8 := a][sp - 16 := b][sp - 24 := c][sp - 32 := d][sp - 40 := e][sp - 48 := f][sp - 56 := g]
  {
    hide Pushed;
    PushedOne(h, sp, a, [b, c, d, e, f, g]);
    PushedOne(h[sp - 8 := a], sp - 8, b, [c, d, e, f, g]);
    var h2 := h[sp - 8 := a][sp - 16 := b];
    PushedOne(h2, sp - 16, c, [d, e, f, g]);
    PushedFour(h2[sp - 24 := c], sp - 24, d, e, f, g);
    assert [a, b, c, d, e, f, g] == [a] + [b, c, d, e, f, g];
    assert [b, c, d, e, f, g] == [b] + [c, d, e, f, g];
    assert [c, d, e, f, g] == [c] + [d, e, f, g];
  }

  lemma PushedNine(h: map<int, int>, sp: int, a: int, b: int, c: int, d: int, e: int, f: int, g: int, i: int, j: int)
    ensures Pushed(h, sp, [a, b, c, d, e, f, g, i, j]) ==
            h[sp - 8 := a][sp - 16 := b][sp - 24 := c][sp - 32 := d][sp - 40 := e][sp - 48 := f][sp - 56 := g]
             [sp - 64 := i][sp - 72 := j]
  {
    hide Pushed;
    PushedOne(h, sp, a, [b, c, d, e, f, g, i, j]);
    PushedOne(h[sp - 8 := a], sp - 8, b, [c, d, e, f, g, i, j]);
    var h2 := h[sp - 8 := a][sp - 16 := b];
    PushedOne(h2, sp - 16, c, [d, e, f, g, i, j]);
    PushedOne(h2[sp - 24 := c], sp - 24, d, [e, f, g, i, j]);
    var h4 := h2[sp - 24 := c][sp - 32 := d];
    PushedOne(h4, sp - 32, e, [f, g, i, j]);
    PushedFour(h4[sp - 40 := e], sp - 40, f, g, i, j);
    assert [a, b, c, d, e, f, g, i, j] == [a] + [b, c, d, e, f, g, i, j];
    assert [b, c, d, e, f, g, i, j] == [b] + [c, d, e, f, g, i, j];
    assert [c, d, e, f, g, i, j] == [c] + [d, e, f, g, i, j];
    assert [d, e, f, g, i, j] == [d] + [e, f, g, i, j];
    assert [e, f, g, i, j] == [e] + [f, g, i, j];
  }
}
