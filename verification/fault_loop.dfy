/** The kernel objects the fault loop drives: two TCBs that share one fault
    endpoint, and the reply capability left by the last receive. */
module KernelObjects {
  import opened Words

  datatype RunState = Runnable | BlockedOnFault | Inactive

  /** RIP, RSP, RFLAGS, RAX, RBX, RCX, RDX, RSI, RDI, RBP, R8..R15, FS_BASE, GS_BASE. */
  type Regs = s: seq<Word> | |s| == 20 witness seq(20, _ => 0)

  const RIP := 0
  const RAX := 3
  const RSI := 7
  const RDI := 8
  const FS_BASE := 18

  /** The registers after an emulated call: its result in RAX, RIP past the two-byte instruction. */
  function Advanced(regs: Regs, ret: Word): Regs {
    regs[RAX := ret][RIP := Wrap(regs[RIP] as int + 2)]
  }

  datatype Tcb = Tcb(run: RunState, regs: Regs)

  /** `Parent` is the slot of the busybox TCB, `Child` the slot of the fork TCB. */
  datatype Thread = Parent | Child

  datatype KState = KState(parent: Tcb, child: Tcb, replyTo: Option<Thread>) {
    function Of(t: Thread): Tcb {
      if t == Parent then parent else child
    }

    function With(t: Thread, tcb: Tcb): KState {
      if t == Parent then this.(parent := tcb) else this.(child := tcb)
    }

    /** The thread runs with some registers and faults; receiving drops any older reply capability. */
    function Received(t: Thread, regs: Regs): KState {
      With(t, Tcb(BlockedOnFault, regs)).(replyTo := Some(t))
    }

    /** An empty reply restarts the last received faulter if it still waits for one. */
    function Replied(): KState {
      match replyTo
      case None => this
      case Some(t) =>
        (if Of(t).run == BlockedOnFault then With(t, Of(t).(run := Runnable)) else this).(replyTo := None)
    }

    function Resumed(t: Thread): KState {
      With(t, Of(t).(run := Runnable))
    }

    function Suspended(t: Thread): KState {
      With(t, Of(t).(run := Inactive))
    }

    /** The first `count` registers are replaced, the others keep their value. */
    function Written(t: Thread, count: nat, regs: Regs): KState
      requires count <= 20
    {
      With(t, Of(t).(regs := regs[..count] + Of(t).regs[count..]))
    }
  }

  /** The kernel as the root task sees it: invocations that change the two TCBs. */
  class Kernel {
    var state: KState

    constructor (parentRegs: Regs)
      ensures state == KState(Tcb(Runnable, parentRegs), Tcb(Inactive, seq(20, _ => 0)), None)
    {
      state := KState(Tcb(Runnable, parentRegs), Tcb(Inactive, seq(20, _ => 0)), None);
    }

    method Recv(t: Thread, regs: Regs)
      requires state.Of(t).run == Runnable
      modifies this
      ensures state == old(state).Received(t, regs)
    {
      state := state.Received(t, regs);
    }

    method Reply()
      modifies this
      ensures state == old(state).Replied()
    {
      state := state.Replied();
    }

    method Resume(t: Thread)
      modifies this
      ensures state == old(state).Resumed(t)
    {
      state := state.Resumed(t);
    }

    method Suspend(t: Thread)
      modifies this
      ensures state == old(state).Suspended(t)
    {
      state := state.Suspended(t);
    }

    method ReadRegisters(t: Thread) returns (regs: Regs)
      ensures regs == state.Of(t).regs
    {
      regs := state.Of(t).regs;
    }

    method WriteRegisters(t: Thread, resume: bool, count: nat, regs: Regs)
      requires count <= 20
      modifies this
      ensures state == var w := old(state).Written(t, count, regs); if resume then w.Resumed(t) else w
    {
      state := state.Written(t, count, regs);
      if resume { state := state.Resumed(t); }
    }

    method SetTlsBase(t: Thread, base: Word)
      modifies this
      ensures state == old(state).With(t, old(state).Of(t).(regs := old(state).Of(t).regs[FS_BASE := base]))
    {
      state := state.With(t, state.Of(t).(regs := state.Of(t).regs[FS_BASE := base]));
    }
  }
}

/** The fault and fork loop of the root task. */
module FaultLoop {
  import opened Words
  import opened KernelObjects

  const CHILD_PID: Word := 42
  const BRK_BASE: Word := 0x0700_0000
  const MMAP_BASE: Word := 0x1000_0000
  const MAX_FAULTS := 100000

  /** What mapping a frame for a VM fault came to. */
  datatype MapOutcome = Handled | MapFailed

  /** One received fault: the thread that ran until it faulted, its registers at
      that point, the message label, and what the environment contributes. */
  datatype Fault = Fault(
    who: Thread,
    regs: Regs,
    tag: Word,
    addr: Word,           // MR1 of a VM fault
    ip: Word,             // MR0 of a capability fault
    syscallAtIp: bool,    // the bytes at `ip` are 0f 05
    mapping: MapOutcome,
    ret: Word)            // result of an emulated call that touches no loop state

  datatype State = State(
    k: KState,
    active: Thread,
    isChild: bool,
    parentRegs: Option<Regs>,
    parentBrk: Word,
    parentMmap: Word,
    brk: Word,
    mmap: Word,
    forkReady: bool,
    faults: nat,
    stopped: bool)

  // ---- the transition relation ----

  predicate PatchesSyscall(e: Fault) {
    e.tag % 16 == 1 && e.ip != 0 && e.ip != WORD - 1 && e.syscallAtIp
  }

  /** Length reserved for an mmap request: rounded up to pages, at least one page. */
  function GrantLength(request: Word): Word {
    var len := PageDown(Wrap(request + 0xFFF));
    if len < 0x1000 then 0x1000 else len
  }

  /** What an emulated call amounts to, whichever thread made it. */
  datatype Action =
    | Answer(regs: Regs, ret: Word, brk: Word, mmap: Word)
    | StartChild(regs: Regs)
    | EndChild
    | EndLoop

  /** The system-call table, for the registers of the active thread. */
  function Decide(s: State, regs: Regs, ret: Word): Action {
    match regs[RAX]
    case 9 => Answer(regs, s.mmap, s.brk, Wrap(s.mmap + GrantLength(regs[RSI])))
    case 12 => var brk := if regs[RDI] == 0 then s.brk else regs[RDI]; Answer(regs, brk, brk, s.mmap)
    case 56 => if s.forkReady then StartChild(regs) else Answer(regs, Wrap(-38), s.brk, s.mmap)
    case 57 => if s.forkReady then StartChild(regs) else Answer(regs, Wrap(-38), s.brk, s.mmap)
    case 59 => if s.isChild then EndChild else Answer(regs, 0, s.brk, s.mmap)
    case 60 => if s.isChild then EndChild else EndLoop
    case 231 => if s.isChild then EndChild else EndLoop
    case 61 => Answer(regs, if s.isChild then Wrap(-10) else CHILD_PID, s.brk, s.mmap)
    case 158 =>
      Answer(if regs[RDI] == 0x1002 then regs[FS_BASE := regs[RSI]] else regs, 0, s.brk, s.mmap)
    case _ => Answer(regs, ret, s.brk, s.mmap)
  }

  function Perform(s: State, a: Action): State
    requires a.EndChild? ==> s.parentRegs.Some?
  {
    match a
    case Answer(regs, ret, brk, mmap) =>
      // the active thread gets its result, the faulter is restarted
      s.(k := s.k.With(s.active, s.k.Of(s.active).(regs := Advanced(regs, ret))).Replied(),
         brk := brk, mmap := mmap)
    case StartChild(regs) =>
      s.(k := s.k.With(Child, Tcb(Runnable, Advanced(regs, 0))),
         parentRegs := Some(regs), parentBrk := s.brk, parentMmap := s.mmap,
         active := Child, isChild := true)
    case EndChild =>
      // the child is suspended, the snapshot put back and the parent resumed
      s.(k := s.k.Suspended(s.active).Written(Parent, 18, Advanced(s.parentRegs.value, CHILD_PID)).Resumed(Parent),
         active := Parent, isChild := false, parentRegs := None,
         brk := s.parentBrk, mmap := s.parentMmap)
    case EndLoop =>
      s.(k := s.k.Suspended(s.active), stopped := true)
  }

  function Syscall(s: State, ret: Word): State
    requires Linked(s)
  {
    Perform(s, Decide(s, s.k.Of(s.active).regs, ret))
  }

  function VmFault(s: State, e: Fault): State {
    if PageDown(e.addr) < 0x1000 || e.mapping == MapFailed then
      s.(k := s.k.Replied().Suspended(Parent), stopped := true)
    else
      s.(k := s.k.Replied())
  }

  function Receive(s: State, e: Fault): State {
    s.(k := s.k.Received(e.who, e.regs), faults := s.faults + 1)
  }

  /** The arms of the match on the fault type. */
  function Dispatch(r: State, e: Fault): State
    requires Linked(r)
  {
    var faultType := e.tag % 16;
    if faultType == 1 then
      if PatchesSyscall(e) then r.(k := r.k.Resumed(Parent)) else r.(k := r.k.Replied())
    else if faultType == 2 then Syscall(r, e.ret)
    else if faultType == 3 then r.(k := r.k.Suspended(Parent), stopped := true)
    else if faultType == 4 || faultType == 5 then VmFault(r, e)
    else r.(k := r.k.Replied())
  }

  /** One turn of the loop, from one receive to the next. Whatever the fault, the records of
      the running child stay in step and at most one thread can run afterwards. */
  function Next(s: State, e: Fault): (t: State)
    requires Linked(s)
    ensures AtMostOneRunnable(s) && Enabled(s, e) ==> Sound(t) && t.forkReady == s.forkReady
  {
    var r := Receive(s, e);
    if r.faults > MAX_FAULTS then r.(stopped := true) else Dispatch(r, e)
  }

  /** A fault can arrive while the loop is still serving and its sender can run. */
  predicate Enabled(s: State, e: Fault) {
    !s.stopped && s.k.Of(e.who).run == Runnable
  }

  function Initial(regs: Regs, forkReady: bool): State {
    State(KState(Tcb(Runnable, regs), Tcb(Inactive, seq(20, _ => 0)), None),
          Parent, false, None, BRK_BASE, MMAP_BASE, BRK_BASE, MMAP_BASE, forkReady, 0, false)
  }

  // ---- what each kind of fault comes to ----

  /** The loop serves a system call. */
  predicate Calls(s: State, e: Fault) {
    e.tag % 16 == 2 && s.faults < MAX_FAULTS
  }

  /** The registers it then acts on: those of the active thread, whoever faulted. */
  function CallRegs(s: State, e: Fault): Regs {
    s.k.Received(e.who, e.regs).Of(s.active).regs
  }

  /** The turn leaves `ret` in the active thread's RAX (3), takes its RIP (0) past the
      instruction and keeps the other registers of `regs`. The faulter runs again, and apart
      from the cursors the loop's records stay. */
  predicate Answered(s: State, e: Fault, t: State, regs: Regs, ret: Word, brk: Word, mmap: Word) {
    var out := t.k.Of(s.active).regs;
    && out[3] == ret && out[0] == Wrap(regs[0] as int + 2)
    && (forall i :: 0 <= i < 20 && i != 0 && i != 3 ==> out[i] == regs[i])
    && (forall x: Thread :: t.k.Of(x).run == if x == e.who then Runnable else s.k.Of(x).run)
    && (forall x: Thread :: x != s.active ==> t.k.Of(x).regs == if x == e.who then e.regs else s.k.Of(x).regs)
    && t == s.(k := t.k, faults := s.faults + 1, brk := brk, mmap := mmap)
  }

  lemma AnswerMeans(s: State, e: Fault, regs: Regs, ret: Word, brk: Word, mmap: Word)
    requires Linked(s) && Enabled(s, e) && Calls(s, e)
    requires Decide(Receive(s, e), CallRegs(s, e), e.ret) == Answer(regs, ret, brk, mmap)
    ensures Answered(s, e, Next(s, e), regs, ret, brk, mmap)
  {
    hide Decide;
  }

  /** What each answered call returns and what becomes of the cursors, by the call's number
      in RAX, with its arguments in RDI (8) and RSI (7). */
  lemma CallsAreAnswered(s: State, e: Fault)
    requires Linked(s) && Enabled(s, e) && Calls(s, e)
    ensures var (t, regs) := (Next(s, e), CallRegs(s, e)); var (rax, rsi, rdi) := (regs[3], regs[7], regs[8]);
            && (rax == 9 ==> Answered(s, e, t, regs, s.mmap, s.brk, Wrap(s.mmap + GrantLength(rsi))))
            && (rax == 12 && rdi == 0 ==> Answered(s, e, t, regs, s.brk, s.brk, s.mmap))
            && (rax == 12 && rdi != 0 ==> Answered(s, e, t, regs, rdi, rdi, s.mmap))
            && (rax in {56, 57} && !s.forkReady ==> Answered(s, e, t, regs, WORD - 38, s.brk, s.mmap))
            && (rax == 59 && !s.isChild ==> Answered(s, e, t, regs, 0, s.brk, s.mmap))
            && (rax == 61 ==> Answered(s, e, t, regs, if s.isChild then WORD - 10 else 42, s.brk, s.mmap))
            && (rax == 158 && rdi == 0x1002 ==> Answered(s, e, t, regs[18 := rsi], 0, s.brk, s.mmap))
            && (rax == 158 && rdi != 0x1002 ==> Answered(s, e, t, regs, 0, s.brk, s.mmap))
            && (rax !in {9, 12, 56, 57, 59, 60, 61, 158, 231} ==> Answered(s, e, t, regs, e.ret, s.brk, s.mmap))
  {
    hide Linked, Enabled, Calls, CallRegs, Answered, Next, Wrap, GrantLength;
    NegativeWords();
    var a := Decide(Receive(s, e), CallRegs(s, e), e.ret);
    if a.Answer? { AnswerMeans(s, e, a.regs, a.ret, a.brk, a.mmap); }
  }

  lemma NegativeWords()
    ensures Wrap(-38) == WORD - 38 && Wrap(-10) == WORD - 10
  {}

  /** The loop ends after one fault too many, a CPU exception, a page fault in the lowest page
      or one that cannot be mapped, and the parent's exit; after nothing else. */
  lemma LoopEnds(s: State, e: Fault)
    requires Linked(s) && Enabled(s, e)
    ensures var (faultType, rax) := (e.tag % 16, CallRegs(s, e)[3]);
            Next(s, e).stopped <==>
            || s.faults >= 100000
            || faultType == 3
            || (faultType in {4, 5} && (e.addr < 0x1000 || e.mapping == MapFailed))
            || (faultType == 2 && rax in {60, 231} && !s.isChild)
  {
    hide Linked;
  }

  /** What the loop leaves behind: past its limit everything as the fault found it, otherwise
      the parent suspended. A child whose page cannot be mapped can still run. */
  lemma StoppedThreads(s: State, e: Fault)
    requires Linked(s) && Enabled(s, e) && Next(s, e).stopped
    ensures var (t, r) := (Next(s, e), s.k.Received(e.who, e.regs)); var faultType := e.tag % 16;
            && t == s.(k := t.k, faults := s.faults + 1, stopped := true)
            && (forall x: Thread :: t.k.Of(x).regs == r.Of(x).regs)
            && (s.faults >= 100000 ==> t.k == r)
            && (s.faults < 100000 ==> t.k.parent.run == Inactive)
            && (s.faults < 100000 ==>
                  t.k.child.run == if e.who == Child && faultType in {4, 5} then Runnable else r.child.run)
  {}

  /** Every other fault that is no system call restarts the thread that faulted, just as it
      was; a patch restarts the parent whoever faulted. */
  lemma FaultIsPassedOver(s: State, e: Fault)
    requires Linked(s) && Enabled(s, e) && e.tag % 16 != 2 && !Next(s, e).stopped
    ensures var t := Next(s, e); var patched := e.tag % 16 == 1 && e.ip != 0 && e.ip != WORD - 1 && e.syscallAtIp;
            && t == s.(k := t.k, faults := s.faults + 1)
            && (forall x: Thread :: t.k.Of(x).regs == if x == e.who then e.regs else s.k.Of(x).regs)
            && (!patched ==> t.k.Of(e.who).run == Runnable)
            && (patched ==> t.k.parent.run == Runnable && (e.who == Child ==> t.k.child.run == BlockedOnFault))
            && (forall x: Thread :: x != e.who && !(patched && x == Parent) ==> t.k.Of(x).run == s.k.Of(x).run)
  {}

  // ---- what each turn keeps ----

  /** The three records of "a child is running" agree, so every `unwrap` of the snapshot is safe. */
  predicate Linked(s: State) {
    && (s.isChild <==> s.parentRegs.Some?)
    && (s.isChild <==> s.active == Child)
  }

  predicate AtMostOneRunnable(s: State) {
    s.k.parent.run != Runnable || s.k.child.run != Runnable
  }

  /** The two invariants of the loop head. */
  predicate Sound(s: State) {
    Linked(s) && AtMostOneRunnable(s)
  }

  /** Faults that can arrive one after the other; only this limits a run. */
  ghost predicate Trace(s: State, es: seq<Fault>)
    requires Sound(s)
    decreases |es|
  {
    es == [] || (Enabled(s, es[0]) && Trace(Next(s, es[0]), es[1..]))
  }

  ghost function Run(s: State, es: seq<Fault>): State
    requires Sound(s) && Trace(s, es)
    decreases |es|
  {
    if es == [] then s else Run(Next(s, es[0]), es[1..])
  }

  /** Over every run, of any length and with any faults, the records of the running
      child agree at the loop head and at most one of the two TCBs is runnable. */
  lemma {:induction false} RunKeepsInvariants(s: State, es: seq<Fault>)
    requires Sound(s) && Trace(s, es)
    ensures Linked(Run(s, es)) && AtMostOneRunnable(Run(s, es))
    decreases |es|
  {
    if es != [] { RunKeepsInvariants(Next(s, es[0]), es[1..]); }
  }

  lemma RunFirst(s: State, e: Fault, es: seq<Fault>)
    requires Sound(s) && Enabled(s, e) && Trace(Next(s, e), es)
    ensures Trace(s, [e] + es) && Run(s, [e] + es) == Run(Next(s, e), es)
  {
    assert ([e] + es)[1..] == es;
  }

  lemma {:induction false} TraceSplit(s: State, xs: seq<Fault>, ys: seq<Fault>)
    requires Sound(s) && Trace(s, xs + ys)
    ensures Trace(s, xs) && Sound(Run(s, xs)) && Trace(Run(s, xs), ys)
    ensures Run(s, xs + ys) == Run(Run(s, xs), ys)
    decreases |xs|
  {
    if xs == [] {
      assert xs + ys == ys;
    } else {
      assert (xs + ys)[1..] == xs[1..] + ys;
      TraceSplit(Next(s, xs[0]), xs[1..], ys);
    }
  }

  lemma NextIsSound(s: State, e: Fault)
    requires Sound(s) && Enabled(s, e)
    ensures Sound(Next(s, e))
  {}

  // ---- the runnable thread is the active one ----

  /** While the loop serves, exactly the active thread can run. */
  predicate Healthy(s: State) {
    Linked(s) &&
    (s.stopped ||
     (s.k.Of(s.active).run == Runnable &&
      s.k.Of(if s.active == Parent then Child else Parent).run != Runnable))
  }

  predicate PatchTaken(s: State, e: Fault) {
    PatchesSyscall(e) && s.faults < MAX_FAULTS
  }

  /** Patching a syscall instruction restarts the parent TCB whoever faulted, so a
      turn keeps "the active thread is the one that runs" exactly when it does not
      patch on behalf of the child. */
  lemma HealthyUnlessPatchingTheChild(s: State, e: Fault)
    requires Healthy(s) && Enabled(s, e)
    ensures Healthy(Next(s, e)) <==> !(s.isChild && PatchTaken(s, e))
  {
    assert e.who == s.active;
  }

  ghost predicate NoPatchInChild(s: State, es: seq<Fault>)
    requires Sound(s) && Trace(s, es)
    decreases |es|
  {
    es == [] ||
    (!(s.isChild && PatchTaken(s, es[0])) && NoPatchInChild(Next(s, es[0]), es[1..]))
  }

  ghost predicate HealthyThroughout(s: State, es: seq<Fault>)
    requires Sound(s) && Trace(s, es)
    decreases |es|
  {
    Healthy(s) && (es == [] || HealthyThroughout(Next(s, es[0]), es[1..]))
  }

  /** The runnable TCB is the active one at every loop head of a run if and only if no turn
      of it patches on behalf of the child. */
  lemma {:induction false} RunnableIsActive(s: State, es: seq<Fault>)
    requires Healthy(s) && Sound(s) && Trace(s, es)
    ensures HealthyThroughout(s, es) <==> NoPatchInChild(s, es)
    ensures NoPatchInChild(s, es) ==> Healthy(Run(s, es))
    decreases |es|
  {
    hide Next, Healthy;
    if es != [] {
      HealthyUnlessPatchingTheChild(s, es[0]);
      NextIsSound(s, es[0]);
      if Healthy(Next(s, es[0])) {
        RunnableIsActive(Next(s, es[0]), es[1..]);
      }
    }
  }

  lemma InitialIsHealthy(regs: Regs, forkReady: bool)
    ensures Healthy(Initial(regs, forkReady)) && AtMostOneRunnable(Initial(regs, forkReady))
    ensures CursorsOrdered(Initial(regs, forkReady))
    ensures var s := Initial(regs, forkReady);
            && s.brk == 0x0700_0000 && s.mmap == 0x1000_0000 && s.k.parent == Tcb(Runnable, regs)
            && !s.isChild && !s.stopped && s.faults == 0 && s.forkReady == forkReady
  {}

  // ---- fork is transparent to the parent ----

  predicate ForkTaken(s: State, e: Fault) {
    Calls(s, e) && s.forkReady && CallRegs(s, e)[RAX] in {56, 57}
  }

  /** The child's exit and its execve both hand control back. */
  predicate ReturnTaken(s: State, e: Fault) {
    Calls(s, e) && s.isChild && CallRegs(s, e)[RAX] in {59, 60, 231}
  }

  /** What the loop remembers of a forking thread. */
  datatype Snapshot = Snapshot(regs: Regs, brk: Word, mmap: Word)

  /** The parent sleeps with the registers it forked with, while the loop holds `snap`. */
  predicate Sleeping(s: State, regs: Regs, snap: Snapshot) {
    && Healthy(s) && s.isChild && !s.stopped
    && s.k.parent == Tcb(BlockedOnFault, regs)
    && s.parentRegs == Some(snap.regs) && s.parentBrk == snap.brk && s.parentMmap == snap.mmap
  }

  /** The parent runs again as if the fork had been one instruction returning the child's pid. */
  predicate BackInParent(s: State, regs: Regs, brk: Word, mmap: Word) {
    && Healthy(s) && !s.isChild && !s.stopped
    && s.k.parent == Tcb(Runnable, Advanced(regs, CHILD_PID))
    && s.k.child.run == Inactive
    && s.brk == brk && s.mmap == mmap
  }

  lemma ForkPutsParentToSleep(s: State, e: Fault)
    requires Healthy(s) && Enabled(s, e) && !s.isChild && ForkTaken(s, e)
    ensures Sleeping(Next(s, e), e.regs, Snapshot(e.regs, s.brk, s.mmap))
    ensures Next(s, e).k.child == Tcb(Runnable, Advanced(e.regs, 0))
    ensures Next(s, e).brk == s.brk && Next(s, e).mmap == s.mmap
  {
    var c := Advanced(e.regs, 0);
    assert c[..20] == c;
  }

  /** Faults that end the loop whoever raised them: one too many, a CPU exception, or a page
      that cannot be mapped. */
  predicate EndsLoop(s: State, e: Fault) {
    var faultType := e.tag % 16;
    || s.faults >= MAX_FAULTS
    || faultType == 3
    || ((faultType == 4 || faultType == 5) && (PageDown(e.addr) < 0x1000 || e.mapping == MapFailed))
  }

  /** Turns after which the child is still there and the parent still asleep. */
  predicate StaysInChild(s: State, e: Fault) {
    !EndsLoop(s, e) && !ReturnTaken(s, e) && !PatchTaken(s, e)
  }

  function SnapshotAfter(s: State, e: Fault, snap: Snapshot): Snapshot {
    if ForkTaken(s, e) then Snapshot(e.regs, s.brk, s.mmap) else snap
  }

  /** A turn of the child leaves the sleeping parent alone and the snapshot as it was exactly
      when it neither patches, nor ends the child or the loop, nor forks over a different
      snapshot; a fork replaces the snapshot. */
  lemma ChildTurn(s: State, e: Fault, regs: Regs, snap: Snapshot)
    requires Sleeping(s, regs, snap) && Enabled(s, e)
    ensures Sleeping(Next(s, e), regs, snap) <==> StaysInChild(s, e) && SnapshotAfter(s, e, snap) == snap
    ensures StaysInChild(s, e) ==> Sleeping(Next(s, e), regs, SnapshotAfter(s, e, snap))
  {
    assert e.who == Child;
    var c := Advanced(e.regs, 0);
    assert c[..20] == c;
  }

  /** Handing a snapshot back is the same as handing back these registers and cursors: the
      18 registers that are written agree, and so do the cursors. */
  predicate Restores(snap: Snapshot, regs: Regs, brk: Word, mmap: Word) {
    && Advanced(snap.regs, CHILD_PID)[..18] == Advanced(regs, CHILD_PID)[..18]
    && snap.brk == brk && snap.mmap == mmap
  }

  lemma ReturnRestoresParent(s: State, e: Fault, regs: Regs, snap: Snapshot, brk: Word, mmap: Word)
    requires Sleeping(s, regs, snap) && Enabled(s, e) && ReturnTaken(s, e)
    ensures BackInParent(Next(s, e), regs, brk, mmap) <==> Restores(snap, regs, brk, mmap)
  {
    var wanted, given := Advanced(regs, CHILD_PID), Advanced(snap.regs, CHILD_PID);
    var restored := given[..18] + regs[18..];
    assert wanted == wanted[..18] + regs[18..];
    assert restored[..18] == given[..18];
    assert Next(s, e).k.parent == Tcb(Runnable, restored);
  }

  /** Turns that stay in the child, nested forks included. */
  ghost predicate OnlyChildTurns(s: State, es: seq<Fault>)
    requires Sound(s) && Trace(s, es)
    decreases |es|
  {
    es == [] || (StaysInChild(s, es[0]) && OnlyChildTurns(Next(s, es[0]), es[1..]))
  }

  /** The snapshot of the last fork taken, or the one there was if there is none. */
  ghost function LastSnapshot(s: State, es: seq<Fault>, snap: Snapshot): Snapshot
    requires Sound(s) && Trace(s, es)
    decreases |es|
  {
    if es == [] then snap else LastSnapshot(Next(s, es[0]), es[1..], SnapshotAfter(s, es[0], snap))
  }

  lemma {:induction false} ChildTurnsKeepParentAsleep(s: State, es: seq<Fault>, regs: Regs, snap: Snapshot)
    requires Sleeping(s, regs, snap) && Sound(s) && Trace(s, es) && OnlyChildTurns(s, es)
    ensures Sleeping(Run(s, es), regs, LastSnapshot(s, es, snap))
    decreases |es|
  {
    hide Next, Sleeping, StaysInChild, SnapshotAfter;
    if es != [] {
      NextIsSound(s, es[0]);
      ChildTurn(s, es[0], regs, snap);
      ChildTurnsKeepParentAsleep(Next(s, es[0]), es[1..], regs, SnapshotAfter(s, es[0], snap));
    }
  }

  /** A fork, any number of turns that stay in the child, and the child's exit or execve: the
      parent resumes with all twenty fork-time registers except RAX (the child's pid) and RIP
      (past the instruction), and with its own cursors, if and only if the last snapshot
      taken restores those. Nested forks are included. */
  lemma ParentIsRestoredIff(s: State, fork: Fault, body: seq<Fault>, last: Fault)
    requires Healthy(s) && Sound(s) && !s.isChild && !s.stopped
    requires Trace(s, [fork] + body + [last])
    requires Enabled(s, fork) && ForkTaken(s, fork)
    requires Trace(Next(s, fork), body) && OnlyChildTurns(Next(s, fork), body)
    requires ReturnTaken(Run(Next(s, fork), body), last)
    ensures BackInParent(Run(s, [fork] + body + [last]), fork.regs, s.brk, s.mmap) <==>
            Restores(LastSnapshot(Next(s, fork), body, Snapshot(fork.regs, s.brk, s.mmap)), fork.regs, s.brk, s.mmap)
  {
    hide Sleeping, BackInParent, Restores, ReturnTaken, StaysInChild;
    var forked, own := Next(s, fork), Snapshot(fork.regs, s.brk, s.mmap);
    assert [fork] + body + [last] == [fork] + (body + [last]);
    assert ([fork] + (body + [last]))[1..] == body + [last];
    ForkPutsParentToSleep(s, fork);
    TraceSplit(forked, body, [last]);
    ChildTurnsKeepParentAsleep(forked, body, fork.regs, own);
    var mid := Run(forked, body);
    ReturnRestoresParent(mid, last, fork.regs, LastSnapshot(forked, body, own), s.brk, s.mmap);
    RunFirst(mid, last, []);
    assert [last] + [] == [last];
  }

  ghost predicate NoFork(s: State, es: seq<Fault>)
    requires Sound(s) && Trace(s, es)
    decreases |es|
  {
    es == [] || (!ForkTaken(s, es[0]) && NoFork(Next(s, es[0]), es[1..]))
  }

  lemma {:induction false} SnapshotStays(s: State, es: seq<Fault>, snap: Snapshot)
    requires Sound(s) && Trace(s, es) && NoFork(s, es)
    ensures LastSnapshot(s, es, snap) == snap
    decreases |es|
  {
    hide Next, ForkTaken;
    if es != [] {
      NextIsSound(s, es[0]);
      SnapshotStays(Next(s, es[0]), es[1..], snap);
    }
  }

  /** So whatever a child that does not fork in turn does until its exit or execve, the parent
      resumes as if the fork had been one instruction. */
  lemma ForkIsTransparent(s: State, fork: Fault, body: seq<Fault>, last: Fault)
    requires Healthy(s) && Sound(s) && !s.isChild && !s.stopped
    requires Trace(s, [fork] + body + [last])
    requires Enabled(s, fork) && ForkTaken(s, fork)
    requires Trace(Next(s, fork), body) && OnlyChildTurns(Next(s, fork), body) && NoFork(Next(s, fork), body)
    requires ReturnTaken(Run(Next(s, fork), body), last)
    ensures BackInParent(Run(s, [fork] + body + [last]), fork.regs, s.brk, s.mmap)
  {
    hide BackInParent, OnlyChildTurns, ReturnTaken, ForkTaken, Healthy;
    SnapshotStays(Next(s, fork), body, Snapshot(fork.regs, s.brk, s.mmap));
    ParentIsRestoredIff(s, fork, body, last);
  }

  /** A child that forks again overwrites the one snapshot: the parent then wakes at
      the child's instruction pointer. */
  lemma NestedForkLosesTheParent(regs: Regs, childRegs: Regs, exitRegs: Regs)
    requires regs[RAX] == 57 && childRegs[RAX] == 57 && exitRegs[RAX] == 60
    ensures
      var call := (who, r) => Fault(who, r, 2, 0, 0, false, Handled, 0);
      var s0 := Initial(regs, true);
      var es := [call(Parent, regs), call(Child, childRegs), call(Child, exitRegs)];
      && Trace(s0, es)
      && Run(s0, es).k.parent.regs[RIP] == Wrap(childRegs[RIP] as int + 2)
  {
    var call := (who, r) => Fault(who, r, 2, 0, 0, false, Handled, 0);
    var s0 := Initial(regs, true);
    var a, b, c := call(Parent, regs), call(Child, childRegs), call(Child, exitRegs);
    var s1 := Next(s0, a);
    ForkPutsParentToSleep(s0, a);
    var s2 := Next(s1, b);
    assert s2.parentRegs == Some(childRegs);
    var s3 := Next(s2, c);
    RunFirst(s2, c, []);
    RunFirst(s1, b, [c]);
    RunFirst(s0, a, [b, c]);
    assert [c] + [] == [c] && [b] + [c] == [b, c] && [a] + [b, c] == [a, b, c];
  }

  // ---- mmap regions handed to the parent ----

  datatype Region = Region(lo: Word, len: Word)

  predicate MmapTaken(s: State, e: Fault) {
    Calls(s, e) && CallRegs(s, e)[RAX] == 9
  }

  function MmapRequest(s: State, e: Fault): Word {
    CallRegs(s, e)[RSI]
  }

  /** The call returns the old cursor in RAX and moves the cursor past the reservation. */
  lemma MmapHandsOutTheCursor(s: State, e: Fault)
    requires Linked(s) && Enabled(s, e) && MmapTaken(s, e)
    ensures Next(s, e).k.Of(s.active).regs[RAX] == s.mmap
    ensures Next(s, e).mmap == Wrap(s.mmap + GrantLength(MmapRequest(s, e)))
    ensures Next(s, e).isChild == s.isChild
  {}

  /** The reservation covers the request exactly when rounding up does not wrap, and then
      with less than a page to spare; otherwise, and for an empty request, it is one page. */
  lemma GrantCoversRequest(request: Word)
    ensures GrantLength(request) >= request <==> request <= WORD - PAGE_SIZE
    ensures PageAligned(GrantLength(request)) && GrantLength(request) >= PAGE_SIZE
    ensures 0 < request <= WORD - PAGE_SIZE ==> GrantLength(request) < request + PAGE_SIZE
    ensures request == 0 || request > WORD - PAGE_SIZE ==> GrantLength(request) == PAGE_SIZE
  {}

  function Grant(s: State, e: Fault): seq<Region> {
    if MmapTaken(s, e) && !s.isChild then [Region(s.mmap, GrantLength(MmapRequest(s, e)))] else []
  }

  /** The regions handed out while the parent is active, oldest first. */
  ghost function ParentGrants(s: State, es: seq<Fault>): seq<Region>
    requires Sound(s) && Trace(s, es)
    decreases |es|
  {
    if es == [] then []
    else
      Grant(s, es[0]) + ParentGrants(Next(s, es[0]), es[1..])
  }

  predicate NoWrap(s: State, e: Fault) {
    MmapTaken(s, e) ==> s.mmap + GrantLength(MmapRequest(s, e)) < WORD
  }

  ghost predicate NoMmapWraps(s: State, es: seq<Fault>)
    requires Sound(s) && Trace(s, es)
    decreases |es|
  {
    es == [] || (NoWrap(s, es[0]) && NoMmapWraps(Next(s, es[0]), es[1..]))
  }

  /** Everything below this address may have been handed to the parent. */
  function ParentCursor(s: State): Word {
    if s.isChild then s.parentMmap else s.mmap
  }

  predicate CursorsOrdered(s: State) {
    PageAligned(s.mmap) && PageAligned(ParentCursor(s)) && ParentCursor(s) <= s.mmap
  }

  predicate RegionsBetween(rs: seq<Region>, lo: int, hi: int) {
    && (forall i :: 0 <= i < |rs| ==>
          lo <= rs[i].lo && rs[i].lo + rs[i].len <= hi && PageAligned(rs[i].lo) && rs[i].len > 0)
    && (forall i, j :: 0 <= i < j < |rs| ==> rs[i].lo + rs[i].len <= rs[j].lo)
  }

  lemma AlignedSum(a: Word, b: Word)
    requires PageAligned(a) && PageAligned(b) && a + b < WORD
    ensures PageAligned(a + b)
  {}

  lemma CursorTurn(s: State, e: Fault)
    requires Linked(s) && Enabled(s, e) && CursorsOrdered(s) && NoWrap(s, e)
    ensures CursorsOrdered(Next(s, e))
    ensures ParentCursor(s) <= ParentCursor(Next(s, e))
    ensures MmapTaken(s, e) && !s.isChild ==>
              ParentCursor(Next(s, e)) == s.mmap + GrantLength(MmapRequest(s, e))
  {
    if MmapTaken(s, e) {
      var len := GrantLength(MmapRequest(s, e));
      GrantCoversRequest(MmapRequest(s, e));
      MmapHandsOutTheCursor(s, e);
      AlignedSum(s.mmap, len);
    }
  }

  /** Over every run in which no cursor wraps, including runs with forks, nested forks
      and patches, the regions handed to the parent are page-aligned and pairwise
      disjoint, because the child's reservations are rolled back above the parent's. */
  lemma {:induction false} ParentRegionsDisjoint(s: State, es: seq<Fault>)
    requires Sound(s) && Trace(s, es) && CursorsOrdered(s) && NoMmapWraps(s, es)
    ensures CursorsOrdered(Run(s, es)) && ParentCursor(s) <= ParentCursor(Run(s, es))
    ensures RegionsBetween(ParentGrants(s, es), ParentCursor(s), ParentCursor(Run(s, es)))
    decreases |es|
  {
    hide Next, Wrap, Enabled, Linked, AtMostOneRunnable;
    if es != [] {
      NextIsSound(s, es[0]);
      CursorTurn(s, es[0]);
      ParentRegionsDisjoint(Next(s, es[0]), es[1..]);
    }
  }

  // ---- exactly when the parent's regions are disjoint ----

  /** The length of the first n regions together. */
  function LengthOf(rs: seq<Region>, n: nat): nat
    requires n <= |rs|
  {
    if n == 0 then 0 else LengthOf(rs, n - 1) + rs[n - 1].len
  }

  /** The addresses of a region, which passes the top of the address space if it must. */
  predicate InRegion(r: Region, a: Word) {
    Wrap(a - r.lo) < r.len
  }

  ghost predicate SharesNone(r: Region, q: Region) {
    forall a: Word :: !(InRegion(r, a) && InRegion(q, a))
  }

  ghost predicate PairwiseDisjoint(rs: seq<Region>) {
    forall i, j :: 0 <= i < j < |rs| ==> SharesNone(rs[i], rs[j])
  }

  /** Each region begins where the one before it ended, the first one at `c`. */
  predicate Chained(c: Word, rs: seq<Region>) {
    forall i :: 0 <= i < |rs| ==> LinkAt(c, rs, i)
  }

  predicate LinkAt(c: Word, rs: seq<Region>, i: nat)
    requires i < |rs|
  {
    rs[i].len > 0 && rs[i].lo == Wrap(c + LengthOf(rs, i))
  }

  /** No child forks in turn. */
  ghost predicate NoNestedFork(s: State, es: seq<Fault>)
    requires Sound(s) && Trace(s, es)
    decreases |es|
  {
    es == [] || (!(s.isChild && ForkTaken(s, es[0])) && NoNestedFork(Next(s, es[0]), es[1..]))
  }

  /** Without nested forks a turn moves the parent's cursor by what it grants, and only then. */
  lemma ParentCursorTurn(s: State, e: Fault)
    requires Linked(s) && Enabled(s, e) && !(s.isChild && ForkTaken(s, e))
    ensures ParentCursor(Next(s, e)) == Wrap(ParentCursor(s) + LengthOf(Grant(s, e), |Grant(s, e)|))
  {
    WordWraps(ParentCursor(s));
    if MmapTaken(s, e) { MmapHandsOutTheCursor(s, e); }
  }

  lemma {:induction false} LengthOfPrefix(xs: seq<Region>, ys: seq<Region>, n: nat)
    requires n <= |xs|
    ensures LengthOf(xs + ys, n) == LengthOf(xs, n)
  {
    if n > 0 { LengthOfPrefix(xs, ys, n - 1); }
  }

  lemma {:induction false} LengthOfJoin(xs: seq<Region>, ys: seq<Region>, n: nat)
    requires n <= |ys|
    ensures LengthOf(xs + ys, |xs| + n) == LengthOf(xs, |xs|) + LengthOf(ys, n)
  {
    if n > 0 { LengthOfJoin(xs, ys, n - 1); } else { LengthOfPrefix(xs, ys, |xs|); }
  }

  lemma {:induction false} LengthOfGrows(rs: seq<Region>, i: nat, j: nat)
    requires i < j <= |rs|
    ensures LengthOf(rs, i) + rs[i].len <= LengthOf(rs, j)
  {
    if i < j - 1 { LengthOfGrows(rs, i, j - 1); }
  }

  lemma ChainedJoins(c: Word, xs: seq<Region>, ys: seq<Region>)
    requires Chained(c, xs) && Chained(Wrap(c + LengthOf(xs, |xs|)), ys)
    ensures Chained(c, xs + ys)
  {
    hide Wrap, LengthOf;
    forall i | 0 <= i < |xs + ys|
      ensures LinkAt(c, xs + ys, i)
    {
      if i < |xs| {
        LengthOfPrefix(xs, ys, i);
        assert LinkAt(c, xs, i);
      } else {
        LengthOfJoin(xs, ys, i - |xs|);
        assert LinkAt(Wrap(c + LengthOf(xs, |xs|)), ys, i - |xs|);
        WrapAdds(c + LengthOf(xs, |xs|), LengthOf(ys, i - |xs|));
      }
    }
  }

  lemma NothingIsChained(c: Word)
    ensures Chained(c, [])
  {}

  lemma GrantIsChained(s: State, e: Fault)
    ensures Chained(ParentCursor(s), Grant(s, e))
  {
    GrantCoversRequest(MmapRequest(s, e));
    WordWraps(s.mmap);
  }

  /** The regions handed to the parent follow one another around the address space. */
  lemma {:induction false} ParentRegionsAreChained(s: State, es: seq<Fault>)
    requires Sound(s) && Trace(s, es) && NoNestedFork(s, es)
    ensures Chained(ParentCursor(s), ParentGrants(s, es))
    decreases |es|
  {
    hide Wrap, Chained, Next, Grant, ParentCursor, ForkTaken, Enabled, Linked, AtMostOneRunnable, LengthOf;
    if es == [] {
      NothingIsChained(ParentCursor(s));
    } else {
      ParentCursorTurn(s, es[0]);
      GrantIsChained(s, es[0]);
      NextIsSound(s, es[0]);
      ParentRegionsAreChained(Next(s, es[0]), es[1..]);
      ChainedJoins(ParentCursor(s), Grant(s, es[0]), ParentGrants(Next(s, es[0]), es[1..]));
    }
  }

  /** Counting from `c`, an address lies at one place below 2^64. */
  lemma PlaceOnRing(c: Word, before: nat, r: Region, a: Word)
    requires before + r.len <= WORD && r.lo == Wrap(c + before) && InRegion(r, a)
    ensures before <= Wrap(a - c) < before + r.len
  {}

  lemma ChainWithinTheSpace(c: Word, rs: seq<Region>)
    requires Chained(c, rs) && LengthOf(rs, |rs|) <= WORD
    ensures PairwiseDisjoint(rs)
  {
    hide Wrap, InRegion, LengthOf;
    forall i, j | 0 <= i < j < |rs|
      ensures SharesNone(rs[i], rs[j])
    {
      assert LinkAt(c, rs, i) && LinkAt(c, rs, j);
      LengthOfGrows(rs, i, j);
      LengthOfGrows(rs, j, |rs|);
      forall a: Word
        ensures !(InRegion(rs[i], a) && InRegion(rs[j], a))
      {
        if InRegion(rs[i], a) && InRegion(rs[j], a) {
          PlaceOnRing(c, LengthOf(rs, i), rs[i], a);
          PlaceOnRing(c, LengthOf(rs, j), rs[j], a);
        }
      }
    }
  }

  /** The region that holds the place 2^64 of an overlong chain. */
  lemma {:induction false} FirstPastTheTop(rs: seq<Region>, n: nat) returns (j: nat)
    requires n <= |rs| && LengthOf(rs, n) > WORD
    ensures j < n && LengthOf(rs, j) <= WORD < LengthOf(rs, j) + rs[j].len
    decreases n
  {
    if LengthOf(rs, n - 1) <= WORD {
      j := n - 1;
    } else {
      j := FirstPastTheTop(rs, n - 1);
    }
  }

  lemma BackAtTheStart(c: Word, before: nat, r: Region)
    requires r.lo == Wrap(c + before) && r.len > 0 && (before == 0 || before <= WORD < before + r.len)
    ensures InRegion(r, c)
  {}

  lemma ChainMeetsItself(c: Word, rs: seq<Region>)
    requires Chained(c, rs) && LengthOf(rs, |rs|) > WORD
    ensures !PairwiseDisjoint(rs)
  {
    hide Wrap, InRegion;
    var j := FirstPastTheTop(rs, |rs|);
    assert j > 0 && LinkAt(c, rs, 0) && LinkAt(c, rs, j);
    BackAtTheStart(c, 0, rs[0]);
    BackAtTheStart(c, LengthOf(rs, j), rs[j]);
    assert !SharesNone(rs[0], rs[j]);
  }

  /** Over every run without a nested fork, the regions handed to the parent are pairwise
      disjoint if and only if their lengths add up to at most 2^64. */
  lemma ParentRegionsDisjointIffTheyFit(s: State, es: seq<Fault>)
    requires Sound(s) && Trace(s, es) && NoNestedFork(s, es)
    ensures var rs := ParentGrants(s, es); PairwiseDisjoint(rs) <==> LengthOf(rs, |rs|) <= WORD
  {
    hide PairwiseDisjoint, Chained, LengthOf;
    var rs := ParentGrants(s, es);
    ParentRegionsAreChained(s, es);
    if LengthOf(rs, |rs|) <= WORD {
      ChainWithinTheSpace(ParentCursor(s), rs);
    } else {
      ChainMeetsItself(ParentCursor(s), rs);
    }
  }

  // ---- the parent's break ----

  /** The break the parent sees when it runs. */
  function ParentBreak(s: State): Word {
    if s.isChild then s.parentBrk else s.brk
  }

  /** The argument of the parent's last brk call that was not a query, or `brk` if there is none. */
  ghost function LastBreak(s: State, es: seq<Fault>, brk: Word): Word
    requires Sound(s) && Trace(s, es)
    decreases |es|
  {
    if es == [] then brk
    else
      var regs := CallRegs(s, es[0]);
      LastBreak(Next(s, es[0]), es[1..],
                if Calls(s, es[0]) && !s.isChild && regs[3] == 12 && regs[8] != 0 then regs[8] else brk)
  }

  lemma ParentBreakTurn(s: State, e: Fault)
    requires Linked(s) && Enabled(s, e) && !(s.isChild && ForkTaken(s, e))
    ensures var regs := CallRegs(s, e);
            ParentBreak(Next(s, e)) ==
            if Calls(s, e) && !s.isChild && regs[3] == 12 && regs[8] != 0 then regs[8] else ParentBreak(s)
  {}

  /** Over every run without a nested fork the parent's break is what it last asked for,
      whatever its children did with theirs. */
  lemma {:induction false} ParentBreakIsLastAskedFor(s: State, es: seq<Fault>)
    requires Sound(s) && Trace(s, es) && NoNestedFork(s, es)
    ensures ParentBreak(Run(s, es)) == LastBreak(s, es, ParentBreak(s))
    decreases |es|
  {
    hide Next, ForkTaken, Calls, CallRegs, ParentBreak, Enabled;
    if es != [] {
      ParentBreakTurn(s, es[0]);
      NextIsSound(s, es[0]);
      ParentBreakIsLastAskedFor(Next(s, es[0]), es[1..]);
    }
  }

  /** Two requests are enough to hand out overlapping regions. */
  lemma WrappedMmapOverlaps(s: State, a: Fault, b: Fault)
    requires Healthy(s) && !s.isChild && s.mmap == MMAP_BASE && s.faults < 10
    requires a.who == Parent && a.tag == 2 && a.regs[RAX] == 9 && a.regs[RSI] == WORD - PAGE_SIZE
    requires b.who == Parent && b.tag == 2 && b.regs[RAX] == 9 && b.regs[RSI] == 2 * PAGE_SIZE
    requires Sound(s) && Trace(s, [a, b])
    ensures var g := ParentGrants(s, [a, b]);
            |g| == 2 && g[1].lo < g[0].lo < g[1].lo + g[1].len
  {
    hide Next, Wrap, Healthy, Enabled, Grant, MmapTaken, MmapRequest, ParentGrants;
    var t := Next(s, a);
    assert Trace(t, [a, b][1..]) && Enabled(s, a);
    NextIsSound(s, a);
    ParentRequest(s, a);
    MmapHandsOutTheCursor(s, a);
    ParentRequest(t, b);
    TwoGrants(s, a, b);
    NearTheTop();
  }

  lemma ParentRequest(s: State, e: Fault)
    requires Linked(s) && !s.isChild && s.faults < MAX_FAULTS && e.who == Parent && e.tag == 2 && e.regs[RAX] == 9
    ensures MmapTaken(s, e) && MmapRequest(s, e) == e.regs[RSI] && Next(s, e).faults == s.faults + 1
    ensures Grant(s, e) == [Region(s.mmap, GrantLength(e.regs[RSI]))]
  {}

  lemma NearTheTop()
    ensures GrantLength(WORD - PAGE_SIZE) == WORD - PAGE_SIZE && GrantLength(2 * PAGE_SIZE) == 2 * PAGE_SIZE
    ensures Wrap(MMAP_BASE + GrantLength(WORD - PAGE_SIZE)) == MMAP_BASE - PAGE_SIZE
  {}

  lemma TwoGrants(s: State, a: Fault, b: Fault)
    requires Sound(s) && Trace(s, [a, b])
    ensures ParentGrants(s, [a, b]) == Grant(s, a) + Grant(Next(s, a), b)
  {
    var t := Next(s, a);
    assert [a, b][1..] == [b] && [b][1..] == [];
    assert ParentGrants(t, [b]) == Grant(t, b) + ParentGrants(Next(t, b), []);
  }

  // ---- the loop itself ----

  class RootTask {
    const kernel: Kernel
    const forkReady: bool
    var active: Thread
    var isChild: bool
    var parentRegs: Option<Regs>
    var parentBrk: Word
    var parentMmap: Word
    var brkCur: Word
    var mmapCur: Word
    var faultCount: nat
    ghost var stopped: bool

    ghost predicate Valid()
      reads this, kernel
    {
      Sound(View())
    }

    ghost function View(): State
      reads this, kernel
    {
      State(kernel.state, active, isChild, parentRegs, parentBrk, parentMmap, brkCur, mmapCur,
            forkReady, faultCount, stopped)
    }

    constructor (parentStart: Regs, forkReady: bool)
      ensures Valid() && fresh(kernel) && View() == Initial(parentStart, forkReady)
    {
      kernel := new Kernel(parentStart);
      this.forkReady := forkReady;
      active, isChild, parentRegs := Parent, false, None;
      parentBrk, brkCur := BRK_BASE, BRK_BASE;
      parentMmap, mmapCur := MMAP_BASE, MMAP_BASE;
      faultCount, stopped := 0, false;
    }

    /** Serve one received fault; `stop` is the loop's `break`. */
    method Turn(e: Fault) returns (stop: bool)
      requires Valid() && Enabled(View(), e)
      modifies this, kernel
      ensures Valid() && View() == Next(old(View()), e) && stop == stopped
    {
      ghost var before := View();
      kernel.Recv(e.who, e.regs);
      faultCount := faultCount + 1;
      if faultCount > MAX_FAULTS {
        stopped, stop := true, true;
      } else {
        stop := HandleFault(e);
      }
      assert View() == Next(before, e);
    }

    /** The match on the fault type, and the reply that ends an arm which did not resume anyone. */
    method HandleFault(e: Fault) returns (stop: bool)
      requires Linked(View()) && !stopped
      modifies this, kernel
      ensures View() == Dispatch(old(View()), e) && stop == stopped
    {
      stop := false;
      var faultType := e.tag % 16;
      if faultType == 2 {
        stop := Emulate(e.ret);
        return;
      }
      if faultType == 4 || faultType == 5 {
        if PageDown(e.addr) < 0x1000 || e.mapping == MapFailed {
          kernel.Reply();
          kernel.Suspend(Parent);
          stopped := true;
          return true;
        }
      } else if faultType == 1 {
        if e.ip != 0 && e.ip != WORD - 1 && e.syscallAtIp {
          var regs := kernel.ReadRegisters(Parent);
          assert regs[..20] + regs[20..] == regs;
          kernel.WriteRegisters(Parent, true, 20, regs);
          return;
        }
      } else if faultType == 3 {
        kernel.Suspend(Parent);
        stopped := true;
        return true;
      }
      kernel.Reply();
    }

    /** The UnknownSyscall arm: read the active thread's registers and act on RAX. */
    method Emulate(ret: Word) returns (exited: bool)
      requires Linked(View()) && !stopped
      modifies this, kernel
      ensures View() == Syscall(old(View()), ret) && exited == stopped
    {
      var regs := kernel.ReadRegisters(active);
      var rax := regs[RAX];
      exited := false;
      if rax == 9 {
        var addr := mmapCur;
        mmapCur := Wrap(mmapCur + GrantLength(regs[RSI]));
        WriteBack(regs, addr);
      } else if rax == 12 {
        if regs[RDI] != 0 { brkCur := regs[RDI]; }
        WriteBack(regs, brkCur);
      } else if rax == 56 || rax == 57 {
        if forkReady { StartChild(regs); } else { WriteBack(regs, Wrap(-38)); }
      } else if rax == 59 {
        if isChild { EndChild(); } else { WriteBack(regs, 0); }
      } else if rax == 60 || rax == 231 {
        if isChild {
          EndChild();
        } else {
          kernel.Suspend(active);
          stopped, exited := true, true;
        }
      } else if rax == 61 {
        WriteBack(regs, if isChild then Wrap(-10) else CHILD_PID);
      } else if rax == 158 {
        if regs[RDI] == 0x1002 {
          kernel.SetTlsBase(active, regs[RSI]);
          regs := regs[FS_BASE := regs[RSI]];
        }
        WriteBack(regs, 0);
      } else {
        WriteBack(regs, ret);
      }
    }

    /** Common tail: 18 registers are written back, which is all of them because the
        TCB already holds the current FS and GS bases; then the faulter is restarted. */
    method WriteBack(regs: Regs, ret: Word)
      requires regs[18..] == kernel.state.Of(active).regs[18..]
      modifies kernel
      ensures kernel.state ==
              old(kernel.state).With(active, old(kernel.state).Of(active).(regs := Advanced(regs, ret))).Replied()
    {
      var out := Advanced(regs, ret);
      assert out[..18] + kernel.state.Of(active).regs[18..] == out by {
        assert out[18..] == regs[18..];
      }
      kernel.WriteRegisters(active, false, 18, out);
      kernel.Reply();
    }

    method StartChild(regs: Regs)
      modifies this, kernel
      ensures View() == Perform(old(View()), Action.StartChild(regs))
    {
      var childRegs := Advanced(regs, 0);
      assert childRegs[..20] + kernel.state.child.regs[20..] == childRegs;
      kernel.WriteRegisters(Child, false, 20, childRegs);
      parentRegs, parentBrk, parentMmap := Some(regs), brkCur, mmapCur;
      active, isChild := Child, true;
      kernel.Resume(Child);
    }

    /** Shared by the child's exit and execve. */
    method EndChild()
      requires parentRegs.Some?
      modifies this, kernel
      ensures View() == Perform(old(View()), Action.EndChild)
    {
      kernel.Suspend(active);
      active, isChild := Parent, false;
      brkCur, mmapCur := parentBrk, parentMmap;
      var saved := parentRegs.value;
      parentRegs := None;
      kernel.WriteRegisters(Parent, false, 18, Advanced(saved, CHILD_PID));
      kernel.Resume(Parent);
    }

    /** The loop over any stream of faults the two threads can produce. */
    method Serve(faults: seq<Fault>)
      requires Valid() && Trace(View(), faults)
      modifies this, kernel
      ensures Valid() && View() == Run(old(View()), faults)
    {
      var i := 0;
      ghost var start := View();
      while i < |faults|
        invariant 0 <= i <= |faults|
        invariant Valid()
        invariant Trace(View(), faults[i..])
        invariant Run(start, faults) == Run(View(), faults[i..])
      {
        assert faults[i..][1..] == faults[i + 1..];
        var stop := Turn(faults[i]);
        i := i + 1;
        if stop {
          assert faults[i..] == [];
          return;
        }
      }
    }
  }
}
