/** The process table and the memory it stands on, together. */
module JointState {
  import opened Common
  import opened FrameStates
  import opened PageTables
  import opened Contexts
  import opened Ownership
  import opened Coherence
  import opened KernelRuns
  import opened Reclaim
  import opened Processes

  /** The contexts of the table are those of the memory system, which is as every run leaves it. */
  ghost predicate Joined(t: ProcessTable, s: System, boot: Frames)
    reads t, Elems(t.queue)
  {
    t.Valid() && t.contexts == s.users.Keys && Sane(s, boot) && Coherent(s)
  }

  /** The contexts of the queued processes, as kprocess_syncPD meets them. */
  function QueueContexts(q: seq<KProcessInfo>): (r: seq<nat>)
    ensures |r| == |q| && forall i :: 0 <= i < |q| ==> r[i] == q[i].context
  {
    if q == [] then [] else [q[0].context] + QueueContexts(q[1..])
  }

  /** kprocess_syncPD reaches every live context and no deleted one. */
  lemma QueueReachesAll(t: ProcessTable, s: System, boot: Frames)
    requires Joined(t, s, boot)
    ensures forall c :: c in QueueContexts(t.queue) <==> c in s.users
  {
    hide Sane, Coherent;
    forall i | 0 <= i < |t.queue| ensures t.queue[i].context in t.contexts {
      t.ContextIsLive(t.queue[i]);
    }
    forall c | c in s.users ensures c in QueueContexts(t.queue) {
      var x :| x in t.queue && !x.isThread && x.context == c;
      var i :| 0 <= i < |t.queue| && t.queue[i] == x;
      assert QueueContexts(t.queue)[i] == c;
    }
  }

  /** The assertion of s_switchProcess: the directory of whatever process is switched to is USED. */
  lemma SwitchAssertionHolds(t: ProcessTable, s: System, boot: Frames, x: KProcessInfo)
    requires Joined(t, s, boot) && x in t.queue
    ensures x.context in s.users
    ensures s.users[x.context].pd < |s.m.frames| && s.m.frames[s.users[x.context].pd] == Used
  {
    t.ContextIsLive(x);
    LiveContextHasDirectory(s, boot, x.context);
  }

  /** The context of the process that runs, as a fault meets it. */
  function CurrentContext(t: ProcessTable): Option<nat>
    reads t
  {
    if t.currentProcess == null then None else Some(t.currentProcess.context)
  }

  /** page_fault_handler with the real queue: what Legal asks of the queue holds by itself. */
  lemma FaultKeepsJoined(t: ProcessTable, s: System, boot: Frames, va: nat, present: bool)
    requires Joined(t, s, boot) && va < VA_LIMIT && s.m.usable <= |s.m.frames| && s.kernel.end <= VA_LIMIT
    ensures CurrentContext(t).Some? ==> CurrentContext(t).value in s.users
    ensures var op := Fault(CurrentContext(t), va, present, QueueContexts(t.queue));
      (!present ==> Translate(s.m, CurrentPd(s, CurrentContext(t)), va / PAGE) == None) ==>
        Legal(s, op) && (KernelRuns.Step(s, op).1 ==> Joined(t, KernelRuns.Step(s, op).0, boot))
  {
    hide Sane, Coherent;
    QueueReachesAll(t, s, boot);
    var op := Fault(CurrentContext(t), va, present, QueueContexts(t.queue));
    if t.currentProcess != null {
      t.ContextIsLive(t.currentProcess);
    }
    if !present ==> Translate(s.m, CurrentPd(s, CurrentContext(t)), va / PAGE) == None {
      if KernelRuns.Step(s, op).1 {
        StepKeeps(s, boot, op);
        FaultKeepsNames(s, op);
      }
    }
  }

  lemma FaultKeepsNames(s: System, op: KernelRuns.Op)
    requires op.Fault? && WellNamed(s, op)
    ensures KernelRuns.Step(s, op).0.users.Keys == s.users.Keys
  {
    hide HandleFault;
  }

  /** kprocess_create of a process with its context. A refusal at the queue limit deletes the context
      again, so that every frame is as it was. */
  method CreateProcess(t: ProcessTable, s: System, ghost boot: Frames, c: nat, stale: bool)
    returns (pid: Option<nat>, u: System)
    requires Joined(t, s, boot) && c !in s.users && NewPd(s.m, s.kernel.pd).1.Done?
    requires WellNamed(s, CreateContext(c, stale, true))
    modifies t`queue, t`processCount, t`contexts, t`top, t`clock, Elems(t.queue)`children
    ensures Joined(t, u, boot) && forall x | x in t.queue :: x in old(t.queue) || fresh(x)
    ensures pid.Some? <==> old(t.processCount) + 1 < MAX_PROCESS_COUNT && (t.currentProcess == null ==> old(t.queue) == [])
    ensures pid.Some? ==> |t.queue| == |old(t.queue)| + 1 && c in u.users && u == KernelRuns.Step(s, CreateContext(c, stale, true)).0
    ensures pid.None? ==> t.queue == old(t.queue) && u.users == s.users && u.m.frames == s.m.frames
  {
    hide Sane, Coherent, ProcessTable.Forest, KernelRuns.Step, NewPd;
    u := s;
    t.CreatorOwns();
    if t.processCount == MAX_PROCESS_COUNT || (t.currentProcess == null && t.processCount > 0) {
      return None, s;
    }
    ContextIsCreated(s, boot, c, stale);
    u := KernelRuns.Step(s, CreateContext(c, stale, true)).0;
    pid := t.Create(false, c);
    if pid.None? {
      DeleteAgain(s, boot, c, stale);
      u := KernelRuns.Step(u, Kill(c)).0;
    }
  }

  lemma ContextIsCreated(s: System, boot: Frames, c: nat, stale: bool)
    requires Sane(s, boot) && Coherent(s) && c !in s.users && NewPd(s.m, s.kernel.pd).1.Done?
    requires WellNamed(s, CreateContext(c, stale, true))
    ensures var u := KernelRuns.Step(s, CreateContext(c, stale, true)).0;
      Sane(u, boot) && Coherent(u) && u.users.Keys == s.users.Keys + {c}
  {
    hide Sane, Coherent, SetUpPd;
    StepKeeps(s, boot, CreateContext(c, stale, true));
  }

  lemma DeleteAgain(s: System, boot: Frames, c: nat, stale: bool)
    requires Sane(s, boot) && Coherent(s) && c !in s.users && NewPd(s.m, s.kernel.pd).1.Done?
    requires WellNamed(s, CreateContext(c, stale, true))
    ensures var u := KernelRuns.Step(s, CreateContext(c, stale, true)).0;
      && WellNamed(u, Kill(c))
      && var v := KernelRuns.Step(u, Kill(c)).0;
         Sane(v, boot) && Coherent(v) && v.users == s.users && v.m.frames == s.m.frames
  {
    hide Destroy, Structural, DeletePd, NewPd, BootOwned;
    var o :| Settled(s, o, boot);
    CreateUser(s, o, c, stale);
    var (n, _, pd) := NewPd(s.m, s.kernel.pd);
    var u, p := KernelRuns.Step(s, CreateContext(c, stale, true)).0, o[pd := DirectoryOf(c)];
    assert u == System(n, s.kernel, s.users[c := NewContext(pd, stale)]);
    StepKeeps(s, boot, CreateContext(c, stale, true));
    var r :| Settled(u, r, boot);
    KillKeeps(u, r, boot, c);
    var q := DestroyUser(u, p, c);
    UndoneCreation(s, o, c, q, Destroy(u.m, u.users[c]).0, pd, n);
    assert u.users - {c} == s.users;
  }

  /** The scheduler after kprocess_exit, which the root refuses. */
  ghost function AfterExit(s: Schedule, ok: bool, gone: set<KProcessInfo>): Schedule {
    if ok then After(After(s, Remove(gone)), Event.Yield) else s
  }

  /** kprocess_exit with the end of the context that goes with it. */
  method EndProcess(t: ProcessTable, s: System, ghost boot: Frames, destroyContext: bool)
    returns (ok: bool, u: System)
    requires Joined(t, s, boot) && t.currentProcess != null
    modifies t`queue, t`processCount, t`contexts, t`currentProcess, t`rootProcess
    modifies Elems(t.queue)`parent, Elems(t.queue)`children, Elems(t.queue)`running
    ensures Joined(t, u, boot) && forall x | x in t.queue :: x in old(t.queue)
    ensures ok <==> old(t.Exiting(destroyContext)) != old(t.top)
    ensures t.Scheduler() == AfterExit(old(t.Scheduler()), ok, old(Victims(t.Exiting(destroyContext))))
    ensures var x := old(t.Exiting(destroyContext));
      if ok && !x.isThread then WellNamed(s, Kill(x.context)) && u == KernelRuns.Step(s, Kill(x.context)).0 else u == s
  {
    hide Sane, Coherent, ProcessTable.Forest;
    var victim := t.Exiting(destroyContext);
    VictimsContext(t, victim);
    ok := t.Exit(destroyContext);
    u := s;
    if ok && !victim.isThread {
      EndContext(s, boot, victim.context);
      u := KernelRuns.Step(s, Kill(victim.context)).0;
    }
  }

  lemma VictimsContext(t: ProcessTable, x: KProcessInfo)
    requires t.Valid() && t.currentProcess != null && (x == t.Exiting(false) || x == t.Exiting(true))
    ensures x.context in t.contexts
  {
    assert t.Linked(t.currentProcess);
    t.ContextIsLive(x);
  }

  lemma EndContext(s: System, boot: Frames, c: nat)
    requires Sane(s, boot) && Coherent(s) && c in s.users
    ensures WellNamed(s, Kill(c))
    ensures var v := KernelRuns.Step(s, Kill(c)).0; Sane(v, boot) && Coherent(v) && v.users.Keys == s.users.Keys - {c}
  {
    hide Destroy;
    var o :| Settled(s, o, boot);
    KillKeeps(s, o, boot, c);
  }

  // ---------------------------------------------------------------------------------------------
  // Runs of both.
  // ---------------------------------------------------------------------------------------------

  /** What the kernel does next, to the table, to the memory system, or to both. */
  datatype Action =
    | NewProcess(c: nat, stale: bool)
    | NewThread
    | NextProcess
    | EndCurrent(destroyContext: bool)
    | PageFault(va: nat, present: bool)
    | OnMemory(op: KernelRuns.Op)

  /** The fault with the process that runs and the queue as the table has them. */
  function FaultOf(q: seq<KProcessInfo>, current: Option<nat>, a: Action): KernelRuns.Op
    requires a.PageFault?
  {
    Fault(current, a.va, a.present, QueueContexts(q))
  }

  /** The action can be taken: a fault is one that the processor raises, a new context has a new name and a
      frame for its directory, and somebody is there to run or to end. */
  predicate Possible(t: ProcessTable, s: System, a: Action)
    reads t
  {
    match a
    case NewProcess(c, stale) =>
      WellNamed(s, CreateContext(c, stale, true)) && c !in s.users && NewPd(s.m, s.kernel.pd).1.Done?
    case NewThread => true
    case NextProcess => t.queue != []
    case EndCurrent(_) => t.currentProcess != null
    case PageFault(va, present) =>
      && va < VA_LIMIT && s.m.usable <= |s.m.frames| && s.kernel.end <= VA_LIMIT
      && (CurrentContext(t).Some? ==> CurrentContext(t).value in s.users)
      && (!present ==> Translate(s.m, CurrentPd(s, CurrentContext(t)), va / PAGE) == None)
    case OnMemory(op) => (op.Reserve? || op.ReserveKernel? || op.Unreserve?) && Legal(s, op)
  }

  lemma MemoryKeepsNames(s: System, boot: Frames, op: KernelRuns.Op)
    requires Sane(s, boot) && Coherent(s) && Legal(s, op) && (op.Reserve? || op.ReserveKernel? || op.Unreserve?)
    ensures WellNamed(s, op)
    ensures var (u, running) := KernelRuns.Step(s, op);
      running ==> Sane(u, boot) && Coherent(u) && u.users.Keys == s.users.Keys
  {
    hide Memmap, FreeSpace, Sane, Coherent;
    if KernelRuns.Step(s, op).1 {
      StepKeeps(s, boot, op);
    }
  }

  /** One action; running is false when the kernel halted in it. */
  method Perform(t: ProcessTable, s: System, ghost boot: Frames, a: Action) returns (u: System, running: bool)
    requires Joined(t, s, boot) && Possible(t, s, a)
    modifies t, Elems(t.queue)
    ensures running ==> Joined(t, u, boot)
    ensures forall x | x in t.queue :: x in old(t.queue) || fresh(x)
    ensures a.OnMemory? ==> WellNamed(s, a.op) && (u, running) == KernelRuns.Step(s, a.op)
    ensures a.PageFault? ==> var op := FaultOf(old(t.queue), old(CurrentContext(t)), a);
      WellNamed(s, op) && (u, running) == KernelRuns.Step(s, op)
    ensures a.OnMemory? || a.PageFault? ==> t.Scheduler() == old(t.Scheduler())
    ensures a.NextProcess? ==> running && u == s && t.Scheduler() == After(old(t.Scheduler()), Event.Yield)
    ensures a.NewThread? ==>
      && running && u == s
      && |t.queue| == |old(t.queue)| + if old(t.currentProcess) != null && old(t.processCount) + 1 < MAX_PROCESS_COUNT then 1 else 0
    ensures a.NewProcess? ==> running && if a.c in u.users then |t.queue| == |old(t.queue)| + 1
                                         else t.queue == old(t.queue) && u.users == s.users && u.m.frames == s.m.frames
    ensures a.EndCurrent? ==>
      var x := old(t.Exiting(a.destroyContext));
      running && t.Scheduler() == AfterExit(old(t.Scheduler()), x != old(t.top), old(Victims(t.Exiting(a.destroyContext))))
  {
    hide Sane, Coherent, ProcessTable.Forest, KernelRuns.Step, Legal, After;
    u, running := s, true;
    match a
    case NewProcess(c, stale) =>
      var pid;
      pid, u := CreateProcess(t, s, boot, c, stale);
    case NewThread =>
      var pid := t.Create(true, 0);
    case NextProcess =>
      YieldKeepsMembers(t.Scheduler());
      var ok := t.Yield();
    case EndCurrent(destroyContext) =>
      var ok;
      ok, u := EndProcess(t, s, boot, destroyContext);
    case PageFault(va, present) =>
      FaultKeepsJoined(t, s, boot, va, present);
      QueueReachesAll(t, s, boot);
      var result := KernelRuns.Step(s, FaultOf(t.queue, CurrentContext(t), a));
      u, running := result.0, result.1;
    case OnMemory(op) =>
      MemoryKeepsNames(s, boot, op);
      var result := KernelRuns.Step(s, op);
      u, running := result.0, result.1;
  }

  /** s_switchProcess may switch to every queued process. */
  ghost predicate CanSwitch(t: ProcessTable, s: System)
    reads t
  {
    forall x | x in t.queue :: x.context in s.users && s.users[x.context].pd < |s.m.frames|
      && s.m.frames[s.users[x.context].pd] == Used
  }

  /** Over any run of actions on the table and the memory system, as long as the kernel runs and the next
      action can be taken, the two stay together, and the assertion of s_switchProcess holds. */
  method RunTogether(t: ProcessTable, s: System, ghost boot: Frames, actions: seq<Action>)
    returns (u: System, running: bool, taken: nat)
    requires Joined(t, s, boot)
    modifies t, Elems(t.queue)
    ensures running ==> Joined(t, u, boot) && CanSwitch(t, u)
    ensures taken <= |actions|
    ensures running && taken < |actions| ==> !Possible(t, u, actions[taken])
    ensures !running ==> taken > 0 && (actions[taken - 1].PageFault? || actions[taken - 1].OnMemory?)
  {
    hide Sane, Coherent, ProcessTable.Forest, Possible;
    u, running, taken := s, true, 0;
    while taken < |actions| && running && Possible(t, u, actions[taken])
      invariant taken <= |actions| && (running ==> Joined(t, u, boot))
      invariant !running ==> taken > 0 && (actions[taken - 1].PageFault? || actions[taken - 1].OnMemory?)
      invariant forall x | x in t.queue :: x in old(t.queue) || fresh(x)
      decreases |actions| - taken
    {
      u, running := Perform(t, u, boot, actions[taken]);
      taken := taken + 1;
    }
    if running {
      forall x | x in t.queue
        ensures x.context in u.users && u.users[x.context].pd < |u.m.frames|
        ensures u.m.frames[u.users[x.context].pd] == Used
      {
        SwitchAssertionHolds(t, u, boot, x);
      }
    }
  }
}
