/** kvmm_commitPage and page_fault_handler for every fault: exactly when they go through. */
module Faults {
  import opened Common
  import opened Bitmaps
  import opened FrameStates
  import opened PageTables
  import opened AddressSpaces
  import opened Contexts
  import opened Ownership
  import opened Reclaim
  import opened Birth
  import opened Coherence
  import opened KernelRuns
  import opened LostFrames
  import opened Requests

  /** The address lies in a space that is backed page by page on demand. */
  ghost predicate LazilyBacked(spaces: seq<Vas>, va: nat) {
    exists k :: 0 <= k < |spaces| && spaces[k].Covers(va)
      && !spaces[k].flags.immCommit && !spaces[k].flags.committed && !spaces[k].flags.nullPage
  }

  /** A frame for page v, and one for its page table if that is missing. */
  ghost predicate EnoughFrames(m: Machine, pd: nat, v: nat)
    requires v < 0x10_0000
  {
    |FreeSet(m)| >= if m.At(pd, v / 1024).present then 1 else 2
  }

  lemma OneFreeFrame(m: Machine)
    ensures SomeRun(m, 1) <==> FreeSet(m) != {}
  {
    if f :| f in FreeSet(m) {
      assert RunAt(m.frames, Free, 1, f);
    }
    if SomeRun(m, 1) {
      var i :| 0 <= i < |m.frames| && RunAt(m.frames, Free, 1, i);
      assert i in FreeSet(m);
    }
  }

  /** A commit of one page that is not translated. */
  lemma OnePageCommit(m: Machine, c: Context, v: nat)
    requires m.Sized() && Sound(m, c.pd) && v < MAPPABLE && Translate(m, c.pd, v) == None
    ensures v * PAGE + 1 * PAGE <= VA_LIMIT
    ensures var (n, d, outcome, _) := Commit(m, c, v * PAGE, None, 1);
      && (outcome.Succeeded? <==> EnoughFrames(m, c.pd, v))
      && (outcome.Halts? <==> FreeSet(m) != {} && !EnoughFrames(m, c.pd, v))
      && (outcome.Failed? ==> outcome == Failed(InPmm(OutOfMem)) && n == m && d == c)
      && (outcome.Succeeded? ==> d == c.(dirty := true) && NewPage(m, n, c.pd, v))
  {
    hide Commit, Translate, FirstMapped, MissingTables, FreeSet, Sound, RunAt, Backed, NewPage;
    PageAddress(v);
    CommitIsExact(m, c, v * PAGE, None, 1);
    CommitInSteps(m, c, v, 1);
    OneFreeFrame(m);
    FirstMappedIs(m, c.pd, v, 1, 1);
    OneMissing(m, c.pd, v);
    EmptySet(FreeSet(m));
    var (n, _, outcome, pa) := Commit(m, c, v * PAGE, None, 1);
    if outcome.Succeeded? {
      OneBackedPage(m, n, c.pd, v, pa);
    }
  }

  /** Page v is new, in a frame that was free, and no other page has changed. */
  ghost predicate NewPage(m: Machine, n: Machine, pd: nat, v: nat)
    requires v < MAPPABLE
  {
    && Translate(m, pd, v) == None && AgreeExcept(m, n, pd, v)
    && Translate(n, pd, v).Some? && Translate(n, pd, v).value in FreeSet(m)
  }

  lemma OneBackedPage(m: Machine, n: Machine, pd: nat, v: nat, pa: nat)
    requires v < MAPPABLE && Translate(m, pd, v) == None
    requires Backed(n, pd, v * PAGE, pa, 1) && RunAt(m.frames, Free, 1, pa / PAGE)
    requires forall w: nat :: w < MAPPABLE && !(v <= w < v + 1) ==> Translate(n, pd, w) == Translate(m, pd, w)
    ensures NewPage(m, n, pd, v)
  {
    hide Translate, FreeSet, RunAt;
    FirstPageBacked(n, pd, v, pa);
    RunOfOne(m, pa / PAGE);
  }

  lemma FirstPageBacked(n: Machine, pd: nat, v: nat, pa: nat)
    requires v < MAPPABLE && Backed(n, pd, v * PAGE, pa, 1)
    ensures Translate(n, pd, v) == Some(pa / PAGE)
  {
    hide Translate, Backed, Lookup;
    BackedAt(n, pd, v * PAGE, pa, 1, 0);
    LookupOfPage(n, pd, v, pa);
  }

  lemma BackedAt(n: Machine, pd: nat, va: nat, pa: nat, count: nat, i: nat)
    requires Backed(n, pd, va, pa, count) && i < count
    ensures va + i * PAGE < VA_LIMIT && Lookup(n, pd, va + i * PAGE) == Some(pa + i * PAGE)
  {
    hide Lookup;
  }

  lemma LookupOfPage(n: Machine, pd: nat, v: nat, pa: nat)
    requires v < MAPPABLE && v * PAGE < VA_LIMIT && Lookup(n, pd, v * PAGE) == Some(pa)
    ensures Translate(n, pd, v) == Some(pa / PAGE)
  {
    hide Translate;
    PageAddress(v);
    PageAddress(Translate(n, pd, v).value);
  }

  lemma RunOfOne(m: Machine, f: nat)
    requires RunAt(m.frames, Free, 1, f)
    ensures f in FreeSet(m)
  {
  }

  lemma EmptySet(s: set<nat>)
    ensures |s| == 0 <==> s == {}
  {
  }

  lemma OneMissing(m: Machine, pd: nat, v: nat)
    requires v < MAPPABLE
    ensures |MissingTables(m, pd, v, 1)| == if m.At(pd, v / 1024).present then 0 else 1
  {
    if m.At(pd, v / 1024).present {
      assert MissingTables(m, pd, v, 1) == {};
    } else {
      assert v <= v < v + 1;
      assert MissingTables(m, pd, v, 1) == {v / 1024};
    }
  }

  /** kvmm_commitPage at an address that the context does not translate: it succeeds exactly on an address
      that is backed on demand, if there are frames, and otherwise says why not. */
  lemma CommitPageIsExact(m: Machine, c: Context, va: nat)
    requires m.Sized() && Sound(m, c.pd) && va < VA_LIMIT
    requires WellFormed(c.spaces, c.start, c.end) && c.end <= MAPPABLE * PAGE
    requires va / PAGE < MAPPABLE ==> Translate(m, c.pd, va / PAGE) == None
    ensures var (n, d, outcome) := CommitPage(m, c, va);
      var v := va / PAGE;
      && (outcome.Succeeded? <==> LazilyBacked(c.spaces, va) && EnoughFrames(m, c.pd, v))
      && (outcome.Halts? <==> LazilyBacked(c.spaces, va) && FreeSet(m) != {} && !EnoughFrames(m, c.pd, v))
      && (outcome.Failed? ==> n == m && d == c)
      && (outcome == Failed(InVmm(NotAllocated)) <==> forall k :: 0 <= k < |c.spaces| ==> !c.spaces[k].Covers(va))
      && (forall k :: 0 <= k < |c.spaces| && c.spaces[k].Covers(va) ==>
            var flags := c.spaces[k].flags;
            && (outcome == Failed(InVmm(DoubleCommit)) <==> flags.immCommit || flags.committed)
            && (outcome == Failed(InVmm(NullPageAccess)) <==> flags.nullPage && !flags.immCommit && !flags.committed))
      && (outcome.Succeeded? ==>
            d == c.(dirty := true) && v < MAPPABLE && NewPage(m, n, c.pd, v))
  {
    hide Commit, Translate, FreeSet, Sound, NewPage;
    forall k | 0 <= k < |c.spaces| && c.spaces[k].Covers(va) ensures FindVas(c.spaces, va, 0) == Some(k) {
      FindVasIsUnique(c.spaces, c.start, c.end, va, k);
    }
    match FindVas(c.spaces, va, 0)
    case None =>
    case Some(k) =>
      assert Inside(c.spaces[k], c.start, c.end);
      assert va / PAGE < MAPPABLE;
      OnePageCommit(m, c, va / PAGE);
  }

  // ---------------------------------------------------------------------------------------------
  // page_fault_handler.
  // ---------------------------------------------------------------------------------------------

  /** The address lies in the bounds of the kernel context. */
  predicate InKernel(s: System, va: nat) {
    s.kernel.start <= va < s.kernel.end
  }

  /** A kernel address while the kernel's flag is set, present or not: the run returns and does no more
      than to bring all processes in step and to reset the flag. */
  lemma DirtyFaultOnlySynchronises(s: System, o: Owners, current: Option<nat>, va: nat, present: bool, queue: seq<nat>)
    requires Structural(s, o) && Legal(s, Fault(current, va, present, queue)) && InKernel(s, va) && s.kernel.dirty
    ensures var (t, running) := KernelRuns.Step(s, Fault(current, va, present, queue));
      && running && t.users == s.users && t.m.frames == s.m.frames && t.kernel == s.kernel.(dirty := false)
      && (forall c :: c in s.users ==> InStep(t.m, s.users[c].pd, s.kernel.pd))
      && (forall i :: 0 <= i < 1024 ==> t.m.At(s.kernel.pd, i) == s.m.At(s.kernel.pd, i))
      && forall c, v :: c in s.users && 0 <= v < USER_PAGES ==>
           Translate(t.m, s.users[c].pd, v) == Translate(s.m, s.users[c].pd, v)
  {
    hide Structural, Translate;
    SyncEveryone(s, o, queue);
    if current.Some? {
      assert s.users[current.value := s.users[current.value]] == s.users;
    }
  }

  /** Every other fault on a page that is present is fatal and changes nothing. */
  lemma PresentFaultIsFatal(s: System, current: Option<nat>, va: nat, queue: seq<nat>)
    requires WellNamed(s, Fault(current, va, true, queue)) && !(InKernel(s, va) && s.kernel.dirty)
    ensures KernelRuns.Step(s, Fault(current, va, true, queue)) == (s, false)
  {
    if current.Some? {
      assert s.users[current.value := s.users[current.value]] == s.users;
    }
    assert !s.kernel.dirty ==> s.kernel.(dirty := false) == s.kernel;
  }

  /** A not-present fault on a kernel address, or before there is a process, with a clean flag: it is
      resolved exactly on an address that is backed on demand, if there are frames. Then one kernel page is
      new, all processes are in step, and the flag is set. Any other address is fatal and changes nothing. */
  lemma KernelFaultIsExact(s: System, o: Owners, current: Option<nat>, va: nat, queue: seq<nat>)
    requires Structural(s, o) && NoneLoose(o) && Coherent(s) && Legal(s, Fault(current, va, false, queue))
    requires (InKernel(s, va) && !s.kernel.dirty) || (!InKernel(s, va) && current.None?)
    ensures var (t, running) := KernelRuns.Step(s, Fault(current, va, false, queue));
      var v := va / PAGE;
      && (running <==> LazilyBacked(s.kernel.spaces, va) && EnoughFrames(s.m, s.kernel.pd, v))
      && (!LazilyBacked(s.kernel.spaces, va) ==> t == s)
      && (running ==>
            && v < MAPPABLE && Translate(s.m, s.kernel.pd, v) == None
            && Translate(t.m, s.kernel.pd, v).Some? && Translate(t.m, s.kernel.pd, v).value in FreeSet(s.m)
            && t.users == s.users && t.kernel == s.kernel.(dirty := true)
            && forall d :: d in s.users ==> InStep(t.m, s.users[d].pd, s.kernel.pd))
  {
    hide Structural, Translate, CommitPage, FreeSet, LazilyBacked, EnoughFrames, SyncAll;
    StructureIsSized(s, o);
    KernelShapeOf(s, o);
    if current.Some? {
      assert s.users[current.value := s.users[current.value]] == s.users;
    }
    KernelIsSound(s, o);
    KernelFaultIsLacking(s, o, current, va);
    assert !s.kernel.dirty ==> s.kernel.(dirty := false) == s.kernel;
    CommitPageIsExact(s.m, s.kernel, va);
    var p := CommitKernelFault(s, o, va);
    var (m1, k1, outcome) := CommitPage(s.m, s.kernel, va);
    if outcome.Succeeded? {
      var s1 := System(m1, k1, s.users);
      SyncEveryone(s1, p, queue);
      SyncKeepsKernel(s1, p, queue, va / PAGE);
    }
  }

  /** The same in a process, where one page of the process is new and its flag is set. */
  lemma UserFaultIsExact(s: System, o: Owners, c: nat, va: nat, queue: seq<nat>)
    requires Structural(s, o) && NoneLoose(o) && Coherent(s) && Legal(s, Fault(Some(c), va, false, queue))
    requires !InKernel(s, va)
    ensures var (t, running) := KernelRuns.Step(s, Fault(Some(c), va, false, queue));
      var u, v := s.users[c], va / PAGE;
      && (running <==> LazilyBacked(u.spaces, va) && EnoughFrames(s.m, u.pd, v))
      && (!LazilyBacked(u.spaces, va) ==> t == s)
      && (running ==>
            && v < MAPPABLE && NewPage(s.m, t.m, u.pd, v)
            && t.kernel == s.kernel && t.users == s.users[c := u.(dirty := true)] && HalvesKept(s, t.m))
  {
    hide Structural, Translate, CommitPage, FreeSet, LazilyBacked, EnoughFrames, NewPage;
    StructureIsSized(s, o);
    assert s.users[c := s.users[c]] == s.users;
    UserIsSound(s, o, c);
    UserShapeOf(s, o, c);
    CommitPageIsExact(s.m, s.users[c], va);
    var p := CommitUserFault(s, o, c, va);
  }
}
