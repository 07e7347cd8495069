/** A memory context: a page directory and its list of address spaces. What the operations of
    src/kernel/vmm.c do to a context and to physical memory. */
module Contexts {
  import opened Common
  import opened FrameStates
  import opened PageTables
  import opened AddressSpaces

  /** VMemoryManager. */
  datatype Context = Context(pd: nat, start: nat, end: nat, isStatic: bool, spaces: seq<Vas>, dirty: bool)

  datatype Failure = InVmm(vmm: VmmError) | InPmm(pmm: PmmError) | InPaging(paging: PagingError)

  datatype Outcome = Succeeded | Failed(why: Failure) | Halts

  function ByPmm(reply: Reply): Outcome {
    match reply
    case Done => Succeeded
    case Refused(e) => Failed(InPmm(e))
    case Panicked => Halts
  }

  function ByPaging(reply: MapReply): Outcome {
    match reply
    case Mapped => Succeeded
    case MapRefused(e) => Failed(InPaging(e))
    case Halted => Halts
  }

  /** commitVirtualPages; pa is the caller's physical address, if any. Frames it took from the PMM are
      not given back when the mapping then fails. The last component is *outPA. */
  function Commit(m: Machine, c: Context, va: nat, pa: Option<nat>, count: nat): (r: (Machine, Context, Outcome, nat))
    requires va + count * PAGE <= VA_LIMIT
    ensures |r.0.ram| == |m.ram| && |r.0.frames| == |m.frames| && r.0.usable == m.usable
  {
    var (after, got, frame) := if pa.Some? then (m.frames, Done, pa.value / PAGE) else Alloc(m.frames, m.usable, count);
    if !got.Done? then (m.With(after), c, ByPmm(got), 0)
    else
      var backing := if pa.Some? then pa.value else frame * PAGE;
      if count == 0 then (m.With(after), c, Failed(InPaging(ZeroPages)), backing)
      else
        var (m1, reply) := MapPages(m.With(after), c.pd, va, backing, count);
        (m1, if reply.Mapped? then c.(dirty := true) else c, ByPaging(reply), backing)
  }

  /** kvmm_memmap; va == 0 asks for any address. The fourth component is the address, 0 on failure. A
      space whose immediate commit failed stays in the list. */
  function Memmap(m: Machine, c: Context, va: nat, pa: Option<nat>, pages: nat, flags: Flags,
                  isStatic: bool, heapOk: bool): (r: (Machine, Context, Outcome, nat))
    requires c.end <= VA_LIMIT
    ensures |r.0.ram| == |m.ram| && |r.0.frames| == |m.frames| && r.0.usable == m.usable
  {
    var at := if va == 0 then FindNext(c.spaces, c.start, c.end, pages) else va;
    match AddSpace(c.spaces, c.start, c.end, Vas(at, pages * PAGE, flags, isStatic), heapOk)
    case NotAdded(e) => (m, c, Failed(InVmm(e)), 0)
    case Added(spaces) =>
      var c1 := c.(spaces := spaces);
      if !flags.immCommit then (m, c1, Succeeded, at)
      else
        var (m1, c2, outcome, _) := Commit(m, c1, at, pa, pages);
        (m1, c2, outcome, if outcome.Succeeded? then at else 0)
  }

  /** kvmm_commitPage. */
  function CommitPage(m: Machine, c: Context, va: nat): (r: (Machine, Context, Outcome))
    requires va < VA_LIMIT
    ensures |r.0.ram| == |m.ram| && |r.0.frames| == |m.frames| && r.0.usable == m.usable
  {
    match FindVas(c.spaces, va, 0)
    case None => (m, c, Failed(InVmm(NotAllocated)))
    case Some(k) =>
      var flags := c.spaces[k].flags;
      if flags.immCommit || flags.committed then (m, c, Failed(InVmm(DoubleCommit)))
      else if flags.nullPage then (m, c, Failed(InVmm(NullPageAccess)))
      else
        var (m1, c1, outcome, _) := Commit(m, c, va / PAGE * PAGE, None, 1);
        (m1, c1, outcome)
  }

  /** The loop of kvmm_free over count pages from address va on; addresses are 32 bits wide. */
  function ReleasePages(m: Machine, pd: nat, va: nat, count: nat): (r: (Machine, Outcome))
    requires va < VA_LIMIT && m.usable <= |m.frames|
    ensures |r.0.ram| == |m.ram| && |r.0.frames| == |m.frames| && r.0.usable == m.usable
    ensures r.1.Succeeded? || r.1.Halts?
    decreases count
  {
    if count == 0 then (m, Succeeded)
    else
      match Translate(m, pd, va / PAGE)
      case None => ReleasePages(m, pd, (va + PAGE) % VA_LIMIT, count - 1)
      case Some(f) =>
        var (m1, reply) := UnmapAddress(m, pd, va);
        if !reply.Mapped? then (m1, Halts)
        else
          var (m2, freed) := FreeFrame(m1, f);
          if freed.Done? then ReleasePages(m2, pd, (va + PAGE) % VA_LIMIT, count - 1) else (m2, Halts)
  }

  /** The first page of the loop, then the others. */
  lemma ReleasePagesStep(m: Machine, pd: nat, va: nat, count: nat)
    requires va < VA_LIMIT && m.usable <= |m.frames|
    ensures count == 0 ==> ReleasePages(m, pd, va, count) == (m, Succeeded)
    ensures count > 0 && Translate(m, pd, va / PAGE) == None ==>
      ReleasePages(m, pd, va, count) == ReleasePages(m, pd, (va + PAGE) % VA_LIMIT, count - 1)
    ensures count > 0 && Translate(m, pd, va / PAGE).Some? ==>
      var (m1, reply) := UnmapAddress(m, pd, va);
      var (m2, freed) := FreeFrame(m1, Translate(m, pd, va / PAGE).value);
      ReleasePages(m, pd, va, count)
      == if !reply.Mapped? then (m1, Halts)
         else if freed.Done? then ReleasePages(m2, pd, (va + PAGE) % VA_LIMIT, count - 1)
         else (m2, Halts)
  {
  }

  /** The same in page numbers, for a range that does not wrap around. */
  function ReleaseRun(m: Machine, pd: nat, v: nat, count: nat): (r: (Machine, Outcome))
    requires v + count <= 0x10_0000 && m.usable <= |m.frames|
    ensures |r.0.ram| == |m.ram| && |r.0.frames| == |m.frames| && r.0.usable == m.usable
    decreases count
  {
    if count == 0 then (m, Succeeded)
    else
      match Translate(m, pd, v)
      case None => ReleaseRun(m, pd, v + 1, count - 1)
      case Some(f) =>
        var (m1, freed) := FreeFrame(UnmapPage(m, pd, v).0, f);
        if freed.Done? then ReleaseRun(m1, pd, v + 1, count - 1) else (m1, Halts)
  }

  lemma {:induction false} ReleasePagesIsReleaseRun(m: Machine, pd: nat, v: nat, count: nat)
    requires v + count < 0x10_0000 && m.usable <= |m.frames|
    ensures ReleasePages(m, pd, v * PAGE, count) == ReleaseRun(m, pd, v, count)
    decreases count
  {
    hide ReleasePages, Translate, FreeFrame, UnmapPage;
    NextPageAddress(v);
    ReleasePagesStep(m, pd, v * PAGE, count);
    if count > 0 {
      match Translate(m, pd, v)
      case None => ReleasePagesIsReleaseRun(m, pd, v + 1, count - 1);
      case Some(f) =>
        MappedMeansUnmapped(m, pd, v);
        ReleasePagesIsReleaseRun(FreeFrame(UnmapPage(m, pd, v).0, f).0, pd, v + 1, count - 1);
    }
  }

  lemma NextPageAddress(v: nat)
    requires v < 0x10_0000
    ensures v * PAGE < VA_LIMIT && v * PAGE % PAGE == 0 && v * PAGE / PAGE == v
    ensures v + 1 < 0x10_0000 ==> (v * PAGE + PAGE) % VA_LIMIT == (v + 1) * PAGE
  {
  }

  /** A mapped page can be unmapped. */
  lemma MappedMeansUnmapped(m: Machine, pd: nat, v: nat)
    requires v < 0x10_0000 && Translate(m, pd, v).Some?
    ensures UnmapPage(m, pd, v).1.Mapped?
  {
  }

  /** kvmm_free: releases as many pages as the space around va has, starting at va itself. */
  function FreeSpace(m: Machine, c: Context, va: nat): (r: (Machine, Context, Outcome))
    requires va < VA_LIMIT && m.usable <= |m.frames|
    ensures |r.0.ram| == |m.ram| && |r.0.frames| == |m.frames| && r.0.usable == m.usable
    ensures r.2.Succeeded? ==> |r.1.spaces| < |c.spaces|
  {
    match FindVas(c.spaces, va, 0)
    case None => (m, c, Failed(InVmm(NotAllocated)))
    case Some(k) =>
      if c.spaces[k].isStatic then (m, c, Failed(InVmm(StaticVas)))
      else
        var (m1, outcome) := ReleasePages(m, c.pd, va, (c.spaces[k].size + PAGE - 1) / PAGE);
        if outcome.Succeeded? then (m1, c.(spaces := Without(c.spaces, k)), Succeeded) else (m1, c, outcome)
  }

  /** The loop of kvmm_delete. A kvmm_free that fails is retried for ever there; it ends the run here. */
  function Drain(m: Machine, c: Context): (r: (Machine, Context, Outcome))
    requires m.usable <= |m.frames|
    ensures |r.0.ram| == |m.ram| && |r.0.frames| == |m.frames| && r.0.usable == m.usable
    decreases |c.spaces|
  {
    if c.spaces == [] then (m, c, Succeeded)
    else if c.spaces[0].start >= VA_LIMIT then (m, c, Failed(InVmm(OutOfBounds)))
    else
      var (m1, c1, outcome) := FreeSpace(m, c, c.spaces[0].start);
      if outcome.Succeeded? then Drain(m1, c1) else (m1, c1, outcome)
  }

  /** n rounds of that loop as it is: a kvmm_free that fails is tried again. The last component says that
      the kernel has halted. */
  function Rounds(m: Machine, c: Context, n: nat): (r: (Machine, Context, bool))
    requires m.usable <= |m.frames|
    decreases n
  {
    if n == 0 || c.spaces == [] || c.spaces[0].start >= VA_LIMIT then (m, c, false)
    else
      var (m1, c1, outcome) := FreeSpace(m, c, c.spaces[0].start);
      if outcome.Halts? then (m1, c1, true) else Rounds(m1, c1, n - 1)
  }

  /** The kvmm_free of the first space of a list. */
  lemma FreeHead(m: Machine, c: Context)
    requires WellFormed(c.spaces, c.start, c.end) && c.end <= VA_LIMIT && m.usable <= |m.frames| && c.spaces != []
    ensures c.spaces[0].start < VA_LIMIT
    ensures var (n, d, outcome) := FreeSpace(m, c, c.spaces[0].start);
      if c.spaces[0].isStatic then outcome.Failed? && n == m && d == c
      else !outcome.Failed? && (outcome.Succeeded? ==> d == c.(spaces := c.spaces[1..]))
  {
    hide ReleasePages;
    assert Inside(c.spaces[0], c.start, c.end);
    FindVasIsUnique(c.spaces, c.start, c.end, c.spaces[0].start, 0);
    assert Without(c.spaces, 0) == c.spaces[1..];
  }

  /** kvmm_free refuses an address that no space covers, and a static space, and changes nothing then. */
  lemma FreeSpaceRefuses(m: Machine, c: Context, va: nat)
    requires WellFormed(c.spaces, c.start, c.end) && va < VA_LIMIT && m.usable <= |m.frames|
    ensures var (n, d, outcome) := FreeSpace(m, c, va);
      && (outcome.Failed? ==> n == m && d == c)
      && (outcome == Failed(InVmm(NotAllocated)) <==> forall k :: 0 <= k < |c.spaces| ==> !c.spaces[k].Covers(va))
      && (forall k :: 0 <= k < |c.spaces| && c.spaces[k].Covers(va) ==>
            (outcome.Failed? <==> c.spaces[k].isStatic) && (outcome.Failed? ==> outcome == Failed(InVmm(StaticVas))))
  {
    hide ReleasePages;
    forall k | 0 <= k < |c.spaces| && c.spaces[k].Covers(va) ensures FindVas(c.spaces, va, 0) == Some(k) {
      FindVasIsUnique(c.spaces, c.start, c.end, va, k);
    }
  }

  lemma {:induction false} StaticHeadStays(m: Machine, c: Context, n: nat)
    requires WellFormed(c.spaces, c.start, c.end) && c.end <= VA_LIMIT && m.usable <= |m.frames|
    requires c.spaces != [] && c.spaces[0].isStatic
    ensures Rounds(m, c, n) == (m, c, false)
    decreases n
  {
    hide FreeSpace;
    FreeHead(m, c);
    if n > 0 {
      StaticHeadStays(m, c, n - 1);
    }
  }

  /** kvmm_delete, unless the kernel halts in it: without a static space it empties the list in as many
      rounds as the list has spaces, and with one it never ends. */
  lemma {:induction false} DeletionEndsUnlessStatic(m: Machine, c: Context)
    requires WellFormed(c.spaces, c.start, c.end) && c.end <= VA_LIMIT && m.usable <= |m.frames|
    ensures var (n, d, outcome) := Drain(m, c);
      && (outcome.Succeeded? ==> Rounds(m, c, |c.spaces|) == (n, d, false) && d.spaces == [])
      && (outcome.Failed? ==> forall k: nat :: !Rounds(m, c, k).2 && Rounds(m, c, k).1.spaces != [])
      && (!outcome.Halts? ==> (outcome.Failed? <==> exists i :: 0 <= i < |c.spaces| && c.spaces[i].isStatic))
    decreases |c.spaces|
  {
    hide FreeSpace;
    if c.spaces != [] {
      FreeHead(m, c);
      if c.spaces[0].isStatic {
        forall k: nat ensures Rounds(m, c, k) == (m, c, false) {
          StaticHeadStays(m, c, k);
        }
      } else {
        var (m1, c1, outcome) := FreeSpace(m, c, c.spaces[0].start);
        if outcome.Succeeded? {
          DeletionEndsUnlessStatic(m1, c1);
          assert forall i :: 0 < i < |c.spaces| ==> c1.spaces[i - 1] == c.spaces[i];
          assert forall k: nat :: k > 0 ==> Rounds(m, c, k) == Rounds(m1, c1, k - 1);
        }
      }
    }
  }

  /** kvmm_delete and then kpg_deletePageDirectory, as the end of a process does them. */
  function Destroy(m: Machine, c: Context): (r: (Machine, Outcome))
    requires m.usable <= |m.frames|
    ensures |r.0.ram| == |m.ram| && |r.0.frames| == |m.frames| && r.0.usable == m.usable
  {
    var (m1, _, outcome) := Drain(m, c);
    if !outcome.Succeeded? then (m1, outcome)
    else
      var (m2, reply) := DeletePd(m1, c.pd, true);
      (m2, ByPmm(reply))
  }

  // ---------------------------------------------------------------------------------------------
  // page_fault_handler.
  // ---------------------------------------------------------------------------------------------

  /** kprocess_syncPD over the directories of the queued processes, in queue order. */
  function SyncAll(m: Machine, pds: seq<nat>, kernelPd: nat): (r: Machine)
    ensures |r.ram| == |m.ram| && r.frames == m.frames && r.usable == m.usable
    decreases |pds|
  {
    if pds == [] then m else SyncAll(SyncPd(m, pds[0], kernelPd), pds[1..], kernelPd)
  }

  predicate InBounds(c: Context, va: nat) {
    c.start <= va < c.end
  }

  /** Retry: the handler returned and the instruction runs again. Fatal: s_callPanic. */
  datatype FaultReply = Retry | Fatal

  /** One run of the handler: user is the context of the current process, None while there is none.
      The result holds the memory, the kernel context and the user context. */
  function HandleFault(m: Machine, kernel: Context, user: Option<Context>, pds: seq<nat>, va: nat, present: bool)
    : (r: (Machine, Context, Option<Context>, FaultReply))
    requires va < VA_LIMIT
    ensures |r.0.ram| == |m.ram| && |r.0.frames| == |m.frames| && r.0.usable == m.usable
  {
    var inKernel := InBounds(kernel, va) || user.None?;
    if InBounds(kernel, va) && kernel.dirty then
      (SyncAll(m, pds, kernel.pd), kernel.(dirty := false), user, Retry)
    else
      var k := if InBounds(kernel, va) then kernel.(dirty := false) else kernel;
      if present then (m, k, user, Fatal)
      else if inKernel then
        var (m1, k1, outcome) := CommitPage(m, k, va);
        if outcome.Succeeded? then (SyncAll(m1, pds, k1.pd), k1, user, Retry) else (m1, k1, user, Fatal)
      else
        var (m1, u1, outcome) := CommitPage(m, user.value, va);
        (m1, k, Some(u1), if outcome.Succeeded? then Retry else Fatal)
  }
}
