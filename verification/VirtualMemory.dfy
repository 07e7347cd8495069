/** src/kernel/vmm.c and page_fault_handler on objects. */
module VirtualMemory {
  import opened Common
  import opened FrameStates
  import opened PageTables
  import opened PagingUnit
  import opened AddressSpaces
  import opened Contexts

  class VMemoryManager {
    const start: nat
    const end: nat
    const isStatic: bool
    const pd: nat
    const paging: Paging
    var dirty: bool
    var spaces: seq<Vas>

    constructor (start: nat, end: nat, pd: nat, isStatic: bool, paging: Paging, stale: bool)
      ensures View() == Context(pd, start, end, isStatic, [], stale) && this.paging == paging
    {
      this.start, this.end, this.pd, this.isStatic, this.paging := start, end, pd, isStatic, paging;
      spaces, dirty := [], stale;
    }

    ghost function View(): Context
      reads this
    {
      Context(pd, start, end, isStatic, spaces, dirty)
    }

    /** What every operation needs: a live paging unit whose two temporary slots are empty. */
    ghost predicate Ready()
      reads paging
    {
      end <= VA_LIMIT && paging.Valid() && paging.SlotsEmpty()
    }

    ghost function Memory(): Machine
      requires paging.Valid()
      reads paging, paging.pmm.pab.bytes
    {
      paging.State()
    }

    /** addNewVirtualAddressSpace. */
    method AddNewVirtualAddressSpace(vas: Vas, heapOk: bool) returns (error: Option<VmmError>)
      modifies this`spaces
      ensures match AddSpace(old(spaces), start, end, vas, heapOk)
              case Added(s) => error == None && spaces == s
              case NotAdded(e) => error == Some(e) && spaces == old(spaces)
    {
      if vas.start % PAGE != 0 {
        return Some(Misplaced);
      }
      if vas.start < start || vas.End() > end {
        return Some(OutOfBounds);
      }
      if !heapOk {
        return Some(NoMemory);
      }
      if spaces == [] {
        spaces := [vas];
        return None;
      }
      var i := 0;
      while i < |spaces|
        invariant i <= |spaces| && spaces == old(spaces)
        invariant Place(spaces, vas, 0) == Place(spaces, vas, i)
      {
        if DetectsOverlap(vas, spaces[i]) {
          return Some(OverlappingVas);
        }
        if spaces[i].start > vas.start {
          spaces := Insert(spaces, i, vas);
          return None;
        }
        i := i + 1;
      }
      spaces := spaces + [vas];
      return None;
    }

    /** find_next_va. */
    method FindNextVa(pages: nat) returns (va: nat)
      ensures va == FindNext(spaces, start, end, pages)
    {
      if spaces == [] {
        return start;
      }
      var bytes := pages * PAGE;
      var i, newVa := 0, start;
      while i < |spaces|
        invariant i <= |spaces|
        invariant FindGap(spaces, end, bytes, 0, start) == FindGap(spaces, end, bytes, i, newVa)
      {
        if spaces[i].start - newVa >= bytes {
          return newVa;
        }
        newVa := spaces[i].End();
        i := i + 1;
      }
      return if end - newVa >= bytes then newVa else 0;
    }

    /** find_vas. */
    method FindVasAt(va: nat) returns (k: Option<nat>)
      ensures k == FindVas(spaces, va, 0)
    {
      var i := 0;
      while i < |spaces|
        invariant i <= |spaces| && FindVas(spaces, va, 0) == FindVas(spaces, va, i)
      {
        if spaces[i].Covers(va) {
          return Some(i);
        }
        i := i + 1;
      }
      return None;
    }

    /** commitVirtualPages: the external slot holds the directory while kpg_map uses the internal one. */
    method CommitVirtualPages(va: nat, pa: Option<nat>, count: nat) returns (outcome: Outcome, outPa: nat)
      requires Ready() && va + count * PAGE <= VA_LIMIT
      modifies this`dirty, paging.Footprint()
      ensures Ready() && paging.cr3 == old(paging.cr3)
      ensures (Memory(), View(), outcome, outPa) == Commit(old(Memory()), old(View()), va, pa, count)
    {
      hide MapPages, Alloc, Commit;
      CommitIs(Memory(), View(), va, pa, count);
      outPa := 0;
      if pa.Some? {
        outPa := pa.value;
      } else {
        var got, frame := paging.pmm.Alloc(count);
        if !got.Done? {
          return ByPmm(got), 0;
        }
        outPa := frame * PAGE;
      }
      paging.TemporaryMap(External, pd);
      var reply := paging.MapContinous(InSlot, va, outPa, count);
      paging.TemporaryUnmap(External);
      if reply.Mapped? {
        dirty := true;
      }
      outcome := ByPaging(reply);
    }

    /** kvmm_memmap. */
    method MemMap(va: nat, pa: Option<nat>, pages: nat, flags: Flags, isStaticVas: bool, heapOk: bool)
      returns (outcome: Outcome, at: nat)
      requires Ready()
      modifies this, paging.Footprint()
      ensures Ready() && paging.cr3 == old(paging.cr3)
      ensures (Memory(), View(), outcome, at)
           == Memmap(old(Memory()), old(View()), va, pa, pages, flags, isStaticVas, heapOk)
    {
      at := va;
      if va == 0 {
        at := FindNextVa(pages);
      }
      var error := AddNewVirtualAddressSpace(Vas(at, pages * PAGE, flags, isStaticVas), heapOk);
      if error.Some? {
        return Failed(InVmm(error.value)), 0;
      }
      if !flags.immCommit {
        return Succeeded, at;
      }
      var outPa;
      outcome, outPa := CommitVirtualPages(at, pa, pages);
      if !outcome.Succeeded? {
        at := 0;
      }
    }

    /** kpg_unmap and kpmm_free of one mapped page, as the loop of kvmm_free does them. */
    method ReleaseOne(va: nat, pa: nat) returns (ok: bool)
      requires paging.Valid() && va < VA_LIMIT && paging.extSlot == Some(pd) && paging.intSlot.None?
      requires Lookup(Memory(), pd, va) == Some(pa)
      modifies paging.Footprint()
      ensures paging.Valid() && paging.cr3 == old(paging.cr3)
      ensures paging.extSlot == Some(pd) && paging.intSlot.None?
      ensures var f := Translate(old(Memory()), pd, va / PAGE).value;
              var (m1, reply) := UnmapAddress(old(Memory()), pd, va);
              if !reply.Mapped? then !ok && Memory() == m1
              else Memory() == FreeFrame(m1, f).0 && ok == FreeFrame(m1, f).1.Done?
    {
      ghost var f := Translate(Memory(), pd, va / PAGE).value;
      var reply := paging.Unmap(InSlot, va);
      if !reply.Mapped? {
        return false;
      }
      assert va % PAGE == 0 && pa == f * PAGE;
      var freed := paging.FreePageFrame(pa / PAGE);
      ok := freed.Done?;
    }

    /** The page loop of kvmm_free; the directory is in the external slot. */
    method ReleaseRange(startVa: nat, count: nat) returns (outcome: Outcome)
      requires end <= VA_LIMIT && paging.Valid() && startVa < VA_LIMIT
      requires paging.extSlot == Some(pd) && paging.intSlot.None?
      modifies paging.Footprint()
      ensures paging.Valid() && paging.cr3 == old(paging.cr3)
      ensures paging.extSlot == Some(pd) && paging.intSlot.None?
      ensures (Memory(), outcome) == ReleasePages(old(Memory()), pd, startVa, count)
    {
      hide ReleasePages, UnmapAddress, FreeFrame, Translate;
      var va: nat, pgIndex := startVa, 0;
      while pgIndex < count
        invariant pgIndex <= count && va < VA_LIMIT
        invariant paging.Valid() && paging.cr3 == old(paging.cr3)
        invariant paging.extSlot == Some(pd) && paging.intSlot.None?
        invariant ReleasePages(old(Memory()), pd, startVa, count) == ReleasePages(Memory(), pd, va, count - pgIndex)
      {
        ReleasePagesStep(Memory(), pd, va, count - pgIndex);
        var pa := paging.DoesMappingExist(InSlot, va);
        if pa.Some? {
          var ok := ReleaseOne(va, pa.value);
          if !ok {
            return Halts;
          }
        }
        va, pgIndex := (va + PAGE) % VA_LIMIT, pgIndex + 1;
      }
      ReleasePagesStep(Memory(), pd, va, 0);
      outcome := Succeeded;
    }

    /** kvmm_free. */
    method Free(startVa: nat) returns (outcome: Outcome)
      requires Ready() && startVa < VA_LIMIT
      modifies this`spaces, paging.Footprint()
      ensures paging.Valid() && paging.cr3 == old(paging.cr3) && (!outcome.Halts? ==> paging.SlotsEmpty())
      ensures (Memory(), View(), outcome) == FreeSpace(old(Memory()), old(View()), startVa)
    {
      var k := FindVasAt(startVa);
      if k.None? {
        return Failed(InVmm(NotAllocated));
      }
      var vas := spaces[k.value];
      if vas.isStatic {
        return Failed(InVmm(StaticVas));
      }
      paging.TemporaryMap(External, pd);
      outcome := ReleaseRange(startVa, (vas.size + PAGE - 1) / PAGE);
      if !outcome.Succeeded? {
        return;
      }
      paging.TemporaryUnmap(External);
      spaces := Without(spaces, k.value);
    }

    /** The loop of kvmm_delete, for lists on which every kvmm_free goes through. */
    method DeleteSpaces() returns (outcome: Outcome)
      requires Ready() && Drain(Memory(), View()).2.Succeeded?
      modifies this`spaces, paging.Footprint()
      ensures Ready() && paging.cr3 == old(paging.cr3) && outcome.Succeeded? && spaces == []
      ensures (Memory(), View(), outcome) == Drain(old(Memory()), old(View()))
    {
      while spaces != []
        invariant Ready() && paging.cr3 == old(paging.cr3)
        invariant Drain(Memory(), View()) == Drain(old(Memory()), old(View()))
        decreases |spaces|
      {
        outcome := Free(spaces[0].start);
      }
      outcome := Succeeded;
    }

    /** kvmm_commitPage. */
    method CommitOnePage(va: nat) returns (outcome: Outcome)
      requires Ready() && va < VA_LIMIT
      modifies this`dirty, paging.Footprint()
      ensures Ready() && paging.cr3 == old(paging.cr3)
      ensures (Memory(), View(), outcome) == CommitPage(old(Memory()), old(View()), va)
    {
      var k := FindVasAt(va);
      if k.None? {
        return Failed(InVmm(NotAllocated));
      }
      var flags := spaces[k.value].flags;
      if flags.immCommit || flags.committed {
        return Failed(InVmm(DoubleCommit));
      }
      if flags.nullPage {
        return Failed(InVmm(NullPageAccess));
      }
      var outPa;
      outcome, outPa := CommitVirtualPages(va / PAGE * PAGE, None, 1);
    }

    /** kvmm_isPageDirectoryDirty: reading the flag resets it. */
    method IsPageDirectoryDirty() returns (wasDirty: bool)
      modifies this`dirty
      ensures wasDirty == old(dirty) && !dirty
    {
      wasDirty := dirty;
      dirty := false;
    }
  }

  /** Commit once its frames are there. */
  lemma CommitIs(m: Machine, c: Context, va: nat, pa: Option<nat>, count: nat)
    requires va + count * PAGE <= VA_LIMIT
    ensures pa == None && !Alloc(m.frames, m.usable, count).1.Done? ==>
      Commit(m, c, va, pa, count)
      == (m.With(Alloc(m.frames, m.usable, count).0), c, ByPmm(Alloc(m.frames, m.usable, count).1), 0)
    ensures pa.Some? || Alloc(m.frames, m.usable, count).1.Done? ==>
      var (after, at) := if pa.Some? then (m.frames, pa.value)
                         else (Alloc(m.frames, m.usable, count).0, Alloc(m.frames, m.usable, count).2 * PAGE);
      Commit(m, c, va, pa, count)
      == if count == 0 then (m.With(after), c, Failed(InPaging(ZeroPages)), at)
         else
           var (m1, reply) := MapPages(m.With(after), c.pd, va, at, count);
           (m1, if reply.Mapped? then c.(dirty := true) else c, ByPaging(reply), at)
  {
  }

  /** kvmm_new; the dirty flag is whatever the allocated memory held. */
  method KvmmNew(start: nat, end: nat, pd: nat, isStatic: bool, paging: Paging, stale: bool, heapOk: bool)
    returns (vmm: VMemoryManager?)
    ensures vmm == null <==> start >= end || !heapOk
    ensures vmm != null ==> fresh(vmm) && vmm.View() == Context(pd, start, end, isStatic, [], stale) && vmm.paging == paging
  {
    if start >= end || !heapOk {
      return null;
    }
    vmm := new VMemoryManager(start, end, pd, isStatic, paging, stale);
  }

  /** kprocess_syncPD over the queued processes' directories. */
  method SyncAllDirectories(paging: Paging, pds: seq<nat>, kernelPd: nat)
    requires paging.Valid() && paging.SlotsEmpty() && kernelPd < |paging.ram|
    requires forall pd :: pd in pds ==> pd < |paging.ram|
    modifies paging.Footprint()
    ensures paging.Valid() && paging.SlotsEmpty() && paging.cr3 == old(paging.cr3)
    ensures paging.State() == SyncAll(old(paging.State()), pds, kernelPd)
  {
    var i := 0;
    while i < |pds|
      invariant i <= |pds|
      invariant paging.Valid() && paging.SlotsEmpty() && paging.cr3 == old(paging.cr3)
      invariant |paging.ram| == old(|paging.ram|)
      invariant SyncAll(paging.State(), pds[i..], kernelPd) == SyncAll(old(paging.State()), pds, kernelPd)
    {
      assert pds[i] in pds && pds[i..][0] == pds[i] && pds[i..][1..] == pds[i + 1..];
      var reply, _ := paging.SetupPageDirectory(false, true, true, pds[i], kernelPd);
      i := i + 1;
    }
  }

  /** page_fault_handler; user is the current process's context, null while no process runs. */
  method PageFaultHandler(kernel: VMemoryManager, user: VMemoryManager?, pds: seq<nat>, va: nat, present: bool)
    returns (reply: FaultReply)
    requires kernel.Ready() && va < VA_LIMIT && kernel.pd < |kernel.paging.ram|
    requires user != null ==> user != kernel && user.paging == kernel.paging && user.end <= VA_LIMIT
    requires forall pd :: pd in pds ==> pd < |kernel.paging.ram|
    modifies kernel`dirty, if user != null then {user} else {}, kernel.paging.Footprint()
    ensures kernel.Ready() && kernel.paging.cr3 == old(kernel.paging.cr3)
    ensures (kernel.Memory(), kernel.View(), if user != null then Some(user.View()) else None, reply)
         == HandleFault(old(kernel.Memory()), old(kernel.View()), old(if user != null then Some(user.View()) else None),
                        pds, va, present)
  {
    var context := if user != null then user else kernel;
    if kernel.start <= va < kernel.end {
      context := kernel;
      var wasDirty := context.IsPageDirectoryDirty();
      if wasDirty {
        SyncAllDirectories(kernel.paging, pds, kernel.pd);
        return Retry;
      }
    }
    if !present {
      ghost var size := |kernel.paging.ram|;
      var outcome := context.CommitOnePage(va);
      assert |kernel.paging.ram| == size;
      if outcome.Succeeded? {
        if context == kernel {
          SyncAllDirectories(kernel.paging, pds, kernel.pd);
        }
        return Retry;
      }
    }
    reply := Fatal;
  }
}
