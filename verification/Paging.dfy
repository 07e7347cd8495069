/** src/kernel/x86/paging.c over simulated physical memory. Page tables are reached only through the
    two temporary-map slots; mapping over an occupied slot or unmapping an empty one is a panic, so
    both are preconditions here. */
module PagingUnit {
  import opened Common
  import opened FrameStates
  import opened PhysicalMemory
  import opened PageTables

  /** TEMPORARY_PTE_INDEX_EXTERN and TEMPORARY_PTE_INDEX_INTERNAL. */
  datatype Slot = External | Internal

  /** How a caller of the paging routines points at a page directory: through the external slot
      (kpg_temporaryMap) or through the recursive entry of the current one (kpg_getcurrentpd). */
  datatype Directory = InSlot | Current

  class Paging {
    const pmm: Pmm
    var ram: seq<Table>
    var cr3: nat
    var extSlot: Option<nat>
    var intSlot: Option<nat>

    constructor (pmm: Pmm, ram: seq<Table>, cr3: nat)
      requires pmm.Ready() && |ram| == pmm.pab.Capacity()
      ensures this.pmm == pmm && this.ram == ram && this.cr3 == cr3 && Valid() && SlotsEmpty()
    {
      this.pmm, this.ram, this.cr3 := pmm, ram, cr3;
      extSlot, intSlot := None, None;
    }

    ghost predicate Valid()
      reads this
    {
      pmm.Ready() && |ram| == pmm.pab.Capacity()
    }

    ghost function Footprint(): set<object> {
      {this, pmm.pab.bytes}
    }

    ghost function State(): (m: Machine)
      requires Valid()
      reads this, pmm.pab.bytes
      ensures |m.ram| == |m.frames| && m.usable <= |m.frames|
    {
      Machine(pmm.StateMap(), ram, pmm.UsablePages())
    }

    ghost predicate SlotsEmpty()
      reads this
    {
      extSlot.None? && intSlot.None?
    }

    function SlotOf(w: Slot): Option<nat>
      reads this
    {
      if w.External? then extSlot else intSlot
    }

    /** s_temporaryMap. */
    method TemporaryMap(w: Slot, frame: nat)
      requires SlotOf(w).None?
      modifies this`extSlot, this`intSlot
      ensures SlotOf(w) == Some(frame)
      ensures if w.External? then intSlot == old(intSlot) else extSlot == old(extSlot)
    {
      if w.External? {
        extSlot := Some(frame);
      } else {
        intSlot := Some(frame);
      }
    }

    /** s_temporaryUnmap. */
    method TemporaryUnmap(w: Slot)
      requires SlotOf(w).Some?
      modifies this`extSlot, this`intSlot
      ensures SlotOf(w).None?
      ensures if w.External? then intSlot == old(intSlot) else extSlot == old(extSlot)
    {
      if w.External? {
        extSlot := None;
      } else {
        intSlot := None;
      }
    }

    /** An access through a slot's window reaches the frame that the slot maps. */
    method ReadThrough(w: Slot, i: nat) returns (e: Entry)
      requires Valid() && SlotOf(w).Some? && i < 1024
      ensures e == State().At(SlotOf(w).value, i)
    {
      var f := if w.External? then extSlot.value else intSlot.value;
      e := if f < |ram| then ram[f][i] else Entry(false, 0);
    }

    method WriteThrough(w: Slot, i: nat, e: Entry)
      requires Valid() && SlotOf(w).Some? && i < 1024
      modifies this`ram
      ensures Valid() && State() == old(State()).Put(SlotOf(w).value, i, e)
    {
      var f := if w.External? then extSlot.value else intSlot.value;
      if f < |ram| {
        ram := ram[f := ram[f][i := e]];
      }
    }

    /** k_memset of the frame behind the internal slot. */
    method ClearThrough(w: Slot)
      requires Valid() && SlotOf(w).Some?
      modifies this`ram
      ensures Valid() && State() == old(State()).Load(SlotOf(w).value, ZeroTable())
    {
      var f := if w.External? then extSlot.value else intSlot.value;
      if f < |ram| {
        ram := ram[f := ZeroTable()];
      }
    }

    ghost predicate Reaches(d: Directory)
      reads this
    {
      d.InSlot? ==> extSlot.Some?
    }

    function FrameOf(d: Directory): nat
      reads this
      requires Reaches(d)
    {
      if d.InSlot? then extSlot.value else cr3
    }

    method ReadDirectory(d: Directory, i: nat) returns (e: Entry)
      requires Valid() && Reaches(d) && i < 1024
      ensures e == State().At(FrameOf(d), i)
    {
      var f := FrameOf(d);
      e := if f < |ram| then ram[f][i] else Entry(false, 0);
    }

    method WriteDirectory(d: Directory, i: nat, e: Entry)
      requires Valid() && Reaches(d) && i < 1024
      modifies this`ram
      ensures Valid() && State() == old(State()).Put(FrameOf(d), i, e)
    {
      var f := FrameOf(d);
      if f < |ram| {
        ram := ram[f := ram[f][i := e]];
      }
    }

    /** The part of kpg_map that creates a missing page table; false is the panic. */
    method EnsurePageTable(d: Directory, i: nat) returns (ok: bool)
      requires Valid() && Reaches(d) && intSlot.None? && i < 1024
      modifies Footprint()
      ensures Valid() && cr3 == old(cr3) && extSlot == old(extSlot) && intSlot.None?
      ensures State() == EnsureTable(old(State()), old(FrameOf(d)), i).0 && ok == EnsureTable(old(State()), old(FrameOf(d)), i).1
    {
      var pde := ReadDirectory(d, i);
      if !pde.present {
        var got, frame := pmm.Alloc(1);
        if !got.Done? {
          return false;
        }
        TemporaryMap(Internal, frame);
        ClearThrough(Internal);
        TemporaryUnmap(Internal);
        WriteDirectory(d, i, Entry(true, frame));
      }
      ok := true;
    }

    /** kpg_map. */
    method Map(d: Directory, va: nat, pa: nat) returns (reply: MapReply)
      requires Valid() && Reaches(d) && intSlot.None? && va < VA_LIMIT
      modifies Footprint()
      ensures Valid() && cr3 == old(cr3) && extSlot == old(extSlot) && intSlot.None?
      ensures (State(), reply) == MapAddress(old(State()), old(FrameOf(d)), va, pa)
    {
      hide EnsureTable;
      if va % PAGE != 0 || pa % PAGE != 0 {
        return MapRefused(Misaligned);
      }
      var info := TableIndices(va);
      var ok := EnsurePageTable(d, info.pde);
      if !ok {
        return Halted;
      }
      var pde := ReadDirectory(d, info.pde);
      TemporaryMap(Internal, pde.frame);
      var pte := ReadThrough(Internal, info.pte);
      if pte.present {
        TemporaryUnmap(Internal);
        return MapRefused(AlreadyMapped);
      }
      WriteThrough(Internal, info.pte, Entry(true, pa / PAGE));
      TemporaryUnmap(Internal);
      reply := Mapped;
    }

    /** kpg_unmap. */
    method Unmap(d: Directory, va: nat) returns (reply: MapReply)
      requires Valid() && Reaches(d) && intSlot.None? && va < VA_LIMIT
      modifies this
      ensures Valid() && cr3 == old(cr3) && extSlot == old(extSlot) && intSlot.None?
      ensures (State(), reply) == UnmapAddress(old(State()), old(FrameOf(d)), va)
    {
      if va % PAGE != 0 {
        return MapRefused(Misaligned);
      }
      var info := TableIndices(va);
      var pde := ReadDirectory(d, info.pde);
      if !pde.present {
        return MapRefused(NotMapped);
      }
      TemporaryMap(Internal, pde.frame);
      var pte := ReadThrough(Internal, info.pte);
      if !pte.present {
        TemporaryUnmap(Internal);
        return MapRefused(NotMapped);
      }
      WriteThrough(Internal, info.pte, pte.(present := false));
      TemporaryUnmap(Internal);
      reply := Mapped;
    }

    /** kpg_doesMappingExists. */
    method DoesMappingExist(d: Directory, va: nat) returns (pa: Option<nat>)
      requires Valid() && Reaches(d) && intSlot.None? && va < VA_LIMIT
      modifies this`extSlot, this`intSlot
      ensures extSlot == old(extSlot) && intSlot.None?
      ensures Valid() && State() == old(State()) && pa == Lookup(State(), FrameOf(d), va)
    {
      var info := TableIndices(va);
      SplitIsBijective(va, info);
      pa := None;
      var pde := ReadDirectory(d, info.pde);
      if pde.present {
        TemporaryMap(Internal, pde.frame);
        var pte := ReadThrough(Internal, info.pte);
        if pte.present {
          pa := Some(pte.frame * PAGE + info.offset);
        }
        TemporaryUnmap(Internal);
      }
    }

    /** kpg_mapContinous. */
    method MapContinous(d: Directory, vaStart: nat, paStart: nat, numPages: nat) returns (reply: MapReply)
      requires Valid() && Reaches(d) && intSlot.None? && vaStart + numPages * PAGE <= VA_LIMIT
      modifies Footprint()
      ensures Valid() && cr3 == old(cr3) && extSlot == old(extSlot) && intSlot.None?
      ensures numPages == 0 ==> State() == old(State()) && reply == MapRefused(ZeroPages)
      ensures numPages > 0 ==>
                (State(), reply) == MapPages(old(State()), old(FrameOf(d)), vaStart, paStart, numPages)
    {
      hide MapPages, MapAddress;
      if numPages == 0 {
        return MapRefused(ZeroPages);
      }
      ghost var m0, pd := State(), FrameOf(d);
      var pgIndex, va, pa := 0, vaStart, paStart;
      while pgIndex < numPages
        invariant pgIndex <= numPages && va == vaStart + pgIndex * PAGE && pa == paStart + pgIndex * PAGE
        invariant Valid() && cr3 == old(cr3) && extSlot == old(extSlot) && intSlot.None?
        invariant Reaches(d) && FrameOf(d) == pd
        invariant MapPages(m0, pd, vaStart, paStart, numPages) == MapPages(State(), pd, va, pa, numPages - pgIndex)
      {
        MapPagesStep(State(), pd, va, pa, numPages - pgIndex);
        reply := Map(d, va, pa);
        if !reply.Mapped? {
          return;
        }
        pgIndex, va, pa := pgIndex + 1, va + PAGE, pa + PAGE;
      }
      MapPagesStep(State(), pd, va, pa, 0);
      reply := Mapped;
    }

    /** The copy in kpg_setupPageDirectory; pd is in the internal slot. */
    method CopyKernelPages(pd: nat, kernelPd: nat)
      requires Valid() && intSlot == Some(pd) && extSlot.None? && pd < |ram| && kernelPd < |ram|
      modifies this`ram, this`intSlot, this`extSlot
      ensures Valid() && intSlot == Some(pd) && extSlot.None?
      ensures ram == old(ram)[pd := ram[pd]]
      ensures forall k :: 0 <= k < 1024 ==> ram[pd][k] == old(if k >= KERNEL_PDE then ram[kernelPd][k] else ram[pd][k])
    {
      ghost var mem := ram;
      TemporaryMap(External, kernelPd);
      var pdi := KERNEL_PDE;
      while pdi < 1024
        invariant KERNEL_PDE <= pdi <= 1024
        invariant |ram| == |mem| && intSlot == Some(pd) && extSlot == Some(kernelPd)
        invariant forall f :: 0 <= f < |ram| && f != pd ==> ram[f] == mem[f]
        invariant forall k :: 0 <= k < 1024 ==>
                    ram[pd][k] == if KERNEL_PDE <= k < pdi then mem[kernelPd][k] else mem[pd][k]
      {
        var e := ReadThrough(External, pdi);
        WriteThrough(Internal, pdi, e);
        pdi := pdi + 1;
      }
      TemporaryUnmap(External);
    }

    /** The recursive entry in kpg_setupPageDirectory. */
    method MapRecursively(pd: nat)
      requires Valid() && intSlot == Some(pd)
      modifies this`ram
      ensures Valid() && State() == old(State()).Put(pd, RECURSIVE_PDE, old(State()).At(pd, RECURSIVE_PDE).(frame := pd))
    {
      var self := ReadThrough(Internal, RECURSIVE_PDE);
      WriteThrough(Internal, RECURSIVE_PDE, self.(frame := pd));
    }

    /** The beginning of kpg_setupPageDirectory: the directory is in the internal slot. */
    method OpenDirectory(createNew: bool, given: nat) returns (reply: Reply, pd: nat)
      requires Valid() && SlotsEmpty() && (createNew || given < |ram|)
      modifies Footprint()
      ensures Valid() && cr3 == old(cr3) && extSlot.None?
      ensures createNew ==>
        var (after, got, f) := Alloc(old(State()).frames, old(State()).usable, 1);
        var m := old(State()).With(after);
        (State(), reply, pd) == if got.Done? then (m.Load(f, ZeroTable()), got, f) else (m, got, 0)
      ensures !createNew ==> reply.Done? && pd == given && State() == old(State())
      ensures if reply.Done? then intSlot == Some(pd) && pd < |ram| else intSlot.None?
    {
      reply, pd := Done, given;
      if createNew {
        reply, pd := pmm.Alloc(1);
        if !reply.Done? {
          return reply, 0;
        }
      }
      TemporaryMap(Internal, pd);
      if createNew {
        ClearThrough(Internal);
      }
    }

    /** The rest of it: the kernel's entries and the recursive entry. */
    method FillDirectory(pd: nat, copyKernel: bool, recursive: bool, kernelPd: nat)
      requires Valid() && intSlot == Some(pd) && extSlot.None? && pd < |ram| && (copyKernel ==> kernelPd < |ram|)
      modifies this`ram, this`intSlot, this`extSlot
      ensures Valid() && SlotsEmpty()
      ensures var m := old(State());
        State() == m.Load(pd, SetUpTable(Contents(m, pd), Contents(m, kernelPd), pd, copyKernel, recursive))
    {
      ghost var m := State();
      if copyKernel {
        CopyKernelPages(pd, kernelPd);
      }
      if recursive {
        MapRecursively(pd);
      }
      TemporaryUnmap(Internal);
      assert ram[pd] == SetUpTable(Contents(m, pd), Contents(m, kernelPd), pd, copyKernel, recursive);
      assert ram == m.ram[pd := ram[pd]];
    }

    /** kpg_setupPageDirectory. For the copy it holds both slots at once. */
    method SetupPageDirectory(createNew: bool, copyKernel: bool, recursive: bool, given: nat, kernelPd: nat)
      returns (reply: Reply, pd: nat)
      requires Valid() && SlotsEmpty() && (copyKernel ==> kernelPd < |ram|) && (createNew || given < |ram|)
      modifies Footprint()
      ensures Valid() && cr3 == old(cr3) && SlotsEmpty()
      ensures (State(), reply, pd) == SetUpPd(old(State()), createNew, copyKernel, recursive, given, kernelPd)
    {
      hide SetUpTable, Contents, Alloc;
      reply, pd := OpenDirectory(createNew, given);
      if reply.Done? {
        FillDirectory(pd, copyKernel, recursive, kernelPd);
      }
    }

    /** kpmm_free of one frame. */
    method FreePageFrame(frame: nat) returns (reply: Reply)
      requires Valid()
      modifies pmm.pab.bytes
      ensures Valid() && (State(), reply) == FreeFrame(old(State()), frame)
    {
      pmm.OnePageStays(frame);
      FreePagesIsFreeRun(pmm.StateMap(), pmm.usableBytes, frame, 1);
      reply := pmm.Free(frame * PAGE, 1);
    }

    /** kpg_deletePageDirectory. A kpmm_free that is refused inside the loop returns with the directory
        still in the internal slot, so that the next temporary map would panic. */
    method DeletePageDirectory(pd: nat, keepKernel: bool) returns (reply: Reply)
      requires Valid() && intSlot.None? && pd != cr3
      modifies Footprint()
      ensures Valid() && cr3 == old(cr3) && extSlot == old(extSlot)
      ensures (State(), reply) == DeletePd(old(State()), pd, keepKernel)
      ensures intSlot == if FreeTables(old(State()), pd, 0, if keepKernel then KERNEL_PDE else 1024).1.Done?
                         then None else Some(pd)
      ensures reply.Done? ==> intSlot.None?
    {
      hide FreeFrame;
      TemporaryMap(Internal, pd);
      var endIndex := if keepKernel then KERNEL_PDE else 1024;
      ghost var m0 := State();
      var i := 0;
      while i < endIndex
        invariant i <= endIndex
        invariant Valid() && intSlot == Some(pd) && extSlot == old(extSlot) && cr3 == old(cr3)
        invariant FreeTables(m0, pd, 0, endIndex) == FreeTables(State(), pd, i, endIndex)
      {
        var pde := ReadThrough(Internal, i);
        if pde.present {
          reply := FreePageFrame(pde.frame);
          if !reply.Done? {
            return;
          }
        }
        i := i + 1;
      }
      TemporaryUnmap(Internal);
      reply := FreePageFrame(pd);
    }
  }
}
