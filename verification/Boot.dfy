/** The end of boot in src/kernel/x86/kernel.c: page tables and address spaces are brought to say what the
    frame allocator says about the higher-half window. */
module Boot {
  import opened Common
  import opened FrameStates
  import opened PhysicalMemory
  import opened PageTables
  import opened PagingUnit
  import opened AddressSpaces
  import opened Contexts
  import opened VirtualMemory
  import opened Ownership
  import opened KernelRuns

  /** The first virtual page of the window; frame f is seen at page HIGHER_HALF + f. */
  const HIGHER_HALF: nat := 0xC_0000
  /** MEM_END_HIGHER_HALF_MAP as a physical address. */
  const HIGHER_HALF_END: nat := 0x20_0000
  const BOOT_FLAGS := NO_FLAGS.(kernelPage := true, committed := true)

  /** The number of frames that begin before physical address end. */
  function Window(end: nat): (n: nat)
    ensures n * PAGE >= end && (forall f: nat :: f < n <==> f * PAGE < end)
  {
    (end + PAGE - 1) / PAGE
  }

  function AddressOf(f: nat): nat {
    (HIGHER_HALF + f) * PAGE
  }

  /** [a, b) is a run of one state, as long as it can be in the window. */
  ghost predicate MaximalRun(fs: Frames, window: nat, a: nat, b: nat) {
    && a < b <= window <= |fs|
    && (forall f :: a <= f < b ==> fs[f] == fs[a])
    && (a > 0 ==> fs[a - 1] != fs[a])
    && (b < window ==> fs[b] != fs[a])
  }

  /** The space is a maximal run of frames that are not free. */
  ghost predicate RecordsRun(fs: Frames, window: nat, vas: Vas) {
    exists a: nat, b: nat :: MaximalRun(fs, window, a, b) && fs[a] != Free
      && vas == Vas(AddressOf(a), (b - a) * PAGE, BOOT_FLAGS, true)
  }

  /** The higher-half window as the boot loader leaves it: all of it mapped, none of it reserved, and no
      frame in it or directly behind it INVALID, for which the loop panics. */
  ghost predicate FullyMapped(m: Machine, k: Context, window: nat) {
    && m.Sized() && window < |m.frames| && HIGHER_HALF + window <= MAPPABLE
    && Sound(m, k.pd) && KernelShape(k) && k.start <= AddressOf(0) && AddressOf(window) <= k.end
    && (forall f :: 0 <= f < window ==> Translate(m, k.pd, HIGHER_HALF + f) == Some(f))
    && (forall f :: 0 <= f <= window ==> m.frames[f] != Invalid)
    && (forall i :: 0 <= i < |k.spaces| ==> k.spaces[i].End() <= AddressOf(0) || k.spaces[i].start >= AddressOf(window))
  }

  /** The pages of the free ones among the first n frames are unmapped, and no others. */
  ghost predicate PagesDone(m0: Machine, m: Machine, pd: nat, window: nat, n: nat)
    requires HIGHER_HALF + window <= MAPPABLE && window <= |m.frames|
  {
    && m.Sized() && Sound(m, pd) && m.frames == m0.frames && m.usable == m0.usable
    && (forall f :: 0 <= f < window ==>
          Translate(m, pd, HIGHER_HALF + f) == if f < n && m.frames[f] == Free then None else Some(f))
    && (forall v :: 0 <= v < MAPPABLE && !(HIGHER_HALF <= v < HIGHER_HALF + window) ==>
          Translate(m, pd, v) == Translate(m0, pd, v))
  }

  /** The spaces so far record the runs among the first n frames, and leave the rest of the window. */
  ghost predicate SpacesDone(fs: Frames, k0: Context, k: Context, window: nat, n: nat)
    requires n <= window <= |fs|
  {
    && WellFormed(k.spaces, k.start, k.end) && k == k0.(spaces := k.spaces)
    && (forall i {:trigger k.spaces[i]} :: 0 <= i < |k.spaces| ==>
          && (k.spaces[i].End() <= AddressOf(n) || k.spaces[i].start >= AddressOf(window))
          && (k.spaces[i] in k0.spaces || RecordsRun(fs, window, k.spaces[i])))
    && (forall v {:trigger v in k0.spaces} :: v in k0.spaces ==> v in k.spaces)
    && (forall f {:trigger fs[f]} :: 0 <= f < n && fs[f] != Free ==> Backable(k.spaces, HIGHER_HALF + f))
  }

  /** The first n frames of the window are done, and a run begins with the next one. */
  ghost predicate Done(m0: Machine, k0: Context, m: Machine, k: Context, window: nat, n: nat) {
    && HIGHER_HALF + window <= MAPPABLE && n <= window <= |m.frames|
    && PagesDone(m0, m, k.pd, window, n)
    && SpacesDone(m.frames, k0, k, window, n)
    && (0 < n < window && m.frames[n] != Free ==> m.frames[n - 1] != m.frames[n])
  }

  lemma StartsDone(m: Machine, k: Context, window: nat)
    requires FullyMapped(m, k, window)
    ensures Done(m, k, m, k, window, 0)
  {
  }

  lemma FreePageDone(m0: Machine, m: Machine, pd: nat, window: nat, n: nat)
    requires HIGHER_HALF + window <= MAPPABLE && n < window <= |m.frames|
    requires PagesDone(m0, m, pd, window, n) && m.frames[n] == Free
    ensures var (m1, reply) := UnmapPage(m, pd, HIGHER_HALF + n);
      reply.Mapped? && |m1.frames| == |m.frames| && PagesDone(m0, m1, pd, window, n + 1)
  {
    hide Translate, UnmapPage, Sound;
    UnmapChangesOnePage(m, pd, HIGHER_HALF + n);
  }

  lemma OtherPagesDone(m0: Machine, m: Machine, pd: nat, window: nat, n: nat, to: nat)
    requires HIGHER_HALF + window <= MAPPABLE && n <= to <= window <= |m.frames|
    requires PagesDone(m0, m, pd, window, n) && forall f :: n <= f < to ==> m.frames[f] != Free
    ensures PagesDone(m0, m, pd, window, to)
  {
    hide Translate, Sound;
  }

  /** A free frame: its page is unmapped. */
  lemma FreeFrameDone(m0: Machine, k0: Context, m: Machine, k: Context, window: nat, n: nat)
    requires Done(m0, k0, m, k, window, n) && n < window && m.frames[n] == Free
    ensures var (m1, reply) := UnmapPage(m, k.pd, HIGHER_HALF + n);
      reply.Mapped? && Done(m0, k0, m1, k, window, n + 1)
  {
    hide PagesDone, UnmapPage;
    FreePageDone(m0, m, k.pd, window, n);
  }

  /** The space of a run fits. */
  lemma RunFits(fs: Frames, k0: Context, k: Context, window: nat, n: nat, size: nat)
    requires n < window <= |fs| && SpacesDone(fs, k0, k, window, n)
    requires size > 0 && n + size <= window && k.start <= AddressOf(0) && AddressOf(window) <= k.end
    ensures Inside(Vas(AddressOf(n), size * PAGE, BOOT_FLAGS, true), k.start, k.end)
    ensures Fits(k.spaces, k.start, k.end, size * PAGE, AddressOf(n))
  {
    hide RecordsRun, Backable;
  }

  lemma RunSpaceDone(fs: Frames, k0: Context, k: Context, window: nat, n: nat, size: nat)
    requires n < window <= |fs| && SpacesDone(fs, k0, k, window, n) && fs[n] != Free
    requires MaximalRun(fs, window, n, n + size) && k.start <= AddressOf(0) && AddressOf(window) <= k.end
    ensures var r := AddSpace(k.spaces, k.start, k.end, Vas(AddressOf(n), size * PAGE, BOOT_FLAGS, true), true);
      r.Added? && SpacesDone(fs, k0, k.(spaces := r.spaces), window, n + size)
  {
    hide AddSpace, Fits, WellFormed, Backable, Insert;
    var vas := Vas(AddressOf(n), size * PAGE, BOOT_FLAGS, true);
    RunFits(fs, k0, k, window, n, size);
    FoundPlaceIsAccepted(k.spaces, k.start, k.end, vas);
    var s := AddSpace(k.spaces, k.start, k.end, vas, true).spaces;
    var at :| 0 <= at <= |k.spaces| && s == Insert(k.spaces, at, vas);
    assert RecordsRun(fs, window, vas);
    InsertMembers(k.spaces, at, vas);
    ClaimsGrow(fs, k.spaces, at, n, size);
    forall i | 0 <= i < |s|
      ensures s[i].End() <= AddressOf(n + size) || s[i].start >= AddressOf(window)
      ensures s[i] in k0.spaces || RecordsRun(fs, window, s[i])
    {
      assert s[i] in s;
    }
  }

  lemma ClaimsGrow(fs: Frames, spaces: seq<Vas>, at: nat, n: nat, size: nat)
    requires n + size <= |fs| && at <= |spaces|
    requires forall f {:trigger fs[f]} :: 0 <= f < n && fs[f] != Free ==> Backable(spaces, HIGHER_HALF + f)
    ensures var s := Insert(spaces, at, Vas(AddressOf(n), size * PAGE, BOOT_FLAGS, true));
      forall f {:trigger fs[f]} :: 0 <= f < n + size && fs[f] != Free ==> Backable(s, HIGHER_HALF + f)
  {
    var vas := Vas(AddressOf(n), size * PAGE, BOOT_FLAGS, true);
    var s := Insert(spaces, at, vas);
    forall f {:trigger fs[f]} | 0 <= f < n + size && fs[f] != Free ensures Backable(s, HIGHER_HALF + f) {
      if f >= n {
        assert s[at] == vas && vas.Covers((HIGHER_HALF + f) * PAGE);
      } else {
        var i :| 0 <= i < |spaces| && spaces[i].Covers((HIGHER_HALF + f) * PAGE) && !spaces[i].flags.nullPage;
        assert s[if i < at then i else i + 1] == spaces[i];
      }
    }
  }

  /** Any other frame: the run that begins with it becomes an address space. */
  lemma RunDone(m0: Machine, k0: Context, m: Machine, k: Context, window: nat, n: nat, size: nat)
    requires Done(m0, k0, m, k, window, n) && n < window && m.frames[n] != Free && k.end <= VA_LIMIT
    requires MaximalRun(m.frames, window, n, n + size) && k.start <= AddressOf(0) && AddressOf(window) <= k.end
    ensures var (m1, k1, outcome, _) := Memmap(m, k, AddressOf(n), None, size, BOOT_FLAGS, true, true);
      outcome.Succeeded? && Done(m0, k0, m1, k1, window, n + size)
  {
    hide PagesDone, SpacesDone, AddSpace;
    RunSpaceDone(m.frames, k0, k, window, n, size);
    OtherPagesDone(m0, m, k.pd, window, n, n + size);
  }

  // ---------------------------------------------------------------------------------------------
  // What the loop establishes.
  // ---------------------------------------------------------------------------------------------

  lemma OutsideWindow(m0: Machine, k0: Context, window: nat, vas: Vas)
    requires FullyMapped(m0, k0, window)
    ensures vas in k0.spaces ==> vas.End() <= AddressOf(0) || vas.start >= AddressOf(window)
  {
    hide Translate, Sound, KernelShape;
  }

  /** A space that covers a page of the window records the run its frame is in. */
  lemma CoveringSpaceIsItsRun(m0: Machine, k0: Context, m: Machine, k: Context, window: nat, f: nat, i: nat)
    requires FullyMapped(m0, k0, window) && Done(m0, k0, m, k, window, window) && f < window
    requires i < |k.spaces| && k.spaces[i].Covers((HIGHER_HALF + f) * PAGE)
    ensures m.frames[f] != Free && RecordsRun(m.frames, window, k.spaces[i])
    ensures k.spaces[i].isStatic && k.spaces[i].flags.committed && !k.spaces[i].flags.nullPage
    ensures forall j :: 0 <= j < |k.spaces| && k.spaces[j].Covers((HIGHER_HALF + f) * PAGE) ==> j == i
  {
    hide PagesDone, FullyMapped;
    OutsideWindow(m0, k0, window, k.spaces[i]);
    var a: nat, b: nat :| MaximalRun(m.frames, window, a, b) && m.frames[a] != Free
      && k.spaces[i] == Vas(AddressOf(a), (b - a) * PAGE, BOOT_FLAGS, true);
    assert a <= f < b;
  }

  lemma ReservedWhenNotFree(m0: Machine, k0: Context, m: Machine, k: Context, window: nat, f: nat)
    requires Done(m0, k0, m, k, window, window) && f < window && m.frames[f] != Free
    ensures Backable(k.spaces, HIGHER_HALF + f)
  {
    hide PagesDone, Backable;
  }

  lemma MappedAsPagesDone(m0: Machine, k0: Context, m: Machine, k: Context, window: nat, f: nat)
    requires Done(m0, k0, m, k, window, window) && f < window
    ensures Translate(m, k.pd, HIGHER_HALF + f) == if m.frames[f] == Free then None else Some(f)
  {
    hide SpacesDone, Translate, Sound;
  }

  /** Boot agreement: every frame of the window is free, unmapped and in no address space, or not free,
      mapped where it was and in exactly one space, which is the maximal run of its state. */
  lemma WindowAgrees(m0: Machine, k0: Context, m: Machine, k: Context, window: nat, f: nat)
    requires FullyMapped(m0, k0, window) && Done(m0, k0, m, k, window, window) && f < window
    ensures var v := HIGHER_HALF + f;
      if m.frames[f] == Free then Translate(m, k.pd, v) == None && !Claimed(k.spaces, v)
      else
        && Translate(m, k.pd, v) == Some(f)
        && exists i :: 0 <= i < |k.spaces| && k.spaces[i].Covers(v * PAGE)
             && RecordsRun(m.frames, window, k.spaces[i])
             && k.spaces[i].isStatic && k.spaces[i].flags.committed && !k.spaces[i].flags.nullPage
             && forall j :: 0 <= j < |k.spaces| && k.spaces[j].Covers(v * PAGE) ==> j == i
  {
    hide PagesDone, SpacesDone, FullyMapped, Translate, RecordsRun;
    var v := HIGHER_HALF + f;
    MappedAsPagesDone(m0, k0, m, k, window, f);
    forall i | 0 <= i < |k.spaces| && k.spaces[i].Covers(v * PAGE)
      ensures m.frames[f] != Free && RecordsRun(m.frames, window, k.spaces[i])
      ensures k.spaces[i].isStatic && k.spaces[i].flags.committed && !k.spaces[i].flags.nullPage
      ensures forall j :: 0 <= j < |k.spaces| && k.spaces[j].Covers(v * PAGE) ==> j == i
    {
      CoveringSpaceIsItsRun(m0, k0, m, k, window, f, i);
    }
    if m.frames[f] != Free {
      ReservedWhenNotFree(m0, k0, m, k, window, f);
    }
  }

  /** Outside the window the kernel maps only what it has reserved. */
  ghost predicate OrderElsewhere(m: Machine, k: Context, window: nat) {
    forall v {:trigger InOrder(m, k, v)} :: USER_PAGES <= v < MAPPABLE && !(HIGHER_HALF <= v < HIGHER_HALF + window) ==> InOrder(m, k, v)
  }

  lemma ElsewhereStays(m0: Machine, k0: Context, m: Machine, k: Context, window: nat, v: nat)
    requires Done(m0, k0, m, k, window, window) && OrderElsewhere(m0, k0, window)
    requires USER_PAGES <= v < MAPPABLE && !(HIGHER_HALF <= v < HIGHER_HALF + window)
    ensures InOrder(m, k, v)
  {
    hide Translate, Sound, WellFormed, RecordsRun;
    assert InOrder(m0, k0, v);
    if Translate(m, k.pd, v).Some? {
      var i :| 0 <= i < |k0.spaces| && k0.spaces[i].Covers(v * PAGE) && !k0.spaces[i].flags.nullPage;
      assert k0.spaces[i] in k0.spaces && k0.spaces[i] in k.spaces;
      var j :| 0 <= j < |k.spaces| && k.spaces[j] == k0.spaces[i];
    }
  }

  lemma WindowInOrder(m0: Machine, k0: Context, m: Machine, k: Context, window: nat, f: nat)
    requires Done(m0, k0, m, k, window, window) && f < window
    ensures InOrder(m, k, HIGHER_HALF + f)
  {
    hide Translate, Sound, WellFormed, Backable, SpacesDone, PagesDone;
    MappedAsPagesDone(m0, k0, m, k, window, f);
    if m.frames[f] != Free {
      ReservedWhenNotFree(m0, k0, m, k, window, f);
    }
  }

  /** So the first process starts from a sane state whose boot frames are those of the boot map, if the
      kernel's pages outside the window are in order. */
  lemma BootEndsSane(m0: Machine, k0: Context, m: Machine, k: Context, window: nat)
    requires FullyMapped(m0, k0, window) && Done(m0, k0, m, k, window, window) && OrderElsewhere(m0, k0, window)
    requires forall f :: 0 <= f < |m.frames| && m.frames[f] == Used ==> f < m.usable
    ensures Sane(System(m, k, map[]), m0.frames) && Coherent(System(m, k, map[]))
  {
    hide InOrder, OrderElsewhere, Sane, Coherent, Done, FullyMapped;
    StillShaped(m0, k0, m, k, window);
    forall v | USER_PAGES <= v < MAPPABLE ensures InOrder(m, k, v) {
      if HIGHER_HALF <= v < HIGHER_HALF + window {
        WindowInOrder(m0, k0, m, k, window, v - HIGHER_HALF);
      } else {
        ElsewhereStays(m0, k0, m, k, window, v);
      }
    }
    BootStateIsSane(m, k);
  }

  lemma StillShaped(m0: Machine, k0: Context, m: Machine, k: Context, window: nat)
    requires FullyMapped(m0, k0, window) && Done(m0, k0, m, k, window, window)
    ensures m.Sized() && KernelShape(k) && Sound(m, k.pd) && window <= |m.frames| && HIGHER_HALF + window <= MAPPABLE
    ensures m.frames == m0.frames
  {
    hide Translate, Sound, WellFormed;
  }

  // ---------------------------------------------------------------------------------------------
  // The loops.
  // ---------------------------------------------------------------------------------------------

  /** kpmm_getPageStatus of the first address of a frame. */
  method StatusOf(pmm: Pmm, frame: nat) returns (st: PageState)
    requires pmm.Ready() && frame < pmm.pab.Capacity()
    ensures st == pmm.StateMap()[frame]
  {
    PageAddress(frame);
    st := pmm.GetPageStatus(frame * PAGE);
  }

  /** s_getPhysicalBlockPageCount: the frames from pa on that share its state, up to end. */
  method GetPhysicalBlockPageCount(pmm: Pmm, pa: nat, end: nat) returns (szPages: nat)
    requires pmm.Ready() && Window(end) < pmm.pab.Capacity() && pa < Window(end)
    requires forall f :: 0 <= f <= Window(end) ==> pmm.StateMap()[f] != Invalid
    ensures szPages > 0 && pa + szPages <= Window(end)
    ensures forall f :: pa <= f < pa + szPages ==> pmm.StateMap()[f] == pmm.StateMap()[pa]
    ensures pa + szPages < Window(end) ==> pmm.StateMap()[pa + szPages] != pmm.StateMap()[pa]
  {
    var initialState := StatusOf(pmm, pa);
    var state := initialState;
    szPages := 0;
    var at := pa;
    while initialState == state && at * PAGE < end
      invariant at == pa + szPages <= Window(end) && state == pmm.StateMap()[at]
      invariant forall f :: pa <= f < at ==> pmm.StateMap()[f] == initialState
      decreases Window(end) - at
    {
      at := at + 1;
      state := StatusOf(pmm, at);
      // The source panics here.
      assert state != Invalid;
      szPages := szPages + 1;
    }
  }

  /** The loop of s_initializeMemoryManagers. */
  method InitializeMemoryManagers(kernel: VMemoryManager)
    requires kernel.Ready() && kernel.paging.cr3 == kernel.pd
    requires var window := Window(WindowEnd(kernel.paging.pmm));
      FullyMapped(kernel.Memory(), kernel.View(), window)
    modifies kernel, kernel.paging.Footprint()
    ensures kernel.Ready()
    ensures var window := Window(WindowEnd(kernel.paging.pmm));
      Done(old(kernel.Memory()), old(kernel.View()), kernel.Memory(), kernel.View(), window, window)
  {
    hide Done, FullyMapped, Memmap;
    var end := WindowEnd(kernel.paging.pmm);
    var pa := 0;
    ghost var m0, k0 := kernel.Memory(), kernel.View();
    StartsDone(m0, k0, Window(end));
    while pa * PAGE < end
      invariant kernel.Ready() && kernel.paging.cr3 == kernel.pd && pa <= Window(end)
      invariant Done(m0, k0, kernel.Memory(), kernel.View(), Window(end), pa)
      decreases Window(end) - pa
    {
      pa := InitializeNext(kernel, pa, end, m0, k0);
    }
  }

  /** MIN of the usable memory and the mapped part. */
  function WindowEnd(pmm: Pmm): (end: nat)
    ensures end <= pmm.usableBytes && end <= HIGHER_HALF_END && (end == pmm.usableBytes || end == HIGHER_HALF_END)
  {
    if pmm.usableBytes < HIGHER_HALF_END then pmm.usableBytes else HIGHER_HALF_END
  }

  /** One round: a free frame, or a whole run. */
  method InitializeNext(kernel: VMemoryManager, pa: nat, end: nat, ghost m0: Machine, ghost k0: Context) returns (next: nat)
    requires kernel.Ready() && kernel.paging.cr3 == kernel.pd && FullyMapped(m0, k0, Window(end))
    requires pa < Window(end)
    requires Done(m0, k0, kernel.Memory(), kernel.View(), Window(end), pa)
    modifies kernel, kernel.paging.Footprint()
    ensures kernel.Ready() && kernel.paging.cr3 == kernel.pd && pa < next <= Window(end)
    ensures Done(m0, k0, kernel.Memory(), kernel.View(), Window(end), next)
  {
    hide Done, FullyMapped;
    next := pa;
    InBounds(m0, k0, kernel.Memory(), kernel.View(), Window(end), pa);
    var state := StatusOf(kernel.paging.pmm, pa);
    if state == Free {
      UnmapFreeFrame(kernel, pa, end, m0, k0);
      next := pa + 1;
    } else if state == Used || state == Reserved {
      next := ReserveRun(kernel, pa, end, m0, k0);
    } else {
      // UNREACHABLE: the loop would go round for ever.
      assert false;
    }
  }

  method UnmapFreeFrame(kernel: VMemoryManager, pa: nat, end: nat, ghost m0: Machine, ghost k0: Context)
    requires kernel.Ready() && kernel.paging.cr3 == kernel.pd && FullyMapped(m0, k0, Window(end)) && pa < Window(end)
    requires Done(m0, k0, kernel.Memory(), kernel.View(), Window(end), pa)
    requires pa < |kernel.Memory().frames| && kernel.Memory().frames[pa] == Free
    modifies kernel.paging.Footprint()
    ensures kernel.Ready() && kernel.paging.cr3 == kernel.pd
    ensures Done(m0, k0, kernel.Memory(), kernel.View(), Window(end), pa + 1)
  {
    hide Done, FullyMapped, UnmapPage;
    ghost var m, k := kernel.Memory(), kernel.View();
    InBounds(m0, k0, m, k, Window(end), pa);
    FreeFrameDone(m0, k0, m, k, Window(end), pa);
    var reply := kernel.paging.Unmap(Current, AddressOf(pa));
  }

  method ReserveRun(kernel: VMemoryManager, pa: nat, end: nat, ghost m0: Machine, ghost k0: Context) returns (next: nat)
    requires kernel.Ready() && kernel.paging.cr3 == kernel.pd && FullyMapped(m0, k0, Window(end))
    requires pa < Window(end)
    requires Done(m0, k0, kernel.Memory(), kernel.View(), Window(end), pa)
    requires pa < |kernel.Memory().frames| && kernel.Memory().frames[pa] != Free
    modifies kernel, kernel.paging.Footprint()
    ensures kernel.Ready() && kernel.paging.cr3 == kernel.pd && pa < next <= Window(end)
    ensures Done(m0, k0, kernel.Memory(), kernel.View(), Window(end), next)
  {
    hide Done, FullyMapped, Memmap;
    ghost var m, k := kernel.Memory(), kernel.View();
    InBounds(m0, k0, m, k, Window(end), pa);
    var szPages := GetPhysicalBlockPageCount(kernel.paging.pmm, pa, end);
    assert kernel.Memory() == m && kernel.View() == k && m.frames == kernel.paging.pmm.StateMap();
    RunIsMaximal(m0, k0, m, k, Window(end), pa, szPages);
    RunDone(m0, k0, m, k, Window(end), pa, szPages);
    var outcome, at := kernel.MemMap(AddressOf(pa), None, szPages, BOOT_FLAGS, true, true);
    next := pa + szPages;
  }

  lemma InBounds(m0: Machine, k0: Context, m: Machine, k: Context, window: nat, n: nat)
    requires FullyMapped(m0, k0, window) && Done(m0, k0, m, k, window, n)
    ensures HIGHER_HALF + window <= MAPPABLE && n <= window < |m.frames|
    ensures k.start <= AddressOf(0) && AddressOf(window) <= k.end <= VA_LIMIT
    ensures forall f :: 0 <= f <= window ==> m.frames[f] != Invalid
  {
    hide Translate, Sound, WellFormed;
  }

  lemma RunIsMaximal(m0: Machine, k0: Context, m: Machine, k: Context, window: nat, n: nat, size: nat)
    requires Done(m0, k0, m, k, window, n) && n < window && m.frames[n] != Free
    requires size > 0 && n + size <= window
    requires forall f :: n <= f < n + size ==> m.frames[f] == m.frames[n]
    requires n + size < window ==> m.frames[n + size] != m.frames[n]
    ensures MaximalRun(m.frames, window, n, n + size)
  {
    hide PagesDone, SpacesDone;
  }
}
