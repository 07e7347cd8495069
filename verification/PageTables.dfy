/** Two-level x86 page tables on physical memory, as src/kernel/x86/paging.c changes them. Only the
    presence and the frame of an entry are kept; see section 4.3, "32-Bit Paging", of the Intel 64 and
    IA-32 Architectures Software Developer's Manual, Volume 3A. */
module PageTables {
  import opened Common
  import opened Bitmaps
  import opened FrameStates

  const KERNEL_PDE: nat := 768
  const RECURSIVE_PDE: nat := 1023
  const VA_LIMIT: nat := 0x1_0000_0000
  /** Virtual pages below the window through which a directory maps itself. */
  const MAPPABLE: nat := 0xF_FC00

  datatype Entry = Entry(present: bool, frame: nat)

  /** What one page frame holds when it is read as a page table or a page directory. */
  type Table = t: seq<Entry> | |t| == 1024 witness seq(1024, _ => Entry(false, 0))

  /** k_memset of a whole frame. */
  function ZeroTable(): (t: Table)
    ensures forall i :: 0 <= i < 1024 ==> t[i] == Entry(false, 0)
  {
    seq(1024, _ => Entry(false, 0))
  }

  /** Physical memory: the state of every frame, its contents, and how many frames are usable. */
  datatype Machine = Machine(frames: Frames, ram: seq<Table>, usable: nat) {
    ghost predicate Sized() {
      |ram| == |frames| && usable <= |frames| && NoFreeBeyond(frames, usable)
    }

    /** A frame that kpmm_free would take back. */
    predicate Owned(f: nat) {
      f < |frames| && f < usable && frames[f] == Used
    }

    function With(after: Frames): Machine {
      Machine(after, ram, usable)
    }

    /** The memory after frame f was overwritten with t. */
    function Load(f: nat, t: Table): (r: Machine)
      ensures r.frames == frames && r.usable == usable && |r.ram| == |ram|
      ensures forall g: nat, j: nat :: j < 1024 ==> r.At(g, j) == if g == f && f < |ram| then t[j] else At(g, j)
    {
      if f < |ram| then Machine(frames, ram[f := t], usable) else this
    }

    /** Entry i of the table in frame f; there is no memory behind a frame past the end of RAM. */
    function At(f: nat, i: nat): Entry
      requires i < 1024
    {
      if f < |ram| then ram[f][i] else Entry(false, 0)
    }

    /** The memory after entry i of the table in frame f became e. */
    function Put(f: nat, i: nat, e: Entry): (r: Machine)
      requires i < 1024
      ensures r.frames == frames && r.usable == usable && |r.ram| == |ram|
      ensures forall g: nat, j: nat :: j < 1024 ==>
                r.At(g, j) == if g == f && j == i && f < |ram| then e else At(g, j)
    {
      if f < |ram| then Load(f, ram[f][i := e]) else this
    }
  }

  // ---------------------------------------------------------------------------------------------
  // Splitting a virtual address.
  // ---------------------------------------------------------------------------------------------

  datatype IndexInfo = IndexInfo(pde: nat, pte: nat, offset: nat)

  /** s_getTableIndices: bits 31-22, 21-12 and 11-0. */
  function TableIndices(va: nat): (r: IndexInfo)
    requires va < VA_LIMIT
    ensures r.pde < 1024 && r.pte < 1024 && r.offset < PAGE
  {
    IndexInfo(va / PAGE / 1024, va / PAGE % 1024, va % PAGE)
  }

  /** LINEAR_ADDR. */
  function LinearAddress(info: IndexInfo): nat {
    info.pde * 0x40_0000 + info.pte * PAGE + info.offset
  }

  /** The split is a bijection, and the page number of va is made of the two indices. */
  lemma SplitIsBijective(va: nat, info: IndexInfo)
    requires va < VA_LIMIT && info.pde < 1024 && info.pte < 1024 && info.offset < PAGE
    ensures LinearAddress(TableIndices(va)) == va
    ensures LinearAddress(info) < VA_LIMIT && TableIndices(LinearAddress(info)) == info
    ensures TableIndices(va).pde == va / 0x40_0000
    ensures va / PAGE == TableIndices(va).pde * 1024 + TableIndices(va).pte
  {
  }

  // ---------------------------------------------------------------------------------------------
  // Translation.
  // ---------------------------------------------------------------------------------------------

  /** The frame behind virtual page v. */
  function Translate(m: Machine, pd: nat, v: nat): Option<nat>
    requires v < 0x10_0000
  {
    var pde := m.At(pd, v / 1024);
    if !pde.present then None
    else
      var pte := m.At(pde.frame, v % 1024);
      if pte.present then Some(pte.frame) else None
  }

  /** Below the recursive entry, the tables of a directory are distinct allocated frames, none of
      which is the directory itself. */
  ghost predicate Sound(m: Machine, pd: nat) {
    && m.Owned(pd)
    && (forall i :: 0 <= i < RECURSIVE_PDE && m.At(pd, i).present ==>
          m.Owned(m.At(pd, i).frame) && m.At(pd, i).frame != pd)
    && (forall i, j :: 0 <= i < j < RECURSIVE_PDE && m.At(pd, i).present && m.At(pd, j).present ==>
          m.At(pd, i).frame != m.At(pd, j).frame)
  }

  // ---------------------------------------------------------------------------------------------
  // kpg_map and kpg_unmap.
  // ---------------------------------------------------------------------------------------------

  datatype PagingError = ZeroPages | Misaligned | AlreadyMapped | NotMapped

  /** Halted: k_panic, here only because no frame is left for a page table. */
  datatype MapReply = Mapped | MapRefused(error: PagingError) | Halted

  /** The part of kpg_map that creates a missing page table; false is the panic. */
  function EnsureTable(m: Machine, pd: nat, i: nat): (r: (Machine, bool))
    requires i < 1024
    ensures |r.0.ram| == |m.ram| && |r.0.frames| == |m.frames| && r.0.usable == m.usable
  {
    if m.At(pd, i).present then (m, true)
    else
      var (after, reply, frame) := Alloc(m.frames, m.usable, 1);
      if !reply.Done? then (m.With(after), false)
      else (m.With(after).Load(frame, ZeroTable()).Put(pd, i, Entry(true, frame)), true)
  }

  /** The rest of kpg_map, for virtual page v and frame f. */
  function MapPage(m: Machine, pd: nat, v: nat, f: nat): (r: (Machine, MapReply))
    requires v < 0x10_0000
    ensures |r.0.ram| == |m.ram| && |r.0.frames| == |m.frames| && r.0.usable == m.usable
  {
    var (m1, ok) := EnsureTable(m, pd, v / 1024);
    if !ok then (m1, Halted)
    else
      var table := m1.At(pd, v / 1024).frame;
      if m1.At(table, v % 1024).present then (m1, MapRefused(AlreadyMapped))
      else (m1.Put(table, v % 1024, Entry(true, f)), Mapped)
  }

  /** kpg_unmap for virtual page v. */
  function UnmapPage(m: Machine, pd: nat, v: nat): (r: (Machine, MapReply))
    requires v < 0x10_0000
    ensures |r.0.ram| == |m.ram| && r.0.frames == m.frames && r.0.usable == m.usable
  {
    var pde := m.At(pd, v / 1024);
    if !pde.present then (m, MapRefused(NotMapped))
    else
      var pte := m.At(pde.frame, v % 1024);
      if !pte.present then (m, MapRefused(NotMapped))
      else (m.Put(pde.frame, v % 1024, pte.(present := false)), Mapped)
  }

  /** kpg_map and kpg_unmap on addresses. */
  function MapAddress(m: Machine, pd: nat, va: nat, pa: nat): (r: (Machine, MapReply))
    requires va < VA_LIMIT
    ensures |r.0.ram| == |m.ram| && |r.0.frames| == |m.frames| && r.0.usable == m.usable
  {
    if va % PAGE != 0 || pa % PAGE != 0 then (m, MapRefused(Misaligned)) else MapPage(m, pd, va / PAGE, pa / PAGE)
  }

  function UnmapAddress(m: Machine, pd: nat, va: nat): (r: (Machine, MapReply))
    requires va < VA_LIMIT
    ensures |r.0.ram| == |m.ram| && r.0.frames == m.frames && r.0.usable == m.usable
  {
    if va % PAGE != 0 then (m, MapRefused(Misaligned)) else UnmapPage(m, pd, va / PAGE)
  }

  /** kpg_doesMappingExists. */
  function Lookup(m: Machine, pd: nat, va: nat): Option<nat>
    requires va < VA_LIMIT
  {
    match Translate(m, pd, va / PAGE)
    case None => None
    case Some(f) => Some(f * PAGE + va % PAGE)
  }

  /** The directory still has exactly these translations, except perhaps at v. */
  ghost predicate AgreeExcept(m: Machine, n: Machine, pd: nat, v: nat)
  {
    forall w :: 0 <= w < MAPPABLE && w != v ==> Translate(n, pd, w) == Translate(m, pd, w)
  }

  lemma SinglePageRun(fs: Frames, i: nat)
    ensures RunAt(fs, Free, 1, i) == (i < |fs| && fs[i] == Free)
  {
  }

  /** kpmm_alloc of one frame, on the machine. */
  lemma AllocOneFrame(m: Machine)
    requires m.Sized()
    ensures var (after, reply, t) := Alloc(m.frames, m.usable, 1);
            && reply.Done? == (exists f :: 0 <= f < |m.frames| && m.frames[f] == Free)
            && (!reply.Done? ==> after == m.frames)
            && (reply.Done? ==> t < m.usable && m.frames[t] == Free && after == m.frames[t := Used]
                                && m.With(after).Sized())
  {
    AllocTakesLowestRun(m.frames, m.usable, 1);
    var (after, reply, t) := Alloc(m.frames, m.usable, 1);
    if f :| 0 <= f < |m.frames| && m.frames[f] == Free {
      SinglePageRun(m.frames, f);
    }
    if reply.Done? {
      SinglePageRun(m.frames, t);
      assert after == m.frames[t := Used];
    }
  }

  /** A page table that kpg_map creates comes from a frame that was free, so it is no table in use. */
  lemma EnsureTableIsFresh(m: Machine, pd: nat, i: nat)
    requires m.Sized() && Sound(m, pd) && i < RECURSIVE_PDE
    ensures var (m1, ok) := EnsureTable(m, pd, i);
            && ok == (m.At(pd, i).present || exists f :: 0 <= f < |m.frames| && m.frames[f] == Free)
            && (!ok ==> m1 == m)
            && (ok ==> m1.Sized() && Sound(m1, pd) && m1.At(pd, i).present)
            && (ok && !m.At(pd, i).present ==> NewTable(m, m1, pd, i, m1.At(pd, i).frame))
  {
    AllocOneFrame(m);
    var (m1, ok) := EnsureTable(m, pd, i);
    if ok && !m.At(pd, i).present {
      var t := m1.At(pd, i).frame;
      forall k | 0 <= k < RECURSIVE_PDE && m1.At(pd, k).present
        ensures m1.Owned(m1.At(pd, k).frame) && m1.At(pd, k).frame != pd
        ensures k != i ==> m1.At(pd, k) == m.At(pd, k) && m1.At(pd, k).frame != t
      {
        assert k != i ==> m1.At(pd, k) == m.At(pd, k) && m.Owned(m.At(pd, k).frame);
      }
    }
  }

  /** m1 is m with the free frame t turned into an empty table behind entry i. */
  ghost predicate NewTable(m: Machine, m1: Machine, pd: nat, i: nat, t: nat)
    requires i < 1024
  {
    && t < |m.frames| && t < m.usable && m.frames[t] == Free && t != pd
    && m1.frames == m.frames[t := Used] && |m1.ram| == |m.ram| && m1.usable == m.usable
    && (forall f: nat, j: nat :: j < 1024 && f != t && f != pd ==> m1.At(f, j) == m.At(f, j))
    && (forall j: nat :: j < 1024 ==> m1.At(pd, j) == if j == i then Entry(true, t) else m.At(pd, j))
    && (forall j: nat :: j < 1024 ==> !m1.At(t, j).present)
  }

  /** A successful kpg_map changes the translation of exactly one virtual page; a double map fails and
      changes nothing; it halts exactly when a page table is needed and no frame is free. */
  lemma MapChangesOnePage(m: Machine, pd: nat, v: nat, f: nat)
    requires m.Sized() && Sound(m, pd) && v < MAPPABLE
    ensures var (n, reply) := MapPage(m, pd, v, f);
            && (reply.MapRefused? <==> Translate(m, pd, v).Some?)
            && (reply.MapRefused? ==> reply.error == AlreadyMapped && n == m)
            && (reply.Halted? <==> !m.At(pd, v / 1024).present
                                   && forall k :: 0 <= k < |m.frames| ==> m.frames[k] != Free)
            && (reply.Mapped? ==>
                  && n.Sized() && Sound(n, pd)
                  && Translate(n, pd, v) == Some(f)
                  && AgreeExcept(m, n, pd, v))
  {
    EnsureTableIsFresh(m, pd, v / 1024);
    var (m1, ok) := EnsureTable(m, pd, v / 1024);
    var (n, reply) := MapPage(m, pd, v, f);
    if reply.Mapped? {
      PutChangesOnePage(m1, pd, v, Entry(true, f));
      forall w | 0 <= w < MAPPABLE && w != v ensures Translate(n, pd, w) == Translate(m, pd, w) {
        assert Translate(n, pd, w) == Translate(m1, pd, w);
        NewTableMapsNothing(m, pd, v / 1024, w);
      }
    }
  }

  lemma NewTableMapsNothing(m: Machine, pd: nat, i: nat, w: nat)
    requires m.Sized() && Sound(m, pd) && i < RECURSIVE_PDE && w < MAPPABLE
    requires EnsureTable(m, pd, i).1
    ensures Translate(EnsureTable(m, pd, i).0, pd, w) == Translate(m, pd, w)
  {
    EnsureTableIsFresh(m, pd, i);
  }

  /** Writing one page-table entry of a sound directory. */
  lemma PutChangesOnePage(m: Machine, pd: nat, v: nat, e: Entry)
    requires m.Sized() && Sound(m, pd) && v < MAPPABLE && m.At(pd, v / 1024).present
    ensures var n := m.Put(m.At(pd, v / 1024).frame, v % 1024, e);
            && n.Sized() && Sound(n, pd)
            && Translate(n, pd, v) == (if e.present then Some(e.frame) else None)
            && AgreeExcept(m, n, pd, v)
  {
    var t := m.At(pd, v / 1024).frame;
    var n := m.Put(t, v % 1024, e);
    assert v / 1024 < RECURSIVE_PDE;
    forall w | 0 <= w < MAPPABLE && w != v ensures Translate(n, pd, w) == Translate(m, pd, w) {
      if w / 1024 == v / 1024 {
        assert w % 1024 != v % 1024;
      }
    }
  }

  /** A successful kpg_unmap removes exactly one translation; a double unmap fails and changes nothing. */
  lemma UnmapChangesOnePage(m: Machine, pd: nat, v: nat)
    requires m.Sized() && Sound(m, pd) && v < MAPPABLE
    ensures var (n, reply) := UnmapPage(m, pd, v);
            && reply == (if Translate(m, pd, v).Some? then Mapped else MapRefused(NotMapped))
            && (!reply.Mapped? ==> n == m)
            && (reply.Mapped? ==> n.Sized() && Sound(n, pd) && Translate(n, pd, v) == None && AgreeExcept(m, n, pd, v))
  {
    if UnmapPage(m, pd, v).1.Mapped? {
      var pte := m.At(m.At(pd, v / 1024).frame, v % 1024);
      PutChangesOnePage(m, pd, v, pte.(present := false));
    }
  }

  /** kpg_map on any two addresses: what it refuses, what it maps, and which frames it takes. */
  lemma MapAddressIsExact(m: Machine, pd: nat, va: nat, pa: nat)
    requires m.Sized() && Sound(m, pd) && va < VA_LIMIT && va / PAGE < MAPPABLE
    ensures var (n, reply) := MapAddress(m, pd, va, pa);
            && (reply == MapRefused(Misaligned) <==> va % PAGE != 0 || pa % PAGE != 0)
            && (reply == MapRefused(AlreadyMapped) <==> va % PAGE == 0 && pa % PAGE == 0 && Lookup(m, pd, va).Some?)
            && (reply.MapRefused? ==> n == m && (reply.error == Misaligned || reply.error == AlreadyMapped))
            && (reply.Mapped? ==>
                  && Lookup(n, pd, va) == Some(pa) && AgreeExcept(m, n, pd, va / PAGE)
                  && if m.At(pd, va / 0x40_0000).present then n.frames == m.frames
                     else exists t :: 0 <= t < |m.frames| && m.frames[t] == Free && n.frames == m.frames[t := Used])
  {
    MapChangesOnePage(m, pd, va / PAGE, pa / PAGE);
    EnsureTableIsFresh(m, pd, va / PAGE / 1024);
    assert va / PAGE / 1024 == va / 0x40_0000;
  }

  /** kpg_unmap on any address, and kpg_doesMappingExists on what it leaves. */
  lemma UnmapAddressIsExact(m: Machine, pd: nat, va: nat)
    requires m.Sized() && Sound(m, pd) && va < VA_LIMIT && va / PAGE < MAPPABLE
    ensures var (n, reply) := UnmapAddress(m, pd, va);
            && (reply == MapRefused(Misaligned) <==> va % PAGE != 0)
            && (reply == MapRefused(NotMapped) <==> va % PAGE == 0 && Lookup(m, pd, va) == None)
            && n.frames == m.frames
            && (if va % PAGE == 0 && Lookup(m, pd, va).Some?
                then reply.Mapped? && Lookup(n, pd, va) == None && AgreeExcept(m, n, pd, va / PAGE) else n == m)
  {
    UnmapChangesOnePage(m, pd, va / PAGE);
  }

  /** After kpg_map every address of the page resolves to the frame's base plus its offset, and
      kpg_unmap undoes that. */
  lemma MapLookupUnmap(m: Machine, pd: nat, va: nat, pa: nat, offset: nat)
    requires m.Sized() && Sound(m, pd) && va / PAGE < MAPPABLE && va < VA_LIMIT
    requires va % PAGE == 0 && pa % PAGE == 0 && offset < PAGE
    requires MapAddress(m, pd, va, pa).1.Mapped?
    ensures var n := MapAddress(m, pd, va, pa).0;
            && va + offset < VA_LIMIT && Lookup(n, pd, va + offset) == Some(pa + offset)
            && var (back, reply) := UnmapAddress(n, pd, va);
               reply.Mapped? && forall w :: 0 <= w < MAPPABLE ==> Translate(back, pd, w) == Translate(m, pd, w)
  {
    MapChangesOnePage(m, pd, va / PAGE, pa / PAGE);
    var n := MapAddress(m, pd, va, pa).0;
    assert (va + offset) / PAGE == va / PAGE && (va + offset) % PAGE == offset;
    assert pa / PAGE * PAGE == pa;
    UnmapChangesOnePage(n, pd, va / PAGE);
  }

  // ---------------------------------------------------------------------------------------------
  // kpg_mapContinous, kpg_setupPageDirectory and kpg_deletePageDirectory.
  // ---------------------------------------------------------------------------------------------

  /** The loop of kpg_mapContinous on pages: it stops at the first page that cannot be mapped. */
  function MapRun(m: Machine, pd: nat, v: nat, f: nat, count: nat): (r: (Machine, MapReply))
    requires v + count <= 0x10_0000
    ensures |r.0.ram| == |m.ram| && |r.0.frames| == |m.frames| && r.0.usable == m.usable
    decreases count
  {
    if count == 0 then (m, Mapped)
    else
      var (m1, reply) := MapPage(m, pd, v, f);
      if reply.Mapped? then MapRun(m1, pd, v + 1, f + 1, count - 1) else (m1, reply)
  }

  /** kpg_mapContinous on addresses. */
  function MapPages(m: Machine, pd: nat, va: nat, pa: nat, count: nat): (r: (Machine, MapReply))
    requires va + count * PAGE <= VA_LIMIT
    ensures |r.0.ram| == |m.ram| && |r.0.frames| == |m.frames| && r.0.usable == m.usable
    decreases count
  {
    if count == 0 then (m, Mapped)
    else
      var (m1, reply) := MapAddress(m, pd, va, pa);
      if reply.Mapped? then MapPages(m1, pd, va + PAGE, pa + PAGE, count - 1) else (m1, reply)
  }

  /** The first page of a run, then the others. */
  lemma MapPagesStep(m: Machine, pd: nat, va: nat, pa: nat, count: nat)
    requires va + count * PAGE <= VA_LIMIT
    ensures count == 0 ==> MapPages(m, pd, va, pa, count) == (m, Mapped)
    ensures count > 0 ==> va < VA_LIMIT && va + PAGE + (count - 1) * PAGE <= VA_LIMIT
    ensures count > 0 ==>
      var (m1, reply) := MapAddress(m, pd, va, pa);
      MapPages(m, pd, va, pa, count)
      == if reply.Mapped? then MapPages(m1, pd, va + PAGE, pa + PAGE, count - 1) else (m1, reply)
  {
  }

  lemma PageAddress(v: nat)
    ensures v * PAGE % PAGE == 0 && v * PAGE / PAGE == v && v * PAGE + PAGE == (v + 1) * PAGE
    ensures v < 0x10_0000 <==> v * PAGE < VA_LIMIT
  {
  }

  lemma MapAddressOfPage(m: Machine, pd: nat, v: nat, f: nat)
    requires v < 0x10_0000
    ensures v * PAGE < VA_LIMIT && MapAddress(m, pd, v * PAGE, f * PAGE) == MapPage(m, pd, v, f)
  {
    PageAddress(v);
    PageAddress(f);
  }

  lemma {:induction false} MapPagesIsMapRun(m: Machine, pd: nat, v: nat, f: nat, count: nat)
    requires v + count <= 0x10_0000
    ensures v * PAGE + count * PAGE <= VA_LIMIT
    ensures MapPages(m, pd, v * PAGE, f * PAGE, count) == MapRun(m, pd, v, f, count)
    decreases count
  {
    if count > 0 {
      MapAddressOfPage(m, pd, v, f);
      PageAddress(v);
      PageAddress(f);
      var (m1, reply) := MapPage(m, pd, v, f);
      if reply.Mapped? {
        MapPagesIsMapRun(m1, pd, v + 1, f + 1, count - 1);
      }
    }
  }

  /** What frame f holds. */
  function Contents(m: Machine, f: nat): Table {
    if f < |m.ram| then m.ram[f] else ZeroTable()
  }

  /** The entries of a directory in frame pd after kpg_setupPageDirectory. */
  function SetUpTable(t: Table, kernel: Table, pd: nat, copyKernel: bool, recursive: bool): (r: Table)
    ensures forall i :: 0 <= i < RECURSIVE_PDE ==> r[i] == if copyKernel && i >= KERNEL_PDE then kernel[i] else t[i]
    ensures r[RECURSIVE_PDE] == var e := if copyKernel then kernel[RECURSIVE_PDE] else t[RECURSIVE_PDE];
                                if recursive then e.(frame := pd) else e
  {
    var half: Table := if copyKernel then t[..KERNEL_PDE] + kernel[KERNEL_PDE..] else t;
    if recursive then half[RECURSIVE_PDE := half[RECURSIVE_PDE].(frame := pd)] else half
  }

  /** kpg_setupPageDirectory with its three flags; the last component is the frame of the directory. With
      CREATE_NEW it comes zeroed from the PMM. */
  function SetUpPd(m: Machine, createNew: bool, copyKernel: bool, recursive: bool, given: nat, kernelPd: nat)
    : (r: (Machine, Reply, nat))
    ensures |r.0.ram| == |m.ram| && |r.0.frames| == |m.frames| && r.0.usable == m.usable
  {
    var (after, reply, pd) := if createNew then Alloc(m.frames, m.usable, 1) else (m.frames, Done, given);
    if !reply.Done? then (m.With(after), reply, 0)
    else
      var m1 := if createNew then m.With(after).Load(pd, ZeroTable()) else m;
      (m1.Load(pd, SetUpTable(Contents(m1, pd), Contents(m1, kernelPd), pd, copyKernel, recursive)), Done, pd)
  }

  /** With COPY_KERNEL_PAGES and RECURSIVE_MAP on a given directory. */
  function SyncPd(m: Machine, pd: nat, kernelPd: nat): (r: Machine)
    ensures |r.ram| == |m.ram| && r.frames == m.frames && r.usable == m.usable
  {
    SetUpPd(m, false, true, true, pd, kernelPd).0
  }

  /** ... and on a new one. */
  function NewPd(m: Machine, kernelPd: nat): (r: (Machine, Reply, nat))
    ensures |r.0.ram| == |m.ram| && |r.0.frames| == |m.frames| && r.0.usable == m.usable
  {
    SetUpPd(m, true, true, true, 0, kernelPd)
  }

  /** kpmm_free of one frame, on the machine. */
  function FreeFrame(m: Machine, f: nat): (r: (Machine, Reply))
    requires m.usable <= |m.frames|
    ensures r.0.ram == m.ram && |r.0.frames| == |m.frames| && r.0.usable == m.usable
  {
    var (after, reply) := FreeRun(m.frames, m.usable, f, 1);
    (m.With(after), reply)
  }

  /** The loop of kpg_deletePageDirectory over the entries i.. up to limit. */
  function FreeTables(m: Machine, pd: nat, i: nat, limit: nat): (r: (Machine, Reply))
    requires m.usable <= |m.frames| && i <= limit <= 1024
    ensures r.0.ram == m.ram && |r.0.frames| == |m.frames| && r.0.usable == m.usable
    decreases limit - i
  {
    if i == limit then (m, Done)
    else if !m.At(pd, i).present then FreeTables(m, pd, i + 1, limit)
    else
      var (m1, reply) := FreeFrame(m, m.At(pd, i).frame);
      if reply.Done? then FreeTables(m1, pd, i + 1, limit) else (m1, reply)
  }

  function DeletePd(m: Machine, pd: nat, keepKernel: bool): (r: (Machine, Reply))
    requires m.usable <= |m.frames|
    ensures r.0.ram == m.ram && |r.0.frames| == |m.frames| && r.0.usable == m.usable
  {
    var (m1, reply) := FreeTables(m, pd, 0, if keepKernel then KERNEL_PDE else 1024);
    if reply.Done? then FreeFrame(m1, pd) else (m1, reply)
  }

  /** Frame f is the page table behind one of the entries i.. up to limit. */
  ghost predicate IsTable(m: Machine, pd: nat, i: nat, limit: nat, f: nat)
    requires limit <= 1024
  {
    exists k :: i <= k < limit && m.At(pd, k).present && m.At(pd, k).frame == f
  }

  /** The page tables behind the entries i.. are distinct frames that kpmm_free takes back. */
  ghost predicate CanFreeTables(m: Machine, pd: nat, i: nat, limit: nat)
    requires limit <= 1024
  {
    && (forall k :: i <= k < limit && m.At(pd, k).present ==> m.Owned(m.At(pd, k).frame))
    && (forall j, k :: i <= j < k < limit && m.At(pd, j).present && m.At(pd, k).present ==>
          m.At(pd, j).frame != m.At(pd, k).frame)
  }

  /** The loop of kpg_deletePageDirectory goes through exactly on distinct page tables in use, and frees
      these and no others. */
  lemma {:induction false} FreeTablesIsExact(m: Machine, pd: nat, i: nat, limit: nat)
    requires m.usable <= |m.frames| && i <= limit <= 1024
    ensures var (n, reply) := FreeTables(m, pd, i, limit);
            && (reply.Done? <==> CanFreeTables(m, pd, i, limit))
            && (reply.Done? ==> forall f :: 0 <= f < |m.frames| ==>
                  n.frames[f] == if IsTable(m, pd, i, limit, f) then Free else m.frames[f])
    decreases limit - i
  {
    hide FreeFrame;
    if i < limit {
      var e := m.At(pd, i);
      if !e.present {
        FreeTablesIsExact(m, pd, i + 1, limit);
      } else {
        FreeFrameIsExact(m, e.frame);
        var (m1, reply) := FreeFrame(m, e.frame);
        if reply.Done? {
          SameEntries(m, m1, pd);
          FreeTablesIsExact(m1, pd, i + 1, limit);
          FirstTable(m, m1, pd, i, limit);
          assert forall f :: IsTable(m, pd, i, limit, f) <==> f == e.frame || IsTable(m1, pd, i + 1, limit, f);
        }
      }
    }
  }

  lemma FreeFrameIsExact(m: Machine, f: nat)
    requires m.usable <= |m.frames|
    ensures var (n, reply) := FreeFrame(m, f);
            (reply.Done? <==> m.Owned(f)) && (reply.Done? ==> n == m.With(m.frames[f := Free]))
  {
    FreeGivesBackRun(m.frames, m.usable, f, 1);
    if m.Owned(f) {
      assert SetRun(m.frames, f, 1, Free) == m.frames[f := Free];
    }
  }

  lemma SameEntries(m: Machine, n: Machine, pd: nat)
    requires n.ram == m.ram
    ensures forall k :: 0 <= k < 1024 ==> n.At(pd, k) == m.At(pd, k)
  {
  }

  lemma FirstTable(m: Machine, m1: Machine, pd: nat, i: nat, limit: nat)
    requires i < limit <= 1024 && m.At(pd, i).present && m.Owned(m.At(pd, i).frame)
    requires m1 == m.With(m.frames[m.At(pd, i).frame := Free])
    requires forall k :: 0 <= k < 1024 ==> m1.At(pd, k) == m.At(pd, k)
    ensures CanFreeTables(m, pd, i, limit) <==> CanFreeTables(m1, pd, i + 1, limit)
  {
    var f := m.At(pd, i).frame;
    assert forall g :: m1.Owned(g) <==> m.Owned(g) && g != f;
    if CanFreeTables(m1, pd, i + 1, limit) {
      forall k | i <= k < limit && m.At(pd, k).present ensures m.Owned(m.At(pd, k).frame) && (k > i ==> m.At(pd, k).frame != f) {
        assert k > i ==> m1.Owned(m1.At(pd, k).frame);
      }
    } else if CanFreeTables(m, pd, i, limit) {
      forall k | i < k < limit && m1.At(pd, k).present ensures m1.Owned(m1.At(pd, k).frame) {
        assert m.At(pd, i).frame != m.At(pd, k).frame;
      }
    }
  }

  /** kpg_deletePageDirectory goes through exactly if the page tables, with those of the kernel half or
      without them, and the directory are distinct frames in use, and frees exactly these. */
  lemma DeletePdIsExact(m: Machine, pd: nat, keepKernel: bool)
    requires m.usable <= |m.frames|
    ensures var (n, reply) := DeletePd(m, pd, keepKernel);
            var limit := if keepKernel then 768 else 1024;
            && (reply.Done? <==> CanFreeTables(m, pd, 0, limit) && m.Owned(pd) && !IsTable(m, pd, 0, limit, pd))
            && (reply.Done? ==> forall f :: 0 <= f < |m.frames| ==>
                  n.frames[f] == if f == pd || IsTable(m, pd, 0, limit, f) then Free else m.frames[f])
  {
    hide FreeFrame, FreeTables;
    var limit := if keepKernel then 768 else 1024;
    FreeTablesIsExact(m, pd, 0, limit);
    var (m1, reply) := FreeTables(m, pd, 0, limit);
    if reply.Done? {
      FreeFrameIsExact(m1, pd);
    }
  }

  /** Without KEEP_KERNEL_PAGES it never goes through on a directory that maps itself: the last entry of the
      loop is the directory, which cannot be freed again behind it. */
  lemma SelfMappedIsNotDeletedWhole(m: Machine, pd: nat)
    requires m.usable <= |m.frames| && m.At(pd, RECURSIVE_PDE) == Entry(true, pd)
    ensures !DeletePd(m, pd, false).1.Done?
  {
    DeletePdIsExact(m, pd, false);
    assert IsTable(m, pd, 0, 1024, pd);
  }
}
