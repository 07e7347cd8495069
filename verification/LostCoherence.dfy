/** When a commit in the kernel ends lazy coherence: it fails behind a new page table, and the dirty flag
    stays clean, so that no fault synchronises the processes because of it. */
module LostCoherence {
  import opened Common
  import opened Bitmaps
  import opened FrameStates
  import opened PageTables
  import opened AddressSpaces
  import opened Contexts
  import opened Ownership
  import opened Birth
  import opened FrameChanges
  import opened KernelRuns
  import opened LostFrames
  import opened SmallSystem

  /** Frame h is in use and neither directory pd nor one of its tables. */
  ghost predicate Apart(m: Machine, pd: nat, h: nat) {
    && h < |m.frames| && m.frames[h] == Used && h != pd
    && forall i :: 0 <= i < RECURSIVE_PDE && m.At(pd, i).present ==> m.At(pd, i).frame != h
  }

  /** Between m and n, directory pd kept its entries, those it gained are for pages v.. only, and every
      frame apart from it is untouched. */
  ghost predicate EntriesAdded(m: Machine, n: Machine, pd: nat, v: nat, count: nat) {
    && (forall i :: 0 <= i < 1024 && (m.At(pd, i).present || !(exists w :: v <= w < v + count && w / 1024 == i)) ==>
          n.At(pd, i) == m.At(pd, i))
    && (forall w: nat :: v <= w < v + count && w < MAPPABLE ==> n.At(pd, w / 1024).present)
    && (forall h {:trigger Apart(n, pd, h)} {:trigger Apart(m, pd, h)} :: Apart(m, pd, h) ==>
          Apart(n, pd, h) && forall i :: 0 <= i < 1024 ==> n.At(h, i) == m.At(h, i))
  }

  lemma MapPageEntries(m: Machine, pd: nat, v: nat, f: nat)
    requires m.Sized() && Sound(m, pd) && v < MAPPABLE
    ensures var (n, reply) := MapPage(m, pd, v, f);
            reply.Mapped? ==> EntriesAdded(m, n, pd, v, 1)
  {
    var i := v / 1024;
    EnsureTableIsFresh(m, pd, i);
    var (m1, ok) := EnsureTable(m, pd, i);
    var (n, reply) := MapPage(m, pd, v, f);
    if reply.Mapped? {
      var table := m1.At(pd, i).frame;
      assert table != pd;
      assert v <= v < v + 1;
      forall h | Apart(m, pd, h)
        ensures Apart(n, pd, h) && forall i :: 0 <= i < 1024 ==> n.At(h, i) == m.At(h, i)
      {
        assert h != table;
      }
    }
  }

  lemma NoEntriesAdded(m: Machine, pd: nat, v: nat)
    ensures EntriesAdded(m, m, pd, v, 0)
  {
  }

  lemma EntriesCompose(m: Machine, m1: Machine, n: Machine, pd: nat, v: nat, count: nat)
    requires v + 1 + count <= MAPPABLE && EntriesAdded(m, m1, pd, v, 1) && EntriesAdded(m1, n, pd, v + 1, count)
    ensures EntriesAdded(m, n, pd, v, 1 + count)
  {
    hide Apart;
    assert m1.At(pd, v / 1024).present;
    forall i | 0 <= i < 1024 && (m.At(pd, i).present || !(exists w :: v <= w < v + 1 + count && w / 1024 == i))
      ensures n.At(pd, i) == m.At(pd, i)
    {
      assert v <= v < v + 1 + count;
      assert m1.At(pd, i) == m.At(pd, i);
    }
  }

  /** A run that does not halt adds the entries of the pages in front of the first mapped one. */
  lemma {:induction false} MapRunEntries(m: Machine, pd: nat, v: nat, g: nat, count: nat)
    requires m.Sized() && Sound(m, pd) && v + count <= MAPPABLE
    ensures var (n, reply) := MapRun(m, pd, v, g, count);
            !reply.Halted? ==> EntriesAdded(m, n, pd, v, FirstMapped(m, pd, v, count))
    decreases count
  {
    hide MapPage, Translate, Sound, FirstMapped, EntriesAdded;
    FirstMappedStep(m, pd, v, count);
    if count == 0 {
      NoEntriesAdded(m, pd, v);
    } else {
      var (m1, reply) := MapPage(m, pd, v, g);
      MapChangesOnePage(m, pd, v, g);
      if reply.Mapped? {
        MapPageEntries(m, pd, v, g);
        MapRunEntries(m1, pd, v + 1, g + 1, count - 1);
        NextFirstMapped(m, m1, pd, v, count);
        var (n, last) := MapRun(m1, pd, v + 1, g + 1, count - 1);
        if !last.Halted? {
          EntriesCompose(m, m1, n, pd, v, FirstMapped(m1, pd, v + 1, count - 1));
        }
      } else if reply.MapRefused? {
        NoEntriesAdded(m, pd, v);
      }
    }
  }

  /** The kernel directory already has the tables of pages v.. */
  predicate TablesPresent(m: Machine, pd: nat, v: nat, count: nat)
    requires v + count <= MAPPABLE
  {
    forall w: nat :: v <= w < v + count ==> m.At(pd, w / 1024).present
  }

  /** A commit of kernel pages keeps lazy coherence, or ends it. It ends it exactly if frames are there,
      a page of the range is mapped already, the flag is clean, there is a process, and one of the pages
      in front of the mapped one has no page table yet. */
  ghost predicate CommitIsSafe(s: System, v: nat, count: nat)
    requires v + count <= MAPPABLE
  {
    var j := FirstMapped(s.m, s.kernel.pd, v, count);
    || !Alloc(s.m.frames, s.m.usable, count).1.Done?
    || s.kernel.dirty || s.users == map[]
    || j == count || TablesPresent(s.m, s.kernel.pd, v, j)
  }

  lemma UserIsApart(s: System, o: Owners, c: nat)
    requires Structural(s, o) && c in s.users
    ensures Apart(s.m, s.kernel.pd, s.users[c].pd)
  {
    assert UserOk(s, o, c);
  }

  /** After a change that added entries to the kernel directory and left the rest alone, and with the flag
      as it was, the processes are in step exactly if no entry is new. */
  lemma AddedEntriesBreakStep(s: System, o: Owners, n: Machine, k: Context, v: nat, j: nat)
    requires Structural(s, o) && Coherent(s) && !s.kernel.dirty && s.users != map[]
    requires USER_PAGES <= v && v + j <= MAPPABLE && EntriesAdded(s.m, n, s.kernel.pd, v, j)
    requires k.pd == s.kernel.pd && !k.dirty
    ensures Coherent(System(n, k, s.users)) <==> TablesPresent(s.m, s.kernel.pd, v, j)
  {
    hide Structural, Apart;
    var kpd := s.kernel.pd;
    forall c | c in s.users
      ensures forall i :: 0 <= i < 1024 ==> n.At(s.users[c].pd, i) == s.m.At(s.users[c].pd, i)
    {
      UserIsApart(s, o, c);
    }
    if !TablesPresent(s.m, kpd, v, j) {
      var w: nat :| v <= w < v + j && !s.m.At(kpd, w / 1024).present;
      var c :| c in s.users;
      assert KERNEL_PDE <= w / 1024 < RECURSIVE_PDE;
      assert n.At(kpd, w / 1024).present;
      assert InStep(s.m, s.users[c].pd, kpd);
      assert !InStep(n, s.users[c].pd, kpd);
    }
  }

  /** commitVirtualPages for the kernel, whatever c lists as its spaces: exactly when lazy coherence
      survives it. */
  lemma CommitKeepsCoherenceExactlyWhenSafe(s: System, o: Owners, c: Context, v: nat, count: nat)
    requires Structural(s, o) && Coherent(s) && c == s.kernel.(spaces := c.spaces)
    requires count > 0 && USER_PAGES <= v && v + count <= MAPPABLE
    ensures v * PAGE + count * PAGE <= VA_LIMIT
    ensures var (n, k, outcome, _) := Commit(s.m, c, v * PAGE, None, count);
            !outcome.Halts? ==> (Coherent(System(n, k, s.users)) <==> CommitIsSafe(s, v, count))
  {
    hide Commit, MapRun, MapPages, Alloc, Structural, Coherent, EntriesAdded, FirstMapped, Translate, TablesPresent;
    SizedAndSound(s, o);
    CommitInSteps(s.m, c, v, count);
    AllocTakesLowestRun(s.m.frames, s.m.usable, count);
    var (after, got, at) := Alloc(s.m.frames, s.m.usable, count);
    var (n, k, outcome, _) := Commit(s.m, c, v * PAGE, None, count);
    var t := System(n, k, s.users);
    if !got.Done? {
      SameTablesAreCoherent(s, t);
    } else if !outcome.Halts? {
      var m1, j := s.m.With(after), FirstMapped(s.m, s.kernel.pd, v, count);
      StillSized(s.m, after, s.kernel.pd, at, count);
      SameRam(s.m, m1);
      MapRunStops(m1, s.kernel.pd, v, at, count);
      FirstMappedIs(m1, s.kernel.pd, v, count, j);
      MapRunEntries(m1, s.kernel.pd, v, at, count);
      if j == count || s.kernel.dirty || s.users == map[] {
        DirtyIsCoherent(t);
      } else {
        TakingAddsNoEntry(s.m, after, n, s.kernel.pd, v, j, at, count);
        AddedEntriesBreakStep(s, o, n, k, v, j);
      }
    }
  }

  lemma SizedAndSound(s: System, o: Owners)
    requires Structural(s, o)
    ensures s.m.Sized() && Sound(s.m, s.kernel.pd)
  {
  }

  lemma DirtyIsCoherent(t: System)
    requires t.kernel.dirty || t.users == map[]
    ensures Coherent(t)
  {
  }

  lemma SameTablesAreCoherent(s: System, t: System)
    requires Coherent(s) && t.m.ram == s.m.ram && t.kernel.pd == s.kernel.pd && t.kernel.dirty == s.kernel.dirty
    requires t.users == s.users
    ensures Coherent(t)
  {
    forall f: nat, i: nat | i < 1024 ensures t.m.At(f, i) == s.m.At(f, i) {
    }
  }

  lemma TakingAddsNoEntry(m: Machine, after: Frames, n: Machine, pd: nat, v: nat, j: nat, at: nat, count: nat)
    requires at + count <= |m.frames| && RunAt(m.frames, Free, count, at) && after == SetRun(m.frames, at, count, Used)
    requires EntriesAdded(m.With(after), n, pd, v, j)
    ensures EntriesAdded(m, n, pd, v, j)
  {
    var m1 := m.With(after);
    forall h | Apart(m, pd, h) ensures Apart(m1, pd, h) {
      assert forall i :: 0 <= i < 1024 ==> m1.At(pd, i) == m.At(pd, i);
    }
  }


  /** Where kvmm_memmap puts a request. */
  function PlaceOf(c: Context, va: nat, pages: nat): nat {
    if va == 0 then FindNext(c.spaces, c.start, c.end, pages) else va
  }

  /** kvmm_memmap accepts the request and commits pages for it at once. */
  predicate CommitsAtOnce(c: Context, va: nat, pages: nat, flags: Flags, isStatic: bool, heapOk: bool) {
    && flags.immCommit && pages > 0
    && AddSpace(c.spaces, c.start, c.end, Vas(PlaceOf(c, va, pages), pages * PAGE, flags, isStatic), heapOk).Added?
  }

  lemma AcceptedInKernelHalf(c: Context, va: nat, pages: nat, flags: Flags, isStatic: bool, heapOk: bool)
    requires KernelShape(c) && CommitsAtOnce(c, va, pages, flags, isStatic, heapOk)
    ensures var v := PlaceOf(c, va, pages) / PAGE;
            PlaceOf(c, va, pages) == v * PAGE && USER_PAGES <= v && v + pages <= MAPPABLE
  {
    hide FindNext;
  }

  /** kvmm_memmap for the kernel, for every request: exactly when lazy coherence survives it. */
  lemma KernelRequestKeepsCoherenceExactlyWhenSafe(s: System, o: Owners, va: nat, pages: nat, flags: Flags,
                                                   isStatic: bool, heapOk: bool)
    requires Structural(s, o) && Coherent(s)
    ensures WellNamed(s, ReserveKernel(va, pages, flags, isStatic, heapOk))
    ensures CommitsAtOnce(s.kernel, va, pages, flags, isStatic, heapOk) ==>
              PlaceOf(s.kernel, va, pages) / PAGE + pages <= MAPPABLE
    ensures var (t, running) := KernelRuns.Step(s, ReserveKernel(va, pages, flags, isStatic, heapOk));
            running ==> (Coherent(t) <==>
              (CommitsAtOnce(s.kernel, va, pages, flags, isStatic, heapOk) ==>
                CommitIsSafe(s, PlaceOf(s.kernel, va, pages) / PAGE, pages)))
  {
    hide Commit, Structural, Coherent, AddSpace, FindNext, CommitIsSafe;
    SizedAndSound(s, o);
    KernelShapeOf(s, o);
    var at := PlaceOf(s.kernel, va, pages);
    var t := KernelRuns.Step(s, ReserveKernel(va, pages, flags, isStatic, heapOk)).0;
    match AddSpace(s.kernel.spaces, s.kernel.start, s.kernel.end, Vas(at, pages * PAGE, flags, isStatic), heapOk)
    case NotAdded(_) =>
      assert t == s;
    case Added(spaces) =>
      var c := s.kernel.(spaces := spaces);
      if CommitsAtOnce(s.kernel, va, pages, flags, isStatic, heapOk) {
        AcceptedInKernelHalf(s.kernel, va, pages, flags, isStatic, heapOk);
        CommitKeepsCoherenceExactlyWhenSafe(s, o, c, at / PAGE, pages);
      } else {
        if flags.immCommit {
          AddedInBounds(s.kernel, Vas(at, pages * PAGE, flags, isStatic), heapOk);
          EmptyCommit(s.m, c, at);
        }
        SameTablesAreCoherent(s, t);
      }
  }

  lemma EmptyCommit(m: Machine, c: Context, va: nat)
    requires va <= VA_LIMIT
    ensures var (n, d, _, _) := Commit(m, c, va, None, 0); n.ram == m.ram && d == c
  {
  }

  // ---------------------------------------------------------------------------------------------
  // A request that ends it.
  // ---------------------------------------------------------------------------------------------

  const KERNEL_PAGE: nat := 769 * 1024

  function KernelAt769(): System {
    OneProcess(769, [])
  }

  /** An accepted kernel request around a committed page, in a sane and coherent state: the commit makes
      a kernel page table, fails at the next page, and leaves the dirty flag clean, so that no handler
      run synchronises because of it. */
  lemma EnclosingKernelRequestBreaksCoherence()
    ensures var s, op := KernelAt769(), ReserveKernel((KERNEL_PAGE - 1) * PAGE, 3, COMMITTED, false, true);
      && Sane(s, s.m.frames[3 := Free]) && Coherent(s) && WellNamed(s, op)
      && var (t, running) := KernelRuns.Step(s, op);
         running && !t.kernel.dirty && !Coherent(t) && t.m.At(0, 768).present && !t.m.At(3, 768).present
  {
    hide Commit, Alloc, MapPages, MapRun, Sane, Coherent, Translate;
    OneProcessIsSane(769, []);
    TwoDirectoriesAreSound(769);
    var s := KernelAt769();
    var outer := Vas((KERNEL_PAGE - 1) * PAGE, 3 * PAGE, COMMITTED, false);
    assert AddSpace(s.kernel.spaces, s.kernel.start, s.kernel.end, outer, true) == Added([outer] + s.kernel.spaces) by {
      assert Insert(s.kernel.spaces, 0, outer) == [outer] + s.kernel.spaces;
    }
    var k := s.kernel.(spaces := [outer] + s.kernel.spaces);
    KernelCommitFails(k);
    BrokenIsIncoherent(KernelRuns.Step(s, ReserveKernel((KERNEL_PAGE - 1) * PAGE, 3, COMMITTED, false, true)).0);
  }

  lemma BrokenIsIncoherent(t: System)
    requires !t.kernel.dirty && t.kernel.pd == 0 && 7 in t.users && t.users[7].pd == 3
    requires t.m.At(0, 768).present && !t.m.At(3, 768).present
    ensures !Coherent(t)
  {
    assert !InStep(t.m, t.users[7].pd, t.kernel.pd);
  }

  lemma KernelCommitFails(k: Context)
    requires k.pd == 0 && !k.dirty
    ensures var (n, d, outcome, _) := Commit(TwoDirectories(769), k, (KERNEL_PAGE - 1) * PAGE, None, 3);
      outcome.Failed? && d == k && n.At(0, 768).present && !n.At(3, 768).present
  {
    hide Commit, MapRun, MapPage, MapPages, Alloc, Translate;
    TwoDirectoriesAreSound(769);
    var m, v := TwoDirectories(769), KERNEL_PAGE - 1;
    var after, at := KernelAlloc();
    CommitInSteps(m, k, v, 3);
    StillSized(m, after, 0, at, 3);
    var m1 := m.With(after);
    SameRam(m, m1);
    MapChangesOnePage(m1, 0, v, at);
    assert after[7] == Free;
    var (m2, reply) := MapPage(m1, 0, v, at);
    MapChangesOnePage(m2, 0, v + 1, at + 1);
    MapPageEntries(m1, 0, v, at);
    assert Apart(m1, 0, 3);
    RunOfThree(m1, 0, v, at);
    PresentWhenMapped(m2, 0, v);
  }

  lemma PresentWhenMapped(m: Machine, pd: nat, v: nat)
    requires v < MAPPABLE && Translate(m, pd, v).Some?
    ensures m.At(pd, v / 1024).present
  {
  }

  lemma RunOfThree(m: Machine, pd: nat, v: nat, g: nat)
    requires v + 3 <= MAPPABLE
    requires MapPage(m, pd, v, g).1.Mapped? && MapPage(MapPage(m, pd, v, g).0, pd, v + 1, g + 1).1.MapRefused?
    ensures MapRun(m, pd, v, g, 3) == MapPage(MapPage(m, pd, v, g).0, pd, v + 1, g + 1)
  {
    hide MapPage;
  }

  lemma KernelAlloc() returns (after: Frames, at: nat)
    ensures Alloc(TwoDirectories(769).frames, 8, 3) == (after, Done, at)
    ensures at == 4 && after == SetRun(TwoDirectories(769).frames, 4, 3, Used) && NoFreeBeyond(after, 8)
    ensures RunAt(TwoDirectories(769).frames, Free, 3, 4)
  {
    var fs := TwoDirectories(769).frames;
    TwoDirectoriesAreSound(769);
    AllocTakesLowestRun(fs, 8, 3);
    assert RunAt(fs, Free, 3, 4);
    after, at := Alloc(fs, 8, 3).0, Alloc(fs, 8, 3).2;
    assert fs[at] == Free;
  }
}
