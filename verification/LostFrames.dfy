/** What a commit loses when a page of its range is mapped already, and how a caller gets there. */
module LostFrames {
  import opened Common
  import opened Bitmaps
  import opened FrameStates
  import opened PageTables
  import opened AddressSpaces
  import opened Contexts
  import opened Lifecycle
  import opened Birth
  import opened SmallSystem

  /** How many pages from v on are unmapped, at most count. */
  function FirstMapped(m: Machine, pd: nat, v: nat, count: nat): (j: nat)
    requires v + count <= MAPPABLE
    ensures j <= count && (j < count ==> Translate(m, pd, v + j).Some?)
    ensures forall w :: v <= w < v + j ==> Translate(m, pd, w) == None
    decreases count
  {
    if count == 0 || Translate(m, pd, v).Some? then 0 else 1 + FirstMapped(m, pd, v + 1, count - 1)
  }

  lemma FirstMappedIs(m: Machine, pd: nat, v: nat, count: nat, j: nat)
    requires v + count <= MAPPABLE && j <= count && (j < count ==> Translate(m, pd, v + j).Some?)
    requires forall w :: v <= w < v + j ==> Translate(m, pd, w) == None
    ensures FirstMapped(m, pd, v, count) == j
  {
    hide Translate;
    var i := FirstMapped(m, pd, v, count);
    assert i < j ==> v <= v + i < v + j;
    assert j < i ==> v <= v + j < v + i;
  }

  lemma NextFirstMapped(m: Machine, m1: Machine, pd: nat, v: nat, count: nat)
    requires count > 0 && v + count <= MAPPABLE && AgreeExcept(m, m1, pd, v) && Translate(m, pd, v) == None
    ensures FirstMapped(m, pd, v, count) == 1 + FirstMapped(m1, pd, v + 1, count - 1)
  {
    hide Translate;
    FirstMappedIs(m, pd, v, count, 1 + FirstMapped(m1, pd, v + 1, count - 1));
  }

  ghost predicate StaysUsed(m: Machine, n: Machine) {
    |n.frames| == |m.frames| && forall f :: 0 <= f < |m.frames| && m.frames[f] == Used ==> n.frames[f] == Used
  }

  lemma MapPageKeepsUsed(m: Machine, pd: nat, v: nat, f: nat)
    requires m.Sized() && Sound(m, pd) && v < MAPPABLE
    ensures StaysUsed(m, MapPage(m, pd, v, f).0)
  {
    EnsureTableIsFresh(m, pd, v / 1024);
  }

  /** kpg_mapContinous maps the pages in front of the first one that is mapped already, and no others. */
  lemma {:induction false} MapRunStops(m: Machine, pd: nat, v: nat, g: nat, count: nat)
    requires m.Sized() && Sound(m, pd) && v + count <= MAPPABLE
    ensures var (n, reply) := MapRun(m, pd, v, g, count);
      var j := FirstMapped(m, pd, v, count);
      && StaysUsed(m, n)
      && (reply.Halted? || (&& reply == (if j == count then Mapped else MapRefused(AlreadyMapped))
                            && RangeMapped(m, n, pd, v, g, j, MAPPABLE)))
    decreases count
  {
    hide MapPage, Translate, Sound, FirstMapped, RangeMapped, StaysUsed;
    FirstMappedStep(m, pd, v, count);
    if count == 0 {
      NothingMapped(m, pd, v, g);
    } else {
      var (m1, reply) := MapPage(m, pd, v, g);
      MapChangesOnePage(m, pd, v, g);
      MapPageKeepsUsed(m, pd, v, g);
      if reply.Mapped? {
        MapRunStops(m1, pd, v + 1, g + 1, count - 1);
        var (n, _) := MapRun(m1, pd, v + 1, g + 1, count - 1);
        OneMore(m, m1, n, pd, v, g, count);
      } else if reply.MapRefused? {
        NothingMapped(m, pd, v, g);
      }
    }
  }

  lemma FirstMappedStep(m: Machine, pd: nat, v: nat, count: nat)
    requires v + count <= MAPPABLE
    ensures count == 0 ==> FirstMapped(m, pd, v, count) == 0
    ensures count > 0 && Translate(m, pd, v).Some? ==> FirstMapped(m, pd, v, count) == 0
  {
    hide Translate;
  }

  lemma NothingMapped(m: Machine, pd: nat, v: nat, g: nat)
    ensures RangeMapped(m, m, pd, v, g, 0, MAPPABLE) && StaysUsed(m, m)
  {
    hide Translate;
  }

  /** One page, then a run behind it. */
  lemma OneMore(m: Machine, m1: Machine, n: Machine, pd: nat, v: nat, g: nat, count: nat)
    requires count > 0 && v + count <= MAPPABLE && AgreeExcept(m, m1, pd, v)
    requires Translate(m, pd, v) == None && Translate(m1, pd, v) == Some(g)
    requires StaysUsed(m, m1) && StaysUsed(m1, n)
    ensures FirstMapped(m, pd, v, count) == 1 + FirstMapped(m1, pd, v + 1, count - 1) && StaysUsed(m, n)
    ensures RangeMapped(m1, n, pd, v + 1, g + 1, FirstMapped(m1, pd, v + 1, count - 1), MAPPABLE) ==>
              RangeMapped(m, n, pd, v, g, FirstMapped(m, pd, v, count), MAPPABLE)
  {
    hide Translate;
    FirstMappedIs(m, pd, v, count, 1 + FirstMapped(m1, pd, v + 1, count - 1));
  }

  /** A commit of count pages that does not halt fails exactly when a page of the range is mapped
      already. Then the pages in front of that one stay mapped, and the frames taken for it and for
      those behind it stay USED although nothing maps them. */
  lemma CommitLosesFramesExactlyWhenMapped(m: Machine, c: Context, v: nat, count: nat)
    requires m.Sized() && Sound(m, c.pd) && count > 0 && v + count <= MAPPABLE
    requires Alloc(m.frames, m.usable, count).1.Done?
    ensures v * PAGE + count * PAGE <= VA_LIMIT
    ensures var (n, d, outcome, _) := Commit(m, c, v * PAGE, None, count);
      var at := Alloc(m.frames, m.usable, count).2;
      var j := FirstMapped(m, c.pd, v, count);
      !outcome.Halts? ==>
        && (outcome.Failed? <==> exists w :: v <= w < v + count && Translate(m, c.pd, w).Some?)
        && (outcome.Failed? ==> d == c && outcome == Failed(InPaging(AlreadyMapped)))
        && RangeMapped(m, n, c.pd, v, at, j, MAPPABLE)
        && forall f :: at + j <= f < at + count ==>
             && m.frames[f] == Free && n.frames[f] == Used
             && forall w :: 0 <= w < MAPPABLE && Translate(n, c.pd, w) == Some(f) ==> Translate(m, c.pd, w) == Some(f)
  {
    hide MapPages, MapRun, MapPage, Commit, Alloc, Translate;
    CommitInSteps(m, c, v, count);
    AllocTakesLowestRun(m.frames, m.usable, count);
    var (after, _, at) := Alloc(m.frames, m.usable, count);
    var m1 := m.With(after);
    StillSized(m, after, c.pd, at, count);
    SameRam(m, m1);
    MapRunStops(m1, c.pd, v, at, count);
    FirstMappedIs(m1, c.pd, v, count, FirstMapped(m, c.pd, v, count));
  }

  lemma StillSized(m: Machine, after: Frames, pd: nat, at: nat, count: nat)
    requires m.Sized() && Sound(m, pd) && at + count <= m.usable && RunAt(m.frames, Free, count, at)
    requires after == SetRun(m.frames, at, count, Used) && NoFreeBeyond(after, m.usable)
    ensures m.With(after).Sized() && Sound(m.With(after), pd)
    ensures forall k :: at <= k < at + count ==> m.frames[k] == Free && after[k] == Used
  {
    var m1 := m.With(after);
    assert forall k :: m.Owned(k) ==> m1.Owned(k);
    assert forall k: nat, j: nat :: j < 1024 ==> m1.At(k, j) == m.At(k, j);
  }

  // ---------------------------------------------------------------------------------------------
  // A request that gets there.
  // ---------------------------------------------------------------------------------------------

  /** Directory 0 with page table 1, whose page 2 is in frame 2; the other frames are free. */
  function SmallMachine(): Machine {
    Machine([Used, Used, Used, Free, Free, Free, Free, Free],
            [Holding(0, Entry(true, 1)), Holding(2, Entry(true, 2)), ZeroTable(), ZeroTable(),
             ZeroTable(), ZeroTable(), ZeroTable(), ZeroTable()], 8)
  }

  /** A context with that page reserved, committed at once. */
  function SmallContext(): Context {
    Context(0, PAGE, 16 * PAGE, false, [Vas(2 * PAGE, PAGE, NO_FLAGS.(immCommit := true), false)], false)
  }

  lemma SmallMachineIsSound()
    ensures var m := SmallMachine();
      && m.Sized() && Sound(m, 0) && m.At(0, 0) == Entry(true, 1)
      && (forall w :: 0 <= w < 1024 ==> Translate(m, 0, w) == if w == 2 then Some(2) else None)
  {
  }

  lemma SmallAlloc()
    ensures Alloc(SmallMachine().frames, 8, 3).1 == Done && Alloc(SmallMachine().frames, 8, 3).2 == 3
  {
    SmallMachineIsSound();
    var fs := SmallMachine().frames;
    AllocTakesLowestRun(fs, 8, 3);
    assert RunAt(fs, Free, 3, 3);
    var at := Alloc(fs, 8, 3).2;
    assert fs[at] == Free;
    assert at <= 3;
  }

  /** Three pages around the reserved one: kvmm_memmap accepts the request, reports a failure, leaves
      page 1 mapped and keeps frames 4 and 5, which nothing maps. */
  lemma EnclosingRequestLosesFrames()
    ensures var c, flags := SmallContext(), NO_FLAGS.(immCommit := true);
      var (n, d, outcome, at) := Memmap(SmallMachine(), c, PAGE, None, 3, flags, false, true);
      && outcome == Failed(InPaging(AlreadyMapped)) && at == 0
      && d == c.(spaces := [Vas(PAGE, 3 * PAGE, flags, false)] + c.spaces)
      && Translate(n, 0, 1) == Some(3)
      && n.frames[4] == Used && n.frames[5] == Used
      && forall w :: 0 <= w < MAPPABLE ==> Translate(n, 0, w) != Some(4) && Translate(n, 0, w) != Some(5)
  {
    hide Commit, Alloc, MapPages;
    var m, c, flags := SmallMachine(), SmallContext(), NO_FLAGS.(immCommit := true);
    var outer := Vas(PAGE, 3 * PAGE, flags, false);
    assert AddSpace(c.spaces, c.start, c.end, outer, true) == Added([outer] + c.spaces) by {
      assert Insert(c.spaces, 0, outer) == [outer] + c.spaces;
    }
    var c1 := c.(spaces := [outer] + c.spaces);
    SmallMachineIsSound();
    SmallAlloc();
    CommitLosesFramesExactlyWhenMapped(m, c1, 1, 3);
    FirstMappedIs(m, 0, 1, 3, 1);
    SmallCommitGoesOn(c1);
    assert Commit(m, c1, PAGE, None, 3).2.Failed? by {
      assert Translate(m, 0, 2).Some?;
    }
  }

  lemma SmallCommitGoesOn(c: Context)
    requires c.pd == 0
    ensures !Commit(SmallMachine(), c, PAGE, None, 3).2.Halts?
  {
    hide Commit, MapRun, MapPages, Alloc;
    SmallMachineIsSound();
    SmallAlloc();
    var m := SmallMachine();
    CommitInSteps(m, c, 1, 3);
    AllocTakesLowestRun(m.frames, m.usable, 3);
    var (after, _, at) := Alloc(m.frames, m.usable, 3);
    StillSized(m, after, 0, at, 3);
    NoHaltWithTable(m.With(after), 0, 1, at, 3, 0);
  }

  /** With the page table of the range in place no frame is wanted for one. */
  lemma {:induction false} NoHaltWithTable(m: Machine, pd: nat, v: nat, g: nat, count: nat, i: nat)
    requires m.Sized() && Sound(m, pd) && v + count <= MAPPABLE && i < RECURSIVE_PDE && m.At(pd, i).present
    requires forall w :: v <= w < v + count ==> w / 1024 == i
    ensures !MapRun(m, pd, v, g, count).1.Halted?
    decreases count
  {
    if count > 0 {
      assert v / 1024 == i;
      MapChangesOnePage(m, pd, v, g);
      var (m1, reply) := MapPage(m, pd, v, g);
      if reply.Mapped? {
        assert m1.At(pd, i) == m.At(pd, i);
        NoHaltWithTable(m1, pd, v + 1, g + 1, count - 1, i);
      }
    }
  }
}
