/** kvmm_free at an address inside a space: it releases as many pages as the space has, from that address
    on, whatever they are. */
module FreeInside {
  import opened Common
  import opened FrameStates
  import opened PageTables
  import opened AddressSpaces
  import opened Contexts
  import opened Ownership
  import opened Reclaim
  import opened KernelRuns
  import opened SmallSystem

  /** Pages of a 32-bit address. */
  const PAGES: nat := 0x10_0000

  /** Page w is one of the count pages from v on, page numbers being taken modulo PAGES. */
  predicate Visits(v: nat, count: nat, w: nat) {
    v <= w < v + count || w + PAGES < v + count
  }

  lemma NextPage(va: nat)
    requires va < VA_LIMIT
    ensures (va + PAGE) % VA_LIMIT / PAGE == (va / PAGE + 1) % PAGES
    ensures (va + PAGE) % VA_LIMIT % PAGE == va % PAGE
    ensures va / PAGE < PAGES
  {
  }

  lemma VisitsStep(v: nat, count: nat, w: nat)
    requires v < PAGES && w < PAGES && 0 < count <= PAGES
    ensures Visits(v, count, w) <==> w == v || Visits((v + 1) % PAGES, count - 1, w)
  {
  }

  // ---------------------------------------------------------------------------------------------
  // What the loop does when nothing is assumed of the tables.
  // ---------------------------------------------------------------------------------------------

  /** Entries only lost their present bit. */
  ghost predicate Fewer(m: Machine, n: Machine) {
    forall f: nat, i: nat :: i < 1024 ==> n.At(f, i) == m.At(f, i) || n.At(f, i) == m.At(f, i).(present := false)
  }

  lemma FewerTranslate(m: Machine, n: Machine, pd: nat, w: nat)
    requires Fewer(m, n) && w < PAGES && Translate(m, pd, w) == None
    ensures Translate(n, pd, w) == None
  {
  }

  /** One page unmapped and its frame freed. */
  lemma ReleasedPageIsGone(m: Machine, pd: nat, va: nat)
    requires va < VA_LIMIT && m.usable <= |m.frames| && Translate(m, pd, va / PAGE).Some?
    ensures var (m1, reply) := UnmapAddress(m, pd, va);
            reply.Mapped? ==>
              var m2 := FreeFrame(m1, Translate(m, pd, va / PAGE).value).0;
              Fewer(m, m2) && Translate(m2, pd, va / PAGE) == None
  {
    var m1 := UnmapAddress(m, pd, va).0;
    var m2 := FreeFrame(m1, Translate(m, pd, va / PAGE).value).0;
    forall f: nat, i: nat | i < 1024 ensures m2.At(f, i) == m1.At(f, i) {
    }
  }

  lemma FewerCompose(m: Machine, m1: Machine, n: Machine)
    requires Fewer(m, m1) && Fewer(m1, n)
    ensures Fewer(m, n)
  {
  }

  /** A loop that goes through leaves none of the visited pages mapped. */
  lemma {:induction false} SuccessClears(m: Machine, pd: nat, va: nat, count: nat)
    requires va < VA_LIMIT && m.usable <= |m.frames| && count <= PAGES
    ensures var (n, outcome) := ReleasePages(m, pd, va, count);
            outcome.Succeeded? ==>
              && Fewer(m, n)
              && forall w: nat :: w < PAGES && Visits(va / PAGE, count, w) ==> Translate(n, pd, w) == None
    decreases count
  {
    hide ReleasePages, Translate, UnmapAddress, FreeFrame, Fewer, Visits;
    ReleasePagesStep(m, pd, va, count);
    var (n, outcome) := ReleasePages(m, pd, va, count);
    if count == 0 {
      NothingCleared(m, va / PAGE);
    } else if outcome.Succeeded? {
      NextPage(va);
      var m1 := m;
      match Translate(m, pd, va / PAGE) {
        case None =>
          NothingCleared(m, 0);
        case Some(f) =>
          ReleasedPageIsGone(m, pd, va);
          m1 := FreeFrame(UnmapAddress(m, pd, va).0, f).0;
      }
      SuccessClears(m1, pd, (va + PAGE) % VA_LIMIT, count - 1);
      FewerCompose(m, m1, n);
      FewerTranslate(m1, n, pd, va / PAGE);
      forall w: nat | w < PAGES && Visits(va / PAGE, count, w) ensures Translate(n, pd, w) == None {
        VisitsStep(va / PAGE, count, w);
      }
    }
  }

  lemma NothingCleared(m: Machine, v: nat)
    ensures Fewer(m, m) && forall w: nat :: w < PAGES && v < PAGES ==> !Visits(v, 0, w)
  {
  }

  /** Pages that are not mapped are skipped. */
  lemma {:induction false} UnmappedAreSkipped(m: Machine, pd: nat, va: nat, count: nat)
    requires va < VA_LIMIT && m.usable <= |m.frames| && count <= PAGES
    requires forall w: nat :: w < PAGES && Visits(va / PAGE, count, w) ==> Translate(m, pd, w) == None
    ensures ReleasePages(m, pd, va, count) == (m, Succeeded)
    decreases count
  {
    hide ReleasePages, Translate, Visits;
    ReleasePagesStep(m, pd, va, count);
    if count > 0 {
      NextPage(va);
      forall w: nat | w < PAGES && (w == va / PAGE || Visits((va / PAGE + 1) % PAGES, count - 1, w))
        ensures Translate(m, pd, w) == None
      {
        VisitsStep(va / PAGE, count, w);
      }
      UnmappedAreSkipped(m, pd, (va + PAGE) % VA_LIMIT, count - 1);
    }
  }

  /** At an address inside a page, kpg_unmap refuses the first page that is mapped, which is a panic. */
  lemma {:induction false} MisalignedHalts(m: Machine, pd: nat, va: nat, count: nat, u: nat)
    requires va < VA_LIMIT && va % PAGE != 0 && m.usable <= |m.frames| && count <= PAGES
    requires u < PAGES && Visits(va / PAGE, count, u) && Translate(m, pd, u).Some?
    ensures ReleasePages(m, pd, va, count).1 == Halts
    decreases count
  {
    hide ReleasePages, Translate;
    ReleasePagesStep(m, pd, va, count);
    NextPage(va);
    VisitsStep(va / PAGE, count, u);
    if Translate(m, pd, va / PAGE) == None {
      MisalignedHalts(m, pd, (va + PAGE) % VA_LIMIT, count - 1, u);
    }
  }

  /** At the first page that is mapped, a frame that is not USED or not usable cannot be given back, which is
      a panic as well. */
  lemma {:induction false} UnfreeableHalts(m: Machine, pd: nat, va: nat, count: nat, i: nat)
    requires va < VA_LIMIT && m.usable <= |m.frames| && i < count <= PAGES
    requires forall w: nat :: w < PAGES && Visits(va / PAGE, i, w) ==> Translate(m, pd, w) == None
    requires var f := Translate(m, pd, (va / PAGE + i) % PAGES); f.Some? && !m.Owned(f.value)
    ensures ReleasePages(m, pd, va, count).1 == Halts
    decreases i
  {
    hide ReleasePages, Translate, FreeFrame, Visits;
    ReleasePagesStep(m, pd, va, count);
    NextPage(va);
    if i == 0 {
      FreeFrameIsExact(UnmapAddress(m, pd, va).0, Translate(m, pd, va / PAGE).value);
    } else {
      VisitsStep(va / PAGE, i, va / PAGE);
      forall w: nat | w < PAGES && Visits((va / PAGE + 1) % PAGES, i - 1, w) ensures Translate(m, pd, w) == None {
        VisitsStep(va / PAGE, i, w);
      }
      Shifted(va / PAGE, i - 1);
      UnfreeableHalts(m, pd, (va + PAGE) % VA_LIMIT, count - 1, i - 1);
    }
  }

  lemma Shifted(v: nat, j: nat)
    ensures ((v + 1) % PAGES + j) % PAGES == (v + (j + 1)) % PAGES
  {
  }

  // ---------------------------------------------------------------------------------------------
  // The loop in a process, when no page of the kernel half is mapped where it comes by.
  // ---------------------------------------------------------------------------------------------

  /** Releasing a page of a process leaves the pages of the kernel half and the recursive window alone. */
  lemma ReleaseKeepsKernelPages(s: System, o: Owners, c: nat, v: nat)
    requires Structural(s, o) && c in s.users && v < USER_PAGES && Translate(s.m, s.users[c].pd, v).Some?
    ensures var n := FreeFrame(UnmapPage(s.m, s.users[c].pd, v).0, Translate(s.m, s.users[c].pd, v).value).0;
            forall w :: USER_PAGES <= w < PAGES ==> Translate(n, s.users[c].pd, w) == Translate(s.m, s.users[c].pd, w)
  {
    hide FreeFrame, BackLink;
    StructureIsSized(s, o);
    var m, pd := s.m, s.users[c].pd;
    assert UserOk(s, o, c) && v / 1024 < KERNEL_PDE;
    var tb := m.At(pd, v / 1024).frame;
    var pte := m.At(tb, v % 1024);
    var n0 := m.Put(tb, v % 1024, pte.(present := false));
    assert UnmapPage(m, pd, v).0 == n0;
    var n := FreeFrame(n0, pte.frame).0;
    forall f: nat, i: nat | i < 1024 && f != tb ensures n.At(f, i) == m.At(f, i) {
    }
    assert Owns(o, tb, TableOf(c, v / 1024)) && Owns(o, pd, DirectoryOf(c));
    forall w | USER_PAGES <= w < PAGES ensures Translate(n, pd, w) == Translate(m, pd, w) {
      var e := m.At(pd, w / 1024);
      assert n.At(pd, w / 1024) == e;
      if e.present && w / 1024 < RECURSIVE_PDE {
        assert e == m.At(s.kernel.pd, w / 1024);
        assert e.frame in o && o[e.frame].OfKernel();
      }
    }
  }

  /** Exactly the visited pages are gone. */
  ghost predicate VisitedGone(m: Machine, n: Machine, pd: nat, v: nat, count: nat) {
    forall w: nat :: w < PAGES ==> Translate(n, pd, w) == if Visits(v, count, w) then None else Translate(m, pd, w)
  }

  /** The page loop of kvmm_free at a page address. */
  lemma {:induction false} ReleaseVisited(s: System, o: Owners, c: nat, va: nat, count: nat)
    requires Structural(s, o) && c in s.users && va < VA_LIMIT && va % PAGE == 0 && count <= PAGES
    requires s.m.usable <= |s.m.frames|
    requires forall w: nat :: USER_PAGES <= w < PAGES && Visits(va / PAGE, count, w) ==>
               Translate(s.m, s.users[c].pd, w) == None
    ensures var (n, outcome) := ReleasePages(s.m, s.users[c].pd, va, count);
            outcome == Succeeded && VisitedGone(s.m, n, s.users[c].pd, va / PAGE, count)
    decreases count
  {
    hide ReleasePages, Translate, FreeFrame, UnmapPage, Structural, Visits, VisitedGone;
    var pd, v := s.users[c].pd, va / PAGE;
    ReleasePagesStep(s.m, pd, va, count);
    if count == 0 {
      NothingVisited(s.m, pd, v);
    } else {
      NextPage(va);
      var m1, o1 := s.m, o;
      match Translate(s.m, pd, v) {
        case None =>
          assert s.(m := s.m) == s;
        case Some(f) =>
          VisitsStep(v, count, v);
          ReleaseUserPage(s, o, c, v);
          ReleaseKeepsKernelPages(s, o, c, v);
          MappedMeansUnmapped(s.m, pd, v);
          m1, o1 := FreeFrame(UnmapPage(s.m, pd, v).0, f).0, Dropped(o, f);
      }
      forall w: nat | USER_PAGES <= w < PAGES && Visits((v + 1) % PAGES, count - 1, w) ensures Translate(m1, pd, w) == None {
        VisitsStep(v, count, w);
      }
      ReleaseVisited(s.(m := m1), o1, c, (va + PAGE) % VA_LIMIT, count - 1);
      var n := ReleasePages(m1, pd, (va + PAGE) % VA_LIMIT, count - 1).0;
      FirstAndOthers(s.m, m1, n, pd, v, count);
    }
  }

  lemma NothingVisited(m: Machine, pd: nat, v: nat)
    requires v < PAGES
    ensures VisitedGone(m, m, pd, v, 0)
  {
  }

  lemma FirstAndOthers(m: Machine, m1: Machine, n: Machine, pd: nat, v: nat, count: nat)
    requires v < PAGES && 0 < count <= PAGES && Translate(m1, pd, v) == None
    requires forall w: nat :: w < PAGES && w != v ==> Translate(m1, pd, w) == Translate(m, pd, w)
    requires VisitedGone(m1, n, pd, (v + 1) % PAGES, count - 1)
    ensures VisitedGone(m, n, pd, v, count)
  {
    hide Translate, Visits;
    forall w: nat | w < PAGES ensures Translate(n, pd, w) == if Visits(v, count, w) then None else Translate(m, pd, w) {
      VisitsStep(v, count, w);
    }
  }

  // ---------------------------------------------------------------------------------------------
  // kvmm_free.
  // ---------------------------------------------------------------------------------------------

  /** kvmm_free at va went through, took space k off the list and removed exactly its pages. */
  ghost predicate FreesExactly(m: Machine, c: Context, k: nat, va: nat)
    requires k < |c.spaces| && va < VA_LIMIT && m.usable <= |m.frames|
  {
    var first, count := c.spaces[k].start / PAGE, c.spaces[k].size / PAGE;
    var (n, d, outcome) := FreeSpace(m, c, va);
    && outcome == Succeeded && d == c.(spaces := Without(c.spaces, k))
    && forall w: nat :: w < PAGES ==>
         Translate(n, c.pd, w) == if first <= w < first + count then None else Translate(m, c.pd, w)
  }

  /** No page is mapped that only one of the space and the loop from va on has; and if va lies inside a
      page, none that both have. */
  ghost predicate OnlyCommonPages(m: Machine, c: Context, k: nat, va: nat)
    requires k < |c.spaces|
  {
    var first, count := c.spaces[k].start / PAGE, c.spaces[k].size / PAGE;
    forall w: nat ::
      w < PAGES && Translate(m, c.pd, w).Some? && (first <= w < first + count || Visits(va / PAGE, count, w)) ==>
      first <= w < first + count && Visits(va / PAGE, count, w) && va % PAGE == 0
  }

  /** What FreeSpace is for an address that a space of a process covers. */
  lemma FreeSpaceIs(s: System, o: Owners, c: nat, k: nat, va: nat)
    requires Structural(s, o) && c in s.users && k < |s.users[c].spaces| && s.users[c].spaces[k].Covers(va)
    ensures s.m.usable <= |s.m.frames| && va < USER_PAGES * PAGE
    ensures var ctx := s.users[c];
            var first, count := ctx.spaces[k].start / PAGE, ctx.spaces[k].size / PAGE;
            var (n, outcome) := ReleasePages(s.m, ctx.pd, va, count);
            && first <= va / PAGE < first + count <= USER_PAGES && first * PAGE == ctx.spaces[k].start
            && FreeSpace(s.m, ctx, va)
               == (n, if outcome.Succeeded? then ctx.(spaces := Without(ctx.spaces, k)) else ctx, outcome)
  {
    hide ReleasePages, KernelMemory, BackLink, Translate;
    var ctx := s.users[c];
    var vas := ctx.spaces[k];
    assert UserOk(s, o, c) && Inside(vas, ctx.start, ctx.end);
    FindVasIsUnique(ctx.spaces, ctx.start, ctx.end, va, k);
    CoveredPage(vas, va / PAGE);
  }

  /** For every address that a space covers: kvmm_free there removes exactly the pages of the space if
      and only if it is the first address, or no page is mapped that only one of the space and the loop
      has, kernel pages and the wrap-around of addresses included. */
  lemma FreeIsExactOnlyOnCommonPages(s: System, o: Owners, c: nat, k: nat, va: nat)
    requires Structural(s, o) && c in s.users && k < |s.users[c].spaces| && s.users[c].spaces[k].Covers(va)
    ensures s.m.usable <= |s.m.frames| && va < VA_LIMIT
    ensures FreesExactly(s.m, s.users[c], k, va) <==>
              va == s.users[c].spaces[k].start || OnlyCommonPages(s.m, s.users[c], k, va)
  {
    hide ReleasePages, FreeSpace, Translate, Structural;
    var ctx := s.users[c];
    FreeSpaceIs(s, o, c, k, va);
    var first, count := ctx.spaces[k].start / PAGE, ctx.spaces[k].size / PAGE;
    SuccessClears(s.m, ctx.pd, va, count);
    if va % PAGE != 0 {
      if u: nat :| u < PAGES && Visits(va / PAGE, count, u) && Translate(s.m, ctx.pd, u).Some? {
        MisalignedHalts(s.m, ctx.pd, va, count, u);
        assert !FreesExactly(s.m, ctx, k, va);
      } else {
        UnmappedAreSkipped(s.m, ctx.pd, va, count);
      }
    } else if forall w: nat :: USER_PAGES <= w < PAGES && Visits(va / PAGE, count, w) ==> Translate(s.m, ctx.pd, w) == None {
      ReleaseVisited(s, o, c, va, count);
    } else {
      var w: nat :| USER_PAGES <= w < PAGES && Visits(va / PAGE, count, w) && Translate(s.m, ctx.pd, w).Some?;
      assert va != ctx.spaces[k].start;
    }
  }

  // ---------------------------------------------------------------------------------------------
  // An address that loses pages of the kernel.
  // ---------------------------------------------------------------------------------------------

  /** The last four pages that a process can reserve. */
  const TOP_SPACE := Vas(0xBFFF_B000, 4 * PAGE, NO_FLAGS, false)

  function TopSpaceReserved(): System {
    OneProcess(KERNEL_PDE, [TOP_SPACE])
  }

  /** Memory after the kernel page of the small system was unmapped through the process. */
  lemma KernelPageReleased(m: Machine)
    requires m == TwoDirectories(KERNEL_PDE)
    ensures Translate(m, 3, USER_PAGES) == Some(2)
    ensures var (m1, reply) := UnmapAddress(m, 3, USER_PAGES * PAGE);
            var (m2, freed) := FreeFrame(m1, 2);
            && reply.Mapped? && freed.Done? && m2.frames[2] == Free && m2.usable <= |m2.frames|
            && Translate(m2, 3, USER_PAGES + 1) == None
            && Translate(m2, 0, USER_PAGES) == None && Translate(m2, 3, USER_PAGES) == None
  {
    hide FreeRun, Sound;
    TwoDirectoriesAreSound(KERNEL_PDE);
    FreeGivesBackRun(m.frames, m.usable, 2, 1);
    var m1 := UnmapAddress(m, 3, USER_PAGES * PAGE).0;
    var m2 := FreeFrame(m1, 2).0;
    assert m1 == m.Put(1, 0, Entry(false, 2));
  }

  /** A kvmm_free that reports success and, in a sane and coherent state, takes a committed page of the
      kernel away from everybody and frees its frame, although the kernel's list still has it. */
  lemma FreeInsideLosesKernelPage()
    ensures var s, va := TopSpaceReserved(), 0xBFFF_E000;
      && Sane(s, s.m.frames[3 := Free]) && Coherent(s) && s.users[7].spaces[0].Covers(va)
      && Backable(s.kernel.spaces, USER_PAGES) && Translate(s.m, s.kernel.pd, USER_PAGES) == Some(2)
      && s.m.usable <= |s.m.frames|
      && var (n, ctx, outcome) := FreeSpace(s.m, s.users[7], va);
         && outcome == Succeeded && ctx.spaces == []
         && Translate(n, s.kernel.pd, USER_PAGES) == None && s.m.frames[2] == Used && n.frames[2] == Free
  {
    hide FreeSpace, ReleasePages, Translate, UnmapAddress, FreeFrame, Structural, Sane;
    var s, va := TopSpaceReserved(), 0xBFFF_E000;
    OneProcessIsSane(KERNEL_PDE, [TOP_SPACE]);
    SmallStructure(KERNEL_PDE, [TOP_SPACE]);
    TwoDirectoriesAreSound(KERNEL_PDE);
    assert s.kernel.spaces[0].Covers(USER_PAGES * PAGE);
    FreeSpaceIs(s, SmallOwners(), 7, 0, va);
    ReleasePagesStep(s.m, 3, va, 4);
    ReleasePagesStep(s.m, 3, va + PAGE, 3);
    ReleasePagesStep(s.m, 3, va + 2 * PAGE, 2);
    KernelPageReleased(s.m);
    var m2 := FreeFrame(UnmapAddress(s.m, 3, USER_PAGES * PAGE).0, 2).0;
    ReleasePagesStep(m2, 3, va + 3 * PAGE, 1);
    ReleasePagesStep(m2, 3, va + 4 * PAGE, 0);
  }
}
