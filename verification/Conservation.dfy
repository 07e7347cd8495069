/** What the invariants of the state machine say about frames: none is lost, none is shared, guard pages
    are never backed. */
module Conservation {
  import opened Common
  import opened FrameStates
  import opened PageTables
  import opened AddressSpaces
  import opened Ownership
  import opened Coherence
  import opened FrameChanges
  import opened KernelRuns

  /** Frame f is in use as a process's directory, page table or page, or as a kernel table or page: read
      off the page tables, with no reference to any bookkeeping. */
  ghost predicate ReachedAs(s: System, f: nat, who: Owner) {
    && (who.kind == Directory ==> who == DirectoryOf(who.c) && who.c in s.users && s.users[who.c].pd == f)
    && (who.kind == PageTable ==> who.c in s.users && who.i < KERNEL_PDE && s.m.At(s.users[who.c].pd, who.i) == Entry(true, f))
    && (who.kind == DataPage ==> who.c in s.users && who.i < USER_PAGES && Translate(s.m, s.users[who.c].pd, who.i) == Some(f))
    && (who.kind == KernelTable ==> who == KernelTableOf(who.i) && who.i < RECURSIVE_PDE && s.m.At(s.kernel.pd, who.i) == Entry(true, f))
    && (who.kind == KernelPage ==>
          who == KernelPageOf(who.i) && USER_PAGES <= who.i < MAPPABLE && Translate(s.m, s.kernel.pd, who.i) == Some(f))
    && who.kind != BootFrame && who.kind != LooseFrame
  }

  ghost predicate Reached(s: System, f: nat) {
    exists who :: ReachedAs(s, f, who)
  }

  /** Who reaches a frame owns it, unless the kernel has it from boot. */
  lemma ReacherOwns(s: System, o: Owners, boot: Frames, f: nat, who: Owner)
    requires Settled(s, o, boot) && ReachedAs(s, f, who)
    ensures f in o ==> o[f] == who || (o[f] == BOOT && who.OfKernel())
    ensures who.kind != KernelPage ==> f in o
    ensures f < |s.m.frames| ==> s.m.frames[f] != Free
  {
    hide BackLink, KernelLink, KernelShape, OnlyTaken;
    if !who.OfKernel() {
      assert UserOk(s, o, who.c);
    }
  }

  /** Who owns a frame that was free at boot reaches it. */
  lemma OwnerReaches(s: System, o: Owners, boot: Frames, f: nat)
    requires Settled(s, o, boot) && f in o && o[f] != BOOT
    ensures ReachedAs(s, f, o[f])
  {
    hide Translate, UserOk, KernelPageOk, Sound;
    assert BackLink(s.m, s.users, f, o[f]) && KernelLink(s.m, s.kernel.pd, f, o[f]);
    if o[f].kind == Directory {
      OneContext(s, o, f);
    }
  }

  lemma OneContext(s: System, o: Owners, f: nat)
    requires Structural(s, o) && f in o && o[f].kind == Directory
    ensures o[f] == DirectoryOf(o[f].c)
  {
    hide Translate, KernelMemory, Accounts;
    assert BackLink(s.m, s.users, f, o[f]);
    assert UserOk(s, o, o[f].c);
  }

  /** No frame is lost: a frame is USED exactly when it was at boot, or was free then and is now reached
      by the kernel or by a live process; every other frame is as it was at boot. */
  lemma FramesAreBootAndReached(s: System, boot: Frames, f: nat)
    requires Sane(s, boot) && f < |boot|
    ensures |s.m.frames| == |boot|
    ensures s.m.frames[f] == if boot[f] == Free && Reached(s, f) then Used else boot[f]
  {
    hide Structural, ReachedAs;
    var o :| Settled(s, o, boot);
    AccountsHere(s, o);
    if boot[f] == Free {
      if who :| ReachedAs(s, f, who) {
        ReacherOwns(s, o, boot, f, who);
      }
      if s.m.frames[f] == Used {
        OwnerReaches(s, o, boot, f);
      }
    }
  }

  lemma AccountsHere(s: System, o: Owners)
    requires Structural(s, o)
    ensures forall f: nat :: f in o <==> f < |s.m.frames| && s.m.frames[f] == Used
  {
  }

  /** No frame is shared: two different uses of one frame are both the kernel's, and of a frame that was
      not free at boot. */
  lemma ReachedOnce(s: System, boot: Frames, f: nat, a: Owner, b: Owner)
    requires Sane(s, boot) && ReachedAs(s, f, a) && ReachedAs(s, f, b) && a != b
    ensures a.OfKernel() && b.OfKernel() && !(f < |boot| && boot[f] == Free)
  {
    hide Structural, ReachedAs;
    var o :| Settled(s, o, boot);
    AccountsHere(s, o);
    ReacherOwns(s, o, boot, f, a);
    ReacherOwns(s, o, boot, f, b);
    if f !in o {
      KindsHere(s, f, a);
      KindsHere(s, f, b);
    }
  }

  lemma KindsHere(s: System, f: nat, a: Owner)
    requires ReachedAs(s, f, a)
    ensures a.kind == KernelPage ==> a.OfKernel()
  {
  }

  /** The kernel half has the same tables and pages in both states. */
  ghost predicate SameKernelHalf(s: System, t: System) {
    forall f: nat, who: Owner :: who.OfKernel() ==> (ReachedAs(s, f, who) <==> ReachedAs(t, f, who))
  }

  /** Conservation over whole runs: when all processes of a run are gone and the kernel half has not
      changed, every frame is in the state it was in. */
  lemma RunsConserveFrames(s: System, boot: Frames, ops: seq<KernelRuns.Op>, t: System)
    requires Sane(s, boot) && Coherent(s) && Reaches(s, ops, t)
    requires s.users == map[] && t.users == map[] && SameKernelHalf(s, t)
    ensures t.m.frames == s.m.frames
  {
    hide Sane, Coherent, Reaches;
    ReachableStatesAreCoherent(s, boot, ops, t);
    SameSize(s, boot);
    SameSize(t, boot);
    forall f: nat | f < |boot| ensures t.m.frames[f] == s.m.frames[f] {
      FramesAreBootAndReached(s, boot, f);
      FramesAreBootAndReached(t, boot, f);
      assert Reached(s, f) <==> Reached(t, f) by {
        assert forall who: Owner :: ReachedAs(s, f, who) ==> who.OfKernel();
        assert forall who: Owner :: ReachedAs(t, f, who) ==> who.OfKernel();
      }
    }
  }

  lemma SameSize(s: System, boot: Frames)
    requires Sane(s, boot)
    ensures |s.m.frames| == |boot|
  {
    var o :| Settled(s, o, boot);
  }

  // ---------------------------------------------------------------------------------------------
  // Guard pages.
  // ---------------------------------------------------------------------------------------------

  /** v lies in a space that must never be backed. */
  ghost predicate Guarded(spaces: seq<Vas>, v: nat) {
    exists k :: 0 <= k < |spaces| && spaces[k].Covers(v * PAGE) && spaces[k].flags.nullPage
  }

  lemma GuardedIsNotBackable(spaces: seq<Vas>, start: nat, end: nat, v: nat)
    requires WellFormed(spaces, start, end) && Guarded(spaces, v)
    ensures !Backable(spaces, v)
  {
    var k :| 0 <= k < |spaces| && spaces[k].Covers(v * PAGE) && spaces[k].flags.nullPage;
    forall j | 0 <= j < |spaces| && spaces[j].Covers(v * PAGE) ensures j == k {
      FindVasIsUnique(spaces, start, end, v * PAGE, j);
      FindVasIsUnique(spaces, start, end, v * PAGE, k);
    }
  }

  /** In no reachable state is a guard page backed: not one of a process in that process, and not one of
      the kernel in the kernel or in any process. */
  lemma NullPagesAreNeverBacked(s: System, boot: Frames, ops: seq<KernelRuns.Op>, t: System, v: nat)
    requires Sane(s, boot) && Coherent(s) && Reaches(s, ops, t) && v < MAPPABLE
    ensures v >= USER_PAGES && Guarded(t.kernel.spaces, v) ==>
      Translate(t.m, t.kernel.pd, v) == None && forall c :: c in t.users ==> Translate(t.m, t.users[c].pd, v) == None
    ensures forall c :: c in t.users && v < USER_PAGES && Guarded(t.users[c].spaces, v) ==>
      Translate(t.m, t.users[c].pd, v) == None
  {
    hide Coherent, Reaches, Translate, Guarded, Backable;
    ReachableStatesAreCoherent(s, boot, ops, t);
    var o :| Settled(t, o, boot);
    if v >= USER_PAGES && Guarded(t.kernel.spaces, v) {
      GuardedIsNotBackable(t.kernel.spaces, t.kernel.start, t.kernel.end, v);
      forall c | c in t.users ensures Translate(t.m, t.users[c].pd, v) == None {
        BehindSeesLess(t, o, c, v);
      }
    }
    forall c | c in t.users && v < USER_PAGES && Guarded(t.users[c].spaces, v) ensures Translate(t.m, t.users[c].pd, v) == None {
      assert UserOk(t, o, c);
      GuardedIsNotBackable(t.users[c].spaces, t.users[c].start, t.users[c].end, v);
    }
  }
}
