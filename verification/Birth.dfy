/** New contexts, commits and the synchronisation of the kernel half. */
module Birth {
  import opened Common
  import opened FrameStates
  import opened PageTables
  import opened AddressSpaces
  import opened Contexts
  import opened Ownership
  import opened Lifecycle
  import opened Reclaim

  ghost predicate NoneLoose(o: Owners) {
    forall f :: f in o ==> o[f] != LOOSE
  }

  // ---------------------------------------------------------------------------------------------
  // commitVirtualPages.
  // ---------------------------------------------------------------------------------------------

  /** p keeps every owner of o; the frames it adds belong to context c. */
  ghost predicate Extended(o: Owners, p: Owners, c: nat) {
    && (forall f :: f in o ==> Owns(p, f, o[f]))
    && (forall f :: f in p && f !in o ==> p[f].c == c && (p[f].kind == PageTable || p[f].kind == DataPage))
  }

  /** The same for frames that belong to the kernel. */
  ghost predicate KernelExtended(o: Owners, p: Owners) {
    && (forall f :: f in o ==> Owns(p, f, o[f]))
    && (forall f :: f in p && f !in o ==> p[f].kind == KernelTable || p[f].kind == KernelPage)
  }

  lemma GrabbedIsLoose(o: Owners, at: nat, count: nat)
    ensures AllLoose(Grabbed(o, at, count), at, count)
  {
  }

  lemma AttachedIsExtended(o: Owners, at: nat, count: nat, p: Owners, c: nat, v: nat)
    requires RunAttached(Grabbed(o, at, count), p, c, v, at, count)
    requires forall f :: at <= f < at + count ==> f !in o
    ensures Extended(o, p, c)
    ensures NoneLoose(o) ==> NoneLoose(p)
  {
    var q := Grabbed(o, at, count);
    forall f | f in o ensures Owns(p, f, o[f]) {
      assert f in q && q[f] == o[f] && Owns(p, f, q[f]);
    }
    forall f | f in p && f !in o ensures p[f].c == c && (p[f].kind == PageTable || p[f].kind == DataPage) {
      if at <= f < at + count {
        assert f in p && p[f] == PageOf(c, v + (f - at));
      }
    }
    forall f | f in p && NoneLoose(o) ensures p[f] != LOOSE {
      assert f in o ==> Owns(p, f, o[f]);
    }
  }

  lemma KernelGainIsExtension(o: Owners, at: nat, count: nat, p: Owners, v: nat)
    requires KernelGained(Grabbed(o, at, count), p, v, at, count)
    requires forall f :: at <= f < at + count ==> f !in o
    ensures KernelExtended(o, p)
    ensures NoneLoose(o) ==> NoneLoose(p)
  {
    var q := Grabbed(o, at, count);
    forall f | f in o ensures Owns(p, f, o[f]) {
      assert f in q && q[f] == o[f] && Owns(p, f, q[f]);
    }
    forall f | f in p && f !in o ensures p[f].kind == KernelTable || p[f].kind == KernelPage {
      if at <= f < at + count {
        assert f in p && p[f] == KernelPageOf(v + (f - at));
      }
    }
    forall f | f in p && NoneLoose(o) ensures p[f] != LOOSE {
      assert f in o ==> Owns(p, f, o[f]);
    }
  }

  /** The mapping part of commitVirtualPages, after its frames were taken. */
  lemma MapGrabbed(s: System, o: Owners, c: nat, v: nat, count: nat) returns (p: Owners)
    requires Structural(s, o) && c in s.users && count > 0 && v + count <= USER_PAGES
    requires Vacant(s.m, s.users[c], v, count) && Alloc(s.m.frames, s.m.usable, count).1.Done?
    ensures var (after, _, at) := Alloc(s.m.frames, s.m.usable, count);
            var (n, reply) := MapRun(s.m.With(after), s.users[c].pd, v, at, count);
            && (reply.Mapped? || reply.Halted?)
            && (reply.Mapped? ==>
                  && Structural(s.(m := n), p) && Extended(o, p, c) && (NoneLoose(o) ==> NoneLoose(p)) && HalvesKept(s, n)
                  && RangeMapped(s.m, n, s.users[c].pd, v, at, count, USER_PAGES))
  {
    hide Alloc, MapRun, Structural;
    var (after, _, at) := Alloc(s.m.frames, s.m.usable, count);
    GrabKeepsStructure(s, o, count);
    var m1, q := s.m.With(after), Grabbed(o, at, count);
    GrabbedIsLoose(o, at, count);
    SameRam(s.m, m1);
    MapUserPages(s.(m := m1), q, c, v, at, count);
    p := o;
    var (n, reply) := MapRun(m1, s.users[c].pd, v, at, count);
    if reply.Mapped? {
      p :| UserRunMapped(s.(m := m1), q, c, v, at, count, n, p);
      assert s.(m := m1).(m := n) == s.(m := n);
      AttachedIsExtended(o, at, count, p, c, v);
    }
  }

  lemma SameRam(m: Machine, n: Machine)
    requires n.ram == m.ram
    ensures forall pd, v :: 0 <= v < 0x10_0000 ==> Translate(n, pd, v) == Translate(m, pd, v)
  {
  }

  lemma MapGrabbedKernel(s: System, o: Owners, v: nat, count: nat) returns (p: Owners)
    requires Structural(s, o) && count > 0 && USER_PAGES <= v && v + count <= MAPPABLE
    requires KernelVacant(s.m, s.kernel, v, count) && Alloc(s.m.frames, s.m.usable, count).1.Done?
    ensures var (after, _, at) := Alloc(s.m.frames, s.m.usable, count);
            var (n, reply) := MapRun(s.m.With(after), s.kernel.pd, v, at, count);
            && (reply.Mapped? || reply.Halted?)
            && (reply.Mapped? ==>
                  && Structural(s.(m := n), p) && KernelExtended(o, p) && (NoneLoose(o) ==> NoneLoose(p))
                  && RangeMapped(s.m, n, s.kernel.pd, v, at, count, MAPPABLE))
  {
    hide Alloc, MapRun, Structural;
    var (after, _, at) := Alloc(s.m.frames, s.m.usable, count);
    GrabKeepsStructure(s, o, count);
    var m1, q := s.m.With(after), Grabbed(o, at, count);
    GrabbedIsLoose(o, at, count);
    SameRam(s.m, m1);
    MapKernelPages(s.(m := m1), q, v, at, count);
    p := o;
    var (n, reply) := MapRun(m1, s.kernel.pd, v, at, count);
    if reply.Mapped? {
      p :| KernelRunMapped(s.(m := m1), q, v, at, count, n, p);
      assert s.(m := m1).(m := n) == s.(m := n);
      KernelGainIsExtension(o, at, count, p, v);
    }
  }

  /** commitVirtualPages in page numbers. */
  lemma CommitInSteps(m: Machine, c: Context, v: nat, count: nat)
    requires m.Sized() && count > 0 && v + count <= 0x10_0000
    ensures v * PAGE + count * PAGE <= VA_LIMIT
    ensures var (after, got, at) := Alloc(m.frames, m.usable, count);
            var (n, d, outcome, pa) := Commit(m, c, v * PAGE, None, count);
            if !got.Done? then n == m && d == c && outcome == Failed(InPmm(OutOfMem))
            else
              var (m1, reply) := MapRun(m.With(after), c.pd, v, at, count);
              && n == m1 && d == (if reply.Mapped? then c.(dirty := true) else c)
              && outcome == ByPaging(reply)
  {
    hide MapRun, MapPages;
    AllocTakesLowestRun(m.frames, m.usable, count);
    var (after, got, at) := Alloc(m.frames, m.usable, count);
    MapPagesIsMapRun(m.With(after), c.pd, v, at, count);
  }

  /** commitVirtualPages on vacant pages of a process either has no frame to take and changes nothing,
      or runs out of frames for page tables and halts, or maps the whole range. */
  lemma CommitUserPages(s: System, o: Owners, c: nat, v: nat, count: nat) returns (p: Owners)
    requires Structural(s, o) && c in s.users && count > 0 && v + count <= USER_PAGES && Vacant(s.m, s.users[c], v, count)
    ensures v * PAGE + count * PAGE <= VA_LIMIT
    ensures var (n, ctx, outcome, pa) := Commit(s.m, s.users[c], v * PAGE, None, count);
            match outcome
            case Halts => true
            case Failed(_) => n == s.m && ctx == s.users[c]
            case Succeeded =>
              && ctx == s.users[c].(dirty := true)
              && Structural(System(n, s.kernel, s.users[c := ctx]), p)
              && Extended(o, p, c) && (NoneLoose(o) ==> NoneLoose(p)) && HalvesKept(s, n)
              && (forall w: nat :: w < USER_PAGES ==>
                    Translate(n, ctx.pd, w).Some? == (v <= w < v + count || Translate(s.m, ctx.pd, w).Some?))
  {
    hide Commit, MapRun, Alloc, Structural;
    StructureIsSized(s, o);
    CommitInSteps(s.m, s.users[c], v, count);
    p := o;
    var (n, ctx, outcome, pa) := Commit(s.m, s.users[c], v * PAGE, None, count);
    if Alloc(s.m.frames, s.m.usable, count).1.Done? {
      p := MapGrabbed(s, o, c, v, count);
      if outcome.Succeeded? {
        FlagChanged(s.(m := n), p, c, true);
        assert s.(m := n).(users := s.users[c := ctx]) == System(n, s.kernel, s.users[c := ctx]);
      }
    }
  }

  lemma FlagChanged(s: System, o: Owners, c: nat, flag: bool)
    requires Structural(s, o) && c in s.users
    ensures Structural(s.(users := s.users[c := s.users[c].(dirty := flag)]), o)
  {
    assert UserOk(s, o, c);
    ContextChanged(s, o, c, s.users[c].(dirty := flag));
  }

  /** The same for the kernel; the dirty flag is raised with every change. */
  lemma CommitKernelPages(s: System, o: Owners, v: nat, count: nat) returns (p: Owners)
    requires Structural(s, o) && count > 0 && USER_PAGES <= v && v + count <= MAPPABLE
    requires KernelVacant(s.m, s.kernel, v, count)
    ensures v * PAGE + count * PAGE <= VA_LIMIT
    ensures var (n, k, outcome, pa) := Commit(s.m, s.kernel, v * PAGE, None, count);
            match outcome
            case Halts => true
            case Failed(_) => n == s.m && k == s.kernel
            case Succeeded =>
              && k == s.kernel.(dirty := true)
              && Structural(System(n, k, s.users), p)
              && KernelExtended(o, p) && (NoneLoose(o) ==> NoneLoose(p))
              && (forall w: nat :: w < MAPPABLE ==>
                    Translate(n, k.pd, w).Some? == (v <= w < v + count || Translate(s.m, k.pd, w).Some?))
  {
    hide Commit, MapRun, Alloc, Structural;
    StructureIsSized(s, o);
    CommitInSteps(s.m, s.kernel, v, count);
    p := o;
    var (n, k, outcome, pa) := Commit(s.m, s.kernel, v * PAGE, None, count);
    if Alloc(s.m.frames, s.m.usable, count).1.Done? {
      p := MapGrabbedKernel(s, o, v, count);
      if outcome.Succeeded? {
        KernelChanged(s.(m := n), p, k);
        assert s.(m := n).(kernel := k) == System(n, k, s.users);
      }
    }
  }

  /** The kernel's list may grow and its flag may change. */
  lemma KernelChanged(s: System, o: Owners, k: Context)
    requires Structural(s, o) && k.pd == s.kernel.pd
    requires k.start == s.kernel.start && k.end == s.kernel.end && (k.spaces == s.kernel.spaces || (
               WellFormed(k.spaces, k.start, k.end) && forall v :: Backable(s.kernel.spaces, v) ==> Backable(k.spaces, v)))
    ensures Structural(s.(kernel := k), o)
  {
    var t := s.(kernel := k);
    forall f | f in o ensures KernelLink(t.m, k.pd, f, o[f]) {
      assert KernelLink(s.m, s.kernel.pd, f, o[f]);
    }
    forall c | c in t.users ensures UserOk(t, o, c) {
      assert UserOk(s, o, c);
    }
    forall f | f in o ensures BackLink(t.m, t.users, f, o[f]) {
      assert BackLink(s.m, s.users, f, o[f]);
    }
  }
}
