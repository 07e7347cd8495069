/** How each operation on a context changes who owns what. */
module Lifecycle {
  import opened Common
  import opened FrameStates
  import opened PageTables
  import opened Contexts
  import opened Ownership

  // ---------------------------------------------------------------------------------------------
  // Runs of pages of a process.
  // ---------------------------------------------------------------------------------------------

  /** Pages v.. of directory pd now map to frames g.., and no other page below limit changed. */
  ghost predicate RangeMapped(m: Machine, n: Machine, pd: nat, v: nat, g: nat, count: nat, limit: nat)
    requires limit <= MAPPABLE
  {
    forall w: nat :: w < limit ==>
      Translate(n, pd, w) == if v <= w < v + count then Some(g + (w - v)) else Translate(m, pd, w)
  }

  ghost predicate AllLoose(o: Owners, g: nat, count: nat) {
    forall f :: g <= f < g + count ==> f in o && o[f] == LOOSE
  }

  /** The loose run at g became pages v.. of context c; beyond that c only gained page tables. */
  ghost predicate RunAttached(o: Owners, p: Owners, c: nat, v: nat, g: nat, count: nat) {
    && (forall f :: f in o && !(g <= f < g + count) ==> Owns(p, f, o[f]))
    && (forall f :: g <= f < g + count ==> f in p && p[f] == PageOf(c, v + (f - g)))
    && (forall f :: f in p && f !in o && !(g <= f < g + count) ==> p[f].kind == PageTable && p[f].c == c)
  }

  /** One kpg_map of a run: it keeps inv, or the machine halts. */
  ghost predicate StepKeeps(x: Machine, pd: nat, v: nat, g: nat, inv: (nat, Machine) -> bool, j: nat)
    requires v + j < MAPPABLE
  {
    var (y, reply) := MapPage(x, pd, v + j, g + j);
    reply.Halted? || (reply.Mapped? && inv(j + 1, y))
  }

  /** The loop of kpg_mapContinous keeps what each of its steps keeps. */
  lemma {:induction false} MapRunLoop(m: Machine, pd: nat, v: nat, g: nat, count: nat, inv: (nat, Machine) -> bool, k: nat)
    requires k <= count && v + count <= MAPPABLE && inv(k, m)
    requires forall j: nat, x: Machine {:trigger StepKeeps(x, pd, v, g, inv, j)} ::
               j < count && inv(j, x) ==> StepKeeps(x, pd, v, g, inv, j)
    ensures var (n, reply) := MapRun(m, pd, v + k, g + k, count - k);
            reply.Halted? || (reply.Mapped? && inv(count, n))
    decreases count - k
  {
    hide MapPage;
    if k < count {
      assert StepKeeps(m, pd, v, g, inv, k);
      var (m1, reply) := MapPage(m, pd, v + k, g + k);
      if reply.Mapped? {
        MapRunLoop(m1, pd, v, g, count, inv, k + 1);
      }
    }
  }

  lemma RangesAppend(m: Machine, x: Machine, y: Machine, pd: nat, v: nat, g: nat, j: nat, limit: nat)
    requires limit <= MAPPABLE && RangeMapped(m, x, pd, v, g, j, limit)
    requires RangeMapped(x, y, pd, v + j, g + j, 1, limit)
    ensures RangeMapped(m, y, pd, v, g, j + 1, limit)
  {
  }

  lemma AttachmentsAppend(o: Owners, p: Owners, q: Owners, c: nat, v: nat, g: nat, j: nat)
    requires RunAttached(o, p, c, v, g, j) && Gained(p, q, c, g + j, PageOf(c, v + j))
    ensures RunAttached(o, q, c, v, g, j + 1)
  {
    forall f | g <= f < g + j + 1 ensures f in q && q[f] == PageOf(c, v + (f - g)) {
      if f < g + j {
        assert f in p && p[f] == PageOf(c, v + (f - g)) && Owns(q, f, p[f]);
      }
    }
    forall f | f in q && f !in o && !(g <= f < g + j + 1) ensures q[f].kind == PageTable && q[f].c == c {
      assert f in p ==> Owns(q, f, p[f]);
    }
    forall f | f in o && !(g <= f < g + j + 1) ensures Owns(q, f, o[f]) {
      assert Owns(p, f, o[f]);
    }
  }

  lemma StillLoose(o: Owners, o1: Owners, g: nat, count: nat)
    requires AllLoose(o, g, count) && count > 0 && forall f :: f in o && f != g ==> Owns(o1, f, o[f])
    ensures AllLoose(o1, g + 1, count - 1)
  {
    forall f | g + 1 <= f < g + count ensures f in o1 && o1[f] == LOOSE {
      assert f in o && o[f] == LOOSE;
    }
  }

  /** Pages v.. of the context are unmapped and may be backed. */
  ghost predicate Vacant(m: Machine, c: Context, v: nat, count: nat)
    requires v + count <= USER_PAGES
  {
    forall w :: v <= w < v + count ==> Translate(m, c.pd, w) == None && Backable(c.spaces, w)
  }

  /** Memory n and owners p after the loose run at g was mapped at page v of context c. */
  ghost predicate UserRunMapped(s: System, o: Owners, c: nat, v: nat, g: nat, count: nat, n: Machine, p: Owners)
    requires c in s.users
  {
    && Structural(s.(m := n), p) && HalvesKept(s, n)
    && RangeMapped(s.m, n, s.users[c].pd, v, g, count, USER_PAGES)
    && RunAttached(o, p, c, v, g, count)
  }

  lemma MapNextUserPage(s: System, o: Owners, c: nat, v: nat, g: nat, count: nat, j: nat, x: Machine, p: Owners)
    returns (q: Owners)
    requires c in s.users && j < count && v + count <= USER_PAGES && Vacant(s.m, s.users[c], v, count)
    requires UserRunMapped(s, o, c, v, g, j, x, p) && AllLoose(p, g + j, count - j)
    ensures var (y, reply) := MapPage(x, s.users[c].pd, v + j, g + j);
            reply.Halted? || (reply.Mapped? && UserRunMapped(s, o, c, v, g, j + 1, y, q)
                              && AllLoose(q, g + (j + 1), count - (j + 1)))
  {
    hide MapPage, KernelMemory, KernelShape, Accounts, UserOk, BackLink;
    var pd := s.users[c].pd;
    assert Translate(s.m, pd, v + j) == None && Translate(x, pd, v + j) == None;
    q := MapUserPage(s.(m := x), p, c, v + j, g + j);
    var (y, reply) := MapPage(x, pd, v + j, g + j);
    if reply.Mapped? {
      assert s.(m := x).(m := y) == s.(m := y);
      StillLoose(p, q, g + j, count - j);
      RangesAppend(s.m, x, y, pd, v, g, j, USER_PAGES);
      AttachmentsAppend(o, p, q, c, v, g, j);
    }
  }

  /** After j pages of the run. */
  ghost predicate UserRunAt(s: System, o: Owners, c: nat, v: nat, g: nat, count: nat, j: nat, x: Machine)
    requires c in s.users
  {
    j <= count && exists q :: UserRunMapped(s, o, c, v, g, j, x, q) && AllLoose(q, g + j, count - j)
  }

  lemma UserRunStarts(s: System, o: Owners, c: nat, v: nat, g: nat, count: nat)
    requires Structural(s, o) && c in s.users && AllLoose(o, g, count)
    ensures UserRunAt(s, o, c, v, g, count, 0, s.m)
  {
    assert s.(m := s.m) == s && UserRunMapped(s, o, c, v, g, 0, s.m, o);
  }

  lemma UserRunSteps(s: System, o: Owners, c: nat, v: nat, g: nat, count: nat, j: nat, x: Machine)
    requires c in s.users && v + count <= USER_PAGES && Vacant(s.m, s.users[c], v, count)
    requires j < count && UserRunAt(s, o, c, v, g, count, j, x)
    ensures var (y, reply) := MapPage(x, s.users[c].pd, v + j, g + j);
            reply.Halted? || (reply.Mapped? && UserRunAt(s, o, c, v, g, count, j + 1, y))
  {
    var q :| UserRunMapped(s, o, c, v, g, j, x, q) && AllLoose(q, g + j, count - j);
    var r := MapNextUserPage(s, o, c, v, g, count, j, x, q);
  }

  /** The loop of kpg_mapContinous for a process: nothing but the lack of a frame can stop it. */
  lemma MapUserPages(s: System, o: Owners, c: nat, v: nat, g: nat, count: nat)
    requires Structural(s, o) && c in s.users && v + count <= USER_PAGES
    requires AllLoose(o, g, count) && Vacant(s.m, s.users[c], v, count)
    ensures var (n, reply) := MapRun(s.m, s.users[c].pd, v, g, count);
            reply.Halted? || (reply.Mapped? && UserRunAt(s, o, c, v, g, count, count, n))
  {
    hide UserRunAt, MapRun, Structural;
    var inv := (j: nat, x: Machine) => UserRunAt(s, o, c, v, g, count, j, x);
    UserRunStarts(s, o, c, v, g, count);
    forall j: nat, x: Machine {:trigger StepKeeps(x, s.users[c].pd, v, g, inv, j)} | j < count && inv(j, x)
      ensures StepKeeps(x, s.users[c].pd, v, g, inv, j)
    {
      UserRunSteps(s, o, c, v, g, count, j, x);
    }
    MapRunLoop(s.m, s.users[c].pd, v, g, count, inv, 0);
  }

  // ---------------------------------------------------------------------------------------------
  // Kernel pages.
  // ---------------------------------------------------------------------------------------------

  /** Processes do not notice changes to kernel frames and free frames. */
  lemma UsersKept(s: System, o: Owners, n: Machine, p: Owners, f: nat, g: nat)
    requires Structural(s, o) && SameExcept(s.m, n, f, g)
    requires forall h :: (h == f || h == g) && h in o ==> o[h].OfKernel()
    requires forall h :: h in o && o[h] != LOOSE ==> Owns(p, h, o[h])
    requires forall i :: 0 <= i < 1024 ==> n.At(s.kernel.pd, i) == s.m.At(s.kernel.pd, i) || !s.m.At(s.kernel.pd, i).present
    ensures forall c :: c in s.users ==> UserOk(s.(m := n), p, c)
    ensures forall h :: h in o ==> BackLink(n, s.users, h, o[h])
    ensures forall c, i :: c in s.users && 0 <= i < 1024 ==> n.At(s.users[c].pd, i) == s.m.At(s.users[c].pd, i)
  {
    forall c | c in s.users
      ensures UserOk(s.(m := n), p, c)
      ensures forall i :: 0 <= i < 1024 ==> n.At(s.users[c].pd, i) == s.m.At(s.users[c].pd, i)
      ensures forall v :: 0 <= v < USER_PAGES ==> Translate(n, s.users[c].pd, v) == Translate(s.m, s.users[c].pd, v)
    {
      assert UserOk(s, o, c);
      forall v | 0 <= v < USER_PAGES ensures Translate(n, s.users[c].pd, v) == Translate(s.m, s.users[c].pd, v) {
        UserUnaffected(s.m, n, o, c, s.users[c], f, g, v);
      }
    }
    forall h | h in o ensures BackLink(n, s.users, h, o[h]) {
      assert BackLink(s.m, s.users, h, o[h]);
    }
  }

  /** kpg_map creates a page table for the kernel. */
  lemma NewKernelTable(s: System, o: Owners, i: nat, m1: Machine, t: nat)
    requires Structural(s, o) && KERNEL_PDE <= i < RECURSIVE_PDE
    requires !s.m.At(s.kernel.pd, i).present && NewTable(s.m, m1, s.kernel.pd, i, t) && m1.Sized() && Sound(m1, s.kernel.pd)
    ensures Structural(s.(m := m1), o[t := KernelTableOf(i)])
    ensures forall v :: 0 <= v < MAPPABLE ==> Translate(m1, s.kernel.pd, v) == Translate(s.m, s.kernel.pd, v)
  {
    hide UserOk, BackLink;
    var m, kpd, p := s.m, s.kernel.pd, o[t := KernelTableOf(i)];
    assert t !in o;
    forall v | 0 <= v < MAPPABLE ensures Translate(m1, kpd, v) == Translate(m, kpd, v) {
      assert v / 1024 < RECURSIVE_PDE;
    }
    forall f | f in p ensures KernelLink(m1, kpd, f, p[f]) {
      if f != t {
        assert KernelLink(m, kpd, f, o[f]);
      }
    }
    UsersKept(s, o, m1, p, t, kpd);
    BackLinksOfKernel(m1, s.users, o, p, t);
  }

  /** A frame that becomes the kernel's needs no process. */
  lemma BackLinksOfKernel(n: Machine, users: map<nat, Context>, o: Owners, p: Owners, x: nat)
    requires forall h :: h in o ==> BackLink(n, users, h, o[h])
    requires x in p && p == o[x := p[x]] && (p[x].kind == KernelTable || p[x].kind == KernelPage)
    ensures forall f {:trigger BackLink(n, users, f, p[f])} :: f in p ==> BackLink(n, users, f, p[f])
  {
    forall f | f in p ensures BackLink(n, users, f, p[f]) {
      if f != x {
        assert BackLink(n, users, f, o[f]);
      }
    }
  }

  /** The kernel's memory after the loose frame g became page v. */
  lemma KernelPageWritten(m: Machine, o: Owners, k: Context, v: nat, g: nat)
    requires KernelMemory(m, o, k) && m.Sized() && USER_PAGES <= v < MAPPABLE && m.At(k.pd, v / 1024).present
    requires Owns(o, g, LOOSE) && Accounts(m, o) && Backable(k.spaces, v) && Translate(m, k.pd, v) == None
    ensures var n := m.Put(m.At(k.pd, v / 1024).frame, v % 1024, Entry(true, g));
            && KernelMemory(n, o[g := KernelPageOf(v)], k)
            && AgreeExcept(m, n, k.pd, v) && Translate(n, k.pd, v) == Some(g)
            && (forall i :: 0 <= i < 1024 ==> n.At(k.pd, i) == m.At(k.pd, i))
  {
    assert v / 1024 < RECURSIVE_PDE;
    var tb, p := m.At(k.pd, v / 1024).frame, o[g := KernelPageOf(v)];
    var n := m.Put(tb, v % 1024, Entry(true, g));
    PutChangesOnePage(m, k.pd, v, Entry(true, g));
    forall f | f in p ensures KernelLink(n, k.pd, f, p[f]) {
      if f != g {
        assert KernelLink(m, k.pd, f, o[f]);
      }
    }
  }

  lemma MapIntoKernelTable(s: System, o: Owners, v: nat, g: nat)
    requires Structural(s, o) && USER_PAGES <= v < MAPPABLE && s.m.At(s.kernel.pd, v / 1024).present
    requires Owns(o, g, LOOSE) && Backable(s.kernel.spaces, v) && Translate(s.m, s.kernel.pd, v) == None
    ensures var n := s.m.Put(s.m.At(s.kernel.pd, v / 1024).frame, v % 1024, Entry(true, g));
            && Structural(s.(m := n), o[g := KernelPageOf(v)])
            && AgreeExcept(s.m, n, s.kernel.pd, v) && Translate(n, s.kernel.pd, v) == Some(g)
            && (forall i :: 0 <= i < 1024 ==> n.At(s.kernel.pd, i) == s.m.At(s.kernel.pd, i))
            && (forall c, i :: c in s.users && 0 <= i < 1024 ==> n.At(s.users[c].pd, i) == s.m.At(s.users[c].pd, i))
  {
    hide UserOk, BackLink;
    var m, kpd, p := s.m, s.kernel.pd, o[g := KernelPageOf(v)];
    assert v / 1024 < RECURSIVE_PDE;
    var tb := m.At(kpd, v / 1024).frame;
    var n := m.Put(tb, v % 1024, Entry(true, g));
    KernelPageWritten(m, o, s.kernel, v, g);
    UsersKept(s, o, n, p, tb, tb);
    BackLinksOfKernel(n, s.users, o, p, g);
  }

  /** kpg_map in the kernel directory. */
  lemma MapKernelPage(s: System, o: Owners, v: nat, g: nat) returns (p: Owners)
    requires Structural(s, o) && USER_PAGES <= v < MAPPABLE
    requires Owns(o, g, LOOSE) && Translate(s.m, s.kernel.pd, v) == None && Backable(s.kernel.spaces, v)
    ensures var (n, reply) := MapPage(s.m, s.kernel.pd, v, g);
            && (reply.Mapped? || reply.Halted?)
            && (reply.Mapped? ==> Structural(s.(m := n), p) && KernelGained(o, p, v, g, 1)
                                  && AgreeExcept(s.m, n, s.kernel.pd, v) && Translate(n, s.kernel.pd, v) == Some(g))
  {
    hide KernelMemory, UserOk, BackLink, Accounts;
    SoundHere(s, o);
    var m, kpd, i := s.m, s.kernel.pd, v / 1024;
    assert KERNEL_PDE <= i < RECURSIVE_PDE;
    EnsureTableIsFresh(m, kpd, i);
    var (m1, ok) := EnsureTable(m, kpd, i);
    p := o;
    if ok {
      if !m.At(kpd, i).present {
        var t := m1.At(kpd, i).frame;
        NewKernelTable(s, o, i, m1, t);
        p := o[t := KernelTableOf(i)];
      }
      MapIntoKernelTable(s.(m := m1), p, v, g);
      p := p[g := KernelPageOf(v)];
    }
  }

  lemma SoundHere(s: System, o: Owners)
    requires Structural(s, o)
    ensures s.m.Sized() && Sound(s.m, s.kernel.pd)
    ensures forall f: nat :: f < |s.m.frames| && s.m.frames[f] == Free ==> f !in o
  {
  }

  /** The loose run at g became kernel pages v..; whatever else is new is a kernel table. */
  ghost predicate KernelGained(o: Owners, p: Owners, v: nat, g: nat, count: nat) {
    && (forall f :: f in o && !(g <= f < g + count) ==> Owns(p, f, o[f]))
    && (forall f :: g <= f < g + count ==> f in p && p[f] == KernelPageOf(v + (f - g)))
    && (forall f :: f in p && f !in o && !(g <= f < g + count) ==> p[f].kind == KernelTable)
  }

  ghost predicate KernelVacant(m: Machine, k: Context, v: nat, count: nat)
    requires v + count <= MAPPABLE
  {
    forall w :: v <= w < v + count ==> Translate(m, k.pd, w) == None && Backable(k.spaces, w)
  }

  ghost predicate KernelRunMapped(s: System, o: Owners, v: nat, g: nat, count: nat, n: Machine, p: Owners) {
    && Structural(s.(m := n), p)
    && RangeMapped(s.m, n, s.kernel.pd, v, g, count, MAPPABLE)
    && KernelGained(o, p, v, g, count)
  }

  lemma MapNextKernelPage(s: System, o: Owners, v: nat, g: nat, count: nat, j: nat, x: Machine, p: Owners)
    returns (q: Owners)
    requires j < count && USER_PAGES <= v && v + count <= MAPPABLE && KernelVacant(s.m, s.kernel, v, count)
    requires KernelRunMapped(s, o, v, g, j, x, p) && AllLoose(p, g + j, count - j)
    ensures var (y, reply) := MapPage(x, s.kernel.pd, v + j, g + j);
            reply.Halted? || (reply.Mapped? && KernelRunMapped(s, o, v, g, j + 1, y, q)
                              && AllLoose(q, g + (j + 1), count - (j + 1)))
  {
    hide MapPage, KernelMemory, KernelShape, Accounts, UserOk, BackLink;
    var pd := s.kernel.pd;
    assert Translate(s.m, pd, v + j) == None && Translate(x, pd, v + j) == None;
    q := MapKernelPage(s.(m := x), p, v + j, g + j);
    var (y, reply) := MapPage(x, pd, v + j, g + j);
    if reply.Mapped? {
      assert s.(m := x).(m := y) == s.(m := y);
      StillLoose(p, q, g + j, count - j);
      RangesAppend(s.m, x, y, pd, v, g, j, MAPPABLE);
      KernelGainsAppend(o, p, q, v, g, j);
    }
  }

  ghost predicate KernelRunAt(s: System, o: Owners, v: nat, g: nat, count: nat, j: nat, x: Machine) {
    j <= count && exists q :: KernelRunMapped(s, o, v, g, j, x, q) && AllLoose(q, g + j, count - j)
  }

  lemma KernelRunStarts(s: System, o: Owners, v: nat, g: nat, count: nat)
    requires Structural(s, o) && AllLoose(o, g, count)
    ensures KernelRunAt(s, o, v, g, count, 0, s.m)
  {
    assert s.(m := s.m) == s && KernelRunMapped(s, o, v, g, 0, s.m, o);
  }

  lemma KernelRunSteps(s: System, o: Owners, v: nat, g: nat, count: nat, j: nat, x: Machine)
    requires USER_PAGES <= v && v + count <= MAPPABLE && KernelVacant(s.m, s.kernel, v, count)
    requires j < count && KernelRunAt(s, o, v, g, count, j, x)
    ensures var (y, reply) := MapPage(x, s.kernel.pd, v + j, g + j);
            reply.Halted? || (reply.Mapped? && KernelRunAt(s, o, v, g, count, j + 1, y))
  {
    var q :| KernelRunMapped(s, o, v, g, j, x, q) && AllLoose(q, g + j, count - j);
    var r := MapNextKernelPage(s, o, v, g, count, j, x, q);
  }

  /** The loop of kpg_mapContinous in the kernel directory. */
  lemma MapKernelPages(s: System, o: Owners, v: nat, g: nat, count: nat)
    requires Structural(s, o) && USER_PAGES <= v && v + count <= MAPPABLE
    requires AllLoose(o, g, count) && KernelVacant(s.m, s.kernel, v, count)
    ensures var (n, reply) := MapRun(s.m, s.kernel.pd, v, g, count);
            reply.Halted? || (reply.Mapped? && KernelRunAt(s, o, v, g, count, count, n))
  {
    hide KernelRunAt, MapRun, Structural;
    var inv := (j: nat, x: Machine) => KernelRunAt(s, o, v, g, count, j, x);
    KernelRunStarts(s, o, v, g, count);
    forall j: nat, x: Machine {:trigger StepKeeps(x, s.kernel.pd, v, g, inv, j)} | j < count && inv(j, x)
      ensures StepKeeps(x, s.kernel.pd, v, g, inv, j)
    {
      KernelRunSteps(s, o, v, g, count, j, x);
    }
    MapRunLoop(s.m, s.kernel.pd, v, g, count, inv, 0);
  }

  lemma KernelGainsAppend(o: Owners, p: Owners, q: Owners, v: nat, g: nat, j: nat)
    requires KernelGained(o, p, v, g, j) && KernelGained(p, q, v + j, g + j, 1) && (g + j) in o
    ensures KernelGained(o, q, v, g, j + 1)
  {
    forall f | f in o && !(g <= f < g + j + 1) ensures Owns(q, f, o[f]) {
      assert Owns(p, f, o[f]);
    }
    forall f | g <= f < g + j + 1 ensures f in q && q[f] == KernelPageOf(v + (f - g)) {
      assert f < g + j ==> f in p && p[f] == KernelPageOf(v + (f - g)) && Owns(q, f, p[f]);
    }
    forall f | f in q && f !in o && !(g <= f < g + j + 1) ensures q[f].kind == KernelTable {
      assert f in p ==> Owns(q, f, p[f]);
    }
  }
}
