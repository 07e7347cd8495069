/** Who owns each allocated frame. One kernel context and any number of process contexts share
    physical memory; a process directory holds its own tables below KERNEL_PDE and copies of the
    kernel's entries above. */
module Ownership {
  import opened Common
  import opened FrameStates
  import opened PageTables
  import opened AddressSpaces
  import opened Contexts

  /** Virtual pages below the kernel, KERNEL_PDE tables of 1024 entries: 3 GB. */
  const USER_PAGES: nat := 0xC_0000
  const PROCESS_START: nat := 0x1000
  const PROCESS_END: nat := 0xBFFF_FFFF

  /** Process contexts are named by arbitrary numbers. */
  datatype System = System(m: Machine, kernel: Context, users: map<nat, Context>)

  datatype Kind = BootFrame | KernelTable | KernelPage | LooseFrame | Directory | PageTable | DataPage

  /** What an allocated frame is used for: a kind and, where they matter, the context and a table index
      or a page number. One constructor keeps case splits out of the proofs. */
  datatype Owner = Owner(kind: Kind, c: nat, i: nat) {
    /** The kernel's: what was in use at boot, its new tables and the pages committed for it. */
    predicate OfKernel() {
      kind == BootFrame || kind == KernelTable || kind == KernelPage
    }

    /** Process context d's. */
    predicate Of(d: nat) {
      (kind == Directory || kind == PageTable || kind == DataPage) && c == d
    }
  }

  const BOOT := Owner(BootFrame, 0, 0)
  /** Taken from the PMM and not yet attached to anything. */
  const LOOSE := Owner(LooseFrame, 0, 0)

  function KernelTableOf(i: nat): Owner {
    Owner(KernelTable, 0, i)
  }

  function KernelPageOf(v: nat): Owner {
    Owner(KernelPage, 0, v)
  }

  function DirectoryOf(c: nat): Owner {
    Owner(Directory, c, 0)
  }

  function TableOf(c: nat, i: nat): Owner {
    Owner(PageTable, c, i)
  }

  function PageOf(c: nat, v: nat): Owner {
    Owner(DataPage, c, v)
  }

  type Owners = map<nat, Owner>

  ghost predicate Owns(o: Owners, f: nat, who: Owner) {
    f in o && o[f] == who
  }

  /** The owned frames are the USED frames, and all of them can be freed. */
  ghost predicate Accounts(m: Machine, o: Owners) {
    && m.Sized()
    && (forall f: nat :: f in o <==> f < |m.frames| && m.frames[f] == Used)
    && (forall f: nat :: f in o ==> f < m.usable)
  }

  /** The list of a process context. */
  ghost predicate UserShape(c: Context) {
    && !c.isStatic && 0 < c.start <= c.end && c.start % PAGE == 0 && c.end <= USER_PAGES * PAGE
    && WellFormed(c.spaces, c.start, c.end)
    && forall k :: 0 <= k < |c.spaces| ==> !c.spaces[k].isStatic
  }

  ghost predicate KernelShape(c: Context) {
    && USER_PAGES * PAGE <= c.start <= c.end && c.start % PAGE == 0 && c.end <= MAPPABLE * PAGE
    && WellFormed(c.spaces, c.start, c.end)
  }

  ghost predicate Claimed(spaces: seq<Vas>, v: nat) {
    exists k :: 0 <= k < |spaces| && spaces[k].Covers(v * PAGE)
  }

  /** v lies in a space that may be backed. */
  ghost predicate Backable(spaces: seq<Vas>, v: nat) {
    exists k :: 0 <= k < |spaces| && spaces[k].Covers(v * PAGE) && !spaces[k].flags.nullPage
  }

  /** What context c reaches below the kernel is its own. */
  ghost predicate UserMemory(m: Machine, o: Owners, c: nat, ctx: Context) {
    && Owns(o, ctx.pd, DirectoryOf(c))
    && (forall i :: 0 <= i < KERNEL_PDE && m.At(ctx.pd, i).present ==> Owns(o, m.At(ctx.pd, i).frame, TableOf(c, i)))
    && (forall v :: 0 <= v < USER_PAGES && Translate(m, ctx.pd, v).Some? ==>
          Owns(o, Translate(m, ctx.pd, v).value, PageOf(c, v)) && Backable(ctx.spaces, v))
  }

  /** ... and everything recorded as its own is reached by it. */
  ghost predicate BackLink(m: Machine, users: map<nat, Context>, f: nat, who: Owner) {
    && (who.kind == Directory ==> who.c in users && users[who.c].pd == f)
    && (who.kind == PageTable ==> who.c in users && who.i < KERNEL_PDE && m.At(users[who.c].pd, who.i) == Entry(true, f))
    && (who.kind == DataPage ==> who.c in users && who.i < USER_PAGES && Translate(m, users[who.c].pd, who.i) == Some(f))
    && (who.kind == BootFrame ==> who == BOOT) && (who.kind == LooseFrame ==> who == LOOSE)
  }

  /** A kernel page shows a frame that is not free and, if the frame is accounted for, one that was in
      use at boot or the one committed for this very page. */
  ghost predicate KernelPageOk(m: Machine, o: Owners, v: nat, f: nat) {
    && (f < |m.frames| ==> m.frames[f] != Free)
    && (f in o ==> o[f] == BOOT || o[f] == KernelPageOf(v))
  }

  /** The kernel's tables and pages are its own, and it reaches every frame recorded as such. */
  ghost predicate KernelMemory(m: Machine, o: Owners, k: Context) {
    && Sound(m, k.pd)
    && Owns(o, k.pd, BOOT)
    && (forall i :: 0 <= i < RECURSIVE_PDE && m.At(k.pd, i).present ==>
          Owns(o, m.At(k.pd, i).frame, BOOT) || Owns(o, m.At(k.pd, i).frame, KernelTableOf(i)))
    && (forall v :: USER_PAGES <= v < MAPPABLE && Translate(m, k.pd, v).Some? ==>
          Backable(k.spaces, v) && KernelPageOk(m, o, v, Translate(m, k.pd, v).value))
    && (forall f {:trigger KernelLink(m, k.pd, f, o[f])} :: f in o ==> KernelLink(m, k.pd, f, o[f]))
  }

  ghost predicate KernelLink(m: Machine, kpd: nat, f: nat, who: Owner) {
    && (who.kind == KernelTable ==> who == KernelTableOf(who.i) && who.i < RECURSIVE_PDE && m.At(kpd, who.i) == Entry(true, f))
    && (who.kind == KernelPage ==>
          who == KernelPageOf(who.i) && USER_PAGES <= who.i < MAPPABLE && Translate(m, kpd, who.i) == Some(f))
  }

  /** No frame of the kernel changes its owner, none becomes the kernel's, and what becomes free or owned
      was free or not the kernel's. */
  ghost predicate KernelFramesKept(m: Machine, n: Machine, o: Owners, p: Owners) {
    && |n.frames| == |m.frames|
    && (forall h :: h in o && o[h].OfKernel() ==> Owns(p, h, o[h]))
    && (forall h :: h in p && p[h].OfKernel() ==> Owns(o, h, p[h]))
    && (forall h: nat :: h in p && h !in o ==> h < |m.frames| && m.frames[h] == Free)
    && (forall h: nat :: h < |n.frames| && n.frames[h] == Free ==> m.frames[h] == Free || (h in o && !o[h].OfKernel()))
  }

  /** The kernel half of a process directory is the kernel's, except that entries may be missing. */
  ghost predicate Mirrors(m: Machine, pd: nat, kernelPd: nat) {
    && (forall i :: KERNEL_PDE <= i < RECURSIVE_PDE ==> m.At(pd, i) == m.At(kernelPd, i) || !m.At(pd, i).present)
    && m.At(pd, RECURSIVE_PDE).frame == pd
  }

  /** ... and none is missing. */
  ghost predicate InStep(m: Machine, pd: nat, kernelPd: nat) {
    forall i :: KERNEL_PDE <= i < RECURSIVE_PDE ==> m.At(pd, i) == m.At(kernelPd, i)
  }

  ghost predicate UserOk(s: System, o: Owners, c: nat)
    requires c in s.users
  {
    UserShape(s.users[c]) && UserMemory(s.m, o, c, s.users[c]) && Mirrors(s.m, s.users[c].pd, s.kernel.pd)
  }

  ghost predicate Structural(s: System, o: Owners) {
    && Accounts(s.m, o)
    && KernelShape(s.kernel) && KernelMemory(s.m, o, s.kernel)
    && (forall c {:trigger UserOk(s, o, c)} :: c in s.users ==> UserOk(s, o, c))
    && (forall f {:trigger BackLink(s.m, s.users, f, o[f])} :: f in o ==> BackLink(s.m, s.users, f, o[f]))
  }

  /** The kernel half of every directory, the kernel's included, is as it was. */
  ghost predicate HalvesKept(s: System, n: Machine) {
    && (forall i :: KERNEL_PDE <= i < RECURSIVE_PDE ==> n.At(s.kernel.pd, i) == s.m.At(s.kernel.pd, i))
    && (forall c, i :: c in s.users && KERNEL_PDE <= i < RECURSIVE_PDE ==>
          n.At(s.users[c].pd, i) == s.m.At(s.users[c].pd, i))
  }

  /** Lazy coherence. */
  ghost predicate Coherent(s: System) {
    s.kernel.dirty || forall c :: c in s.users ==> InStep(s.m, s.users[c].pd, s.kernel.pd)
  }

  // ---------------------------------------------------------------------------------------------
  // Consequences.
  // ---------------------------------------------------------------------------------------------

  /** A process directory is sound: its own tables and the shared ones never collide. */
  lemma UserIsSound(s: System, o: Owners, c: nat)
    requires Structural(s, o) && c in s.users
    ensures Sound(s.m, s.users[c].pd)
  {
    var m, pd, kpd := s.m, s.users[c].pd, s.kernel.pd;
    assert UserOk(s, o, c);
    forall i | 0 <= i < RECURSIVE_PDE && m.At(pd, i).present
      ensures m.Owned(m.At(pd, i).frame) && m.At(pd, i).frame != pd
      ensures i >= KERNEL_PDE ==> m.At(pd, i) == m.At(kpd, i) && m.At(pd, i).frame in o && o[m.At(pd, i).frame].OfKernel()
    {
    }
  }

  /** Memory outside two frames is untouched. */
  ghost predicate SameExcept(m: Machine, n: Machine, f: nat, g: nat) {
    forall h: nat, j: nat :: j < 1024 && h != f && h != g ==> n.At(h, j) == m.At(h, j)
  }

  /** A change to at most two frames, each a process table, a free frame, or left alone above KERNEL_PDE. */
  lemma HalvesUntouched(s: System, o: Owners, n: Machine, f: nat, g: nat)
    requires Structural(s, o) && SameExcept(s.m, n, f, g)
    requires f in o ==> o[f].kind == PageTable
    requires (g in o ==> o[g].kind == PageTable) || forall i :: KERNEL_PDE <= i < 1024 ==> n.At(g, i) == s.m.At(g, i)
    ensures HalvesKept(s, n)
  {
    forall c, i | c in s.users && KERNEL_PDE <= i < RECURSIVE_PDE
      ensures n.At(s.users[c].pd, i) == s.m.At(s.users[c].pd, i)
    {
      assert UserOk(s, o, c);
    }
  }

  /** Changes to frames that are not a context's directory or table leave its translations alone. */
  lemma UserUnaffected(m: Machine, n: Machine, o: Owners, c: nat, ctx: Context, f: nat, g: nat, v: nat)
    requires UserMemory(m, o, c, ctx) && SameExcept(m, n, f, g) && v < USER_PAGES
    requires forall h :: (h == f || h == g) && h in o ==> o[h] != DirectoryOf(c) && !(o[h].kind == PageTable && o[h].c == c)
    ensures Translate(n, ctx.pd, v) == Translate(m, ctx.pd, v)
    ensures n.At(ctx.pd, v / 1024) == m.At(ctx.pd, v / 1024)
  {
    assert ctx.pd != f && ctx.pd != g;
    assert v / 1024 < KERNEL_PDE;
  }

  // ---------------------------------------------------------------------------------------------
  // Taking frames from the PMM.
  // ---------------------------------------------------------------------------------------------

  ghost function Grabbed(o: Owners, at: nat, count: nat): (r: Owners)
    ensures forall f :: f in r <==> f in o || at <= f < at + count
    ensures forall f :: f in r ==> r[f] == if at <= f < at + count then LOOSE else o[f]
  {
    map f | f in o.Keys + Range(at, count) :: if at <= f < at + count then LOOSE else o[f]
  }

  lemma GrabKeepsStructure(s: System, o: Owners, count: nat)
    requires Structural(s, o) && count > 0 && Alloc(s.m.frames, s.m.usable, count).1.Done?
    ensures var (after, _, at) := Alloc(s.m.frames, s.m.usable, count);
            && Structural(s.(m := s.m.With(after)), Grabbed(o, at, count))
            && forall f :: at <= f < at + count ==> f !in o
  {
    AllocTakesLowestRun(s.m.frames, s.m.usable, count);
    var (after, _, at) := Alloc(s.m.frames, s.m.usable, count);
    var n, p := s.m.With(after), Grabbed(o, at, count);
    var t := s.(m := n);
    forall f | at <= f < at + count ensures f !in o {
      assert s.m.frames[f] == Free;
    }
    SameRamKeepsStructure(s, o, t, p);
  }

  /** Owners may be added, memory contents and contexts staying as they are. */
  lemma SameRamKeepsStructure(s: System, o: Owners, t: System, p: Owners)
    requires Structural(s, o) && Accounts(t.m, p)
    requires t == s.(m := s.m.With(t.m.frames)) && |t.m.frames| == |s.m.frames|
    requires forall f :: f in o ==> Owns(p, f, o[f])
    requires forall f :: f in p && f !in o ==> p[f] == LOOSE
    requires KernelFramesKept(s.m, t.m, o, p)
    ensures Structural(t, p)
  {
    forall h: nat, j: nat | j < 1024 ensures t.m.At(h, j) == s.m.At(h, j) {
    }
    forall pd, v: nat | v < 1024 * 1024 ensures Translate(t.m, pd, v) == Translate(s.m, pd, v) {
    }
    KernelUnaffected(s.m, t.m, o, p, s.kernel, |s.m.ram|, |s.m.ram|);
    forall c | c in t.users ensures UserOk(t, p, c) {
      assert UserOk(s, o, c);
    }
    forall f | f in p ensures BackLink(t.m, t.users, f, p[f]) {
      assert f in o ==> BackLink(s.m, s.users, f, o[f]);
    }
  }

  /** Changes to frames that are not the kernel's leave the kernel directory and its tables alone. */
  lemma KernelUnaffected(m: Machine, n: Machine, o: Owners, p: Owners, k: Context, f: nat, g: nat)
    requires KernelMemory(m, o, k) && KernelShape(k) && SameExcept(m, n, f, g) && Accounts(n, p)
    requires forall h :: (h == f || h == g) && h in o ==> !o[h].OfKernel()
    requires KernelFramesKept(m, n, o, p)
    ensures KernelMemory(n, p, k)
    ensures forall i :: 0 <= i < 1024 ==> n.At(k.pd, i) == m.At(k.pd, i)
  {
    assert k.pd != f && k.pd != g;
    forall v | USER_PAGES <= v < MAPPABLE ensures Translate(n, k.pd, v) == Translate(m, k.pd, v) {
      assert v / 1024 < RECURSIVE_PDE;
    }
    forall h | h in p ensures KernelLink(n, k.pd, h, p[h]) {
      assert p[h].OfKernel() ==> KernelLink(m, k.pd, h, o[h]);
    }
  }

  // ---------------------------------------------------------------------------------------------
  // Mapping a page of a process.
  // ---------------------------------------------------------------------------------------------

  lemma OwnNewTable(s: System, o: Owners, c: nat, i: nat, m1: Machine, t: nat)
    requires Structural(s, o) && c in s.users && i < KERNEL_PDE
    requires !s.m.At(s.users[c].pd, i).present && NewTable(s.m, m1, s.users[c].pd, i, t) && t !in o
    requires forall j :: 0 <= j < 1024 ==> m1.At(s.kernel.pd, j) == s.m.At(s.kernel.pd, j)
    ensures UserOk(s.(m := m1), o[t := TableOf(c, i)], c)
    ensures forall v :: 0 <= v < USER_PAGES ==> Translate(m1, s.users[c].pd, v) == Translate(s.m, s.users[c].pd, v)
  {
    var pd := s.users[c].pd;
    assert UserOk(s, o, c);
    forall v | 0 <= v < USER_PAGES ensures Translate(m1, pd, v) == Translate(s.m, pd, v) {
      assert v / 1024 < KERNEL_PDE;
    }
  }

  /** kpg_map creates a page table for context c. */
  lemma NewUserTable(s: System, o: Owners, c: nat, i: nat, m1: Machine, t: nat)
    requires Structural(s, o) && c in s.users && i < KERNEL_PDE
    requires !s.m.At(s.users[c].pd, i).present && NewTable(s.m, m1, s.users[c].pd, i, t) && m1.Sized()
    ensures Structural(s.(m := m1), o[t := TableOf(c, i)]) && HalvesKept(s, m1)
    ensures forall v :: 0 <= v < USER_PAGES ==> Translate(m1, s.users[c].pd, v) == Translate(s.m, s.users[c].pd, v)
  {
    var m, pd, p := s.m, s.users[c].pd, o[t := TableOf(c, i)];
    assert t !in o;
    assert UserOk(s, o, c);
    HalvesUntouched(s, o, m1, t, pd);
    KernelUnaffected(m, m1, o, p, s.kernel, t, pd);
    OwnNewTable(s, o, c, i, m1, t);
    UserChange(s, o, c, m1, p, t, pd, t);
  }

  /** Another context does not notice a change to frames of context c and free frames. */
  lemma OtherUserKept(s: System, o: Owners, d: nat, c: nat, n: Machine, p: Owners, f: nat, g: nat)
    requires Structural(s, o) && d in s.users && d != c && SameExcept(s.m, n, f, g)
    requires forall h :: (h == f || h == g) && h in o ==> o[h] == DirectoryOf(c) || (o[h].kind == PageTable && o[h].c == c)
    requires forall h :: h in o && o[h] != LOOSE ==> Owns(p, h, o[h])
    requires forall i :: 0 <= i < 1024 ==> n.At(s.kernel.pd, i) == s.m.At(s.kernel.pd, i)
    ensures UserOk(s.(m := n), p, d)
  {
    assert UserOk(s, o, d);
    var pd := s.users[d].pd;
    forall v | 0 <= v < USER_PAGES ensures Translate(n, pd, v) == Translate(s.m, pd, v) {
      UserUnaffected(s.m, n, o, d, s.users[d], f, g, v);
    }
  }

  lemma BackLinkKept(s: System, o: Owners, c: nat, n: Machine, f: nat, g: nat, at: nat)
    requires Structural(s, o) && c in s.users && SameExcept(s.m, n, f, g) && at in o
    requires forall h :: (h == f || h == g) && h in o ==> o[h] == DirectoryOf(c) || (o[h].kind == PageTable && o[h].c == c)
    requires forall i :: 0 <= i < KERNEL_PDE && s.m.At(s.users[c].pd, i).present ==>
               n.At(s.users[c].pd, i) == s.m.At(s.users[c].pd, i)
    requires forall v :: 0 <= v < USER_PAGES && Translate(s.m, s.users[c].pd, v).Some? ==>
               Translate(n, s.users[c].pd, v) == Translate(s.m, s.users[c].pd, v)
    ensures BackLink(n, s.users, at, o[at])
  {
    assert BackLink(s.m, s.users, at, o[at]);
    var d, i := o[at].c, o[at].i;
    if o[at].kind == PageTable && d != c {
      assert UserOk(s, o, d);
      UserUnaffected(s.m, n, o, d, s.users[d], f, g, i * 1024);
    } else if o[at].kind == DataPage && d != c {
      assert UserOk(s, o, d);
      UserUnaffected(s.m, n, o, d, s.users[d], f, g, i);
    }
  }

  /** The structure after a change within context c that gave frame x a new owner. */
  lemma UserChange(s: System, o: Owners, c: nat, n: Machine, p: Owners, f: nat, g: nat, x: nat)
    requires Structural(s, o) && c in s.users && SameExcept(s.m, n, f, g)
    requires Accounts(n, p) && KernelMemory(n, p, s.kernel) && UserOk(s.(m := n), p, c)
    requires forall h :: (h == f || h == g) && h in o ==> o[h] == DirectoryOf(c) || (o[h].kind == PageTable && o[h].c == c)
    requires x in p && p == o[x := p[x]] && (x in o ==> o[x] == LOOSE) && BackLink(n, s.users, x, p[x])
    requires forall i :: 0 <= i < 1024 ==> n.At(s.kernel.pd, i) == s.m.At(s.kernel.pd, i)
    requires forall i :: 0 <= i < KERNEL_PDE && s.m.At(s.users[c].pd, i).present ==>
               n.At(s.users[c].pd, i) == s.m.At(s.users[c].pd, i)
    requires forall v :: 0 <= v < USER_PAGES && Translate(s.m, s.users[c].pd, v).Some? ==>
               Translate(n, s.users[c].pd, v) == Translate(s.m, s.users[c].pd, v)
    ensures Structural(s.(m := n), p)
  {
    hide KernelMemory, Accounts, UserOk, BackLink, Translate;
    forall d | d in s.users ensures UserOk(s.(m := n), p, d) {
      if d != c {
        OtherUserKept(s, o, d, c, n, p, f, g);
      }
    }
    forall h | h in p ensures BackLink(n, s.users, h, p[h]) {
      if h != x {
        BackLinkKept(s, o, c, n, f, g, h);
      }
    }
  }

  /** A page-table entry of context c changes. */
  lemma UserEntryWritten(s: System, o: Owners, c: nat, v: nat, e: Entry)
    requires Structural(s, o) && c in s.users && v < USER_PAGES && s.m.At(s.users[c].pd, v / 1024).present
    ensures var pd := s.users[c].pd;
            var tb := s.m.At(pd, v / 1024).frame;
            var n := s.m.Put(tb, v % 1024, e);
            && n.Sized() && SameExcept(s.m, n, tb, tb) && Owns(o, tb, TableOf(c, v / 1024))
            && (forall i :: 0 <= i < 1024 ==> n.At(pd, i) == s.m.At(pd, i) && n.At(s.kernel.pd, i) == s.m.At(s.kernel.pd, i))
            && Translate(n, pd, v) == (if e.present then Some(e.frame) else None)
            && (forall w :: 0 <= w < USER_PAGES && w != v ==> Translate(n, pd, w) == Translate(s.m, pd, w))
  {
    assert UserOk(s, o, c) && v / 1024 < KERNEL_PDE;
    UserIsSound(s, o, c);
    PutChangesOnePage(s.m, s.users[c].pd, v, e);
  }

  lemma OwnMappedPage(s: System, o: Owners, c: nat, v: nat, g: nat, n: Machine)
    requires Structural(s, o) && c in s.users && v < USER_PAGES && Owns(o, g, LOOSE) && Backable(s.users[c].spaces, v)
    requires forall i :: 0 <= i < 1024 ==> n.At(s.users[c].pd, i) == s.m.At(s.users[c].pd, i)
                                           && n.At(s.kernel.pd, i) == s.m.At(s.kernel.pd, i)
    requires Translate(n, s.users[c].pd, v) == Some(g)
    requires forall w :: 0 <= w < USER_PAGES && w != v ==> Translate(n, s.users[c].pd, w) == Translate(s.m, s.users[c].pd, w)
    ensures UserOk(s.(m := n), o[g := PageOf(c, v)], c)
  {
    assert UserOk(s, o, c);
  }

  /** A loose frame becomes page v of context c, whose table exists. */
  lemma MapIntoUserTable(s: System, o: Owners, c: nat, v: nat, g: nat)
    requires Structural(s, o) && c in s.users && v < USER_PAGES && s.m.At(s.users[c].pd, v / 1024).present
    requires Owns(o, g, LOOSE) && Translate(s.m, s.users[c].pd, v) == None && Backable(s.users[c].spaces, v)
    ensures var n := s.m.Put(s.m.At(s.users[c].pd, v / 1024).frame, v % 1024, Entry(true, g));
            && Structural(s.(m := n), o[g := PageOf(c, v)]) && HalvesKept(s, n)
            && (forall w :: 0 <= w < USER_PAGES && w != v ==>
                  Translate(n, s.users[c].pd, w) == Translate(s.m, s.users[c].pd, w))
            && Translate(n, s.users[c].pd, v) == Some(g)
  {
    var m, pd, p := s.m, s.users[c].pd, o[g := PageOf(c, v)];
    var tb := m.At(pd, v / 1024).frame;
    var n := m.Put(tb, v % 1024, Entry(true, g));
    UserEntryWritten(s, o, c, v, Entry(true, g));
    HalvesUntouched(s, o, n, tb, tb);
    KernelUnaffected(m, n, o, p, s.kernel, tb, tb);
    OwnMappedPage(s, o, c, v, g, n);
    UserChange(s, o, c, n, p, tb, tb, g);
  }

  /** The frames that only context c may have added to the owners. */
  ghost predicate Gained(o: Owners, p: Owners, c: nat, g: nat, who: Owner) {
    && Owns(p, g, who)
    && (forall f :: f in o && f != g ==> Owns(p, f, o[f]))
    && (forall f :: f in p && f !in o ==> p[f].kind == PageTable && p[f].c == c)
  }

  /** kpg_map for a process: the loose frame g becomes page v. It can only fail for want of a frame. */
  lemma MapUserPage(s: System, o: Owners, c: nat, v: nat, g: nat) returns (p: Owners)
    requires Structural(s, o) && c in s.users && v < USER_PAGES
    requires Owns(o, g, LOOSE) && Translate(s.m, s.users[c].pd, v) == None && Backable(s.users[c].spaces, v)
    ensures var (n, reply) := MapPage(s.m, s.users[c].pd, v, g);
            && (reply.Mapped? || reply.Halted?)
            && (reply.Mapped? ==>
                  && Structural(s.(m := n), p) && Gained(o, p, c, g, PageOf(c, v)) && HalvesKept(s, n)
                  && Translate(n, s.users[c].pd, v) == Some(g)
                  && (forall w :: 0 <= w < USER_PAGES && w != v ==>
                        Translate(n, s.users[c].pd, w) == Translate(s.m, s.users[c].pd, w)))
  {
    var m, pd, i := s.m, s.users[c].pd, v / 1024;
    UserIsSound(s, o, c);
    EnsureTableIsFresh(m, pd, i);
    var (m1, ok) := EnsureTable(m, pd, i);
    p := o;
    if ok {
      var o1 := TableForPage(s, o, c, i, m1);
      MapIntoUserTable(s.(m := m1), o1, c, v, g);
      p := o1[g := PageOf(c, v)];
    }
  }

  /** The first half of kpg_map for a process. */
  lemma TableForPage(s: System, o: Owners, c: nat, i: nat, m1: Machine) returns (p: Owners)
    requires Structural(s, o) && c in s.users && i < KERNEL_PDE && Sound(s.m, s.users[c].pd)
    requires EnsureTable(s.m, s.users[c].pd, i) == (m1, true)
    ensures Structural(s.(m := m1), p) && m1.At(s.users[c].pd, i).present && HalvesKept(s, m1)
    ensures forall v :: 0 <= v < USER_PAGES ==> Translate(m1, s.users[c].pd, v) == Translate(s.m, s.users[c].pd, v)
    ensures forall f :: f in o ==> Owns(p, f, o[f])
    ensures forall f :: f in p && f !in o ==> p[f] == TableOf(c, i)
  {
    p := o;
    EnsureTableIsFresh(s.m, s.users[c].pd, i);
    if !s.m.At(s.users[c].pd, i).present {
      var t := m1.At(s.users[c].pd, i).frame;
      NewUserTable(s, o, c, i, m1, t);
      p := o[t := TableOf(c, i)];
    }
  }
}
