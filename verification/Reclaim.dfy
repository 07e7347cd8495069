/** Giving frames back: kvmm_free, kvmm_delete and kpg_deletePageDirectory. */
module Reclaim {
  import opened Common
  import opened Bitmaps
  import opened FrameStates
  import opened PageTables
  import opened AddressSpaces
  import opened Contexts
  import opened Ownership

  ghost function Dropped(o: Owners, f: nat): (r: Owners)
    ensures forall g :: g in r <==> g in o && g != f
    ensures forall g :: g in r ==> r[g] == o[g]
  {
    map g | g in o && g != f :: o[g]
  }

  /** The frames that lost their owner are FREE; every other frame is in the state it was in. */
  ghost predicate Returned(m: Machine, n: Machine, o: Owners, p: Owners) {
    && |n.frames| == |m.frames|
    && forall f :: 0 <= f < |m.frames| ==> n.frames[f] == if f in o && f !in p then Free else m.frames[f]
  }

  lemma ReturnedCompose(m: Machine, m1: Machine, n: Machine, o: Owners, o1: Owners, p: Owners)
    requires Returned(m, m1, o, o1) && Returned(m1, n, o1, p)
    requires forall f :: f in o1 ==> f in o
    requires forall f :: f in p ==> f in o1
    ensures Returned(m, n, o, p)
  {
  }

  /** kpmm_free of an owned frame goes through. */
  lemma FreeOwnedFrame(m: Machine, o: Owners, f: nat)
    requires Accounts(m, o) && f in o
    ensures var (n, reply) := FreeFrame(m, f);
            && reply.Done? && n == m.With(m.frames[f := Free]) && Accounts(n, Dropped(o, f))
            && Returned(m, n, o, Dropped(o, f))
  {
    FreeGivesBackRun(m.frames, m.usable, f, 1);
    assert SetRun(m.frames, f, 1, Free) == m.frames[f := Free];
  }

  /** Context c loses page v: kpg_unmap and then kpmm_free of the frame behind it. */
  lemma ReleaseUserPage(s: System, o: Owners, c: nat, v: nat)
    requires Structural(s, o) && c in s.users && v < USER_PAGES && Translate(s.m, s.users[c].pd, v).Some?
    ensures var pd := s.users[c].pd;
            var f := Translate(s.m, pd, v).value;
            var (n, reply) := FreeFrame(UnmapPage(s.m, pd, v).0, f);
            && Owns(o, f, PageOf(c, v)) && reply.Done?
            && Structural(s.(m := n), Dropped(o, f)) && HalvesKept(s, n) && Returned(s.m, n, o, Dropped(o, f))
            && Translate(n, pd, v) == None
            && (forall w :: 0 <= w < USER_PAGES && w != v ==> Translate(n, pd, w) == Translate(s.m, pd, w))
            && (forall i :: 0 <= i < 1024 ==> n.At(pd, i) == s.m.At(pd, i))
  {
    hide FreeFrame;
    var m, pd := s.m, s.users[c].pd;
    assert UserOk(s, o, c);
    var tb := m.At(pd, v / 1024).frame;
    var pte := m.At(tb, v % 1024);
    var f := pte.frame;
    var n0 := m.Put(tb, v % 1024, pte.(present := false));
    assert UnmapPage(m, pd, v).0 == n0;
    UserEntryWritten(s, o, c, v, pte.(present := false));
    FreeOwnedFrame(n0, o, f);
    var n := n0.With(n0.frames[f := Free]);
    HalvesUntouched(s, o, n, tb, tb);
    DropPage(s, o, c, v, n, tb, f);
  }

  /** Memory n is s.m with page v of context c gone from table tb, its frame f freed. */
  ghost predicate PageDropped(s: System, o: Owners, c: nat, v: nat, n: Machine, tb: nat, f: nat)
    requires c in s.users && v < USER_PAGES
  {
    && Translate(s.m, s.users[c].pd, v) == Some(f) && Owns(o, f, PageOf(c, v))
    && Accounts(n, Dropped(o, f)) && SameExcept(s.m, n, tb, tb) && Returned(s.m, n, o, Dropped(o, f))
    && Owns(o, tb, TableOf(c, v / 1024))
    && (forall i :: 0 <= i < 1024 ==> n.At(s.users[c].pd, i) == s.m.At(s.users[c].pd, i))
    && Translate(n, s.users[c].pd, v) == None
    && (forall w :: 0 <= w < USER_PAGES && w != v ==> Translate(n, s.users[c].pd, w) == Translate(s.m, s.users[c].pd, w))
  }

  /** The structure after a page-table entry was cleared and its frame freed. */
  lemma DropPage(s: System, o: Owners, c: nat, v: nat, n: Machine, tb: nat, f: nat)
    requires Structural(s, o) && c in s.users && v < USER_PAGES && PageDropped(s, o, c, v, n, tb, f)
    ensures Structural(s.(m := n), Dropped(o, f))
  {
    hide KernelMemory, UserOk, BackLink, Translate;
    var p, t := Dropped(o, f), s.(m := n);
    KernelUnaffected(s.m, n, o, p, s.kernel, tb, tb);
    DropKeepsOwner(s, o, c, v, n, tb, f);
    forall d | d in t.users ensures UserOk(t, p, d) {
      if d != c {
        OtherKeptByDrop(s, o, d, c, n, f, tb);
      }
    }
    forall h | h in p ensures BackLink(n, t.users, h, p[h]) {
      DropKeepsLink(s, o, c, v, n, tb, f, h);
    }
  }

  lemma DropKeepsOwner(s: System, o: Owners, c: nat, v: nat, n: Machine, tb: nat, f: nat)
    requires Structural(s, o) && c in s.users && v < USER_PAGES && PageDropped(s, o, c, v, n, tb, f)
    requires forall i :: 0 <= i < 1024 ==> n.At(s.kernel.pd, i) == s.m.At(s.kernel.pd, i)
    ensures UserOk(s.(m := n), Dropped(o, f), c)
  {
    hide KernelMemory, BackLink, Accounts;
    assert UserOk(s, o, c);
    forall w | 0 <= w < USER_PAGES && Translate(n, s.users[c].pd, w).Some?
      ensures Owns(Dropped(o, f), Translate(n, s.users[c].pd, w).value, PageOf(c, w)) && Backable(s.users[c].spaces, w)
    {
      assert Owns(o, Translate(s.m, s.users[c].pd, w).value, PageOf(c, w));
    }
  }

  lemma DropKeepsLink(s: System, o: Owners, c: nat, v: nat, n: Machine, tb: nat, f: nat, h: nat)
    requires Structural(s, o) && c in s.users && v < USER_PAGES && PageDropped(s, o, c, v, n, tb, f)
    requires h in o && h != f
    ensures BackLink(n, s.users, h, o[h])
  {
    hide KernelMemory, Accounts;
    assert BackLink(s.m, s.users, h, o[h]);
    var d := o[h].c;
    if o[h].kind == PageTable && d != c {
      assert UserOk(s, o, d);
      UserUnaffected(s.m, n, o, d, s.users[d], tb, tb, o[h].i * 1024);
    } else if o[h].kind == DataPage && d != c {
      assert UserOk(s, o, d);
      UserUnaffected(s.m, n, o, d, s.users[d], tb, tb, o[h].i);
    }
  }

  lemma OtherKeptByDrop(s: System, o: Owners, d: nat, c: nat, n: Machine, f: nat, tb: nat)
    requires Structural(s, o) && d in s.users && c in s.users && d != c && SameExcept(s.m, n, tb, tb)
    requires f in o && o[f].c == c && o[f].kind == DataPage && tb in o && o[tb].kind == PageTable && o[tb].c == c
    requires forall i :: 0 <= i < 1024 ==> n.At(s.kernel.pd, i) == s.m.At(s.kernel.pd, i)
    ensures UserOk(s.(m := n), Dropped(o, f), d)
  {
    assert UserOk(s, o, d);
    var pd := s.users[d].pd;
    forall v | 0 <= v < USER_PAGES ensures Translate(n, pd, v) == Translate(s.m, pd, v) {
      UserUnaffected(s.m, n, o, d, s.users[d], tb, tb, v);
    }
  }

  // ---------------------------------------------------------------------------------------------
  // kvmm_free of a whole space.
  // ---------------------------------------------------------------------------------------------

  /** p is o without the pages v.. of context c. */
  ghost predicate LostPages(o: Owners, p: Owners, c: nat, v: nat, count: nat) {
    && (forall f :: f in p <==> f in o && !(o[f].kind == DataPage && o[f].c == c && v <= o[f].i < v + count))
    && (forall f :: f in p ==> p[f] == o[f])
  }

  /** Memory after pages v.. of directory pd were released. */
  ghost predicate PagesGone(m: Machine, n: Machine, pd: nat, v: nat, count: nat) {
    && (forall w: nat :: w < USER_PAGES ==> Translate(n, pd, w) == if v <= w < v + count then None else Translate(m, pd, w))
    && (forall i :: 0 <= i < 1024 ==> n.At(pd, i) == m.At(pd, i))
  }

  ghost predicate UserRunReleased(s: System, o: Owners, c: nat, v: nat, count: nat, n: Machine, p: Owners)
    requires c in s.users
  {
    && Structural(s.(m := n), p) && HalvesKept(s, n) && Returned(s.m, n, o, p)
    && LostPages(o, p, c, v, count) && PagesGone(s.m, n, s.users[c].pd, v, count)
  }

  /** One page, mapped or not. */
  lemma ReleaseFirstPage(s: System, o: Owners, c: nat, v: nat) returns (n: Machine, p: Owners)
    requires Structural(s, o) && c in s.users && v < USER_PAGES
    ensures UserRunReleased(s, o, c, v, 1, n, p) && n.usable <= |n.frames|
    ensures match Translate(s.m, s.users[c].pd, v)
            case None => n == s.m
            case Some(f) => FreeFrame(UnmapPage(s.m, s.users[c].pd, v).0, f) == (n, Done)
  {
    hide FreeFrame, UnmapPage;
    match Translate(s.m, s.users[c].pd, v)
    case None =>
      n, p := s.m, o;
      assert s.(m := s.m) == s;
      forall f | f in o ensures !(o[f].kind == DataPage && o[f].c == c && o[f].i == v) {
        assert BackLink(s.m, s.users, f, o[f]);
      }
    case Some(f) =>
      ReleaseUserPage(s, o, c, v);
      n, p := FreeFrame(UnmapPage(s.m, s.users[c].pd, v).0, f).0, Dropped(o, f);
      forall g | g in o && g != f ensures !(o[g].kind == DataPage && o[g].c == c && o[g].i == v) {
        assert BackLink(s.m, s.users, g, o[g]);
      }
  }

  lemma ReleasesCompose(s: System, o: Owners, c: nat, v: nat, count: nat, m1: Machine, o1: Owners, n: Machine, p: Owners)
    requires c in s.users && UserRunReleased(s, o, c, v, 1, m1, o1)
    requires UserRunReleased(s.(m := m1), o1, c, v + 1, count, n, p)
    ensures UserRunReleased(s, o, c, v, count + 1, n, p)
  {
    hide Structural;
    assert s.(m := m1).(m := n) == s.(m := n);
    ReturnedCompose(s.m, m1, n, o, o1, p);
  }

  /** The page loop of kvmm_free for a process: it always goes through, releases exactly the frames
      behind the range and leaves every other page as it was. */
  lemma {:induction false} ReleaseUserRun(s: System, o: Owners, c: nat, v: nat, count: nat) returns (p: Owners)
    requires Structural(s, o) && c in s.users && v + count <= USER_PAGES
    ensures var (n, outcome) := ReleaseRun(s.m, s.users[c].pd, v, count);
            outcome == Succeeded && UserRunReleased(s, o, c, v, count, n, p)
    decreases count
  {
    hide FreeFrame, UnmapPage, Structural, UserRunReleased;
    if count == 0 {
      p := o;
      NothingReleased(s, o, c, v);
    } else {
      var m1, o1 := ReleaseFirstPage(s, o, c, v);
      StructuralAfterRelease(s, o, c, v, 1, m1, o1);
      p := ReleaseUserRun(s.(m := m1), o1, c, v + 1, count - 1);
      var (n, _) := ReleaseRun(m1, s.users[c].pd, v + 1, count - 1);
      ReleasesCompose(s, o, c, v, count - 1, m1, o1, n, p);
    }
  }

  lemma NothingReleased(s: System, o: Owners, c: nat, v: nat)
    requires Structural(s, o) && c in s.users
    ensures UserRunReleased(s, o, c, v, 0, s.m, o)
  {
    assert s.(m := s.m) == s;
  }

  lemma StructuralAfterRelease(s: System, o: Owners, c: nat, v: nat, count: nat, n: Machine, p: Owners)
    requires c in s.users && UserRunReleased(s, o, c, v, count, n, p)
    ensures Structural(s.(m := n), p)
  {
  }

  /** The address-space list of a context may change as long as mapped pages stay covered. */
  lemma ContextChanged(s: System, o: Owners, c: nat, ctx: Context)
    requires Structural(s, o) && c in s.users && ctx.pd == s.users[c].pd && UserShape(ctx)
    requires forall v :: 0 <= v < USER_PAGES && Translate(s.m, ctx.pd, v).Some? ==> Backable(ctx.spaces, v)
    ensures Structural(s.(users := s.users[c := ctx]), o)
  {
    var t := s.(users := s.users[c := ctx]);
    assert UserOk(s, o, c);
    forall d | d in t.users ensures UserOk(t, o, d) {
      assert d != c ==> UserOk(s, o, d);
    }
    forall f | f in o ensures BackLink(t.m, t.users, f, o[f]) {
      assert BackLink(s.m, s.users, f, o[f]);
    }
  }

  /** A page covered by a space lies in the page range of that space. */
  lemma CoveredPage(vas: Vas, v: nat)
    requires vas.start % PAGE == 0 && vas.size % PAGE == 0
    ensures vas.Covers(v * PAGE) <==> vas.start / PAGE <= v < vas.start / PAGE + vas.size / PAGE
    ensures vas.End() / PAGE == vas.start / PAGE + vas.size / PAGE
    ensures (vas.size + PAGE - 1) / PAGE == vas.size / PAGE
  {
  }

  /** kvmm_free of a space at its first address. */
  lemma FreeUserSpace(s: System, o: Owners, c: nat, k: nat) returns (p: Owners)
    requires Structural(s, o) && c in s.users && k < |s.users[c].spaces|
    ensures var ctx := s.users[c];
            var vas := ctx.spaces[k];
            && vas.start < VA_LIMIT
            && var (n, ctx1, outcome) := FreeSpace(s.m, ctx, vas.start);
            && outcome == Succeeded && ctx1 == ctx.(spaces := Without(ctx.spaces, k))
            && Structural(System(n, s.kernel, s.users[c := ctx1]), p) && HalvesKept(s, n) && Returned(s.m, n, o, p)
            && LostPages(o, p, c, vas.start / PAGE, vas.size / PAGE)
            && PagesGone(s.m, n, ctx.pd, vas.start / PAGE, vas.size / PAGE)
  {
    hide ReleaseRun, ReleasePages;
    var ctx := s.users[c];
    var vas := ctx.spaces[k];
    assert UserOk(s, o, c) && Inside(vas, ctx.start, ctx.end);
    FindVasIsUnique(ctx.spaces, ctx.start, ctx.end, vas.start, k);
    CoveredPage(vas, 0);
    var v, count := vas.start / PAGE, vas.size / PAGE;
    assert v * PAGE == vas.start && v + count <= USER_PAGES by {
      assert vas.End() <= USER_PAGES * PAGE;
    }
    ReleasePagesIsReleaseRun(s.m, ctx.pd, v, count);
    p := ReleaseUserRun(s, o, c, v, count);
    var n := ReleaseRun(s.m, ctx.pd, v, count).0;
    var ctx1 := ctx.(spaces := Without(ctx.spaces, k));
    WithoutIsWellFormed(ctx.spaces, ctx.start, ctx.end, k);
    RemainingIsBackable(s, o, c, k, n);
    ContextChanged(s.(m := n), p, c, ctx1);
    assert s.(m := n).(users := s.users[c := ctx1]) == System(n, s.kernel, s.users[c := ctx1]);
  }

  lemma RemainingIsBackable(s: System, o: Owners, c: nat, k: nat, n: Machine)
    requires Structural(s, o) && c in s.users && k < |s.users[c].spaces|
    requires PagesGone(s.m, n, s.users[c].pd, s.users[c].spaces[k].start / PAGE, s.users[c].spaces[k].size / PAGE)
    ensures forall v :: 0 <= v < USER_PAGES && Translate(n, s.users[c].pd, v).Some? ==>
              Backable(Without(s.users[c].spaces, k), v)
  {
    hide KernelMemory, BackLink, Accounts, Translate, Backable, WellFormed;
    var ctx := s.users[c];
    assert UserOk(s, o, c);
    forall v | 0 <= v < USER_PAGES && Translate(n, ctx.pd, v).Some? ensures Backable(Without(ctx.spaces, k), v) {
      assert Translate(s.m, ctx.pd, v).Some?;
      RemainsBackable(ctx, k, v);
    }
  }

  /** A page outside space k stays backable without it. */
  lemma RemainsBackable(ctx: Context, k: nat, v: nat)
    requires WellFormed(ctx.spaces, ctx.start, ctx.end) && k < |ctx.spaces| && Backable(ctx.spaces, v)
    requires !(ctx.spaces[k].start / PAGE <= v < ctx.spaces[k].start / PAGE + ctx.spaces[k].size / PAGE)
    ensures Backable(Without(ctx.spaces, k), v)
  {
    var j :| 0 <= j < |ctx.spaces| && ctx.spaces[j].Covers(v * PAGE) && !ctx.spaces[j].flags.nullPage;
    assert Inside(ctx.spaces[k], ctx.start, ctx.end);
    CoveredPage(ctx.spaces[k], v);
    assert Without(ctx.spaces, k)[if j < k then j else j - 1] == ctx.spaces[j];
  }

  // ---------------------------------------------------------------------------------------------
  // kvmm_delete and kpg_deletePageDirectory.
  // ---------------------------------------------------------------------------------------------

  /** p is o without the data pages of context c. */
  ghost predicate LostData(o: Owners, p: Owners, c: nat) {
    && (forall f :: f in p <==> f in o && !(o[f].kind == DataPage && o[f].c == c))
    && (forall f :: f in p ==> p[f] == o[f])
  }

  lemma HalvesCompose(s: System, m1: Machine, s1: System, n: Machine)
    requires HalvesKept(s, m1) && HalvesKept(s1, n)
    requires s1.m == m1 && s1.kernel == s.kernel && s1.users.Keys == s.users.Keys
    requires forall c :: c in s.users ==> s1.users[c].pd == s.users[c].pd
    ensures HalvesKept(s, n)
  {
    forall c, i | c in s.users && KERNEL_PDE <= i < RECURSIVE_PDE
      ensures n.At(s.users[c].pd, i) == s.m.At(s.users[c].pd, i)
    {
      assert c in s1.users;
    }
  }

  lemma StructureIsSized(s: System, o: Owners)
    requires Structural(s, o)
    ensures s.m.Sized()
  {
  }

  /** The loop of kvmm_delete: it ends, every kvmm_free in it goes through, and all pages are released. */
  lemma {:induction false} DrainUser(s: System, o: Owners, c: nat) returns (p: Owners)
    requires Structural(s, o) && c in s.users
    ensures var (n, ctx, outcome) := Drain(s.m, s.users[c]);
            && outcome == Succeeded && ctx == s.users[c].(spaces := [])
            && Structural(System(n, s.kernel, s.users[c := ctx]), p) && HalvesKept(s, n)
            && LostData(o, p, c) && Returned(s.m, n, o, p)
            && (forall i :: 0 <= i < 1024 ==> n.At(ctx.pd, i) == s.m.At(ctx.pd, i))
    decreases |s.users[c].spaces|
  {
    hide FreeSpace, Structural;
    var ctx := s.users[c];
    if ctx.spaces == [] {
      p := o;
      NothingLeft(s, o, c);
      assert s.users[c := ctx] == s.users && ctx.(spaces := []) == ctx;
    } else {
      var o1 := FreeUserSpace(s, o, c, 0);
      StructureIsSized(s, o);
      var (m1, ctx1, outcome) := FreeSpace(s.m, ctx, ctx.spaces[0].start);
      var s1 := System(m1, s.kernel, s.users[c := ctx1]);
      p := DrainUser(s1, o1, c);
      HalvesCompose(s, m1, s1, Drain(m1, ctx1).0);
      ReturnedCompose(s.m, m1, Drain(m1, ctx1).0, o, o1, p);
      assert s1.users[c := ctx1.(spaces := [])] == s.users[c := ctx1.(spaces := [])];
    }
  }

  /** A context without spaces has no pages. */
  lemma NothingLeft(s: System, o: Owners, c: nat)
    requires Structural(s, o) && c in s.users && s.users[c].spaces == []
    ensures LostData(o, o, c)
  {
    assert UserOk(s, o, c);
    forall f | f in o ensures !(o[f].kind == DataPage && o[f].c == c) {
      assert BackLink(s.m, s.users, f, o[f]);
    }
  }

  /** p is o without everything that belongs to context c. */
  ghost predicate LostContext(o: Owners, p: Owners, c: nat) {
    && (forall f :: f in p <==> f in o && !o[f].Of(c))
    && (forall f :: f in p ==> p[f] == o[f])
  }

  /** The frames that are tables i.. of context c. */
  ghost predicate LostTables(o: Owners, p: Owners, c: nat, i: nat) {
    && (forall f :: f in p <==> f in o && !(o[f].kind == PageTable && o[f].c == c && i <= o[f].i))
    && (forall f :: f in p ==> p[f] == o[f])
  }

  /** Table frame ownership, which survives while the tables are being freed one after the other. */
  ghost predicate TablesOwned(m: Machine, o: Owners, c: nat, pd: nat, i: nat) {
    && Accounts(m, o)
    && (forall k :: i <= k < KERNEL_PDE && m.At(pd, k).present ==> Owns(o, m.At(pd, k).frame, TableOf(c, k)))
    && (forall f :: f in o && o[f].kind == PageTable && o[f].c == c && i <= o[f].i ==>
          o[f].i < KERNEL_PDE && m.At(pd, o[f].i) == Entry(true, f))
  }

  /** The loop of kpg_deletePageDirectory frees exactly the process's own tables. */
  lemma {:induction false} FreeUserTables(m: Machine, o: Owners, c: nat, pd: nat, i: nat) returns (p: Owners)
    requires TablesOwned(m, o, c, pd, i) && i <= KERNEL_PDE
    ensures var (n, reply) := FreeTables(m, pd, i, KERNEL_PDE);
            reply == Done && n.ram == m.ram && Accounts(n, p) && LostTables(o, p, c, i) && Returned(m, n, o, p)
    decreases KERNEL_PDE - i
  {
    hide FreeFrame;
    p := o;
    if i < KERNEL_PDE {
      var e := m.At(pd, i);
      if !e.present {
        p := FreeUserTables(m, o, c, pd, i + 1);
      } else {
        FreeOwnedFrame(m, o, e.frame);
        var o1 := Dropped(o, e.frame);
        var (m1, _) := FreeFrame(m, e.frame);
        p := FreeUserTables(m1, o1, c, pd, i + 1);
        ReturnedCompose(m, m1, FreeTables(m1, pd, i + 1, KERNEL_PDE).0, o, o1, p);
      }
    }
  }

  /** What remains when a context without pages disappears together with its frames. */
  lemma DropContext(s: System, o: Owners, c: nat, n: Machine, p: Owners)
    requires Structural(s, o) && c in s.users && LostData(o, o, c)
    requires n.ram == s.m.ram && n.usable == s.m.usable && Accounts(n, p) && LostContext(o, p, c) && Returned(s.m, n, o, p)
    ensures Structural(System(n, s.kernel, s.users - {c}), p)
  {
    var t := System(n, s.kernel, s.users - {c});
    forall h: nat, j: nat | j < 1024 ensures n.At(h, j) == s.m.At(h, j) {
    }
    forall pd, v: nat | v < 0x10_0000 ensures Translate(n, pd, v) == Translate(s.m, pd, v) {
    }
    assert UserOk(s, o, c);
    KernelUnaffected(s.m, n, o, p, s.kernel, s.users[c].pd, s.users[c].pd);
    forall d | d in t.users ensures UserOk(t, p, d) {
      assert UserOk(s, o, d);
    }
    forall f | f in p ensures BackLink(n, t.users, f, p[f]) {
      assert BackLink(s.m, s.users, f, o[f]);
    }
  }

  lemma TablesAreOwned(s: System, o: Owners, c: nat)
    requires Structural(s, o) && c in s.users
    ensures TablesOwned(s.m, o, c, s.users[c].pd, 0)
  {
    assert UserOk(s, o, c);
    forall f | f in o && o[f].kind == PageTable && o[f].c == c
      ensures o[f].i < KERNEL_PDE && s.m.At(s.users[c].pd, o[f].i) == Entry(true, f)
    {
      assert BackLink(s.m, s.users, f, o[f]);
    }
  }

  lemma OneDirectory(s: System, o: Owners, c: nat)
    requires Structural(s, o) && c in s.users
    ensures Owns(o, s.users[c].pd, DirectoryOf(c))
    ensures forall f :: f in o && o[f].kind == Directory && o[f].c == c ==> f == s.users[c].pd
  {
    assert UserOk(s, o, c);
    forall f | f in o && o[f].kind == Directory && o[f].c == c ensures f == s.users[c].pd {
      assert BackLink(s.m, s.users, f, o[f]);
    }
  }

  /** kpg_deletePageDirectory of a drained context. */
  lemma DeleteUserPd(s: System, o: Owners, c: nat) returns (p: Owners)
    requires Structural(s, o) && c in s.users && LostData(o, o, c)
    ensures FreeTables(s.m, s.users[c].pd, 0, KERNEL_PDE).1 == Done
    ensures var (n, reply) := DeletePd(s.m, s.users[c].pd, true);
            && reply == Done && LostContext(o, p, c) && n.ram == s.m.ram && Returned(s.m, n, o, p)
            && Structural(System(n, s.kernel, s.users - {c}), p)
  {
    hide FreeTables, FreeFrame;
    var pd := s.users[c].pd;
    TablesAreOwned(s, o, c);
    OneDirectory(s, o, c);
    var o1 := FreeUserTables(s.m, o, c, pd, 0);
    var (m1, _) := FreeTables(s.m, pd, 0, KERNEL_PDE);
    FreeOwnedFrame(m1, o1, pd);
    p := Dropped(o1, pd);
    var (n, _) := FreeFrame(m1, pd);
    ReturnedCompose(s.m, m1, n, o, o1, p);
    DropContext(s, o, c, n, p);
  }

  /** kvmm_delete followed by kpg_deletePageDirectory ends, goes through, and gives back exactly the
      frames that context c owned: its directory, its tables and its pages. */
  lemma DestroyUser(s: System, o: Owners, c: nat) returns (p: Owners)
    requires Structural(s, o) && c in s.users
    ensures var (n, outcome) := Destroy(s.m, s.users[c]);
            && outcome == Succeeded && LostContext(o, p, c) && HalvesKept(s, n) && Returned(s.m, n, o, p)
            && Structural(System(n, s.kernel, s.users - {c}), p)
  {
    hide Drain, DeletePd, Structural;
    StructureIsSized(s, o);
    var o1 := DrainUser(s, o, c);
    var (n, ctx, _) := Drain(s.m, s.users[c]);
    var s1 := System(n, s.kernel, s.users[c := ctx]);
    p := DeleteUserPd(s1, o1, c);
    ReturnedCompose(s.m, n, DeletePd(n, s.users[c].pd, true).0, o, o1, p);
    assert s1.users - {c} == s.users - {c};
    forall f | f in o ensures f in p <==> !o[f].Of(c) {
      if f !in o1 {
        assert o[f].kind == DataPage;
      }
    }
  }
}
