/** Runs of the memory core: what holds in every state that the operations can reach. */
module KernelRuns {
  import opened Common
  import opened FrameStates
  import opened PageTables
  import opened AddressSpaces
  import opened Contexts
  import opened Ownership
  import opened Lifecycle
  import opened Reclaim
  import opened Birth
  import opened Coherence
  import opened FrameChanges

  /** heapOk says whether the kernel heap had room for the bookkeeping object. */
  datatype Op =
    | CreateContext(c: nat, stale: bool, heapOk: bool)
    | Reserve(c: nat, va: nat, pages: nat, flags: Flags, heapOk: bool)
    | ReserveKernel(va: nat, pages: nat, flags: Flags, isStatic: bool, heapOk: bool)
    | Fault(current: Option<nat>, va: nat, present: bool, queue: seq<nat>)
    | Unreserve(c: nat, k: nat)
    | Kill(c: nat)

  /** One operation; false means that the kernel has halted in it. */
  function Step(s: System, op: Op): (System, bool)
    requires WellNamed(s, op)
  {
    match op
    case CreateContext(c, stale, heapOk) =>
      var (n, reply, pd) := NewPd(s.m, s.kernel.pd);
      if !reply.Done? then (s.(m := n), reply.Refused?)
      else if heapOk then (System(n, s.kernel, s.users[c := NewContext(pd, stale)]), true)
      else
        var (n1, undone) := DeletePd(n, pd, true);
        (s.(m := n1), undone.Done?)
    case Reserve(c, va, pages, flags, heapOk) =>
      var (n, ctx, outcome, _) := Memmap(s.m, s.users[c], va, None, pages, flags, false, heapOk);
      (System(n, s.kernel, s.users[c := ctx]), !outcome.Halts?)
    case ReserveKernel(va, pages, flags, isStatic, heapOk) =>
      var (n, k, outcome, _) := Memmap(s.m, s.kernel, va, None, pages, flags, isStatic, heapOk);
      (System(n, k, s.users), !outcome.Halts?)
    case Fault(current, va, present, queue) =>
      var user := if current.Some? then Some(s.users[current.value]) else None;
      var (n, k, u, reply) := HandleFault(s.m, s.kernel, user, Directories(s.users, queue), va, present);
      (System(n, k, if u.Some? && current.Some? then s.users[current.value := u.value] else s.users), reply.Retry?)
    case Unreserve(c, k) =>
      var (n, ctx, outcome) := FreeSpace(s.m, s.users[c], s.users[c].spaces[k].start);
      (System(n, s.kernel, s.users[c := ctx]), !outcome.Halts?)
    case Kill(c) =>
      var (n, outcome) := Destroy(s.m, s.users[c]);
      (System(n, s.kernel, s.users - {c}), outcome.Succeeded?)
  }

  /** The operation names things that exist. */
  predicate WellNamed(s: System, op: Op) {
    && s.m.usable <= |s.m.frames| && s.kernel.end <= VA_LIMIT
    && match op
       case CreateContext(c, _, _) => true
       case Reserve(c, _, _, _, _) => c in s.users && s.users[c].end <= VA_LIMIT
       case ReserveKernel(_, _, _, _, _) => true
       case Fault(current, va, _, queue) =>
         va < VA_LIMIT && (current.Some? ==> current.value in s.users) && forall c :: c in queue ==> c in s.users
       case Unreserve(c, k) => c in s.users && k < |s.users[c].spaces| && s.users[c].spaces[k].start < VA_LIMIT
       case Kill(c) => c in s.users
  }

  /** The directory that the processor translates through. */
  function CurrentPd(s: System, current: Option<nat>): nat
    requires current.Some? ==> current.value in s.users
  {
    if current.Some? then s.users[current.value].pd else s.kernel.pd
  }

  /** A reservation request that the caller may make: not empty, not a committed guard page (both are
      reported as bugs by kvmm_memmap), and, at a chosen address, not around an existing space. */
  predicate Reasonable(c: Context, va: nat, pages: nat, flags: Flags) {
    && pages > 0 && !(flags.nullPage && flags.immCommit)
    && (va != 0 ==> forall k :: 0 <= k < |c.spaces| ==>
          !StrictlyEncloses(Vas(va, pages * PAGE, flags, false), c.spaces[k]))
  }

  /** Context names are not reused while alive; a not-present fault is one the processor would raise;
      every process is queued while a fault is handled. */
  predicate Legal(s: System, op: Op) {
    && WellNamed(s, op)
    && match op
       case CreateContext(c, _, _) => c !in s.users
       case Reserve(c, va, pages, flags, _) => Reasonable(s.users[c], va, pages, flags)
       case ReserveKernel(va, pages, flags, _, _) => Reasonable(s.kernel, va, pages, flags)
       case Fault(current, va, present, queue) =>
         && (!present ==> Translate(s.m, CurrentPd(s, current), va / PAGE) == None)
         && forall c :: c in s.users ==> c in queue
       case Unreserve(c, k) => true
       case Kill(c) => true
  }

  /** The frames the boot frames record as USED are BOOT's, and no others. */
  ghost predicate BootOwned(o: Owners, boot: Frames) {
    && (forall f: nat :: f < |boot| && boot[f] == Used ==> Owns(o, f, BOOT))
    && (forall f: nat :: f in o && o[f] == BOOT ==> f < |boot| && boot[f] == Used)
  }

  /** o gives every allocated frame exactly one owner that reaches it, or that had it at boot. */
  ghost predicate Settled(s: System, o: Owners, boot: Frames) {
    Structural(s, o) && NoneLoose(o) && BootOwned(o, boot) && OnlyTaken(boot, s.m.frames)
  }

  ghost predicate Sane(s: System, boot: Frames) {
    exists o :: Settled(s, o, boot)
  }

  /** What an operation has to show: its new owners are no boot frames and none of the boot frames is gone. */
  ghost predicate BootKept(o: Owners, p: Owners) {
    && (forall f :: f in o && o[f] == BOOT ==> Owns(p, f, BOOT))
    && (forall f :: f in p && p[f] == BOOT ==> Owns(o, f, BOOT))
  }

  lemma Settles(s: System, o: Owners, boot: Frames, t: System, p: Owners)
    requires Settled(s, o, boot) && Structural(t, p) && NoneLoose(p) && BootKept(o, p) && OnlyTaken(s.m.frames, t.m.frames)
    ensures Settled(t, p, boot) && Sane(t, boot)
  {
    hide Structural, NoneLoose;
  }

  lemma ExtensionKeepsBoot(o: Owners, p: Owners, c: nat)
    requires Extended(o, p, c) || KernelExtended(o, p)
    ensures BootKept(o, p)
  {
  }

  lemma LossKeepsBoot(o: Owners, p: Owners, c: nat, v: nat, count: nat)
    requires LostContext(o, p, c) || LostPages(o, p, c, v, count)
    ensures BootKept(o, p) && (NoneLoose(o) ==> NoneLoose(p))
  {
  }

  // ---------------------------------------------------------------------------------------------
  // Reservations.
  // ---------------------------------------------------------------------------------------------

  /** Where kvmm_memmap puts a reasonable request, no existing space is enclosed. */
  lemma PlacedRequestEnclosesNothing(c: Context, va: nat, pages: nat, flags: Flags, isStatic: bool)
    requires WellFormed(c.spaces, c.start, c.end) && 0 < c.start <= c.end && c.start % PAGE == 0
    requires Reasonable(c, va, pages, flags)
    ensures var at := if va == 0 then FindNext(c.spaces, c.start, c.end, pages) else va;
            var vas := Vas(at, pages * PAGE, flags, isStatic);
            at >= c.start ==> forall k :: 0 <= k < |c.spaces| ==> !StrictlyEncloses(vas, c.spaces[k])
  {
    var at := if va == 0 then FindNext(c.spaces, c.start, c.end, pages) else va;
    var vas := Vas(at, pages * PAGE, flags, isStatic);
    if va == 0 && c.spaces != [] && at >= c.start {
      FindNextIsFirstFit(c.spaces, c.start, c.end, pages);
      forall k | 0 <= k < |c.spaces| ensures !StrictlyEncloses(vas, c.spaces[k]) {
        assert Inside(c.spaces[k], c.start, c.end);
      }
    } else {
      forall k | 0 <= k < |c.spaces| && at >= c.start ensures !StrictlyEncloses(vas, c.spaces[k]) {
        assert va != 0 ==> !StrictlyEncloses(Vas(va, pages * PAGE, flags, false), c.spaces[k]);
      }
    }
  }

  /** An accepted reservation keeps the list well formed and meets no reserved page. */
  lemma ReservationIsVacant(c: Context, va: nat, pages: nat, flags: Flags, isStatic: bool) returns (pos: nat)
    requires WellFormed(c.spaces, c.start, c.end) && 0 < c.start <= c.end && c.start % PAGE == 0
    requires Reasonable(c, va, pages, flags)
    ensures var at := if va == 0 then FindNext(c.spaces, c.start, c.end, pages) else va;
            var vas := Vas(at, pages * PAGE, flags, isStatic);
            var r := AddSpace(c.spaces, c.start, c.end, vas, true);
            r.Added? ==>
              && Inside(vas, c.start, c.end) && pos <= |c.spaces|
              && r.spaces == Insert(c.spaces, pos, vas) && WellFormed(r.spaces, c.start, c.end)
              && (forall k :: 0 <= k < |c.spaces| ==> Disjoint(vas, c.spaces[k]))
  {
    pos := 0;
    var at := if va == 0 then FindNext(c.spaces, c.start, c.end, pages) else va;
    var vas := Vas(at, pages * PAGE, flags, isStatic);
    var r := AddSpace(c.spaces, c.start, c.end, vas, true);
    if r.Added? {
      PlacedRequestEnclosesNothing(c, va, pages, flags, isStatic);
      AddSpaceIsExact(c.spaces, c.start, c.end, vas);
      pos :| 0 <= pos <= |c.spaces| && r.spaces == Insert(c.spaces, pos, vas) && WellFormed(r.spaces, c.start, c.end);
    }
  }

  /** The list of a process context with one more space. */
  lemma UserListGrows(s: System, o: Owners, c: nat, pos: nat, vas: Vas)
    requires Structural(s, o) && c in s.users && pos <= |s.users[c].spaces| && !vas.isStatic
    requires WellFormed(Insert(s.users[c].spaces, pos, vas), s.users[c].start, s.users[c].end)
    requires Inside(vas, s.users[c].start, s.users[c].end)
    requires forall k :: 0 <= k < |s.users[c].spaces| ==> Disjoint(vas, s.users[c].spaces[k])
    ensures var ctx := s.users[c].(spaces := Insert(s.users[c].spaces, pos, vas));
            && Structural(s.(users := s.users[c := ctx]), o)
            && vas.start / PAGE + vas.size / PAGE <= USER_PAGES
            && (!vas.flags.nullPage ==> Vacant(s.m, ctx, vas.start / PAGE, vas.size / PAGE))
  {
    hide KernelMemory, BackLink, Accounts, Translate, WellFormed, Insert;
    var was := s.users[c];
    var ctx := was.(spaces := Insert(was.spaces, pos, vas));
    assert UserOk(s, o, c);
    forall v | 0 <= v < USER_PAGES && Translate(s.m, ctx.pd, v).Some?
      ensures Backable(ctx.spaces, v) && !(vas.start / PAGE <= v < vas.start / PAGE + vas.size / PAGE)
    {
      var k :| 0 <= k < |was.spaces| && was.spaces[k].Covers(v * PAGE) && !was.spaces[k].flags.nullPage;
      InsertAt(was.spaces, pos, vas, k);
      CoveredPage(vas, v);
    }
    assert vas.start / PAGE + vas.size / PAGE <= USER_PAGES by {
      CoveredPage(vas, 0);
    }
    InsertMembers(was.spaces, pos, vas);
    forall k | 0 <= k < |ctx.spaces| ensures !ctx.spaces[k].isStatic {
      assert ctx.spaces[k] in ctx.spaces;
    }
    ContextChanged(s, o, c, ctx);
    forall w | vas.start / PAGE <= w < vas.start / PAGE + vas.size / PAGE && !vas.flags.nullPage
      ensures Translate(s.m, ctx.pd, w) == None && Backable(ctx.spaces, w)
    {
      CoveredPage(vas, w);
      InsertMembers(was.spaces, pos, vas);
    }
  }

  lemma KernelListGrows(s: System, o: Owners, pos: nat, vas: Vas)
    requires Structural(s, o) && pos <= |s.kernel.spaces|
    requires WellFormed(Insert(s.kernel.spaces, pos, vas), s.kernel.start, s.kernel.end)
    requires Inside(vas, s.kernel.start, s.kernel.end)
    requires forall k :: 0 <= k < |s.kernel.spaces| ==> Disjoint(vas, s.kernel.spaces[k])
    ensures var k := s.kernel.(spaces := Insert(s.kernel.spaces, pos, vas));
            && Structural(s.(kernel := k), o)
            && USER_PAGES <= vas.start / PAGE && vas.start / PAGE + vas.size / PAGE <= MAPPABLE
            && (!vas.flags.nullPage ==> KernelVacant(s.m, k, vas.start / PAGE, vas.size / PAGE))
  {
    var was := s.kernel;
    var ctx := was.(spaces := Insert(was.spaces, pos, vas));
    assert vas.start / PAGE + vas.size / PAGE <= MAPPABLE && USER_PAGES <= vas.start / PAGE by {
      CoveredPage(vas, 0);
    }
    forall v: nat | Backable(was.spaces, v) ensures Backable(ctx.spaces, v) {
      var k :| 0 <= k < |was.spaces| && was.spaces[k].Covers(v * PAGE) && !was.spaces[k].flags.nullPage;
      InsertAt(was.spaces, pos, vas, k);
    }
    KernelChanged(s, o, ctx);
    forall w | vas.start / PAGE <= w < vas.start / PAGE + vas.size / PAGE && !vas.flags.nullPage
      ensures Translate(s.m, ctx.pd, w) == None && Backable(ctx.spaces, w)
    {
      CoveredPage(vas, w);
      InsertMembers(was.spaces, pos, vas);
      assert !Backable(was.spaces, w) by {
        forall k | 0 <= k < |was.spaces| ensures !was.spaces[k].Covers(w * PAGE) {
          assert Disjoint(vas, was.spaces[k]) && vas.Covers(w * PAGE);
        }
      }
    }
  }

  /** kvmm_memmap in a process. */
  lemma ReserveKeeps(s: System, o: Owners, boot: Frames, c: nat, va: nat, pages: nat, flags: Flags, heapOk: bool)
    requires Settled(s, o, boot) && Coherent(s) && c in s.users && s.users[c].end <= VA_LIMIT
    requires Reasonable(s.users[c], va, pages, flags)
    ensures var (n, ctx, outcome, _) := Memmap(s.m, s.users[c], va, None, pages, flags, false, heapOk);
            !outcome.Halts? ==>
              var t := System(n, s.kernel, s.users[c := ctx]);
              Sane(t, boot) && Coherent(t)
  {
    hide Commit, Structural, AddSpace, FindNext, BootOwned, BootKept, OnlyTaken, NoneLoose;
    var u := s.users[c];
    UserShapeOf(s, o, c);
    MemmapTakes(s.m, u, va, pages, flags, false, heapOk);
    var (n, ctx, outcome, _) := Memmap(s.m, u, va, None, pages, flags, false, heapOk);
    var at := if va == 0 then FindNext(u.spaces, u.start, u.end, pages) else va;
    var vas := Vas(at, pages * PAGE, flags, false);
    var t := System(n, s.kernel, s.users[c := ctx]);
    match AddSpace(u.spaces, u.start, u.end, vas, heapOk)
    case NotAdded(_) =>
      assert t == s;
    case Added(spaces) =>
      AddedNeedsHeap(u.spaces, u.start, u.end, vas, heapOk);
      var pos := ReservationIsVacant(u, va, pages, flags, false);
      UserListGrows(s, o, c, pos, vas);
      var grown := s.(users := s.users[c := u.(spaces := spaces)]);
      if !flags.immCommit {
        assert t == grown;
        SameOwners(s, o, boot, t);
      } else {
        PageAddress(at / PAGE);
        SizeInPages(pages);
        assert at == at / PAGE * PAGE;
        var p := CommitUserPages(grown, o, c, at / PAGE, pages);
        assert grown.users[c := ctx] == s.users[c := ctx];
        if outcome.Succeeded? {
          ExtensionKeepsBoot(o, p, c);
          Settles(s, o, boot, t, p);
        } else if outcome.Failed? {
          assert t == grown;
          SameOwners(s, o, boot, t);
        }
      }
  }

  /** The owners stay as they are. */
  lemma SameOwners(s: System, o: Owners, boot: Frames, t: System)
    requires Settled(s, o, boot) && Structural(t, o) && OnlyTaken(s.m.frames, t.m.frames)
    ensures Settled(t, o, boot) && Sane(t, boot)
  {
    hide Structural, NoneLoose;
    assert BootKept(o, o);
    Settles(s, o, boot, t, o);
  }

  lemma SizeInPages(pages: nat)
    ensures pages * PAGE / PAGE == pages
  {
  }

  lemma UserShapeOf(s: System, o: Owners, c: nat)
    requires Structural(s, o) && c in s.users
    ensures UserShape(s.users[c])
  {
    assert UserOk(s, o, c);
  }

  lemma KernelShapeOf(s: System, o: Owners)
    requires Structural(s, o)
    ensures KernelShape(s.kernel)
  {
  }

  lemma AddedNeedsHeap(spaces: seq<Vas>, start: nat, end: nat, vas: Vas, heapOk: bool)
    requires AddSpace(spaces, start, end, vas, heapOk).Added?
    ensures AddSpace(spaces, start, end, vas, heapOk) == AddSpace(spaces, start, end, vas, true)
    ensures vas.start % PAGE == 0
  {
  }

  /** kvmm_memmap in the kernel. */
  lemma ReserveKernelKeeps(s: System, o: Owners, boot: Frames, va: nat, pages: nat, flags: Flags, isStatic: bool, heapOk: bool)
    requires Settled(s, o, boot) && Coherent(s) && s.kernel.end <= VA_LIMIT
    requires Reasonable(s.kernel, va, pages, flags)
    ensures var (n, k, outcome, _) := Memmap(s.m, s.kernel, va, None, pages, flags, isStatic, heapOk);
            !outcome.Halts? ==> Sane(System(n, k, s.users), boot) && Coherent(System(n, k, s.users))
  {
    hide Commit, Structural, AddSpace, FindNext, BootOwned, BootKept, OnlyTaken, NoneLoose;
    var u := s.kernel;
    KernelShapeOf(s, o);
    MemmapTakes(s.m, u, va, pages, flags, isStatic, heapOk);
    var (n, k, outcome, _) := Memmap(s.m, u, va, None, pages, flags, isStatic, heapOk);
    var at := if va == 0 then FindNext(u.spaces, u.start, u.end, pages) else va;
    var vas := Vas(at, pages * PAGE, flags, isStatic);
    var t := System(n, k, s.users);
    match AddSpace(u.spaces, u.start, u.end, vas, heapOk)
    case NotAdded(_) =>
      assert t == s;
    case Added(spaces) =>
      AddedNeedsHeap(u.spaces, u.start, u.end, vas, heapOk);
      var pos := ReservationIsVacant(u, va, pages, flags, isStatic);
      KernelListGrows(s, o, pos, vas);
      var grown := s.(kernel := u.(spaces := spaces));
      if !flags.immCommit {
        assert t == grown;
        SameOwners(s, o, boot, t);
      } else {
        PageAddress(at / PAGE);
        SizeInPages(pages);
        assert at == at / PAGE * PAGE;
        var p := CommitKernelPages(grown, o, at / PAGE, pages);
        if outcome.Succeeded? {
          ExtensionKeepsBoot(o, p, 0);
          Settles(s, o, boot, t, p);
        } else if outcome.Failed? {
          assert t == grown;
          SameOwners(s, o, boot, t);
        }
      }
  }

  // ---------------------------------------------------------------------------------------------
  // Faults.
  // ---------------------------------------------------------------------------------------------

  /** All directories synchronised; the flag may be anything. */
  lemma SyncedIsCoherent(s: System, o: Owners, boot: Frames, queue: seq<nat>, flag: bool)
    requires Settled(s, o, boot)
    requires (forall c :: c in queue ==> c in s.users) && (forall c :: c in s.users ==> c in queue)
    ensures var n := SyncAll(s.m, Directories(s.users, queue), s.kernel.pd);
            var t := System(n, s.kernel.(dirty := flag), s.users);
            Sane(t, boot) && Coherent(t)
  {
    hide Structural;
    SyncEveryone(s, o, queue);
    var n := SyncAll(s.m, Directories(s.users, queue), s.kernel.pd);
    KernelChanged(s.(m := n), o, s.kernel.(dirty := flag));
    assert s.(m := n).(kernel := s.kernel.(dirty := flag)) == System(n, s.kernel.(dirty := flag), s.users);
    SameOwners(s, o, boot, System(n, s.kernel.(dirty := flag), s.users));
  }

  /** The page of an address that a space of the kernel covers. */
  lemma KernelFaultPage(k: Context, va: nat, j: nat)
    requires KernelShape(k) && va < VA_LIMIT && j < |k.spaces| && k.spaces[j].Covers(va)
    ensures var v := va / PAGE;
            USER_PAGES <= v && v + 1 <= MAPPABLE && InBounds(k, va) && (!k.spaces[j].flags.nullPage ==> Backable(k.spaces, v))
  {
    var vas := k.spaces[j];
    assert Inside(vas, k.start, k.end);
    CoveredPage(vas, va / PAGE);
    assert vas.Covers(va / PAGE * PAGE) by {
      assert vas.start / PAGE <= va / PAGE < vas.End() / PAGE;
    }
  }

  lemma UserFaultPage(u: Context, va: nat, j: nat)
    requires UserShape(u) && va < VA_LIMIT && j < |u.spaces| && u.spaces[j].Covers(va)
    requires !u.spaces[j].flags.nullPage
    ensures var v := va / PAGE; v + 1 <= USER_PAGES && Backable(u.spaces, v)
  {
    var vas := u.spaces[j];
    assert Inside(vas, u.start, u.end);
    CoveredPage(vas, va / PAGE);
    assert vas.Covers(va / PAGE * PAGE) by {
      assert vas.start / PAGE <= va / PAGE < vas.End() / PAGE;
    }
  }

  /** kvmm_commitPage in the kernel context on an address that the kernel does not translate. */
  lemma CommitKernelFault(s: System, o: Owners, va: nat) returns (p: Owners)
    requires Structural(s, o) && NoneLoose(o) && va < VA_LIMIT
    requires va / PAGE < MAPPABLE ==> Translate(s.m, s.kernel.pd, va / PAGE) == None
    ensures var (n, k, outcome) := CommitPage(s.m, s.kernel, va);
            match outcome
            case Halts => true
            case Failed(_) => n == s.m && k == s.kernel
            case Succeeded =>
              && k == s.kernel.(dirty := true) && Structural(System(n, k, s.users), p) && NoneLoose(p) && KernelExtended(o, p)
              && va / PAGE < MAPPABLE && Translate(n, k.pd, va / PAGE).Some?
  {
    hide Commit, Structural;
    p := o;
    KernelShapeOf(s, o);
    match FindVas(s.kernel.spaces, va, 0)
    case None =>
    case Some(j) =>
      KernelFaultPage(s.kernel, va, j);
      if !s.kernel.spaces[j].flags.nullPage {
        assert KernelVacant(s.m, s.kernel, va / PAGE, 1);
        p := CommitKernelPages(s, o, va / PAGE, 1);
      }
  }

  /** kvmm_commitPage in a process on an address that it does not translate. */
  lemma CommitUserFault(s: System, o: Owners, c: nat, va: nat) returns (p: Owners)
    requires Structural(s, o) && NoneLoose(o) && c in s.users && va < VA_LIMIT
    requires Translate(s.m, s.users[c].pd, va / PAGE) == None
    ensures var (n, u, outcome) := CommitPage(s.m, s.users[c], va);
            match outcome
            case Halts => true
            case Failed(_) => n == s.m && u == s.users[c]
            case Succeeded =>
              && u == s.users[c].(dirty := true) && Structural(System(n, s.kernel, s.users[c := u]), p) && NoneLoose(p)
              && Extended(o, p, c) && HalvesKept(s, n) && va / PAGE < USER_PAGES && Translate(n, u.pd, va / PAGE).Some?
  {
    hide Commit, Structural;
    p := o;
    UserShapeOf(s, o, c);
    match FindVas(s.users[c].spaces, va, 0)
    case None =>
    case Some(j) =>
      if !s.users[c].spaces[j].flags.nullPage {
        UserFaultPage(s.users[c], va, j);
        assert Vacant(s.m, s.users[c], va / PAGE, 1);
        p := CommitUserPages(s, o, c, va / PAGE, 1);
      }
  }

  /** With a clean flag, a page that the current directory lacks is a page that the kernel lacks. */
  lemma CurrentLacksMeansKernelLacks(s: System, current: Option<nat>, va: nat)
    requires Coherent(s) && !s.kernel.dirty && va < VA_LIMIT && USER_PAGES <= va / PAGE < MAPPABLE
    requires current.Some? ==> current.value in s.users
    requires Translate(s.m, CurrentPd(s, current), va / PAGE) == None
    ensures Translate(s.m, s.kernel.pd, va / PAGE) == None
  {
    if current.Some? {
      InStepSeesKernel(s.m, s.users[current.value].pd, s.kernel.pd, va / PAGE);
    }
  }

  /** page_fault_handler. */
  lemma FaultKeeps(s: System, o: Owners, boot: Frames, current: Option<nat>, va: nat, present: bool, queue: seq<nat>)
    requires Settled(s, o, boot) && Coherent(s) && Legal(s, Fault(current, va, present, queue))
    requires Step(s, Fault(current, va, present, queue)).1
    ensures var t := Step(s, Fault(current, va, present, queue)).0; Sane(t, boot) && Coherent(t)
  {
    hide Structural, CommitPage, BootOwned, BootKept, OnlyTaken, NoneLoose;
    var user := if current.Some? then Some(s.users[current.value]) else None;
    var pds := Directories(s.users, queue);
    var t := Step(s, Fault(current, va, present, queue)).0;
    var same := if current.Some? then s.users[current.value := s.users[current.value]] else s.users;
    assert same == s.users;
    FaultTakes(s.m, s.kernel, user, pds, va, present);
    if InBounds(s.kernel, va) && s.kernel.dirty {
      SyncedIsCoherent(s, o, boot, queue, false);
    } else if InBounds(s.kernel, va) || user.None? {
      var k := if InBounds(s.kernel, va) then s.kernel.(dirty := false) else s.kernel;
      assert k == s.kernel;
      KernelFaultIsLacking(s, o, current, va);
      var p := CommitKernelFault(s, o, va);
      var (m1, k1, outcome) := CommitPage(s.m, k, va);
      var s1 := System(m1, k1, s.users);
      ExtensionKeepsBoot(o, p, 0);
      Settles(s, o, boot, s1, p);
      SyncedIsCoherent(s1, p, boot, queue, true);
    } else {
      var c := current.value;
      var p := CommitUserFault(s, o, c, va);
      ExtensionKeepsBoot(o, p, c);
      Settles(s, o, boot, t, p);
      CoherentWhenHalvesKept(s, t);
    }
  }

  lemma KernelFaultIsLacking(s: System, o: Owners, current: Option<nat>, va: nat)
    requires Structural(s, o) && Coherent(s) && va < VA_LIMIT && (current.Some? ==> current.value in s.users)
    requires Translate(s.m, CurrentPd(s, current), va / PAGE) == None
    requires if InBounds(s.kernel, va) then !s.kernel.dirty else current.None?
    ensures Translate(s.m, s.kernel.pd, va / PAGE) == None
  {
    KernelShapeOf(s, o);
    if InBounds(s.kernel, va) {
      assert USER_PAGES <= va / PAGE < MAPPABLE;
      CurrentLacksMeansKernelLacks(s, current, va);
    }
  }

  lemma CoherentWhenHalvesKept(s: System, t: System)
    requires Coherent(s) && HalvesKept(s, t.m) && t.kernel == s.kernel && t.users.Keys <= s.users.Keys
    requires forall c :: c in t.users ==> t.users[c].pd == s.users[c].pd
    ensures Coherent(t)
  {
  }

  // ---------------------------------------------------------------------------------------------
  // Contexts come and go.
  // ---------------------------------------------------------------------------------------------

  /** A context that kvmm_new could not complete leaves no trace in the frame states. */
  lemma CreateKeeps(s: System, o: Owners, boot: Frames, c: nat, stale: bool, heapOk: bool)
    requires Settled(s, o, boot) && Coherent(s) && Legal(s, CreateContext(c, stale, heapOk))
    ensures var (t, running) := Step(s, CreateContext(c, stale, heapOk));
            && running && Sane(t, boot) && Coherent(t)
            && (!heapOk ==> t.m.frames == s.m.frames && t.users == s.users)
  {
    hide Structural, DeletePd, BootOwned, OnlyTaken, SetUpTable;
    StructureIsSized(s, o);
    AllocTakesLowestRun(s.m.frames, s.m.usable, 1);
    CreateUser(s, o, c, stale);
    NewPdTakes(s.m, s.kernel.pd);
    var (n, reply, pd) := NewPd(s.m, s.kernel.pd);
    if reply.Done? {
      var ctx, p := NewContext(pd, stale), o[pd := DirectoryOf(c)];
      var t := System(n, s.kernel, s.users[c := ctx]);
      assert Coherent(t);
      if heapOk {
        assert NoneLoose(p) && BootKept(o, p);
        Settles(s, o, boot, t, p);
      } else {
        NothingLeft(t, p, c);
        var q := DeleteUserPd(t, p, c);
        StructureIsSized(t, p);
        var (n1, _) := DeletePd(n, pd, true);
        assert (s.users[c := ctx]) - {c} == s.users;
        assert System(n1, s.kernel, s.users) == s.(m := n1);
        UndoneCreation(s, o, c, q, n1, pd, n);
        SameFramesSettle(s, o, boot, s.(m := n1), q);
        CoherentWhenHalvesKept(s, s.(m := n1));
      }
    } else {
      assert s.(m := n) == s;
    }
  }

  lemma SameFramesSettle(s: System, o: Owners, boot: Frames, t: System, q: Owners)
    requires Settled(s, o, boot) && Structural(t, q) && t.m.frames == s.m.frames && q == o
    ensures Sane(t, boot)
  {
    hide Structural;
    assert Settled(t, q, boot);
  }

  lemma UndoneCreation(s: System, o: Owners, c: nat, q: Owners, n1: Machine, pd: nat, n: Machine)
    requires Structural(s, o) && NoneLoose(o) && c !in s.users && pd !in o
    requires LostContext(o[pd := DirectoryOf(c)], q, c) && Returned(n, n1, o[pd := DirectoryOf(c)], q)
    requires pd < |s.m.frames| && s.m.frames[pd] == Free && n.frames == s.m.frames[pd := Used]
    ensures n1.frames == s.m.frames && q == o
  {
    forall f | f in o ensures !o[f].Of(c) && f in q {
      assert BackLink(s.m, s.users, f, o[f]);
    }
    assert pd !in q;
  }

  // ---------------------------------------------------------------------------------------------
  // Every reachable state.
  // ---------------------------------------------------------------------------------------------

  lemma UnreserveKeeps(s: System, o: Owners, boot: Frames, c: nat, k: nat)
    requires Settled(s, o, boot) && Coherent(s) && Legal(s, Unreserve(c, k))
    ensures var (t, running) := Step(s, Unreserve(c, k)); running && Sane(t, boot) && Coherent(t)
  {
    hide Structural, FreeSpace, BootOwned, BootKept, OnlyTaken, NoneLoose, LostPages;
    var vas := s.users[c].spaces[k];
    var p := FreeUserSpace(s, o, c, k);
    FreeSpaceTakes(s.m, s.users[c], vas.start);
    var t := Step(s, Unreserve(c, k)).0;
    LossKeepsBoot(o, p, c, vas.start / PAGE, vas.size / PAGE);
    Settles(s, o, boot, t, p);
    CoherentWhenHalvesKept(s, t);
  }

  lemma KillKeeps(s: System, o: Owners, boot: Frames, c: nat)
    requires Settled(s, o, boot) && Coherent(s) && Legal(s, Kill(c))
    ensures var (t, running) := Step(s, Kill(c)); running && Sane(t, boot) && Coherent(t)
  {
    hide Structural, Destroy, BootOwned, BootKept, OnlyTaken, NoneLoose, LostContext;
    var p := DestroyUser(s, o, c);
    DestroyTakes(s.m, s.users[c]);
    var t := Step(s, Kill(c)).0;
    LossKeepsBoot(o, p, c, 0, 0);
    Settles(s, o, boot, t, p);
    CoherentWhenHalvesKept(s, t);
  }

  /** Every operation keeps ownership and coherence. */
  lemma StepKeeps(s: System, boot: Frames, op: Op)
    requires Sane(s, boot) && Coherent(s) && Legal(s, op) && Step(s, op).1
    ensures Sane(Step(s, op).0, boot) && Coherent(Step(s, op).0)
  {
    hide Settled, Step, Legal;
    var o :| Settled(s, o, boot);
    match op
    case CreateContext(c, stale, heapOk) => CreateKeeps(s, o, boot, c, stale, heapOk);
    case Reserve(c, va, pages, flags, heapOk) => ReserveStep(s, o, boot, op);
    case ReserveKernel(va, pages, flags, isStatic, heapOk) => ReserveStep(s, o, boot, op);
    case Fault(current, va, present, queue) => FaultKeeps(s, o, boot, current, va, present, queue);
    case Unreserve(c, k) => UnreserveKeeps(s, o, boot, c, k);
    case Kill(c) => KillKeeps(s, o, boot, c);
  }

  lemma ReserveStep(s: System, o: Owners, boot: Frames, op: Op)
    requires Settled(s, o, boot) && Coherent(s) && Legal(s, op) && Step(s, op).1
    requires op.Reserve? || op.ReserveKernel?
    ensures Sane(Step(s, op).0, boot) && Coherent(Step(s, op).0)
  {
    hide Settled, Memmap;
    if op.Reserve? {
      ReserveKeeps(s, o, boot, op.c, op.va, op.pages, op.flags, op.heapOk);
    } else {
      ReserveKernelKeeps(s, o, boot, op.va, op.pages, op.flags, op.isStatic, op.heapOk);
    }
  }

  /** t is reached from s by legal operations, the kernel running throughout. */
  ghost predicate Reaches(s: System, ops: seq<Op>, t: System)
    decreases |ops|
  {
    if ops == [] then t == s
    else Legal(s, ops[0]) && Step(s, ops[0]).1 && Reaches(Step(s, ops[0]).0, ops[1..], t)
  }

  /** In every reachable state each allocated frame has exactly one owner, and every process directory
      equals the kernel's on the kernel half unless the kernel context is dirty. */
  lemma {:induction false} ReachableStatesAreCoherent(s: System, boot: Frames, ops: seq<Op>, t: System)
    requires Sane(s, boot) && Coherent(s) && Reaches(s, ops, t)
    ensures Sane(t, boot) && Coherent(t)
    decreases |ops|
  {
    hide Sane, Coherent, Step;
    if ops != [] {
      StepKeeps(s, boot, ops[0]);
      ReachableStatesAreCoherent(Step(s, ops[0]).0, boot, ops[1..], t);
    }
  }

  /** With clean flag and any history, a process reads the kernel's memory exactly as the kernel does. */
  lemma CleanMeansSharedKernel(s: System, boot: Frames, ops: seq<Op>, t: System, c: nat, v: nat)
    requires Sane(s, boot) && Coherent(s) && Reaches(s, ops, t)
    requires !t.kernel.dirty && c in t.users && USER_PAGES <= v < MAPPABLE
    ensures Translate(t.m, t.users[c].pd, v) == Translate(t.m, t.kernel.pd, v)
  {
    ReachableStatesAreCoherent(s, boot, ops, t);
    InStepSeesKernel(t.m, t.users[c].pd, t.kernel.pd, v);
  }

  /** The end of a process gives back exactly the frames that were its own: its directory, its tables
      and its pages become FREE, no other frame changes state, and nobody else's memory is touched. */
  lemma KillReturnsFrames(s: System, o: Owners, c: nat)
    requires Structural(s, o) && Legal(s, Kill(c))
    ensures var (t, running) := Step(s, Kill(c));
            && running && |t.m.frames| == |s.m.frames|
            && (forall f :: 0 <= f < |s.m.frames| ==>
                  t.m.frames[f] == if f in o && o[f].Of(c) then Free else s.m.frames[f])
            && (exists p :: Structural(t, p) && LostContext(o, p, c))
  {
    hide Structural, Destroy;
    var p := DestroyUser(s, o, c);
  }

  // ---------------------------------------------------------------------------------------------
  // Demand paging.
  // ---------------------------------------------------------------------------------------------

  /** The frame supply of one commit: a page and perhaps a page table. */
  ghost predicate TwoFree(m: Machine) {
    exists f, g :: 0 <= f < g < |m.frames| && m.frames[f] == Free && m.frames[g] == Free
  }

  lemma CommitHasFrames(m: Machine, c: Context, v: nat)
    requires m.Sized() && TwoFree(m) && Sound(m, c.pd) && v < MAPPABLE && Translate(m, c.pd, v) == None
    ensures v * PAGE + 1 * PAGE <= VA_LIMIT
    ensures Commit(m, c, v * PAGE, None, 1).2.Succeeded?
  {
    hide MapPages, MapRun, MapPage, Commit;
    var f, g :| 0 <= f < g < |m.frames| && m.frames[f] == Free && m.frames[g] == Free;
    AllocOneFrame(m);
    CommitInSteps(m, c, v, 1);
    var (after, got, at) := Alloc(m.frames, m.usable, 1);
    var m1 := m.With(after);
    assert after[if at == f then g else f] == Free;
    OnePageRun(m1, c.pd, v, at);
    assert Sound(m1, c.pd) by {
      assert forall k :: m.Owned(k) ==> m1.Owned(k);
      assert forall k: nat, j: nat :: j < 1024 ==> m1.At(k, j) == m.At(k, j);
    }
    assert Translate(m1, c.pd, v) == None;
    MapChangesOnePage(m1, c.pd, v, at);
  }

  lemma OnePageRun(m: Machine, pd: nat, v: nat, f: nat)
    requires v < MAPPABLE
    ensures MapRun(m, pd, v, f, 1) == MapPage(m, pd, v, f)
  {
    hide MapPage;
    var (m1, reply) := MapPage(m, pd, v, f);
    assert reply.Mapped? ==> MapRun(m1, pd, v + 1, f + 1, 0) == (m1, Mapped);
  }

  /** The address lies in a space that is backed on demand. */
  ghost predicate OnDemand(c: Context, va: nat) {
    var k := FindVas(c.spaces, va, 0);
    k.Some? && var flags := c.spaces[k.value].flags; !flags.immCommit && !flags.committed && !flags.nullPage
  }

  /** One handler run resolves a not-present fault on a lazily reserved address of the process. */
  lemma UserFaultIsResolved(s: System, o: Owners, c: nat, va: nat, queue: seq<nat>)
    requires Structural(s, o) && NoneLoose(o) && Legal(s, Fault(Some(c), va, false, queue))
    requires !InBounds(s.kernel, va) && OnDemand(s.users[c], va) && TwoFree(s.m)
    ensures var (t, running) := Step(s, Fault(Some(c), va, false, queue));
            running && c in t.users && Translate(t.m, t.users[c].pd, va / PAGE).Some?
  {
    hide Structural, Commit;
    StructureIsSized(s, o);
    UserIsSound(s, o, c);
    UserShapeOf(s, o, c);
    var j := FindVas(s.users[c].spaces, va, 0).value;
    UserFaultPage(s.users[c], va, j);
    CommitHasFrames(s.m, s.users[c], va / PAGE);
    var p := CommitUserFault(s, o, c, va);
  }

  /** A not-present kernel fault of a process while the flag is clean: one handler run maps the page in
      the kernel directory and shows it to every process. */
  lemma KernelFaultIsResolved(s: System, o: Owners, c: nat, va: nat, queue: seq<nat>)
    requires Structural(s, o) && NoneLoose(o) && Coherent(s) && Legal(s, Fault(Some(c), va, false, queue))
    requires OnDemand(s.kernel, va) && TwoFree(s.m) && !s.kernel.dirty
    ensures var (t, running) := Step(s, Fault(Some(c), va, false, queue));
            running && va / PAGE < MAPPABLE && t.users == s.users
            && Translate(t.m, t.users[c].pd, va / PAGE).Some?
            && Translate(t.m, t.kernel.pd, va / PAGE) == Translate(t.m, t.users[c].pd, va / PAGE)
  {
    hide Structural, Commit, SyncAll;
    StructureIsSized(s, o);
    KernelShapeOf(s, o);
    var j := FindVas(s.kernel.spaces, va, 0).value;
    KernelFaultPage(s.kernel, va, j);
    KernelFaultIsLacking(s, o, Some(c), va);
    KernelIsSound(s, o);
    CommitHasFrames(s.m, s.kernel, va / PAGE);
    var p := CommitKernelFault(s, o, va);
    var (m1, k1, outcome) := CommitPage(s.m, s.kernel.(dirty := false), va);
    assert s.kernel.(dirty := false) == s.kernel;
    var s1 := System(m1, k1, s.users);
    SyncEveryone(s1, p, queue);
    SyncKeepsKernel(s1, p, queue, va / PAGE);
    var n := SyncAll(m1, Directories(s.users, queue), k1.pd);
    InStepSeesKernel(n, s.users[c].pd, k1.pd, va / PAGE);
    assert s.users[c := s.users[c]] == s.users;
  }

  lemma KernelIsSound(s: System, o: Owners)
    requires Structural(s, o)
    ensures Sound(s.m, s.kernel.pd)
  {
  }

  /** A fault while the flag is set: the run synchronises, resets the flag and changes no kernel page, so
      a stale kernel mapping becomes visible at once. */
  lemma DirtyFaultSynchronises(s: System, o: Owners, c: nat, va: nat, queue: seq<nat>)
    requires Structural(s, o) && Legal(s, Fault(Some(c), va, false, queue))
    requires InBounds(s.kernel, va) && s.kernel.dirty && va / PAGE < MAPPABLE
    ensures var (t, running) := Step(s, Fault(Some(c), va, false, queue));
            && running && t.users == s.users && t.m.frames == s.m.frames && t.kernel == s.kernel.(dirty := false)
            && Structural(t, o)
            && Translate(t.m, t.kernel.pd, va / PAGE) == Translate(s.m, s.kernel.pd, va / PAGE)
            && Translate(t.m, t.users[c].pd, va / PAGE) == Translate(s.m, s.kernel.pd, va / PAGE)
  {
    hide Structural;
    KernelShapeOf(s, o);
    SyncEveryone(s, o, queue);
    SyncKeepsKernel(s, o, queue, va / PAGE);
    var n := SyncAll(s.m, Directories(s.users, queue), s.kernel.pd);
    InStepSeesKernel(n, s.users[c].pd, s.kernel.pd, va / PAGE);
    KernelChanged(s.(m := n), o, s.kernel.(dirty := false));
    assert s.(m := n).(kernel := s.kernel.(dirty := false)) == System(n, s.kernel.(dirty := false), s.users);
    assert s.users[c := s.users[c]] == s.users;
  }

  /** A process's not-present fault on demand-backed kernel memory, or on a kernel page it has not seen
      yet, is resolved after at most two handler runs. */
  lemma KernelFaultTakesAtMostTwoRuns(s: System, boot: Frames, c: nat, va: nat, queue: seq<nat>)
    requires Sane(s, boot) && Coherent(s) && Legal(s, Fault(Some(c), va, false, queue)) && InBounds(s.kernel, va)
    requires TwoFree(s.m) && va / PAGE < MAPPABLE
    requires OnDemand(s.kernel, va) || Translate(s.m, s.kernel.pd, va / PAGE).Some?
    ensures var fault := Fault(Some(c), va, false, queue);
            var (t, running) := Step(s, fault);
            && running && c in t.users
            && (Translate(t.m, t.users[c].pd, va / PAGE) == None ==>
                  && Legal(t, fault)
                  && var (t2, again) := Step(t, fault);
                     again && c in t2.users && Translate(t2.m, t2.users[c].pd, va / PAGE).Some?)
  {
    hide Structural, Step;
    var fault := Fault(Some(c), va, false, queue);
    var o :| Settled(s, o, boot);
    if s.kernel.dirty {
      DirtyFaultSynchronises(s, o, c, va, queue);
      var t := Step(s, fault).0;
      if Translate(t.m, t.users[c].pd, va / PAGE) == None {
        SyncedStateIsCoherent(s, o, boot, c, va, queue);
        StructureIsSized(t, o);
        KernelFaultIsResolved(t, o, c, va, queue);
      }
    } else {
      CleanFaultIsOnDemand(s, boot, c, va, queue);
      KernelFaultIsResolved(s, o, c, va, queue);
    }
  }

  lemma SyncedStateIsCoherent(s: System, o: Owners, boot: Frames, c: nat, va: nat, queue: seq<nat>)
    requires Settled(s, o, boot) && Legal(s, Fault(Some(c), va, false, queue))
    requires InBounds(s.kernel, va) && s.kernel.dirty
    ensures Coherent(Step(s, Fault(Some(c), va, false, queue)).0)
  {
    hide Structural;
    SyncedIsCoherent(s, o, boot, queue, false);
    assert s.users[c := s.users[c]] == s.users;
  }

  lemma CleanFaultIsOnDemand(s: System, boot: Frames, c: nat, va: nat, queue: seq<nat>)
    requires Coherent(s) && !s.kernel.dirty && Sane(s, boot) && Legal(s, Fault(Some(c), va, false, queue)) && InBounds(s.kernel, va)
    requires va / PAGE < MAPPABLE && (OnDemand(s.kernel, va) || Translate(s.m, s.kernel.pd, va / PAGE).Some?)
    ensures OnDemand(s.kernel, va)
  {
    hide Structural;
    var o :| Settled(s, o, boot);
    KernelFaultIsLacking(s, o, Some(c), va);
  }

  /** A fault on a guard page of a process is fatal and changes nothing. */
  lemma GuardFaultIsFatal(s: System, c: nat, va: nat, queue: seq<nat>)
    requires Legal(s, Fault(Some(c), va, false, queue)) && !InBounds(s.kernel, va)
    requires var k := FindVas(s.users[c].spaces, va, 0); k.Some? && s.users[c].spaces[k.value].flags.nullPage
    ensures var (t, running) := Step(s, Fault(Some(c), va, false, queue)); !running && t == s
  {
    hide Commit;
    assert s.users[c := s.users[c]] == s.users;
  }

  /** A not-present fault on a guard page of the kernel, whoever runs: with a clean flag it is fatal and
      changes nothing. With the flag set, the run does no more than synchronise and reset the flag, and the
      fault is fatal when it comes again. */
  lemma KernelGuardFaultIsFatal(s: System, current: Option<nat>, va: nat, queue: seq<nat>)
    requires KernelShape(s.kernel) && WellNamed(s, Fault(current, va, false, queue))
    requires var k := FindVas(s.kernel.spaces, va, 0); k.Some? && s.kernel.spaces[k.value].flags.nullPage
    ensures var fault := Fault(current, va, false, queue);
            var (t, running) := Step(s, fault);
            if !s.kernel.dirty then !running && t == s
            else
              && running && WellNamed(t, fault) && Step(t, fault) == (t, false)
              && t == System(SyncAll(s.m, Directories(s.users, queue), s.kernel.pd), s.kernel.(dirty := false), s.users)
  {
    hide Commit, SyncAll;
    var k := FindVas(s.kernel.spaces, va, 0).value;
    assert Inside(s.kernel.spaces[k], s.kernel.start, s.kernel.end) && InBounds(s.kernel, va);
    if current.Some? {
      assert s.users[current.value := s.users[current.value]] == s.users;
    }
  }

  // ---------------------------------------------------------------------------------------------
  // Where runs start.
  // ---------------------------------------------------------------------------------------------

  /** A kernel page that lies in a space that may be backed and shows a frame that is not free. */
  ghost predicate InOrder(m: Machine, k: Context, v: nat)
    requires v < MAPPABLE
  {
    var f := Translate(m, k.pd, v);
    f.Some? ==> Backable(k.spaces, v) && (f.value < |m.frames| ==> m.frames[f.value] != Free)
  }

  /** Before the first process every USED frame was in use at boot. It is enough that the kernel's
      directory is sound, and that whatever it maps lies in a space that may be backed and is not free. */
  lemma BootStateIsSane(m: Machine, k: Context)
    requires m.Sized() && KernelShape(k) && Sound(m, k.pd)
    requires forall f :: 0 <= f < |m.frames| && m.frames[f] == Used ==> f < m.usable
    requires forall v {:trigger InOrder(m, k, v)} :: USER_PAGES <= v < MAPPABLE ==> InOrder(m, k, v)
    ensures Sane(System(m, k, map[]), m.frames) && Coherent(System(m, k, map[]))
  {
    var o: Owners := map f: nat | f < |m.frames| && m.frames[f] == Used :: BOOT;
    assert Accounts(m, o);
    forall v | USER_PAGES <= v < MAPPABLE && Translate(m, k.pd, v).Some?
      ensures Backable(k.spaces, v) && KernelPageOk(m, o, v, Translate(m, k.pd, v).value)
    {
      assert InOrder(m, k, v);
    }
    assert Settled(System(m, k, map[]), o, m.frames);
  }

  /** What s_switchProcess asserts of the next process: the directory of a live context is USED. */
  lemma LiveContextHasDirectory(s: System, boot: Frames, c: nat)
    requires Sane(s, boot) && c in s.users
    ensures s.users[c].pd < |s.m.frames| && s.m.frames[s.users[c].pd] == Used
  {
    var o :| Settled(s, o, boot);
    assert UserOk(s, o, c);
  }
}
