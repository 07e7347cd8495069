/** Whatever the kernel does, page frames only go back and forth between FREE and USED. */
module FrameChanges {
  import opened Common
  import opened Bitmaps
  import opened FrameStates
  import opened PageTables
  import opened AddressSpaces
  import opened Contexts

  /** Between fs and gs frames were only taken or given back. */
  ghost predicate OnlyTaken(fs: Frames, gs: Frames) {
    && |gs| == |fs|
    && forall f :: 0 <= f < |fs| ==> gs[f] == fs[f] || ((fs[f] == Free || fs[f] == Used) && (gs[f] == Free || gs[f] == Used))
  }

  lemma ChangeTakes(fs: Frames, usable: nat, at: nat, count: nat, now: PageState)
    requires at + count <= |fs| && (now == Free || now == Used)
    ensures OnlyTaken(fs, Change(fs, usable, at, count, now).0)
  {
    AllowedPrefixStops(fs, at, count, now, Permit(usable));
    var n := AllowedPrefix(fs, at, count, now, Permit(usable));
    forall f | at <= f < at + n ensures fs[f] == Free || fs[f] == Used {
      assert Permit(usable)(f, fs[f], now);
    }
  }

  lemma AllocTakes(fs: Frames, usable: nat, count: nat)
    ensures OnlyTaken(fs, Alloc(fs, usable, count).0)
  {
    if count > 0 && FirstRun(fs, Free, count, 0) != -1 {
      ChangeTakes(fs, usable, FirstRun(fs, Free, count, 0), count, Used);
    }
  }

  lemma FreeFrameTakes(m: Machine, f: nat)
    requires m.usable <= |m.frames|
    ensures OnlyTaken(m.frames, FreeFrame(m, f).0.frames)
  {
    if f + 1 <= m.usable {
      ChangeTakes(m.frames, m.usable, f, 1, Free);
    }
  }

  lemma MapAddressTakes(m: Machine, pd: nat, va: nat, pa: nat)
    requires va < VA_LIMIT
    ensures OnlyTaken(m.frames, MapAddress(m, pd, va, pa).0.frames)
  {
    AllocTakes(m.frames, m.usable, 1);
  }

  lemma {:induction false} MapPagesTakes(m: Machine, pd: nat, va: nat, pa: nat, count: nat)
    requires va + count * PAGE <= VA_LIMIT
    ensures OnlyTaken(m.frames, MapPages(m, pd, va, pa, count).0.frames)
    decreases count
  {
    hide MapAddress;
    if count > 0 {
      MapAddressTakes(m, pd, va, pa);
      var (m1, reply) := MapAddress(m, pd, va, pa);
      if reply.Mapped? {
        MapPagesTakes(m1, pd, va + PAGE, pa + PAGE, count - 1);
      }
    }
  }

  lemma CommitTakes(m: Machine, c: Context, va: nat, pa: Option<nat>, count: nat)
    requires va + count * PAGE <= VA_LIMIT
    ensures OnlyTaken(m.frames, Commit(m, c, va, pa, count).0.frames)
  {
    hide MapPages, Alloc;
    var (after, got, frame) := if pa.Some? then (m.frames, Done, pa.value / PAGE) else Alloc(m.frames, m.usable, count);
    AllocTakes(m.frames, m.usable, count);
    if got.Done? && count > 0 {
      MapPagesTakes(m.With(after), c.pd, va, if pa.Some? then pa.value else frame * PAGE, count);
    }
  }

  lemma MemmapTakes(m: Machine, c: Context, va: nat, pages: nat, flags: Flags, isStatic: bool, heapOk: bool)
    requires c.end <= VA_LIMIT
    ensures OnlyTaken(m.frames, Memmap(m, c, va, None, pages, flags, isStatic, heapOk).0.frames)
  {
    hide Commit, AddSpace, FindNext;
    var at := if va == 0 then FindNext(c.spaces, c.start, c.end, pages) else va;
    var vas := Vas(at, pages * PAGE, flags, isStatic);
    match AddSpace(c.spaces, c.start, c.end, vas, heapOk)
    case NotAdded(_) =>
    case Added(spaces) =>
      AddedInBounds(c, vas, heapOk);
      CommitTakes(m, c.(spaces := spaces), at, None, pages);
  }

  lemma AddedInBounds(c: Context, vas: Vas, heapOk: bool)
    requires AddSpace(c.spaces, c.start, c.end, vas, heapOk).Added?
    ensures vas.End() <= c.end
  {
  }

  lemma CommitPageTakes(m: Machine, c: Context, va: nat)
    requires va < VA_LIMIT
    ensures OnlyTaken(m.frames, CommitPage(m, c, va).0.frames)
  {
    hide Commit;
    CommitTakes(m, c, va / PAGE * PAGE, None, 1);
  }

  lemma {:induction false} ReleasePagesTakes(m: Machine, pd: nat, va: nat, count: nat)
    requires va < VA_LIMIT && m.usable <= |m.frames|
    ensures OnlyTaken(m.frames, ReleasePages(m, pd, va, count).0.frames)
    decreases count
  {
    hide UnmapAddress, FreeFrame, Translate;
    if count > 0 {
      match Translate(m, pd, va / PAGE)
      case None => ReleasePagesTakes(m, pd, (va + PAGE) % VA_LIMIT, count - 1);
      case Some(f) =>
        var (m1, reply) := UnmapAddress(m, pd, va);
        if reply.Mapped? {
          FreeFrameTakes(m1, f);
          var (m2, freed) := FreeFrame(m1, f);
          if freed.Done? {
            ReleasePagesTakes(m2, pd, (va + PAGE) % VA_LIMIT, count - 1);
          }
        }
    }
  }

  lemma FreeSpaceTakes(m: Machine, c: Context, va: nat)
    requires va < VA_LIMIT && m.usable <= |m.frames|
    ensures OnlyTaken(m.frames, FreeSpace(m, c, va).0.frames)
  {
    hide ReleasePages;
    match FindVas(c.spaces, va, 0)
    case None =>
    case Some(k) => ReleasePagesTakes(m, c.pd, va, (c.spaces[k].size + PAGE - 1) / PAGE);
  }

  lemma {:induction false} DrainTakes(m: Machine, c: Context)
    requires m.usable <= |m.frames|
    ensures OnlyTaken(m.frames, Drain(m, c).0.frames)
    decreases |c.spaces|
  {
    hide FreeSpace;
    if c.spaces != [] && c.spaces[0].start < VA_LIMIT {
      FreeSpaceTakes(m, c, c.spaces[0].start);
      var (m1, c1, outcome) := FreeSpace(m, c, c.spaces[0].start);
      if outcome.Succeeded? {
        DrainTakes(m1, c1);
      }
    }
  }

  lemma {:induction false} FreeTablesTakes(m: Machine, pd: nat, i: nat, limit: nat)
    requires m.usable <= |m.frames| && i <= limit <= 1024
    ensures OnlyTaken(m.frames, FreeTables(m, pd, i, limit).0.frames)
    decreases limit - i
  {
    hide FreeFrame;
    if i < limit {
      if !m.At(pd, i).present {
        FreeTablesTakes(m, pd, i + 1, limit);
      } else {
        FreeFrameTakes(m, m.At(pd, i).frame);
        var (m1, reply) := FreeFrame(m, m.At(pd, i).frame);
        if reply.Done? {
          FreeTablesTakes(m1, pd, i + 1, limit);
        }
      }
    }
  }

  lemma DeletePdTakes(m: Machine, pd: nat)
    requires m.usable <= |m.frames|
    ensures OnlyTaken(m.frames, DeletePd(m, pd, true).0.frames)
  {
    hide FreeFrame, FreeTables;
    FreeTablesTakes(m, pd, 0, KERNEL_PDE);
    var (m1, reply) := FreeTables(m, pd, 0, KERNEL_PDE);
    FreeFrameTakes(m1, pd);
  }

  lemma DestroyTakes(m: Machine, c: Context)
    requires m.usable <= |m.frames|
    ensures OnlyTaken(m.frames, Destroy(m, c).0.frames)
  {
    hide Drain, DeletePd;
    DrainTakes(m, c);
    DeletePdTakes(Drain(m, c).0, c.pd);
  }

  lemma NewPdTakes(m: Machine, kernelPd: nat)
    ensures OnlyTaken(m.frames, NewPd(m, kernelPd).0.frames)
  {
    AllocTakes(m.frames, m.usable, 1);
  }

  lemma FaultTakes(m: Machine, kernel: Context, user: Option<Context>, pds: seq<nat>, va: nat, present: bool)
    requires va < VA_LIMIT
    ensures OnlyTaken(m.frames, HandleFault(m, kernel, user, pds, va, present).0.frames)
  {
    hide CommitPage;
    CommitPageTakes(m, if InBounds(kernel, va) then kernel.(dirty := false) else kernel, va);
    if user.Some? {
      CommitPageTakes(m, user.value, va);
    }
  }
}
