/** What kvmm_memmap answers and what it backs, for every request. */
module Requests {
  import opened Common
  import opened Bitmaps
  import opened FrameStates
  import opened PageTables
  import opened AddressSpaces
  import opened Contexts
  import opened Lifecycle
  import opened Birth
  import opened LostFrames

  // ---------------------------------------------------------------------------------------------
  // commitVirtualPages.
  // ---------------------------------------------------------------------------------------------

  /** The pages of [va, va + count * PAGE) are translated to the frames from pa on. */
  ghost predicate Backed(n: Machine, pd: nat, va: nat, pa: nat, count: nat) {
    forall i: nat :: i < count ==> va + i * PAGE < VA_LIMIT && Lookup(n, pd, va + i * PAGE) == Some(pa + i * PAGE)
  }

  ghost predicate SomeRun(m: Machine, count: nat) {
    exists i :: 0 <= i < |m.frames| && RunAt(m.frames, Free, count, i)
  }

  /** The frames that kpmm_alloc has to give. */
  ghost function FreeSet(m: Machine): (r: set<nat>)
    ensures forall f: nat :: f in r <==> f < |m.frames| && m.frames[f] == Free
  {
    set f: nat | f < |m.frames| && m.frames[f] == Free
  }

  /** The entries of the directory that lack a page table for one of the pages v.. */
  ghost function MissingTables(m: Machine, pd: nat, v: nat, count: nat): (r: set<nat>)
    requires v + count <= MAPPABLE
  {
    set w | v <= w < v + count && !m.At(pd, w / 1024).present :: w / 1024
  }

  /** What a successful kpg_map does to the entries of the directory and to the frame states. */
  lemma MapPageTakes(m: Machine, pd: nat, v: nat, f: nat)
    requires m.Sized() && Sound(m, pd) && v < MAPPABLE
    ensures var (n, reply) := MapPage(m, pd, v, f);
      reply.Mapped? ==>
        && n.At(pd, v / 1024).present
        && (forall k :: 0 <= k < 1024 && k != v / 1024 ==> n.At(pd, k) == m.At(pd, k))
        && if m.At(pd, v / 1024).present then n.frames == m.frames
           else exists t :: t in FreeSet(m) && n.frames == m.frames[t := Used]
  {
    EnsureTableIsFresh(m, pd, v / 1024);
    var (m1, ok) := EnsureTable(m, pd, v / 1024);
    if ok {
      assert m1.At(pd, v / 1024).frame != pd;
      assert !m.At(pd, v / 1024).present ==> m1.At(pd, v / 1024).frame in FreeSet(m);
    }
  }

  lemma MissingStep(m: Machine, m1: Machine, pd: nat, v: nat, count: nat)
    requires count > 0 && v + count <= MAPPABLE && m1.At(pd, v / 1024).present
    requires forall k :: 0 <= k < 1024 && k != v / 1024 ==> m1.At(pd, k) == m.At(pd, k)
    ensures MissingTables(m1, pd, v + 1, count - 1) == MissingTables(m, pd, v, count) - {v / 1024}
    ensures v / 1024 in MissingTables(m, pd, v, count) <==> !m.At(pd, v / 1024).present
  {
    if !m.At(pd, v / 1024).present {
      assert v <= v < v + count;
    }
    forall i | i in MissingTables(m, pd, v, count) - {v / 1024} ensures i in MissingTables(m1, pd, v + 1, count - 1) {
      var w :| v <= w < v + count && !m.At(pd, w / 1024).present && w / 1024 == i;
      assert v + 1 <= w < v + 1 + (count - 1) && !m1.At(pd, w / 1024).present;
    }
    forall i | i in MissingTables(m1, pd, v + 1, count - 1) ensures i in MissingTables(m, pd, v, count) - {v / 1024} {
      var w :| v + 1 <= w < v + 1 + (count - 1) && !m1.At(pd, w / 1024).present && w / 1024 == i;
      assert v <= w < v + count && !m.At(pd, w / 1024).present;
    }
  }

  /** A run of mappings halts exactly if the pages in front of the first mapped one lack more page tables
      than there are free frames. */
  lemma {:induction false} MapRunHaltsExactly(m: Machine, pd: nat, v: nat, g: nat, count: nat)
    requires m.Sized() && Sound(m, pd) && v + count <= MAPPABLE
    ensures MapRun(m, pd, v, g, count).1.Halted? <==>
              |MissingTables(m, pd, v, FirstMapped(m, pd, v, count))| > |FreeSet(m)|
    decreases count
  {
    hide MapPage, Translate, Sound, FirstMapped, MissingTables, FreeSet;
    FirstMappedStep(m, pd, v, count);
    NoneMissing(m, pd, v);
    if count > 0 {
      var (m1, reply) := MapPage(m, pd, v, g);
      MapChangesOnePage(m, pd, v, g);
      if reply.Mapped? {
        MapPageTakes(m, pd, v, g);
        MapRunHaltsExactly(m1, pd, v + 1, g + 1, count - 1);
        var j := FirstMapped(m1, pd, v + 1, count - 1);
        NextFirstMapped(m, m1, pd, v, count);
        MissingStep(m, m1, pd, v, j + 1);
        if m.At(pd, v / 1024).present {
          assert MissingTables(m, pd, v, j + 1) - {v / 1024} == MissingTables(m, pd, v, j + 1);
          SameFree(m, m1);
        } else {
          OneLessFree(m, m1);
        }
      } else if reply.Halted? {
        NotMappedIsMissing(m, pd, v, count);
        NoFreeFrame(m);
      }
    }
  }

  lemma NoneMissing(m: Machine, pd: nat, v: nat)
    requires v <= MAPPABLE
    ensures MissingTables(m, pd, v, 0) == {}
  {
  }

  lemma SameFree(m: Machine, m1: Machine)
    requires m1.frames == m.frames
    ensures FreeSet(m1) == FreeSet(m)
  {
  }

  lemma OneLessFree(m: Machine, m1: Machine)
    requires exists t :: t in FreeSet(m) && m1.frames == m.frames[t := Used]
    ensures |FreeSet(m1)| == |FreeSet(m)| - 1
  {
    var t :| t in FreeSet(m) && m1.frames == m.frames[t := Used];
    assert FreeSet(m1) == FreeSet(m) - {t};
  }

  lemma NoFreeFrame(m: Machine)
    requires forall k :: 0 <= k < |m.frames| ==> m.frames[k] != Free
    ensures FreeSet(m) == {}
  {
  }

  lemma NotMappedIsMissing(m: Machine, pd: nat, v: nat, count: nat)
    requires count > 0 && v + count <= MAPPABLE && !m.At(pd, v / 1024).present
    ensures |MissingTables(m, pd, v, FirstMapped(m, pd, v, count))| > 0
  {
    assert FirstMapped(m, pd, v, count) > 0;
    assert v / 1024 in MissingTables(m, pd, v, FirstMapped(m, pd, v, count));
  }

  lemma {:induction false} RangeSize(at: nat, count: nat)
    ensures |Range(at, count)| == count
    decreases count
  {
    if count > 0 {
      RangeSize(at + 1, count - 1);
      assert Range(at, count) == {at} + Range(at + 1, count - 1) && at !in Range(at + 1, count - 1);
    }
  }

  lemma RunTakesFree(m: Machine, after: Frames, at: nat, count: nat)
    requires RunAt(m.frames, Free, count, at) && after == SetRun(m.frames, at, count, Used)
    ensures |FreeSet(m.With(after))| == |FreeSet(m)| - count
  {
    RangeSize(at, count);
    assert FreeSet(m) == FreeSet(m.With(after)) + Range(at, count);
    assert FreeSet(m.With(after)) !! Range(at, count);
  }

  lemma MisalignedRunIsRefused(m: Machine, pd: nat, va: nat, pa: nat, count: nat)
    requires va + count * PAGE <= VA_LIMIT && count > 0 && (va % PAGE != 0 || pa % PAGE != 0)
    ensures MapPages(m, pd, va, pa, count) == (m, MapRefused(Misaligned))
  {
    MapPagesStep(m, pd, va, pa, count);
  }

  lemma RunIsBacked(m: Machine, n: Machine, pd: nat, v: nat, g: nat, count: nat)
    requires RangeMapped(m, n, pd, v, g, count, MAPPABLE) && v + count <= MAPPABLE
    ensures Backed(n, pd, v * PAGE, g * PAGE, count)
  {
    hide Translate;
    forall i: nat | i < count
      ensures v * PAGE + i * PAGE < VA_LIMIT && Lookup(n, pd, v * PAGE + i * PAGE) == Some(g * PAGE + i * PAGE)
    {
      PageAddress(v + i);
      assert v * PAGE + i * PAGE == (v + i) * PAGE;
    }
  }

  /** The mapping half, with the frames at hand. */
  lemma MapPagesIsExact(m: Machine, pd: nat, va: nat, pa: nat, count: nat)
    requires m.Sized() && Sound(m, pd) && count > 0 && va + count * PAGE <= MAPPABLE * PAGE
    ensures var (n, reply) := MapPages(m, pd, va, pa, count);
      var v := va / PAGE;
      && v + count <= MAPPABLE && StaysUsed(m, n)
      && (reply.Halted? <==> va % PAGE == 0 && pa % PAGE == 0
                             && |MissingTables(m, pd, v, FirstMapped(m, pd, v, count))| > |FreeSet(m)|)
      && (!reply.Halted? ==>
            (reply.Mapped? <==> va % PAGE == 0 && pa % PAGE == 0 && FirstMapped(m, pd, v, count) == count))
      && (reply.Mapped? ==> Backed(n, pd, va, pa, count) && RangeMapped(m, n, pd, v, pa / PAGE, count, MAPPABLE))
  {
    hide MapPages, Translate, Sound, FirstMapped, StaysUsed, MissingTables, FreeSet;
    var v := va / PAGE;
    if va % PAGE != 0 || pa % PAGE != 0 {
      MisalignedRunIsRefused(m, pd, va, pa, count);
      NothingMapped(m, pd, v, 0);
    } else {
      assert va == v * PAGE && pa == pa / PAGE * PAGE;
      MapPagesIsMapRun(m, pd, v, pa / PAGE, count);
      MapRunStops(m, pd, v, pa / PAGE, count);
      MapRunHaltsExactly(m, pd, v, pa / PAGE, count);
      var (n, reply) := MapPages(m, pd, va, pa, count);
      if reply.Mapped? {
        RunIsBacked(m, n, pd, v, pa / PAGE, count);
      }
    }
  }

  /** The frames that a commit takes for its pages are there, and not enough for its page tables. */
  ghost predicate RunsOutOfFrames(m: Machine, pd: nat, va: nat, pa: Option<nat>, count: nat)
    requires va + count * PAGE <= MAPPABLE * PAGE
  {
    var v := va / PAGE;
    && count > 0 && va % PAGE == 0 && (if pa.Some? then pa.value % PAGE == 0 else SomeRun(m, count))
    && |MissingTables(m, pd, v, FirstMapped(m, pd, v, count))| + (if pa.Some? then 0 else count) > |FreeSet(m)|
  }

  /** Why a commit that does not halt succeeds. */
  ghost predicate CanCommit(m: Machine, pd: nat, va: nat, pa: Option<nat>, count: nat)
    requires va + count * PAGE <= VA_LIMIT
  {
    && count > 0 && va % PAGE == 0
    && (if pa.Some? then pa.value % PAGE == 0 else SomeRun(m, count))
    && forall w: nat :: va / PAGE <= w < va / PAGE + count && w < 0x10_0000 ==> Translate(m, pd, w) == None
  }

  /** Taking frames changes no table. */
  lemma SameMissing(m: Machine, after: Frames, pd: nat, v: nat, count: nat)
    requires v + count <= MAPPABLE
    ensures FirstMapped(m.With(after), pd, v, count) == FirstMapped(m, pd, v, count)
    ensures forall j: nat :: j <= count ==> MissingTables(m.With(after), pd, v, j) == MissingTables(m, pd, v, j)
  {
    hide Translate;
    SameRam(m, m.With(after));
    FirstMappedIs(m.With(after), pd, v, count, FirstMapped(m, pd, v, count));
    assert forall k :: 0 <= k < 1024 ==> m.With(after).At(pd, k) == m.At(pd, k);
  }

  /** commitVirtualPages for every request: when it halts, when it succeeds, that the whole range is then translated from
      *outPA on, which is the caller's address or a run that was free, and that no other page changes. */
  lemma CommitIsExact(m: Machine, c: Context, va: nat, pa: Option<nat>, count: nat)
    requires m.Sized() && Sound(m, c.pd) && va + count * PAGE <= MAPPABLE * PAGE
    ensures var (n, d, outcome, outPa) := Commit(m, c, va, pa, count);
      && (outcome.Halts? <==> RunsOutOfFrames(m, c.pd, va, pa, count))
      && (!outcome.Halts? ==> (outcome.Succeeded? <==> CanCommit(m, c.pd, va, pa, count)))
      && (outcome.Failed? ==> d == c)
      && (outcome == Failed(InPmm(OutOfMem)) <==> pa.None? && count > 0 && !SomeRun(m, count))
      && (outcome.Succeeded? ==>
            && d == c.(dirty := true) && Backed(n, c.pd, va, outPa, count)
            && (pa.Some? ==> outPa == pa.value)
            && (pa.None? ==> RunAt(m.frames, Free, count, outPa / PAGE) && RunAt(n.frames, Used, count, outPa / PAGE))
            && forall w: nat :: w < MAPPABLE && !(va / PAGE <= w < va / PAGE + count) ==>
                 Translate(n, c.pd, w) == Translate(m, c.pd, w))
  {
    hide MapPages, Alloc, Translate, FirstMapped, Sound, MissingTables, FreeSet;
    if count == 0 {
      AllocOfNothing(m.frames, m.usable);
    } else if pa.Some? {
      assert m.With(m.frames) == m;
      MapPagesIsExact(m, c.pd, va, pa.value, count);
    } else {
      AllocTakesLowestRun(m.frames, m.usable, count);
      var (after, got, at) := Alloc(m.frames, m.usable, count);
      if got.Done? {
        var m1 := m.With(after);
        StillSized(m, after, c.pd, at, count);
        SameRam(m, m1);
        PageAddress(at);
        RunTakesFree(m, after, at, count);
        SameMissing(m, after, c.pd, va / PAGE, count);
        MapPagesIsExact(m1, c.pd, va, at * PAGE, count);
        assert forall w :: 0 <= w < 0x10_0000 ==> Translate(m1, c.pd, w) == Translate(m, c.pd, w);
      }
    }
  }

  // ---------------------------------------------------------------------------------------------
  // kvmm_memmap.
  // ---------------------------------------------------------------------------------------------

  /** at is the address asked for or, if none is, the lowest one with room; on an empty list the start. */
  ghost predicate RightPlace(c: Context, va: nat, pages: nat, at: nat) {
    if va != 0 then at == va
    else if c.spaces == [] then at == c.start
    else Fits(c.spaces, c.start, c.end, pages * PAGE, at)
         && forall x: nat :: Fits(c.spaces, c.start, c.end, pages * PAGE, x) ==> at <= x
  }

  /** There is such a place and the request can be put there. */
  ghost predicate Acceptable(c: Context, va: nat, pages: nat) {
    if va != 0 then
      && va % PAGE == 0 && c.start <= va && va + pages * PAGE <= c.end
      && NothingInTheWay(c.spaces, Vas(va, pages * PAGE, NO_FLAGS, false))
    else if c.spaces == [] then c.start + pages * PAGE <= c.end
    else HasRoom(c.spaces, c.start, c.end, pages * PAGE)
  }

  lemma FoundIsRightPlace(c: Context, pages: nat)
    requires WellFormed(c.spaces, c.start, c.end) && 0 < c.start <= c.end && c.start % PAGE == 0
    ensures var at := FindNext(c.spaces, c.start, c.end, pages);
      && at % PAGE == 0 && (at != 0 ==> RightPlace(c, 0, pages, at) && c.start <= at)
      && (at == 0 <==> c.spaces != [] && !HasRoom(c.spaces, c.start, c.end, pages * PAGE))
  {
    if c.spaces != [] {
      FoundIsAligned(c.spaces, c.start, c.end, pages);
      if pages > 0 {
        FindNextIsFirstFit(c.spaces, c.start, c.end, pages);
      } else {
        EmptyFits(c);
      }
    }
  }

  /** No page at all fits at the start. */
  lemma EmptyFits(c: Context)
    requires WellFormed(c.spaces, c.start, c.end) && 0 < c.start <= c.end && c.spaces != []
    ensures FindNext(c.spaces, c.start, c.end, 0) == c.start && Fits(c.spaces, c.start, c.end, 0, c.start)
  {
    assert Inside(c.spaces[0], c.start, c.end);
    forall k | 0 <= k < |c.spaces| ensures c.start <= c.spaces[k].start {
      assert Inside(c.spaces[k], c.start, c.end);
    }
  }

  /** The flags of a request do not matter for that. */
  lemma InTheWayAnyFlags(spaces: seq<Vas>, a: Vas, b: Vas)
    requires a.start == b.start && a.size == b.size && NothingInTheWay(spaces, a)
    ensures NothingInTheWay(spaces, b)
  {
    forall k | 0 <= k < |spaces| && (k == 0 || spaces[k - 1].start <= b.start)
      ensures Disjoint(b, spaces[k]) || StrictlyEncloses(b, spaces[k])
    {
      assert Disjoint(a, spaces[k]) || StrictlyEncloses(a, spaces[k]);
    }
  }

  /** A range that fits has nothing in its way. */
  lemma FittingIsClear(c: Context, vas: Vas)
    requires Fits(c.spaces, c.start, c.end, vas.size, vas.start)
    ensures NothingInTheWay(c.spaces, vas)
  {
  }

  /** A request that is put somewhere: it is put in the right place, and exactly when it is acceptable. */
  lemma AddedInRightPlace(c: Context, va: nat, pages: nat, flags: Flags, isStatic: bool, heapOk: bool)
    requires WellFormed(c.spaces, c.start, c.end) && 0 < c.start <= c.end && c.start % PAGE == 0
    ensures var at := if va == 0 then FindNext(c.spaces, c.start, c.end, pages) else va;
      var vas := Vas(at, pages * PAGE, flags, isStatic);
      var r := AddSpace(c.spaces, c.start, c.end, vas, heapOk);
      && (pages > 0 ==> (r.Added? <==> heapOk && Acceptable(c, va, pages)))
      && (r.Added? ==>
            && at != 0 && heapOk && RightPlace(c, va, pages, at) && vas.End() <= c.end
            && exists pos :: BelongsAt(c.spaces, vas, pos) && r.spaces == Insert(c.spaces, pos, vas))
  {
    hide AddSpace, FindNext, BelongsAt, NothingInTheWay, Fits;
    var at := if va == 0 then FindNext(c.spaces, c.start, c.end, pages) else va;
    var vas := Vas(at, pages * PAGE, flags, isStatic);
    AddSpaceAnswers(c.spaces, c.start, c.end, vas, heapOk);
    FoundIsRightPlace(c, pages);
    var plain := Vas(at, pages * PAGE, NO_FLAGS, false);
    if NothingInTheWay(c.spaces, vas) {
      InTheWayAnyFlags(c.spaces, vas, plain);
    } else if NothingInTheWay(c.spaces, plain) {
      InTheWayAnyFlags(c.spaces, plain, vas);
      assert false;
    }
    if va == 0 && at != 0 {
      if c.spaces == [] {
        NothingOnEmptyList(vas);
      } else {
        FittingIsClear(c, vas);
        FoundIsInside(c.spaces, c.start, c.end, pages * PAGE, at);
      }
    }
  }

  lemma NothingOnEmptyList(vas: Vas)
    ensures NothingInTheWay([], vas)
  {
  }

  /** What kvmm_memmap answers: the address asked for or the lowest with room, with exactly that range
      added to the list; 0 on failure. Without an immediate commit nothing else changes, and it succeeds
      exactly on an acceptable request. */
  lemma MemmapAnswers(m: Machine, c: Context, va: nat, pa: Option<nat>, pages: nat, flags: Flags,
                      isStatic: bool, heapOk: bool)
    requires WellFormed(c.spaces, c.start, c.end) && 0 < c.start <= c.end <= VA_LIMIT && c.start % PAGE == 0
    ensures var (n, d, outcome, at) := Memmap(m, c, va, pa, pages, flags, isStatic, heapOk);
      && (outcome.Succeeded? ==>
            && at != 0 && RightPlace(c, va, pages, at)
            && exists pos :: BelongsAt(c.spaces, Vas(at, pages * PAGE, flags, isStatic), pos)
                 && d.spaces == Insert(c.spaces, pos, Vas(at, pages * PAGE, flags, isStatic)))
      && (!outcome.Succeeded? ==> at == 0)
      && d == c.(spaces := d.spaces, dirty := c.dirty || (flags.immCommit && outcome.Succeeded?))
      && (!flags.immCommit ==> n == m && !outcome.Halts?)
      && (!flags.immCommit && pages > 0 ==> (outcome.Succeeded? <==> heapOk && Acceptable(c, va, pages)))
      && (!flags.immCommit && outcome.Failed? ==> d == c)
  {
    hide AddSpace, FindNext, BelongsAt, RightPlace, Acceptable, Commit, WellFormed;
    AddedInRightPlace(c, va, pages, flags, isStatic, heapOk);
    var at := if va == 0 then FindNext(c.spaces, c.start, c.end, pages) else va;
    var vas := Vas(at, pages * PAGE, flags, isStatic);
    match AddSpace(c.spaces, c.start, c.end, vas, heapOk)
    case NotAdded(_) =>
    case Added(spaces) =>
      if flags.immCommit {
        CommitKeepsList(m, c.(spaces := spaces), at, pa, pages);
      }
  }

  lemma CommitKeepsList(m: Machine, c: Context, va: nat, pa: Option<nat>, count: nat)
    requires va + count * PAGE <= VA_LIMIT
    ensures var (_, d, outcome, _) := Commit(m, c, va, pa, count); d == c.(dirty := c.dirty || outcome.Succeeded?)
  {
    hide MapPages, Alloc;
  }

  lemma RightPlaceIsUnique(c: Context, va: nat, pages: nat, a: nat, b: nat)
    requires RightPlace(c, va, pages, a) && RightPlace(c, va, pages, b)
    ensures a == b
  {
  }

  /** The same with an immediate commit. An unacceptable request changes nothing. Any other one halts,
      succeeds or fails as the commit at its place does, and is in the list in any case; a success backs the
      answered range, from the caller's address on if there is one. */
  lemma MemmapBacks(m: Machine, c: Context, va: nat, pa: Option<nat>, pages: nat, flags: Flags,
                   isStatic: bool, heapOk: bool)
    requires WellFormed(c.spaces, c.start, c.end) && 0 < c.start <= c.end <= MAPPABLE * PAGE && c.start % PAGE == 0
    requires m.Sized() && Sound(m, c.pd) && flags.immCommit && pages > 0
    ensures var (n, d, outcome, at) := Memmap(m, c, va, pa, pages, flags, isStatic, heapOk);
      if !(heapOk && Acceptable(c, va, pages)) then outcome.Failed? && n == m && d == c
      else
        && (forall place: nat :: RightPlace(c, va, pages, place) ==>
              && place + pages * PAGE <= MAPPABLE * PAGE
              && (exists pos :: BelongsAt(c.spaces, Vas(place, pages * PAGE, flags, isStatic), pos)
                    && d.spaces == Insert(c.spaces, pos, Vas(place, pages * PAGE, flags, isStatic)))
              && (outcome.Halts? <==> RunsOutOfFrames(m, c.pd, place, pa, pages))
              && (!outcome.Halts? ==> (outcome.Succeeded? <==> CanCommit(m, c.pd, place, pa, pages))))
        && (outcome.Succeeded? ==>
              d.dirty && exists outPa: nat :: (pa.Some? ==> outPa == pa.value) && Backed(n, c.pd, at, outPa, pages))
  {
    hide AddSpace, FindNext, BelongsAt, RightPlace, Acceptable, Commit;
    hide WellFormed, Backed, CanCommit, RunsOutOfFrames, Sound;
    AddedInRightPlace(c, va, pages, flags, isStatic, heapOk);
    var at := if va == 0 then FindNext(c.spaces, c.start, c.end, pages) else va;
    var vas := Vas(at, pages * PAGE, flags, isStatic);
    match AddSpace(c.spaces, c.start, c.end, vas, heapOk)
    case NotAdded(_) =>
    case Added(spaces) =>
      var c1 := c.(spaces := spaces);
      CommitIsExact(m, c1, at, pa, pages);
      CommitKeepsList(m, c1, at, pa, pages);
      var (n, d, outcome, outPa) := Commit(m, c1, at, pa, pages);
      if outcome.Succeeded? {
        assert Backed(n, c.pd, at, outPa, pages);
      }
      forall place: nat | RightPlace(c, va, pages, place) ensures place == at {
        RightPlaceIsUnique(c, va, pages, place, at);
      }
  }
}
