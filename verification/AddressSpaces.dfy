/** The sorted list of address spaces that a context keeps (src/kernel/vmm.c). */
module AddressSpaces {
  import opened Common
  import opened FrameStates

  /** VMemoryMemMapFlags, one field for each bit. */
  datatype Flags = Flags(kernelPage: bool, readOnly: bool, nullPage: bool, immCommit: bool, committed: bool)

  const NO_FLAGS := Flags(false, false, false, false, false)
  const NULL_PAGE := NO_FLAGS.(nullPage := true)

  /** VMemoryAddressSpace: [start, start + size). */
  datatype Vas = Vas(start: nat, size: nat, flags: Flags, isStatic: bool) {
    function End(): nat {
      start + size
    }

    predicate Covers(va: nat) {
      start <= va < End()
    }
  }

  datatype VmmError =
    | Misplaced | OutOfBounds | NoMemory | OverlappingVas | NotAllocated | StaticVas | DoubleCommit | NullPageAccess

  /** The overlap test of addNewVirtualAddressSpace: is either end of the new space inside the old one? */
  predicate DetectsOverlap(added: Vas, present: Vas) {
    var last := added.start + added.size - 1;
    present.start <= added.start < present.End() || present.start <= last < present.End()
  }

  /** The search for the place of a new space, from position i on; None is a detected overlap. */
  function Place(spaces: seq<Vas>, vas: Vas, i: nat): (r: Option<seq<Vas>>)
    requires i <= |spaces|
    decreases |spaces| - i
  {
    if i == |spaces| then Some(spaces + [vas])
    else if DetectsOverlap(vas, spaces[i]) then None
    else if spaces[i].start > vas.start then Some(Insert(spaces, i, vas))
    else Place(spaces, vas, i + 1)
  }

  datatype Added = Added(spaces: seq<Vas>) | NotAdded(error: VmmError)

  /** addNewVirtualAddressSpace; heapOk is whether the list item could be allocated. */
  function AddSpace(spaces: seq<Vas>, start: nat, end: nat, vas: Vas, heapOk: bool): Added {
    if vas.start % PAGE != 0 then NotAdded(Misplaced)
    else if vas.start < start || vas.End() > end then NotAdded(OutOfBounds)
    else if !heapOk then NotAdded(NoMemory)
    else if spaces == [] then Added([vas])
    else
      match Place(spaces, vas, 0)
      case None => NotAdded(OverlappingVas)
      case Some(s) => Added(s)
  }

  /** The walk of find_next_va: cursor is the end of the space before position i. */
  function FindGap(spaces: seq<Vas>, end: nat, bytes: nat, i: nat, cursor: nat): nat
    requires i <= |spaces|
    decreases |spaces| - i
  {
    if i == |spaces| then (if end - cursor >= bytes then cursor else 0)
    else if spaces[i].start - cursor >= bytes then cursor
    else FindGap(spaces, end, bytes, i + 1, spaces[i].End())
  }

  /** find_next_va; 0 stands for "none". */
  function FindNext(spaces: seq<Vas>, start: nat, end: nat, pages: nat): nat {
    if spaces == [] then start else FindGap(spaces, end, pages * PAGE, 0, start)
  }

  /** find_vas: the position of the first space that covers va. */
  function FindVas(spaces: seq<Vas>, va: nat, i: nat): (r: Option<nat>)
    requires i <= |spaces|
    ensures r.Some? ==> i <= r.value < |spaces| && spaces[r.value].Covers(va)
    ensures r.None? ==> forall k :: i <= k < |spaces| ==> !spaces[k].Covers(va)
    decreases |spaces| - i
  {
    if i == |spaces| then None
    else if spaces[i].Covers(va) then Some(i)
    else FindVas(spaces, va, i + 1)
  }

  // ---------------------------------------------------------------------------------------------
  // The list invariant.
  // ---------------------------------------------------------------------------------------------

  predicate Inside(vas: Vas, start: nat, end: nat) {
    vas.size > 0 && vas.start % PAGE == 0 && vas.size % PAGE == 0 && start <= vas.start && vas.End() <= end
  }

  /** Strictly sorted, pairwise disjoint, page aligned and within bounds. */
  ghost predicate WellFormed(spaces: seq<Vas>, start: nat, end: nat) {
    && (forall i :: 0 <= i < |spaces| ==> Inside(spaces[i], start, end))
    && (forall i, j :: 0 <= i < j < |spaces| ==> spaces[i].End() <= spaces[j].start)
  }

  predicate Disjoint(a: Vas, b: Vas) {
    a.End() <= b.start || b.End() <= a.start
  }

  /** a begins before b and ends after it: the case the overlap test cannot see. */
  predicate StrictlyEncloses(a: Vas, b: Vas) {
    a.start < b.start && b.End() < a.End()
  }

  lemma DetectionIsExactUnlessEnclosing(vas: Vas, other: Vas)
    requires vas.size > 0 && other.size > 0
    ensures DetectsOverlap(vas, other) == (!Disjoint(vas, other) && !StrictlyEncloses(vas, other))
  {
  }

  lemma {:induction false} PlaceIsSorted(spaces: seq<Vas>, start: nat, end: nat, vas: Vas, i: nat)
    requires WellFormed(spaces, start, end) && Inside(vas, start, end) && i <= |spaces|
    requires forall k :: 0 <= k < i ==> spaces[k].End() <= vas.start
    requires forall k :: 0 <= k < |spaces| ==> !StrictlyEncloses(vas, spaces[k])
    ensures var r := Place(spaces, vas, i);
            && (r.Some? <==> forall k :: 0 <= k < |spaces| ==> Disjoint(vas, spaces[k]))
            && (r.Some? ==> exists at :: 0 <= at <= |spaces| && r.value == Insert(spaces, at, vas)
                                         && WellFormed(r.value, start, end))
    decreases |spaces| - i
  {
    if i == |spaces| {
      assert spaces + [vas] == Insert(spaces, i, vas);
      InsertIsWellFormed(spaces, start, end, vas, i);
    } else {
      DetectionIsExactUnlessEnclosing(vas, spaces[i]);
      if !DetectsOverlap(vas, spaces[i]) {
        if spaces[i].start > vas.start {
          forall k | 0 <= k < |spaces| ensures Disjoint(vas, spaces[k]) && (k >= i ==> vas.End() <= spaces[k].start) {
            assert k > i ==> spaces[i].End() <= spaces[k].start;
          }
          InsertIsWellFormed(spaces, start, end, vas, i);
        } else {
          PlaceIsSorted(spaces, start, end, vas, i + 1);
        }
      }
    }
  }

  lemma InsertIsWellFormed(spaces: seq<Vas>, start: nat, end: nat, vas: Vas, at: nat)
    requires WellFormed(spaces, start, end) && Inside(vas, start, end) && at <= |spaces|
    requires forall k :: 0 <= k < at ==> spaces[k].End() <= vas.start
    requires forall k :: at <= k < |spaces| ==> vas.End() <= spaces[k].start
    ensures WellFormed(Insert(spaces, at, vas), start, end)
  {
  }

  /** For a request that encloses no existing space the overlap test is exact, an accepted request
      leaves the list sorted and disjoint with just the new space added. */
  lemma AddSpaceIsExact(spaces: seq<Vas>, start: nat, end: nat, vas: Vas)
    requires WellFormed(spaces, start, end) && Inside(vas, start, end)
    requires forall k :: 0 <= k < |spaces| ==> !StrictlyEncloses(vas, spaces[k])
    ensures var r := AddSpace(spaces, start, end, vas, true);
            && (r.Added? <==> forall k :: 0 <= k < |spaces| ==> Disjoint(vas, spaces[k]))
            && (r.NotAdded? ==> r.error == OverlappingVas)
            && (r.Added? ==> exists at :: 0 <= at <= |spaces| && r.spaces == Insert(spaces, at, vas)
                                          && WellFormed(r.spaces, start, end))
  {
    if spaces == [] {
      assert [vas] == Insert(spaces, 0, vas);
    } else {
      PlaceIsSorted(spaces, start, end, vas, 0);
    }
  }

  lemma {:induction false} PlacePutsItSomewhere(spaces: seq<Vas>, vas: Vas, i: nat)
    requires i <= |spaces| && Place(spaces, vas, i).Some?
    ensures exists at :: 0 <= at <= |spaces| && Place(spaces, vas, i).value == Insert(spaces, at, vas)
    decreases |spaces| - i
  {
    if i == |spaces| {
      assert spaces + [vas] == Insert(spaces, i, vas);
    } else if spaces[i].start <= vas.start {
      PlacePutsItSomewhere(spaces, vas, i + 1);
    }
  }

  /** Exactly when an accepted request spoils the list: when it encloses an existing space. */
  lemma AcceptedIsSoundUnlessEnclosing(spaces: seq<Vas>, start: nat, end: nat, vas: Vas)
    requires WellFormed(spaces, start, end) && Inside(vas, start, end)
    requires AddSpace(spaces, start, end, vas, true).Added?
    ensures WellFormed(AddSpace(spaces, start, end, vas, true).spaces, start, end)
            <==> forall k :: 0 <= k < |spaces| ==> !StrictlyEncloses(vas, spaces[k])
  {
    var r := AddSpace(spaces, start, end, vas, true).spaces;
    if k :| 0 <= k < |spaces| && StrictlyEncloses(vas, spaces[k]) {
      PlacePutsItSomewhere(spaces, vas, 0);
      var at :| 0 <= at <= |spaces| && r == Insert(spaces, at, vas);
      var moved := if k < at then k else k + 1;
      assert r[at] == vas && r[moved] == spaces[k];
      assert !WellFormed(r, start, end);
    } else {
      AddSpaceIsExact(spaces, start, end, vas);
    }
  }

  /** The spaces that the search for the place of vas looks at, the list being sorted: those that begin at
      or in front of vas and the next one. None of them is in its way, unless the next one is enclosed. */
  ghost predicate NothingInTheWay(spaces: seq<Vas>, vas: Vas) {
    forall k :: 0 <= k < |spaces| && (k == 0 || spaces[k - 1].start <= vas.start) ==>
      Disjoint(vas, spaces[k]) || StrictlyEncloses(vas, spaces[k])
  }

  /** Where a sorted list takes vas. */
  ghost predicate BelongsAt(spaces: seq<Vas>, vas: Vas, at: int) {
    && 0 <= at <= |spaces|
    && (forall k :: 0 <= k < at ==> spaces[k].start <= vas.start)
    && (at < |spaces| ==> vas.start < spaces[at].start)
  }

  lemma {:induction false} PlaceIsExact(spaces: seq<Vas>, start: nat, end: nat, vas: Vas, i: nat)
    requires WellFormed(spaces, start, end) && vas.size > 0 && i <= |spaces|
    requires forall k :: 0 <= k < i ==> spaces[k].start <= vas.start && Disjoint(vas, spaces[k])
    ensures Place(spaces, vas, i).Some? <==> NothingInTheWay(spaces, vas)
    decreases |spaces| - i
  {
    if i < |spaces| {
      assert Inside(spaces[i], start, end);
      DetectionIsExactUnlessEnclosing(vas, spaces[i]);
      assert i > 0 ==> spaces[i - 1].start <= vas.start;
      if !DetectsOverlap(vas, spaces[i]) {
        if spaces[i].start > vas.start {
          forall k | i <= k < |spaces| ensures spaces[k].start > vas.start {
            assert k > i ==> spaces[i].End() <= spaces[k].start;
          }
        } else {
          PlaceIsExact(spaces, start, end, vas, i + 1);
        }
      }
    }
  }

  lemma {:induction false} PlaceBelongs(spaces: seq<Vas>, vas: Vas, i: nat) returns (at: nat)
    requires i <= |spaces| && Place(spaces, vas, i).Some? && forall k :: 0 <= k < i ==> spaces[k].start <= vas.start
    ensures BelongsAt(spaces, vas, at) && Place(spaces, vas, i).value == Insert(spaces, at, vas)
    decreases |spaces| - i
  {
    if i == |spaces| {
      at := i;
      assert spaces + [vas] == Insert(spaces, i, vas);
    } else if spaces[i].start > vas.start {
      at := i;
    } else {
      at := PlaceBelongs(spaces, vas, i + 1);
    }
  }

  /** addNewVirtualAddressSpace for every request: what it refuses and why, and where it puts the rest. */
  lemma AddSpaceAnswers(spaces: seq<Vas>, start: nat, end: nat, vas: Vas, heapOk: bool)
    requires WellFormed(spaces, start, end)
    ensures var r := AddSpace(spaces, start, end, vas, heapOk);
            var within := start <= vas.start && vas.End() <= end;
            && (r == NotAdded(Misplaced) <==> vas.start % PAGE != 0)
            && (r == NotAdded(OutOfBounds) <==> vas.start % PAGE == 0 && !within)
            && (r == NotAdded(NoMemory) <==> vas.start % PAGE == 0 && within && !heapOk)
            && (vas.size > 0 ==>
                  (r.Added? <==> vas.start % PAGE == 0 && within && heapOk && NothingInTheWay(spaces, vas)))
            && (r.NotAdded? && vas.start % PAGE == 0 && within && heapOk ==> r.error == OverlappingVas)
            && (r.Added? ==> exists at :: BelongsAt(spaces, vas, at) && r.spaces == Insert(spaces, at, vas))
  {
    var r := AddSpace(spaces, start, end, vas, heapOk);
    if vas.size > 0 {
      PlaceIsExact(spaces, start, end, vas, 0);
    }
    if r.Added? {
      if spaces == [] {
        assert BelongsAt(spaces, vas, 0) && [vas] == Insert(spaces, 0, vas);
      } else {
        var at := PlaceBelongs(spaces, vas, 0);
      }
    }
  }

  /** The overlap that goes unnoticed: three pages around one reserved page. */
  lemma EnclosingRequestIsAccepted()
    ensures var inner := Vas(2 * PAGE, PAGE, NO_FLAGS, false);
            var outer := Vas(PAGE, 3 * PAGE, NO_FLAGS, false);
            && WellFormed([inner], PAGE, 16 * PAGE) && Inside(outer, PAGE, 16 * PAGE)
            && AddSpace([inner], PAGE, 16 * PAGE, outer, true) == Added([outer, inner])
            && !WellFormed([outer, inner], PAGE, 16 * PAGE)
  {
    var inner := Vas(2 * PAGE, PAGE, NO_FLAGS, false);
    var outer := Vas(PAGE, 3 * PAGE, NO_FLAGS, false);
    assert Insert([inner], 0, outer) == [outer, inner];
    assert [outer, inner][0].End() > [outer, inner][1].start;
  }

  lemma WithoutIsWellFormed(spaces: seq<Vas>, start: nat, end: nat, k: nat)
    requires WellFormed(spaces, start, end) && k < |spaces|
    ensures WellFormed(Without(spaces, k), start, end)
  {
  }

  /** At most one space covers an address. */
  lemma FindVasIsUnique(spaces: seq<Vas>, start: nat, end: nat, va: nat, k: nat)
    requires WellFormed(spaces, start, end) && k < |spaces| && spaces[k].Covers(va)
    ensures FindVas(spaces, va, 0) == Some(k)
  {
    var r := FindVas(spaces, va, 0).value;
    assert !(r < k) && !(k < r);
  }

  // ---------------------------------------------------------------------------------------------
  // First fit.
  // ---------------------------------------------------------------------------------------------

  /** [va, va + bytes) lies in bounds and meets no existing space. */
  ghost predicate Fits(spaces: seq<Vas>, start: nat, end: nat, bytes: nat, va: nat) {
    && start <= va && va + bytes <= end
    && forall k :: 0 <= k < |spaces| ==> va + bytes <= spaces[k].start || spaces[k].End() <= va
  }

  ghost predicate HasRoom(spaces: seq<Vas>, start: nat, end: nat, bytes: nat) {
    exists x :: Fits(spaces, start, end, bytes, x)
  }

  lemma {:induction false} GapIsFirstFit(spaces: seq<Vas>, start: nat, end: nat, bytes: nat, i: nat, cursor: nat)
    requires WellFormed(spaces, start, end) && i <= |spaces| && bytes > 0 && 0 < start <= end
    requires cursor == (if i == 0 then start else spaces[i - 1].End())
    requires forall x :: start <= x < cursor ==> !Fits(spaces, start, end, bytes, x)
    ensures var r := FindGap(spaces, end, bytes, i, cursor);
            && (r != 0 ==> Fits(spaces, start, end, bytes, r))
            && (forall x :: start <= x && Fits(spaces, start, end, bytes, x) ==> r != 0 && r <= x)
    decreases |spaces| - i
  {
    assert start <= cursor <= end by {
      if i > 0 {
        assert Inside(spaces[i - 1], start, end);
      }
    }
    forall k | 0 <= k < i ensures spaces[k].End() <= cursor {
      assert k < i - 1 ==> spaces[k].End() <= spaces[i - 1].start;
    }
    if i < |spaces| {
      assert Inside(spaces[i], start, end);
      forall k | i <= k < |spaces| ensures spaces[i].start <= spaces[k].start {
        assert k > i ==> spaces[i].End() <= spaces[k].start;
      }
      if spaces[i].start - cursor < bytes {
        forall x | start <= x < spaces[i].End() ensures !Fits(spaces, start, end, bytes, x) {
          if x >= cursor {
            assert x + bytes > spaces[i].start && spaces[i].End() > x;
          }
        }
        GapIsFirstFit(spaces, start, end, bytes, i + 1, spaces[i].End());
      }
    }
  }

  /** On a non-empty list find_next_va returns the lowest address whose range is free and in bounds,
      and 0 only when there is none. */
  lemma FindNextIsFirstFit(spaces: seq<Vas>, start: nat, end: nat, pages: nat)
    requires WellFormed(spaces, start, end) && spaces != [] && pages > 0 && 0 < start <= end
    ensures var r := FindNext(spaces, start, end, pages);
            && (r != 0 <==> HasRoom(spaces, start, end, pages * PAGE))
            && (r != 0 ==> Fits(spaces, start, end, pages * PAGE, r))
            && (forall x :: start <= x && Fits(spaces, start, end, pages * PAGE, x) ==> r <= x)
  {
    GapIsFirstFit(spaces, start, end, pages * PAGE, 0, start);
  }

  /** On an empty list it never checks the size: its answer is right exactly when the range fits. */
  lemma FindNextOnEmptyList(start: nat, end: nat, pages: nat)
    requires 0 < start
    ensures var r := FindNext([], start, end, pages);
            r == start && (Fits([], start, end, pages * PAGE, r) <==> start + pages * PAGE <= end)
    ensures FindNext([], PAGE, 3 * PAGE, 5) == PAGE && !Fits([], PAGE, 3 * PAGE, 5 * PAGE, PAGE)
  {
  }

  lemma {:induction false} GapIsAligned(spaces: seq<Vas>, start: nat, end: nat, bytes: nat, i: nat, cursor: nat)
    requires WellFormed(spaces, start, end) && i <= |spaces| && cursor % PAGE == 0
    ensures FindGap(spaces, end, bytes, i, cursor) % PAGE == 0
    decreases |spaces| - i
  {
    if i < |spaces| {
      assert Inside(spaces[i], start, end);
      GapIsAligned(spaces, start, end, bytes, i + 1, spaces[i].End());
    }
  }

  /** A space put where find_next_va said is accepted. */
  lemma FoundPlaceIsAccepted(spaces: seq<Vas>, start: nat, end: nat, vas: Vas)
    requires WellFormed(spaces, start, end) && Inside(vas, start, end)
    requires Fits(spaces, start, end, vas.size, vas.start)
    ensures var r := AddSpace(spaces, start, end, vas, true);
            r.Added? && WellFormed(r.spaces, start, end)
            && exists at :: 0 <= at <= |spaces| && r.spaces == Insert(spaces, at, vas)
  {
    forall k | 0 <= k < |spaces| ensures !StrictlyEncloses(vas, spaces[k]) && Disjoint(vas, spaces[k]) {
      assert Inside(spaces[k], start, end);
    }
    AddSpaceIsExact(spaces, start, end, vas);
  }

  // ---------------------------------------------------------------------------------------------
  // s_setupProcessStackMemory.
  // ---------------------------------------------------------------------------------------------

  /** The three reservations: guard page, stack, guard page. */
  function ReserveStack(spaces: seq<Vas>, start: nat, end: nat, pages: nat, flags: Flags): (r: Option<(seq<Vas>, nat)>) {
    var va := FindNext(spaces, start, end, pages + 2);
    if va == 0 then None
    else
      match AddSpace(spaces, start, end, Vas(va, PAGE, NULL_PAGE, false), true)
      case NotAdded(_) => None
      case Added(s1) =>
        match AddSpace(s1, start, end, Vas(va + PAGE, pages * PAGE, flags, false), true)
        case NotAdded(_) => None
        case Added(s2) =>
          match AddSpace(s2, start, end, Vas(va + PAGE + pages * PAGE, PAGE, NULL_PAGE, false), true)
          case NotAdded(_) => None
          case Added(s3) => Some((s3, va + PAGE))
  }

  lemma FitsAfterInsert(spaces: seq<Vas>, start: nat, end: nat, at: nat, vas: Vas, bytes: nat, va: nat)
    requires at <= |spaces| && Fits(spaces, start, end, bytes, va)
    requires va + bytes <= vas.start || vas.End() <= va
    ensures Fits(Insert(spaces, at, vas), start, end, bytes, va)
  {
  }

  lemma SubrangeFits(spaces: seq<Vas>, start: nat, end: nat, bytes: nat, va: nat, part: nat, at: nat)
    requires Fits(spaces, start, end, bytes, va) && va <= at && at + part <= va + bytes
    ensures Fits(spaces, start, end, part, at)
  {
  }

  lemma OneReservation(spaces: seq<Vas>, start: nat, end: nat, vas: Vas, rest: nat, restAt: nat)
    requires WellFormed(spaces, start, end) && Inside(vas, start, end)
    requires Fits(spaces, start, end, vas.size, vas.start) && Fits(spaces, start, end, rest, restAt)
    requires restAt == vas.End()
    ensures var r := AddSpace(spaces, start, end, vas, true);
            && r.Added? && WellFormed(r.spaces, start, end) && vas in r.spaces
            && (forall v :: v in spaces ==> v in r.spaces) && r.spaces != []
            && Fits(r.spaces, start, end, rest, restAt)
  {
    FoundPlaceIsAccepted(spaces, start, end, vas);
    var r := AddSpace(spaces, start, end, vas, true).spaces;
    var at :| 0 <= at <= |spaces| && r == Insert(spaces, at, vas);
    FitsAfterInsert(spaces, start, end, at, vas, rest, restAt);
    assert r[at] == vas;
    forall v | v in spaces ensures v in r {
      var k :| 0 <= k < |spaces| && spaces[k] == v;
      assert v == if k < at then r[k] else r[k + 1];
    }
  }

  /** The reservations around a stack in a range that is free. */
  lemma GuardsFit(spaces: seq<Vas>, start: nat, end: nat, low: Vas, mid: Vas, high: Vas)
    requires WellFormed(spaces, start, end)
    requires Inside(low, start, end) && Inside(mid, start, end) && Inside(high, start, end)
    requires low.End() == mid.start && mid.End() == high.start
    requires Fits(spaces, start, end, low.size + mid.size + high.size, low.start)
    ensures var r1 := AddSpace(spaces, start, end, low, true);
            && r1.Added?
            && var r2 := AddSpace(r1.spaces, start, end, mid, true);
            && r2.Added?
            && var r3 := AddSpace(r2.spaces, start, end, high, true);
            && r3.Added? && WellFormed(r3.spaces, start, end)
            && low in r3.spaces && mid in r3.spaces && high in r3.spaces
            && (forall v :: v in spaces ==> v in r3.spaces)
  {
    var all := low.size + mid.size + high.size;
    SubrangeFits(spaces, start, end, all, low.start, low.size, low.start);
    SubrangeFits(spaces, start, end, all, low.start, mid.size + high.size, mid.start);
    OneReservation(spaces, start, end, low, mid.size + high.size, mid.start);
    var s1 := AddSpace(spaces, start, end, low, true).spaces;
    SubrangeFits(s1, start, end, mid.size + high.size, mid.start, mid.size, mid.start);
    SubrangeFits(s1, start, end, mid.size + high.size, mid.start, high.size, high.start);
    OneReservation(s1, start, end, mid, high.size, high.start);
    var s2 := AddSpace(s1, start, end, mid, true).spaces;
    SubrangeFits(s2, start, end, high.size, high.start, 0, high.End());
    OneReservation(s2, start, end, high, 0, high.End());
  }

  /** The reservations of a stack succeed exactly when pages + 2 free pages exist in a row, and leave
      the stack with a never-backed space directly below and directly above it. */
  lemma StackHasGuards(spaces: seq<Vas>, start: nat, end: nat, pages: nat, flags: Flags)
    requires WellFormed(spaces, start, end) && pages > 0
    requires 0 < start <= end && start % PAGE == 0
    ensures var r := ReserveStack(spaces, start, end, pages, flags);
            && (r.Some? <==> HasRoom(spaces, start, end, (pages + 2) * PAGE))
            && (r.Some? ==>
                  var (after, stack) := r.value;
                  && WellFormed(after, start, end) && (forall v :: v in spaces ==> v in after)
                  && stack >= PAGE
                  && Vas(stack, pages * PAGE, flags, false) in after
                  && Vas(stack - PAGE, PAGE, NULL_PAGE, false) in after
                  && Vas(stack + pages * PAGE, PAGE, NULL_PAGE, false) in after)
  {
    hide FindNext, FindGap, AddSpace, Fits, WellFormed, HasRoom;
    if spaces == [] && start + (pages + 2) * PAGE > end {
      StackTooLarge(start, end, pages, flags);
      return;
    }
    PlaceOfStack(spaces, start, end, pages + 2);
    var va := FindNext(spaces, start, end, pages + 2);
    if va != 0 {
      FoundIsInside(spaces, start, end, (pages + 2) * PAGE, va);
      GuardsFit(spaces, start, end, Vas(va, PAGE, NULL_PAGE, false), Vas(va + PAGE, pages * PAGE, flags, false),
                Vas(va + PAGE + pages * PAGE, PAGE, NULL_PAGE, false));
    }
  }

  /** On an empty list find_next_va answers although there is no room; one of the reservations fails then. */
  lemma StackTooLarge(start: nat, end: nat, pages: nat, flags: Flags)
    requires 0 < start <= end && pages > 0 && start + (pages + 2) * PAGE > end
    ensures ReserveStack([], start, end, pages, flags).None? && !HasRoom([], start, end, (pages + 2) * PAGE)
  {
  }

  lemma PlaceOfStack(spaces: seq<Vas>, start: nat, end: nat, pages: nat)
    requires WellFormed(spaces, start, end) && pages > 0 && 0 < start <= end && start % PAGE == 0
    requires spaces == [] ==> start + pages * PAGE <= end
    ensures var va := FindNext(spaces, start, end, pages);
      && va % PAGE == 0 && (va != 0 <==> HasRoom(spaces, start, end, pages * PAGE))
      && (va != 0 ==> Fits(spaces, start, end, pages * PAGE, va))
  {
    if spaces == [] {
      assert Fits(spaces, start, end, pages * PAGE, start);
    } else {
      FindNextIsFirstFit(spaces, start, end, pages);
      FoundIsAligned(spaces, start, end, pages);
    }
  }

  lemma FoundIsAligned(spaces: seq<Vas>, start: nat, end: nat, pages: nat)
    requires WellFormed(spaces, start, end) && spaces != [] && start % PAGE == 0
    ensures FindNext(spaces, start, end, pages) % PAGE == 0
  {
    GapIsAligned(spaces, start, end, pages * PAGE, 0, start);
  }

  lemma FoundIsInside(spaces: seq<Vas>, start: nat, end: nat, bytes: nat, va: nat)
    requires Fits(spaces, start, end, bytes, va)
    ensures start <= va && va + bytes <= end
  {
  }
}
