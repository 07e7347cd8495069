/** What the physical memory manager (src/kernel/pmm.c) does, on a sequence of page-frame states. */
module FrameStates {
  import opened Bitmaps

  const PAGE: nat := 4096
  /** Addresses and sums of them are 32 bits wide, so there are 2^20 frames. */
  const ADDRESS_LIMIT: nat := 0x1_0000_0000
  const FRAME_LIMIT: nat := 0x10_0000

  datatype PageState = Free | Used | Reserved | Invalid

  type Frames = seq<PageState>

  datatype PmmError = InvalidArgument | OutsideRange | WrongAlignment | DoubleAlloc | OutOfMem

  /** Panicked: the kernel has halted inside s_verifyChange. */
  datatype Reply = Done | Refused(error: PmmError) | Panicked

  /** s_verifyChange once the PMM is ready: it answers true or it panics. */
  predicate Permitted(usable: nat, frame: nat, was: PageState, now: PageState) {
    && frame <= usable
    && !(was == Used && now == Used)
    && !(was == Free && now == Free)
    && was != Reserved
    && was != Invalid
  }

  function Permit(usable: nat): (nat, PageState, PageState) -> bool {
    (frame: nat, was, now) => Permitted(usable, frame, was, now)
  }

  /** A change of count frames; a refusal in the middle leaves the prefix changed and panics. */
  function Change(fs: Frames, usable: nat, at: nat, count: nat, now: PageState): (r: (Frames, Reply))
    requires at + count <= |fs|
    ensures |r.0| == |fs|
  {
    var n := AllowedPrefix(fs, at, count, now, Permit(usable));
    (SetRun(fs, at, n, now), if n == count then Done else Panicked)
  }

  /** The last byte of count > 0 pages from start, as the 32-bit sum of the source has it. No address lies
      past 4 GiB; a number that does counts as out of range. */
  function EndByte(start: nat, count: nat): (r: int)
    ensures start >= ADDRESS_LIMIT || start + count * PAGE <= ADDRESS_LIMIT ==> count > 0 ==> r == start + count * PAGE - 1
  {
    if start >= ADDRESS_LIMIT then start + count * PAGE - 1 else (start + count * PAGE - 1) % ADDRESS_LIMIT
  }

  /** kpmm_free. A range that leaves the bitmap is an assertion of bitmap_setContinous. */
  function FreePages(fs: Frames, usableBytes: nat, start: nat, count: nat): (r: (Frames, Reply))
    requires usableBytes / PAGE <= |fs|
    ensures |r.0| == |fs|
  {
    if count == 0 then (fs, Refused(InvalidArgument))
    else if EndByte(start, count) >= usableBytes then (fs, Refused(OutsideRange))
    else if start % PAGE != 0 then (fs, Refused(WrongAlignment))
    else if start / PAGE + count > |fs| then (fs, Panicked)
    else Change(fs, usableBytes / PAGE, start / PAGE, count, Free)
  }

  /** kpmm_free of whole frames, in frame numbers. */
  function FreeRun(fs: Frames, usable: nat, at: nat, count: nat): (r: (Frames, Reply))
    requires usable <= |fs|
    ensures |r.0| == |fs|
  {
    if count == 0 then (fs, Refused(InvalidArgument))
    else if at + count > usable then (fs, Refused(OutsideRange))
    else Change(fs, usable, at, count, Free)
  }

  lemma FreePagesIsFreeRun(fs: Frames, usableBytes: nat, at: nat, count: nat)
    requires usableBytes / PAGE <= |fs|
    requires at * PAGE >= ADDRESS_LIMIT || at * PAGE + count * PAGE <= ADDRESS_LIMIT
    ensures FreePages(fs, usableBytes, at * PAGE, count) == FreeRun(fs, usableBytes / PAGE, at, count)
  {
    assert at * PAGE % PAGE == 0 && at * PAGE / PAGE == at;
    assert count > 0 ==> (at * PAGE + count * PAGE - 1 >= usableBytes <==> at + count > usableBytes / PAGE);
  }

  function AllocAt(fs: Frames, usableBytes: nat, start: nat, count: nat): (r: (Frames, Reply))
    requires usableBytes / PAGE <= |fs|
    ensures |r.0| == |fs|
  {
    if count == 0 then (fs, Refused(InvalidArgument))
    else if EndByte(start, count) >= usableBytes then (fs, Refused(OutsideRange))
    else if start % PAGE != 0 then (fs, Refused(WrongAlignment))
    else if !RunAt(fs, Free, count, start / PAGE) then (fs, Refused(DoubleAlloc))
    else Change(fs, usableBytes / PAGE, start / PAGE, count, Used)
  }

  /** kpmm_alloc. The third component is the frame number of the first page, meaningful on Done only. */
  function Alloc(fs: Frames, usable: nat, count: nat): (r: (Frames, Reply, nat))
    ensures |r.0| == |fs|
    ensures r.1.Done? ==> r.2 + count <= |fs|
  {
    if count == 0 then (fs, Refused(InvalidArgument), 0)
    else
      var frame := FirstRun(fs, Free, count, 0);
      if frame == -1 then (fs, Refused(OutOfMem), 0)
      else
        var (after, reply) := Change(fs, usable, frame, count, Used);
        (after, reply, frame)
  }

  /** A range in the bitmap does not wrap around. */
  lemma InRange(capacity: nat, usableBytes: nat, start: nat, count: nat)
    requires usableBytes / PAGE <= capacity <= FRAME_LIMIT && count > 0
    requires start % PAGE == 0 && start / PAGE + count <= capacity && EndByte(start, count) < usableBytes
    ensures start + count * PAGE <= ADDRESS_LIMIT && start / PAGE + count <= usableBytes / PAGE
  {
    assert start == PAGE * (start / PAGE);
  }

  // ---------------------------------------------------------------------------------------------
  // What callers rely on.
  // ---------------------------------------------------------------------------------------------

  /** kpmm_init marks nothing at or past usable memory FREE. */
  ghost predicate NoFreeBeyond(fs: Frames, usable: nat) {
    forall f :: usable <= f < |fs| ==> fs[f] != Free
  }

  /** kpmm_alloc succeeds exactly when a run exists; then it takes the lowest one, inside usable
      memory, and touches no other frame. */
  lemma AllocTakesLowestRun(fs: Frames, usable: nat, count: nat)
    requires NoFreeBeyond(fs, usable) && count > 0
    ensures var (after, reply, at) := Alloc(fs, usable, count);
            && reply.Done? == (exists i :: 0 <= i < |fs| && RunAt(fs, Free, count, i))
            && (!reply.Done? ==> reply == Refused(OutOfMem) && after == fs)
            && (reply.Done? ==>
                  && RunAt(fs, Free, count, at) && at + count <= usable
                  && (forall i :: 0 <= i < at ==> !RunAt(fs, Free, count, i))
                  && after == SetRun(fs, at, count, Used) && NoFreeBeyond(after, usable))
  {
    var at := FirstRun(fs, Free, count, 0);
    FirstRunIsLeast(fs, Free, count, 0);
    if at != -1 {
      assert fs[at + count - 1] == Free;
      AllowedPrefixIs(fs, at, count, Used, Permit(usable), count);
    }
  }

  lemma AllocAtTakesRun(fs: Frames, usableBytes: nat, start: nat, count: nat)
    requires NoFreeBeyond(fs, usableBytes / PAGE) && usableBytes / PAGE <= |fs|
    ensures var (after, reply) := AllocAt(fs, usableBytes, start, count);
            && !reply.Panicked?
            && (!reply.Done? ==> after == fs)
            && (reply.Done? ==>
                  && count > 0 && RunAt(fs, Free, count, start / PAGE)
                  && start / PAGE + count <= usableBytes / PAGE
                  && after == SetRun(fs, start / PAGE, count, Used) && NoFreeBeyond(after, usableBytes / PAGE))
  {
    var (after, reply) := AllocAt(fs, usableBytes, start, count);
    if !reply.Refused? {
      assert fs[start / PAGE + count - 1] == Free;
      AllowedPrefixIs(fs, start / PAGE, count, Used, Permit(usableBytes / PAGE), count);
    }
  }

  /** kpmm_allocAt succeeds exactly on a run of whole, free and usable frames, and says which check failed
      otherwise; it never panics. */
  lemma AllocAtIsExact(fs: Frames, usableBytes: nat, start: nat, count: nat)
    requires usableBytes / PAGE <= |fs| <= FRAME_LIMIT && usableBytes <= ADDRESS_LIMIT
    ensures var reply := AllocAt(fs, usableBytes, start, count).1;
            && !reply.Panicked?
            && (reply.Done? <==> count > 0 && start % PAGE == 0 && start / PAGE + count <= usableBytes / PAGE
                                 && RunAt(fs, Free, count, start / PAGE))
            && (count == 0 ==> reply == Refused(InvalidArgument))
            && (count > 0 && start + count * PAGE <= usableBytes && !reply.Done? ==>
                  reply == Refused(if start % PAGE != 0 then WrongAlignment else DoubleAlloc))
            && (start + count * PAGE > usableBytes && count > 0 && !WrapsBack(usableBytes, start, count) ==>
                  reply == Refused(OutsideRange))
  {
    ByteRange(fs, usableBytes, start, count);
    if count > 0 && RunAt(fs, Free, count, start / PAGE) && start / PAGE + count <= usableBytes / PAGE {
      AllowedPrefixIs(fs, start / PAGE, count, Used, Permit(usableBytes / PAGE), count);
    }
  }

  /** The byte checks and the frame checks of a page address agree. */
  lemma ByteRange(fs: Frames, usableBytes: nat, start: nat, count: nat)
    requires usableBytes / PAGE <= |fs| <= FRAME_LIMIT && usableBytes <= ADDRESS_LIMIT
    ensures count > 0 && start % PAGE == 0 ==>
      (start / PAGE + count <= |fs| && EndByte(start, count) < usableBytes <==> start / PAGE + count <= usableBytes / PAGE)
  {
    if count > 0 && start % PAGE == 0 {
      assert start == PAGE * (start / PAGE);
      if start / PAGE + count <= |fs| && EndByte(start, count) < usableBytes {
        InRange(|fs|, usableBytes, start, count);
      }
    }
  }

  /** kpmm_free gives back exactly a run of whole, USED and usable frames, says which check failed, and
      panics on a run in range that is not USED. */
  lemma FreeIsExact(fs: Frames, usableBytes: nat, start: nat, count: nat)
    requires usableBytes / PAGE <= |fs| <= FRAME_LIMIT && usableBytes <= ADDRESS_LIMIT
    ensures var (after, reply) := FreePages(fs, usableBytes, start, count);
            && (reply.Done? <==> count > 0 && start % PAGE == 0 && start / PAGE + count <= usableBytes / PAGE
                                 && RunAt(fs, Used, count, start / PAGE))
            && (reply.Done? ==> after == SetRun(fs, start / PAGE, count, Free))
            && (reply.Refused? ==> after == fs)
            && (count == 0 ==> reply == Refused(InvalidArgument))
            && (count > 0 && start + count * PAGE <= usableBytes && !reply.Done? ==>
                  reply == if start % PAGE != 0 then Refused(WrongAlignment) else Panicked)
            && (start + count * PAGE > usableBytes && count > 0 && !WrapsBack(usableBytes, start, count) ==>
                  reply == Refused(OutsideRange))
  {
    ByteRange(fs, usableBytes, start, count);
    if count > 0 && start % PAGE == 0 && start / PAGE + count <= usableBytes / PAGE {
      FreeGivesBackRun(fs, usableBytes / PAGE, start / PAGE, count);
    }
  }

  /** The changes that s_verifyChange lets pass: frames between FREE and USED, up to the one behind usable
      memory. Any other change panics. */
  lemma ChangeIsExact(fs: Frames, usable: nat, at: nat, count: nat, now: PageState)
    requires at + count <= |fs| && count > 0 && (now == Free || now == Used)
    ensures var (after, reply) := Change(fs, usable, at, count, now);
            && (reply.Done? <==> at + count <= usable + 1 && RunAt(fs, if now == Free then Used else Free, count, at))
            && (reply.Done? ==> after == SetRun(fs, at, count, now)) && (!reply.Done? ==> reply.Panicked?)
  {
    var was := if now == Free then Used else Free;
    AllowedPrefixStops(fs, at, count, now, Permit(usable));
    if AllowedPrefix(fs, at, count, now, Permit(usable)) == count {
      forall k | at <= k < at + count ensures k <= usable && fs[k] == was {
        assert Permit(usable)(k, fs[k], now);
      }
      assert fs[at + count - 1] == was;
    }
    if RunAt(fs, was, count, at) && at + count <= usable + 1 {
      AllowedPrefixIs(fs, at, count, now, Permit(usable), count);
    }
  }

  /** kpmm_alloc of nothing. */
  lemma AllocOfNothing(fs: Frames, usable: nat)
    ensures Alloc(fs, usable, 0).0 == fs && Alloc(fs, usable, 0).1 == Refused(InvalidArgument)
  {
  }

  /** Does the byte range wrap around 32 bits, with its end back in usable memory? */
  predicate WrapsBack(usableBytes: nat, start: nat, count: nat) {
    count > 0 && start < ADDRESS_LIMIT < start + count * PAGE && EndByte(start, count) < usableBytes
  }

  /** The range check of kpmm_free and kpmm_allocAt is right exactly when the range does not wrap back. If
      it does, the bitmap's own checks see to it that nothing is granted and nothing changes: kpmm_allocAt
      is refused, and kpmm_free refuses a misaligned address and fails an assertion otherwise. */
  lemma RangeCheckIsRightUnlessItWrapsBack(fs: Frames, usableBytes: nat, start: nat, count: nat)
    requires usableBytes / PAGE <= |fs| <= FRAME_LIMIT && usableBytes <= ADDRESS_LIMIT && count > 0
    ensures (EndByte(start, count) >= usableBytes <==> start + count * PAGE > usableBytes) <==> !WrapsBack(usableBytes, start, count)
    ensures WrapsBack(usableBytes, start, count) ==>
              && AllocAt(fs, usableBytes, start, count)
                 == (fs, Refused(if start % PAGE != 0 then WrongAlignment else DoubleAlloc))
              && FreePages(fs, usableBytes, start, count)
                 == (fs, if start % PAGE != 0 then Refused(WrongAlignment) else Panicked)
  {
    if WrapsBack(usableBytes, start, count) && start % PAGE == 0 {
      assert start == PAGE * (start / PAGE);
      assert start / PAGE + count > FRAME_LIMIT;
    }
  }

  /** Two pages from the last frame on: the check lets them pass. */
  lemma WrappingRangePasses(usableBytes: nat)
    requires PAGE <= usableBytes
    ensures WrapsBack(usableBytes, ADDRESS_LIMIT - PAGE, 2)
  {
  }

  /** kpmm_free goes through exactly when every frame of the range is USED and usable. */
  lemma FreeGivesBackRun(fs: Frames, usable: nat, at: nat, count: nat)
    requires usable <= |fs| && count > 0
    ensures var (after, reply) := FreeRun(fs, usable, at, count);
            && reply.Done? == (at + count <= usable && RunAt(fs, Used, count, at))
            && (reply.Refused? ==> after == fs)
            && (reply.Done? ==> after == SetRun(fs, at, count, Free))
  {
    if at + count <= usable {
      var n := AllowedPrefix(fs, at, count, Free, Permit(usable));
      AllowedPrefixStops(fs, at, count, Free, Permit(usable));
      if RunAt(fs, Used, count, at) {
        AllowedPrefixIs(fs, at, count, Free, Permit(usable), count);
      }
      if n == count {
        forall i | at <= i < at + count ensures fs[i] == Used {
          assert Permit(usable)(i, fs[i], Free);
        }
      }
    }
  }

  lemma FreeKeepsNoFreeBeyond(fs: Frames, usableBytes: nat, start: nat, count: nat)
    requires usableBytes / PAGE <= |fs| <= FRAME_LIMIT && NoFreeBeyond(fs, usableBytes / PAGE)
    ensures NoFreeBeyond(FreePages(fs, usableBytes, start, count).0, usableBytes / PAGE)
  {
    if count > 0 && start % PAGE == 0 && start / PAGE + count <= |fs| && EndByte(start, count) < usableBytes {
      InRange(|fs|, usableBytes, start, count);
    }
  }

  /** Freeing what was just allocated restores every state. */
  lemma FreeUndoesAlloc(fs: Frames, usableBytes: nat, count: nat)
    requires NoFreeBeyond(fs, usableBytes / PAGE) && usableBytes / PAGE <= |fs| && count > 0 && usableBytes <= ADDRESS_LIMIT
    requires Alloc(fs, usableBytes / PAGE, count).1.Done?
    ensures var (after, _, at) := Alloc(fs, usableBytes / PAGE, count);
            FreePages(after, usableBytes, at * PAGE, count) == (fs, Done)
  {
    var usable := usableBytes / PAGE;
    var (after, _, at) := Alloc(fs, usable, count);
    AllocTakesLowestRun(fs, usable, count);
    assert (at + count) * PAGE <= usable * PAGE <= usableBytes;
    FreePagesIsFreeRun(after, usableBytes, at, count);
    FreeGivesBackRun(after, usable, at, count);
    assert SetRun(after, at, count, Free) == fs;
  }

  // ---------------------------------------------------------------------------------------------
  // Whole runs.
  // ---------------------------------------------------------------------------------------------

  datatype Op = AllocOp(count: nat) | AllocAtOp(start: nat, count: nat) | FreeOp(start: nat, count: nat)

  /** holdings[i] is what is left of the i-th grant; holdings[0] starts as the frames USED at boot. */
  datatype History = History(frames: Frames, holdings: seq<set<nat>>)

  function Range(at: nat, count: nat): (r: set<nat>)
    ensures forall f :: f in r <==> at <= f < at + count
    decreases count
  {
    if count == 0 then {} else {at} + Range(at + 1, count - 1)
  }

  ghost function Removed(holdings: seq<set<nat>>, gone: set<nat>): (r: seq<set<nat>>)
    ensures |r| == |holdings|
    ensures forall i :: 0 <= i < |r| ==> r[i] == holdings[i] - gone
  {
    seq(|holdings|, i requires 0 <= i < |holdings| => holdings[i] - gone)
  }

  ghost function Step(h: History, usableBytes: nat, op: Op): (r: History)
    requires usableBytes / PAGE <= |h.frames|
    ensures |r.frames| == |h.frames|
  {
    match op
    case AllocOp(count) =>
      var (after, reply, at) := Alloc(h.frames, usableBytes / PAGE, count);
      History(after, if reply.Done? then h.holdings + [Range(at, count)] else h.holdings)
    case AllocAtOp(start, count) =>
      var (after, reply) := AllocAt(h.frames, usableBytes, start, count);
      History(after, if reply.Done? then h.holdings + [Range(start / PAGE, count)] else h.holdings)
    case FreeOp(start, count) =>
      var (after, reply) := FreePages(h.frames, usableBytes, start, count);
      History(after, if reply.Done? then Removed(h.holdings, Range(start / PAGE, count)) else h.holdings)
  }

  /** Panics are the end of a run. */
  ghost predicate Survives(h: History, usableBytes: nat, op: Op)
    requires usableBytes / PAGE <= |h.frames|
  {
    match op
    case AllocOp(count) => !Alloc(h.frames, usableBytes / PAGE, count).1.Panicked?
    case AllocAtOp(start, count) => !AllocAt(h.frames, usableBytes, start, count).1.Panicked?
    case FreeOp(start, count) => !FreePages(h.frames, usableBytes, start, count).1.Panicked?
  }

  ghost function Run(h: History, usableBytes: nat, ops: seq<Op>): (r: History)
    requires usableBytes / PAGE <= |h.frames|
    ensures |r.frames| == |h.frames|
    decreases |ops|
  {
    if ops == [] || !Survives(h, usableBytes, ops[0]) then h
    else Run(Step(h, usableBytes, ops[0]), usableBytes, ops[1..])
  }

  ghost predicate AllUsed(fs: Frames, held: set<nat>) {
    forall f :: f in held ==> f < |fs| && fs[f] == Used
  }

  /** The outstanding grants share no frame, lie in usable memory, and are all the USED frames. */
  ghost predicate Accounted(h: History, usable: nat) {
    && NoFreeBeyond(h.frames, usable)
    && (forall i, j :: 0 <= i < j < |h.holdings| ==> h.holdings[i] !! h.holdings[j])
    && (forall i :: 1 <= i < |h.holdings| ==> forall f :: f in h.holdings[i] ==> f < usable)
    && (forall i :: 0 <= i < |h.holdings| ==> AllUsed(h.frames, h.holdings[i]))
    && (forall f :: 0 <= f < |h.frames| && h.frames[f] == Used ==>
          Held(h.holdings, f))
  }

  lemma GrantKeepsAccounted(h: History, usable: nat, at: nat, count: nat)
    requires Accounted(h, usable) && at + count <= usable <= |h.frames| && RunAt(h.frames, Free, count, at)
    requires |h.holdings| > 0
    ensures Accounted(History(SetRun(h.frames, at, count, Used), h.holdings + [Range(at, count)]), usable)
  {
    hide SetRun, Range;
    var g := History(SetRun(h.frames, at, count, Used), h.holdings + [Range(at, count)]);
    GrantIsApart(h, usable, at, count);
    forall f: nat | f < |g.frames| && g.frames[f] == Used ensures Held(g.holdings, f) {
      UsedIsHeld(h, usable, at, count, f);
    }
    forall i | 0 <= i < |g.holdings| ensures AllUsed(g.frames, g.holdings[i]) {
      if i < |h.holdings| {
        assert AllUsed(h.frames, h.holdings[i]);
      }
    }
  }

  lemma GrantIsApart(h: History, usable: nat, at: nat, count: nat)
    requires Accounted(h, usable) && at + count <= usable <= |h.frames| && RunAt(h.frames, Free, count, at)
    ensures var g := h.holdings + [Range(at, count)];
      forall i, j :: 0 <= i < j < |g| ==> g[i] !! g[j]
  {
    hide Range;
    forall i | 0 <= i < |h.holdings| ensures h.holdings[i] !! Range(at, count) {
      assert AllUsed(h.frames, h.holdings[i]);
    }
  }

  ghost predicate Held(holdings: seq<set<nat>>, f: nat) {
    exists i :: 0 <= i < |holdings| && f in holdings[i]
  }

  lemma UsedIsHeld(h: History, usable: nat, at: nat, count: nat, f: nat)
    requires Accounted(h, usable) && at + count <= |h.frames| && |h.holdings| > 0
    requires f < |h.frames| && SetRun(h.frames, at, count, Used)[f] == Used
    ensures Held(h.holdings + [Range(at, count)], f)
  {
    hide SetRun, Range;
    var g := h.holdings + [Range(at, count)];
    if at <= f < at + count {
      assert f in g[|h.holdings|];
    } else {
      var i :| 0 <= i < |h.holdings| && f in h.holdings[i];
      assert f in g[i];
    }
  }

  lemma ReturnKeepsAccounted(h: History, usable: nat, at: nat, count: nat)
    requires Accounted(h, usable) && at + count <= usable <= |h.frames| && RunAt(h.frames, Used, count, at)
    ensures Accounted(History(SetRun(h.frames, at, count, Free), Removed(h.holdings, Range(at, count))), usable)
  {
    var g := History(SetRun(h.frames, at, count, Free), Removed(h.holdings, Range(at, count)));
    forall f | 0 <= f < |g.frames| && g.frames[f] == Used
      ensures exists i :: 0 <= i < |g.holdings| && f in g.holdings[i]
    {
      var i :| 0 <= i < |h.holdings| && f in h.holdings[i];
      assert f in g.holdings[i];
    }
    forall i | 0 <= i < |g.holdings| ensures AllUsed(g.frames, g.holdings[i]) {
      assert AllUsed(h.frames, h.holdings[i]);
    }
  }

  lemma StepKeepsAccounted(h: History, usableBytes: nat, op: Op)
    requires usableBytes / PAGE <= |h.frames| <= FRAME_LIMIT && Accounted(h, usableBytes / PAGE) && |h.holdings| > 0
    requires Survives(h, usableBytes, op)
    ensures var g := Step(h, usableBytes, op); Accounted(g, usableBytes / PAGE) && |g.holdings| > 0
  {
    var usable := usableBytes / PAGE;
    match op
    case AllocOp(count) =>
      if count > 0 {
        AllocTakesLowestRun(h.frames, usableBytes / PAGE, count);
        var (_, reply, at) := Alloc(h.frames, usableBytes / PAGE, count);
        if reply.Done? {
          GrantKeepsAccounted(h, usable, at, count);
        }
      }
    case AllocAtOp(start, count) =>
      AllocAtTakesRun(h.frames, usableBytes, start, count);
      if AllocAt(h.frames, usableBytes, start, count).1.Done? {
        GrantKeepsAccounted(h, usable, start / PAGE, count);
      }
    case FreeOp(start, count) =>
      if FreePages(h.frames, usableBytes, start, count).1.Done? {
        assert start / PAGE * PAGE == start;
        InRange(|h.frames|, usableBytes, start, count);
        FreePagesIsFreeRun(h.frames, usableBytes, start / PAGE, count);
        FreeGivesBackRun(h.frames, usable, start / PAGE, count);
        ReturnKeepsAccounted(h, usable, start / PAGE, count);
      }
  }

  /** After any run of calls the outstanding grants are pairwise disjoint and account for every USED frame. */
  lemma {:induction false} RunKeepsAccounted(h: History, usableBytes: nat, ops: seq<Op>)
    requires usableBytes / PAGE <= |h.frames| <= FRAME_LIMIT && Accounted(h, usableBytes / PAGE) && |h.holdings| > 0
    ensures Accounted(Run(h, usableBytes, ops), usableBytes / PAGE)
    decreases |ops|
  {
    if ops != [] && Survives(h, usableBytes, ops[0]) {
      StepKeepsAccounted(h, usableBytes, ops[0]);
      RunKeepsAccounted(Step(h, usableBytes, ops[0]), usableBytes, ops[1..]);
    }
  }

  /** The start of every run: the frames USED at boot are one holding. */
  lemma BootIsAccounted(fs: Frames, usable: nat)
    requires NoFreeBeyond(fs, usable)
    ensures Accounted(History(fs, [set f | 0 <= f < |fs| && fs[f] == Used]), usable)
  {
    var used := set f | 0 <= f < |fs| && fs[f] == Used;
    var h := History(fs, [used]);
    forall f | 0 <= f < |fs| && fs[f] == Used ensures exists i :: 0 <= i < |h.holdings| && f in h.holdings[i] {
      assert f in h.holdings[0];
    }
  }

  // ---------------------------------------------------------------------------------------------
  // Free memory.
  // ---------------------------------------------------------------------------------------------

  function FreeFrames(fs: Frames, from: nat, to: nat): (r: set<nat>)
    requires to <= |fs|
  {
    set f | from <= f < to && fs[f] == Free
  }

  lemma FreeFramesGrow(fs: Frames, from: nat, to: nat)
    requires from <= to < |fs|
    ensures |FreeFrames(fs, from, to + 1)| == |FreeFrames(fs, from, to)| + if fs[to] == Free then 1 else 0
  {
    if fs[to] == Free {
      assert FreeFrames(fs, from, to + 1) == FreeFrames(fs, from, to) + {to};
    } else {
      assert FreeFrames(fs, from, to + 1) == FreeFrames(fs, from, to);
    }
  }
}
