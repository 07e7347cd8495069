/** src/kernel/pmm.c over the packed bitmap. */
module PhysicalMemory {
  import opened Bitmaps
  import opened FrameStates

  const PAB_BITS_PER_STATE: nat := 2

  function Decode(st: State): PageState {
    if st == 0 then Free else if st == 1 then Used else if st == 2 then Reserved else Invalid
  }

  /** KernelPhysicalMemoryStates counts from PMM_STATE_FREE, and no two states share a number. */
  lemma StatesAreNumbered(st: State)
    requires st <= 3
    ensures st as nat == match Decode(st) case Free => 0 case Used => 1 case Reserved => 2 case Invalid => 3
  {
    assert st == 0 || st == 1 || st == 2 || st == 3;
  }

  ghost function DecodeAll(s: seq<State>): (fs: Frames)
    ensures |fs| == |s|
    ensures forall i :: 0 <= i < |s| ==> fs[i] == Decode(s[i])
  {
    seq(|s|, i requires 0 <= i < |s| => Decode(s[i]))
  }

  /** Every state of a two-bit map is one of the four. */
  ghost predicate TwoBits(s: seq<State>) {
    forall i :: 0 <= i < |s| ==> s[i] <= 3
  }

  lemma SlotsAreTwoBits(bytes: seq<bv8>)
    ensures TwoBits(Unpack(bytes, 2))
  {
    var s := Unpack(bytes, 2);
    forall i | 0 <= i < |s| ensures s[i] <= 3 {
      SplitIndex(|bytes|, 2, i);
      assert s[i] == StateAt(bytes, 2, i);
      MaskBounds(Shr(bytes[i / 4], Offset(2, i % 4)));
    }
  }

  lemma MaskBounds(b: bv8)
    ensures b & 3 <= 3
  {
  }

  lemma RunsAgree(s: seq<State>, st: State, len: nat, at: nat)
    requires TwoBits(s) && st <= 3
    ensures RunAt(s, st, len, at) == RunAt(DecodeAll(s), Decode(st), len, at)
  {
    var fs := DecodeAll(s);
    if RunAt(fs, Decode(st), len, at) {
      forall k | at <= k < at + len ensures s[k] == st {
        assert fs[k] == Decode(st);
      }
    }
  }

  lemma {:induction false} SearchesAgree(s: seq<State>, st: State, len: nat, from: nat)
    requires TwoBits(s) && st <= 3 && from <= |s|
    ensures FirstRun(s, st, len, from) == FirstRun(DecodeAll(s), Decode(st), len, from)
    decreases |s| - from
  {
    if from < |s| {
      RunsAgree(s, st, len, from);
      SearchesAgree(s, st, len, from + 1);
    }
  }

  /** The callback installed in the bitmap. */
  function VerifyChange(usable: nat): (nat, State, State) -> bool {
    (frame: nat, was, now) => Permitted(usable, frame, Decode(was), Decode(now))
  }

  lemma {:induction false} PrefixesAgree(s: seq<State>, at: nat, len: nat, st: State, usable: nat)
    requires at + len <= |s|
    ensures AllowedPrefix(s, at, len, st, VerifyChange(usable))
         == AllowedPrefix(DecodeAll(s), at, len, Decode(st), Permit(usable))
    decreases len
  {
    if len > 0 {
      PrefixesAgree(s, at + 1, len - 1, st, usable);
    }
  }

  lemma UpdatesAgree(s: seq<State>, at: nat, n: nat, st: State)
    requires at + n <= |s|
    ensures DecodeAll(SetRun(s, at, n, st)) == SetRun(DecodeAll(s), at, n, Decode(st))
  {
  }

  class Pmm {
    const pab: Bitmap
    const usableBytes: nat

    constructor (pab: Bitmap, usableBytes: nat)
      requires pab.bits == PAB_BITS_PER_STATE && usableBytes / PAGE <= pab.Capacity()
      ensures this.pab == pab && this.usableBytes == usableBytes && Ready()
    {
      this.pab, this.usableBytes := pab, usableBytes;
    }

    /** Usable memory never exceeds what the bitmap can describe (kpmm_getUsableMemorySize). */
    ghost predicate Ready() {
      pab.bits == PAB_BITS_PER_STATE && usableBytes / PAGE <= pab.Capacity()
    }

    function UsablePages(): nat {
      usableBytes / PAGE
    }

    ghost function StateMap(): (fs: Frames)
      requires Ready()
      reads pab.bytes
      ensures |fs| == pab.Capacity()
    {
      DecodeAll(pab.States())
    }

    /** The bitmap update shared by the three operations. */
    method Change(at: nat, count: nat, now: State) returns (reply: Reply)
      requires Ready() && now <= 3 && count > 0 && at + count <= pab.Capacity()
      modifies pab.bytes
      ensures (StateMap(), reply) == FrameStates.Change(old(StateMap()), UsablePages(), at, count, Decode(now))
    {
      ghost var was := pab.States();
      var ok := pab.SetContinous(at, count, now, VerifyChange(UsablePages()));
      PrefixesAgree(was, at, count, now, UsablePages());
      ghost var n := AllowedPrefix(was, at, count, now, VerifyChange(UsablePages()));
      UpdatesAgree(was, at, n, now);
      reply := if ok then Done else Panicked;
    }

    /** The assertion of bitmap_setContinous behind the checks of kpmm_free. */
    ghost predicate StaysInBitmap(start: nat, count: nat)
      requires Ready()
    {
      count > 0 && start % PAGE == 0 && EndByte(start, count) < usableBytes ==> start / PAGE + count <= pab.Capacity()
    }

    /** A single page never fails it. */
    lemma OnePageStays(frame: nat)
      requires Ready()
      ensures StaysInBitmap(frame * PAGE, 1)
    {
      if EndByte(frame * PAGE, 1) < usableBytes {
        assert frame * PAGE + PAGE - 1 < usableBytes;
      }
    }

    /** kpmm_free. */
    method Free(start: nat, count: nat) returns (reply: Reply)
      requires Ready() && StaysInBitmap(start, count)
      modifies pab.bytes
      ensures (StateMap(), reply) == FreePages(old(StateMap()), usableBytes, start, count)
    {
      if count == 0 {
        return Refused(InvalidArgument);
      }
      if EndByte(start, count) >= usableBytes {
        return Refused(OutsideRange);
      }
      if start % PAGE != 0 {
        return Refused(WrongAlignment);
      }
      reply := Change(start / PAGE, count, 0);
    }

    /** kpmm_allocAt. */
    method AllocAt(start: nat, count: nat) returns (reply: Reply)
      requires Ready()
      modifies pab.bytes
      ensures (StateMap(), reply) == FrameStates.AllocAt(old(StateMap()), usableBytes, start, count)
    {
      if count == 0 {
        return Refused(InvalidArgument);
      }
      if EndByte(start, count) >= usableBytes {
        return Refused(OutsideRange);
      }
      if start % PAGE != 0 {
        return Refused(WrongAlignment);
      }
      SlotsAreTwoBits(pab.bytes[..]);
      RunsAgree(pab.States(), 0, count, start / PAGE);
      var found := pab.FindContinousAt(0, count, start / PAGE);
      if !found {
        return Refused(DoubleAlloc);
      }
      reply := Change(start / PAGE, count, 1);
    }

    /** kpmm_alloc; frame is meaningful on Done only. */
    method Alloc(count: nat) returns (reply: Reply, frame: nat)
      requires Ready()
      modifies pab.bytes
      ensures (StateMap(), reply, frame) == FrameStates.Alloc(old(StateMap()), UsablePages(), count)
    {
      frame := 0;
      if count == 0 {
        return Refused(InvalidArgument), 0;
      }
      SlotsAreTwoBits(pab.bytes[..]);
      SearchesAgree(pab.States(), 0, count, 0);
      var found := pab.FindContinous(0, count);
      if found == -1 {
        return Refused(OutOfMem), 0;
      }
      frame := found;
      reply := Change(frame, count, 1);
    }

    /** kpmm_getPageStatus. */
    method GetPageStatus(phy: nat) returns (st: PageState)
      requires Ready() && phy / PAGE < pab.Capacity()
      ensures st == if phy % PAGE == 0 then StateMap()[phy / PAGE] else Invalid
    {
      if phy % PAGE != 0 {
        return Invalid;
      }
      var raw := pab.Get(phy / PAGE);
      st := Decode(raw);
    }

    lemma NoFrames(fs: Frames)
      ensures FreeFrames(fs, 1, 0) == {} && (|fs| > 0 ==> FreeFrames(fs, 1, 1) == {})
    {
    }

    /** kpmm_getFreeMemorySize: the count starts at frame 1. */
    method GetFreeMemorySize() returns (bytes: nat)
      requires Ready()
      ensures bytes == PAGE * |FreeFrames(StateMap(), 1, UsablePages())|
    {
      hide FreeFrames, DecodeAll, Decode;
      var freePages := 0;
      var frame := 1;
      ghost var fs := StateMap();
      NoFrames(fs);
      while frame < UsablePages()
        invariant 1 <= frame && (UsablePages() > 0 ==> frame <= UsablePages())
        invariant UsablePages() > 0 ==> freePages == |FreeFrames(fs, 1, frame)|
        invariant UsablePages() == 0 ==> freePages == 0
      {
        var st := GetPageStatus(frame * PAGE);
        FreeFramesGrow(fs, 1, frame);
        if st == PageState.Free {
          freePages := freePages + 1;
        }
        frame := frame + 1;
      }
      bytes := PAGE * freePages;
    }
  }

  /** Equal states come from equal bytes, so undoing an allocation restores the map byte for byte. */
  lemma FramesDetermineBytes(a: seq<bv8>, b: seq<bv8>)
    requires |a| == |b| && DecodeAll(Unpack(a, 2)) == DecodeAll(Unpack(b, 2))
    ensures a == b
  {
    SlotsAreTwoBits(a);
    SlotsAreTwoBits(b);
    var s, t := Unpack(a, 2), Unpack(b, 2);
    forall i | 0 <= i < |s| ensures s[i] == t[i] {
      assert DecodeAll(s)[i] == DecodeAll(t)[i];
    }
    UnpackIsInjective(a, b, 2);
  }

  /** kpmm_alloc followed by kpmm_free of the same range, on the object. */
  method AllocThenFree(pmm: Pmm, count: nat) returns (ran: bool)
    requires pmm.Ready() && pmm.usableBytes <= ADDRESS_LIMIT
    requires count > 0 && NoFreeBeyond(pmm.StateMap(), pmm.UsablePages())
    modifies pmm.pab.bytes
    ensures pmm.pab.bytes[..] == old(pmm.pab.bytes[..])
    ensures ran == exists i :: 0 <= i < |pmm.StateMap()| && RunAt(pmm.StateMap(), Free, count, i)
  {
    ghost var fs := pmm.StateMap();
    ghost var was := pmm.pab.bytes[..];
    AllocTakesLowestRun(fs, pmm.UsablePages(), count);
    var reply, frame := pmm.Alloc(count);
    if reply.Done? {
      FreeUndoesAlloc(fs, pmm.usableBytes, count);
      var back := pmm.Free(frame * PAGE, count);
    }
    ran := reply.Done?;
    FramesDetermineBytes(was, pmm.pab.bytes[..]);
  }
}
