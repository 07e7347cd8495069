/** The packed bitmap of src/kernel/bitmap.c: states of 1, 2, 4 or 8 bits packed into bytes, lowest
    bits first. The array of bytes refines a sequence of states. */
module Bitmaps {
  type State = bv8

  /** k_assert (8 % b->bitsPerState == 0). */
  predicate ValidWidth(bits: nat) {
    bits == 1 || bits == 2 || bits == 4 || bits == 8
  }

  function PerByte(bits: nat): (p: nat)
    requires ValidWidth(bits)
    ensures p * bits == 8
  {
    if bits == 1 then 8 else if bits == 2 then 4 else if bits == 4 then 2 else 1
  }

  function Mask(bits: nat): State
    requires ValidWidth(bits)
  {
    if bits == 1 then 0x01 else if bits == 2 then 0x03 else if bits == 4 then 0x0F else 0xFF
  }

  /** b << n and b >> n, by cases on n so that each shift is by a constant. */
  function Shl(b: bv8, n: nat): bv8
    requires n < 8
  {
    if n == 0 then b else if n == 1 then b << 1 else if n == 2 then b << 2 else if n == 3 then b << 3
    else if n == 4 then b << 4 else if n == 5 then b << 5 else if n == 6 then b << 6 else b << 7
  }

  function Shr(b: bv8, n: nat): bv8
    requires n < 8
  {
    if n == 0 then b else if n == 1 then b >> 1 else if n == 2 then b >> 2 else if n == 3 then b >> 3
    else if n == 4 then b >> 4 else if n == 5 then b >> 5 else if n == 6 then b >> 6 else b >> 7
  }

  /** The bit offset of slot k. */
  function Offset(bits: nat, k: nat): (n: nat)
    requires ValidWidth(bits) && k < PerByte(bits)
    ensures n == k * bits && n < 8
  {
    if bits == 1 then k else if bits == 2 then 2 * k else if bits == 4 then 4 * k else 0
  }

  function GetSlot(b: bv8, bits: nat, k: nat): State
    requires ValidWidth(bits) && k < PerByte(bits)
  {
    Shr(b, Offset(bits, k)) & Mask(bits)
  }

  function SetSlot(b: bv8, bits: nat, k: nat, st: State): bv8
    requires ValidWidth(bits) && k < PerByte(bits)
  {
    (b & !Shl(Mask(bits), Offset(bits, k))) | Shl(st, Offset(bits, k))
  }

  lemma GetSetSame(b: bv8, bits: nat, k: nat, st: State)
    requires ValidWidth(bits) && k < PerByte(bits) && st <= Mask(bits)
    ensures GetSlot(SetSlot(b, bits, k, st), bits, k) == st
  {
  }

  /** The bits that slot k occupies. */
  function Window(bits: nat, k: nat): bv8
    requires ValidWidth(bits) && k < PerByte(bits)
  {
    Shl(Mask(bits), Offset(bits, k))
  }

  lemma GetSlotReadsWindow(b: bv8, bits: nat, k: nat)
    requires ValidWidth(bits) && k < PerByte(bits)
    ensures GetSlot(b, bits, k) == Shr(b & Window(bits, k), Offset(bits, k))
  {
  }

  lemma WindowsAreDisjoint(bits: nat, k: nat, j: nat)
    requires ValidWidth(bits) && k < PerByte(bits) && j < PerByte(bits) && j != k
    ensures Window(bits, k) & Window(bits, j) == 0
  {
    if bits == 1 {
      assert Window(1, k) == Shl(1, k) && Window(1, j) == Shl(1, j);
    }
  }

  lemma MaskedMerge(b: bv8, own: bv8, other: bv8, st: bv8)
    requires own & other == 0 && st & own == st
    ensures ((b & !own) | st) & other == b & other
  {
    assert st & other == (st & own) & other == st & (own & other) == 0;
    assert !own & other == other;
  }

  lemma GetSetOther(b: bv8, bits: nat, k: nat, j: nat, st: State)
    requires ValidWidth(bits) && k < PerByte(bits) && j < PerByte(bits) && j != k && st <= Mask(bits)
    ensures GetSlot(SetSlot(b, bits, k, st), bits, j) == GetSlot(b, bits, j)
  {
    var shifted := Shl(st, Offset(bits, k));
    assert shifted & Window(bits, k) == shifted;
    WindowsAreDisjoint(bits, k, j);
    MaskedMerge(b, Window(bits, k), Window(bits, j), shifted);
    GetSlotReadsWindow(b, bits, j);
    GetSlotReadsWindow(SetSlot(b, bits, k, st), bits, j);
  }

  lemma SlotDeterminesWindow(b: bv8, c: bv8, bits: nat, k: nat)
    requires ValidWidth(bits) && k < PerByte(bits)
    requires GetSlot(b, bits, k) == GetSlot(c, bits, k)
    ensures b & Window(bits, k) == c & Window(bits, k)
  {
  }

  /** A byte is nothing but its slots. */
  lemma SlotsDetermineByte(b: bv8, c: bv8, bits: nat)
    requires ValidWidth(bits)
    requires forall k :: 0 <= k < PerByte(bits) ==> GetSlot(b, bits, k) == GetSlot(c, bits, k)
    ensures b == c
  {
    forall k | 0 <= k < PerByte(bits) ensures b & Window(bits, k) == c & Window(bits, k) {
      SlotDeterminesWindow(b, c, bits, k);
    }
    WindowsCoverByte(b, c, bits);
  }

  lemma BitsDetermineByte(b: bv8, c: bv8)
    requires b & 0x01 == c & 0x01 && b & 0x02 == c & 0x02 && b & 0x04 == c & 0x04 && b & 0x08 == c & 0x08
    requires b & 0x10 == c & 0x10 && b & 0x20 == c & 0x20 && b & 0x40 == c & 0x40 && b & 0x80 == c & 0x80
    ensures b == c
  {
  }

  lemma PairsDetermineByte(b: bv8, c: bv8)
    requires b & 0x03 == c & 0x03 && b & 0x0C == c & 0x0C && b & 0x30 == c & 0x30 && b & 0xC0 == c & 0xC0
    ensures b == c
  {
  }

  lemma NibblesDetermineByte(b: bv8, c: bv8)
    requires b & 0x0F == c & 0x0F && b & 0xF0 == c & 0xF0
    ensures b == c
  {
  }

  lemma WindowsCoverByte(b: bv8, c: bv8, bits: nat)
    requires ValidWidth(bits)
    requires forall k :: 0 <= k < PerByte(bits) ==> b & Window(bits, k) == c & Window(bits, k)
    ensures b == c
  {
    if bits == 1 {
      assert Window(1, 0) == 0x01 && Window(1, 1) == 0x02 && Window(1, 2) == 0x04 && Window(1, 3) == 0x08;
      assert Window(1, 4) == 0x10 && Window(1, 5) == 0x20 && Window(1, 6) == 0x40 && Window(1, 7) == 0x80;
      BitsDetermineByte(b, c);
    } else if bits == 2 {
      assert Window(2, 0) == 0x03 && Window(2, 1) == 0x0C && Window(2, 2) == 0x30 && Window(2, 3) == 0xC0;
      PairsDetermineByte(b, c);
    } else if bits == 4 {
      assert Window(4, 0) == 0x0F && Window(4, 1) == 0xF0;
      NibblesDetermineByte(b, c);
    } else {
      assert Window(8, 0) == 0xFF;
    }
  }

  // ---------------------------------------------------------------------------------------------
  // The sequence of states that an array of bytes stands for.
  // ---------------------------------------------------------------------------------------------

  lemma SplitIndex(n: nat, bits: nat, i: nat)
    requires ValidWidth(bits) && i < n * PerByte(bits)
    ensures i / PerByte(bits) < n && i % PerByte(bits) < PerByte(bits)
  {
    var p := PerByte(bits);
    assert p == 1 || p == 2 || p == 4 || p == 8;
  }

  /** Two indices that share a byte and a slot are the same index. */
  lemma SplitIsInjective(bits: nat, i: nat, j: nat)
    requires ValidWidth(bits)
    requires i / PerByte(bits) == j / PerByte(bits) && i % PerByte(bits) == j % PerByte(bits)
    ensures i == j
  {
  }

  function StateAt(bytes: seq<bv8>, bits: nat, i: nat): State
    requires ValidWidth(bits) && i < |bytes| * PerByte(bits)
  {
    SplitIndex(|bytes|, bits, i);
    GetSlot(bytes[i / PerByte(bits)], bits, i % PerByte(bits))
  }

  ghost function Unpack(bytes: seq<bv8>, bits: nat): (s: seq<State>)
    requires ValidWidth(bits)
    ensures |s| == |bytes| * PerByte(bits)
    ensures forall i :: 0 <= i < |s| ==> s[i] == StateAt(bytes, bits, i)
  {
    seq(|bytes| * PerByte(bits), i requires 0 <= i < |bytes| * PerByte(bits) => StateAt(bytes, bits, i))
  }

  /** Storing one slot changes one state of the sequence and no neighbour in the same byte. */
  lemma UnpackStore(bytes: seq<bv8>, bits: nat, i: nat, st: State)
    requires ValidWidth(bits) && i < |bytes| * PerByte(bits) && st <= Mask(bits)
    ensures i / PerByte(bits) < |bytes| && i % PerByte(bits) < PerByte(bits)
    ensures var at := i / PerByte(bits);
            Unpack(bytes[at := SetSlot(bytes[at], bits, i % PerByte(bits), st)], bits) == Unpack(bytes, bits)[i := st]
  {
    SplitIndex(|bytes|, bits, i);
    var p := PerByte(bits);
    var at := i / p;
    var stored := bytes[at := SetSlot(bytes[at], bits, i % p, st)];
    forall j | 0 <= j < |bytes| * p ensures Unpack(stored, bits)[j] == Unpack(bytes, bits)[i := st][j] {
      SplitIndex(|bytes|, bits, j);
      if j == i {
        GetSetSame(bytes[at], bits, i % p, st);
      } else if j / p == at {
        if j % p == i % p {
          SplitIsInjective(bits, i, j);
        }
        GetSetOther(bytes[at], bits, i % p, j % p, st);
      }
    }
    assert Unpack(stored, bits) == Unpack(bytes, bits)[i := st];
  }

  /** The packing loses nothing: equal state sequences come from equal bytes. */
  lemma UnpackIsInjective(a: seq<bv8>, b: seq<bv8>, bits: nat)
    requires ValidWidth(bits) && |a| == |b| && Unpack(a, bits) == Unpack(b, bits)
    ensures a == b
  {
    var p := PerByte(bits);
    forall at | 0 <= at < |a| ensures a[at] == b[at] {
      forall k | 0 <= k < p ensures GetSlot(a[at], bits, k) == GetSlot(b[at], bits, k) {
        var i := at * p + k;
        IndexOfSlot(|a|, bits, at, k);
        assert Unpack(a, bits)[i] == Unpack(b, bits)[i];
      }
      SlotsDetermineByte(a[at], b[at], bits);
    }
  }

  lemma IndexOfSlot(n: nat, bits: nat, at: nat, k: nat)
    requires ValidWidth(bits) && at < n && k < PerByte(bits)
    ensures var i := at * PerByte(bits) + k;
            i < n * PerByte(bits) && i / PerByte(bits) == at && i % PerByte(bits) == k
  {
    var p := PerByte(bits);
    assert p == 1 || p == 2 || p == 4 || p == 8;
  }

  // ---------------------------------------------------------------------------------------------
  // Runs of one state, on any sequence.
  // ---------------------------------------------------------------------------------------------

  /** len consecutive entries from at on all hold st. */
  predicate RunAt<T(==)>(s: seq<T>, st: T, len: nat, at: nat) {
    at + len <= |s| && forall k :: at <= k < at + len ==> s[k] == st
  }

  /** The least start of such a run at or after from, or -1. */
  function FirstRun<T(==)>(s: seq<T>, st: T, len: nat, from: nat): (r: int)
    requires from <= |s|
    ensures r == -1 || from <= r <= |s| - len
    decreases |s| - from
  {
    if from == |s| then -1
    else if RunAt(s, st, len, from) then from
    else FirstRun(s, st, len, from + 1)
  }

  /** FirstRun is the least index of a run, and -1 exactly when there is none. */
  lemma {:induction false} FirstRunIsLeast<T>(s: seq<T>, st: T, len: nat, from: nat)
    requires from <= |s|
    ensures var r := FirstRun(s, st, len, from);
            && (r != -1 ==> r < |s| && RunAt(s, st, len, r))
            && (forall i :: from <= i < (if r == -1 then |s| else r) ==> !RunAt(s, st, len, i))
    decreases |s| - from
  {
    if from < |s| && !RunAt(s, st, len, from) {
      FirstRunIsLeast(s, st, len, from + 1);
    }
  }

  /** s with the len entries from at on replaced by st. */
  function SetRun<T>(s: seq<T>, at: nat, len: nat, st: T): (r: seq<T>)
    requires at + len <= |s|
    ensures |r| == |s|
    ensures forall i :: 0 <= i < |s| ==> r[i] == if at <= i < at + len then st else s[i]
    decreases len
  {
    if len == 0 then s else SetRun(s, at, len - 1, st)[at + len - 1 := st]
  }

  lemma SetRunGrows<T>(s: seq<T>, at: nat, len: nat, st: T)
    requires at + len <= |s|
    ensures SetRun(s, at, 0, st) == s
    ensures at + len < |s| ==> SetRun(s, at, len, st)[at + len := st] == SetRun(s, at, len + 1, st)
  {
  }

  /** How many of the len entries from at on may change to st before the first refusal. */
  function AllowedPrefix<T>(s: seq<T>, at: nat, len: nat, st: T, allow: (nat, T, T) -> bool): (n: nat)
    requires at + len <= |s|
    ensures n <= len
    decreases len
  {
    if len == 0 || !allow(at, s[at], st) then 0 else 1 + AllowedPrefix(s, at + 1, len - 1, st, allow)
  }

  lemma {:induction false} AllowedPrefixStops<T>(s: seq<T>, at: nat, len: nat, st: T, allow: (nat, T, T) -> bool)
    requires at + len <= |s|
    ensures var n := AllowedPrefix(s, at, len, st, allow);
            && (forall i :: at <= i < at + n ==> allow(i, s[i], st))
            && (n < len ==> !allow(at + n, s[at + n], st))
    decreases len
  {
    if len > 0 && allow(at, s[at], st) {
      AllowedPrefixStops(s, at + 1, len - 1, st, allow);
    }
  }

  /** The two conditions of AllowedPrefixStops leave one value. */
  lemma AllowedPrefixIs<T>(s: seq<T>, at: nat, len: nat, st: T, allow: (nat, T, T) -> bool, n: nat)
    requires at + len <= |s| && n <= len
    requires forall i :: at <= i < at + n ==> allow(i, s[i], st)
    requires n < len ==> !allow(at + n, s[at + n], st)
    ensures AllowedPrefix(s, at, len, st, allow) == n
  {
    AllowedPrefixStops(s, at, len, st, allow);
    var m := AllowedPrefix(s, at, len, st, allow);
    assert !(m < n) && !(n < m);
  }

  // ---------------------------------------------------------------------------------------------
  // The bitmap object.
  // ---------------------------------------------------------------------------------------------

  class Bitmap {
    const bytes: array<bv8>
    const bits: nat

    constructor (bytes: array<bv8>, bits: nat)
      requires ValidWidth(bits)
      ensures this.bytes == bytes && this.bits == bits
    {
      this.bytes, this.bits := bytes, bits;
    }

    /** BITMAP_CAPACITY. */
    function Capacity(): nat
      requires ValidWidth(bits)
    {
      bytes.Length * PerByte(bits)
    }

    ghost function States(): (s: seq<State>)
      requires ValidWidth(bits)
      reads bytes
      ensures |s| == Capacity()
    {
      Unpack(bytes[..], bits)
    }

    /** bitmap_get. */
    method Get(index: nat) returns (st: State)
      requires ValidWidth(bits) && index < Capacity()
      ensures st == States()[index]
    {
      SplitIndex(bytes.Length, bits, index);
      st := GetSlot(bytes[index / PerByte(bits)], bits, index % PerByte(bits));
    }

    /** The read-modify-write of one slot. */
    method Store(index: nat, st: State)
      requires ValidWidth(bits) && st <= Mask(bits) && index < Capacity()
      modifies bytes
      ensures States() == old(States())[index := st]
    {
      SplitIndex(bytes.Length, bits, index);
      var at, slot := index / PerByte(bits), index % PerByte(bits);
      ghost var before := bytes[..];
      UnpackStore(before, bits, index, st);
      bytes[at] := SetSlot(bytes[at], bits, slot, st);
      assert bytes[..] == before[at := SetSlot(before[at], bits, slot, st)];
    }

    /** bitmap_setContinous: stops at the first index whose change is refused. */
    method SetContinous(at: nat, count: nat, st: State, allow: (nat, State, State) -> bool) returns (ok: bool)
      requires ValidWidth(bits) && st <= Mask(bits)
      requires count > 0 && at + count <= Capacity()
      modifies bytes
      ensures var n := AllowedPrefix(old(States()), at, count, st, allow);
              ok == (n == count) && States() == SetRun(old(States()), at, n, st)
    {
      ghost var was, n := States(), 0;
      var index, len := at, count;
      SetRunGrows(was, at, 0, st);
      while len > 0
        invariant n <= count && index == at + n && len == count - n
        invariant forall i :: at <= i < at + n ==> allow(i, was[i], st)
        invariant States() == SetRun(was, at, n, st)
      {
        var current := Get(index);
        if !allow(index, current, st) {
          break;
        }
        Store(index, st);
        SetRunGrows(was, at, n, st);
        len, index, n := len - 1, index + 1, n + 1;
      }
      AllowedPrefixIs(was, at, count, st, allow, n);
      ok := len == 0;
    }

    /** bitmap_findContinousAt. */
    method FindContinousAt(st: State, len: nat, at: nat) returns (found: bool)
      requires ValidWidth(bits) && st <= Mask(bits) && len > 0
      ensures found == RunAt(States(), st, len, at)
    {
      if at + len > Capacity() {
        return false;
      }
      var i := 0;
      while i < len
        invariant i <= len
        invariant forall k :: at <= k < at + i ==> States()[k] == st
      {
        var current := Get(at + i);
        if current != st {
          return false;
        }
        i := i + 1;
      }
      return true;
    }

    /** bitmap_findContinous: the least index of a run, or -1. */
    method FindContinous(st: State, len: nat) returns (r: int)
      requires ValidWidth(bits) && st <= Mask(bits) && len > 0
      ensures r == FirstRun(States(), st, len, 0)
    {
      var index := 0;
      while index < Capacity()
        invariant index <= Capacity()
        invariant FirstRun(States(), st, len, 0) == FirstRun(States(), st, len, index)
      {
        var found := FindContinousAt(st, len, index);
        if found {
          return index;
        }
        index := index + 1;
      }
      return -1;
    }
  }
}
