/** A small sound system for concrete inputs: one process, and one page committed for the kernel. */
module SmallSystem {
  import opened Common
  import opened FrameStates
  import opened PageTables
  import opened AddressSpaces
  import opened Contexts
  import opened Ownership
  import opened KernelRuns

  const COMMITTED := NO_FLAGS.(kernelPage := true, immCommit := true)

  /** A table with one entry. */
  function Holding(i: nat, e: Entry): (t: Table)
    requires i < 1024
    ensures forall k :: 0 <= k < 1024 ==> t[k] == if k == i then e else Entry(false, 0)
  {
    ZeroTable()[i := e]
  }

  /** A directory with kernel table i in frame 1. */
  function DirectoryWith(i: nat, self: nat): (t: Table)
    requires KERNEL_PDE <= i < RECURSIVE_PDE
    ensures forall k :: 0 <= k < 1024 ==>
      t[k] == if k == i then Entry(true, 1) else if k == RECURSIVE_PDE then Entry(true, self) else Entry(false, 0)
  {
    ZeroTable()[i := Entry(true, 1)][RECURSIVE_PDE := Entry(true, self)]
  }

  /** Kernel directory 0 and process directory 3 with kernel table i, whose first page is in frame 2. */
  function TwoDirectories(i: nat): Machine
    requires KERNEL_PDE <= i < RECURSIVE_PDE
  {
    Machine([Used, Used, Used, Used, Free, Free, Free, Free],
            [DirectoryWith(i, 0), Holding(0, Entry(true, 2)), ZeroTable(), DirectoryWith(i, 3),
             ZeroTable(), ZeroTable(), ZeroTable(), ZeroTable()], 8)
  }

  /** Process 7 has reserved spaces and touched none of them. */
  function OneProcess(i: nat, spaces: seq<Vas>): System
    requires KERNEL_PDE <= i < RECURSIVE_PDE
  {
    var kernel := Context(0, USER_PAGES * PAGE, MAPPABLE * PAGE, true, [Vas(i * 1024 * PAGE, PAGE, COMMITTED, false)], false);
    System(TwoDirectories(i), kernel, map[7 := Context(3, PROCESS_START, PROCESS_END, false, spaces, false)])
  }

  ghost predicate ProcessSpaces(spaces: seq<Vas>) {
    WellFormed(spaces, PROCESS_START, PROCESS_END) && forall k :: 0 <= k < |spaces| ==> !spaces[k].isStatic
  }

  lemma TwoDirectoriesAreSound(i: nat)
    requires KERNEL_PDE <= i < RECURSIVE_PDE
    ensures var m := TwoDirectories(i);
      && m.Sized() && Sound(m, 0)
      && (forall w :: 0 <= w < MAPPABLE ==> Translate(m, 0, w) == if w == i * 1024 then Some(2) else None)
      && (forall w :: 0 <= w < MAPPABLE ==> Translate(m, 3, w) == if w == i * 1024 then Some(2) else None)
  {
  }

  ghost function SmallOwners(): Owners {
    map[0 := BOOT, 1 := BOOT, 2 := BOOT, 3 := DirectoryOf(7)]
  }

  lemma OneProcessIsSane(i: nat, spaces: seq<Vas>)
    requires KERNEL_PDE <= i < RECURSIVE_PDE && ProcessSpaces(spaces)
    ensures var s := OneProcess(i, spaces);
      Sane(s, s.m.frames[3 := Free]) && Coherent(s)
  {
    hide Structural;
    SmallStructure(i, spaces);
    assert Settled(OneProcess(i, spaces), SmallOwners(), OneProcess(i, spaces).m.frames[3 := Free]);
  }

  lemma SmallStructure(i: nat, spaces: seq<Vas>)
    requires KERNEL_PDE <= i < RECURSIVE_PDE && ProcessSpaces(spaces)
    ensures Structural(OneProcess(i, spaces), SmallOwners())
  {
    hide KernelMemory, UserOk, Accounts, Translate;
    SmallAccounts(i, spaces);
    SmallKernelShape(i, spaces);
    KernelPartIsSane(i, spaces);
    ProcessPartIsSane(i, spaces);
    var s := OneProcess(i, spaces);
    assert forall c :: c in s.users ==> c == 7;
  }

  lemma SmallAccounts(i: nat, spaces: seq<Vas>)
    requires KERNEL_PDE <= i < RECURSIVE_PDE
    ensures Accounts(OneProcess(i, spaces).m, SmallOwners())
  {
    hide Translate, Sound;
    TwoDirectoriesAreSound(i);
    SmallFrames(i);
  }

  lemma SmallFrames(i: nat)
    requires KERNEL_PDE <= i < RECURSIVE_PDE
    ensures forall f: nat :: f < 4 <==> f < |TwoDirectories(i).frames| && TwoDirectories(i).frames[f] == Used
    ensures forall f: nat :: f < 4 <==> f in SmallOwners()
  {
  }

  lemma SmallKernelShape(i: nat, spaces: seq<Vas>)
    requires KERNEL_PDE <= i < RECURSIVE_PDE
    ensures KernelShape(OneProcess(i, spaces).kernel)
  {
  }

  lemma KernelPartIsSane(i: nat, spaces: seq<Vas>)
    requires KERNEL_PDE <= i < RECURSIVE_PDE
    ensures KernelMemory(OneProcess(i, spaces).m, SmallOwners(), OneProcess(i, spaces).kernel)
  {
    hide Translate;
    TwoDirectoriesAreSound(i);
    assert Backable(OneProcess(i, spaces).kernel.spaces, i * 1024) by {
      assert OneProcess(i, spaces).kernel.spaces[0].Covers(i * 1024 * PAGE);
    }
  }

  lemma ProcessPartIsSane(i: nat, spaces: seq<Vas>)
    requires KERNEL_PDE <= i < RECURSIVE_PDE && ProcessSpaces(spaces)
    ensures UserOk(OneProcess(i, spaces), SmallOwners(), 7)
  {
    hide Translate;
    TwoDirectoriesAreSound(i);
  }
}
