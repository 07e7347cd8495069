/** The kernel as a state machine: process contexts come and go, memory is reserved, committed and
    freed, faults are handled. Two invariants hold in every reachable state: every allocated frame has
    exactly one owner, and every process directory agrees with the kernel's unless the kernel context
    is marked dirty. */
module Coherence {
  import opened Common
  import opened FrameStates
  import opened PageTables
  import opened Contexts
  import opened Ownership

  // ---------------------------------------------------------------------------------------------
  // kpg_setupPageDirectory.
  // ---------------------------------------------------------------------------------------------

  lemma SyncPdEntries(m: Machine, pd: nat, kernelPd: nat)
    requires pd < |m.ram| && kernelPd < |m.ram|
    ensures var n := SyncPd(m, pd, kernelPd);
            && SameExcept(m, n, pd, pd)
            && (forall i :: 0 <= i < KERNEL_PDE ==> n.At(pd, i) == m.At(pd, i))
            && (forall i :: KERNEL_PDE <= i < RECURSIVE_PDE ==> n.At(pd, i) == m.At(kernelPd, i))
            && n.At(pd, RECURSIVE_PDE) == m.At(kernelPd, RECURSIVE_PDE).(frame := pd)
  {
  }

  /** Synchronising one process: its own half is untouched, its kernel half becomes the kernel's. */
  lemma SyncOne(s: System, o: Owners, c: nat)
    requires Structural(s, o) && c in s.users
    ensures var n := SyncPd(s.m, s.users[c].pd, s.kernel.pd);
            && Structural(s.(m := n), o)
            && InStep(n, s.users[c].pd, s.kernel.pd)
            && (forall i :: 0 <= i < 1024 ==> n.At(s.kernel.pd, i) == s.m.At(s.kernel.pd, i))
            && (forall d :: d in s.users && InStep(s.m, s.users[d].pd, s.kernel.pd) ==> InStep(n, s.users[d].pd, s.kernel.pd))
            && (forall d, v :: d in s.users && 0 <= v < USER_PAGES ==> Translate(n, s.users[d].pd, v) == Translate(s.m, s.users[d].pd, v))
  {
    hide SyncPd, KernelMemory, UserOk, BackLink, Accounts, Translate;
    var m, pd, kpd := s.m, s.users[c].pd, s.kernel.pd;
    SyncTouchesOne(s, o, c);
    var n := SyncPd(m, pd, kpd);
    KernelUnaffected(m, n, o, o, s.kernel, pd, pd);
    SyncKeepsOwn(s, o, c);
    forall d | d in s.users
      ensures UserOk(s.(m := n), o, d)
      ensures InStep(m, s.users[d].pd, kpd) ==> InStep(n, s.users[d].pd, kpd)
      ensures forall v :: 0 <= v < USER_PAGES ==> Translate(n, s.users[d].pd, v) == Translate(m, s.users[d].pd, v)
    {
      if d != c {
        SyncKeepsOther(s, o, c, d);
      }
    }
    forall f | f in o ensures BackLink(n, s.users, f, o[f]) {
      SyncKeepsLink(s, o, c, f);
    }
  }

  lemma SyncTouchesOne(s: System, o: Owners, c: nat)
    requires Structural(s, o) && c in s.users
    ensures var pd, n := s.users[c].pd, SyncPd(s.m, s.users[c].pd, s.kernel.pd);
      && Owns(o, pd, DirectoryOf(c)) && SameExcept(s.m, n, pd, pd) && Accounts(n, o) && KernelFramesKept(s.m, n, o, o)
      && (forall i :: 0 <= i < KERNEL_PDE ==> n.At(pd, i) == s.m.At(pd, i))
      && (forall i :: KERNEL_PDE <= i < RECURSIVE_PDE ==> n.At(pd, i) == s.m.At(s.kernel.pd, i))
      && n.At(pd, RECURSIVE_PDE).frame == pd && pd != s.kernel.pd
  {
    hide BackLink, Translate;
    assert UserOk(s, o, c);
    SyncPdEntries(s.m, s.users[c].pd, s.kernel.pd);
  }

  lemma SyncKeepsOwn(s: System, o: Owners, c: nat)
    requires Structural(s, o) && c in s.users
    ensures var n := SyncPd(s.m, s.users[c].pd, s.kernel.pd);
      && UserOk(s.(m := n), o, c) && InStep(n, s.users[c].pd, s.kernel.pd)
      && forall v :: 0 <= v < USER_PAGES ==> Translate(n, s.users[c].pd, v) == Translate(s.m, s.users[c].pd, v)
  {
    hide SyncPd, KernelMemory, BackLink, Accounts;
    SyncTouchesOne(s, o, c);
    assert UserOk(s, o, c);
    var n, pd := SyncPd(s.m, s.users[c].pd, s.kernel.pd), s.users[c].pd;
    forall v | 0 <= v < USER_PAGES ensures Translate(n, pd, v) == Translate(s.m, pd, v) {
      assert v / 1024 < KERNEL_PDE;
    }
  }

  lemma SyncKeepsOther(s: System, o: Owners, c: nat, d: nat)
    requires Structural(s, o) && c in s.users && d in s.users && d != c
    ensures var n := SyncPd(s.m, s.users[c].pd, s.kernel.pd);
      && UserOk(s.(m := n), o, d)
      && (InStep(s.m, s.users[d].pd, s.kernel.pd) ==> InStep(n, s.users[d].pd, s.kernel.pd))
      && forall v :: 0 <= v < USER_PAGES ==> Translate(n, s.users[d].pd, v) == Translate(s.m, s.users[d].pd, v)
  {
    hide SyncPd, KernelMemory, BackLink, Accounts, Translate;
    SyncTouchesOne(s, o, c);
    assert UserOk(s, o, d);
    var n, pd := SyncPd(s.m, s.users[c].pd, s.kernel.pd), s.users[c].pd;
    OtherUserKept(s, o, d, c, n, o, pd, pd);
    forall v | 0 <= v < USER_PAGES ensures Translate(n, s.users[d].pd, v) == Translate(s.m, s.users[d].pd, v) {
      UserUnaffected(s.m, n, o, d, s.users[d], pd, pd, v);
    }
  }

  lemma SyncKeepsLink(s: System, o: Owners, c: nat, f: nat)
    requires Structural(s, o) && c in s.users && f in o
    ensures BackLink(SyncPd(s.m, s.users[c].pd, s.kernel.pd), s.users, f, o[f])
  {
    hide SyncPd, KernelMemory, Accounts, Translate;
    assert BackLink(s.m, s.users, f, o[f]);
    SyncTouchesOne(s, o, c);
    SyncKeepsOwn(s, o, c);
    if o[f].c in s.users && o[f].c != c {
      var n, pd := SyncPd(s.m, s.users[c].pd, s.kernel.pd), s.users[c].pd;
      SyncKeepsOther(s, o, c, o[f].c);
      assert UserOk(s, o, o[f].c);
    }
  }

  function Directories(users: map<nat, Context>, order: seq<nat>): (r: seq<nat>)
    requires forall c :: c in order ==> c in users
    ensures |r| == |order|
  {
    if order == [] then [] else [users[order[0]].pd] + Directories(users, order[1..])
  }

  /** kprocess_syncPD over a queue that reaches every process: afterwards all are in step with the
      kernel, and no translation below the kernel changed. */
  lemma {:induction false} SyncEveryone(s: System, o: Owners, order: seq<nat>)
    requires Structural(s, o) && forall c :: c in order ==> c in s.users
    ensures var n := SyncAll(s.m, Directories(s.users, order), s.kernel.pd);
            && Structural(s.(m := n), o)
            && (forall c :: c in order ==> InStep(n, s.users[c].pd, s.kernel.pd))
            && (forall i :: 0 <= i < 1024 ==> n.At(s.kernel.pd, i) == s.m.At(s.kernel.pd, i))
            && (forall d :: d in s.users && InStep(s.m, s.users[d].pd, s.kernel.pd) ==> InStep(n, s.users[d].pd, s.kernel.pd))
            && (forall d, v :: d in s.users && 0 <= v < USER_PAGES ==> Translate(n, s.users[d].pd, v) == Translate(s.m, s.users[d].pd, v))
    decreases |order|
  {
    hide Structural, SyncPd, InStep, Translate;
    if order == [] {
      assert s.(m := s.m) == s;
    } else {
      var c := order[0];
      SyncOne(s, o, c);
      var m1 := SyncPd(s.m, s.users[c].pd, s.kernel.pd);
      var pds := Directories(s.users, order);
      assert pds[0] == s.users[c].pd && pds[1..] == Directories(s.users, order[1..]);
      SyncEveryone(s.(m := m1), o, order[1..]);
      var n := SyncAll(s.m, pds, s.kernel.pd);
      assert s.(m := m1).(m := n) == s.(m := n);
      forall d | d in order ensures InStep(n, s.users[d].pd, s.kernel.pd) {
        assert d == c || d in order[1..];
      }
    }
  }

  /** The kernel's translations are those of the entries it shares. */
  lemma SyncKeepsKernel(s: System, o: Owners, order: seq<nat>, v: nat)
    requires Structural(s, o) && (forall c :: c in order ==> c in s.users) && v < MAPPABLE
    ensures var n := SyncAll(s.m, Directories(s.users, order), s.kernel.pd);
            Translate(n, s.kernel.pd, v) == Translate(s.m, s.kernel.pd, v)
    decreases |order|
  {
    hide SyncPd;
    if order != [] {
      var c := order[0];
      SyncOne(s, o, c);
      var m1 := SyncPd(s.m, s.users[c].pd, s.kernel.pd);
      KernelKeepsTables(s, o, c, v);
      var pds := Directories(s.users, order);
      assert pds[0] == s.users[c].pd && pds[1..] == Directories(s.users, order[1..]);
      SyncKeepsKernel(s.(m := m1), o, order[1..], v);
    }
  }

  lemma KernelKeepsTables(s: System, o: Owners, c: nat, v: nat)
    requires Structural(s, o) && c in s.users && v < MAPPABLE
    ensures Translate(SyncPd(s.m, s.users[c].pd, s.kernel.pd), s.kernel.pd, v) == Translate(s.m, s.kernel.pd, v)
  {
    assert UserOk(s, o, c) && v / 1024 < RECURSIVE_PDE;
    SyncPdEntries(s.m, s.users[c].pd, s.kernel.pd);
  }

  /** A process in step with the kernel sees the kernel's pages where the kernel sees them. */
  lemma InStepSeesKernel(m: Machine, pd: nat, kernelPd: nat, v: nat)
    requires InStep(m, pd, kernelPd) && USER_PAGES <= v < MAPPABLE
    ensures Translate(m, pd, v) == Translate(m, kernelPd, v)
  {
    assert KERNEL_PDE <= v / 1024 < RECURSIVE_PDE;
  }

  /** Even a process that is behind never sees anything else than the kernel's pages. */
  lemma BehindSeesLess(s: System, o: Owners, c: nat, v: nat)
    requires Structural(s, o) && c in s.users && USER_PAGES <= v < MAPPABLE
    ensures Translate(s.m, s.users[c].pd, v) == None || Translate(s.m, s.users[c].pd, v) == Translate(s.m, s.kernel.pd, v)
  {
    assert UserOk(s, o, c) && KERNEL_PDE <= v / 1024 < RECURSIVE_PDE;
  }

  // ---------------------------------------------------------------------------------------------
  // A new process directory.
  // ---------------------------------------------------------------------------------------------

  /** kvmm_new for a process; the dirty flag is not initialised. */
  function NewContext(pd: nat, stale: bool): Context {
    Context(pd, PROCESS_START, PROCESS_END, false, [], stale)
  }

  /** A new context owns one frame that was free, and starts in step with the kernel. */
  lemma CreateUser(s: System, o: Owners, c: nat, stale: bool)
    requires Structural(s, o) && c !in s.users
    ensures var (n, reply, pd) := NewPd(s.m, s.kernel.pd);
            if !reply.Done? then n == s.m
            else
              var t := System(n, s.kernel, s.users[c := NewContext(pd, stale)]);
              && pd !in o && Structural(t, o[pd := DirectoryOf(c)])
              && pd < |s.m.frames| && s.m.frames[pd] == Free && n.frames == s.m.frames[pd := Used]
              && InStep(n, pd, s.kernel.pd) && HalvesKept(s, n)
              && (forall i :: 0 <= i < KERNEL_PDE ==> !n.At(pd, i).present)
              && t.users[c].spaces == [] && t.users[c].start == 0x1000 && t.users[c].end == 0xBFFF_FFFF
  {
    AllocOneFrame(s.m);
    var (after, reply, pd) := Alloc(s.m.frames, s.m.usable, 1);
    if reply.Done? {
      var m1 := s.m.With(after).Load(pd, ZeroTable());
      SyncPdEntries(m1, pd, s.kernel.pd);
      AdoptDirectory(s, o, c, stale, SyncPd(m1, pd, s.kernel.pd), pd);
    }
  }

  lemma AdoptDirectory(s: System, o: Owners, c: nat, stale: bool, n: Machine, pd: nat)
    requires Structural(s, o) && c !in s.users && pd !in o && Accounts(n, o[pd := DirectoryOf(c)])
    requires SameExcept(s.m, n, pd, pd) && pd < |s.m.frames| && s.m.frames[pd] == Free && n.frames == s.m.frames[pd := Used]
    requires forall i :: 0 <= i < KERNEL_PDE ==> !n.At(pd, i).present
    requires forall i :: KERNEL_PDE <= i < RECURSIVE_PDE ==> n.At(pd, i) == s.m.At(s.kernel.pd, i)
    requires n.At(pd, RECURSIVE_PDE).frame == pd
    ensures Structural(System(n, s.kernel, s.users[c := NewContext(pd, stale)]), o[pd := DirectoryOf(c)])
    ensures InStep(n, pd, s.kernel.pd) && HalvesKept(s, n)
  {
    hide KernelMemory, UserOk, BackLink, Translate;
    var p, t := o[pd := DirectoryOf(c)], System(n, s.kernel, s.users[c := NewContext(pd, stale)]);
    KernelUnaffected(s.m, n, o, p, s.kernel, pd, pd);
    HalvesUntouched(s, o, n, pd, pd);
    forall d | d in s.users ensures UserOk(t, p, d) {
      AdoptionKeepsUser(s, o, n, pd, c, d, t, p);
    }
    NewDirectoryIsOk(t, p, c, pd);
    forall f | f in p ensures BackLink(n, t.users, f, p[f]) {
      if f != pd {
        AdoptionKeepsLink(s, o, n, pd, c, f, t);
      } else {
        DirectoryLink(n, t.users, c, pd);
      }
    }
  }

  lemma DirectoryLink(n: Machine, users: map<nat, Context>, c: nat, pd: nat)
    requires c in users && users[c].pd == pd
    ensures BackLink(n, users, pd, DirectoryOf(c))
  {
  }

  lemma AdoptionKeepsUser(s: System, o: Owners, n: Machine, pd: nat, c: nat, d: nat, t: System, p: Owners)
    requires Structural(s, o) && d in s.users && c !in s.users && pd !in o && SameExcept(s.m, n, pd, pd)
    requires p == o[pd := DirectoryOf(c)] && t.m == n && t.kernel == s.kernel && d in t.users && t.users[d] == s.users[d]
    requires forall i :: 0 <= i < 1024 ==> n.At(s.kernel.pd, i) == s.m.At(s.kernel.pd, i)
    ensures UserOk(t, p, d)
    ensures forall v :: 0 <= v < USER_PAGES ==> Translate(n, s.users[d].pd, v) == Translate(s.m, s.users[d].pd, v)
  {
    hide KernelMemory, BackLink, Translate, Accounts;
    assert UserOk(s, o, d);
    forall v | 0 <= v < USER_PAGES ensures Translate(n, s.users[d].pd, v) == Translate(s.m, s.users[d].pd, v) {
      UserUnaffected(s.m, n, o, d, s.users[d], pd, pd, v);
    }
  }

  lemma AdoptionKeepsLink(s: System, o: Owners, n: Machine, pd: nat, c: nat, f: nat, t: System)
    requires Structural(s, o) && c !in s.users && pd !in o && f in o && SameExcept(s.m, n, pd, pd)
    requires t.users.Keys == s.users.Keys + {c} && forall d :: d in s.users ==> t.users[d] == s.users[d]
    ensures BackLink(n, t.users, f, o[f])
  {
    hide KernelMemory, Translate, Accounts;
    assert BackLink(s.m, s.users, f, o[f]);
    if o[f].kind == PageTable || o[f].kind == DataPage {
      var d := o[f].c;
      assert UserOk(s, o, d);
      UserUnaffected(s.m, n, o, d, s.users[d], pd, pd, if o[f].kind == DataPage then o[f].i else o[f].i * 1024);
    }
  }

  lemma NewDirectoryIsOk(t: System, p: Owners, c: nat, pd: nat)
    requires c in t.users && (t.users[c] == NewContext(pd, true) || t.users[c] == NewContext(pd, false)) && Owns(p, pd, DirectoryOf(c))
    requires forall i :: 0 <= i < KERNEL_PDE ==> !t.m.At(pd, i).present
    requires forall i :: KERNEL_PDE <= i < RECURSIVE_PDE ==> t.m.At(pd, i) == t.m.At(t.kernel.pd, i)
    requires t.m.At(pd, RECURSIVE_PDE).frame == pd
    ensures UserOk(t, p, c)
  {
    forall v | 0 <= v < USER_PAGES ensures Translate(t.m, pd, v) == None {
      assert v / 1024 < KERNEL_PDE;
    }
  }
}
