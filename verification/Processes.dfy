/** The process table of src/kernel/x86/process.c: creation, the recursive kill and the round-robin
    queue. Processes are objects; their identity, not their PID, tells them apart. */
module Processes {
  import opened Common

  const MAX_PROCESS_COUNT: nat := 20

  class KProcessInfo {
    const processID: nat
    const isThread: bool
    /** When the process was created; parents are older than their children. */
    ghost const birth: nat
    /** The memory context, by name. */
    const context: nat
    var parent: KProcessInfo?
    var children: seq<KProcessInfo>
    var running: bool

    constructor (processID: nat, isThread: bool, context: nat, ghost birth: nat)
      ensures this.processID == processID && this.isThread == isThread && this.context == context && this.birth == birth
      ensures parent == null && children == [] && !running
    {
      this.processID, this.isThread, this.context, this.birth := processID, isThread, context, birth;
      parent, children, running := null, [], false;
    }
  }

  // ---------------------------------------------------------------------------------------------
  // Lists of processes.
  // ---------------------------------------------------------------------------------------------

  /** q without the processes of gone. */
  function Minus(q: seq<KProcessInfo>, gone: set<KProcessInfo>): (r: seq<KProcessInfo>)
    ensures forall x :: x in r ==> x in q && x !in gone
    ensures forall x :: x in q && x !in gone ==> x in r
    ensures |r| <= |q|
  {
    if q == [] then []
    else if q[0] in gone then Minus(q[1..], gone)
    else [q[0]] + Minus(q[1..], gone)
  }

  function Threads(q: seq<KProcessInfo>): set<KProcessInfo> {
    set x | x in q && x.isThread
  }

  function Others(q: seq<KProcessInfo>): (r: seq<KProcessInfo>)
    ensures forall x :: x in r ==> x in q && !x.isThread
    ensures forall x :: x in q && !x.isThread ==> x in r
    ensures q == [] ==> r == []
  {
    if q == [] then [] else (if q[0].isThread then [] else [q[0]]) + Others(q[1..])
  }

  lemma {:induction false} MinusIsDistinct(q: seq<KProcessInfo>, gone: set<KProcessInfo>)
    requires Distinct(q)
    ensures Distinct(Minus(q, gone))
  {
    if q != [] {
      assert Distinct(q[1..]);
      MinusIsDistinct(q[1..], gone);
      assert q[0] !in q[1..];
    }
  }

  /** list_remove of one member of a list without repetitions. */
  lemma {:induction false} MinusOne(q: seq<KProcessInfo>, x: KProcessInfo)
    requires Distinct(q) && x in q
    ensures Minus(q, {x}) == Without(q, IndexOf(q, x)) && |Minus(q, {x})| == |q| - 1
  {
    assert Distinct(q[1..]);
    if q[0] == x {
      MinusNone(q[1..], {x});
    } else {
      MinusOne(q[1..], x);
      assert Without(q, IndexOf(q, x)) == [q[0]] + Without(q[1..], IndexOf(q[1..], x));
    }
  }

  lemma {:induction false} MinusNone(q: seq<KProcessInfo>, gone: set<KProcessInfo>)
    requires forall x :: x in q ==> x !in gone
    ensures Minus(q, gone) == q
  {
    if q != [] {
      MinusNone(q[1..], gone);
    }
  }

  lemma MinusLast(q: seq<KProcessInfo>, p: KProcessInfo)
    requires p !in q
    ensures Minus(q + [p], {p}) == q
  {
    MinusOfAppend(q, [p], {p});
    MinusNone(q, {p});
  }

  lemma {:induction false} MinusTwice(q: seq<KProcessInfo>, a: set<KProcessInfo>, b: set<KProcessInfo>)
    ensures Minus(Minus(q, a), b) == Minus(q, a + b)
  {
    if q != [] {
      MinusTwice(q[1..], a, b);
      if q[0] !in a {
        assert ([q[0]] + Minus(q[1..], a))[1..] == Minus(q[1..], a);
      }
    }
  }

  lemma {:induction false} MinusOfAppend(q: seq<KProcessInfo>, r: seq<KProcessInfo>, gone: set<KProcessInfo>)
    ensures Minus(q + r, gone) == Minus(q, gone) + Minus(r, gone)
  {
    if q == [] {
      assert q + r == r;
    } else {
      assert (q + r)[1..] == q[1..] + r;
      MinusOfAppend(q[1..], r, gone);
    }
  }

  lemma {:induction false} OthersOfAppend(q: seq<KProcessInfo>, x: KProcessInfo)
    ensures Others(q + [x]) == Others(q) + (if x.isThread then [] else [x])
  {
    if q == [] {
      assert q + [x] == [x] && [x][1..] == [];
    } else {
      assert (q + [x])[1..] == q[1..] + [x];
      OthersOfAppend(q[1..], x);
    }
  }

  /** The parents and the running flags of the processes of q are as they were. */
  twostate predicate Unchanged(q: seq<KProcessInfo>)
    reads Elems(q)
  {
    forall x :: x in q ==> x.parent == old(x.parent) && x.running == old(x.running)
  }

  /** One more step along a list of children. */
  lemma TakeFirst(q: seq<KProcessInfo>, n: nat)
    requires n < |q| && Distinct(q)
    ensures Minus(q[n..], {q[n]}) == q[n + 1..]
    ensures q[..n + 1] == q[..n] + [q[n]]
    ensures Others(q[..n + 1]) == Others(q[..n]) + (if q[n].isThread then [] else [q[n]])
    ensures Threads(q[..n + 1]) == if q[n].isThread then Threads(q[..n]) + {q[n]} else Threads(q[..n])
    ensures q[n] !in q[..n]
  {
    MinusNone(q[n + 1..], {q[n]});
    assert q[n..][1..] == q[n + 1..];
    assert q[..n + 1] == q[..n] + [q[n]];
    OthersOfAppend(q[..n], q[n]);
  }

  lemma NoneTaken(q: seq<KProcessInfo>)
    ensures Threads(q[..0]) == {} && Others(q[..0]) == []
  {
  }

  lemma MinusThreads(all: seq<KProcessInfo>, q: seq<KProcessInfo>, n: nat)
    requires n < |q| && Distinct(q)
    ensures Minus(all, Threads(q[..n + 1]))
         == if q[n].isThread then Minus(Minus(all, Threads(q[..n])), {q[n]}) else Minus(all, Threads(q[..n]))
  {
    hide Minus, Distinct, Threads, Others;
    TakeFirst(q, n);
    if q[n].isThread {
      MinusTwice(all, Threads(q[..n]), {q[n]});
    }
  }

  // ---------------------------------------------------------------------------------------------
  // The scheduler queue.
  // ---------------------------------------------------------------------------------------------

  /** The position of the first process whose PID is not pid, |q| if there is none. */
  function FirstOther(q: seq<KProcessInfo>, pid: nat): (k: nat)
    ensures k <= |q| && (k < |q| ==> q[k].processID != pid)
    ensures forall i :: 0 <= i < k ==> q[i].processID == pid
  {
    if q == [] || q[0].processID != pid then 0 else 1 + FirstOther(q[1..], pid)
  }

  /** The position of the process that kprocess_yield chooses. */
  function Chosen(q: seq<KProcessInfo>, current: KProcessInfo?): (k: nat)
    ensures k <= |q|
    ensures
      if current == null || |q| <= 1 then k == 0
      else (k < |q| ==> q[k].processID != current.processID) && forall i :: 0 <= i < k ==> q[i].processID == current.processID
  {
    if current == null || |q| <= 1 then 0 else FirstOther(q, current.processID)
  }

  /** The queue after everything up to position k went to its end. */
  function Rotated(q: seq<KProcessInfo>, k: nat): (r: seq<KProcessInfo>)
    requires k <= |q|
    ensures |r| == |q|
  {
    q[k..] + q[..k]
  }

  lemma RotateOne(q: seq<KProcessInfo>, n: nat, p: KProcessInfo, r: seq<KProcessInfo>)
    requires n < |q| && Rotated(q, n) == [p] + r
    ensures p == q[n] && r + [p] == Rotated(q, n + 1)
  {
    assert Rotated(q, n)[0] == q[n];
    assert r == Rotated(q, n)[1..];
  }

  datatype Event = Yield | Spawn(p: KProcessInfo) | Remove(gone: set<KProcessInfo>)

  /** What the scheduler sees: the queue and the process that runs. */
  datatype Schedule = Schedule(queue: seq<KProcessInfo>, current: KProcessInfo?)

  function After(s: Schedule, e: Event): Schedule {
    match e
    case Yield =>
      var k := Chosen(s.queue, s.current);
      if k >= |s.queue| then s else Schedule(Rotated(s.queue, k + 1), s.queue[k])
    case Spawn(p) => Schedule(s.queue + [p], s.current)
    case Remove(gone) => Schedule(Minus(s.queue, gone), if s.current in gone then null else s.current)
  }

  lemma AfterRemove(s: Schedule, gone: set<KProcessInfo>)
    requires s.current in gone
    ensures After(s, Remove(gone)) == Schedule(Minus(s.queue, gone), null)
  {
  }

  function AfterAll(s: Schedule, events: seq<Event>): Schedule
    decreases |events|
  {
    if events == [] then s else AfterAll(After(s, events[0]), events[1..])
  }

  function Yields(events: seq<Event>): nat {
    if events == [] then 0 else (if events[0].Yield? then 1 else 0) + Yields(events[1..])
  }

  /** No other process of the queue shares the PID of p. */
  ghost predicate OwnPid(q: seq<KProcessInfo>, p: KProcessInfo) {
    forall x | x in q && x.processID == p.processID :: x == p
  }

  /** Along the run p is never removed, and no other live process has its PID. */
  ghost predicate Undisturbed(s: Schedule, events: seq<Event>, p: KProcessInfo)
    decreases |events|
  {
    && OwnPid(s.queue, p) && (s.current != null ==> s.current in s.queue)
    && (events == [] ||
        (!(events[0].Remove? && p in events[0].gone) && Undisturbed(After(s, events[0]), events[1..], p)))
  }

  /** While its PID is its own, a process that is not running and stands at position i of the queue runs
      within i + 1 yields, whatever is created or removed in between. */
  lemma {:induction false} RunsWithinItsPosition(s: Schedule, events: seq<Event>, p: KProcessInfo, i: nat) returns (n: nat)
    requires i < |s.queue| && s.queue[i] == p && s.current != p
    requires Undisturbed(s, events, p) && Yields(events) >= i + 1
    ensures n <= |events| && Yields(events[..n]) <= i + 1 && AfterAll(s, events[..n]).current == p
    decreases |events|
  {
    var t := After(s, events[0]);
    var j := i;
    if events[0].Yield? {
      var k := Chosen(s.queue, s.current);
      assert k <= i;
      if s.queue[k] == p {
        n := 1;
        assert events[..1] == [events[0]] && [events[0]][1..] == [];
        return;
      }
      assert Rotated(s.queue, k + 1)[i - (k + 1)] == p;
      j := i - (k + 1);
    } else if events[0].Remove? {
      j := MinusMovesForward(s.queue, events[0].gone, i);
    }
    var m := RunsWithinItsPosition(t, events[1..], p, j);
    n := m + 1;
    assert events[..n][1..] == events[1..][..m];
  }

  lemma {:induction false} MinusMovesForward(q: seq<KProcessInfo>, gone: set<KProcessInfo>, i: nat) returns (j: nat)
    requires i < |q| && q[i] !in gone
    ensures j <= i && j < |Minus(q, gone)| && Minus(q, gone)[j] == q[i]
  {
    if i == 0 {
      j := 0;
    } else {
      var k := MinusMovesForward(q[1..], gone, i - 1);
      j := if q[0] in gone then k else k + 1;
    }
  }

  // ---------------------------------------------------------------------------------------------
  // The process table.
  // ---------------------------------------------------------------------------------------------

  /** The processes that a kill of p takes: p itself and its threads. */
  function Victims(p: KProcessInfo): set<KProcessInfo>
    reads p
  {
    {p} + Threads(p.children)
  }

  function Parents(p: KProcessInfo): set<KProcessInfo>
    reads p
  {
    if p.parent == null then {} else {p.parent}
  }

  ghost predicate OwnContexts(q: seq<KProcessInfo>) {
    forall x, y | x in q && y in q && !x.isThread && !y.isThread && x.context == y.context :: x == y
  }

  ghost function Contexts(q: seq<KProcessInfo>): set<nat> {
    set x | x in q && !x.isThread :: x.context
  }

  lemma AppendKeeps(q: seq<KProcessInfo>, p: KProcessInfo)
    requires p !in q && Distinct(q) && OwnContexts(q) && (!p.isThread ==> p.context !in Contexts(q))
    ensures Distinct(q + [p]) && OwnContexts(q + [p])
    ensures Contexts(q + [p]) == Contexts(q) + (if p.isThread then {} else {p.context})
  {
  }

  lemma NoneTwice()
    ensures Distinct<KProcessInfo>([])
  {
  }

  lemma ContextsWithout(q: seq<KProcessInfo>, p: KProcessInfo)
    requires OwnContexts(q) && p in q
    ensures OwnContexts(Minus(q, {p}))
    ensures Contexts(Minus(q, {p})) == Contexts(q) - (if p.isThread then {} else {p.context})
  {
  }

  class ProcessTable {
    var processCount: nat
    var currentProcess: KProcessInfo?
    var rootProcess: KProcessInfo?
    var queue: seq<KProcessInfo>
    /** The first process ever created, from its creation on. */
    ghost var top: KProcessInfo?
    ghost var clock: nat
    /** The memory contexts that have been created and not deleted. */
    ghost var contexts: set<nat>

    /** The processes form a tree under top, and every one of them runs in a live context. */
    ghost predicate Forest()
      reads this, Elems(queue)
    {
      && Distinct(queue) && processCount == |queue| < MAX_PROCESS_COUNT
      && (top == null <==> queue == []) && (top != null ==> top in queue)
      && (if rootProcess == null then |queue| <= 1 && currentProcess == null else rootProcess == top)
      && (forall x {:trigger Linked(x)} | x in queue :: Linked(x))
      && (forall x {:trigger OwnsChildren(x)} | x in queue :: OwnsChildren(x))
      && OwnContexts(queue)
      && contexts == Contexts(queue)
    }

    ghost predicate OwnsChildren(x: KProcessInfo)
      requires x in queue
      reads this, Elems(queue)
    {
      Distinct(x.children) && forall c | c in x.children :: c in queue && c.parent == x
    }

    /** What holds of one queued process. */
    ghost predicate Linked(x: KProcessInfo)
      requires x in queue
      reads this, Elems(queue)
    {
      && x.birth < clock
      && (x.running <==> x == currentProcess)
      && (if x == top then x.parent == null && x.processID == 1 && !x.isThread
          else
            && x.parent != null && x.parent in queue && x in x.parent.children
            && !x.parent.isThread && x.parent.birth < x.birth && x.processID > 1
            && top != null && top.birth < x.birth
            && (x.isThread ==> x.context == x.parent.context))
    }

    ghost predicate Valid()
      reads this, Elems(queue)
    {
      Forest() && (currentProcess != null ==> currentProcess in queue)
    }

    constructor ()
      ensures Valid() && queue == [] && currentProcess == null && contexts == {}
    {
      processCount, currentProcess, rootProcess, queue := 0, null, null, [];
      top, clock, contexts := null, 0, {};
    }

    ghost function Scheduler(): Schedule
      reads this
    {
      Schedule(queue, currentProcess)
    }

    /** change_parent_process. */
    method ChangeParent(p: KProcessInfo, parent: KProcessInfo, ghost target: KProcessInfo)
      requires if parent.isThread then parent.parent == target else parent == target
      requires p != target && p.parent != p && p.parent != target
      modifies p`parent, target`children, Parents(p)`children
      ensures p.parent == target && target.children == old(target.children) + [p]
      ensures old(p.parent) != null ==> old(p.parent).children == Minus(old(p.parent.children), {p})
    {
      if p.parent != null {
        p.parent.children := Minus(p.parent.children, {p});
      }
      p.parent := if parent.isThread then parent.parent else parent;
      p.parent.children := p.parent.children + [p];
    }

    /** The end of kprocess_kill_process: the process leaves its parent's list and the queue. */
    method Unlink(p: KProcessInfo, parent: KProcessInfo)
      requires p.parent == parent && processCount > 0
      modifies this`queue, this`processCount, parent`children
      ensures queue == Minus(old(queue), {p}) && processCount == old(processCount) - 1
      ensures parent.children == Minus(old(parent.children), {p})
    {
      parent.children := Minus(parent.children, {p});
      queue := Minus(queue, {p});
      processCount := processCount - 1;
    }

    /** A childless process leaves the table, with its own context unless it is a thread. */
    method Discard(p: KProcessInfo)
      requires Forest() && p in queue && p != top && p.parent != null && p.children == []
      modifies this`queue, this`processCount, this`contexts, Parents(p)`children
      ensures Forest()
      ensures queue == Minus(old(queue), {p})
      ensures contexts == old(contexts) - (if p.isThread then {} else {p.context})
      ensures p.parent.children == Minus(old(p.parent.children), {p})
    {
      hide OwnContexts, Contexts, Distinct, Minus;
      assert Linked(p) && OwnsChildren(p.parent);
      MinusIsDistinct(queue, {p});
      MinusOne(queue, p);
      ContextsWithout(queue, p);
      MinusIsDistinct(p.parent.children, {p});
      Unlink(p, p.parent);
      contexts := contexts - (if p.isThread then {} else {p.context});
      StillLinked(p);
    }

    twostate lemma StillLinked(p: KProcessInfo)
      requires old(Forest()) && p in old(queue) && old(p.parent) != null && p.children == []
      requires queue == Minus(old(queue), {p}) && Unchanged(old(queue))
      requires currentProcess == old(currentProcess) && top == old(top) && clock == old(clock) && p != top
      requires old(p.parent).children == Minus(old(p.parent.children), {p}) && Distinct(old(p.parent).children)
      requires forall x :: x in old(queue) && x != old(p.parent) ==> x.children == old(x.children)
      ensures forall x {:trigger Linked(x)} | x in queue :: Linked(x)
      ensures forall x {:trigger OwnsChildren(x)} | x in queue :: OwnsChildren(x)
    {
      hide OwnContexts, Contexts, Distinct;
      assert old(Linked(p) && OwnsChildren(p));
      forall x | x in queue ensures Linked(x) {
        assert old(Linked(x) && OwnsChildren(p));
      }
      forall x | x in queue ensures OwnsChildren(x) {
        assert old(OwnsChildren(x) && OwnsChildren(p));
      }
    }

    lemma ThreadsAreChildless(p: KProcessInfo)
      requires Forest() && p in queue && p.children != []
      ensures !p.isThread
    {
      hide OwnContexts, Contexts, Distinct;
      assert OwnsChildren(p) && Linked(p.children[0]);
    }

    /** The victims of a kill: the process and its threads. */
    lemma VictimsAre(p: KProcessInfo)
      requires Forest() && p in queue
      ensures forall x | x in queue :: x in Victims(p) <==> x == p || (x.isThread && x.parent == p)
    {
      hide OwnContexts, Contexts, Distinct;
      assert OwnsChildren(p);
      forall x | x in queue ensures x in p.children <==> x.parent == p {
        assert Linked(x);
      }
    }

    /** Who runs in the context of a process: itself and its threads. */
    lemma SharersAre(p: KProcessInfo)
      requires Forest() && p in queue && !p.isThread
      ensures forall x | x in queue :: x.context == p.context <==> x == p || (x.isThread && x.parent == p)
    {
      hide Contexts, Distinct;
      forall x | x in queue ensures x.context == p.context <==> x == p || (x.isThread && x.parent == p) {
        assert Linked(x);
        if x.isThread {
          assert Linked(x.parent);
        }
      }
    }

    /** The root takes over a child that is not a thread. */
    method Adopt(child: KProcessInfo)
      requires Forest() && child in queue && child != top && !child.isThread && child.parent != top && child.parent != null && rootProcess != null
      modifies child`parent, top`children, Parents(child)`children
      ensures Forest()
      ensures child.parent == top && top.children == old(top.children) + [child]
      ensures old(child.parent).children == Minus(old(child.parent.children), {child})
    {
      hide OwnContexts, Contexts;
      assert Linked(child) && OwnsChildren(child.parent) && OwnsChildren(top) && Linked(top);
      MinusIsDistinct(child.parent.children, {child});
      ChangeParent(child, rootProcess, rootProcess);
      forall x | x in queue ensures Linked(x) {
        assert old(Linked(x));
      }
      forall x | x in queue ensures OwnsChildren(x) {
        assert old(OwnsChildren(x));
      }
    }

    /** One round of the loop of kprocess_kill_process over the children of p. */
    method ReleaseFirst(p: KProcessInfo)
      requires Forest() && p in queue && p != top && rootProcess != null && p.children != []
      modifies this`queue, this`processCount, this`contexts, Elems(queue)`parent, Elems(queue)`children
      ensures Forest() && contexts == old(contexts)
      ensures p in queue && p.children == old(p.children)[1..] && p.parent == old(p.parent)
      ensures var child := old(p.children)[0];
        queue == if child.isThread then Minus(old(queue), {child}) else old(queue)
      ensures forall x :: x in queue ==> x.parent == (if x == old(p.children)[0] then top else old(x.parent))
      ensures forall x :: x in queue && x != p && x != top ==> x.children == old(x.children)
      ensures var child := old(p.children)[0];
        top.children == old(top.children) + if child.isThread then [] else [child]
      decreases 1
    {
      hide OwnContexts, Contexts, Distinct;
      var child := p.children[0];
      assert OwnsChildren(p) && Linked(p) && Linked(child) && OwnsChildren(top);
      TakeFirst(p.children, 0);
      if !child.isThread {
        Adopt(child);
      } else {
        if child.children != [] {
          ThreadsAreChildless(child);
        }
        assert Victims(child) == {child};
        forall x | x in queue && x != p ensures Minus(x.children, {child}) == x.children {
          assert OwnsChildren(x);
          MinusNone(x.children, {child});
        }
        var killed := Kill(child);
      }
    }

    lemma ChildrenAreDistinct(p: KProcessInfo)
      requires Forest() && p in queue
      ensures Distinct(p.children) && p !in p.children && top != null
    {
      assert Linked(p) && OwnsChildren(p);
    }

    /** The loop of kprocess_kill_process: it always looks at the head of the list of children. */
    method ReleaseChildren(p: KProcessInfo)
      requires Forest() && p in queue && p != top && rootProcess != null
      modifies this`queue, this`processCount, this`contexts, Elems(queue)`parent, Elems(queue)`children
      ensures Forest() && contexts == old(contexts)
      ensures p in queue && p.children == [] && p.parent == old(p.parent)
      ensures queue == Minus(old(queue), Threads(old(p.children)))
      ensures forall x :: x in queue ==> x.parent == (if x in old(p.children) then top else old(x.parent))
      ensures forall x :: x in queue && x != p && x != top ==> x.children == old(x.children)
      ensures top.children == old(top.children) + Others(old(p.children))
      decreases 2
    {
      hide Forest, Distinct, Minus, Others, Threads;
      ghost var mine, n := p.children, 0;
      ChildrenAreDistinct(p);
      MinusNone(queue, {});
      NoneTaken(mine);
      while p.children != []
        invariant Forest() && p in queue && p != top && top != null && rootProcess != null
        invariant n <= |mine| && p.children == mine[n..] && p.parent == old(p.parent)
        invariant queue == Minus(old(queue), Threads(mine[..n])) && contexts == old(contexts)
        invariant forall x :: x in queue ==> x.parent == (if x in mine[..n] then top else old(x.parent))
        invariant forall x :: x in queue && x != p && x != top ==> x.children == old(x.children)
        invariant top.children == old(top.children) + Others(mine[..n])
        decreases |p.children|
      {
        TakeFirst(mine, n);
        MinusThreads(old(queue), mine, n);
        ReleaseFirst(p);
        n := n + 1;
      }
      assert mine[..n] == mine;
    }

    /** kprocess_kill_process. */
    method Kill(p: KProcessInfo) returns (ok: bool)
      requires Forest() && p in queue && rootProcess != null
      modifies this`queue, this`processCount, this`contexts, Elems(queue)`parent, Elems(queue)`children
      ensures Forest()
      ensures ok <==> p != top
      ensures !ok ==> queue == old(queue) && contexts == old(contexts)
                      && forall x :: x in queue ==> x.parent == old(x.parent) && x.children == old(x.children)
      ensures ok ==> queue == Minus(old(queue), old(Victims(p)))
      ensures ok ==> forall x | x in old(queue) :: x in queue <==> x != p && !(x.isThread && old(x.parent) == p)
      ensures ok ==> contexts == old(contexts) - (if p.isThread then {} else {p.context})
      ensures ok ==> forall x :: x in queue ==> x.parent == (if x in old(p.children) then top else old(x.parent))
      ensures ok ==> forall x :: x in queue && x != top ==> x.children == Minus(old(x.children), {p})
      ensures ok ==> top.children == Minus(old(top.children), {p}) + Others(old(p.children))
      decreases if p.isThread then 0 else 3
    {
      hide OwnContexts, Contexts, Distinct, Minus, Others;
      assert Linked(p) && OwnsChildren(p) && (top != null ==> OwnsChildren(top));
      if p.parent == null {
        return false;
      }
      ok := true;
      VictimsAre(p);
      ghost var mine, all := p.children, queue;
      MinusOfAppend(top.children, Others(mine), {p});
      MinusNone(Others(mine), {p});
      if p.isThread {
        if mine != [] {
          ThreadsAreChildless(p);
        }
        MinusNone(queue, {});
        assert Threads(mine) == {};
      } else {
        ReleaseChildren(p);
      }
      MinusTwice(all, Threads(mine), {p});
      assert Threads(mine) + {p} == old(Victims(p));
      forall x | x in queue && x != p.parent ensures Minus(x.children, {p}) == x.children {
        assert OwnsChildren(x);
        MinusNone(x.children, {p});
      }
      assert Linked(p);
      Discard(p);
    }

    method Enqueue(p: KProcessInfo) returns (ok: bool)
      modifies this`queue
      ensures ok <==> processCount < MAX_PROCESS_COUNT
      ensures queue == if ok then old(queue) + [p] else old(queue)
    {
      ok := processCount < MAX_PROCESS_COUNT;
      if ok {
        queue := queue + [p];
      }
    }

    method Dequeue() returns (p: KProcessInfo?)
      modifies this`queue
      ensures p == null <==> old(queue) == []
      ensures p != null ==> old(queue) == [p] + queue
    {
      if queue == [] {
        return null;
      }
      p, queue := queue[0], queue[1..];
    }

    /** The process that owns what the current process creates. */
    ghost function Creator(): KProcessInfo?
      requires currentProcess != null ==> currentProcess in queue
      reads this, Elems(queue)
    {
      if currentProcess == null then null
      else if currentProcess.isThread then currentProcess.parent
      else currentProcess
    }

    /** A new process joins the queue and the children of its creator. */
    twostate lemma Joins(new p: KProcessInfo)
      requires old(Valid()) && queue == old(queue) + [p] && p !in old(queue) && processCount == |queue| < MAX_PROCESS_COUNT
      requires currentProcess == old(currentProcess) && rootProcess == old(rootProcess)
      requires old(queue) == [] || currentProcess != null
      requires p.parent == old(Creator()) && p.children == [] && p.processID == |queue| && !p.running
      requires p.birth == old(clock) && clock == old(clock) + 1 && top == if old(top) == null then p else old(top)
      requires if p.isThread then currentProcess != null && p.context == currentProcess.context else p.context !in old(contexts)
      requires contexts == old(contexts) + (if p.isThread then {} else {p.context})
      requires Unchanged(old(queue))
      requires forall x :: x in old(queue) ==> x.children == old(x.children) + (if x == p.parent then [p] else [])
      ensures Valid()
    {
      hide Minus, OwnContexts, Contexts, Distinct;
      AppendKeeps(old(queue), p);
      NoneTwice();
      if currentProcess != null {
        assert old(Linked(currentProcess) && Linked(Creator()) && OwnsChildren(Creator()));
      }
      forall x | x in old(queue) ensures Linked(x) && OwnsChildren(x) {
        JoinsKeep(p, x);
      }
      assert Linked(p) && OwnsChildren(p);
    }

    twostate lemma JoinsKeep(new p: KProcessInfo, x: KProcessInfo)
      requires old(Valid()) && queue == old(queue) + [p] && p !in old(queue) && x in old(queue)
      requires currentProcess == old(currentProcess) && clock == old(clock) + 1 && top == if old(top) == null then p else old(top)
      requires p.parent == old(Creator()) && p.birth == old(clock)
      requires Unchanged(old(queue))
      requires forall y :: y in old(queue) ==> y.children == old(y.children) + (if y == p.parent then [p] else [])
      ensures Linked(x) && OwnsChildren(x)
    {
      hide Minus, OwnContexts, Contexts;
      assert old(Linked(x) && OwnsChildren(x));
    }

    /** A refused creation leaves every field as it was. */
    twostate lemma StaysValid()
      requires old(Valid()) && queue == old(queue) && processCount == old(processCount) && contexts == old(contexts)
      requires currentProcess == old(currentProcess) && rootProcess == old(rootProcess)
      requires top == old(top) && clock == old(clock) && Unchanged(queue)
      requires forall x :: x in queue ==> x.children == old(x.children)
      ensures Valid()
    {
      hide OwnContexts, Contexts, Distinct;
      forall x | x in queue ensures Linked(x) && OwnsChildren(x) {
        assert old(Linked(x) && OwnsChildren(x));
      }
    }

    /** The failure path of kprocess_create: kprocess_kill_process on a process that was never queued. */
    method Abandon(p: KProcessInfo, parent: KProcessInfo, ghost siblings: seq<KProcessInfo>)
      requires p.parent == parent && parent.children == siblings + [p] && p !in siblings
      requires p !in queue && processCount > 0
      modifies this`queue, this`processCount, this`contexts, parent`children
      ensures queue == old(queue) && processCount == old(processCount) - 1 && parent.children == siblings
      ensures contexts == old(contexts) - (if p.isThread then {} else {p.context})
    {
      MinusNone(queue, {p});
      MinusLast(siblings, p);
      Unlink(p, parent);
      contexts := contexts - (if p.isThread then {} else {p.context});
    }

    lemma CreatorOwns()
      requires Valid()
      ensures processCount == |queue| < MAX_PROCESS_COUNT && (top == null <==> queue == [])
      ensures currentProcess != null ==> Creator() != null && Creator() in queue && !Creator().isThread
    {
      hide OwnContexts, Contexts, Distinct;
      if currentProcess != null {
        assert Linked(currentProcess) && OwnsChildren(Creator());
      }
    }

    /** kprocess_create, when its memory allocations succeed. */
    method Create(isThread: bool, newContext: nat) returns (pid: Option<nat>)
      requires Valid() && (!isThread ==> newContext !in contexts)
      modifies this`queue, this`processCount, this`contexts, this`top, this`clock, Elems(queue)`children
      ensures Valid()
      ensures pid.Some? <==>
        old(processCount) + 1 < MAX_PROCESS_COUNT && (if currentProcess == null then !isThread && old(queue) == [] else true)
      ensures pid.None? ==> queue == old(queue) && contexts == old(contexts)
                            && forall x :: x in queue ==> x.children == old(x.children)
      ensures pid.Some? ==>
        && |queue| == |old(queue)| + 1 && queue[..|old(queue)|] == old(queue)
        && var p := queue[|old(queue)|];
        && fresh(p) && p.processID == pid.value == |queue| && p.isThread == isThread
        && p.parent == old(Creator()) && p.children == []
        && p.context == (if isThread then currentProcess.context else newContext)
        && contexts == old(contexts) + (if isThread then {} else {newContext})
        && forall x :: x in old(queue) ==> x.children == old(x.children) + (if x == p.parent then [p] else [])
    {
      hide Forest;
      CreatorOwns();
      if processCount == MAX_PROCESS_COUNT || (currentProcess == null && (isThread || processCount > 0)) {
        return None;
      }
      processCount := processCount + 1;
      var p := new KProcessInfo(processCount, isThread, if isThread then currentProcess.context else newContext, clock);
      contexts := contexts + (if isThread then {} else {newContext});
      if currentProcess != null {
        ChangeParent(p, currentProcess, Creator());
      }
      var queued := Enqueue(p);
      if !queued {
        Abandon(p, p.parent, old(Creator().children));
        StaysValid();
        return None;
      }
      clock := clock + 1;
      if top == null {
        top := p;
      }
      pid := Some(p.processID);
      Joins(p);
    }

    /** s_switchProcess. */
    method SwitchTo(next: KProcessInfo)
      requires next.context in contexts
      modifies this`currentProcess, this`rootProcess, next`running, Current()`running
      ensures
        if old(currentProcess) != null && old(currentProcess).processID == next.processID
        then currentProcess == old(currentProcess) && rootProcess == old(rootProcess)
             && next.running == old(next.running) && currentProcess.running == old(currentProcess.running)
        else currentProcess == next && next.running && rootProcess == (if next.parent == null then next else old(rootProcess))
             && (old(currentProcess) != null ==> !old(currentProcess).running)
    {
      if currentProcess != null {
        if currentProcess.processID == next.processID {
          return;
        }
        currentProcess.running := false;
      }
      next.running, currentProcess := true, next;
      if next.parent == null {
        rootProcess := next;
      }
    }

    function Current(): set<KProcessInfo>
      reads this
    {
      if currentProcess == null then {} else {currentProcess}
    }

    /** kprocess_yield. */
    method Yield() returns (ok: bool)
      requires Valid() && queue != []
      modifies this`queue, this`currentProcess, this`rootProcess, Elems(queue)`running
      ensures Valid() && ok
      ensures Scheduler() == After(old(Scheduler()), Event.Yield)
    {
      hide OwnContexts, Contexts, Distinct, Rotated;
      ghost var q, k := queue, Chosen(queue, currentProcess);
      SomeoneElse();
      ContextIsLive(queue[k]);
      assert Linked(queue[k]) && Linked(top) && (currentProcess != null ==> Linked(currentProcess));
      var p, again, n := null, true, 0;
      RotatedKeeps(q, 0);
      while again
        invariant n <= k + 1 && queue == Rotated(q, n)
        invariant if again then n <= k else n == k + 1 && p == q[k]
        decreases k + 1 - n
        modifies this`queue
      {
        p := Dequeue();
        RotateOne(q, n, p, queue);
        var queued := Enqueue(p);
        again := processCount > 1 && currentProcess != null && p.processID == currentProcess.processID;
        n := n + 1;
      }
      SwitchTo(p);
      StillValid();
      return true;
    }

    lemma SomeoneElse()
      requires Valid() && queue != []
      ensures Chosen(queue, currentProcess) < |queue|
    {
      if currentProcess != null && |queue| > 1 {
        hide OwnContexts, Contexts;
        var x := if currentProcess == queue[0] then queue[1] else queue[0];
        assert Linked(x) && Linked(currentProcess) && Linked(top);
        var y := if currentProcess == top then x else top;
        assert y.processID != currentProcess.processID;
        var i :| 0 <= i < |queue| && queue[i] == y;
      }
    }

    /** No live process runs in a deleted context. */
    lemma ContextIsLive(x: KProcessInfo)
      requires Forest() && x in queue
      ensures x.context in contexts
    {
      hide OwnContexts, Distinct;
      assert Linked(x);
      if x.isThread {
        assert Linked(x.parent);
      }
    }

    twostate lemma StillValid()
      requires old(Valid()) && processCount == old(processCount) && contexts == old(contexts)
      requires top == old(top) && clock == old(clock) && rootProcess == top && currentProcess in old(queue)
      requires exists k | 0 <= k <= |old(queue)| :: queue == Rotated(old(queue), k)
      requires forall x :: x in old(queue) ==> x.children == old(x.children) && x.parent == old(x.parent)
      requires currentProcess.running && (old(currentProcess) != null && old(currentProcess) != currentProcess ==> !old(currentProcess).running)
      requires forall x :: x in old(queue) && x != old(currentProcess) && x != currentProcess ==> x.running == old(x.running)
      ensures Valid()
    {
      hide OwnContexts, Contexts, Distinct;
      var k :| 0 <= k <= |old(queue)| && queue == Rotated(old(queue), k);
      RotatedKeeps(old(queue), k);
      forall x | x in queue ensures Linked(x) && OwnsChildren(x) {
        assert old(Linked(x) && OwnsChildren(x));
      }
    }

    /** kprocess_exit from the kill on: process is the current process or the owner of its context. */
    method EndAndYield(process: KProcessInfo) returns (ok: bool)
      requires Valid() && currentProcess != null && process in queue && currentProcess in Victims(process)
      modifies this`queue, this`processCount, this`contexts, this`currentProcess, this`rootProcess
      modifies Elems(queue)`parent, Elems(queue)`children, Elems(queue)`running
      ensures Valid() && top == old(top)
      ensures ok <==> process != top
      ensures !ok ==> Scheduler() == old(Scheduler()) && contexts == old(contexts)
                      && forall x :: x in queue ==> x.parent == old(x.parent) && x.children == old(x.children)
      ensures ok ==> Scheduler() == After(After(old(Scheduler()), Remove(old(Victims(process)))), Event.Yield)
      ensures ok ==> contexts == old(contexts) - if process.isThread then {} else {process.context}
    {
      hide OwnContexts, Contexts, Distinct, Minus, After;
      assert Linked(currentProcess) && OwnsChildren(process);
      AfterRemove(Scheduler(), Victims(process));
      ok := Kill(process);
      if ok {
        Forget();
        ok := Yield();
      }
    }

    /** kprocess_exit: the current process ends, or the process whose context it shares. */
    method Exit(destroyContext: bool) returns (ok: bool)
      requires Valid() && currentProcess != null
      modifies this`queue, this`processCount, this`contexts, this`currentProcess, this`rootProcess
      modifies Elems(queue)`parent, Elems(queue)`children, Elems(queue)`running
      ensures Valid()
      ensures ok <==> old(Exiting(destroyContext)) != top
      ensures !ok ==> Scheduler() == old(Scheduler()) && contexts == old(contexts)
                      && forall x :: x in queue ==> x.parent == old(x.parent) && x.children == old(x.children)
      ensures ok ==>
        Scheduler() == After(After(old(Scheduler()), Remove(old(Victims(Exiting(destroyContext))))), Event.Yield)
      ensures ok ==>
        contexts == old(contexts) - if old(Exiting(destroyContext)).isThread then {} else {old(Exiting(destroyContext)).context}
      // Whom it ends, said of the processes: without destroyContext the current process and its threads ...
      ensures top != null && forall x | x in queue :: x in old(queue)
      ensures !destroyContext ==>
        && (ok <==> old(currentProcess) != top)
        && (ok ==> forall x | x in old(queue) ::
              x in queue <==> x != old(currentProcess) && !(x.isThread && old(x.parent) == old(currentProcess)))
        && (ok && old(currentProcess).isThread ==> old(currentProcess.parent) in queue && contexts == old(contexts))
        && (ok && !old(currentProcess).isThread ==> contexts == old(contexts) - {old(currentProcess).context})
      // ... and with it everybody who runs in its context.
      ensures destroyContext ==>
        && (ok <==> old(currentProcess).context != top.context)
        && (ok ==> forall x | x in old(queue) :: x in queue <==> x.context != old(currentProcess).context)
        && (ok ==> contexts == old(contexts) - {old(currentProcess).context})
    {
      hide OwnContexts, Contexts, Distinct, Minus, After, Forest;
      var process := currentProcess;
      if destroyContext && currentProcess.parent != null && currentProcess.isThread {
        process := currentProcess.parent;
      }
      WhoExits(process, destroyContext);
      VictimsAre(process);
      ghost var s, gone := Scheduler(), Victims(process);
      ok := EndAndYield(process);
      ExitMembers(s, gone);
    }

    /** The process that ends is the current one, or the owner of its context. */
    lemma WhoExits(p: KProcessInfo, destroyContext: bool)
      requires Valid() && currentProcess != null && p == Exiting(destroyContext)
      ensures p in queue && currentProcess in queue && currentProcess in Victims(p) && top != null
      ensures !destroyContext ==> p == currentProcess
      ensures p.isThread ==> p.parent in queue && p.parent !in Victims(p)
      ensures destroyContext ==>
        && !p.isThread && p.context == currentProcess.context && (p == top <==> p.context == top.context)
        && forall x | x in queue :: x.context == p.context <==> x == p || (x.isThread && x.parent == p)
    {
      hide Contexts, Distinct;
      assert Linked(currentProcess) && Linked(p) && OwnsChildren(p) && Linked(top);
      if p.isThread {
        assert Linked(p.parent);
      }
      if destroyContext {
        SharersAre(p);
      }
    }

    method Forget()
      requires Forest() && currentProcess !in queue && rootProcess != null
      modifies this`currentProcess
      ensures Valid() && currentProcess == null
    {
      hide OwnContexts, Contexts, Distinct;
      currentProcess := null;
      forall x | x in queue ensures Linked(x) && OwnsChildren(x) {
        assert old(Linked(x) && OwnsChildren(x));
      }
    }

    function Exiting(destroyContext: bool): KProcessInfo
      requires Valid() && currentProcess != null
      reads this, Elems(queue)
    {
      if destroyContext && currentProcess.parent != null && currentProcess.isThread
      then currentProcess.parent else currentProcess
    }

    /** The n-th ancestor of x, as far as there are any. */
    ghost function Ancestor(x: KProcessInfo?, n: nat): KProcessInfo?
      reads this, Elems(queue)
    {
      if n == 0 || x == null || x !in queue then x else Ancestor(x.parent, n - 1)
    }

    /** Every live process descends from the root: no process is lost, and no parents form a circle. */
    lemma {:induction false} DescendsFromRoot(x: KProcessInfo) returns (n: nat)
      requires Forest() && x in queue
      ensures Ancestor(x, n) == top
      decreases x.birth
    {
      hide OwnContexts, Contexts, Distinct;
      assert Linked(x);
      if x == top {
        n := 0;
      } else {
        n := DescendsFromRoot(x.parent);
        n := n + 1;
      }
    }
  }

  lemma YieldKeepsMembers(s: Schedule)
    ensures forall x :: x in After(s, Event.Yield).queue <==> x in s.queue
  {
    var k := Chosen(s.queue, s.current);
    if k < |s.queue| {
      RotatedKeeps(s.queue, k + 1);
    }
  }

  lemma ExitMembers(s: Schedule, gone: set<KProcessInfo>)
    ensures forall x :: x in After(After(s, Remove(gone)), Event.Yield).queue <==> x in s.queue && x !in gone
  {
    YieldKeepsMembers(After(s, Remove(gone)));
  }

  lemma RotatedKeeps(q: seq<KProcessInfo>, k: nat)
    requires k <= |q|
    ensures k == 0 ==> Rotated(q, k) == q
    ensures forall x | x in q :: x in Rotated(q, k)
    ensures forall x | x in Rotated(q, k) :: x in q
    ensures Distinct(q) ==> Distinct(Rotated(q, k))
    ensures Contexts(Rotated(q, k)) == Contexts(q)
    ensures OwnContexts(q) ==> OwnContexts(Rotated(q, k))
  {
    assert q == q[..k] + q[k..];
    assert k == 0 ==> q[..0] == [] && Rotated(q, k) == q;
    assert forall x | x in q :: x in Rotated(q, k);
  }
}
