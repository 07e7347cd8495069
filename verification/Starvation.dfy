/** When the round-robin queue keeps its promise: PIDs are counted down with every kill, so two live
    processes can have the same one, and then kprocess_yield may never run one of them. */
module Starvation {
  import opened Common
  import opened Processes

  /** One yield runs p exactly when the PID of p is not the one that runs, and every process in front of p
      has that one. */
  lemma OneYieldRuns(s: Schedule, p: KProcessInfo, i: nat)
    requires Distinct(s.queue) && i < |s.queue| && s.queue[i] == p && |s.queue| > 1 && s.current != null && s.current != p
    ensures After(s, Yield).current == p <==>
              && p.processID != s.current.processID
              && forall j :: 0 <= j < i ==> s.queue[j].processID == s.current.processID
  {
    var k := Chosen(s.queue, s.current);
  }

  ghost predicate TwoPids(q: seq<KProcessInfo>) {
    exists x, y :: x in q && y in q && x.processID != y.processID
  }

  function YieldTimes(s: Schedule, n: nat): Schedule
    decreases n
  {
    if n == 0 then s else YieldTimes(After(s, Yield), n - 1)
  }

  /** Which yield is the first to take the process at position i from the queue. */
  function Pass(s: Schedule, i: nat): (n: nat)
    ensures 1 <= n <= i + 1
    decreases i
  {
    var k := Chosen(s.queue, s.current);
    if k >= i then 1 else 1 + Pass(After(s, Yield), i - (k + 1))
  }

  /** The process directly in front of position i, the running one in front of the queue. */
  function InFront(s: Schedule, i: nat): KProcessInfo?
    requires i < |s.queue|
  {
    if i == 0 then s.current else s.queue[i - 1]
  }

  ghost predicate Orderly(s: Schedule) {
    Distinct(s.queue) && TwoPids(s.queue) && (s.current != null ==> s.current in s.queue)
  }

  lemma SomeOtherPid(s: Schedule)
    requires Orderly(s)
    ensures Chosen(s.queue, s.current) < |s.queue|
  {
    var x, y :| x in s.queue && y in s.queue && x.processID != y.processID;
    var i :| 0 <= i < |s.queue| && s.queue[i] == x;
    var j :| 0 <= j < |s.queue| && s.queue[j] == y;
  }

  lemma StaysOrderly(s: Schedule)
    requires Orderly(s)
    ensures Orderly(After(s, Yield)) && |After(s, Yield).queue| == |s.queue|
  {
    hide Rotated, Distinct;
    SomeOtherPid(s);
    var k := Chosen(s.queue, s.current);
    RotatedKeeps(s.queue, k + 1);
  }

  /** A process that the yield did not take moves forward, what is in front of it as well. */
  lemma NotTaken(s: Schedule, i: nat)
    requires i < |s.queue| && Chosen(s.queue, s.current) < i
    ensures var j, t := i - (Chosen(s.queue, s.current) + 1), After(s, Yield);
      j < |t.queue| && t.queue[j] == s.queue[i] && InFront(t, j) == InFront(s, i)
  {
  }

  /** Over yields alone, the pass that reaches a process runs it exactly when the process directly in
      front of it has another PID; and no earlier yield runs it. */
  lemma {:induction false} PassRunsIffPidDiffersInFront(s: Schedule, i: nat)
    requires Orderly(s) && i < |s.queue| && s.current != s.queue[i]
    ensures YieldTimes(s, Pass(s, i)).current == s.queue[i] <==>
              InFront(s, i) == null || InFront(s, i).processID != s.queue[i].processID
    ensures forall m :: 1 <= m < Pass(s, i) ==> YieldTimes(s, m).current != s.queue[i]
    decreases i
  {
    hide Distinct, Rotated, TwoPids;
    SomeOtherPid(s);
    StaysOrderly(s);
    var k, t, p := Chosen(s.queue, s.current), After(s, Yield), s.queue[i];
    assert YieldTimes(s, 1) == t;
    if k < i {
      var j := i - (k + 1);
      NotTaken(s, i);
      TakenIsAnother(s, i, k);
      PassRunsIffPidDiffersInFront(t, j);
      forall m | 1 <= m < Pass(s, i) ensures YieldTimes(s, m).current != p {
        assert m > 1 ==> YieldTimes(s, m) == YieldTimes(t, m - 1);
      }
    } else {
      TakenIsAnother(s, i, k);
    }
  }

  lemma TakenIsAnother(s: Schedule, i: nat, k: nat)
    requires Distinct(s.queue) && i < |s.queue| && k < |s.queue|
    ensures k != i ==> s.queue[k] != s.queue[i]
  {
  }

  // ---------------------------------------------------------------------------------------------
  // A run that ends in two live processes with one PID.
  // ---------------------------------------------------------------------------------------------

  /** root runs behind nobody, b and c share a PID, and c stands directly behind b. */
  ghost predicate Stuck(s: Schedule, root: KProcessInfo, b: KProcessInfo, c: KProcessInfo) {
    && root.processID != b.processID && b.processID == c.processID && b != c
    && (s == Schedule([root, b, c], b) || s == Schedule([b, c, root], root) || s == Schedule([c, root, b], b))
  }

  lemma StaysStuck(s: Schedule, root: KProcessInfo, b: KProcessInfo, c: KProcessInfo)
    requires Stuck(s, root, b, c)
    ensures Stuck(After(s, Yield), root, b, c)
  {
    var k := Chosen(s.queue, s.current);
    if s.queue == [root, b, c] {
      assert k == 0 && Rotated(s.queue, 1) == [b, c, root];
    } else if s.queue == [b, c, root] {
      assert k == 0 && Rotated(s.queue, 1) == [c, root, b];
    } else {
      assert s.queue[0] == c && s.queue[1] == root && |s.queue| == 3;
      assert k == 1;
      assert Rotated(s.queue, 2) == [b, c, root];
    }
  }

  /** c never runs, however often the others yield. */
  lemma {:induction false} StuckForEver(s: Schedule, root: KProcessInfo, b: KProcessInfo, c: KProcessInfo, n: nat)
    requires Stuck(s, root, b, c)
    ensures YieldTimes(s, n).current != c
    decreases n
  {
    if n > 0 {
      StaysStuck(s, root, b, c);
      StuckForEver(After(s, Yield), root, b, c, n - 1);
    }
  }

  lemma YieldFrom(q: seq<KProcessInfo>, current: KProcessInfo?, k: nat)
    requires k < |q|
    requires if current == null then k == 0 else
      |q| > 1 && q[k].processID != current.processID && forall j :: 0 <= j < k ==> q[j].processID == current.processID
    ensures After(Schedule(q, current), Yield) == Schedule(q[k + 1..] + q[..k + 1], q[k])
  {
    var c := Chosen(q, current);
    assert !(c < k) && !(k < c);
  }

  lemma CountIs(t: ProcessTable)
    requires t.Valid()
    ensures t.processCount == |t.queue|
  {
    hide OwnContexts, Contexts, Distinct;
  }

  /** The last process that was created. */
  lemma Newest(was: seq<KProcessInfo>, q: seq<KProcessInfo>)
    requires |q| == |was| + 1 && q[..|was|] == was
    ensures q == was + [q[|was|]]
  {
  }

  /** Only the root has PID 1. */
  lemma NotTheRoot(t: ProcessTable, x: KProcessInfo)
    requires t.Valid() && x in t.queue && x.processID != 1
    ensures x != t.top
  {
    hide OwnContexts, Contexts, Distinct;
    assert t.Linked(x);
  }

  /** The root alone, running. */
  method OneProcess() returns (t: ProcessTable, root: KProcessInfo)
    ensures fresh(t) && t.Valid() && t.queue == [root] && t.currentProcess == root && fresh(root)
    ensures t.contexts == {0} && root.processID == 1
  {
    hide ProcessTable.Forest, After, Distinct, Chosen, Rotated;
    t := new ProcessTable();
    CountIs(t);
    var pid := t.Create(false, 0);
    root := t.queue[0];
    assert t.queue == [root];
    YieldFrom([root], null, 0);
    var ok := t.Yield();
  }

  /** The root runs, a and b wait. */
  method ThreeProcesses() returns (t: ProcessTable, root: KProcessInfo, a: KProcessInfo, b: KProcessInfo)
    ensures fresh(t) && t.Valid() && t.queue == [root, a, b] && t.currentProcess == root && fresh({root, a, b})
    ensures t.contexts == {0, 1, 2} && a.children == [] && !a.isThread && a.context == 1
    ensures root.processID == 1 && a.processID == 2 && b.processID == 3 && a != t.top
  {
    hide ProcessTable.Forest, After, Distinct, Chosen, Rotated;
    t, root := OneProcess();
    CountIs(t);
    var pid := t.Create(false, 1);
    a := t.queue[1];
    Newest([root], t.queue);
    CountIs(t);
    pid := t.Create(false, 2);
    b := t.queue[2];
    Newest([root, a], t.queue);
    NotTheRoot(t, a);
  }

  /** a runs and ends; b runs next. */
  method TwoLeft() returns (t: ProcessTable, root: KProcessInfo, b: KProcessInfo)
    ensures fresh(t) && t.Valid() && t.queue == [root, b] && t.currentProcess == b && fresh({root, b})
    ensures t.contexts == {0, 2} && root.processID == 1 && b.processID == 3
  {
    hide ProcessTable.Forest, After, Distinct, Chosen, Minus, Rotated;
    var a;
    t, root, a, b := ThreeProcesses();
    YieldFrom([root, a, b], root, 1);
    assert [root, a, b][2..] + [root, a, b][..2] == [b, root, a];
    var ok := t.Yield();
    assert t.queue == [b, root, a] && t.currentProcess == a;
    WithoutLast(root, a, b);
    assert Victims(a) == {a};
    ok := t.Exit(false);
  }

  lemma WithoutLast(root: KProcessInfo, a: KProcessInfo, b: KProcessInfo)
    requires a != root && a != b
    ensures After(After(Schedule([b, root, a], a), Remove({a})), Yield) == Schedule([root, b], b)
  {
    MinusLast([b, root], a);
    assert [b, root] + [a] == [b, root, a];
    AfterRemove(Schedule([b, root, a], a), {a});
    YieldFrom([b, root], null, 0);
    assert [b, root][1..] + [b, root][..1] == [root, b];
  }

  /** Create a and b, end a, create c: b and c are both number 3, and c will never run. */
  method SharePid() returns (t: ProcessTable, root: KProcessInfo, b: KProcessInfo, c: KProcessInfo)
    ensures t.Valid() && c in t.queue && c != t.currentProcess && c.processID == b.processID == 3 && b in t.queue && b != c
    ensures forall n :: YieldTimes(t.Scheduler(), n).current != c
  {
    hide ProcessTable.Forest, YieldTimes;
    t, root, b := TwoLeft();
    CountIs(t);
    var pid := t.Create(false, 3);
    c := t.queue[2];
    Newest([root, b], t.queue);
    assert t.queue == [root, b, c];
    ghost var s := t.Scheduler();
    forall n: nat ensures YieldTimes(s, n).current != c {
      StuckForEver(s, root, b, c, n);
    }
  }
}
