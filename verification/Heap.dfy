/** The heap of src/kernel/kmalloc.c as it is: headers threaded through three circular lists. */
module KernelHeap {
  import opened Common
  import opened IntrusiveList
  import opened HeapModel

  type Node = ListNode<KMallocHeader>

  /** What the nodes of a header are for. */
  const ADJ: nat := 0
  const FREE: nat := 1
  const ALLOC: nat := 2

  /** A section header, at the start of its section. */
  class KMallocHeader {
    const at: nat
    var netNodeSize: nat
    var isAllocated: bool
    const freenode: Node
    const allocnode: Node
    const adjnode: Node

    /** s_createNewNode. */
    constructor (at: nat, netSize: nat)
      ensures this.at == at && netNodeSize == netSize && !isAllocated && Made(this)
      ensures fresh(NodesIn(this))
    {
      this.at, netNodeSize, isAllocated := at, netSize, false;
      freenode := new ListNode(FREE);
      allocnode := new ListNode(ALLOC);
      adjnode := new ListNode(ADJ);
      new;
      freenode.item, allocnode.item, adjnode.item := Some(this), Some(this), Some(this);
    }
  }

  ghost function NodesIn(h: KMallocHeader): set<Node> {
    {h.adjnode, h.freenode, h.allocnode}
  }

  /** The three nodes of a header lead back to it. */
  ghost predicate Made(h: KMallocHeader)
    reads h.freenode, h.allocnode, h.adjnode
  {
    && h.freenode.role == FREE && h.allocnode.role == ALLOC && h.adjnode.role == ADJ
    && h.freenode.item == Some(h) && h.allocnode.item == Some(h) && h.adjnode.item == Some(h)
  }

  ghost function NodeOf(h: KMallocHeader, role: nat): Node {
    if role == ADJ then h.adjnode else if role == FREE then h.freenode else h.allocnode
  }

  /** The nodes of the headers s for one of the lists. */
  ghost function NodesOf(s: seq<KMallocHeader>, role: nat): (r: seq<Node>)
    ensures |r| == |s| && forall i :: 0 <= i < |s| ==> r[i] == NodeOf(s[i], role)
  {
    seq(|s|, i requires 0 <= i < |s| => NodeOf(s[i], role))
  }

  ghost function Addresses(s: seq<KMallocHeader>): (r: seq<nat>)
    ensures |r| == |s| && forall i :: 0 <= i < |s| ==> r[i] == s[i].at
  {
    seq(|s|, i requires 0 <= i < |s| => s[i].at)
  }

  ghost function Sections(s: seq<KMallocHeader>): (r: seq<Section>)
    reads Elems(s)
    ensures |r| == |s| && forall i :: 0 <= i < |s| ==> r[i] == Section(s[i].at, s[i].netNodeSize, s[i].isAllocated)
  {
    seq(|s|, i requires 0 <= i < |s| reads Elems(s) => Section(s[i].at, s[i].netNodeSize, s[i].isAllocated))
  }

  lemma NodesOfInsert(s: seq<KMallocHeader>, k: nat, h: KMallocHeader, role: nat)
    requires k <= |s|
    ensures NodesOf(Insert(s, k, h), role) == Insert(NodesOf(s, role), k, NodeOf(h, role))
  {
  }

  lemma NodesOfWithout(s: seq<KMallocHeader>, k: nat, role: nat)
    requires k < |s|
    ensures NodesOf(Without(s, k), role) == Without(NodesOf(s, role), k)
  {
  }

  lemma NodesInsert(head: Node, s: seq<Node>, k: nat, x: Node)
    requires k <= |s|
    ensures Nodes(head, Insert(s, k, x)) == Nodes(head, s) + {x}
  {
    InsertMembers(s, k, x);
  }

  lemma NodesWithout(head: Node, s: seq<Node>, k: nat)
    requires k < |s|
    ensures Nodes(head, Without(s, k)) <= Nodes(head, s)
  {
  }

  /** The nodes of a ring are all for the same list. */
  lemma RingRoles(head: Node, s: seq<Node>)
    requires Ring(head, s)
    ensures forall x | x in Nodes(head, s) :: x.role == head.role
  {
  }

  /** The node of a header that is not on the list is none of the list's nodes. */
  lemma NotListed(head: Node, s: seq<KMallocHeader>, h: KMallocHeader, role: nat)
    requires Made(h) && (forall x | x in s :: Made(x)) && h !in s && head.item == None && role <= ALLOC
    ensures NodeOf(h, role) !in Nodes(head, NodesOf(s, role))
  {
    forall i | 0 <= i < |s| ensures NodesOf(s, role)[i].item == Some(s[i]) {
      assert s[i] in s && Made(s[i]) && NodesOf(s, role)[i] == NodeOf(s[i], role);
    }
  }

  lemma InitIs(base: nat, len: nat)
    ensures Init(base, len) == Heap([Section(base, len, false)], [base], [])
  {
  }

  lemma NoHeaders()
    ensures forall role :: NodesOf([], role) == []
    ensures Elems<Node>([]) == {}
  {
  }

  lemma Single(h: KMallocHeader)
    ensures forall role :: NodesOf([h], role) == [NodeOf(h, role)] && NodesOf([], role) == []
    ensures Elems([h]) == {h} && forall role :: Elems([NodeOf(h, role)]) == {NodeOf(h, role)}
    ensures Elems<KMallocHeader>([]) == {} && Elems<Node>([]) == {}
    ensures Addresses([h]) == [h.at] && Addresses([]) == []
    ensures Sections([h]) == [Section(h.at, h.netNodeSize, h.isAllocated)]
  {
  }

  datatype FindCriteria = NodeSize | NodeAddress

  predicate Matches(h: KMallocHeader, criteria: FindCriteria, value: nat)
    reads h
  {
    if criteria.NodeAddress? then h.at == value else h.netNodeSize >= value
  }

  /** s_findFirst: the first header of the list that meets the criteria. */
  method FindFirst(head: Node, criteria: FindCriteria, value: nat, ghost s: seq<KMallocHeader>)
    returns (found: KMallocHeader?, ghost k: nat)
    requires Ring(head, NodesOf(s, head.role)) && forall h | h in s :: Made(h)
    requires head.role == FREE || head.role == ALLOC
    ensures k <= |s| && forall j :: 0 <= j < k ==> !Matches(s[j], criteria, value)
    ensures if k == |s| then found == null else found == s[k] && Matches(s[k], criteria, value)
    ensures found == null ==> forall h | h in s :: !Matches(h, criteria, value)
    ensures found != null ==> found in s && Matches(found, criteria, value)
  {
    ghost var nodes := NodesOf(s, head.role);
    RingAt(head, nodes, 0);
    var node := head.next;
    k := 0;
    while node != head
      invariant k <= |s| && node == From(head, nodes, k)
      invariant forall j :: 0 <= j < k ==> !Matches(s[j], criteria, value)
      decreases |s| - k
    {
      assert node == NodeOf(s[k], head.role) && Made(s[k]);
      var header := node.item.value;
      if Matches(header, criteria, value) {
        return header, k;
      }
      RingAt(head, nodes, k + 1);
      node := node.next;
      k := k + 1;
    }
    return null, k;
  }

  class KMalloc {
    const s_buffer: nat
    const length: nat
    const s_adjHead: Node
    const s_freeHead: Node
    const s_allocHead: Node
    /** The headers on the three lists, in list order. */
    ghost var adj: seq<KMallocHeader>
    ghost var free: seq<KMallocHeader>
    ghost var alloc: seq<KMallocHeader>

    /** Every header and every node that was ever part of the heap. */
    ghost var headers: set<KMallocHeader>
    ghost var nodes: set<Node>

    /** The heap that the pointers spell out. */
    ghost function View(): Heap
      reads this, Elems(adj)
    {
      Heap(Sections(adj), Addresses(free), Addresses(alloc))
    }

    ghost function ListOf(role: nat): seq<KMallocHeader>
      reads this
    {
      if role == ADJ then adj else if role == FREE then free else alloc
    }

    ghost function HeadOf(role: nat): Node {
      if role == ADJ then s_adjHead else if role == FREE then s_freeHead else s_allocHead
    }

    ghost function Row(role: nat): seq<Node>
      reads this
    {
      NodesOf(ListOf(role), role)
    }

    ghost predicate AllMade()
      reads this, nodes
    {
      forall h | h in headers :: NodesIn(h) <= nodes && Made(h)
    }

    /** The pointers of one list form a circle through its headers. */
    ghost predicate Circle(role: nat)
      reads this, nodes
    {
      && (forall h | h in ListOf(role) :: h in headers)
      && Nodes(HeadOf(role), Row(role)) <= nodes
      && HeadOf(role).role == role && HeadOf(role).item == None
      && Ring(HeadOf(role), Row(role))
    }

    ghost predicate Circles()
      reads this, nodes
    {
      AllMade() && Circle(ADJ) && Circle(FREE) && Circle(ALLOC)
    }

    ghost predicate Shape()
      reads this, nodes
    {
      Circles() && (forall h | h in free :: h in adj) && (forall h | h in alloc :: h in adj)
    }

    /** s_createNewNode: a header that is on no list yet. */
    method NewHeader(at: nat, netSize: nat) returns (h: KMallocHeader)
      requires Circles()
      modifies this`headers, this`nodes
      ensures Circles() && fresh(h) && h in headers && h.at == at && h.netNodeSize == netSize && !h.isAllocated
      ensures headers == old(headers) + {h} && nodes == old(nodes) + NodesIn(h) && fresh(NodesIn(h))
    {
      hide Ring, NodesOf;
      h := new KMallocHeader(at, netSize);
      headers, nodes := headers + {h}, nodes + NodesIn(h);
    }

    ghost method SetList(role: nat, s: seq<KMallocHeader>)
      modifies this`adj, this`free, this`alloc
      ensures adj == if role == ADJ then s else old(adj)
      ensures free == if role == FREE then s else old(free)
      ensures alloc == if role == ADJ || role == FREE then old(alloc) else s
    {
      if role == ADJ {
        adj := s;
      } else if role == FREE {
        free := s;
      } else {
        alloc := s;
      }
    }

    /** Only links between nodes of the given list changed. */
    twostate predicate OthersSame(role: nat)
      reads this, nodes
    {
      && (forall x | x in nodes && old(allocated(x)) :: x.item == old(x.item))
      && (forall x | x in nodes && old(allocated(x)) && x.role != role :: x.next == old(x.next) && x.prev == old(x.prev))
    }

    /** The lists whose links stay are still circles. */
    twostate lemma OthersTurn(role: nat)
      requires old(Circles()) && OthersSame(role) && Circle(role) && role <= ALLOC
      requires nodes == old(nodes) && headers == old(headers)
      requires forall r: nat | r <= ALLOC && r != role :: ListOf(r) == old(ListOf(r))
      ensures Circles()
    {
      hide Circle, Made;
      StillMade(role);
      if role != ADJ {
        StillTurns(role, ADJ);
      }
      if role != FREE {
        StillTurns(role, FREE);
      }
      if role != ALLOC {
        StillTurns(role, ALLOC);
      }
    }

    twostate lemma StillMade(role: nat)
      requires old(AllMade()) && OthersSame(role) && nodes == old(nodes) && headers == old(headers)
      ensures AllMade()
    {
      forall x | x in headers ensures NodesIn(x) <= nodes && Made(x) {
        assert old(NodesIn(x) <= nodes && Made(x));
      }
    }

    twostate lemma StillTurns(role: nat, new r: nat)
      requires old(Circle(r)) && OthersSame(role) && r <= ALLOC && r != role
      requires nodes == old(nodes) && headers == old(headers)
      requires forall r: nat | r <= ALLOC && r != role :: ListOf(r) == old(ListOf(r))
      ensures Circle(r)
    {
      assert Row(r) == old(Row(r));
      var head, row := HeadOf(r), Row(r);
      assert forall x | x in Nodes(head, row) :: x.role == r && x.next == old(x.next) && x.prev == old(x.prev);
      hide NodesOf, Distinct;
    }

    /** list_add_after of the node that h has for one of the lists. */
    method LinkAfter(anchor: Node, node: Node, ghost h: KMallocHeader, ghost role: nat, ghost k: nat)
      requires Circles() && role <= ALLOC && k <= |ListOf(role)| && anchor == Before(HeadOf(role), Row(role), k)
      requires node == NodeOf(h, role) && h in headers && h !in ListOf(role)
      modifies this`adj, this`free, this`alloc, nodes`next, nodes`prev
      ensures Circles()
      ensures adj == if role == ADJ then Insert(old(adj), k, h) else old(adj)
      ensures free == if role == FREE then Insert(old(free), k, h) else old(free)
      ensures alloc == if role == ALLOC then Insert(old(alloc), k, h) else old(alloc)
    {
      TurnWithAfter(anchor, node, h, role, k);
      OthersTurn(role);
    }

    method TurnWithAfter(anchor: Node, node: Node, ghost h: KMallocHeader, ghost role: nat, ghost k: nat)
      requires AllMade() && Circle(role) && role <= ALLOC && k <= |ListOf(role)| && anchor == Before(HeadOf(role), Row(role), k)
      requires node == NodeOf(h, role) && h in headers && h !in ListOf(role)
      modifies this`adj, this`free, this`alloc, nodes`next, nodes`prev
      ensures Circle(role) && OthersSame(role)
      ensures adj == if role == ADJ then Insert(old(adj), k, h) else old(adj)
      ensures free == if role == FREE then Insert(old(free), k, h) else old(free)
      ensures alloc == if role == ALLOC then Insert(old(alloc), k, h) else old(alloc)
    {
      hide Ring, NodesOf, Distinct, Nodes, Insert, From, Before;
      ghost var head, row := HeadOf(role), Row(role);
      NotListed(head, ListOf(role), h, role);
      NodesInsert(head, row, k, node);
      NodesOfInsert(ListOf(role), k, h, role);
      RingRoles(head, row);
      InsertMembers(ListOf(role), k, h);
      ListAddAfter(anchor, node, head, row, k);
      SetList(role, Insert(ListOf(role), k, h));
    }

    /** list_add_before, likewise. */
    method LinkBefore(anchor: Node, node: Node, ghost h: KMallocHeader, ghost role: nat, ghost k: nat)
      requires Circles() && role <= ALLOC && k <= |ListOf(role)| && anchor == From(HeadOf(role), Row(role), k)
      requires node == NodeOf(h, role) && h in headers && h !in ListOf(role)
      modifies this`adj, this`free, this`alloc, nodes`next, nodes`prev
      ensures Circles()
      ensures adj == if role == ADJ then Insert(old(adj), k, h) else old(adj)
      ensures free == if role == FREE then Insert(old(free), k, h) else old(free)
      ensures alloc == if role == ALLOC then Insert(old(alloc), k, h) else old(alloc)
    {
      TurnWithBefore(anchor, node, h, role, k);
      OthersTurn(role);
    }

    method TurnWithBefore(anchor: Node, node: Node, ghost h: KMallocHeader, ghost role: nat, ghost k: nat)
      requires AllMade() && Circle(role) && role <= ALLOC && k <= |ListOf(role)| && anchor == From(HeadOf(role), Row(role), k)
      requires node == NodeOf(h, role) && h in headers && h !in ListOf(role)
      modifies this`adj, this`free, this`alloc, nodes`next, nodes`prev
      ensures Circle(role) && OthersSame(role)
      ensures adj == if role == ADJ then Insert(old(adj), k, h) else old(adj)
      ensures free == if role == FREE then Insert(old(free), k, h) else old(free)
      ensures alloc == if role == ALLOC then Insert(old(alloc), k, h) else old(alloc)
    {
      hide Ring, NodesOf, Distinct, Nodes, Insert, From, Before;
      ghost var head, row := HeadOf(role), Row(role);
      NotListed(head, ListOf(role), h, role);
      NodesInsert(head, row, k, node);
      NodesOfInsert(ListOf(role), k, h, role);
      RingRoles(head, row);
      InsertMembers(ListOf(role), k, h);
      ListAddBefore(anchor, node, head, row, k);
      SetList(role, Insert(ListOf(role), k, h));
    }

    /** list_remove, likewise. */
    method Unlink(node: Node, ghost role: nat, ghost k: nat)
      requires Circles() && role <= ALLOC && k < |ListOf(role)| && node == Row(role)[k]
      modifies this`adj, this`free, this`alloc, nodes`next, nodes`prev
      ensures Circles()
      ensures adj == if role == ADJ then Without(old(adj), k) else old(adj)
      ensures free == if role == FREE then Without(old(free), k) else old(free)
      ensures alloc == if role == ALLOC then Without(old(alloc), k) else old(alloc)
    {
      TurnWithout(node, role, k);
      OthersTurn(role);
    }

    method TurnWithout(node: Node, ghost role: nat, ghost k: nat)
      requires AllMade() && Circle(role) && role <= ALLOC && k < |ListOf(role)| && node == Row(role)[k]
      modifies this`adj, this`free, this`alloc, nodes`next, nodes`prev
      ensures Circle(role) && OthersSame(role)
      ensures adj == if role == ADJ then Without(old(adj), k) else old(adj)
      ensures free == if role == FREE then Without(old(free), k) else old(free)
      ensures alloc == if role == ALLOC then Without(old(alloc), k) else old(alloc)
    {
      hide Ring, NodesOf, Distinct, Nodes, Without;
      ghost var head, row := HeadOf(role), Row(role);
      NodesWithout(head, row, k);
      NodesOfWithout(ListOf(role), k, role);
      Others(ListOf(role), k);
      RingRoles(head, row);
      ListRemove(node, head, row, k);
      SetList(role, Without(ListOf(role), k));
    }

    ghost predicate Valid()
      reads this, nodes, headers
    {
      Shape() && Inv(View(), s_buffer, length)
    }

    /** The list heads. */
    constructor (buffer: nat, length: nat)
      ensures Shape() && adj == free == alloc == [] && fresh(nodes) && headers == {} && s_buffer == buffer && this.length == length
    {
      s_buffer, this.length := buffer, length;
      s_freeHead := new ListNode(FREE);
      s_allocHead := new ListNode(ALLOC);
      s_adjHead := new ListNode(ADJ);
      adj, free, alloc := [], [], [];
      new;
      nodes, headers := {s_freeHead, s_allocHead, s_adjHead}, {};
      NoHeaders();
    }

    /** The end of kmalloc_init: one free section spans the buffer. */
    method AddFirstSection()
      requires Shape() && adj == free == alloc == [] && length >= HEADER
      modifies this, nodes
      ensures Valid()
      ensures fresh(nodes - old(nodes)) && fresh(headers - old(headers))
      ensures View() == Init(s_buffer, length)
    {
      hide Inv, NodesOf, Addresses, Sections, Distinct, Init, Circle;
      var newH := NewHeader(s_buffer, length);
      LinkBefore(s_freeHead, newH.freenode, newH, FREE, 0);
      LinkBefore(s_adjHead, newH.adjnode, newH, ADJ, 0);
      InitIsValid(s_buffer, length);
      Single(newH);
      assert View() == Init(s_buffer, length) by {
        InitIs(s_buffer, length);
      }
    }

    lemma Known()
      requires Shape()
      ensures forall h | h in adj :: h in headers
      ensures forall i, j | 0 <= i < j < |adj| :: adj[i] != adj[j]
    {
      forall i, j | 0 <= i < j < |adj| ensures adj[i] != adj[j] {
        Once(ADJ, i, j);
      }
    }

    /** A header stands on a list once. */
    lemma Once(role: nat, i: nat, j: nat)
      requires Circle(role) && i < |ListOf(role)| && j < |ListOf(role)| && i != j
      ensures ListOf(role)[i] != ListOf(role)[j]
    {
      assert Row(role)[i] != Row(role)[j];
    }

    /** s_splitFreeNode: the front of a free section is handed out, the rest takes its place among the
        free sections. */
    method SplitFreeNode(bytes: nat, hdr: KMallocHeader, ghost i: nat, ghost k: nat) returns (ghost rest: KMallocHeader)
      requires Shape() && i < |adj| && adj[i] == hdr && k < |free| && free[k] == hdr && hdr !in alloc
      requires bytes + 2 * HEADER <= hdr.netNodeSize && hdr.at + hdr.netNodeSize <= s_buffer + length
      modifies this, hdr`netNodeSize, hdr`isAllocated, nodes`next, nodes`prev
      ensures Circles() && headers == old(headers) + {rest} && fresh(rest) && fresh(nodes - old(nodes))
      ensures adj == Insert(old(adj), i + 1, rest) && free == old(free)[k := rest] && alloc == old(alloc) + [hdr]
      ensures hdr.netNodeSize == bytes + HEADER && hdr.isAllocated
      ensures rest.at == hdr.at + bytes + HEADER && rest.netNodeSize == old(hdr.netNodeSize) - bytes - HEADER && !rest.isAllocated
    {
      hide NodesOf, Addresses, Sections, Circle, AllMade, Insert, Without;
      Known();
      var net := bytes + HEADER;
      var remaining := hdr.netNodeSize - net;
      assert remaining >= HEADER && hdr.at + net + remaining - 1 < s_buffer + length;
      var newFreeNodeHdr := NewHeader(hdr.at + net, remaining);
      rest := newFreeNodeHdr;
      hdr.netNodeSize := net;
      hdr.isAllocated := true;
      LinkHalves(hdr, newFreeNodeHdr, i, k);
    }

    /** The list part of s_splitFreeNode. */
    method LinkHalves(hdr: KMallocHeader, rest: KMallocHeader, ghost i: nat, ghost k: nat)
      requires Circles() && i < |adj| && adj[i] == hdr && k < |free| && free[k] == hdr
      requires hdr in headers && rest in headers && hdr !in alloc && rest !in adj && rest !in free
      modifies this`adj, this`free, this`alloc, nodes`next, nodes`prev
      ensures Circles()
      ensures adj == Insert(old(adj), i + 1, rest) && free == old(free)[k := rest] && alloc == old(alloc) + [hdr]
    {
      hide Circles, Insert, Without;
      InsertThenDrop(free, k + 1, rest);
      LinkRest(hdr, rest, i, k);
      MoveToAllocated(hdr, k);
    }

    /** The remainder comes right after the front in the free and in the adjacent list. */
    method LinkRest(hdr: KMallocHeader, rest: KMallocHeader, ghost i: nat, ghost k: nat)
      requires Circles() && i < |adj| && adj[i] == hdr && k < |free| && free[k] == hdr
      requires rest in headers && rest !in adj && rest !in free
      modifies this`adj, this`free, this`alloc, nodes`next, nodes`prev
      ensures Circles() && alloc == old(alloc)
      ensures adj == Insert(old(adj), i + 1, rest) && free == Insert(old(free), k + 1, rest)
    {
      hide NodesOf, Circle, AllMade, Insert;
      LinkAfter(hdr.freenode, rest.freenode, rest, FREE, k + 1);
      LinkAfter(hdr.adjnode, rest.adjnode, rest, ADJ, i + 1);
    }

    /** The front leaves the free list for the end of the allocated list. */
    method MoveToAllocated(hdr: KMallocHeader, ghost k: nat)
      requires Circles() && k < |free| && free[k] == hdr && hdr in headers && hdr !in alloc
      modifies this`adj, this`free, this`alloc, nodes`next, nodes`prev
      ensures Circles() && adj == old(adj)
      ensures free == Without(old(free), k) && alloc == old(alloc) + [hdr]
    {
      InsertThenDrop(alloc, |alloc|, hdr);
      hide NodesOf, Circle, AllMade, Without;
      Unlink(hdr.freenode, FREE, k);
      LinkBefore(s_allocHead, hdr.allocnode, hdr, ALLOC, |alloc|);
    }

    // -------------------------------------------------------------------------------------------
    // The heap that the lists spell out.
    // -------------------------------------------------------------------------------------------

    /** What holds between the steps of kfree. */
    ghost predicate Sound()
      reads this, nodes, headers
    {
      && Shape() && Tiles(View().adj, s_buffer, s_buffer + length)
      && Lists(View().adj, View().free, false) && Lists(View().adj, View().used, true)
    }

    lemma ValidIsSound()
      requires Valid()
      ensures Sound()
    {
    }

    /** The section of the i-th header is the i-th one, and no other has its address. */
    lemma SectionOf(i: nat)
      requires Sound() && i < |adj|
      ensures Pos(View().adj, adj[i].at) == i && SizeAt(View().adj, adj[i].at) == adj[i].netNodeSize
      ensures forall j | 0 <= j < |adj| && j != i :: adj[j].at != adj[i].at
      ensures adj[i].at + adj[i].netNodeSize <= s_buffer + length && adj[i].netNodeSize >= HEADER
    {
      var s := View().adj;
      PosIsUnique(s, s_buffer, s_buffer + length, i);
      TilesFrom(s, s_buffer, s_buffer + length, i);
      forall j | 0 <= j < |adj| && j != i ensures adj[j].at != adj[i].at {
        PosIsUnique(s, s_buffer, s_buffer + length, j);
      }
    }

    ghost function IndexIn(h: KMallocHeader): (i: nat)
      requires h in adj
      reads this
      ensures i < |adj| && adj[i] == h
    {
      IndexOf(adj, h)
    }

    /** A header is on the free list or on the allocated list, as its flag says. */
    lemma OnOneList(i: nat)
      requires Sound() && i < |adj|
      ensures adj[i] in free <==> !adj[i].isAllocated
      ensures adj[i] in alloc <==> adj[i].isAllocated
    {
      var h, s := adj[i], View().adj;
      hide Tiles, Coalesced;
      OneList(s, s_buffer, s_buffer + length, i);
      SectionOf(i);
      ByAddress(free, h);
      ByAddress(alloc, h);
      assert h.at in Elems(View().free) <==> !h.isAllocated;
      assert h.at in Elems(View().used) <==> h.isAllocated;
    }

    /** Among the headers of the heap the address tells the header. */
    lemma ByAddress(s: seq<KMallocHeader>, h: KMallocHeader)
      requires Sound() && h in adj && forall x | x in s :: x in adj
      ensures h in s <==> h.at in Addresses(s)
    {
      SectionOf(IndexIn(h));
      if h in s {
        var j :| 0 <= j < |s| && s[j] == h;
        assert Addresses(s)[j] == h.at;
      }
      if h.at in Addresses(s) {
        var j :| 0 <= j < |s| && Addresses(s)[j] == h.at;
        assert s[j] == adj[IndexIn(s[j])];
      }
    }

    /** The search of kmalloc stops where the first fit does. */
    lemma FoundIsFirstFit(k: nat, size: nat)
      requires Valid() && k <= |free|
      requires forall j :: 0 <= j < k ==> !Matches(free[j], NodeSize, size)
      requires k < |free| ==> Matches(free[k], NodeSize, size)
      ensures k == FirstFit(View().adj, View().free, size)
    {
      var f := FirstFit(View().adj, View().free, size);
      if f < |free| {
        SectionOf(IndexIn(free[f]));
      }
      if k < |free| {
        SectionOf(IndexIn(free[k]));
      }
    }

    /** The search of kmalloc. */
    method FindFree(size: nat) returns (node: KMallocHeader?, ghost i: nat, ghost k: nat)
      requires Valid() && size > 0
      ensures View() == old(View()) && Valid()
      ensures k == FirstFit(View().adj, View().free, size) <= |free|
      ensures node == null <==> k == |free|
      ensures node != null ==>
        && i < |adj| && adj[i] == node && node in headers && k < |free| && free[k] == node && node !in alloc
        && node.netNodeSize >= size && node.at + node.netNodeSize <= s_buffer + length
        && Pos(View().adj, node.at) == i
    {
      i := 0;
      Ready(FREE);
      ValidIsSound();
      hide Circles, Ring, NodesOf, Inv, Sections, Addresses, Made;
      Known();
      node, k := FindFirst(s_freeHead, NodeSize, size, free);
      FoundIsFirstFit(k, size);
      if node != null {
        i := IndexIn(node);
        SectionOf(i);
        OnOneList(i);
      }
    }

    /** kmalloc, for sizes whose sum with two headers does not wrap around in 32 bits. */
    method Malloc(bytes: nat) returns (addr: Option<nat>)
      requires Valid() && bytes + 2 * HEADER < SIZE_LIMIT
      modifies this, headers, nodes
      ensures Valid() && fresh(headers - old(headers)) && fresh(nodes - old(nodes))
      ensures View() == HeapModel.Malloc(old(View()), bytes).0 && addr == HeapModel.Malloc(old(View()), bytes).1
    {
      hide Circles, Inv, Sections, Addresses, HeapModel.Malloc, Pos, FirstFit, Split;
      MallocKeeps(View(), bytes, s_buffer, length);
      MallocIs(View(), bytes);
      var node, i, k := FindFree(bytes + 2 * HEADER);
      if node == null {
        return None;
      }
      assert node.netNodeSize >= bytes + HEADER;
      Take(bytes, node, i, k);
      addr := Some(node.at + HEADER);
    }

    /** What the split does to the heap that the lists spell out. */
    method Take(bytes: nat, hdr: KMallocHeader, ghost i: nat, ghost k: nat)
      requires Shape() && i < |adj| && adj[i] == hdr && k < |free| && free[k] == hdr && hdr !in alloc
      requires bytes + 2 * HEADER <= hdr.netNodeSize && hdr.at + hdr.netNodeSize <= s_buffer + length
      modifies this, headers, nodes
      ensures Shape() && fresh(headers - old(headers)) && fresh(nodes - old(nodes))
      ensures View() == Heap(Split(old(View().adj), i, bytes + HEADER), old(View().free)[k := hdr.at + bytes + HEADER], old(View().used) + [hdr.at])
    {
      hide Circles, Insert, Split, Sections, Addresses;
      Known();
      ghost var rest := SplitFreeNode(bytes, hdr, i, k);
      InsertMembers(old(adj), i + 1, rest);
      SplitShows(bytes, hdr, i, k, rest);
    }

    /** A list is ready to be walked. */
    lemma Ready(role: nat)
      requires Circles() && role <= ALLOC
      ensures Ring(HeadOf(role), Row(role)) && HeadOf(role).role == role && forall h | h in ListOf(role) :: Made(h)
    {
    }

    twostate lemma SplitShows(bytes: nat, new hdr: KMallocHeader, new i: nat, new k: nat, new rest: KMallocHeader)
      requires i < |old(adj)| && old(adj)[i] == hdr && k < |old(free)|
      requires forall j | 0 <= j < |old(adj)| && j != i :: old(adj)[j] != hdr
      requires forall h | h in old(adj) && h != hdr :: h.netNodeSize == old(h.netNodeSize) && h.isAllocated == old(h.isAllocated)
      requires adj == Insert(old(adj), i + 1, rest) && free == old(free)[k := rest] && alloc == old(alloc) + [hdr]
      requires bytes + HEADER <= old(adj[i].netNodeSize)
      requires hdr.netNodeSize == bytes + HEADER && hdr.isAllocated
      requires rest.at == hdr.at + bytes + HEADER && !rest.isAllocated
      requires rest.netNodeSize == old(adj[i].netNodeSize) - bytes - HEADER
      ensures View() == Heap(Split(old(View().adj), i, bytes + HEADER), old(View().free)[k := hdr.at + bytes + HEADER], old(View().used) + [hdr.at])
    {
    }

    /** The position of a header on a list and that of its address among the addresses. */
    lemma SamePosition(s: seq<KMallocHeader>, h: KMallocHeader)
      requires Sound() && h in s && forall x | x in s :: x in adj
      ensures h.at in Addresses(s) && IndexOf(Addresses(s), h.at) == IndexOf(s, h)
    {
      var k := IndexOf(s, h);
      SectionOf(IndexIn(h));
      assert Addresses(s)[k] == h.at;
      forall j | 0 <= j < k ensures Addresses(s)[j] != h.at {
        assert s[j] == adj[IndexIn(s[j])];
      }
    }

    lemma BackIsFree(i: nat) returns (k: nat)
      requires Sound() && i + 1 < |adj| && !adj[i + 1].isAllocated
      ensures k < |free| && free[k] == adj[i + 1] && adj[i + 1] !in alloc && adj[i] in headers && Shape()
      ensures forall j | 0 <= j < |adj| && j != i :: adj[j] != adj[i]
      ensures var s := View().adj;
        Merge(View(), i) == Heap(s[..i] + [s[i].(size := s[i].size + s[i + 1].size)] + s[i + 2..], Without(View().free, k), View().used)
    {
      hide Circles, Tiles, Lists, Merge;
      OnOneList(i + 1);
      SamePosition(free, adj[i + 1]);
      Known();
      k := IndexOf(free, adj[i + 1]);
      MergeIs(View(), i, k);
    }

    /** Section back, right after front, becomes part of front. */
    method Absorb(front: KMallocHeader, back: KMallocHeader, ghost i: nat)
      requires Sound() && i + 1 < |adj| && adj[i] == front && adj[i + 1] == back
      requires !front.isAllocated && !back.isAllocated
      modifies this`adj, this`free, this`alloc, front`netNodeSize, nodes`next, nodes`prev
      ensures Shape() && View() == Merge(old(View()), i)
      ensures adj == Without(old(adj), i + 1)
    {
      hide Sound, Circles, Merge, Sections, Addresses;
      ghost var k := BackIsFree(i);
      front.netNodeSize := front.netNodeSize + back.netNodeSize;
      Detach(back, i + 1, k);
      MergeShows(i, k);
    }

    /** The list part of a merge. */
    method Detach(back: KMallocHeader, ghost i: nat, ghost k: nat)
      requires Shape() && i < |adj| && adj[i] == back && k < |free| && free[k] == back && back !in alloc
      modifies this`adj, this`free, this`alloc, nodes`next, nodes`prev
      ensures Shape()
      ensures adj == Without(old(adj), i) && free == Without(old(free), k) && alloc == old(alloc)
    {
      Others(adj, i);
      Others(free, k);
      forall j | 0 <= j < |free| && j != k ensures free[j] != back {
        Once(FREE, j, k);
      }
      hide Circle, AllMade, NodesOf, Without;
      Unlink(back.freenode, FREE, k);
      Unlink(back.adjnode, ADJ, i);
    }

    twostate lemma MergeShows(i: nat, new k: nat)
      requires i + 1 < |old(adj)| && k < |old(free)|
      requires forall j | 0 <= j < |old(adj)| && j != i :: old(adj)[j] != old(adj)[i]
      requires forall h | h in old(adj) :: h.isAllocated == old(h.isAllocated)
      requires forall h | h in old(adj) && h != old(adj)[i] :: h.netNodeSize == old(h.netNodeSize)
      requires old(adj)[i].netNodeSize == old(adj[i].netNodeSize) + old(adj[i + 1].netNodeSize)
      requires adj == Without(old(adj), i + 1) && free == Without(old(free), k) && alloc == old(alloc)
      ensures var s := old(View().adj);
        View() == Heap(s[..i] + [s[i].(size := s[i].size + s[i + 1].size)] + s[i + 2..], Without(old(View().free), k), old(View().used))
    {
    }

    /** s_combineAdjFreeNodes. */
    method CombineAdjFreeNodes(cur: KMallocHeader, ghost i: nat)
      requires Sound() && i < |adj| && adj[i] == cur && !cur.isAllocated
      modifies this`adj, this`free, this`alloc, headers`netNodeSize, nodes`next, nodes`prev
      ensures Shape() && View() == Combine(old(View()), i)
    {
      hide Sound, Circles, Merge, Sections, Addresses, NodesOf, Combine;
      StartsWithShape();
      CombineIs(View(), i);
      var prev, next := Neighbours(cur, i);
      assert View() == old(View());
      CombineNext(cur, next, i);
      CombinePrev(prev, cur, i);
    }

    method CombineNext(cur: KMallocHeader, next: KMallocHeader?, ghost i: nat)
      requires Sound() && i < |adj| && adj[i] == cur && !cur.isAllocated
      requires if i + 1 == |adj| then next == null else next == adj[i + 1]
      modifies this`adj, this`free, this`alloc, headers`netNodeSize, nodes`next, nodes`prev
      ensures Sound() && i < |adj| && forall j :: 0 <= j <= i ==> adj[j] == old(adj)[j]
      ensures View() == if i + 1 < |old(View()).adj| && !old(View()).adj[i + 1].live then Merge(old(View()), i) else old(View())
    {
      hide Circles, Merge, Sections, Addresses, NodesOf;
      Known();
      if next != null && !next.isAllocated {
        FreePair(i);
        Absorb(cur, next, i);
        StillSound(old(View()), i);
      }
    }

    method CombinePrev(prev: KMallocHeader?, cur: KMallocHeader, ghost i: nat)
      requires Sound() && i < |adj| && adj[i] == cur && !cur.isAllocated
      requires if i == 0 then prev == null else prev == adj[i - 1]
      modifies this`adj, this`free, this`alloc, headers`netNodeSize, nodes`next, nodes`prev
      ensures Shape()
      ensures View() == if i > 0 && !old(View()).adj[i - 1].live then Merge(old(View()), i - 1) else old(View())
    {
      Known();
      hide Circles, Merge, Sections, Addresses, NodesOf;
      if prev != null && !prev.isAllocated {
        Absorb(prev, cur, i - 1);
      }
    }

    lemma StartsWithShape()
      requires Sound()
      ensures Shape() && |View().adj| == |adj|
    {
    }

    lemma FreePair(i: nat)
      requires Sound() && i + 1 < |adj| && !adj[i].isAllocated && !adj[i + 1].isAllocated
      ensures var m := Merge(View(), i);
        Tiles(m.adj, s_buffer, s_buffer + length) && Lists(m.adj, m.free, false) && Lists(m.adj, m.used, true)
    {
      hide Circles, Tiles, Lists, Merge;
      MergeKeeps(View(), s_buffer, length, i);
    }

    /** The headers before and after the i-th one. */
    method Neighbours(cur: KMallocHeader, ghost i: nat) returns (prev: KMallocHeader?, next: KMallocHeader?)
      requires Circles() && i < |adj| && adj[i] == cur
      ensures if i == 0 then prev == null else prev == adj[i - 1]
      ensures if i + 1 == |adj| then next == null else next == adj[i + 1]
    {
      Ready(ADJ);
      RingAt(s_adjHead, Row(ADJ), i);
      RingAt(s_adjHead, Row(ADJ), i + 1);
      hide Circles, Ring, NodesOf;
      assert Row(ADJ)[i] == cur.adjnode;
      prev, next := null, null;
      assert i > 0 ==> Made(adj[i - 1]);
      assert i + 1 < |adj| ==> Made(adj[i + 1]);
      if cur.adjnode.prev != s_adjHead {
        prev := cur.adjnode.prev.item.value;
      }
      if cur.adjnode.next != s_adjHead {
        next := cur.adjnode.next.item.value;
      }
    }

    lemma StillSound(was: Heap, i: nat)
      requires Shape() && i + 1 < |was.adj| && View() == Merge(was, i)
      requires var m := Merge(was, i);
        Tiles(m.adj, s_buffer, s_buffer + length) && Lists(m.adj, m.free, false) && Lists(m.adj, m.used, true)
      ensures Sound()
    {
    }

    /** kfree. */
    method Free(addr: nat) returns (ok: bool)
      requires Valid()
      modifies this`adj, this`free, this`alloc, headers, nodes`next, nodes`prev
      ensures Valid()
      ensures View() == HeapModel.Free(old(View()), addr).0 && ok == HeapModel.Free(old(View()), addr).1
    {
      hide Circles, Inv, Sections, Addresses, HeapModel.Free, Pos, Combine, Release, Sound;
      FreeKeeps(View(), addr, s_buffer, length);
      FreeIs(View(), addr);
      ValidIsSound();
      if addr < HEADER {
        return false;
      }
      var hdr, i, k := FindAllocated(addr - HEADER);
      if hdr == null {
        return false;
      }
      GiveBackHeader(hdr, i, k);
      CombineAdjFreeNodes(hdr, i);
      ok := true;
    }

    /** The search of kfree. */
    method FindAllocated(a: nat) returns (hdr: KMallocHeader?, ghost i: nat, ghost k: nat)
      requires Valid()
      ensures View() == old(View()) && Valid()
      ensures hdr == null <==> a !in View().used
      ensures hdr != null ==>
        && i < |adj| && adj[i] == hdr && hdr in headers && k < |alloc| && alloc[k] == hdr && hdr !in free
        && hdr.at == a && Pos(View().adj, a) == i && k == IndexOf(View().used, a) && hdr.isAllocated
    {
      i := 0;
      Ready(ALLOC);
      ValidIsSound();
      hide Circles, Ring, NodesOf, Inv, Sections, Addresses, Made;
      Known();
      hdr, k := FindFirst(s_allocHead, NodeAddress, a, alloc);
      if hdr != null {
        i := IndexIn(hdr);
        SectionOf(i);
        OnOneList(i);
      }
    }

    /** The first half of kfree: the section goes to the head of the free list. */
    method GiveBackHeader(hdr: KMallocHeader, ghost i: nat, ghost k: nat)
      requires Sound() && i < |adj| && adj[i] == hdr && k < |alloc| && alloc[k] == hdr && hdr !in free && hdr.isAllocated
      requires Pos(View().adj, hdr.at) == i && k == IndexOf(View().used, hdr.at)
      modifies this`adj, this`free, this`alloc, hdr`isAllocated, nodes`next, nodes`prev
      ensures Sound() && adj == old(adj) && !hdr.isAllocated && View() == Release(old(View()), hdr.at)
    {
      hide Sound, Circles, Sections, Addresses, NodesOf, Pos, Release;
      LiveAt(i);
      Known();
      ghost var was := View();
      MoveToFree(hdr, k);
      hdr.isAllocated := false;
      ReleaseShows(i, k);
      ReleaseIs(was, i, k);
      StillSoundAfterRelease(was, hdr.at);
    }

    method MoveToFree(hdr: KMallocHeader, ghost k: nat)
      requires Shape() && hdr in adj && k < |alloc| && alloc[k] == hdr && hdr !in free
      modifies this`adj, this`free, this`alloc, nodes`next, nodes`prev
      ensures Shape() && adj == old(adj) && free == [hdr] + old(free) && alloc == Without(old(alloc), k)
    {
      Known();
      Others(alloc, k);
      assert Insert(free, 0, hdr) == [hdr] + free;
      hide Circle, AllMade, NodesOf, Without, Insert;
      Unlink(hdr.allocnode, ALLOC, k);
      LinkAfter(s_freeHead, hdr.freenode, hdr, FREE, 0);
    }

    lemma LiveAt(i: nat)
      requires Sound() && i < |adj| && adj[i].isAllocated
      ensures Shape() && adj[i].at in View().used && Pos(View().adj, adj[i].at) == i
      ensures var m := Release(View(), adj[i].at);
        Tiles(m.adj, s_buffer, s_buffer + length) && Lists(m.adj, m.free, false) && Lists(m.adj, m.used, true)
    {
      hide Circles, Tiles, Lists, Release;
      ReleaseKeeps(View(), s_buffer, length, i);
    }

    lemma StillSoundAfterRelease(was: Heap, a: nat)
      requires Shape() && a in was.used && Pos(was.adj, a) < |was.adj| && View() == Release(was, a)
      requires var m := Release(was, a);
        Tiles(m.adj, s_buffer, s_buffer + length) && Lists(m.adj, m.free, false) && Lists(m.adj, m.used, true)
      ensures Sound()
    {
    }

    twostate lemma ReleaseShows(i: nat, new k: nat)
      requires i < |old(adj)| && k < |old(alloc)|
      requires forall j | 0 <= j < |old(adj)| && j != i :: old(adj)[j] != old(adj)[i]
      requires forall h | h in old(adj) :: h.netNodeSize == old(h.netNodeSize)
      requires forall h | h in old(adj) && h != old(adj)[i] :: h.isAllocated == old(h.isAllocated)
      requires !old(adj)[i].isAllocated
      requires adj == old(adj) && free == [old(adj)[i]] + old(free) && alloc == Without(old(alloc), k)
      ensures var s := old(View().adj);
        View() == Heap(s[i := s[i].(live := false)], [s[i].base] + old(View().free), Without(old(View().used), k))
    {
    }

    /** kmalloc_getUsedMemory: the allocated sections, which leave the free ones of the buffer. */
    method GetUsedMemory() returns (used: nat)
      requires Valid()
      ensures used == ListTotal(View().adj, View().used)
      ensures used + ListTotal(View().adj, View().free) == length
    {
      ListsFillBuffer(View(), s_buffer, length);
      Ready(ALLOC);
      hide Circles, Ring, NodesOf, Inv, Sections, Addresses;
      assert ListTotal(View().adj, View().free) + ListTotal(View().adj, View().used) == length;
      ghost var list, row, k := View().used, Row(ALLOC), 0;
      RingAt(s_allocHead, row, 0);
      var node := s_allocHead.next;
      used := 0;
      while node != s_allocHead
        invariant k <= |alloc| && node == From(s_allocHead, row, k)
        invariant View() == old(View())
        invariant used + ListTotal(View().adj, list[k..]) == ListTotal(View().adj, list)
        decreases |alloc| - k
      {
        assert node == alloc[k].allocnode && Made(alloc[k]);
        var header := node.item.value;
        LiveIsSmaller(alloc[k]);
        assert header.netNodeSize < length;
        assert list[k..][1..] == list[k + 1..] && list[k..][0] == header.at;
        used := used + header.netNodeSize;
        RingAt(s_allocHead, row, k + 1);
        node := node.next;
        k := k + 1;
      }
      assert list[k..] == [];
    }

    lemma LiveIsSmaller(h: KMallocHeader)
      requires Valid() && h in alloc
      ensures h.netNodeSize < length && SizeAt(View().adj, h.at) == h.netNodeSize
    {
      var i, s := IndexIn(h), View().adj;
      SectionOf(i);
      OnOneList(i);
      assert i < |s| - 1;
      TilesApart(s, s_buffer, s_buffer + length, i, |s| - 1);
    }

    /** cm_malloc, the twin in the application library. */
    method CmMalloc(bytes: nat) returns (addr: Option<nat>)
      requires Valid() && bytes + 2 * HEADER < SIZE_LIMIT
      modifies this, headers, nodes
      ensures Valid() && fresh(headers - old(headers)) && fresh(nodes - old(nodes))
      ensures View() == HeapModel.CmMalloc(old(View()), bytes).0 && addr == HeapModel.CmMalloc(old(View()), bytes).1
    {
      hide Circles, Inv, HeapModel.Malloc;
      if bytes == 0 {
        return None;
      }
      addr := Malloc(bytes);
    }
  }

  lemma CombineIs(h: Heap, i: nat)
    requires i < |h.adj|
    ensures var h1 := if i + 1 < |h.adj| && !h.adj[i + 1].live then Merge(h, i) else h;
      |h1.adj| > i && Combine(h, i) == if i > 0 && !h1.adj[i - 1].live then Merge(h1, i - 1) else h1
  {
  }

  lemma FreeIs(h: Heap, addr: nat)
    ensures addr < HEADER || addr - HEADER !in h.used ==> HeapModel.Free(h, addr) == (h, false)
    ensures
      addr >= HEADER && addr - HEADER in h.used && Pos(h.adj, addr - HEADER) < |h.adj| ==>
        HeapModel.Free(h, addr) == (Combine(Release(h, addr - HEADER), Pos(h.adj, addr - HEADER)), true)
  {
  }

  lemma ReleaseIs(h: Heap, i: nat, k: nat)
    requires i < |h.adj| && h.adj[i].base in h.used && Pos(h.adj, h.adj[i].base) == i && k == IndexOf(h.used, h.adj[i].base)
    ensures Release(h, h.adj[i].base)
         == Heap(h.adj[i := h.adj[i].(live := false)], [h.adj[i].base] + h.free, Without(h.used, k))
  {
  }

  lemma MergeIs(h: Heap, i: nat, k: nat)
    requires i + 1 < |h.adj| && h.adj[i + 1].base in h.free && k == IndexOf(h.free, h.adj[i + 1].base)
    ensures Merge(h, i) == Heap(h.adj[..i] + [h.adj[i].(size := h.adj[i].size + h.adj[i + 1].size)] + h.adj[i + 2..], Without(h.free, k), h.used)
  {
  }

  lemma MallocIs(h: Heap, bytes: nat)
    ensures var k := FirstFit(h.adj, h.free, bytes + 2 * HEADER);
      if k == |h.free| then HeapModel.Malloc(h, bytes) == (h, None) else
        var a, i := h.free[k], Pos(h.adj, h.free[k]);
        HeapModel.Malloc(h, bytes)
        == (Heap(Split(h.adj, i, bytes + HEADER), h.free[k := a + bytes + HEADER], h.used + [a]), Some(a + HEADER))
  {
  }

  lemma Others<T>(s: seq<T>, k: nat)
    requires k < |s|
    ensures forall x | x in Without(s, k) :: x in s
    ensures forall x | x in s && x != s[k] :: x in Without(s, k)
    ensures (forall j | 0 <= j < |s| && j != k :: s[j] != s[k]) ==> s[k] !in Without(s, k)
  {
    forall x | x in s && x != s[k] ensures x in Without(s, k) {
      var j :| 0 <= j < |s| && s[j] == x;
      assert x == Without(s, k)[if j < k then j else j - 1];
    }
  }

  lemma InsertThenDrop<T>(s: seq<T>, k: nat, x: T)
    ensures k <= |s| ==> Insert(s, k, x)[k] == x
    ensures 0 < k <= |s| ==> Insert(s, k, x)[k - 1] == s[k - 1] && Without(Insert(s, k, x), k - 1) == s[k - 1 := x]
    ensures Insert(s, |s|, x) == s + [x]
  {
  }

  /** kmalloc_init, on the buffer that the memory manager gave. */
  method KMallocInit(buffer: nat, length: nat) returns (k: KMalloc)
    requires length >= HEADER && buffer + length <= SIZE_LIMIT
    ensures k.Valid() && fresh(k) && fresh(k.nodes) && fresh(k.headers) && k.s_buffer == buffer && k.length == length
    ensures k.View() == Init(buffer, length)
  {
    hide Inv, Ring, NodesOf, Addresses, Sections, Distinct;
    k := new KMalloc(buffer, length);
    k.AddFirstSection();
  }
}
