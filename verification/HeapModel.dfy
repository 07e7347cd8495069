/** The heap of src/kernel/kmalloc.c (and of its twin src/cm/malloc.c) as values: the three lists of
    section headers, what kmalloc and kfree make of them, and what every run of the two keeps. */
module HeapModel {
  import opened Common

  /** sizeof (KMallocHeader): a size, a flag and three list nodes of two pointers each. */
  const HEADER: nat := 32

  datatype Section = Section(base: nat, size: nat, live: bool)

  /** The adjacent list with its sections, and the free and allocated lists by section address. */
  datatype Heap = Heap(adj: seq<Section>, free: seq<nat>, used: seq<nat>)

  // ---------------------------------------------------------------------------------------------
  // The operations.
  // ---------------------------------------------------------------------------------------------

  /** The position of the section at address a, |s| if there is none. */
  function Pos(s: seq<Section>, a: nat): (i: nat)
    ensures i <= |s|
    ensures i < |s| ==> s[i].base == a
    ensures forall j :: 0 <= j < i ==> s[j].base != a
  {
    if s == [] || s[0].base == a then 0 else 1 + Pos(s[1..], a)
  }

  function SizeAt(s: seq<Section>, a: nat): nat {
    var i := Pos(s, a);
    if i < |s| then s[i].size else 0
  }

  /** The first position of the list whose section has at least size bytes, |list| if there is none. */
  function FirstFit(s: seq<Section>, list: seq<nat>, size: nat): (k: nat)
    ensures k <= |list|
    ensures k < |list| ==> SizeAt(s, list[k]) >= size
    ensures forall j :: 0 <= j < k ==> SizeAt(s, list[j]) < size
  {
    if list == [] || SizeAt(s, list[0]) >= size then 0 else 1 + FirstFit(s, list[1..], size)
  }

  /** Section i is cut in two: net allocated bytes, then the free remainder. */
  function Split(s: seq<Section>, i: nat, net: nat): seq<Section>
    requires i < |s| && net <= s[i].size
  {
    s[..i] + [Section(s[i].base, net, true), Section(s[i].base + net, s[i].size - net, false)] + s[i + 1..]
  }

  function Init(base: nat, len: nat): Heap {
    Heap([Section(base, len, false)], [base], [])
  }

  /** kmalloc: the address of the payload, or None. */
  function Malloc(h: Heap, bytes: nat): (r: (Heap, Option<nat>)) {
    var k := FirstFit(h.adj, h.free, bytes + 2 * HEADER);
    if k == |h.free| then (h, None) else
    var a, net := h.free[k], bytes + HEADER;
    var i := Pos(h.adj, a);
    (Heap(Split(h.adj, i, net), h.free[k := a + net], h.used + [a]), Some(a + HEADER))
  }

  /** list_remove of the section at address a. */
  function Drop(list: seq<nat>, a: nat): seq<nat> {
    if a in list then Without(list, IndexOf(list, a)) else list
  }

  /** Section i swallows section i + 1. */
  function Merge(h: Heap, i: nat): Heap
    requires i + 1 < |h.adj|
  {
    var s := h.adj;
    Heap(s[..i] + [s[i].(size := s[i].size + s[i + 1].size)] + s[i + 2..], Drop(h.free, s[i + 1].base), h.used)
  }

  /** s_combineAdjFreeNodes: the next section first, then the previous one. */
  function Combine(h: Heap, i: nat): Heap
    requires i < |h.adj|
  {
    var h1 := if i + 1 < |h.adj| && !h.adj[i + 1].live then Merge(h, i) else h;
    if i > 0 && !h1.adj[i - 1].live then Merge(h1, i - 1) else h1
  }

  /** The section at address a goes to the head of the free list. */
  function Release(h: Heap, a: nat): Heap
    requires a in h.used && Pos(h.adj, a) < |h.adj|
  {
    var i := Pos(h.adj, a);
    Heap(h.adj[i := h.adj[i].(live := false)], [a] + h.free, Drop(h.used, a))
  }

  /** kfree: false when no allocated section has its payload at addr. */
  function Free(h: Heap, addr: nat): (r: (Heap, bool)) {
    if addr < HEADER || addr - HEADER !in h.used || Pos(h.adj, addr - HEADER) >= |h.adj| then (h, false) else
    (Combine(Release(h, addr - HEADER), Pos(h.adj, addr - HEADER)), true)
  }

  // ---------------------------------------------------------------------------------------------
  // What every run keeps.
  // ---------------------------------------------------------------------------------------------

  /** The sections lie one after the other from start to end, each with room for its header. */
  ghost predicate Tiles(s: seq<Section>, start: nat, end: nat) {
    if s == [] then start == end
    else s[0].base == start && s[0].size >= HEADER && Tiles(s[1..], start + s[0].size, end)
  }

  /** The addresses of the sections whose flag is live. */
  ghost function Bases(s: seq<Section>, live: bool): set<nat> {
    set x | x in s && x.live == live :: x.base
  }

  /** The list holds exactly the sections whose flag is live, each once. */
  ghost predicate Lists(s: seq<Section>, list: seq<nat>, live: bool) {
    Distinct(list) && Elems(list) == Bases(s, live)
  }

  ghost predicate Coalesced(s: seq<Section>) {
    forall i {:trigger s[i]} :: 0 <= i && i + 1 < |s| ==> s[i].live || s[i + 1].live
  }

  ghost predicate Inv(h: Heap, base: nat, len: nat) {
    && Tiles(h.adj, base, base + len)
    && Lists(h.adj, h.free, false) && Lists(h.adj, h.used, true)
    && Coalesced(h.adj)
    && |h.adj| > 0 && !h.adj[|h.adj| - 1].live
  }

  // ---------------------------------------------------------------------------------------------
  // Tilings.
  // ---------------------------------------------------------------------------------------------

  lemma {:induction false} TilesApart(s: seq<Section>, start: nat, end: nat, i: nat, j: nat)
    requires Tiles(s, start, end) && i < j < |s|
    ensures start <= s[i].base && s[i].base + s[i].size <= s[j].base && s[j].base + s[j].size <= end
    ensures s[i].size >= HEADER && s[j].size >= HEADER
  {
    if i > 0 {
      TilesApart(s[1..], start + s[0].size, end, i - 1, j - 1);
    } else {
      TilesFrom(s[1..], start + s[0].size, end, j - 1);
    }
  }

  lemma {:induction false} TilesFrom(s: seq<Section>, start: nat, end: nat, i: nat)
    requires Tiles(s, start, end) && i < |s|
    ensures start <= s[i].base && s[i].base + s[i].size <= end && s[i].size >= HEADER
  {
    if i > 0 {
      TilesFrom(s[1..], start + s[0].size, end, i - 1);
    } else {
      TilesUpTo(s[1..], start + s[0].size, end);
    }
  }

  lemma {:induction false} TilesUpTo(s: seq<Section>, start: nat, end: nat)
    requires Tiles(s, start, end)
    ensures start <= end
  {
    if s != [] {
      TilesUpTo(s[1..], start + s[0].size, end);
    }
  }

  /** In a tiling the address of a section tells its position. */
  lemma PosIsUnique(s: seq<Section>, start: nat, end: nat, i: nat)
    requires Tiles(s, start, end) && i < |s|
    ensures Pos(s, s[i].base) == i
  {
    var j := Pos(s, s[i].base);
    if j < i {
      TilesApart(s, start, end, j, i);
    }
  }

  lemma {:induction false} TilesConcat(s: seq<Section>, t: seq<Section>, start: nat, mid: nat, end: nat)
    requires Tiles(s, start, mid) && Tiles(t, mid, end)
    ensures Tiles(s + t, start, end)
  {
    if s == [] {
      assert s + t == t;
    } else {
      assert (s + t)[1..] == s[1..] + t;
      TilesConcat(s[1..], t, start + s[0].size, mid, end);
    }
  }

  /** Every section of s lies in [start, end), so none of another range shares its address. */
  lemma TilesBases(s: seq<Section>, start: nat, end: nat)
    requires Tiles(s, start, end)
    ensures forall x | x in s :: start <= x.base && x.base + x.size <= end && x.size >= HEADER
  {
    forall x | x in s ensures start <= x.base && x.base + x.size <= end && x.size >= HEADER {
      var i :| 0 <= i < |s| && s[i] == x;
      TilesFrom(s, start, end, i);
    }
  }

  ghost function LiveIn(s: seq<Section>): set<Section> {
    set x | x in s && x.live
  }

  /** The sections that kmalloc has handed out. */
  ghost function Live(h: Heap): set<Section> {
    LiveIn(h.adj)
  }

  /** A tiling of [start, end) whose middle tiles [mid, far). */
  lemma TilesAround(l: seq<Section>, m: seq<Section>, r: seq<Section>, start: nat, mid: nat, far: nat, end: nat)
    requires Tiles(l, start, mid) && Tiles(m, mid, far) && Tiles(r, far, end)
    ensures Tiles(l + m + r, start, end)
  {
    TilesConcat(l, m, start, mid, far);
    TilesConcat(l + m, r, start, far, end);
  }

  lemma TilesParts(l: seq<Section>, m: seq<Section>, r: seq<Section>, start: nat, end: nat) returns (mid: nat, far: nat)
    requires Tiles(l + m + r, start, end)
    ensures Tiles(l, start, mid) && Tiles(m, mid, far) && Tiles(r, far, end)
  {
    far := TilesSplit(l + m, r, start, end);
    mid := TilesSplit(l, m, start, far);
  }

  lemma {:induction false} TilesSplit(l: seq<Section>, r: seq<Section>, start: nat, end: nat) returns (mid: nat)
    requires Tiles(l + r, start, end)
    ensures Tiles(l, start, mid) && Tiles(r, mid, end)
  {
    if l == [] {
      mid := start;
      assert l + r == r;
    } else {
      assert (l + r)[1..] == l[1..] + r;
      mid := TilesSplit(l[1..], r, start + l[0].size, end);
    }
  }

  /** What the middle m of a tiling contributes, apart from everything around it. */
  lemma Around(l: seq<Section>, m: seq<Section>, r: seq<Section>, start: nat, mid: nat, far: nat, end: nat)
    requires Tiles(l, start, mid) && Tiles(m, mid, far) && Tiles(r, far, end)
    ensures Tiles(l + m + r, start, end)
    ensures Bases(l + m + r, false) == Bases(l + r, false) + Bases(m, false)
    ensures Bases(l + m + r, true) == Bases(l + r, true) + Bases(m, true)
    ensures LiveIn(l + m + r) == LiveIn(l + r) + LiveIn(m)
    ensures forall a | a in Bases(l + r, false) :: a < mid || a >= far
    ensures forall a | a in Bases(l + r, true) :: a < mid || a >= far
    ensures forall x | x in LiveIn(l + r) :: x.base < mid || x.base >= far
  {
    TilesAround(l, m, r, start, mid, far, end);
    TilesBases(l, start, mid);
    TilesBases(r, far, end);
    hide Tiles;
    forall f: bool ensures Bases(l + m + r, f) == Bases(l + r, f) + Bases(m, f) {
    }
  }

  /** The parts of a tiling before, at and after the positions i to j. */
  lemma TilesSlices(s: seq<Section>, i: nat, j: nat, start: nat, end: nat)
    requires Tiles(s, start, end) && i < j <= |s|
    ensures Tiles(s[..i], start, s[i].base)
    ensures Tiles(s[i..j], s[i].base, s[j - 1].base + s[j - 1].size)
    ensures Tiles(s[j..], s[j - 1].base + s[j - 1].size, end)
  {
    assert s == s[..i] + s[i..j] + s[j..];
    var mid, far := TilesParts(s[..i], s[i..j], s[j..], start, end);
    assert s[i..j][0] == s[i];
    TilesEnd(s[i..j], mid, far);
  }

  lemma {:induction false} TilesEnd(s: seq<Section>, start: nat, end: nat)
    requires Tiles(s, start, end) && s != []
    ensures s[|s| - 1].base + s[|s| - 1].size == end
  {
    if |s| > 1 {
      TilesEnd(s[1..], start + s[0].size, end);
    }
  }

  /** What stays when the sections i to j of s are replaced by others that tile the same range. */
  datatype Rest = Rest(free: set<nat>, used: set<nat>, live: set<Section>)

  lemma Replace(s: seq<Section>, i: nat, j: nat, n: seq<Section>, start: nat, end: nat) returns (rest: Rest)
    requires Tiles(s, start, end) && i < j <= |s|
    requires Tiles(n, s[i].base, s[j - 1].base + s[j - 1].size)
    ensures var t := s[..i] + n + s[j..];
      && Tiles(t, start, end)
      && Bases(s, false) == rest.free + Bases(s[i..j], false) && Bases(t, false) == rest.free + Bases(n, false)
      && Bases(s, true) == rest.used + Bases(s[i..j], true) && Bases(t, true) == rest.used + Bases(n, true)
      && LiveIn(s) == rest.live + LiveIn(s[i..j]) && LiveIn(t) == rest.live + LiveIn(n)
    ensures forall a | a in rest.free :: a < s[i].base || a >= s[j - 1].base + s[j - 1].size
    ensures forall a | a in rest.used :: a < s[i].base || a >= s[j - 1].base + s[j - 1].size
    ensures forall x | x in rest.live :: x.base in rest.used
  {
    hide Tiles;
    var l, r, mid, far := s[..i], s[j..], s[i].base, s[j - 1].base + s[j - 1].size;
    TilesSlices(s, i, j, start, end);
    Around(l, s[i..j], r, start, mid, far, end);
    Around(l, n, r, start, mid, far, end);
    assert s == l + s[i..j] + r;
    rest := Rest(Bases(l + r, false), Bases(l + r, true), LiveIn(l + r));
  }

  lemma One(x: Section)
    ensures x.size >= HEADER ==> Tiles([x], x.base, x.base + x.size)
    ensures Bases([x], x.live) == {x.base} && Bases([x], !x.live) == {}
    ensures LiveIn([x]) == if x.live then {x} else {}
  {
    assert [x][1..] == [];
  }

  lemma Two(x: Section, y: Section)
    requires y.base == x.base + x.size
    ensures x.size >= HEADER && y.size >= HEADER ==> Tiles([x, y], x.base, y.base + y.size)
    ensures Bases([x, y], false) == Bases([x], false) + Bases([y], false)
    ensures Bases([x, y], true) == Bases([x], true) + Bases([y], true)
    ensures LiveIn([x, y]) == LiveIn([x]) + LiveIn([y])
  {
    assert [x, y] == [x] + [y];
    One(x);
    One(y);
    if x.size >= HEADER && y.size >= HEADER {
      TilesConcat([x], [y], x.base, y.base, y.base + y.size);
    }
  }

  lemma DropFrom(list: seq<nat>, a: nat)
    requires Distinct(list)
    ensures Distinct(Drop(list, a)) && Elems(Drop(list, a)) == Elems(list) - {a}
  {
    if a in list {
      WithoutIsDistinct(list, IndexOf(list, a));
    }
  }

  // ---------------------------------------------------------------------------------------------
  // The steps keep the invariant.
  // ---------------------------------------------------------------------------------------------

  /** Merging two free neighbours keeps the tiling and the lists. */
  lemma MergeKeeps(h: Heap, base: nat, len: nat, i: nat)
    requires Tiles(h.adj, base, base + len)
    requires Lists(h.adj, h.free, false) && Lists(h.adj, h.used, true)
    requires i + 1 < |h.adj| && !h.adj[i].live && !h.adj[i + 1].live
    ensures var m := Merge(h, i);
      && Tiles(m.adj, base, base + len) && Live(m) == Live(h)
      && Lists(m.adj, m.free, false) && Lists(m.adj, m.used, true)
  {
    hide Tiles, Distinct, Elems, Bases, LiveIn;
    var s, x, y := h.adj, h.adj[i], h.adj[i + 1];
    var xy := x.(size := x.size + y.size);
    TilesTouch(s, base, base + len, i);
    TilesTouch(s, base, base + len, i + 1);
    assert s[i..i + 2] == [x, y];
    One(x);
    One(y);
    One(xy);
    Two(x, y);
    var rest := Replace(s, i, i + 2, [xy], base, base + len);
    assert y.base !in rest.free;
    assert rest.free + ({x.base} + {y.base}) - {y.base} == rest.free + {x.base};
    DropFrom(h.free, y.base);
  }

  lemma TilesTouch(s: seq<Section>, start: nat, end: nat, i: nat)
    requires Tiles(s, start, end) && i < |s|
    ensures s[i].size >= HEADER && (i + 1 < |s| ==> s[i + 1].base == s[i].base + s[i].size)
  {
    TilesFrom(s, start, end, i);
    if i + 1 < |s| {
      TilesSlices(s, i, i + 1, start, end);
    }
  }

  /** Cutting the free section i in two. */
  lemma SplitKeeps(s: seq<Section>, i: nat, net: nat, start: nat, end: nat)
    requires Tiles(s, start, end) && i < |s| && !s[i].live
    requires HEADER <= net && net + HEADER <= s[i].size
    ensures var t, a := Split(s, i, net), s[i].base;
      && Tiles(t, start, end)
      && Bases(t, false) == Bases(s, false) - {a} + {a + net}
      && Bases(t, true) == Bases(s, true) + {a} && a !in Bases(s, true)
      && LiveIn(t) == LiveIn(s) + {Section(a, net, true)}
      && a + net !in Bases(s, false) + Bases(s, true)
  {
    hide Tiles, Bases, LiveIn;
    TilesTouch(s, start, end, i);
    var x, y, z := s[i], Section(s[i].base, net, true), Section(s[i].base + net, s[i].size - net, false);
    assert s[i..i + 1] == [x];
    One(x);
    One(y);
    One(z);
    Two(y, z);
    var rest := Replace(s, i, i + 1, [y, z], start, end);
  }

  /** Marking the live section i free. */
  lemma ReleaseKeeps(h: Heap, base: nat, len: nat, i: nat)
    requires Tiles(h.adj, base, base + len)
    requires Lists(h.adj, h.free, false) && Lists(h.adj, h.used, true)
    requires i < |h.adj| && h.adj[i].live
    ensures h.adj[i].base in h.used && Pos(h.adj, h.adj[i].base) == i
    ensures var m := Release(h, h.adj[i].base);
      && Tiles(m.adj, base, base + len) && Live(m) == Live(h) - {h.adj[i]}
      && Lists(m.adj, m.free, false) && Lists(m.adj, m.used, true)
      && |m.adj| == |h.adj| && !m.adj[i].live && forall j :: 0 <= j < |h.adj| && j != i ==> m.adj[j] == h.adj[j]
  {
    hide Tiles, Bases, LiveIn;
    var s, x, y := h.adj, h.adj[i], h.adj[i].(live := false);
    PosIsUnique(s, base, base + len, i);
    TilesTouch(s, base, base + len, i);
    assert s[i..i + 1] == [x] && s[i := y] == s[..i] + [y] + s[i + 1..];
    One(x);
    One(y);
    var rest := Replace(s, i, i + 1, [y], base, base + len);
    assert x.base in Elems(h.used) && x.base !in Elems(h.free);
    DropFrom(h.used, x.base);
    InsertIsDistinct(h.free, 0, x.base);
    assert Insert(h.free, 0, x.base) == [x.base] + h.free;
  }

  /** The position of an address that one of the lists holds. */
  lemma Listed(s: seq<Section>, start: nat, end: nat, list: seq<nat>, live: bool, a: nat)
    requires Tiles(s, start, end) && Lists(s, list, live) && a in list
    ensures Pos(s, a) < |s| && s[Pos(s, a)].live == live && s[Pos(s, a)].base == a
  {
    assert a in Elems(list);
    var x :| x in s && x.live == live && x.base == a;
    var i :| 0 <= i < |s| && s[i] == x;
    PosIsUnique(s, start, end, i);
  }

  /** The search finds a section exactly when some free section is large enough. */
  lemma FirstFitIsExact(h: Heap, size: nat, base: nat, len: nat)
    requires Inv(h, base, len) && size > 0
    ensures FirstFit(h.adj, h.free, size) == |h.free| <==> forall x | x in h.adj && !x.live :: x.size < size
  {
    var k := FirstFit(h.adj, h.free, size);
    if k == |h.free| {
      forall x | x in h.adj && !x.live ensures x.size < size {
        assert x.base in Bases(h.adj, false) && x.base in Elems(h.free);
        var i :| 0 <= i < |h.adj| && h.adj[i] == x;
        var j :| 0 <= j < |h.free| && h.free[j] == x.base;
        PosIsUnique(h.adj, base, base + len, i);
      }
    } else {
      Listed(h.adj, base, base + len, h.free, false, h.free[k]);
    }
  }

  lemma SplitIsCoalesced(s: seq<Section>, i: nat, net: nat)
    requires Coalesced(s) && i < |s| && net <= s[i].size && !s[i].live && !s[|s| - 1].live
    ensures Coalesced(Split(s, i, net)) && |Split(s, i, net)| == |s| + 1 && !Split(s, i, net)[|s|].live
  {
    var t := Split(s, i, net);
    forall j | 0 <= j && j + 1 < |t| ensures t[j].live || t[j + 1].live {
      assert t[j] == if j < i then s[j] else if j == i then Section(s[i].base, net, true) else t[j];
      assert j > i + 1 ==> t[j] == s[j - 1] && t[j + 1] == s[j];
      assert j + 1 < i ==> t[j + 1] == s[j + 1];
      assert j == i + 1 ==> t[j + 1] == s[i + 1] && (s[i].live || s[i + 1].live);
    }
  }

  /** kmalloc keeps the invariant, returns NULL exactly when no free section holds the request and two
      headers, and otherwise adds one live section of exactly the requested size. */
  lemma MallocKeeps(h: Heap, bytes: nat, base: nat, len: nat)
    requires Inv(h, base, len)
    ensures var (m, r) := Malloc(h, bytes);
      && Inv(m, base, len)
      && (r.None? <==> forall x | x in h.adj && !x.live :: x.size < bytes + 2 * HEADER)
      && (r.None? ==> m == h)
      && (r.Some? ==> r.value >= HEADER
                      && Live(m) == Live(h) + {Section(r.value - HEADER, bytes + HEADER, true)}
                      && forall x | x in Live(h) :: x.base != r.value - HEADER)
  {
    hide Tiles, Coalesced, Split, Lists, LiveIn, Pos, FirstFit;
    var k := FirstFit(h.adj, h.free, bytes + 2 * HEADER);
    FirstFitIsExact(h, bytes + 2 * HEADER, base, len);
    if k < |h.free| {
      SplitLists(h, k, bytes + HEADER, base, len);
      SplitIsCoalesced(h.adj, Pos(h.adj, h.free[k]), bytes + HEADER);
    }
  }

  /** The three lists after the free section that stands k-th in the free list is cut. */
  lemma SplitLists(h: Heap, k: nat, net: nat, base: nat, len: nat)
    requires Tiles(h.adj, base, base + len)
    requires Lists(h.adj, h.free, false) && Lists(h.adj, h.used, true)
    requires k < |h.free| && HEADER <= net && net + HEADER <= SizeAt(h.adj, h.free[k])
    ensures var a := h.free[k];
      var i := Pos(h.adj, a);
      && i < |h.adj| && !h.adj[i].live && net <= h.adj[i].size
      && var t := Split(h.adj, i, net);
      && Tiles(t, base, base + len)
      && Lists(t, h.free[k := a + net], false) && Lists(t, h.used + [a], true)
      && LiveIn(t) == LiveIn(h.adj) + {Section(a, net, true)}
      && forall x | x in LiveIn(h.adj) :: x.base != a
  {
    var a := h.free[k];
    var i := Pos(h.adj, a);
    Listed(h.adj, base, base + len, h.free, false, a);
    SplitKeeps(h.adj, i, net, base, base + len);
    hide Tiles, Split, Distinct;
    assert a + net !in Elems(h.free) && a !in Elems(h.used);
    forall x | x in LiveIn(h.adj) ensures x.base != a {
      assert x.base in Bases(h.adj, true);
    }
    UpdateIsDistinct(h.free, k, a + net);
    InsertIsDistinct(h.used, |h.used|, a);
    assert Insert(h.used, |h.used|, a) == h.used + [a];
  }

  lemma UpdateIsDistinct(list: seq<nat>, k: nat, a: nat)
    requires Distinct(list) && k < |list| && a !in list
    ensures Distinct(list[k := a]) && Elems(list[k := a]) == Elems(list) - {list[k]} + {a}
  {
    assert list[k := a][k] == a;
    forall x | x in Elems(list) - {list[k]} ensures x in Elems(list[k := a]) {
      var i :| 0 <= i < |list| && list[i] == x;
      assert list[k := a][i] == x;
    }
  }

  /** Only at positions in weak may two free sections follow each other; the last section is free. */
  ghost predicate CoalescedBut(s: seq<Section>, weak: set<int>) {
    && |s| > 0 && !s[|s| - 1].live
    && forall j {:trigger s[j]} :: 0 <= j && j + 1 < |s| && j !in weak ==> s[j].live || s[j + 1].live
  }

  lemma MergeHeals(h: Heap, i: nat, weak: set<int>)
    requires i + 1 < |h.adj| && !h.adj[i].live && !h.adj[i + 1].live
    requires CoalescedBut(h.adj, weak + {i}) && i !in weak && i + 1 !in weak && forall w | w in weak :: w < i
    ensures var m := Merge(h, i).adj;
      CoalescedBut(m, weak) && |m| == |h.adj| - 1 && !m[i].live && forall j :: 0 <= j < i ==> m[j] == h.adj[j]
  {
    var s, m := h.adj, Merge(h, i).adj;
    forall j | 0 <= j && j + 1 < |m| && j !in weak ensures m[j].live || m[j + 1].live {
      assert j < i ==> m[j] == s[j];
      assert j + 1 <= i ==> m[j + 1].live == s[j + 1].live;
      assert j > i ==> m[j] == s[j + 1] && m[j + 1] == s[j + 2];
      assert j == i ==> m[j + 1] == s[i + 2] && (s[i + 1].live || s[i + 2].live);
    }
    assert i < |m| - 1 ==> m[|m| - 1] == s[|s| - 1];
  }

  /** s_combineAdjFreeNodes restores the invariant. */
  lemma CombineKeeps(h: Heap, base: nat, len: nat, i: nat)
    requires Tiles(h.adj, base, base + len)
    requires Lists(h.adj, h.free, false) && Lists(h.adj, h.used, true)
    requires i < |h.adj| && !h.adj[i].live && CoalescedBut(h.adj, {i - 1, i})
    ensures Inv(Combine(h, i), base, len) && Live(Combine(h, i)) == Live(h)
  {
    hide Tiles, Lists, LiveIn, Merge;
    assert Coalesced(h.adj) <==> CoalescedBut(h.adj, {});
    var h1 := h;
    if i + 1 < |h.adj| && !h.adj[i + 1].live {
      h1 := Merge(h, i);
      MergeKeeps(h, base, len, i);
      assert {i - 1} + {i} == {i - 1, i};
      MergeHeals(h, i, {i - 1});
    }
    assert CoalescedBut(h1.adj, {i - 1});
    if i > 0 && !h1.adj[i - 1].live {
      MergeKeeps(h1, base, len, i - 1);
      assert {} + {i - 1} == {i - 1};
      MergeHeals(h1, i - 1, {});
    }
    assert CoalescedBut(Combine(h, i).adj, {});
  }

  /** An address of the allocated list is that of exactly one live section. */
  lemma UsedIsLive(h: Heap, base: nat, len: nat, a: nat)
    requires Inv(h, base, len)
    ensures a in h.used <==> exists x :: x in Live(h) && x.base == a
    ensures a in h.used ==> Pos(h.adj, a) < |h.adj| && h.adj[Pos(h.adj, a)] in Live(h)
                            && forall x | x in Live(h) && x.base == a :: x == h.adj[Pos(h.adj, a)]
  {
    hide Coalesced;
    if a in h.used {
      Listed(h.adj, base, base + len, h.used, true, a);
      forall x | x in Live(h) && x.base == a ensures x == h.adj[Pos(h.adj, a)] {
        var j :| 0 <= j < |h.adj| && h.adj[j] == x;
        PosIsUnique(h.adj, base, base + len, j);
      }
    } else {
      assert a !in Elems(h.used);
    }
  }

  /** kfree keeps the invariant, succeeds exactly on the payload of a live section, and gives back that
      section and no other. */
  lemma FreeKeeps(h: Heap, addr: nat, base: nat, len: nat)
    requires Inv(h, base, len)
    ensures Inv(Free(h, addr).0, base, len)
    ensures Free(h, addr).1 <==> exists x :: x in Live(h) && x.base + HEADER == addr
    ensures Live(Free(h, addr).0) == set x | x in Live(h) && x.base + HEADER != addr
    ensures !Free(h, addr).1 ==> Free(h, addr).0 == h
  {
    hide Tiles, Lists, LiveIn, Release, Combine, Pos;
    if addr >= HEADER {
      var a := addr - HEADER;
      UsedIsLive(h, base, len, a);
      if a in h.used {
        var i := Pos(h.adj, a);
        var m := Release(h, a);
        assert h.adj[i].live by {
          Listed(h.adj, base, base + len, h.used, true, a);
        }
        ReleaseKeeps(h, base, len, i);
        assert m.adj[|m.adj| - 1].live ==> |m.adj| - 1 != i;
        assert Live(m) == Live(h) - {h.adj[i]};
        CombineKeeps(m, base, len, i);
      }
    }
  }

  // ---------------------------------------------------------------------------------------------
  // Whole runs.
  // ---------------------------------------------------------------------------------------------

  datatype Op = Request(bytes: nat) | GiveBack(addr: nat)

  function Step(h: Heap, op: Op): Heap {
    match op
    case Request(bytes) => Malloc(h, bytes).0
    case GiveBack(addr) => Free(h, addr).0
  }

  function Run(h: Heap, ops: seq<Op>): Heap
    decreases |ops|
  {
    if ops == [] then h else Run(Step(h, ops[0]), ops[1..])
  }

  lemma InitIsValid(base: nat, len: nat)
    requires len >= HEADER
    ensures Inv(Init(base, len), base, len) && Live(Init(base, len)) == {}
  {
    var x := Section(base, len, false);
    One(x);
    assert Elems([base]) == {base} && Bases([x], true) == Elems(Init(base, len).used);
  }

  lemma StepKeeps(h: Heap, op: Op, base: nat, len: nat)
    requires Inv(h, base, len)
    ensures Inv(Step(h, op), base, len)
  {
    hide Inv, Malloc, Free;
    match op
    case Request(bytes) => MallocKeeps(h, bytes, base, len);
    case GiveBack(addr) => FreeKeeps(h, addr, base, len);
  }

  /** Whatever is requested and given back, in whatever order: the invariant holds, and a live section
      stays where and as it is until its own payload is given back. */
  lemma {:induction false} RunKeeps(h: Heap, ops: seq<Op>, base: nat, len: nat)
    requires Inv(h, base, len)
    ensures Inv(Run(h, ops), base, len)
    ensures forall x | x in Live(h) && GiveBack(x.base + HEADER) !in ops :: x in Live(Run(h, ops))
    decreases |ops|
  {
    hide Inv, Malloc, Free, LiveIn;
    if ops != [] {
      StepKeeps(h, ops[0], base, len);
      match ops[0] {
        case Request(bytes) => MallocKeeps(h, bytes, base, len);
        case GiveBack(addr) => FreeKeeps(h, addr, base, len);
      }
      RunKeeps(Step(h, ops[0]), ops[1..], base, len);
      assert ops[0] in ops;
      assert forall op | op in ops[1..] :: op in ops;
    }
  }

  /** Two live sections never overlap, and all of them lie inside the buffer. */
  lemma LiveSectionsAreApart(h: Heap, base: nat, len: nat, x: Section, y: Section)
    requires Inv(h, base, len) && x in Live(h) && y in Live(h)
    ensures base <= x.base && x.base + x.size <= base + len && x.size >= HEADER
    ensures x != y ==> x.base + x.size <= y.base || y.base + y.size <= x.base
  {
    hide Lists, Coalesced;
    TilesBases(h.adj, base, base + len);
    var i :| 0 <= i < |h.adj| && h.adj[i] == x;
    var j :| 0 <= j < |h.adj| && h.adj[j] == y;
    if i < j {
      TilesApart(h.adj, base, base + len, i, j);
    } else if j < i {
      TilesApart(h.adj, base, base + len, j, i);
    }
  }

  // ---------------------------------------------------------------------------------------------
  // Sizes.
  // ---------------------------------------------------------------------------------------------

  /** The sum of the sizes in a list of headers, as kmalloc_getUsedMemory adds them up. */
  ghost function ListTotal(s: seq<Section>, list: seq<nat>): nat {
    if list == [] then 0 else SizeAt(s, list[0]) + ListTotal(s, list[1..])
  }

  ghost function TotalIn(s: seq<Section>, bases: set<nat>): nat {
    if s == [] then 0 else (if s[0].base in bases then s[0].size else 0) + TotalIn(s[1..], bases)
  }

  lemma {:induction false} TotalInAll(s: seq<Section>, a: set<nat>, b: set<nat>, start: nat, end: nat)
    requires Tiles(s, start, end)
    requires forall i {:trigger s[i]} :: 0 <= i < |s| ==> (s[i].base in a <==> s[i].base !in b)
    ensures TotalIn(s, a) + TotalIn(s, b) == end - start
  {
    if s != [] {
      TotalInAll(s[1..], a, b, start + s[0].size, end);
      assert s[0].base in a <==> s[0].base !in b;
    }
  }

  lemma {:induction false} TotalInMore(s: seq<Section>, bases: set<nat>, a: nat, start: nat, end: nat)
    requires Tiles(s, start, end) && a !in bases
    ensures TotalIn(s, bases + {a}) == TotalIn(s, bases) + SizeAt(s, a)
  {
    if s != [] {
      TotalInMore(s[1..], bases, a, start + s[0].size, end);
      if s[0].base == a && Pos(s[1..], a) < |s[1..]| {
        TilesFrom(s[1..], start + s[0].size, end, Pos(s[1..], a));
      }
    }
  }

  lemma {:induction false} TotalInNone(s: seq<Section>)
    ensures TotalIn(s, {}) == 0
  {
    if s != [] {
      TotalInNone(s[1..]);
    }
  }

  lemma {:induction false} ListTotalIs(s: seq<Section>, list: seq<nat>, start: nat, end: nat)
    requires Tiles(s, start, end) && Distinct(list)
    ensures ListTotal(s, list) == TotalIn(s, Elems(list))
  {
    if list == [] {
      TotalInNone(s);
      assert Elems(list) == {};
    } else {
      ListTotalIs(s, list[1..], start, end);
      assert list == [list[0]] + list[1..];
      assert Elems(list) == Elems(list[1..]) + {list[0]};
      TotalInMore(s, Elems(list[1..]), list[0], start, end);
    }
  }

  /** The sections of the free and of the allocated list fill the buffer exactly. */
  lemma ListsFillBuffer(h: Heap, base: nat, len: nat)
    requires Inv(h, base, len)
    ensures ListTotal(h.adj, h.free) + ListTotal(h.adj, h.used) == len
  {
    ListTotalIs(h.adj, h.free, base, base + len);
    ListTotalIs(h.adj, h.used, base, base + len);
    forall i | 0 <= i < |h.adj| ensures h.adj[i].base in Elems(h.free) <==> h.adj[i].base !in Elems(h.used) {
      OneList(h.adj, base, base + len, i);
    }
    TotalInAll(h.adj, Elems(h.free), Elems(h.used), base, base + len);
  }

  lemma OneList(s: seq<Section>, start: nat, end: nat, i: nat)
    requires Tiles(s, start, end) && i < |s|
    ensures s[i].base in Bases(s, s[i].live) && s[i].base !in Bases(s, !s[i].live)
  {
    if s[i].base in Bases(s, !s[i].live) {
      var y :| y in s && y.live == !s[i].live && y.base == s[i].base;
      var j :| 0 <= j < |s| && s[j] == y;
      PosIsUnique(s, start, end, i);
      PosIsUnique(s, start, end, j);
    }
  }

  // ---------------------------------------------------------------------------------------------
  // Undoing.
  // ---------------------------------------------------------------------------------------------

  /** kfree undoes kmalloc: the sections and the allocated list are as before, and the free list holds
      the same sections. */
  lemma FreeUndoesMalloc(h: Heap, bytes: nat, base: nat, len: nat)
    requires Inv(h, base, len) && Malloc(h, bytes).1.Some?
    ensures var (m, r) := Malloc(h, bytes);
      var (f, ok) := Free(m, r.value);
      ok && f.adj == h.adj && f.used == h.used && Distinct(f.free) && Elems(f.free) == Elems(h.free)
  {
    hide Tiles, LiveIn, Elems, Bases, Distinct, Split, Drop, Combine, Release, Pos, FirstFit;
    var (m, r) := Malloc(h, bytes);
    MallocKeeps(h, bytes, base, len);
    FreeKeeps(m, r.value, base, len);
    GrantedFront(h, bytes, base, len);
    var a := r.value - HEADER;
    DropLast(h.used, a);
    CutThenCombine(m, h.adj, Pos(h.adj, a), bytes + HEADER);
  }

  /** What kmalloc did to the section it granted. */
  lemma GrantedFront(h: Heap, bytes: nat, base: nat, len: nat)
    requires Inv(h, base, len) && Malloc(h, bytes).1.Some?
    ensures var (m, r) := Malloc(h, bytes);
      && r.value >= HEADER
      && var a := r.value - HEADER;
      var i := Pos(h.adj, a);
      && i < |h.adj| && !h.adj[i].live && h.adj[i].base == a && bytes + HEADER <= h.adj[i].size
      && m.adj == Split(h.adj, i, bytes + HEADER) && Pos(m.adj, a) == i
      && m.used == h.used + [a] && a !in h.used
  {
    hide Coalesced;
    var (m, r) := Malloc(h, bytes);
    var a := r.value - HEADER;
    var i := Pos(h.adj, a);
    SplitLists(h, FirstFit(h.adj, h.free, bytes + 2 * HEADER), bytes + HEADER, base, len);
    assert m.adj[i].base == a;
    PosIsUnique(m.adj, base, base + len, i);
    UsedIsLive(h, base, len, a);
  }

  /** Freeing the front of a section that was cut puts the section together again. */
  lemma CutThenCombine(m: Heap, s: seq<Section>, i: nat, net: nat)
    requires i < |s| && net <= s[i].size && !s[i].live && Coalesced(s) && m.adj == Split(s, i, net)
    requires s[i].base in m.used && Pos(m.adj, s[i].base) == i
    ensures Combine(Release(m, s[i].base), i).adj == s
    ensures Combine(Release(m, s[i].base), i).used == Drop(m.used, s[i].base)
  {
    hide Drop, Pos;
    var t := Release(m, s[i].base);
    var x, y := Section(s[i].base, net, false), Section(s[i].base + net, s[i].size - net, false);
    Framed(s[..i], Section(s[i].base, net, true), x, y, s[i + 1..]);
    assert t.adj == s[..i] + [x, y] + s[i + 1..];
    assert x.(size := x.size + y.size) == s[i];
    assert Merge(t, i).adj == s[..i] + [s[i]] + s[i + 1..] == s;
    if i > 0 {
      assert s[i - 1].live;
    }
  }

  /** Replacing one element in the middle. */
  lemma Framed(l: seq<Section>, was: Section, x: Section, y: Section, r: seq<Section>)
    ensures (l + [was, y] + r)[|l| := x] == l + [x, y] + r
    ensures (l + [x, y] + r)[|l|] == x && (l + [x, y] + r)[|l| + 1] == y
    ensures (l + [x, y] + r)[..|l|] == l && (l + [x, y] + r)[|l| + 2..] == r
  {
  }

  lemma DropLast(list: seq<nat>, a: nat)
    requires a !in list
    ensures Drop(list + [a], a) == list
  {
    assert list + [a] == Insert(list, |list|, a);
    var k := IndexOf(list + [a], a);
    assert k >= |list|;
  }

  /** Giving back addresses one after the other leaves the live sections whose payloads are not among
      them. */
  lemma {:induction false} GiveBackAll(h: Heap, addrs: seq<nat>, base: nat, len: nat)
    requires Inv(h, base, len)
    ensures var m := Run(h, GiveBacks(addrs));
      Inv(m, base, len) && Live(m) == set x | x in Live(h) && x.base + HEADER !in addrs
    decreases |addrs|
  {
    hide Inv, Malloc, Free, LiveIn;
    if addrs != [] {
      FreeKeeps(h, addrs[0], base, len);
      assert GiveBacks(addrs)[1..] == GiveBacks(addrs[1..]);
      GiveBackAll(Free(h, addrs[0]).0, addrs[1..], base, len);
    }
  }

  function GiveBacks(addrs: seq<nat>): seq<Op> {
    if addrs == [] then [] else [GiveBack(addrs[0])] + GiveBacks(addrs[1..])
  }

  /** Without live sections one free section spans the whole buffer. */
  lemma EmptyIsInit(h: Heap, base: nat, len: nat)
    requires Inv(h, base, len) && Live(h) == {}
    ensures h == Init(base, len)
  {
    var s := h.adj;
    assert forall x | x in s :: x.live ==> x in Live(h);
    assert |s| == 1;
    assert s[1..] == [] && s == [s[0]];
    assert Tiles(s[1..], base + s[0].size, base + len);
    Few(h.used);
    Few(h.free);
    assert Elems(h.used) == {} && Elems(h.free) == {base};
  }

  lemma Few(list: seq<nat>)
    requires Distinct(list)
    ensures list == [] <==> Elems(list) == {}
    ensures |list| > 1 ==> list[0] != list[1] && {list[0], list[1]} <= Elems(list)
    ensures |list| == 1 ==> list[0] in Elems(list)
  {
    assert list != [] ==> list[0] in Elems(list);
  }

  /** Freeing every live block, in any order, leaves the heap of kmalloc_init. */
  lemma FreeingAllRestoresBuffer(h: Heap, addrs: seq<nat>, base: nat, len: nat)
    requires Inv(h, base, len) && forall x | x in Live(h) :: x.base + HEADER in addrs
    ensures Run(h, GiveBacks(addrs)) == Init(base, len)
  {
    GiveBackAll(h, addrs, base, len);
    EmptyIsInit(Run(h, GiveBacks(addrs)), base, len);
  }

  /** kmalloc takes the first section of the free list that is large enough; the remainder takes its place
      there, and the section goes to the end of the allocated list. */
  lemma MallocTakesFirst(h: Heap, bytes: nat, base: nat, len: nat)
    requires Inv(h, base, len) && Malloc(h, bytes).1.Some?
    ensures var (m, r) := Malloc(h, bytes);
      exists k :: 0 <= k < |h.free| && r.value == h.free[k] + HEADER
        && SizeAt(h.adj, h.free[k]) >= bytes + 2 * HEADER
        && (forall j :: 0 <= j < k ==> SizeAt(h.adj, h.free[j]) < bytes + 2 * HEADER)
        && m.free == h.free[k := h.free[k] + HEADER + bytes] && m.used == h.used + [h.free[k]]
  {
    hide Inv, Split, SizeAt, Pos;
    var k := FirstFit(h.adj, h.free, bytes + 2 * HEADER);
    assert h.free[k] + (bytes + HEADER) == h.free[k] + HEADER + bytes;
  }

  lemma DropBehind(a: nat, list: seq<nat>, x: nat)
    requires x != a
    ensures Drop([a] + list, x) == [a] + Drop(list, x)
  {
    var l := [a] + list;
    assert l[1..] == list && (x in l <==> x in list);
    if x in list {
      var k := IndexOf(list, x);
      assert IndexOf(l, x) == 1 + k;
      assert l[..1 + k] == [a] + list[..k] && l[1 + k + 1..] == list[k + 1..];
    }
  }

  lemma DropFirst(a: nat, list: seq<nat>)
    ensures Drop([a] + list, a) == list
  {
    assert a in [a] + list && ([a] + list)[1..] == list;
  }

  /** kfree puts the section at the head of the free list and takes a free next one off it; a free section
      in front swallows the section, which is then on no list. The others keep their order. */
  lemma FreedGoesFirst(h: Heap, addr: nat, base: nat, len: nat)
    requires Inv(h, base, len) && Free(h, addr).1
    ensures var a := addr - HEADER;
      var i, m := Pos(h.adj, a), Free(h, addr).0;
      && i < |h.adj| && m.used == Drop(h.used, a)
      && var others := if i + 1 < |h.adj| && !h.adj[i + 1].live then Drop(h.free, h.adj[i + 1].base) else h.free;
         m.free == if i > 0 && !h.adj[i - 1].live then others else [a] + others
  {
    hide Lists, Coalesced, Drop, Pos;
    var a := addr - HEADER;
    var i := Pos(h.adj, a);
    if i + 1 < |h.adj| {
      TilesTouch(h.adj, base, base + len, i);
      DropBehind(a, h.free, h.adj[i + 1].base);
      DropFirst(a, Drop(h.free, h.adj[i + 1].base));
    }
    DropFirst(a, h.free);
  }

  /** cm_malloc differs from kmalloc in refusing empty requests. */
  function CmMalloc(h: Heap, bytes: nat): (r: (Heap, Option<nat>)) {
    if bytes == 0 then (h, None) else Malloc(h, bytes)
  }

  lemma CmMallocKeeps(h: Heap, bytes: nat, base: nat, len: nat)
    requires Inv(h, base, len)
    ensures var (m, r) := CmMalloc(h, bytes);
      && Inv(m, base, len)
      && (r.None? <==> bytes == 0 || forall x | x in h.adj && !x.live :: x.size < bytes + 2 * HEADER)
      && (r.None? ==> m == h)
      && (r.Some? ==> r.value >= HEADER
                      && Live(m) == Live(h) + {Section(r.value - HEADER, bytes + HEADER, true)}
                      && forall x | x in Live(h) :: x.base != r.value - HEADER)
  {
    hide Inv, Malloc;
    MallocKeeps(h, bytes, base, len);
  }

  // ---------------------------------------------------------------------------------------------
  // Requests whose size does not fit with the headers into 32 bits.
  // ---------------------------------------------------------------------------------------------

  const SIZE_LIMIT: nat := 0x1_0000_0000

  function Wrap(n: nat): (r: nat)
    ensures r < SIZE_LIMIT && (n < SIZE_LIMIT ==> r == n) && (SIZE_LIMIT <= n < 2 * SIZE_LIMIT ==> r == n - SIZE_LIMIT)
  {
    n % SIZE_LIMIT
  }

  /** kmalloc with every sum and difference taken modulo 2^32, as size_t takes them. */
  function MallocWrapped(h: Heap, bytes: nat): (r: (Heap, Option<nat>))
    requires forall x | x in h.adj :: x.size < SIZE_LIMIT
  {
    var k := FirstFit(h.adj, h.free, Wrap(Wrap(bytes + HEADER) + HEADER));
    if k == |h.free| || Pos(h.adj, h.free[k]) == |h.adj| then (h, None) else
    var a, net := h.free[k], Wrap(bytes + HEADER);
    var i := Pos(h.adj, a);
    var front, rest := Section(a, net, true), Section(Wrap(a + net), Wrap(h.adj[i].size + SIZE_LIMIT - net), false);
    (Heap(h.adj[..i] + [front, rest] + h.adj[i + 1..], h.free[k := rest.base], h.used + [a]), Some(Wrap(a + HEADER)))
  }

  lemma SizesAreBelow(h: Heap, base: nat, len: nat)
    requires Inv(h, base, len) && base + len <= SIZE_LIMIT && len < SIZE_LIMIT
    ensures forall x | x in h.adj :: x.size < SIZE_LIMIT
  {
    TilesBases(h.adj, base, base + len);
  }

  /** A request that kmalloc grants keeps the heap in order exactly when its size and two headers fit into
      32 bits; then nothing wraps around. */
  lemma GrantIsSoundUnlessWrapped(h: Heap, bytes: nat, base: nat, len: nat)
    requires Inv(h, base, len) && base + len <= SIZE_LIMIT && len < SIZE_LIMIT && bytes < SIZE_LIMIT
    ensures forall x | x in h.adj :: x.size < SIZE_LIMIT
    ensures bytes + 2 * HEADER < SIZE_LIMIT ==> MallocWrapped(h, bytes) == Malloc(h, bytes)
    ensures MallocWrapped(h, bytes).1.Some? ==>
      (Inv(MallocWrapped(h, bytes).0, base, len) <==> bytes + 2 * HEADER < SIZE_LIMIT)
  {
    hide Tiles, Lists, Coalesced, Malloc, MallocWrapped;
    SizesAreBelow(h, base, len);
    if bytes + 2 * HEADER < SIZE_LIMIT {
      NothingWraps(h, bytes, base, len);
      MallocKeeps(h, bytes, base, len);
    } else if MallocWrapped(h, bytes).1.Some? {
      WrappedIsUnsound(h, bytes, base, len);
    }
  }

  /** Such a request exists on every heap that kmalloc_init makes: its size and two headers sum to 0, the
      first section is always large enough, and the heap is no heap any more. */
  lemma WrappedRequestIsGranted(base: nat, len: nat)
    requires HEADER <= len && base + len <= SIZE_LIMIT && len < SIZE_LIMIT
    ensures var h, bytes := Init(base, len), SIZE_LIMIT - 2 * HEADER;
      && Inv(h, base, len) && (forall x | x in h.adj :: x.size < SIZE_LIMIT)
      && MallocWrapped(h, bytes).1.Some?
      && !Inv(MallocWrapped(h, bytes).0, base, len)
  {
    hide Tiles, Lists, Coalesced;
    var h := Init(base, len);
    InitIsValid(base, len);
    GrantIsSoundUnlessWrapped(h, SIZE_LIMIT - 2 * HEADER, base, len);
  }

  lemma FoundSection(h: Heap, k: nat, base: nat, len: nat)
    requires Inv(h, base, len) && k < |h.free|
    ensures var i := Pos(h.adj, h.free[k]);
      i < |h.adj| && h.adj[i].base == h.free[k] && base <= h.adj[i].base && h.adj[i].base + h.adj[i].size <= base + len
      && h.adj[i].size >= HEADER
  {
    hide Coalesced;
    Listed(h.adj, base, base + len, h.free, false, h.free[k]);
    TilesFrom(h.adj, base, base + len, Pos(h.adj, h.free[k]));
  }

  lemma NothingWraps(h: Heap, bytes: nat, base: nat, len: nat)
    requires Inv(h, base, len) && base + len <= SIZE_LIMIT && len < SIZE_LIMIT && bytes + 2 * HEADER < SIZE_LIMIT
    requires forall x | x in h.adj :: x.size < SIZE_LIMIT
    ensures MallocWrapped(h, bytes) == Malloc(h, bytes)
  {
    hide Inv, Wrap, Pos, FirstFit;
    var k := FirstFit(h.adj, h.free, bytes + 2 * HEADER);
    if k < |h.free| {
      FoundSection(h, k, base, len);
    }
  }

  lemma WrappedIsUnsound(h: Heap, bytes: nat, base: nat, len: nat)
    requires Inv(h, base, len) && base + len <= SIZE_LIMIT && len < SIZE_LIMIT && bytes < SIZE_LIMIT
    requires forall x | x in h.adj :: x.size < SIZE_LIMIT
    requires bytes + 2 * HEADER >= SIZE_LIMIT && MallocWrapped(h, bytes).1.Some?
    ensures !Inv(MallocWrapped(h, bytes).0, base, len)
  {
    hide Tiles, Lists, Coalesced, Wrap, Pos, FirstFit;
    var k := FirstFit(h.adj, h.free, Wrap(Wrap(bytes + HEADER) + HEADER));
    FoundSection(h, k, base, len);
    WrappedIsNoTiling(h, Pos(h.adj, h.free[k]), bytes, base, len);
  }

  lemma WrappedIsNoTiling(h: Heap, i: nat, bytes: nat, base: nat, len: nat)
    requires i < |h.adj| && base + len <= SIZE_LIMIT && len < SIZE_LIMIT && bytes < SIZE_LIMIT
    requires base <= h.adj[i].base && h.adj[i].base + h.adj[i].size <= base + len && bytes + 2 * HEADER >= SIZE_LIMIT
    ensures var x, net := h.adj[i], Wrap(bytes + HEADER);
      var front, rest := Section(x.base, net, true), Section(Wrap(x.base + net), Wrap(x.size + SIZE_LIMIT - net), false);
      !Tiles(h.adj[..i] + [front, rest] + h.adj[i + 1..], base, base + len)
  {
    var x, net := h.adj[i], Wrap(bytes + HEADER);
    var front, rest := Section(x.base, net, true), Section(Wrap(x.base + net), Wrap(x.size + SIZE_LIMIT - net), false);
    var t := h.adj[..i] + [front, rest] + h.adj[i + 1..];
    if Tiles(t, base, base + len) {
      assert t[i] == front && t[i + 1] == rest;
      TilesTouch(t, base, base + len, i);
      TilesFrom(t, base, base + len, i + 1);
    }
  }
}
