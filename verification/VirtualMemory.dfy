/** The virtual memory manager together with the frame allocator it takes its
    tables from. */
module VirtualMemory {
  import opened Arithmetic
  import opened PageTables
  import opened MemoryMap
  import opened FrameAllocator

  // ----- growing a page map -----

  /** From (t0, N0) with free frames F0 to (t1, N1) with free frames F1: still a
      tree, all old tables in place, every frame that left the free set is a table
      of the map now and nothing else is, and no frame outside the map changed. */
  ghost predicate Grew(root: nat, t0: Tables, N0: Shape, F0: set<nat>, t1: Tables, N1: Shape, F1: set<nat>) {
    && Tree(t1, root, N1)
    && (forall n :: n in N0 ==> n in N1 && N1[n] == N0[n])
    && F1 <= F0
    && N1.Values == N0.Values + (F0 - F1)
    && (forall f :: f in t0 && f !in N1.Values ==> f in t1 && t1[f] == t0[f])
    && NoNewGigabytes(t0, t1, root)
  }

  lemma GrewStep(root: nat, t0: Tables, N0: Shape, F0: set<nat>, t1: Tables, N1: Shape, F1: set<nat>,
                 t2: Tables, N2: Shape, F2: set<nat>)
    requires Grew(root, t0, N0, F0, t1, N1, F1) && Grew(root, t1, N1, F1, t2, N2, F2)
    ensures Grew(root, t0, N0, F0, t2, N2, F2)
  {
  }

  /** Another page map keeps its tables and its meaning while this one grows. */
  lemma OtherMapSafe(root: nat, t0: Tables, N0: Shape, F0: set<nat>, t1: Tables, N1: Shape, F1: set<nat>, other: nat,
                     S: Shape)
    requires Grew(root, t0, N0, F0, t1, N1, F1)
    requires Tree(t0, other, S) && S.Values !! N0.Values && S.Values !! F0
    ensures Tree(t1, other, S) && SameMeaning(t0, t1, other) && SameGigabytes(t0, t1, other)
    ensures S.Values !! N1.Values && S.Values !! F1
  {
    forall n | n in S ensures S[n] in t0 && S[n] in t1 && t1[S[n]] == t0[S[n]] {
      AtNode(t0, other, S, n);
    }
    FrameRule(t0, other, S, t1);
  }

  lemma PointAfterSame(t0: Tables, t1: Tables, t2: Tables, root: nat, v: nat, r: Translation)
    requires SameMeaning(t0, t1, root) && PointUpdate(t1, t2, root, v, r) && v < PAGE_LIMIT
    ensures PointUpdate(t0, t2, root, v, r)
    ensures Opens(t1, t2, root, v) ==> Opens(t0, t2, root, v)
  {
    hide Open, Walk;
  }

  /** Growing without a change of meaning, then writing one PT entry. */
  lemma GrewThenWrote(root: nat, t0: Tables, N0: Shape, F0: set<nat>, t1: Tables, N1: Shape, F1: set<nat>, v: nat,
                      e: Entry)
    requires Grew(root, t0, N0, F0, t1, N1, F1) && SameMeaning(t0, t1, root)
    requires v < PAGE_LIMIT && Node(1, v / 512) in N1 && N1[Node(1, v / 512)] in t1
    requires !e.present ==> !e.large
    ensures Grew(root, t0, N0, F0, WithEntry(t1, N1[Node(1, v / 512)], v % 512, e), N1, F1)
    ensures PointUpdate(t0, WithEntry(t1, N1[Node(1, v / 512)], v % 512, e), root, v,
                        if e.present then Page(e.frame) else Unmapped)
    ensures OpenEntry(e) ==> Opens(t0, WithEntry(t1, N1[Node(1, v / 512)], v % 512, e), root, v)
    ensures !InGigabyteLeaf(WithEntry(t1, N1[Node(1, v / 512)], v % 512, e), root, v)
    ensures HasLeaf(WithEntry(t1, N1[Node(1, v / 512)], v % 512, e), N1, v, e)
  {
    hide Open, LeafUpdate, PointUpdate, SameMeaning, Opens, Walk;
    LeafWrite(t1, root, N1, v, e);
    PointAfterSame(t0, t1, WithEntry(t1, N1[Node(1, v / 512)], v % 512, e), root, v,
                   if e.present then Page(e.frame) else Unmapped);
    LeafAddsNoGigabyte(t1, root, N1, v, e);
    HasTableNotGigabyte(t1, root, N1, v);
    assert N1[Node(1, v / 512)] in N1.Values;
  }

  /** What a mapping request for frame p is turned into: "just in case" p is a
      virtual page, the frame behind that page; p itself when it is not mapped. */
  function Convert(t: Tables, root: nat, p: nat): nat {
    match Walk(t, root, p % PAGE_LIMIT)
    case Page(q) => q
    case _ => p
  }

  lemma UnmapUndoesMap(t0: Tables, t1: Tables, t2: Tables, root: nat, v: nat, r: Translation)
    requires v < PAGE_LIMIT && Walk(t0, root, v) == Unmapped
    requires PointUpdate(t0, t1, root, v, r) && PointUpdate(t1, t2, root, v, Unmapped) && Opens(t1, t2, root, v)
    ensures SameMeaning(t0, t2, root)
  {
    hide LeafAt, Open;
    if OpenPage(t0, root, v) { PageIsWay(t0, root, 4, v); }
  }

  lemma PointShown(t: Tables, t': Tables, root: nat, v: nat, r: Translation)
    requires PointUpdate(t, t', root, v, r) && v < PAGE_LIMIT
    ensures Walk(t', root, v) == r
  {
  }

  lemma GrewNothing(root: nat, t: Tables, N: Shape, F: set<nat>)
    requires Tree(t, root, N)
    ensures Grew(root, t, N, F, t, N, F) && SameMeaning(t, t, root) && SameLeaves(t, t, root)
  {
  }

  /** What a grown map still has: the old tables, apart from the free frames. */
  lemma GrewOwned(root: nat, t0: Tables, N0: Shape, F0: set<nat>, t1: Tables, N1: Shape, F1: set<nat>)
    requires Grew(root, t0, N0, F0, t1, N1, F1) && N0.Values !! F0
    ensures Tree(t1, root, N1) && N1.Values !! F1 && F1 <= F0
    ensures N1.Values == N0.Values + (F0 - F1)
    ensures forall n :: n in N0 ==> n in N1 && N1[n] == N0[n]
  {
  }

  lemma SameMeaningStep(t0: Tables, t1: Tables, t2: Tables, root: nat)
    requires SameMeaning(t0, t1, root) && SameMeaning(t1, t2, root)
    ensures SameMeaning(t0, t2, root)
  {
  }

  lemma RootNode(t: Tables, root: nat, N: Shape)
    requires Tree(t, root, N)
    ensures Node(4, 0) in N && N[Node(4, 0)] == root && root in t
  {
    assert TableOk(t, N, Node(4, 0));
  }

  /** The table at a node, and where its links lead. */
  lemma AtNode(t: Tables, root: nat, N: Shape, n: Node)
    requires Tree(t, root, N) && n in N
    ensures 1 <= n.level <= 4 && N[n] in t && N[n] in N.Values
    ensures forall i {:trigger t[N[n]][i]} :: 0 <= i < 512 ==> EntryOk(n.level, t[N[n]][i])
    ensures forall i {:trigger t[N[n]][i]} :: 0 <= i < 512 && IsLink(n.level, t[N[n]][i]) ==>
              Child(n, i) in N && N[Child(n, i)] == t[N[n]][i].frame
  {
    assert TableOk(t, N, n);
    forall i: nat | i < 512 && IsLink(n.level, t[N[n]][i]) ensures Child(n, i) in N && N[Child(n, i)] == t[N[n]][i].frame {
      assert DownOk(t, N, n, i);
    }
  }

  lemma ValuesUpdate(N: Shape, n: Node, g: nat)
    requires n !in N
    ensures N[n := g].Values == N.Values + {g}
  {
    forall f ensures f in N[n := g].Values <==> f in N.Values + {g} {
      if f in N.Values {
        var m :| m in N && N[m] == f;
        assert N[n := g][m] == f;
      }
      if f == g { assert N[n := g][n] == g; }
    }
  }

  /** After the PDPT has been made sure of, its entry tells whether the page was in
      a 1 GiB leaf before. */
  lemma GigabyteSeen(t0: Tables, root: nat, v: nat, t1: Tables, pdpt: nat)
    requires root in t0 && pdpt in t1
    requires t0[root][Index(4, v)].present ==> t1 == t0 && pdpt == t0[root][Index(4, v)].frame
    requires !t0[root][Index(4, v)].present ==> t1[pdpt] == ZeroTable()
    ensures InGigabyteLeaf(t0, root, v) <==> IsLargeLeaf(3, t1[pdpt][Index(3, v)])
  {
  }

  /** An entry without a link takes a frame; then what it links to has no links. */
  lemma NeedsStep(t0: Tables, t1: Tables, f: nat, next: nat, level: nat, v: nat, k0: nat, k1: nat)
    requires 2 <= level <= 4 && f in t0 && next in t1
    requires IsLink(level, t0[f][Index(level, v)]) ==> t1 == t0 && next == t0[f][Index(level, v)].frame && k1 == k0
    requires !IsLink(level, t0[f][Index(level, v)]) ==>
               k1 + 1 == k0 && forall k :: 0 <= k < 512 ==> !IsLink(level - 1, t1[next][k])
    ensures k1 + Needs(t0, f, level, v) == k0 + Needs(t1, next, level - 1, v)
  {
    hide Index;
  }

  lemma NeedsFrame(t: Tables, f: nat, level: nat, v: nat, k: nat)
    requires 2 <= level <= 4 && f in t && Needs(t, f, level, v) <= k
    ensures IsLink(level, t[f][Index(level, v)]) || k > 0
  {
  }

  lemma NeedsNone(t: Tables, f: nat, v: nat)
    ensures Needs(t, f, 1, v) == 0
  {
  }

  lemma PathChild(level: nat, v: nat)
    requires 2 <= level <= 4
    ensures Child(Node(level, v / Span(level)), Index(level, v)) == Node(level - 1, v / Span(level - 1))
  {
    PathStep(level, v);
  }

  lemma Spans(v: nat)
    requires v < PAGE_LIMIT
    ensures v / Span(4) == 0 && v / Span(1) == v / 512
  {
  }

  // ----- the higher-half direct map -----

  /** The direct map's window holds all of physical memory. */
  predicate WindowOk(offset: nat, memory: nat) {
    offset < U64 && offset % 0x1000 == 0 && PageOfAddress(offset) * 0x1000 + memory <= PAGE_LIMIT * 0x1000
  }

  function PhysToVirt(offset: nat, phys: nat): nat {
    (phys + offset) % U64
  }

  /** The virtual page of frame f in the direct map. */
  function DirectPage(offset: nat, f: nat): nat {
    (PageOfAddress(offset) + f) % PAGE_LIMIT
  }

  lemma DirectPageOf(offset: nat, phys: nat)
    requires offset % 0x1000 == 0
    ensures PageOfAddress(PhysToVirt(offset, phys)) == DirectPage(offset, phys / 0x1000)
  {
    var s, o, p := phys + offset, offset / 0x1000, phys / 0x1000;
    var k, r := s / U64, s % U64;
    assert U64 == 0x10_0000_0000_0000 * 0x1000;
    assert s == k * U64 + r && s / 0x1000 == k * 0x10_0000_0000_0000 + r / 0x1000;
    assert s / 0x1000 == o + p;
    ModShift(r / 0x1000, k * 65536);
    assert (r / 0x1000) % PAGE_LIMIT == (o + p) % PAGE_LIMIT;
    ModShift(o % PAGE_LIMIT + p, o / PAGE_LIMIT);
  }

  /** Frames of memory fit the window and both number ranges. */
  lemma FitsWindow(offset: nat, memory: nat, f: nat)
    requires WindowOk(offset, memory) && f * 0x1000 < memory
    ensures f < PAGE_LIMIT && f % PAGE_LIMIT == f && f % FRAME_LIMIT == f
    ensures DirectPage(offset, f) == PageOfAddress(offset) + f < PAGE_LIMIT
    ensures f * 0x1000 / 0x1000 == f
  {
  }

  lemma ThereAndBack(offset: nat, a: nat)
    requires offset < U64 && offset % 0x1000 == 0 && a < U64 && a % 0x1000 == 0
    ensures (PhysToVirt(offset, a) + U64 - offset) % U64 == a
    ensures PhysToVirt(offset, a) % 0x1000 == 0
  {
    var s := a + offset;
    assert PhysToVirt(offset, a) == if s < U64 then s else s - U64;
  }

  lemma ModShift(x: nat, k: nat)
    ensures (x + k * PAGE_LIMIT) % PAGE_LIMIT == x % PAGE_LIMIT
  {
    assert x + k * PAGE_LIMIT == (x / PAGE_LIMIT + k) * PAGE_LIMIT + x % PAGE_LIMIT;
  }

  class Vmm {
    const pmm: Pmm
    const offset: nat         // the higher-half direct map puts physical address a at a + offset
    const keepFlag: bool      // false: the 1 GiB split as the code stands; true: the repaired one
    var tables: Tables
    var pml4: nat             // frame of the PML4 in use
    var initialised: bool
    ghost var shape: Shape    // the layout of the page map in use

    ghost predicate Valid()
      reads this, pmm, pmm.ram
    {
      && Ready()
      && (initialised ==> Owned(pml4, shape))
    }

    /** The allocator works, and all of memory fits in the direct map's window. */
    ghost predicate Ready()
      reads this, pmm, pmm.ram
    {
      pmm.Valid() && WindowOk(offset, pmm.ram.Length)
    }

    /** The tables of N form the page map at root, and none of them is a free frame. */
    ghost predicate Owned(root: nat, N: Shape)
      reads this, pmm
    {
      Tree(tables, root, N) && N.Values !! pmm.free
    }

    /** The state the boot loader leaves: its tables are in memory, and the VMM has
        not looked at them yet. */
    constructor (pmm: Pmm, offset: nat, keepFlag: bool, loaderTables: Tables)
      requires pmm.Valid()
      requires WindowOk(offset, pmm.ram.Length)
      ensures Valid() && !initialised
      ensures this.pmm == pmm && this.offset == offset && this.keepFlag == keepFlag && tables == loaderTables
    {
      this.pmm, this.offset, this.keepFlag := pmm, offset, keepFlag;
      tables, pml4, initialised, shape := loaderTables, 0, false, map[];
    }

    /** vmm_init: the page map in use is the one CR3 points at. */
    method Init(cr3: nat, ghost N: Shape)
      requires Valid() && Owned(cr3, N)
      modifies this`pml4, this`initialised, this`shape
      ensures Valid() && initialised && pml4 == cr3 && shape == N
    {
      pml4, initialised, shape := cr3, true, N;
    }

    /** pmm_allocz for a page table. */
    method NewTable() returns (g: nat)
      requires Ready() && pmm.free != {}
      modifies this`tables, pmm`allocatedPages, pmm`bits, pmm`free, pmm.ram
      ensures Ready()
      ensures g in old(pmm.free) && pmm.free == old(pmm.free) - {g}
      ensures tables == old(tables)[g := ZeroTable()]
      ensures g < FRAME_LIMIT
    {
      var address := pmm.AllocPhys();
      g := address / 0x1000;
      tables := tables[g := ZeroTable()];
      ghost var i :| 0 <= i < pmm.usablePages && Addr(pmm.regions, i) == Some(address);
      var _ := AddrInRegion(pmm.regions, i, pmm.ram.Length);
    }

    /** vmm_init_pt_entry, then the writable and present flags: an absent entry gets
        a zeroed frame of its own. */
    method FillEntry(f: nat, i: nat) returns (g: nat)
      requires Ready() && pmm.free != {} && f in tables && f !in pmm.free && i < 512
      modifies this`tables, pmm`allocatedPages, pmm`bits, pmm`free, pmm.ram
      ensures Ready()
      ensures g in old(pmm.free) && pmm.free == old(pmm.free) - {g} && g != f && g < FRAME_LIMIT
      ensures tables == WithNewTable(old(tables), f, i, g)
    {
      var e := tables[f][i];
      g := NewTable();
      e := SetAddress(e, g);
      e := e.(writable := true);
      e := e.(present := true);
      tables := tables[f := tables[f][i := e]];
    }

    /** Replaces a large leaf by a link to a new table with one leaf for each piece. */
    method SplitLeaf(f: nat, i: nat, level: nat) returns (g: nat)
      requires Ready() && pmm.free != {} && f in tables && f !in pmm.free && i < 512 && 2 <= level <= 3
      modifies this`tables, pmm`allocatedPages, pmm`bits, pmm`free, pmm.ram
      ensures Ready()
      ensures g in old(pmm.free) && pmm.free == old(pmm.free) - {g} && g != f && g < FRAME_LIMIT
      ensures tables == WithSplit(old(tables), f, i, level, g, keepFlag)
    {
      var base := tables[f][i].frame;
      g := NewTable();
      var newEntry := SetAddress(ZERO_ENTRY, g);
      newEntry := newEntry.(writable := true);
      newEntry := newEntry.(present := true);
      FillPieces(g, base, level);
      tables := tables[f := tables[f][i := newEntry]];
    }

    /** The loop that fills the new table with the 512 pieces. */
    method FillPieces(g: nat, base: nat, level: nat)
      requires g in tables && tables[g] == ZeroTable() && 2 <= level <= 3
      modifies this`tables
      ensures tables == old(tables)[g := SplitTable(level, base, keepFlag)]
    {
      for k := 0 to 512
        invariant g in tables && tables == old(tables)[g := tables[g]]
        invariant forall j :: 0 <= j < k ==> tables[g][j] == SplitPiece(level, base, keepFlag, j)
        invariant forall j :: k <= j < 512 ==> tables[g][j] == ZERO_ENTRY
      {
        var next := SetAddress(tables[g][k], base + k * Span(level - 2));
        next := next.(writable := true);
        next := next.(present := true);
        if keepFlag && level == 3 { next := next.(large := true); }
        assert next == SplitPiece(level, base, keepFlag, k);
        tables := tables[g := tables[g][k := next]];
      }
      assert tables[g] == SplitTable(level, base, keepFlag);
    }

    lemma FillGrew(t: Tables, root: nat, N: Shape, n: Node, i: nat, g: nat, F: set<nat>)
      requires Tree(t, root, N) && n in N && i < 512 && 2 <= n.level
      requires N[n] in t && !t[N[n]][i].present
      requires g in F && F !! N.Values && g < FRAME_LIMIT
      ensures g != N[n]
      ensures Grew(root, t, N, F, WithNewTable(t, N[n], i, g), N[Child(n, i) := g], F - {g})
      ensures SameLeaves(t, WithNewTable(t, N[n], i, g), root) && SameMeaning(t, WithNewTable(t, N[n], i, g), root)
      ensures var t' := WithNewTable(t, N[n], i, g);
              && N[n] in t' && t'[N[n]][i].present && !t'[N[n]][i].large
              && t'[N[n]][i].frame == g && g in t' && t'[g] == ZeroTable()
    {
      assert EntryOk(n.level, t[N[n]][i]) by { assert TableOk(t, N, n); }
      NewTableKeepsMeaning(t, root, N, n, i, g);
      GraftAddsNoGigabyte(t, root, N, n, i, g, WithNewTable(t, N[n], i, g));
      ValuesUpdate(N, Child(n, i), g);
      assert N[n] in N.Values;
    }

    lemma SplitGrew(t: Tables, root: nat, N: Shape, n: Node, i: nat, g: nat, F: set<nat>)
      requires Tree(t, root, N) && n in N && i < 512
      requires N[n] in t && IsLargeLeaf(n.level, t[N[n]][i])
      requires n.level == 2 || keepFlag
      requires g in F && F !! N.Values && g < FRAME_LIMIT
      ensures g != N[n]
      ensures Grew(root, t, N, F, WithSplit(t, N[n], i, n.level, g, keepFlag), N[Child(n, i) := g], F - {g})
      ensures SameMeaning(t, WithSplit(t, N[n], i, n.level, g, keepFlag), root)
    {
      SplitKeepsMeaning(t, root, N, n, i, g, keepFlag);
      SplitGrafts(t, root, N, n, i, g, keepFlag);
      GraftAddsNoGigabyte(t, root, N, n, i, g, WithSplit(t, N[n], i, n.level, g, keepFlag));
      ValuesUpdate(N, Child(n, i), g);
      assert N[n] in N.Values;
    }

    /** After a split the entry links to the new table, which has no links itself,
        unless a 1 GiB page was split without the flag. */
    lemma SplitSeen(t: Tables, f: nat, i: nat, level: nat, g: nat, keep: bool)
      requires f in t && i < 512 && g != f && g < FRAME_LIMIT && 2 <= level <= 3
      ensures var t' := WithSplit(t, f, i, level, g, keep);
        && f in t' && t'[f][i].present && !t'[f][i].large && t'[f][i].frame == g && g in t'
        && (level == 2 || keep ==> forall k :: 0 <= k < 512 ==> !IsLink(level - 1, t'[g][k]))
    {
    }

    /** `if(!(entry->value & PT_ENTRY_PRESENT))`: fills in a missing table. */
    method EnsurePresent(f: nat, i: nat, ghost root: nat, ghost N: Shape, ghost n: Node) returns (ghost N': Shape)
      requires Ready() && Owned(root, N)
      requires n in N && N[n] == f && 2 <= n.level <= 4 && i < 512
      requires f in tables && (tables[f][i].present || pmm.free != {})
      modifies this`tables, pmm`allocatedPages, pmm`bits, pmm`free, pmm.ram
      ensures Ready() && f in tables
      ensures old(tables)[f][i].present ==> tables == old(tables) && N' == N && pmm.free == old(pmm.free)
      ensures !old(tables)[f][i].present ==> |pmm.free| + 1 == |old(pmm.free)| && !tables[f][i].large
      ensures !old(tables)[f][i].present ==>
                tables[f][i].frame in tables && tables[tables[f][i].frame] == ZeroTable()
      ensures tables[f][i].present
      ensures Grew(root, old(tables), N, old(pmm.free), tables, N', pmm.free)
      ensures SameLeaves(old(tables), tables, root) && SameMeaning(old(tables), tables, root)
      ensures N' == N || N' == N[Child(n, i) := tables[f][i].frame]
    {
      hide Tree, Grew, SameLeaves, SameMeaning, WithNewTable, Ready, ZeroTable;
      AtNode(tables, root, N, n);
      GrewNothing(root, tables, N, pmm.free);
      N' := N;
      if !tables[f][i].present {
        var g := FillEntry(f, i);
        FillGrew(old(tables), root, N, n, i, g, old(pmm.free));
        N' := N[Child(n, i) := g];
      }
    }

    /** `if(entry->value & PT_ENTRY_LARGER_PAGES)`: splits a large page.  When it had
        to split a 1 GiB page without keeping the flag, the tables are no longer a
        page map (ok is false). */
    method EnsureSmall(f: nat, i: nat, level: nat, ghost root: nat, ghost N: Shape, ghost n: Node)
      returns (ok: bool, ghost N': Shape)
      requires Ready() && Owned(root, N)
      requires n in N && N[n] == f && n.level == level && 2 <= level <= 3 && i < 512
      requires f in tables && tables[f][i].present && (tables[f][i].large ==> pmm.free != {})
      modifies this`tables, pmm`allocatedPages, pmm`bits, pmm`free, pmm.ram
      ensures Ready() && f in tables && tables[f][i].present
      ensures !old(tables)[f][i].large ==> ok && tables == old(tables) && N' == N && pmm.free == old(pmm.free)
      ensures old(tables)[f][i].large ==> |pmm.free| + 1 == |old(pmm.free)| && pmm.free <= old(pmm.free)
      ensures ok <==> !(level == 3 && old(tables)[f][i].large && !keepFlag)
      ensures ok ==> !tables[f][i].large
      ensures ok && old(tables)[f][i].large ==>
                tables[f][i].frame in tables && forall k :: 0 <= k < 512 ==> !IsLink(level - 1, tables[tables[f][i].frame][k])
      ensures ok ==> Grew(root, old(tables), N, old(pmm.free), tables, N', pmm.free)
      ensures ok ==> SameMeaning(old(tables), tables, root)
      ensures !ok ==> forall M: Shape :: M.Values <= N.Values + (old(pmm.free) - pmm.free) ==> !Tree(tables, root, M)
    {
      hide Tree, Grew, SameMeaning, WithSplit;
      AtNode(tables, root, N, n);
      GrewNothing(root, tables, N, pmm.free);
      ok, N' := true, N;
      if tables[f][i].large {
        var g := SplitLeaf(f, i, level);
        SplitSeen(old(tables), f, i, level, g, keepFlag);
        if level == 3 && !keepFlag {
          FlaglessSplitBreaksTrees(old(tables), root, N, n, i, g);
          assert old(pmm.free) - pmm.free == {g};
          return false, N;
        }
        SplitGrew(old(tables), root, N, n, i, g, old(pmm.free));
        N' := N[Child(n, i) := g];
      }
    }

    /** Both of the above, then the link to the next table. */
    method Enter(f: nat, i: nat, level: nat, ghost root: nat, ghost N: Shape, ghost n: Node)
      returns (ok: bool, next: nat, ghost N': Shape)
      requires Ready() && Owned(root, N)
      requires n in N && N[n] == f && n.level == level && 2 <= level <= 4 && i < 512
      requires f in tables && (IsLink(level, tables[f][i]) || pmm.free != {})
      modifies this`tables, pmm`allocatedPages, pmm`bits, pmm`free, pmm.ram
      ensures Ready() && |pmm.free| + 1 >= |old(pmm.free)| && pmm.free <= old(pmm.free)
      ensures ok <==> !(level == 3 && IsLargeLeaf(3, old(tables)[f][i]) && !keepFlag)
      ensures ok ==> Grew(root, old(tables), N, old(pmm.free), tables, N', pmm.free)
      ensures ok ==> SameMeaning(old(tables), tables, root)
      ensures ok ==> Owned(root, N') && Child(n, i) in N' && N'[Child(n, i)] == next && next in tables
      ensures ok && IsLink(level, old(tables)[f][i]) ==>
                tables == old(tables) && next == old(tables)[f][i].frame && pmm.free == old(pmm.free)
      ensures ok && !IsLink(level, old(tables)[f][i]) ==>
                |pmm.free| + 1 == |old(pmm.free)| && forall k :: 0 <= k < 512 ==> !IsLink(level - 1, tables[next][k])
      ensures ok && !old(tables)[f][i].present ==> tables[next] == ZeroTable()
      ensures !ok ==> forall M: Shape :: M.Values <= N.Values + (old(pmm.free) - pmm.free) ==> !Tree(tables, root, M)
    {
      hide Tree, Grew, SameMeaning, SplitTable;
      AtNode(tables, root, N, n);
      N' := EnsurePresent(f, i, root, N, n);
      ghost var t1, N1, F1 := tables, N', pmm.free;
      ok := true;
      GrewOwned(root, old(tables), N, old(pmm.free), tables, N', pmm.free);
      AtNode(tables, root, N', n);
      if level <= 3 {
        ok, N' := EnsureSmall(f, i, level, root, N', n);
        if !ok { return false, 0, N; }
        GrewOwned(root, t1, N1, F1, tables, N', pmm.free);
        GrewStep(root, old(tables), N, old(pmm.free), t1, N1, F1, tables, N', pmm.free);
        SameMeaningStep(old(tables), t1, tables, root);
        AtNode(tables, root, N', n);
      }
      next := tables[f][i].frame;
      AtNode(tables, root, N', Child(n, i));
    }

    /** One level of the way down to the PT of page v, seen from the start of it. */
    method GoDown(f: nat, level: nat, v: nat, root: nat, ghost t0: Tables, ghost N0: Shape, ghost F0: set<nat>, ghost N: Shape)
      returns (ok: bool, next: nat, ghost N': Shape)
      requires Ready() && v < PAGE_LIMIT && 2 <= level <= 4
      requires Grew(root, t0, N0, F0, tables, N, pmm.free) && SameMeaning(t0, tables, root) && N0.Values !! F0
      requires Node(level, v / Span(level)) in N && N[Node(level, v / Span(level))] == f
      requires Needs(tables, f, level, v) <= |pmm.free|
      modifies this`tables, pmm`allocatedPages, pmm`bits, pmm`free, pmm.ram
      ensures Ready() && |pmm.free| + 1 >= |old(pmm.free)| && pmm.free <= old(pmm.free)
      ensures f in old(tables)
      ensures ok <==> !(level == 3 && IsLargeLeaf(3, old(tables)[f][Index(3, v)]) && !keepFlag)
      ensures ok ==> Grew(root, t0, N0, F0, tables, N', pmm.free) && SameMeaning(t0, tables, root)
      ensures ok ==>
                && Node(level - 1, v / Span(level - 1)) in N'
                && N'[Node(level - 1, v / Span(level - 1))] == next && next in tables
      ensures ok ==>
                |pmm.free| + Needs(old(tables), f, level, v) == |old(pmm.free)| + Needs(tables, next, level - 1, v)
      ensures ok && IsLink(level, old(tables)[f][Index(level, v)]) ==>
                tables == old(tables) && next == old(tables)[f][Index(level, v)].frame
      ensures ok && !old(tables)[f][Index(level, v)].present ==> tables[next] == ZeroTable()
      ensures !ok ==> forall M: Shape :: M.Values <= N0.Values + (F0 - pmm.free) ==> !Tree(tables, root, M)
    {
      hide Tree, Grew, SameMeaning, Ready, Needs, Index, Span, Child;
      ghost var n := Node(level, v / Span(level));
      GrewOwned(root, t0, N0, F0, tables, N, pmm.free);
      AtNode(tables, root, N, n);
      PathChild(level, v);
      NeedsFrame(tables, f, level, v, |pmm.free|);
      ghost var t1, F1 := tables, pmm.free;
      ok, next, N' := Enter(f, Index(level, v), level, root, N, n);
      if !ok {
        assert N.Values + (F1 - pmm.free) == N0.Values + (F0 - pmm.free);
        return;
      }
      GrewStep(root, t0, N0, F0, t1, N, F1, tables, N', pmm.free);
      SameMeaningStep(t0, t1, tables, root);
      NeedsStep(t1, tables, f, next, level, v, |F1|, |pmm.free|);
    }

    /** The common part of mapping and unmapping: goes down to the PT of page v,
        filling in missing tables and splitting large pages. */
    method Descend(v: nat, root: nat, ghost N: Shape) returns (ok: bool, pt: nat, ghost N': Shape)
      requires Ready() && Owned(root, N) && v < PAGE_LIMIT && Needs(tables, root, 4, v) <= |pmm.free|
      modifies this`tables, pmm`allocatedPages, pmm`bits, pmm`free, pmm.ram
      ensures Ready() && |pmm.free| + 3 >= |old(pmm.free)| && pmm.free <= old(pmm.free)
      ensures ok <==> keepFlag || !InGigabyteLeaf(old(tables), root, v)
      ensures ok ==> |pmm.free| + Needs(old(tables), root, 4, v) == |old(pmm.free)|
      ensures ok ==> Grew(root, old(tables), N, old(pmm.free), tables, N', pmm.free)
      ensures ok ==> SameMeaning(old(tables), tables, root)
      ensures ok ==> Owned(root, N') && Node(1, v / 512) in N' && N'[Node(1, v / 512)] == pt && pt in tables
      ensures !ok ==> forall M: Shape :: M.Values <= N.Values + (old(pmm.free) - pmm.free) ==> !Tree(tables, root, M)
    {
      hide Tree, Grew, SameMeaning, Ready, Needs, Index, Span, InGigabyteLeaf;
      RootNode(tables, root, N);
      GrewNothing(root, tables, N, pmm.free);
      Spans(v);
      var pdpt, pd;
      ok, pdpt, N' := GoDown(root, 4, v, root, tables, N, pmm.free, N);
      GigabyteSeen(old(tables), root, v, tables, pdpt);
      ok, pd, N' := GoDown(pdpt, 3, v, root, old(tables), N, old(pmm.free), N');
      if !ok { return false, 0, N; }
      ok, pt, N' := GoDown(pd, 2, v, root, old(tables), N, old(pmm.free), N');
      NeedsNone(tables, pt, v);
      GrewOwned(root, old(tables), N, old(pmm.free), tables, N', pmm.free);
    }

    /** vmm_virt_to_phys: the frame the walk finds, and below it the low 12 bits of
        the address when a large page maps it, or zeros when a 4 KiB page does. */
    method VirtToPhys(a: nat) returns (phys: nat)
      requires initialised ==> Tree(tables, pml4, shape)
      ensures !initialised ==> phys == U64_MAX
      ensures initialised ==>
                match Walk(tables, pml4, PageOfAddress(a))
                case Page(q) =>
                  && phys / 0x1000 == q && phys != U64_MAX
                  && phys % 0x1000 == (if EndsLarge(tables, pml4, 4, PageOfAddress(a)) then a % 0x1000 else 0)
                case _ => phys == U64_MAX
    {
      if !initialised { return U64_MAX; }
      ghost var v := PageOfAddress(a);
      WalkStays(tables, pml4, shape, Node(4, 0), v);
      IndexOfAddress(a, 4);
      IndexOfAddress(a, 3);
      IndexOfAddress(a, 2);
      IndexOfAddress(a, 1);
      var pml4Entry := tables[pml4][a / 0x80_0000_0000 % 512];
      if !pml4Entry.present { return U64_MAX; }
      var pdpt := pml4Entry.frame;
      var pdptEntry := tables[pdpt][a / 0x4000_0000 % 512];
      if !pdptEntry.present { return U64_MAX; }
      if pdptEntry.large {
        LargeOffset(a, 3);
        return pdptEntry.frame * 0x1000 + a % (0x1000 * 512 * 512);
      }
      var pd := pdptEntry.frame;
      var pdEntry := tables[pd][a / 0x20_0000 % 512];
      if !pdEntry.present { return U64_MAX; }
      if pdEntry.large {
        LargeOffset(a, 2);
        return pdEntry.frame * 0x1000 + a % (0x1000 * 512);
      }
      var pt := pdEntry.frame;
      var ptEntry := tables[pt][a / 0x1000 % 512];
      if !ptEntry.present { return U64_MAX; }
      return ptEntry.frame * 0x1000;
    }

    /** The frame a request to map physical address a is about. */
    function Target(a: nat): nat
      reads this
    {
      (if initialised then Convert(tables, pml4, a / 0x1000) else a / 0x1000) % FRAME_LIMIT
    }

    /** "Just in case": the physical argument, or what it is mapped to as a virtual
        address. */
    method ConvertAddress(a: nat) returns (physical: nat)
      requires initialised ==> Tree(tables, pml4, shape)
      ensures physical / 0x1000 == if initialised then Convert(tables, pml4, a / 0x1000) else a / 0x1000
      ensures physical / 0x1000 % FRAME_LIMIT == Target(a)
    {
      physical := a;
      var converted := VirtToPhys(physical);
      if converted != U64_MAX { physical := converted; }
    }

    /** A page map this VMM may work on: the one in use, or one that shares no table
        with it. */
    ghost predicate MayWorkOn(root: nat, N: Shape)
      reads this, pmm
    {
      && Owned(root, N)
      && (initialised && root == pml4 ==> N == shape)
      && (initialised && root != pml4 ==> N.Values !! shape.Values)
    }

    /** Bookkeeping after the map at root grew: the map in use is still in order. */
    ghost method Settle(root: nat, t0: Tables, N: Shape, F0: set<nat>, N': Shape)
      requires Ready()
      requires Grew(root, t0, N, F0, tables, N', pmm.free) && N.Values !! F0
      requires initialised && root == pml4 ==> N == shape
      requires initialised && root != pml4 ==> Tree(t0, pml4, shape) && shape.Values !! N.Values && shape.Values !! F0
      modifies this`shape
      ensures Valid() && MayWorkOn(root, N')
      ensures initialised ==> shape == (if root == pml4 then N' else old(shape))
      ensures initialised && root != pml4 ==> SameMeaning(t0, tables, pml4) && SameGigabytes(t0, tables, pml4)
    {
      GrewOwned(root, t0, N, F0, tables, N', pmm.free);
      if initialised && root != pml4 {
        OtherMapSafe(root, t0, N, F0, tables, N', pmm.free, pml4, shape);
      }
      if initialised && root == pml4 { shape := N'; }
    }

    /** The frame behind the physical argument, read as a virtual address, if the map in
        use has it mapped, and its own frame if not. */
    lemma TargetIs(a: nat)
      ensures Target(a) ==
              match if initialised then Walk(tables, pml4, a / 0x1000 % PAGE_LIMIT) else Unmapped
              case Page(q) => q % FRAME_LIMIT
              case _ => a / 0x1000 % FRAME_LIMIT
    {
      hide Walk;
    }

    /** vmm_map_page_pml4: a point update of the page map.  Page v goes to the
        converted frame and no other page is affected, whatever tables were missing
        and whatever large pages were in the way; at most three frames become
        tables.  It fails exactly when v lies in a 1 GiB page and the split does not
        keep the flag: then what is left is no page map of the VMM's own tables. */
    method MapPage(root: nat, physicalAddress: nat, virtualAddress: nat, flags: bv8, ghost N: Shape)
      returns (ok: bool, ghost N': Shape)
      requires Valid() && MayWorkOn(root, N) && Needs(tables, root, 4, PageOfAddress(virtualAddress)) <= |pmm.free|
      modifies this`tables, this`shape, pmm`allocatedPages, pmm`bits, pmm`free, pmm.ram
      ensures Ready() && |pmm.free| + 3 >= |old(pmm.free)| && pmm.free <= old(pmm.free)
      ensures ok ==> |pmm.free| + Needs(old(tables), root, 4, PageOfAddress(virtualAddress)) == |old(pmm.free)|
      ensures ok <==> keepFlag || !InGigabyteLeaf(old(tables), root, PageOfAddress(virtualAddress))
      ensures ok ==> Valid() && MayWorkOn(root, N')
      ensures ok ==> Grew(root, old(tables), N, old(pmm.free), tables, N', pmm.free)
      ensures ok ==> PointUpdate(old(tables), tables, root, PageOfAddress(virtualAddress), Page(old(Target(physicalAddress))))
      ensures ok ==> Walk(tables, root, PageOfAddress(virtualAddress)) ==
                     match old(if initialised then Walk(tables, pml4, physicalAddress / 0x1000 % PAGE_LIMIT) else Unmapped)
                     case Page(q) => Page(q % FRAME_LIMIT)
                     case _ => Page(physicalAddress / 0x1000 % FRAME_LIMIT)
      ensures ok ==> HasLeaf(tables, N', PageOfAddress(virtualAddress), MappedEntry(old(Target(physicalAddress)), flags))
      ensures ok && flags & 0x7E == 2 ==> Opens(old(tables), tables, root, PageOfAddress(virtualAddress))
      ensures ok ==> !InGigabyteLeaf(tables, root, PageOfAddress(virtualAddress))
      ensures ok && initialised ==> shape == (if root == pml4 then N' else old(shape))
      ensures ok && initialised && root != pml4 ==>
                SameMeaning(old(tables), tables, pml4) && SameGigabytes(old(tables), tables, pml4)
      ensures !ok ==> forall M: Shape :: M.Values <= N.Values + (old(pmm.free) - pmm.free) ==> !Tree(tables, root, M)
    {
      hide Tree, Grew, SameMeaning, SameGigabytes, PointUpdate, HasLeaf, Walk, Target, MappedEntry, OrFlags, Opens, OpenEntry;
      TargetIs(physicalAddress);
      var physical := ConvertAddress(physicalAddress);
      var v := PageOfAddress(virtualAddress);
      var pt;
      ok, pt, N' := Descend(v, root, N);
      if !ok { return; }
      MappedEntryIs(physical / 0x1000, flags);
      WritableFlags(physical / 0x1000 % FRAME_LIMIT, flags);
      var newEntry := SetAddress(ZERO_ENTRY, physical / 0x1000);
      newEntry := OrFlags(newEntry, flags);
      newEntry := newEntry.(present := true);
      GrewThenWrote(root, old(tables), N, old(pmm.free), tables, N', pmm.free, v, newEntry);
      tables := WithEntry(tables, pt, v % 512, newEntry);
      Settle(root, old(tables), N, old(pmm.free), N');
      PointShown(old(tables), tables, root, v, Page(old(Target(physicalAddress))));
    }

    /** vmm_unmap_page: a point deletion, by the same descent. */
    method UnmapPage(virtualAddress: nat) returns (ok: bool)
      requires Valid() && initialised && Needs(tables, pml4, 4, PageOfAddress(virtualAddress)) <= |pmm.free|
      modifies this`tables, this`shape, pmm`allocatedPages, pmm`bits, pmm`free, pmm.ram
      ensures Ready() && |pmm.free| + 3 >= |old(pmm.free)| && pmm.free <= old(pmm.free)
      ensures ok ==> |pmm.free| + Needs(old(tables), pml4, 4, PageOfAddress(virtualAddress)) == |old(pmm.free)|
      ensures ok <==> keepFlag || !InGigabyteLeaf(old(tables), pml4, PageOfAddress(virtualAddress))
      ensures ok ==> Valid()
      ensures ok ==> Grew(pml4, old(tables), old(shape), old(pmm.free), tables, shape, pmm.free)
      ensures ok ==> PointUpdate(old(tables), tables, pml4, PageOfAddress(virtualAddress), Unmapped)
      ensures ok ==> HasLeaf(tables, shape, PageOfAddress(virtualAddress), ZERO_ENTRY)
      ensures ok ==> Opens(old(tables), tables, pml4, PageOfAddress(virtualAddress))
      ensures !ok ==> forall M: Shape :: M.Values <= old(shape).Values + (old(pmm.free) - pmm.free) ==> !Tree(tables, pml4, M)
    {
      hide Tree, Grew, SameMeaning, SameGigabytes, PointUpdate, HasLeaf, Opens;
      var v := PageOfAddress(virtualAddress);
      ghost var N';
      var pt;
      ok, pt, N' := Descend(v, pml4, shape);
      if !ok { return; }
      GrewThenWrote(pml4, old(tables), shape, old(pmm.free), tables, N', pmm.free, v, ZERO_ENTRY);
      tables := WithEntry(tables, pt, v % 512, ZERO_ENTRY);
      Settle(pml4, old(tables), shape, old(pmm.free), N');
    }

    /** A request for a writable page, and nothing else, makes an open entry. */
    lemma WritableFlags(p: nat, flags: bv8)
      ensures flags & 0x7E == 2 ==> OpenEntry(MappedEntry(p, flags))
    {
      NoOtherBits(flags);
    }

    lemma NoOtherBits(flags: bv8)
      ensures flags & 0x7E == 2 ==> flags & 2 != 0 && (0 as bv64 | ((flags & 0x7C) as bv64)) == 0
    {
    }

    lemma LeafNeedsNothing(t: Tables, root: nat, N: Shape, v: nat, e: Entry)
      requires Tree(t, root, N) && v < PAGE_LIMIT && HasLeaf(t, N, v, e)
      ensures Needs(t, root, 4, v) == 0
    {
      NeedsReaches(t, root, N, Node(1, v / 512), v);
    }

    /** Mapping an unmapped page and unmapping it again restores the translation. */
    method MapThenUnmap(physicalAddress: nat, virtualAddress: nat, flags: bv8)
      requires Valid() && initialised && Needs(tables, pml4, 4, PageOfAddress(virtualAddress)) <= |pmm.free|
      requires keepFlag || !InGigabyteLeaf(tables, pml4, PageOfAddress(virtualAddress))
      requires Walk(tables, pml4, PageOfAddress(virtualAddress)) == Unmapped
      modifies this`tables, this`shape, pmm`allocatedPages, pmm`bits, pmm`free, pmm.ram
      ensures Valid() && SameMeaning(old(tables), tables, pml4)
    {
      hide Tree, Grew, SameMeaning, PointUpdate, InGigabyteLeaf, Opens;
      var ok;
      ghost var N';
      ok, N' := MapPage(pml4, physicalAddress, virtualAddress, flags, shape);
      ghost var t1 := tables;
      LeafNeedsNothing(tables, pml4, shape, PageOfAddress(virtualAddress),
                       MappedEntry(old(Target(physicalAddress)), flags));
      ok := UnmapPage(virtualAddress);
      UnmapUndoesMap(old(tables), t1, tables, pml4, PageOfAddress(virtualAddress), Page(old(Target(physicalAddress))));
    }

    // ----- giving frames out and taking them back -----

    lemma UsableFits(f: nat)
      requires Ready() && pmm.Usable(f)
      ensures 0 < f < PAGE_LIMIT && f % PAGE_LIMIT == f && f % FRAME_LIMIT == f
      ensures DirectPage(offset, f) == PageOfAddress(offset) + f < PAGE_LIMIT
      ensures PageOfAddress(PhysToVirt(offset, f * 0x1000)) == DirectPage(offset, f)
    {
      pmm.UsableInMemory(f);
      FitsWindow(offset, pmm.ram.Length, f);
      DirectPageOf(offset, f * 0x1000);
    }

    lemma LentFits(f: nat)
      requires Ready() && pmm.Lends(f)
      ensures pmm.Usable(f) && 0 < f < PAGE_LIMIT && f % PAGE_LIMIT == f && f % FRAME_LIMIT == f
      ensures DirectPage(offset, f) == PageOfAddress(offset) + f < PAGE_LIMIT
      ensures PageOfAddress(PhysToVirt(offset, f * 0x1000)) == DirectPage(offset, f)
      ensures !IsBitmapFrame(f) && Returned(Some(f)) == {f}
    {
      UsableFits(f);
    }

    /** pmm_alloc: the direct-map address of the lowest free page.  With no page free
        it is the direct-map address of physical address 0. */
    method Alloc() returns (page: nat, ghost f: nat)
      requires Valid()
      modifies pmm`allocatedPages, pmm`bits, pmm`free, pmm.ram
      ensures Valid()
      ensures page == PhysToVirt(offset, f * 0x1000) && PageOfAddress(page) == DirectPage(offset, f)
      ensures old(pmm.free) == {} ==> f == 0 && pmm.free == {}
      ensures old(pmm.free) != {} ==> f in old(pmm.free) && pmm.free == old(pmm.free) - {f}
      ensures old(pmm.free) != {} ==> exists k :: pmm.FirstInMap(f * 0x1000, old(pmm.free), k)
    {
      hide Pmm.Valid, Pmm.Bit, Pmm.InBitmap, Pmm.FirstInMap, Tree, Addr, PageOfAddress, DirectPage, PhysToVirt;
      var phys := pmm.AllocPhys();
      f := phys / 0x1000;
      assert f * 0x1000 == phys;
      DirectPageOf(offset, phys);
      page := PhysToVirt(offset, phys);
    }

    /** The frame a client's address stands for. */
    ghost function FrameBehind(page: nat): Option<nat>
      reads this
      requires offset < U64
    {
      if initialised then
        match Walk(tables, pml4, PageOfAddress(page)) case Page(q) => Some(q) case _ => None
      else Some((page + U64 - offset) % U64 / 0x1000)
    }

    /** pmm_virt_to_phys. */
    method PmmVirtToPhys(virt: nat) returns (phys: nat)
      requires initialised ==> Tree(tables, pml4, shape)
      requires offset < U64
      ensures phys != U64_MAX ==> FrameBehind(virt) == Some(phys / 0x1000)
      ensures phys == U64_MAX ==> FrameBehind(virt) == if initialised then None else Some(U64_MAX / 0x1000)
      ensures initialised && phys != U64_MAX && virt % 0x1000 == 0 ==> phys % 0x1000 == 0
      ensures !initialised ==> phys == (virt + U64 - offset) % U64
    {
      if initialised {
        phys := VirtToPhys(virt);
        return;
      }
      return (virt + U64 - offset) % U64;
    }

    /** What pmm_free gives back: the frame, when it is one that clients are lent. */
    ghost function Returned(q: Option<nat>): set<nat> {
      match q case Some(f) => (if pmm.Lends(f) then {f} else {}) case None => {}
    }

    lemma NothingReturned(q: Option<nat>)
      requires Ready()
      ensures q == None || q == Some(U64_MAX / 0x1000) ==> Returned(q) == {}
      ensures q.Some? ==> Returned(q) <= {q.value}
      ensures q.Some? && IsBitmapFrame(q.value) ==> Returned(q) == {}
    {
      pmm.FreeIsLent(U64_MAX / 0x1000);
    }

    lemma ReturnedIs(f: nat)
      ensures pmm.Lends(f) ==> Returned(Some(f)) == {f} && !IsBitmapFrame(f)
      ensures !pmm.Lends(f) ==> Returned(Some(f)) == {}
    {
    }

    /** With frame q back, there are frames enough for the tables its remapping takes. */
    ghost predicate CanAfford(q: nat)
      reads this, pmm
    {
      IsBitmapFrame(q) || Needs(tables, pml4, 4, DirectPage(offset, q)) <= |pmm.free + Returned(Some(q))|
    }

    /** pmm_free has to split a 1 GiB page of the direct map without the flag. */
    ghost predicate CannotRemap(t: Tables, q: nat)
      reads this
    {
      !keepFlag && !IsBitmapFrame(q) && InGigabyteLeaf(t, pml4, DirectPage(offset, q))
    }

    /** The frame holds a table of the map in use, of those that clients can be lent:
        pmm_free would free it under the map. */
    ghost predicate FreesTable(N: Shape, q: nat) {
      q in N.Values && pmm.Lends(q)
    }

    /** What pmm_free does to the translations once it knows the frame. */
    ghost predicate Remapped(t: Tables, t': Tables, q: nat)
      reads this
    {
      if IsBitmapFrame(q) then t' == t
      else
        && PointUpdate(t, t', pml4, DirectPage(offset, q), Page(Convert(t, pml4, q) % FRAME_LIMIT))
        && Opens(t, t', pml4, DirectPage(offset, q))
    }

    /** pmm_free.  Clears the frame's bit, unless it is a bitmap page, and then maps
        the frame's direct-map page again: to the frame, or to whatever the frame's
        number is mapped to as a virtual page.  It leaves a page map behind exactly
        when the frame is no table of it, and the remapping need not split a 1 GiB page
        without the flag.  A freed table is where the model stops, before the
        remapping. */
    method Free(page: nat) returns (ok: bool)
      requires Valid()
      requires initialised && FrameBehind(page).Some? ==>
                 FreesTable(shape, FrameBehind(page).value) || CanAfford(FrameBehind(page).value)
      modifies this`tables, this`shape, pmm`allocatedPages, pmm`bits, pmm`free, pmm.ram
      ensures Ready()
      ensures ok ==> Valid()
      ensures !initialised ==> ok && pmm.free == old(pmm.free) + Returned(old(FrameBehind(page))) && tables == old(tables)
      ensures initialised && ok ==>
                && Grew(pml4, old(tables), old(shape), old(pmm.free) + Returned(old(FrameBehind(page))), tables, shape, pmm.free)
                && |pmm.free| + 3 >= |old(pmm.free) + Returned(old(FrameBehind(page)))|
      ensures initialised && ok && old(FrameBehind(page)).Some? && !IsBitmapFrame(old(FrameBehind(page)).value) ==>
                |pmm.free| + Needs(old(tables), pml4, 4, DirectPage(offset, old(FrameBehind(page)).value)) ==
                |old(pmm.free) + Returned(old(FrameBehind(page)))|
      ensures initialised && ok && old(FrameBehind(page)).Some? && !IsBitmapFrame(old(FrameBehind(page)).value) ==>
                var f := old(FrameBehind(page)).value;
                HasLeaf(tables, shape, DirectPage(offset, f), MappedEntry(Convert(old(tables), pml4, f) % FRAME_LIMIT, 2))
      ensures initialised && ok && old(FrameBehind(page)) == None ==> tables == old(tables) && pmm.free == old(pmm.free)
      ensures initialised && ok && old(FrameBehind(page)).Some? ==>
                Remapped(old(tables), tables, old(FrameBehind(page)).value)
      ensures initialised && ok && old(FrameBehind(page)).Some? && IsBitmapFrame(old(FrameBehind(page)).value) ==>
                pmm.free == old(pmm.free)
      ensures ok <==> !(initialised && old(FrameBehind(page)).Some?
                        && (FreesTable(old(shape), old(FrameBehind(page)).value)
                            || CannotRemap(old(tables), old(FrameBehind(page)).value)))
      ensures initialised && old(FrameBehind(page)).Some? && FreesTable(old(shape), old(FrameBehind(page)).value) ==>
                !Valid() && tables == old(tables) && pmm.free == old(pmm.free) + {old(FrameBehind(page)).value}
    {
      ghost var q := FrameBehind(page);
      NothingReturned(q);
      hide Tree, Grew, FrameBehind, Returned, Remapped, CannotRemap, FreesTable, CanAfford, HasLeaf, MappedEntry, Convert;
      var phys := PmmVirtToPhys(page);
      if phys == U64_MAX {
        if initialised { GrewNothing(pml4, tables, shape, pmm.free); }
        assert pmm.free + {} == pmm.free;
        return true;
      }
      if initialised {
        ok := GiveBack(phys);
      } else {
        var _ := ClearFrame(phys);
        ok := true;
      }
    }

    /** The rest of pmm_free, for a physical address and with the VMM at work. */
    method GiveBack(phys: nat) returns (ok: bool)
      requires Valid() && initialised && phys != U64_MAX
      requires FreesTable(shape, phys / 0x1000) || CanAfford(phys / 0x1000)
      modifies this`tables, this`shape, pmm`allocatedPages, pmm`bits, pmm`free, pmm.ram
      ensures Ready()
      ensures ok ==> Valid()
      ensures ok ==> Grew(pml4, old(tables), old(shape), old(pmm.free) + Returned(Some(phys / 0x1000)), tables, shape, pmm.free)
      ensures ok ==> |pmm.free| + 3 >= |old(pmm.free) + Returned(Some(phys / 0x1000))|
      ensures ok && !IsBitmapFrame(phys / 0x1000) ==>
                |pmm.free| + Needs(old(tables), pml4, 4, DirectPage(offset, phys / 0x1000)) ==
                |old(pmm.free) + Returned(Some(phys / 0x1000))|
      ensures ok ==> Remapped(old(tables), tables, phys / 0x1000)
      ensures ok && !IsBitmapFrame(phys / 0x1000) ==>
                HasLeaf(tables, shape, DirectPage(offset, phys / 0x1000),
                        MappedEntry(Convert(old(tables), pml4, phys / 0x1000) % FRAME_LIMIT, 2))
      ensures ok && IsBitmapFrame(phys / 0x1000) ==> pmm.free == old(pmm.free)
      ensures ok <==> !FreesTable(old(shape), phys / 0x1000) && !CannotRemap(old(tables), phys / 0x1000)
      ensures FreesTable(old(shape), phys / 0x1000) ==>
                !Valid() && tables == old(tables) && pmm.free == old(pmm.free) + {phys / 0x1000}
    {
      NothingReturned(Some(phys / 0x1000));
      ReturnedIs(phys / 0x1000);
      RootLeadsTo(tables, pml4, shape, phys / 0x1000);
      hide Tree, Grew, Remapped, CannotRemap, DirectPage, Returned, IsBitmapFrame, WindowOk, Pmm.Lends, LeadsTo, Needs,
           HasLeaf, MappedEntry, Convert;
      var lent, _ := pmm.StateOf(phys);
      var cleared := ClearFrame(phys);
      if lent && LeadsTo(tables, pml4, 4, phys / 0x1000) {
        return false;
      }
      if !cleared {
        assert pmm.free == old(pmm.free);
        GrewNothing(pml4, tables, shape, pmm.free);
        return true;
      }
      ok := MapBack(phys);
    }

    /** The last line of pmm_free. */
    method MapBack(phys: nat) returns (ok: bool)
      requires Valid() && initialised && !IsBitmapFrame(phys / 0x1000)
      requires Needs(tables, pml4, 4, DirectPage(offset, phys / 0x1000)) <= |pmm.free|
      modifies this`tables, this`shape, pmm`allocatedPages, pmm`bits, pmm`free, pmm.ram
      ensures Ready()
      ensures ok ==> Valid()
      ensures ok ==> Grew(pml4, old(tables), old(shape), old(pmm.free), tables, shape, pmm.free)
      ensures ok ==> |pmm.free| + 3 >= |old(pmm.free)|
      ensures ok ==>
                |pmm.free| + Needs(old(tables), pml4, 4, DirectPage(offset, phys / 0x1000)) == |old(pmm.free)|
      ensures ok ==> Remapped(old(tables), tables, phys / 0x1000)
      ensures ok ==> HasLeaf(tables, shape, DirectPage(offset, phys / 0x1000),
                             MappedEntry(Convert(old(tables), pml4, phys / 0x1000) % FRAME_LIMIT, 2))
      ensures ok <==> !CannotRemap(old(tables), phys / 0x1000)
    {
      DirectPageOf(offset, phys);
      hide Tree, Grew, PointUpdate, InGigabyteLeaf, Convert, PhysToVirt, DirectPage, IsBitmapFrame, Pmm.Lends, Needs,
           HasLeaf, MappedEntry, Opens;
      ghost var N';
      ok, N' := MapPage(pml4, phys, PhysToVirt(offset, phys), 2, shape);
    }

    /** The part of pmm_free that deals with the bitmap. */
    method ClearFrame(phys: nat) returns (cleared: bool)
      requires Ready() && phys != U64_MAX
      modifies pmm`allocatedPages, pmm`bits, pmm`free, pmm.ram
      ensures Ready()
      ensures pmm.free == old(pmm.free) + Returned(Some(phys / 0x1000))
      ensures cleared <==> !IsBitmapFrame(phys / 0x1000)
    {
      var index := pmm.GetIndexByAddress(phys);
      IdxOfPageStart(pmm.regions, phys, pmm.ram.Length);
      assert phys - phys % 0x1000 == phys / 0x1000 * 0x1000;
      pmm.FreeIsLent(phys / 0x1000);
      if Idx(pmm.regions, phys).Some? { AddrOfIdx(pmm.regions, phys, pmm.ram.Length); }
      cleared := index >= pmm.bitmapPages;
      if cleared {
        pmm.SetAllocated(index, false);
      }
    }

    /** One of the frames the bitmap is kept in. */
    ghost predicate IsBitmapFrame(f: nat) {
      match Idx(pmm.regions, f * 0x1000)
      case Some(i) => i < pmm.bitmapPages
      case None => false
    }

    /** vmm_set_pml4: another page map comes into use. */
    method SetPml4(root: nat, ghost N: Shape)
      requires Valid() && initialised && Owned(root, N)
      modifies this`pml4, this`shape
      ensures Valid() && pml4 == root && shape == N
    {
      pml4, shape := root, N;
    }
  }
}
