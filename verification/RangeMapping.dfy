/** The range mapper: builds a second page map, beside the one in use, out of the
    largest leaves that fit. */
module RangeMapping {
  import opened Arithmetic
  import opened MemoryMap
  import opened FrameAllocator
  import opened PageTables
  import opened VirtualMemory
  import opened Ownership
  import opened RangePlan

  // ----- a page map under construction -----

  /** The page map in use is in order and shows the direct map, and the frames of K,
      all lent, are neither free nor tables of it. */
  ghost predicate Apart(vmm: Vmm, K: set<nat>)
    reads vmm, vmm.pmm, vmm.pmm.ram
  {
    && vmm.Valid() && vmm.initialised
    && K !! vmm.pmm.free && K !! vmm.shape.Values
    && (forall f :: f in K ==> vmm.pmm.Lends(f))
    && DirectMapped(vmm, vmm.tables, vmm.pml4)
    && SplitsAreSafe(vmm)
  }

  /** What the construction of a page map has to account for: the frames that were
      free or tables of the map in use, and the tables, when it began; the frames
      handed to new leaves and then overwritten; and the tables that a 1 GiB leaf took
      the place of without freeing them. */
  datatype Ledger = Ledger(pool: set<nat>, before: Tables, handed: set<nat>, lost: set<nat>)

  /** The frames of the pool are free, or tables of the map in use, or in K, and the
      map in use translates as it did. */
  ghost predicate Taken(vmm: Vmm, K: set<nat>, w: Ledger)
    reads vmm, vmm.pmm, vmm.pmm.ram
  {
    && Apart(vmm, K)
    && w.pool == vmm.pmm.free + vmm.shape.Values + K
    && SameMeaning(w.before, vmm.tables, vmm.pml4)
  }

  ghost predicate Disjoint(N: Shape, w: Ledger) {
    N.Values !! w.handed && N.Values !! w.lost && w.handed !! w.lost
  }

  /** A second page map, at root, being built from lent frames, all accounted for. */
  ghost predicate Building(vmm: Vmm, root: nat, N: Shape, w: Ledger)
    reads vmm, vmm.pmm, vmm.pmm.ram
  {
    && Taken(vmm, N.Values + w.handed + w.lost, w) && Disjoint(N, w)
    && root != vmm.pml4 && Tree(vmm.tables, root, N)
  }

  /** The frames of K hold what they held. */
  ghost predicate Kept(t: Tables, t': Tables, K: set<nat>) {
    forall f :: f in K && f in t ==> f in t' && t'[f] == t[f]
  }

  lemma KeptStep(t0: Tables, t1: Tables, t2: Tables, K: set<nat>, K': set<nat>)
    requires Kept(t0, t1, K) && Kept(t1, t2, K') && K' <= K
    ensures Kept(t0, t2, K')
  {
  }

  /** The frames of `gone` are tables at or below c. */
  ghost predicate FramesBelow(N: Shape, c: Node, gone: set<nat>) {
    forall f :: f in gone ==> exists d :: d in N && Below(c, d) && N[d] == f
  }

  /** Nothing maps through this entry if the page is unmapped. */
  lemma UnmappedHere(t: Tables, root: nat, N: Shape, n: Node, v: nat)
    requires Tree(t, root, N) && n in N && n.level <= 4 && v < PAGE_LIMIT && OnPath(n, v)
    requires LeafOf(t, root, v) == NoLeaf
    ensures N[n] in t && !IsLargeLeaf(n.level, t[N[n]][Index(n.level, v)])
    ensures n.level == 1 ==> !t[N[n]][Index(1, v)].present
  {
    WalkThrough(t, root, N, n, Index(n.level, v), v);
    AtNode(t, root, N, n);
  }

  /** Growth of the new map, seen from the map in use. */
  lemma BuildingGrew(vmm: Vmm, root: nat, t: Tables, N: Shape, F: set<nat>, N': Shape, w: Ledger)
    requires vmm.Valid() && vmm.initialised && root != vmm.pml4 && vmm.MayWorkOn(root, N')
    requires N'.Values !! vmm.shape.Values
    requires Grew(root, t, N, F, vmm.tables, N', vmm.pmm.free)
    requires SameMeaning(t, vmm.tables, vmm.pml4) && SameGigabytes(t, vmm.tables, vmm.pml4)
    requires w.pool == F + vmm.shape.Values + (N.Values + w.handed + w.lost) && SameMeaning(w.before, t, vmm.pml4)
    requires (N.Values + w.handed + w.lost) !! F && (N.Values + w.handed + w.lost) !! vmm.shape.Values && Disjoint(N, w)
    requires forall f :: f in N.Values || f in w.handed || f in w.lost || f in F ==> vmm.pmm.Lends(f)
    requires DirectMapped(vmm, t, vmm.pml4)
    requires vmm.keepFlag || forall v: nat :: v < PAGE_LIMIT ==> !InGigabyteLeaf(t, vmm.pml4, v)
    ensures Building(vmm, root, N', w)
  {
    hide Tree, DirectMapped, Walk, InGigabyteLeaf, WindowOk, Pmm.Lends;
    GrewOwnedBy(root, t, N, F, vmm.tables, N', vmm.pmm.free);
    DirectMapKept(vmm, t, vmm.tables, vmm.pml4);
    SameMeaningStep(w.before, t, vmm.tables, vmm.pml4);
  }

  lemma GrewOwnedBy(root: nat, t0: Tables, N0: Shape, F0: set<nat>, t1: Tables, N1: Shape, F1: set<nat>)
    requires Grew(root, t0, N0, F0, t1, N1, F1)
    ensures Tree(t1, root, N1) && F1 <= F0 && N1.Values == N0.Values + (F0 - F1)
  {
  }

  lemma FramesLent(vmm: Vmm)
    requires vmm.pmm.Valid()
    ensures forall f :: f in vmm.pmm.free ==> vmm.pmm.Lends(f)
  {
    forall f | f in vmm.pmm.free ensures vmm.pmm.Lends(f) {
      vmm.pmm.FreeIsLent(f);
    }
  }

  // ----- steps of the construction -----

  /** One of the `if(!(entry->value & PT_ENTRY_PRESENT))` blocks for the tables: makes
      sure the entry links to a table and follows the link. */
  method Link(vmm: Vmm, f: nat, i: nat, ghost root: nat, ghost N: Shape, ghost n: Node, ghost w: Ledger)
    returns (next: nat, ghost N': Shape)
    requires Building(vmm, root, N, w) && vmm.pmm.free != {}
    requires n in N && N[n] == f && 2 <= n.level <= 4 && i < 512
    requires f in vmm.tables && !IsLargeLeaf(n.level, vmm.tables[f][i])
    modifies vmm`tables, vmm`shape, vmm.pmm`allocatedPages, vmm.pmm`bits, vmm.pmm`free, vmm.pmm.ram
    ensures Building(vmm, root, N', w)
    ensures |vmm.pmm.free| + 1 >= |old(vmm.pmm.free)|
    ensures Child(n, i) in N' && N'[Child(n, i)] == next && next in vmm.tables
    ensures N' == N || N' == N[Child(n, i) := next]
    ensures forall m :: m in N ==> m in N' && N'[m] == N[m]
    ensures SameLeaves(old(vmm.tables), vmm.tables, root)
  {
    hide Tree, Grew, SameMeaning, SameLeaves, SameGigabytes, InGigabyteLeaf, DirectMapped, WindowOk, Pmm.Lends, Building,
         Disjoint, Pmm.Valid, LeafOf, ZeroTable;
    BuildingFacts(vmm, root, N, w);
    N' := vmm.EnsurePresent(f, i, root, N, n);
    vmm.Settle(root, old(vmm.tables), N, old(vmm.pmm.free), N');
    BuildingGrew(vmm, root, old(vmm.tables), N, old(vmm.pmm.free), N', w);
    GrewOwned(root, old(vmm.tables), N, old(vmm.pmm.free), vmm.tables, N', vmm.pmm.free);
    next := vmm.tables[f][i].frame;
    AtNode(vmm.tables, root, N', n);
    AtNode(vmm.tables, root, N', Child(n, i));
  }

  /** What construction relies on, in one place. */
  lemma BuildingFacts(vmm: Vmm, root: nat, N: Shape, w: Ledger)
    requires Building(vmm, root, N, w)
    ensures vmm.Valid() && vmm.initialised && root != vmm.pml4 && vmm.Owned(root, N)
    ensures N.Values !! vmm.shape.Values && Disjoint(N, w)
    ensures w.pool == vmm.pmm.free + vmm.shape.Values + (N.Values + w.handed + w.lost)
    ensures (N.Values + w.handed + w.lost) !! vmm.pmm.free && (N.Values + w.handed + w.lost) !! vmm.shape.Values
    ensures forall f :: f in N.Values || f in w.handed || f in w.lost || f in vmm.pmm.free ==> vmm.pmm.Lends(f)
    ensures DirectMapped(vmm, vmm.tables, vmm.pml4) && SameMeaning(w.before, vmm.tables, vmm.pml4)
    ensures vmm.keepFlag || forall v: nat :: v < PAGE_LIMIT ==> !InGigabyteLeaf(vmm.tables, vmm.pml4, v)
    ensures Tree(vmm.tables, vmm.pml4, vmm.shape) && vmm.shape.Values !! vmm.pmm.free
  {
    hide Tree, DirectMapped, SameMeaning, InGigabyteLeaf, WindowOk, Pmm.Lends;
    FramesLent(vmm);
  }

  /** What happened outside the map in use does not concern it. */
  lemma StillApart(vmm: Vmm, t: Tables, F: set<nat>, K: set<nat>, K': set<nat>)
    requires vmm.Ready() && vmm.initialised
    requires Tree(t, vmm.pml4, vmm.shape) && vmm.shape.Values !! F && vmm.pmm.free <= F
    requires K' !! vmm.pmm.free && K' <= K && K !! vmm.shape.Values && (forall f :: f in K ==> vmm.pmm.Lends(f))
    requires DirectMapped(vmm, t, vmm.pml4)
    requires vmm.keepFlag || forall v: nat :: v < PAGE_LIMIT ==> !InGigabyteLeaf(t, vmm.pml4, v)
    requires forall f :: f in t && f in vmm.shape.Values ==> f in vmm.tables && vmm.tables[f] == t[f]
    ensures Apart(vmm, K')
    ensures SameMeaning(t, vmm.tables, vmm.pml4)
  {
    forall n | n in vmm.shape ensures vmm.shape[n] in t && vmm.shape[n] in vmm.tables && vmm.tables[vmm.shape[n]] == t[vmm.shape[n]] {
      AtNode(t, vmm.pml4, vmm.shape, n);
    }
    FrameRule(t, vmm.pml4, vmm.shape, vmm.tables);
    DirectMapKept(vmm, t, vmm.tables, vmm.pml4);
  }

  /** Accounts that hold before hold after, when the frames named changed hands. */
  lemma StillTaken(vmm: Vmm, t: Tables, F: set<nat>, K: set<nat>, K': set<nat>, w: Ledger)
    requires vmm.Ready() && vmm.initialised
    requires Tree(t, vmm.pml4, vmm.shape) && vmm.shape.Values !! F && vmm.pmm.free <= F
    requires K' !! vmm.pmm.free && K' !! vmm.shape.Values && (forall f :: f in K' ==> vmm.pmm.Lends(f))
    requires DirectMapped(vmm, t, vmm.pml4) && SameMeaning(w.before, t, vmm.pml4)
    requires vmm.keepFlag || forall v: nat :: v < PAGE_LIMIT ==> !InGigabyteLeaf(t, vmm.pml4, v)
    requires forall f :: f in t && f in vmm.shape.Values ==> f in vmm.tables && vmm.tables[f] == t[f]
    requires w.pool == F + vmm.shape.Values + K && F + K == vmm.pmm.free + K'
    ensures Taken(vmm, K', w)
  {
    hide Tree, DirectMapped, SameMeaning, InGigabyteLeaf, WindowOk, Pmm.Lends;
    StillApart(vmm, t, F, K', K');
    SameMeaningStep(w.before, t, vmm.tables, vmm.pml4);
  }

  /** A PT entry of the new map is given a frame of its own, for the time being. */
  method AddLeaf(vmm: Vmm, pt: nat, i: nat, ghost v: nat, ghost root: nat, ghost N: Shape, ghost w: Ledger)
    returns (ghost g: nat)
    requires Building(vmm, root, N, w) && vmm.pmm.free != {} && v < PAGE_LIMIT && i == v % 512
    requires Node(1, v / 512) in N && N[Node(1, v / 512)] == pt && pt in vmm.tables && !vmm.tables[pt][v % 512].present
    modifies vmm`tables, vmm.pmm`allocatedPages, vmm.pmm`bits, vmm.pmm`free, vmm.pmm.ram
    ensures g !in w.handed && Building(vmm, root, N, w.(handed := w.handed + {g}))
    ensures g in old(vmm.pmm.free) && vmm.pmm.free == old(vmm.pmm.free) - {g}
    ensures pt in vmm.tables && vmm.tables[pt][v % 512].present
    ensures LeafUpdate(old(vmm.tables), vmm.tables, root, v, 1, Leaf(1, g))
  {
    hide Tree, DirectMapped, LeafUpdate, SameMeaning, InGigabyteLeaf, WindowOk, Pmm.Lends, Pmm.Valid, LeafOf;
    FramesLent(vmm);
    assert pt in N.Values;
    g := vmm.FillEntry(pt, i);
    LeafAdded(old(vmm.tables), root, N, v, g);
    StillTaken(vmm, old(vmm.tables), old(vmm.pmm.free), N.Values + w.handed + w.lost,
               N.Values + (w.handed + {g}) + w.lost, w);
  }

  lemma LeafAdded(t: Tables, root: nat, N: Shape, v: nat, g: nat)
    requires Tree(t, root, N) && v < PAGE_LIMIT && g < FRAME_LIMIT && g !in N.Values
    requires Node(1, v / 512) in N && N[Node(1, v / 512)] in t && !t[N[Node(1, v / 512)]][v % 512].present
    ensures g != N[Node(1, v / 512)]
    ensures Tree(WithNewTable(t, N[Node(1, v / 512)], v % 512, g), root, N)
    ensures LeafUpdate(t, WithNewTable(t, N[Node(1, v / 512)], v % 512, g), root, v, 1, Leaf(1, g))
  {
    hide Tree, SameLeaves, LeafUpdate, ZeroTable, LeafOf;
    var n := Node(1, v / 512);
    assert N[n] in N.Values;
    var t1 := t[g := ZeroTable()];
    forall m | m in N ensures N[m] in t && N[m] in t1 && t1[N[m]] == t[N[m]] {
      AtNode(t, root, N, m);
    }
    FrameRule(t, root, N, t1);
    LeafWrite(t1, root, N, v, LinkEntry(t[N[n]][v % 512], g));
    SameThenLeaf(t, t1, WithNewTable(t, N[n], v % 512, g), root, v, 1, Leaf(1, g));
  }

  lemma SameThenLeaf(t0: Tables, t1: Tables, t2: Tables, root: nat, v: nat, s: nat, l: Leaf)
    requires SameLeaves(t0, t1, root) && LeafUpdate(t1, t2, root, v, s, l)
    ensures LeafUpdate(t0, t2, root, v, s, l)
  {
  }

  /** A present PT entry of the new map is pointed at frame p. */
  method SetLeaf(vmm: Vmm, pt: nat, i: nat, ghost v: nat, p: nat, ghost root: nat, ghost N: Shape, ghost w: Ledger)
    requires Building(vmm, root, N, w) && v < PAGE_LIMIT && p < FRAME_LIMIT && i == v % 512
    requires Node(1, v / 512) in N && N[Node(1, v / 512)] == pt && pt in vmm.tables && vmm.tables[pt][v % 512].present
    modifies vmm`tables
    ensures Building(vmm, root, N, w)
    ensures LeafUpdate(old(vmm.tables), vmm.tables, root, v, 1, Leaf(1, p))
  {
    hide Tree, DirectMapped, LeafUpdate, SameMeaning, InGigabyteLeaf, WindowOk, Pmm.Lends;
    assert pt in N.Values;
    var e := SetAddress(vmm.tables[pt][i], p);
    LeafWrite(vmm.tables, root, N, v, e);
    vmm.tables := WithEntry(vmm.tables, pt, i, e);
    StillTaken(vmm, old(vmm.tables), vmm.pmm.free, N.Values + w.handed + w.lost, N.Values + w.handed + w.lost, w);
  }

  lemma TableBehind(vmm: Vmm, f: nat, K: set<nat>, w: Ledger)
    requires Taken(vmm, K, w) && f in K && 3 <= |vmm.pmm.free|
    ensures vmm.Valid() && vmm.initialised && vmm.offset < U64
    ensures f !in vmm.shape.Values && vmm.Returned(Some(f)) == {f} && vmm.CanAfford(f)
    ensures vmm.pmm.Usable(f) && !vmm.IsBitmapFrame(f)
    ensures vmm.FrameBehind(PhysToVirt(vmm.offset, f * 0x1000)) == Some(f)
    ensures vmm.keepFlag || forall v: nat :: v < PAGE_LIMIT ==> !InGigabyteLeaf(vmm.tables, vmm.pml4, v)
    ensures !vmm.CannotRemap(vmm.tables, f)
    ensures |vmm.pmm.free + {f}| == |vmm.pmm.free| + 1
    ensures (K - {f}) !! (vmm.pmm.free + {f}) && K !! vmm.shape.Values && forall g :: g in K ==> vmm.pmm.Lends(g)
    ensures w.pool == vmm.pmm.free + {f} + vmm.shape.Values + (K - {f}) && SameMeaning(w.before, vmm.tables, vmm.pml4)
    ensures DirectMapped(vmm, vmm.tables, vmm.pml4)
  {
    hide SameMeaning, Tree, InGigabyteLeaf, Walk, DirectPage, PhysToVirt, PageOfAddress, Needs, Pmm.Lends, Pmm.Usable,
         Vmm.Returned, Vmm.FrameBehind, WindowOk, DirectMapped, Vmm.IsBitmapFrame, Vmm.Valid;
    TableShown(vmm, f);
    OneBack(w.pool, vmm.pmm.free, vmm.shape.Values, K, f);
  }

  lemma OneBack(P: set<nat>, F: set<nat>, S: set<nat>, K: set<nat>, f: nat)
    requires P == F + S + K && f in K && K !! F
    ensures P == F + {f} + S + (K - {f}) && (K - {f}) !! (F + {f}) && |F + {f}| == |F| + 1
  {
  }

  lemma TableShown(vmm: Vmm, f: nat)
    requires vmm.Valid() && vmm.initialised && DirectMapped(vmm, vmm.tables, vmm.pml4) && vmm.pmm.Lends(f)
    ensures vmm.offset < U64 && vmm.pmm.Usable(f) && !vmm.IsBitmapFrame(f) && vmm.Returned(Some(f)) == {f}
    ensures DirectPage(vmm.offset, f) < PAGE_LIMIT
    ensures vmm.FrameBehind(PhysToVirt(vmm.offset, f * 0x1000)) == Some(f)
  {
    hide Tree, Walk;
    vmm.LentFits(f);
  }

  /** pmm_free of a table of the new map, through the map in use. */
  method FreeTable(vmm: Vmm, f: nat, ghost K: set<nat>, ghost w: Ledger)
    requires Taken(vmm, K, w) && f in K && 3 <= |vmm.pmm.free|
    modifies vmm`tables, vmm`shape, vmm.pmm`allocatedPages, vmm.pmm`bits, vmm.pmm`free, vmm.pmm.ram
    ensures Taken(vmm, K - {f}, w)
    ensures |vmm.pmm.free| + 2 >= |old(vmm.pmm.free)|
    ensures Kept(old(vmm.tables), vmm.tables, K - {f})
  {
    hide Tree, Grew, PointUpdate, Opens, HasLeaf, SameMeaning, InGigabyteLeaf, Walk, PhysToVirt, DirectPage, Needs,
         Convert, WindowOk, Vmm.Valid, Vmm.FrameBehind, Vmm.Returned, Vmm.CanAfford, Vmm.IsBitmapFrame, DirectMapped, Taken, Kept,
         Pmm.Lends, Pmm.Usable;
    TableBehind(vmm, f, K, w);
    ghost var F := vmm.pmm.free + {f};
    var ok := vmm.Free(PhysToVirt(vmm.offset, f * 0x1000));
    TableFreed(vmm, old(vmm.tables), old(vmm.shape), F, f, K, w);
  }

  /** The accounts after a table went back to the allocator. */
  lemma TableFreed(vmm: Vmm, t: Tables, S: Shape, F: set<nat>, f: nat, K: set<nat>, w: Ledger)
    requires vmm.Valid() && vmm.initialised && f in K && vmm.pmm.Usable(f)
    requires Grew(vmm.pml4, t, S, F, vmm.tables, vmm.shape, vmm.pmm.free)
    requires PointUpdate(t, vmm.tables, vmm.pml4, DirectPage(vmm.offset, f), Page(Convert(t, vmm.pml4, f) % FRAME_LIMIT))
    requires Opens(t, vmm.tables, vmm.pml4, DirectPage(vmm.offset, f))
    requires (K - {f}) !! F && K !! S.Values && forall g :: g in K ==> vmm.pmm.Lends(g)
    requires w.pool == F + S.Values + (K - {f}) && SameMeaning(w.before, t, vmm.pml4)
    requires DirectMapped(vmm, t, vmm.pml4)
    requires vmm.keepFlag || forall v: nat :: v < PAGE_LIMIT ==> !InGigabyteLeaf(t, vmm.pml4, v)
    ensures Taken(vmm, K - {f}, w) && Kept(t, vmm.tables, K - {f})
  {
    hide Tree, Grew, PointUpdate, Opens, SameMeaning, InGigabyteLeaf, NoNewGigabytes, Walk, DirectPage, WindowOk,
         DirectMapped, DirectOpen, Pmm.Lends, Pmm.Usable, Convert, Kept, Vmm.Valid;
    GrewOwnedBy(vmm.pml4, t, S, F, vmm.tables, vmm.shape, vmm.pmm.free);
    RemapChangesNothing(vmm, vmm.pml4, t, vmm.tables, f);
    SameMeaningStep(w.before, t, vmm.tables, vmm.pml4);
    DirectMapKept(vmm, t, vmm.tables, vmm.pml4);
    GrewAddsNoGigabyte(vmm.pml4, t, S, F, vmm.tables, vmm.shape, vmm.pmm.free);
    SafetyKept(vmm, t);
    GrewKeeps(vmm.pml4, t, S, F, vmm.tables, vmm.shape, vmm.pmm.free, K - {f});
  }

  lemma GrewKeeps(root: nat, t0: Tables, N0: Shape, F0: set<nat>, t1: Tables, N1: Shape, F1: set<nat>, K: set<nat>)
    requires Grew(root, t0, N0, F0, t1, N1, F1) && K !! N0.Values && K !! F0
    ensures Kept(t0, t1, K)
  {
  }

  /** The link from a table's parent, and the frames that stay when it goes. */
  lemma BelowFrames(t: Tables, root: nat, N: Shape, c: Node)
    requires Tree(t, root, N) && c in N && c.level < 4
    ensures Parent(c) in N && N[Parent(c)] in t && N[Parent(c)] in N.Values
    ensures t[N[Parent(c)]][c.prefix % 512].present
    ensures forall d :: d in N && Below(c, d) ==> N[d] != N[Parent(c)] && N[d] in N.Values
    ensures Without(N, c).Values <= N.Values
    ensures forall d :: d in N && Below(c, d) ==> N[d] !in Without(N, c).Values
  {
    assert UpOk(t, N, c);
  }

  /** The large-page branches: an entry that linked to tables becomes a large leaf,
      after tables below it were freed (which may have changed the freed frames, and
      frames outside the map). */
  lemma LargePlaced(t: Tables, root: nat, N: Shape, c: Node, t1: Tables, gone: set<nat>, v: nat, p: nat)
    requires Tree(t, root, N) && c in N && 1 <= c.level <= 2 && v < PAGE_LIMIT
    requires OnPath(c, v) && v % Span(c.level) == 0 && p + Span(c.level) <= FRAME_LIMIT
    requires FramesBelow(N, c, gone) && Kept(t, t1, N.Values - gone)
    ensures Parent(c) in N && N[Parent(c)] in t && N[Parent(c)] in t1
    ensures t1[N[Parent(c)]] == t[N[Parent(c)]] && t1[N[Parent(c)]][c.prefix % 512].present
    ensures var t' := WithEntry(t1, N[Parent(c)], c.prefix % 512, LargeEntry(t1[N[Parent(c)]][c.prefix % 512], p));
      Tree(t', root, Without(N, c)) && LeafUpdate(t, t', root, v, Span(c.level), Leaf(Span(c.level), p))
  {
    BelowFrames(t, root, N, c);
    var n, i := Parent(c), c.prefix % 512;
    PathStep(n.level, v);
    assert Child(n, i) == c && Through(n, i, v);
    var t' := WithEntry(t1, N[n], i, LargeEntry(t1[N[n]][i], p));
    forall m | m in N ensures N[m] in t {
      AtNode(t, root, N, m);
    }
    forall m | m in Without(N, c) ensures N[m] in t' && (m != n ==> t'[N[m]] == t[N[m]]) {
      assert N[m] in N.Values && N[m] !in gone;
    }
    assert Prunes(t, N, n, i, t');
    PruneKeepsTree(t, root, N, n, i, t');
    PruneMeaning(t, root, N, n, i, t', v, p);
  }

  /** The tables at and below c that are not in `gone`: the new leaf takes their place,
      and nothing frees them. */
  ghost function Dropped(N: Shape, c: Node, gone: set<nat>): set<nat> {
    N.Values - gone - Without(N, c).Values
  }

  /** The entry write of both large-page branches; t are the tables before the
      frames in `gone` were freed. */
  method WriteLarge(vmm: Vmm, f: nat, i: nat, ghost v: nat, p: nat, ghost t: Tables, ghost root: nat, ghost N: Shape,
                    ghost c: Node, ghost gone: set<nat>, ghost w: Ledger)
    returns (ghost N': Shape)
    requires Taken(vmm, N.Values - gone + w.handed + w.lost, w) && Disjoint(N, w) && root != vmm.pml4
    requires Tree(t, root, N) && c in N && 1 <= c.level <= 2 && v < PAGE_LIMIT
    requires OnPath(c, v) && v % Span(c.level) == 0 && p + Span(c.level) <= FRAME_LIMIT
    requires FramesBelow(N, c, gone) && Kept(t, vmm.tables, N.Values - gone)
    requires Parent(c) in N && N[Parent(c)] == f && i == c.prefix % 512
    modifies vmm`tables
    ensures N' == Without(N, c)
    ensures Building(vmm, root, N', w.(lost := w.lost + Dropped(N, c, gone)))
    ensures LeafUpdate(t, vmm.tables, root, v, Span(c.level), Leaf(Span(c.level), p))
  {
    hide Tree, LeafUpdate, DirectMapped, SameMeaning, InGigabyteLeaf, WindowOk, Pmm.Lends, Without, Below, Parent,
         FramesBelow, Kept, Pmm.Valid, LeafOf;
    WithoutGone(t, root, N, c, gone);
    N' := Without(N, c);
    LargePlaced(t, root, N, c, vmm.tables, gone, v, p);
    ghost var t1 := vmm.tables;
    var e := vmm.tables[f][i];
    e := e.(large := true);
    e := SetAddress(e, p);
    vmm.tables := WithEntry(vmm.tables, f, i, e);
    StillTaken(vmm, t1, vmm.pmm.free, N.Values - gone + w.handed + w.lost,
               N'.Values + w.handed + (w.lost + Dropped(N, c, gone)), w);
  }

  lemma WithoutGone(t: Tables, root: nat, N: Shape, c: Node, gone: set<nat>)
    requires Tree(t, root, N) && c in N && 1 <= c.level <= 2
    requires FramesBelow(N, c, gone)
    ensures Without(N, c).Values <= N.Values - gone
    ensures Parent(c) in N && N[Parent(c)] in N.Values - gone
  {
    BelowFrames(t, root, N, c);
    forall f | f in Without(N, c).Values ensures f in N.Values - gone {
      var m :| m in Without(N, c) && N[m] == f;
    }
  }

  /** A PT is alone below its entry. */
  lemma NothingDropped(N: Shape, c: Node)
    requires c in N && c.level == 1
    ensures Dropped(N, c, {N[c]}) == {}
  {
    forall f | f in N.Values && f != N[c] ensures f in Without(N, c).Values {
      var m :| m in N && N[m] == f;
      assert Without(N, c)[m] == f;
    }
  }

  /** The 2 MiB branch: frees the PT that was made for page v and turns the PD entry
      into a large leaf. */
  method PlaceTwoMegabytes(vmm: Vmm, pd: nat, pt: nat, i: nat, ghost v: nat, p: nat, ghost root: nat, ghost N: Shape,
                           ghost w: Ledger)
    returns (ghost N': Shape)
    requires Building(vmm, root, N, w) && 3 <= |vmm.pmm.free| && v < PAGE_LIMIT && v % 512 == 0
    requires p + 512 <= FRAME_LIMIT && i == v / 512 % 512
    requires Node(2, v / 262144) in N && N[Node(2, v / 262144)] == pd
    requires Node(1, v / 512) in N && N[Node(1, v / 512)] == pt
    modifies vmm`tables, vmm`shape, vmm.pmm`allocatedPages, vmm.pmm`bits, vmm.pmm`free, vmm.pmm.ram
    ensures N' == Without(N, Node(1, v / 512))
    ensures Building(vmm, root, N', w)
    ensures |vmm.pmm.free| + 2 >= |old(vmm.pmm.free)|
    ensures LeafUpdate(old(vmm.tables), vmm.tables, root, v, 512, Leaf(512, p))
  {
    hide *;
    ghost var c, K := Node(1, v / 512), N.Values + w.handed + w.lost;
    TwoMegabyteFrames(vmm, root, N, v, p, w);
    FreeTable(vmm, pt, K, w);
    KeptLess(old(vmm.tables), vmm.tables, K - {pt}, N.Values - {pt});
    N' := WriteLarge(vmm, pd, i, v, p, old(vmm.tables), root, N, c, {pt}, w);
    assert w.(lost := w.lost + {}) == w;
  }

  lemma KeptLess(t: Tables, t': Tables, K: set<nat>, K': set<nat>)
    requires Kept(t, t', K) && K' <= K
    ensures Kept(t, t', K')
  {
  }

  lemma TwoMegabyteFrames(vmm: Vmm, root: nat, N: Shape, v: nat, p: nat, w: Ledger)
    requires Building(vmm, root, N, w) && Node(1, v / 512) in N && v % 512 == 0 && p + 512 <= FRAME_LIMIT
    ensures Taken(vmm, N.Values + w.handed + w.lost, w) && Disjoint(N, w) && root != vmm.pml4
    ensures Tree(vmm.tables, root, N)
    ensures var c, K := Node(1, v / 512), N.Values + w.handed + w.lost;
      && Span(1) == 512 && OnPath(c, v) && c.prefix % 512 == v / 512 % 512
      && Parent(c) == Node(2, v / 262144)
      && N[c] in K && FramesBelow(N, c, {N[c]}) && Dropped(N, c, {N[c]}) == {}
      && N.Values - {N[c]} <= K - {N[c]}
      && K - {N[c]} == N.Values - {N[c]} + w.handed + w.lost
  {
    var c := Node(1, v / 512);
    PathStep(2, v);
    assert Below(c, c);
    hide Tree, Taken;
    NothingDropped(N, c);
  }

  method FreeTwoTables(vmm: Vmm, f: nat, g: nat, ghost K: set<nat>, ghost w: Ledger)
    requires Taken(vmm, K, w) && f in K && g in K && f != g && 5 <= |vmm.pmm.free|
    modifies vmm`tables, vmm`shape, vmm.pmm`allocatedPages, vmm.pmm`bits, vmm.pmm`free, vmm.pmm.ram
    ensures Taken(vmm, K - {f, g}, w)
    ensures |vmm.pmm.free| + 4 >= |old(vmm.pmm.free)|
    ensures Kept(old(vmm.tables), vmm.tables, K - {f, g})
  {
    assert K - {f} - {g} == K - {f, g};
    hide Taken, Kept;
    FreeTable(vmm, f, K, w);
    ghost var t1 := vmm.tables;
    FreeTable(vmm, g, K - {f}, w);
    KeptStep(old(vmm.tables), t1, vmm.tables, K - {f}, K - {f} - {g});
  }

  lemma GigabyteFrames(vmm: Vmm, root: nat, N: Shape, v: nat, p: nat, w: Ledger)
    requires Building(vmm, root, N, w) && Node(2, v / 262144) in N && Node(1, v / 512) in N
    requires v % 262144 == 0 && p + 262144 <= FRAME_LIMIT
    ensures Taken(vmm, N.Values + w.handed + w.lost, w) && Disjoint(N, w) && root != vmm.pml4
    ensures Tree(vmm.tables, root, N)
    ensures var c, d, K := Node(2, v / 262144), Node(1, v / 512), N.Values + w.handed + w.lost;
      && Span(2) == 262144 && OnPath(c, v) && c.prefix % 512 == v / 262144 % 512
      && Parent(c) == Node(3, v / 134217728)
      && N[c] in K && N[d] in K && N[c] != N[d]
      && FramesBelow(N, c, {N[d], N[c]})
      && N.Values - {N[d], N[c]} <= K - {N[d], N[c]}
      && K - {N[d], N[c]} == N.Values - {N[d], N[c]} + w.handed + w.lost
  {
    PathStep(3, v);
    PathStep(2, v);
    assert Below(Node(2, v / 262144), Node(2, v / 262144)) && Below(Node(2, v / 262144), Node(1, v / 512));
    hide Taken, TableOk, DownOk, UpOk;
  }

  /** The 1 GiB branch: frees the PT and the PD that were made for page v and turns
      the PDPT entry into a large leaf. */
  method PlaceGigabyte(vmm: Vmm, pdpt: nat, pd: nat, pt: nat, i: nat, ghost v: nat, p: nat, ghost root: nat,
                       ghost N: Shape, ghost w: Ledger)
    returns (ghost N': Shape)
    requires Building(vmm, root, N, w) && 5 <= |vmm.pmm.free| && v < PAGE_LIMIT && v % 262144 == 0
    requires p + 262144 <= FRAME_LIMIT
    requires i == v / 262144 % 512
    requires Node(3, v / 134217728) in N && N[Node(3, v / 134217728)] == pdpt
    requires Node(2, v / 262144) in N && N[Node(2, v / 262144)] == pd
    requires Node(1, v / 512) in N && N[Node(1, v / 512)] == pt
    modifies vmm`tables, vmm`shape, vmm.pmm`allocatedPages, vmm.pmm`bits, vmm.pmm`free, vmm.pmm.ram
    ensures N' == Without(N, Node(2, v / 262144))
    ensures Building(vmm, root, N', w.(lost := w.lost + Dropped(N, Node(2, v / 262144), {pt, pd})))
    ensures |vmm.pmm.free| + 4 >= |old(vmm.pmm.free)|
    ensures LeafUpdate(old(vmm.tables), vmm.tables, root, v, 262144, Leaf(262144, p))
  {
    hide *;
    ghost var c, K := Node(2, v / 262144), N.Values + w.handed + w.lost;
    GigabyteFrames(vmm, root, N, v, p, w);
    FreeTwoTables(vmm, pt, pd, K, w);
    KeptLess(old(vmm.tables), vmm.tables, K - {pt, pd}, N.Values - {pt, pd});
    N' := WriteLarge(vmm, pdpt, i, v, p, old(vmm.tables), root, N, c, {pt, pd}, w);
  }

  // ----- the four-digit counter -----

  /** The digits of page c, and the tables that hold its entries. */
  ghost predicate Cursor(c: nat, N: Shape, pml4I: nat, pdptI: nat, pdI: nat, ptI: nat, pdpt: nat, pd: nat, pt: nat) {
    && pml4I == c / 134217728 && pdptI == c / 262144 % 512 && pdI == c / 512 % 512 && ptI == c % 512
    && Node(3, c / 134217728) in N && N[Node(3, c / 134217728)] == pdpt
    && Node(2, c / 262144) in N && N[Node(2, c / 262144)] == pd
    && Node(1, c / 512) in N && N[Node(1, c / 512)] == pt
  }

  /** The counter after a leaf was placed and before it carries: c is the next page,
      and the tables above the highest carry still are the right ones. */
  ghost predicate Carry(c: nat, N: Shape, pml4I: nat, pdptI: nat, pdI: nat, ptI: nat, pdpt: nat, pd: nat, pt: nat) {
    if ptI <= 511 then Cursor(c, N, pml4I, pdptI, pdI, ptI, pdpt, pd, pt)
    else
      && c % 512 == 0
      && if pdI + 1 <= 511 then
           && pml4I == c / 134217728 && pdptI == c / 262144 % 512 && pdI + 1 == c / 512 % 512
           && Node(3, c / 134217728) in N && N[Node(3, c / 134217728)] == pdpt
           && Node(2, c / 262144) in N && N[Node(2, c / 262144)] == pd
         else
           && c / 512 % 512 == 0
           && if pdptI + 1 <= 511 then
                && pml4I == c / 134217728 && pdptI + 1 == c / 262144 % 512
                && Node(3, c / 134217728) in N && N[Node(3, c / 134217728)] == pdpt
              else
                c / 262144 % 512 == 0 && pml4I + 1 == c / 134217728
  }

  /** Incrementing a two-digit number in base 512. */
  lemma Increment(q: nat)
    ensures q % 512 < 511 ==> (q + 1) / 512 == q / 512 && (q + 1) % 512 == q % 512 + 1
    ensures q % 512 == 511 ==> (q + 1) / 512 == q / 512 + 1 && (q + 1) % 512 == 0
  {
  }

  lemma Digits(c: nat)
    ensures c / 512 / 512 == c / 262144 && c / 262144 / 512 == c / 134217728
  {
  }

  lemma CarryAfterPage(c: nat, N: Shape, pml4I: nat, pdptI: nat, pdI: nat, ptI: nat, pdpt: nat, pd: nat, pt: nat)
    requires Cursor(c, N, pml4I, pdptI, pdI, ptI, pdpt, pd, pt)
    ensures Carry(c + 1, N, pml4I, pdptI, pdI, ptI + 1, pdpt, pd, pt)
  {
    Digits(c);
    Digits(c + 1);
    Increment(c);
    Increment(c / 512);
    Increment(c / 262144);
  }

  lemma CarryAfterTwoMegabytes(c: nat, N: Shape, pml4I: nat, pdptI: nat, pdI: nat, pdpt: nat, pd: nat, pt: nat,
                               N': Shape)
    requires Cursor(c, N, pml4I, pdptI, pdI, 0, pdpt, pd, pt)
    requires N' == Without(N, Node(1, c / 512))
    ensures Carry(c + 512, N', pml4I, pdptI, pdI, 512, pdpt, pd, pt)
  {
    assert (c + 512) / 512 == c / 512 + 1 && (c + 512) % 512 == 0;
    Digits(c);
    Digits(c + 512);
    Increment(c / 512);
    Increment(c / 262144);
  }

  lemma CarryAfterGigabyte(c: nat, N: Shape, pml4I: nat, pdptI: nat, pdpt: nat, pd: nat, pt: nat, N': Shape)
    requires Cursor(c, N, pml4I, pdptI, 0, 0, pdpt, pd, pt)
    requires N' == Without(N, Node(2, c / 262144))
    ensures Carry(c + 262144, N', pml4I, pdptI, 512, 512, pdpt, pd, pt)
  {
    assert (c + 262144) / 512 == c / 512 + 512 && (c + 262144) % 512 == 0;
    Digits(c);
    Digits(c + 262144);
    assert (c + 262144) / 262144 == c / 262144 + 1;
    assert (c / 512 + 512) % 512 == 0;
    Increment(c / 262144);
  }

  /** The counter's digits are the indices of its page. */
  lemma CursorIndices(c: nat, N: Shape, pml4I: nat, pdptI: nat, pdI: nat, ptI: nat, pdpt: nat, pd: nat, pt: nat)
    requires Cursor(c, N, pml4I, pdptI, pdI, ptI, pdpt, pd, pt) && c < PAGE_LIMIT
    ensures pml4I == Index(4, c) && pdptI == Index(3, c) && pdI == Index(2, c) && ptI == Index(1, c)
    ensures pdI == 0 && ptI == 0 <==> c % 262144 == 0
    ensures ptI == 0 <==> c % 512 == 0
  {
    DivDiv(c, 512, 512);
  }

  // ----- moving to the next page -----

  /** New tables, since the shape was N0, only at nodes that some page from v to c goes
      through. */
  ghost predicate NewNear(N0: Shape, N: Shape, v: nat, c: nat) {
    forall m :: m in N ==>
      || (m in N0 && N0[m] == N[m])
      || (1 <= m.level < 4 && v / Span(m.level) <= m.prefix <= c / Span(m.level))
  }

  lemma NewNearLink(N0: Shape, N: Shape, N': Shape, v: nat, c: nat, level: nat, g: nat)
    requires NewNear(N0, N, v, c) && v <= c && 1 <= level < 4
    requires N' == N || N' == N[Node(level, c / Span(level)) := g]
    ensures NewNear(N0, N', v, c)
  {
    DivMonotone(v, c, Span(level));
  }

  lemma DivMonotone(a: nat, b: nat, s: nat)
    requires a <= b && s > 0
    ensures a / s <= b / s
  {
    if a / s > b / s {
      MulMonotone(b / s + 1, a / s, s);
    }
  }

  lemma NewNearOn(N0: Shape, N: Shape, v: nat, c: nat, c': nat)
    requires NewNear(N0, N, v, c) && c <= c'
    ensures NewNear(N0, N, v, c')
  {
    forall m | m in N && 1 <= m.level < 4 ensures c / Span(m.level) <= c' / Span(m.level) {
      DivMonotone(c, c', Span(m.level));
    }
  }

  lemma NewNearWithout(N0: Shape, N: Shape, v: nat, c: nat, d: Node)
    requires NewNear(N0, N, v, c)
    ensures NewNear(N0, Without(N, d), v, c)
  {
  }

  lemma NewNearRefl(N: Shape, v: nat)
    ensures NewNear(N, N, v, v)
  {
  }

  /** Link, one level above page c, when c is known to be unmapped. */
  method LinkTo(vmm: Vmm, f: nat, i: nat, level: nat, ghost v: nat, ghost c: nat, ghost root: nat, ghost N0: Shape,
                ghost N: Shape, ghost w: Ledger)
    returns (next: nat, ghost N': Shape)
    requires Building(vmm, root, N, w) && vmm.pmm.free != {} && NewNear(N0, N, v, c)
    requires 2 <= level <= 4 && v <= c < PAGE_LIMIT && i == Index(level, c) && LeafOf(vmm.tables, root, c) == NoLeaf
    requires Node(level, c / Span(level)) in N && N[Node(level, c / Span(level))] == f
    modifies vmm`tables, vmm`shape, vmm.pmm`allocatedPages, vmm.pmm`bits, vmm.pmm`free, vmm.pmm.ram
    ensures Building(vmm, root, N', w) && NewNear(N0, N', v, c)
    ensures |vmm.pmm.free| + 1 >= |old(vmm.pmm.free)|
    ensures forall m :: m in N ==> m in N' && N'[m] == N[m]
    ensures SameLeaves(old(vmm.tables), vmm.tables, root) && LeafOf(vmm.tables, root, c) == NoLeaf
    ensures Node(level - 1, c / Span(level - 1)) in N' && N'[Node(level - 1, c / Span(level - 1))] == next
  {
    hide *;
    SpanPositive(level, c);
    ghost var n := Node(level, c / Span(level));
    BuildingTree(vmm, root, N, w);
    UnmappedHere(vmm.tables, root, N, n, c);
    PathChild(level, c);
    ghost var t := vmm.tables;
    next, N' := Link(vmm, f, i, root, N, n, w);
    NewNearLink(N0, N, N', v, c, level - 1, next);
    SameLeaf1(t, vmm.tables, root, c);
  }

  lemma BuildingTree(vmm: Vmm, root: nat, N: Shape, w: Ledger)
    requires Building(vmm, root, N, w)
    ensures Tree(vmm.tables, root, N)
  {
  }

  lemma SpanPositive(level: nat, c: nat)
    requires 2 <= level <= 4 && c < PAGE_LIMIT
    ensures OnPath(Node(level, c / Span(level)), c) && Index(level, c) < 512
  {
  }

  /** The carry at the end of the loop body, with the tables it makes sure of.  It
      gives up when the counter has run past the last page. */
  method NextTables(vmm: Vmm, root: nat, ghost v: nat, ghost c: nat, ghost N0: Shape, ghost N: Shape, a4: nat, a3: nat,
                    a2: nat, a1: nat, pdptBefore: nat, pdBefore: nat, ptBefore: nat, ghost w: Ledger)
    returns (done: bool, pml4I: nat, pdptI: nat, pdI: nat, ptI: nat, pdpt: nat, pd: nat, pt: nat, ghost N': Shape)
    requires Building(vmm, root, N, w) && 3 <= |vmm.pmm.free| && NewNear(N0, N, v, c)
    requires v <= c <= PAGE_LIMIT && (c < PAGE_LIMIT ==> LeafOf(vmm.tables, root, c) == NoLeaf)
    requires Carry(c, N, a4, a3, a2, a1, pdptBefore, pdBefore, ptBefore)
    requires a1 <= 511 ==> c < PAGE_LIMIT
    modifies vmm`tables, vmm`shape, vmm.pmm`allocatedPages, vmm.pmm`bits, vmm.pmm`free, vmm.pmm.ram
    ensures Building(vmm, root, N', w) && NewNear(N0, N', v, c)
    ensures |vmm.pmm.free| + 3 >= |old(vmm.pmm.free)|
    ensures done <==> c == PAGE_LIMIT
    ensures done ==> N' == N
    ensures SameLeaves(old(vmm.tables), vmm.tables, root)
    ensures !done ==> Cursor(c, N', pml4I, pdptI, pdI, ptI, pdpt, pd, pt)
  {
    hide Building, SameLeaves, LeafOf, Span, Index, NewNear;
    done, N' := false, N;
    pml4I, pdptI, pdI, ptI := a4, a3, a2, a1;
    pdpt, pd, pt := pdptBefore, pdBefore, ptBefore;
    RootOf(vmm, root, N, w);
    SameLeavesRefl(vmm.tables, root);
    CounterLevels(c);
    if ptI > 511 {
      ptI := 0;
      pdI := pdI + 1;
      if pdI > 511 {
        pdI := 0;
        pdptI := pdptI + 1;
        if pdptI > 511 {
          pdptI := 0;
          pml4I := pml4I + 1;
          if pml4I > 511 {
            return true, pml4I, pdptI, pdI, ptI, pdpt, pd, pt, N;
          }
          pdpt, N' := LinkTo(vmm, root, pml4I, 4, v, c, root, N0, N', w);
        }
        ghost var t1 := vmm.tables;
        pd, N' := LinkTo(vmm, pdpt, pdptI, 3, v, c, root, N0, N', w);
        SameLeavesStep(old(vmm.tables), t1, vmm.tables, root);
      }
      ghost var t2 := vmm.tables;
      pt, N' := LinkTo(vmm, pd, pdI, 2, v, c, root, N0, N', w);
      SameLeavesStep(old(vmm.tables), t2, vmm.tables, root);
    }
  }

  lemma SameLeavesStep(t0: Tables, t1: Tables, t2: Tables, root: nat)
    requires SameLeaves(t0, t1, root) && SameLeaves(t1, t2, root)
    ensures SameLeaves(t0, t2, root)
  {
  }

  lemma SameLeavesRefl(t: Tables, root: nat)
    ensures SameLeaves(t, t, root)
  {
  }

  /** The levels of page c, and when the counter has run out. */
  lemma CounterLevels(c: nat)
    requires c <= PAGE_LIMIT
    ensures Span(1) == 512 && Span(2) == 262144 && Span(3) == 134217728
    ensures Index(3, c) == c / 262144 % 512 && Index(2, c) == c / 512 % 512
    ensures c < PAGE_LIMIT ==> Index(4, c) == c / 134217728 < 512 && c / Span(4) == 0
    ensures c == PAGE_LIMIT ==> c / 134217728 == 512 && c % 512 == c / 512 % 512 == c / 262144 % 512 == 0
  {
  }

  lemma RootOf(vmm: Vmm, root: nat, N: Shape, w: Ledger)
    requires Building(vmm, root, N, w)
    ensures Node(4, 0) in N && N[Node(4, 0)] == root
  {
  }

  // ----- progress of the whole range -----

  /** The job of mapping the n pages from v on to the frames from p on, in the page map
      at root, which has the tables t0 in the shape N0 when it begins, with the
      accounts w0. */
  datatype Job = Job(root: nat, v: nat, n: nat, p: nat, t0: Tables, N0: Shape, w0: Ledger)

  /** The page at v and the n pages from v on are unmapped. */
  ghost predicate Fresh(t: Tables, root: nat, v: nat, n: nat) {
    forall u: nat :: u < PAGE_LIMIT && (u == v || v <= u < v + n) ==> LeafOf(t, root, u) == NoLeaf
  }

  /** The pages of the range before page c have the leaves planned for them, and every
      other page has the leaf it had. */
  ghost predicate Mapped(job: Job, t: Tables, c: nat) {
    && KeepsOpen(job.t0, t, job.root)
    && forall u: nat :: u < PAGE_LIMIT ==>
      LeafOf(t, job.root, u) == if job.v <= u < c then Planned(job.v, job.n, job.p, u) else LeafOf(job.t0, job.root, u)
  }

  /** The same, with page c pointed at frame g for the time being. */
  ghost predicate Halfway(job: Job, t: Tables, c: nat, g: nat) {
    && KeepsOpen(job.t0, t, job.root)
    && forall u: nat :: u < PAGE_LIMIT ==>
      LeafOf(t, job.root, u) ==
        if u == c then Leaf(1, g)
        else if job.v <= u < c then Planned(job.v, job.n, job.p, u)
        else LeafOf(job.t0, job.root, u)
  }

  /** The accounts before page c: every leaf begun took a frame, and the tables lost
      are old ones that held none but pages of the range. */
  ghost predicate Booked(job: Job, w: Ledger, c: nat) {
    && w.pool == job.w0.pool && w.before == job.w0.before && job.w0.handed <= w.handed && job.w0.lost <= w.lost
    && forall f :: f in w.lost && f !in job.w0.lost ==> LostIn(job, f, c)
  }

  ghost predicate LostIn(job: Job, f: nat, c: nat) {
    exists x :: LostTable(job, f, x, c)
  }

  ghost predicate LostTable(job: Job, f: nat, x: nat, c: nat) {
    Node(1, x) in job.N0 && job.N0[Node(1, x)] == f && job.v <= 512 * x && 512 * x + 512 <= c
  }

  lemma NextIsFresh(job: Job, t: Tables, c: nat)
    requires Fresh(job.t0, job.root, job.v, job.n) && Mapped(job, t, c) && (job.v <= c < job.v + job.n || c == job.v)
    ensures c < PAGE_LIMIT ==> LeafOf(t, job.root, c) == NoLeaf
  {
  }

  lemma LeafBegun(job: Job, t1: Tables, t2: Tables, t3: Tables, c: nat, g: nat)
    requires Mapped(job, t1, c) && SameLeaves(t1, t2, job.root) && LeafUpdate(t2, t3, job.root, c, 1, Leaf(1, g))
    ensures Halfway(job, t3, c, g)
  {
  }

  /** A leaf placed at the start of a leaf is the leaf planned for its pages. */
  lemma LeafDone(job: Job, t1: Tables, t2: Tables, c: nat, g: nat, s: nat)
    requires Halfway(job, t1, c, g) && job.v <= c < job.v + job.n && AtLeaf(job.v, job.n, c)
    requires s == LeafSpan(c, job.v + job.n - c)
    requires LeafUpdate(t1, t2, job.root, c, s, Leaf(s, job.p + (c - job.v)))
    ensures Mapped(job, t2, c + s)
  {
    hide AtLeaf, LeafSpan, Planned, LeafAt;
    forall u: nat | u < PAGE_LIMIT
      ensures LeafOf(t2, job.root, u) ==
              if job.v <= u < c + s then Planned(job.v, job.n, job.p, u) else LeafOf(job.t0, job.root, u)
    {
      if c <= u < c + s { ChoiceIsPlan(job.v, job.n, job.p, c, u); }
    }
  }

  lemma ClippedDone(job: Job, t: Tables, c: nat)
    requires Mapped(job, t, c) && PAGE_LIMIT <= c <= job.v + job.n
    ensures Mapped(job, t, job.v + job.n)
  {
  }

  lemma MappedSame(job: Job, t: Tables, t': Tables, c: nat)
    requires Mapped(job, t, c) && SameLeaves(t, t', job.root)
    ensures Mapped(job, t', c)
  {
  }

  /** The tables dropped for a 1 GiB leaf at page c, other than those of page c itself,
      are old tables inside the gigabyte. */
  lemma DroppedAreOld(job: Job, N: Shape, w: Ledger, c: nat)
    requires NewNear(job.N0, N, job.v, c) && Booked(job, w, c) && job.v <= c && c % 262144 == 0 && Disjoint(N, w)
    requires Node(2, c / 262144) in N && Node(1, c / 512) in N
    ensures Booked(job, w.(lost := w.lost + Dropped(N, Node(2, c / 262144), {N[Node(1, c / 512)], N[Node(2, c / 262144)]})),
                   c + 262144)
  {
    var d := Node(2, c / 262144);
    var gone := {N[Node(1, c / 512)], N[d]};
    forall f | f in Dropped(N, d, gone) ensures LostIn(job, f, c + 262144) {
      var m :| m in N && N[m] == f;
      WithoutAt(N, d, m);
      assert Below(d, m) && m != d && m != Node(1, c / 512);
      assert m.level == 1 && m.prefix / 512 == c / 262144;
      LaterTable(c, m.prefix);
      assert LostTable(job, f, m.prefix, c + 262144);
    }
    forall f | f in w.lost && f !in job.w0.lost ensures LostIn(job, f, c + 262144) {
      var x :| LostTable(job, f, x, c);
      assert LostTable(job, f, x, c + 262144);
    }
  }

  lemma WithoutAt(N: Shape, d: Node, m: Node)
    ensures m in Without(N, d) ==> m in N && N[m] in Without(N, d).Values
  {
    if m in Without(N, d) { assert Without(N, d)[m] == N[m]; }
  }

  lemma LaterTable(c: nat, x: nat)
    requires c % 262144 == 0 && x / 512 == c / 262144 && x != c / 512
    ensures c / 512 < x && c <= 512 * x && 512 * x + 512 <= c + 262144
    ensures c / Span(1) < x
  {
  }

  lemma BookedOn(job: Job, w: Ledger, c: nat, c': nat)
    requires Booked(job, w, c) && c <= c'
    ensures Booked(job, w, c')
  {
    forall f | f in w.lost && f !in job.w0.lost ensures LostIn(job, f, c') {
      var x :| LostTable(job, f, x, c);
      assert LostTable(job, f, x, c');
    }
  }

  /** The entries above the first page. */
  method FirstTables(vmm: Vmm, root: nat, v: nat, ghost N: Shape, ghost w: Ledger)
    returns (pdpt: nat, pd: nat, pt: nat, ghost N': Shape)
    requires Building(vmm, root, N, w) && 3 <= |vmm.pmm.free|
    requires v < PAGE_LIMIT && LeafOf(vmm.tables, root, v) == NoLeaf
    modifies vmm`tables, vmm`shape, vmm.pmm`allocatedPages, vmm.pmm`bits, vmm.pmm`free, vmm.pmm.ram
    ensures Building(vmm, root, N', w) && NewNear(N, N', v, v)
    ensures |vmm.pmm.free| + 3 >= |old(vmm.pmm.free)|
    ensures SameLeaves(old(vmm.tables), vmm.tables, root)
    ensures Cursor(v, N', Index(4, v), Index(3, v), Index(2, v), Index(1, v), pdpt, pd, pt)
  {
    hide Building, SameLeaves, LeafOf, Span, Index, NewNear;
    RootOf(vmm, root, N, w);
    CounterLevels(v);
    FirstIndex(v);
    NewNearRefl(N, v);
    pdpt, N' := LinkTo(vmm, root, Index(4, v), 4, v, v, root, N, N, w);
    ghost var t1 := vmm.tables;
    pd, N' := LinkTo(vmm, pdpt, Index(3, v), 3, v, v, root, N, N', w);
    SameLeavesStep(old(vmm.tables), t1, vmm.tables, root);
    ghost var t2 := vmm.tables;
    pt, N' := LinkTo(vmm, pd, Index(2, v), 2, v, v, root, N, N', w);
    SameLeavesStep(old(vmm.tables), t2, vmm.tables, root);
  }

  lemma FirstIndex(v: nat)
    ensures Index(1, v) == v % 512
  {
  }

  /** AddLeaf at the counter's page, which is unmapped. */
  method BeginLeaf(vmm: Vmm, pt: nat, ghost c: nat, ptI: nat, ghost root: nat, ghost N: Shape, ghost w: Ledger)
    returns (ghost g: nat, ghost w': Ledger)
    requires Building(vmm, root, N, w) && vmm.pmm.free != {}
    requires c < PAGE_LIMIT && ptI == c % 512 && LeafOf(vmm.tables, root, c) == NoLeaf
    requires Node(1, c / 512) in N && N[Node(1, c / 512)] == pt
    modifies vmm`tables, vmm.pmm`allocatedPages, vmm.pmm`bits, vmm.pmm`free, vmm.pmm.ram
    ensures g !in w.handed && w' == w.(handed := w.handed + {g}) && Building(vmm, root, N, w')
    ensures |w'.handed| == |w.handed| + 1
    ensures |vmm.pmm.free| + 1 == |old(vmm.pmm.free)|
    ensures pt in vmm.tables && vmm.tables[pt][ptI].present
    ensures LeafUpdate(old(vmm.tables), vmm.tables, root, c, 1, Leaf(1, g))
  {
    hide Building, LeafUpdate, LeafOf;
    BuildingFacts(vmm, root, N, w);
    UnmappedHere(vmm.tables, root, N, Node(1, c / 512), c);
    FirstIndex(c);
    g := AddLeaf(vmm, pt, ptI, c, root, N, w);
    w' := w.(handed := w.handed + {g});
  }

  /** A leaf never reaches past the last page. */
  lemma LeafFits(c: nat, r: nat)
    requires r > 0 && c < PAGE_LIMIT
    ensures c + LeafSpan(c, r) <= PAGE_LIMIT
    ensures LeafSpan(c, r) == 1 && c % 512 < 511 ==> c + 1 < PAGE_LIMIT
  {
  }

  /** The loop stands at page c, at the start of a leaf: everything is in order and
      booked, the counter shows c, and its PT entry is present and points at g. */
  ghost predicate AtPage(vmm: Vmm, job: Job, N: Shape, w: Ledger, c: nat, g: nat,
                         pml4I: nat, pdptI: nat, pdI: nat, ptI: nat, pdpt: nat, pd: nat, pt: nat)
    reads vmm, vmm.pmm, vmm.pmm.ram
  {
    && Building(vmm, job.root, N, w) && Booked(job, w, c) && NewNear(job.N0, N, job.v, c)
    && Halfway(job, vmm.tables, c, g)
    && job.v <= c < PAGE_LIMIT && AtLeaf(job.v, job.n, c)
    && Cursor(c, N, pml4I, pdptI, pdI, ptI, pdpt, pd, pt)
    && pt in vmm.tables && vmm.tables[pt][ptI].present
  }

  /** The range is mapped up to page c, where a leaf starts or the range ends. */
  ghost predicate UpTo(vmm: Vmm, job: Job, N: Shape, w: Ledger, c: nat)
    reads vmm, vmm.pmm, vmm.pmm.ram
  {
    && Building(vmm, job.root, N, w) && Booked(job, w, c)
    && NewNear(job.N0, N, job.v, if c > job.v then c - 1 else c)
    && Mapped(job, vmm.tables, c)
    && job.v <= c && AtLeaf(job.v, job.n, c)
  }

  /** What AtPage says, part by part. */
  lemma AtPageFacts(vmm: Vmm, job: Job, N: Shape, w: Ledger, c: nat, g: nat,
                    pml4I: nat, pdptI: nat, pdI: nat, ptI: nat, pdpt: nat, pd: nat, pt: nat)
    requires AtPage(vmm, job, N, w, c, g, pml4I, pdptI, pdI, ptI, pdpt, pd, pt)
    ensures Building(vmm, job.root, N, w) && Booked(job, w, c) && NewNear(job.N0, N, job.v, c) && Disjoint(N, w)
    ensures Halfway(job, vmm.tables, c, g) && job.v <= c < PAGE_LIMIT && AtLeaf(job.v, job.n, c)
    ensures Cursor(c, N, pml4I, pdptI, pdI, ptI, pdpt, pd, pt)
    ensures pt in vmm.tables && vmm.tables[pt][ptI].present
    ensures Node(3, c / 134217728) in N && N[Node(3, c / 134217728)] == pdpt
    ensures Node(2, c / 262144) in N && N[Node(2, c / 262144)] == pd
    ensures Node(1, c / 512) in N && N[Node(1, c / 512)] == pt
    ensures pdptI == c / 262144 % 512 && pdI == c / 512 % 512 && ptI == c % 512
    ensures pdI == 0 && ptI == 0 ==> c % 262144 == 0
  {
    hide Taken, Tree, Booked, NewNear, Halfway, AtLeaf;
    CursorIndices(c, N, pml4I, pdptI, pdI, ptI, pdpt, pd, pt);
  }

  /** The loop's test of the two low digits is a test of alignment. */
  lemma LeafChoice(vmm: Vmm, job: Job, N: Shape, w: Ledger, c: nat, g: nat,
                   pml4I: nat, pdptI: nat, pdI: nat, ptI: nat, pdpt: nat, pd: nat, pt: nat, left: nat)
    requires AtPage(vmm, job, N, w, c, g, pml4I, pdptI, pdI, ptI, pdpt, pd, pt)
    ensures LeafSpan(c, left + 1) ==
            if left > 262144 && pdI == 0 && ptI == 0 then 262144 else if left > 512 && ptI == 0 then 512 else 1
    ensures c + LeafSpan(c, left + 1) <= PAGE_LIMIT
    ensures LeafSpan(c, left + 1) == 1 && ptI < 511 ==> c + 1 < PAGE_LIMIT
    ensures pdI == 0 && ptI == 0 ==> c % 262144 == 0
    ensures ptI == 0 ==> c % 512 == 0
  {
    hide Building, Booked, NewNear, Halfway, AtLeaf;
    CursorIndices(c, N, pml4I, pdptI, pdI, ptI, pdpt, pd, pt);
    LeafFits(c, left + 1);
  }

  /** A leaf of s pages was placed at page c, and the loop goes on behind it. */
  lemma Onward(vmm: Vmm, job: Job, N: Shape, w: Ledger, N': Shape, w': Ledger, t: Tables, c: nat, g: nat, s: nat)
    requires Halfway(job, t, c, g) && job.v <= c < job.v + job.n && AtLeaf(job.v, job.n, c)
    requires s == LeafSpan(c, job.v + job.n - c)
    requires LeafUpdate(t, vmm.tables, job.root, c, s, Leaf(s, job.p + (c - job.v)))
    requires Building(vmm, job.root, N', w') && Booked(job, w', c + s) && NewNear(job.N0, N', job.v, c)
    ensures UpTo(vmm, job, N', w', c + s)
  {
    hide Building, Booked, NewNear, AtLeaf, Mapped, Halfway, LeafUpdate, LeafSpan;
    LeafDone(job, t, vmm.tables, c, g, s);
    NextLeaf(job.v, job.n, c);
    NewNearOn(job.N0, N', job.v, c, c + s - 1);
  }

  method GigabyteBranch(vmm: Vmm, p: nat, pml4I: nat, pdptI: nat, pdpt: nat, pd: nat, pt: nat,
                        ghost job: Job, ghost c: nat, ghost g: nat, ghost N: Shape, ghost w: Ledger)
    returns (ghost N': Shape, ghost w': Ledger)
    requires AtPage(vmm, job, N, w, c, g, pml4I, pdptI, 0, 0, pdpt, pd, pt)
    requires 5 <= |vmm.pmm.free| && p + 262144 <= FRAME_LIMIT && p == job.p + (c - job.v)
    requires c < job.v + job.n && LeafSpan(c, job.v + job.n - c) == 262144
    modifies vmm`tables, vmm`shape, vmm.pmm`allocatedPages, vmm.pmm`bits, vmm.pmm`free, vmm.pmm.ram
    ensures UpTo(vmm, job, N', w', c + 262144) && w'.handed == w.handed
    ensures |vmm.pmm.free| + 4 >= |old(vmm.pmm.free)|
    ensures Carry(c + 262144, N', pml4I, pdptI, 512, 512, pdpt, pd, pt)
  {
    hide *;
    AtPageFacts(vmm, job, N, w, c, g, pml4I, pdptI, 0, 0, pdpt, pd, pt);
    ghost var t := vmm.tables;
    N' := PlaceGigabyte(vmm, pdpt, pd, pt, pdptI, c, p, job.root, N, w);
    w' := w.(lost := w.lost + Dropped(N, Node(2, c / 262144), {pt, pd}));
    DroppedAreOld(job, N, w, c);
    NewNearWithout(job.N0, N, job.v, c, Node(2, c / 262144));
    Onward(vmm, job, N, w, N', w', t, c, g, 262144);
    CarryAfterGigabyte(c, N, pml4I, pdptI, pdpt, pd, pt, N');
  }

  method TwoMegabyteBranch(vmm: Vmm, p: nat, pml4I: nat, pdptI: nat, pdI: nat, pdpt: nat, pd: nat, pt: nat,
                           ghost job: Job, ghost c: nat, ghost g: nat, ghost N: Shape, ghost w: Ledger)
    returns (ghost N': Shape)
    requires AtPage(vmm, job, N, w, c, g, pml4I, pdptI, pdI, 0, pdpt, pd, pt)
    requires 5 <= |vmm.pmm.free| && p + 512 <= FRAME_LIMIT && p == job.p + (c - job.v)
    requires c < job.v + job.n && LeafSpan(c, job.v + job.n - c) == 512
    modifies vmm`tables, vmm`shape, vmm.pmm`allocatedPages, vmm.pmm`bits, vmm.pmm`free, vmm.pmm.ram
    ensures UpTo(vmm, job, N', w, c + 512)
    ensures |vmm.pmm.free| + 4 >= |old(vmm.pmm.free)|
    ensures Carry(c + 512, N', pml4I, pdptI, pdI, 512, pdpt, pd, pt)
  {
    hide *;
    AtPageFacts(vmm, job, N, w, c, g, pml4I, pdptI, pdI, 0, pdpt, pd, pt);
    ghost var t := vmm.tables;
    N' := PlaceTwoMegabytes(vmm, pd, pt, pdI, c, p, job.root, N, w);
    BookedOn(job, w, c, c + 512);
    NewNearWithout(job.N0, N, job.v, c, Node(1, c / 512));
    Onward(vmm, job, N, w, N', w, t, c, g, 512);
    CarryAfterTwoMegabytes(c, N, pml4I, pdptI, pdI, pdpt, pd, pt, N');
  }

  method PageBranch(vmm: Vmm, p: nat, pml4I: nat, pdptI: nat, pdI: nat, ptI: nat, pdpt: nat, pd: nat, pt: nat,
                    ghost job: Job, ghost c: nat, ghost g: nat, ghost N: Shape, ghost w: Ledger)
    requires AtPage(vmm, job, N, w, c, g, pml4I, pdptI, pdI, ptI, pdpt, pd, pt)
    requires p < FRAME_LIMIT && p == job.p + (c - job.v)
    requires c < job.v + job.n && LeafSpan(c, job.v + job.n - c) == 1
    modifies vmm`tables
    ensures UpTo(vmm, job, N, w, c + 1)
    ensures Carry(c + 1, N, pml4I, pdptI, pdI, ptI + 1, pdpt, pd, pt)
  {
    hide *;
    AtPageFacts(vmm, job, N, w, c, g, pml4I, pdptI, pdI, ptI, pdpt, pd, pt);
    ghost var t := vmm.tables;
    SetLeaf(vmm, pt, ptI, c, p, job.root, N, w);
    BookedOn(job, w, c, c + 1);
    Onward(vmm, job, N, w, N, w, t, c, g, 1);
    CarryAfterPage(c, N, pml4I, pdptI, pdI, ptI, pdpt, pd, pt);
  }

  /** The three-way choice at the top of the loop body: a 1 GiB leaf, a 2 MiB leaf or
      a page, and what it adds to the counter. */
  method PlaceLeaf(vmm: Vmm, left: nat, p: nat, pml4I: nat, pdptI: nat, pdI: nat, ptI: nat, pdpt: nat, pd: nat, pt: nat,
                   ghost job: Job, ghost c: nat, ghost g: nat, ghost N: Shape, ghost w: Ledger)
    returns (s: nat, pdNext: nat, ptNext: nat, ghost N': Shape, ghost w': Ledger)
    requires AtPage(vmm, job, N, w, c, g, pml4I, pdptI, pdI, ptI, pdpt, pd, pt)
    requires 5 <= |vmm.pmm.free| && p + left + 1 <= FRAME_LIMIT && p == job.p + (c - job.v) && c >= job.v
    requires c + left + 1 == job.v + job.n
    modifies vmm`tables, vmm`shape, vmm.pmm`allocatedPages, vmm.pmm`bits, vmm.pmm`free, vmm.pmm.ram
    ensures s == LeafSpan(c, left + 1)
    ensures UpTo(vmm, job, N', w', c + s) && w'.handed == w.handed
    ensures |vmm.pmm.free| + 4 >= |old(vmm.pmm.free)|
    ensures Carry(c + s, N', pml4I, pdptI, pdNext, ptNext, pdpt, pd, pt)
    ensures c + s <= PAGE_LIMIT && (ptNext <= 511 ==> c + s < PAGE_LIMIT)
  {
    hide AtPage, UpTo, Carry, LeafSpan;
    LeafChoice(vmm, job, N, w, c, g, pml4I, pdptI, pdI, ptI, pdpt, pd, pt, left);
    w' := w;
    if left > 512 * 512 && pdI == 0 && ptI == 0 {
      N', w' := GigabyteBranch(vmm, p, pml4I, pdptI, pdpt, pd, pt, job, c, g, N, w);
      return 512 * 512, pdI + 512, ptI + 512, N', w';
    } else if left > 512 && ptI == 0 {
      N' := TwoMegabyteBranch(vmm, p, pml4I, pdptI, pdI, pdpt, pd, pt, job, c, g, N, w);
      return 512, pdI, ptI + 512, N', w';
    } else {
      PageBranch(vmm, p, pml4I, pdptI, pdI, ptI, pdpt, pd, pt, job, c, g, N, w);
      return 1, pdI, ptI + 1, N, w';
    }
  }

  /** The lines before the loop. */
  method BeginRange(vmm: Vmm, root: nat, v: nat, ghost n: nat, ghost p: nat, ghost N: Shape, ghost w: Ledger)
    returns (pdpt: nat, pd: nat, pt: nat, ghost N': Shape, ghost w': Ledger, ghost g: nat)
    requires Building(vmm, root, N, w) && 4 <= |vmm.pmm.free|
    requires v < PAGE_LIMIT && Fresh(vmm.tables, root, v, n)
    modifies vmm`tables, vmm`shape, vmm.pmm`allocatedPages, vmm.pmm`bits, vmm.pmm`free, vmm.pmm.ram
    ensures AtPage(vmm, Job(root, v, n, p, old(vmm.tables), N, w), N', w', v, g,
                   Index(4, v), Index(3, v), Index(2, v), Index(1, v), pdpt, pd, pt)
    ensures w' == w.(handed := w.handed + {g}) && g !in w.handed && |w'.handed| == |w.handed| + 1
    ensures |vmm.pmm.free| + 4 >= |old(vmm.pmm.free)|
  {
    hide Building, Booked, NewNear, Halfway, Mapped, AtLeaf, LeafUpdate, SameLeaves, LeafOf, Index, Fresh, Cursor;
    ghost var job := Job(root, v, n, p, vmm.tables, N, w);
    RangeBegins(job);
    pdpt, pd, pt, N' := FirstTables(vmm, root, v, N, w);
    ghost var t1 := vmm.tables;
    SameLeaf1(old(vmm.tables), t1, root, v);
    FirstIndex(v);
    CursorTable(v, N', Index(4, v), Index(3, v), Index(2, v), Index(1, v), pdpt, pd, pt);
    g, w' := BeginLeaf(vmm, pt, v, Index(1, v), root, N', w);
    LeafBegun(job, old(vmm.tables), t1, vmm.tables, v, g);
    BookedMore(job, w, g, v);
  }

  lemma CursorTable(c: nat, N: Shape, pml4I: nat, pdptI: nat, pdI: nat, ptI: nat, pdpt: nat, pd: nat, pt: nat)
    requires Cursor(c, N, pml4I, pdptI, pdI, ptI, pdpt, pd, pt)
    ensures ptI == c % 512 && Node(1, c / 512) in N && N[Node(1, c / 512)] == pt
  {
  }

  lemma BookedMore(job: Job, w: Ledger, g: nat, c: nat)
    requires Booked(job, w, c)
    ensures Booked(job, w.(handed := w.handed + {g}), c)
  {
  }

  lemma RangeBegins(job: Job)
    requires Fresh(job.t0, job.root, job.v, job.n) && job.v < PAGE_LIMIT
    ensures Mapped(job, job.t0, job.v) && LeafOf(job.t0, job.root, job.v) == NoLeaf
    ensures AtLeaf(job.v, job.n, job.v) && Booked(job, job.w0, job.v)
  {
  }

  lemma SameLeaf1(t: Tables, t': Tables, root: nat, v: nat)
    requires SameLeaves(t, t', root) && v < PAGE_LIMIT
    ensures LeafOf(t', root, v) == LeafOf(t, root, v)
  {
  }

  /** From the carry to the next loop head. */
  method NextPage(vmm: Vmm, root: nat, a4: nat, a3: nat, a2: nat, a1: nat, pdptBefore: nat, pdBefore: nat,
                  ptBefore: nat, ghost job: Job, ghost c: nat, ghost N: Shape, ghost w: Ledger)
    returns (done: bool, pml4I: nat, pdptI: nat, pdI: nat, ptI: nat, pdpt: nat, pd: nat, pt: nat,
             ghost N': Shape, ghost w': Ledger, ghost g: nat)
    requires UpTo(vmm, job, N, w, c) && root == job.root
    requires Fresh(job.t0, job.root, job.v, job.n) && job.v <= c < job.v + job.n
    requires 4 <= |vmm.pmm.free|
    requires Carry(c, N, a4, a3, a2, a1, pdptBefore, pdBefore, ptBefore)
    requires c <= PAGE_LIMIT && (a1 <= 511 ==> c < PAGE_LIMIT)
    modifies vmm`tables, vmm`shape, vmm.pmm`allocatedPages, vmm.pmm`bits, vmm.pmm`free, vmm.pmm.ram
    ensures |vmm.pmm.free| + 4 >= |old(vmm.pmm.free)|
    ensures done <==> c == PAGE_LIMIT
    ensures done ==> N' == N && w' == w && UpTo(vmm, job, N, w, c)
    ensures !done ==> AtPage(vmm, job, N', w', c, g, pml4I, pdptI, pdI, ptI, pdpt, pd, pt)
    ensures !done ==> |w'.handed| == |w.handed| + 1
  {
    hide Building, Booked, NewNear, Halfway, Mapped, AtLeaf, LeafUpdate, SameLeaves, LeafOf, Fresh, Cursor, Carry;
    NextIsFresh(job, vmm.tables, c);
    NewNearOn(job.N0, N, job.v, if c > job.v then c - 1 else c, c);
    ghost var t := vmm.tables;
    w', g := w, 0;
    done, pml4I, pdptI, pdI, ptI, pdpt, pd, pt, N' :=
      NextTables(vmm, root, job.v, c, job.N0, N, a4, a3, a2, a1, pdptBefore, pdBefore, ptBefore, w);
    ghost var t1 := vmm.tables;
    if done {
      MappedSame(job, t, t1, c);
    } else {
      SameLeaf1(t, t1, root, c);
      CursorTable(c, N', pml4I, pdptI, pdI, ptI, pdpt, pd, pt);
      g, w' := BeginLeaf(vmm, pt, c, ptI, root, N', w);
      LeafBegun(job, t, t1, vmm.tables, c, g);
      BookedMore(job, w, g, c);
    }
  }

  /** What range mapping achieves: the leaves planned for the pages of the range, all
      other leaves as they were, and the accounts. */
  ghost predicate RangeMapped(vmm: Vmm, job: Job, N: Shape, w: Ledger)
    reads vmm, vmm.pmm, vmm.pmm.ram
  {
    && Building(vmm, job.root, N, w) && Booked(job, w, job.v + job.n)
    && NewNear(job.N0, N, job.v, if job.n > 0 then job.v + job.n - 1 else job.v)
    && Mapped(job, vmm.tables, job.v + job.n)
  }

  lemma RangeEnds(vmm: Vmm, job: Job, N: Shape, w: Ledger, c: nat)
    requires UpTo(vmm, job, N, w, c) && c <= job.v + job.n && (c == job.v + job.n || c == PAGE_LIMIT) && job.n > 0
    ensures RangeMapped(vmm, job, N, w)
  {
    hide Building, Booked, NewNear, Mapped, AtLeaf;
    NewNearOn(job.N0, N, job.v, if c > job.v then c - 1 else c, job.v + job.n - 1);
    BookedOn(job, w, c, job.v + job.n);
    if c < job.v + job.n { ClippedDone(job, vmm.tables, c); }
  }

  /** vmm_map_pages_pml4: every page of the range gets the leaf planned for it, so page
      v + k goes to frame p + k for every k below the number of pages, and every other
      page of the new map, and all of the map in use, is as before.  A range that runs
      past the last virtual page is cut off there.  Every frame is accounted for: each
      leaf begun was handed one, and no table is lost but those of the map before that
      a 1 GiB leaf of the range took the place of.  Asked for no pages at all, it still
      maps page v, to a frame g of its own. */
  method MapPages(vmm: Vmm, root: nat, physicalAddress: nat, virtualAddress: nat, numPages: nat, ghost N: Shape,
                  ghost w: Ledger)
    returns (ghost N': Shape, ghost w': Ledger, ghost g: nat)
    requires Building(vmm, root, N, w)
    requires Convert(vmm.tables, vmm.pml4, physicalAddress / 0x1000) + numPages <= FRAME_LIMIT
    requires Fresh(vmm.tables, root, PageOfAddress(virtualAddress), numPages)
    requires 4 + 8 * Leaves(PageOfAddress(virtualAddress), numPages) <= |vmm.pmm.free|
    modifies vmm`tables, vmm`shape, vmm.pmm`allocatedPages, vmm.pmm`bits, vmm.pmm`free, vmm.pmm.ram
    ensures var v, p := PageOfAddress(virtualAddress), old(Convert(vmm.tables, vmm.pml4, physicalAddress / 0x1000));
      var job := Job(root, v, numPages, p, old(vmm.tables), N, w);
      && (numPages > 0 ==> RangeMapped(vmm, job, N', w'))
      && (numPages > 0 ==>
            RangeUpdate(old(vmm.tables), vmm.tables, root, v, numPages, p) && KeepsOpen(old(vmm.tables), vmm.tables, root))
      && (numPages > 0 && v + numPages <= PAGE_LIMIT ==> |w'.handed| == |w.handed| + Leaves(v, numPages))
      && (numPages == 0 ==>
            && Building(vmm, root, N', w') && NewNear(N, N', v, v)
            && w' == w.(handed := w.handed + {g}) && g !in w.handed
            && LeafUpdate(old(vmm.tables), vmm.tables, root, v, 1, Leaf(1, g)))
      && |vmm.pmm.free| + 4 + 8 * Leaves(v, numPages) >= |old(vmm.pmm.free)|
  {
    hide *;
    VirtualPage(virtualAddress);
    var v := PageOfAddress(virtualAddress);
    var p := ConvertedFrame(vmm, physicalAddress, root, N, w);
    var pdpt, pd, pt;
    ghost var job := Job(root, v, numPages, p, vmm.tables, N, w);
    pdpt, pd, pt, N', w', g := BeginRange(vmm, root, v, numPages, p, N, w);
    if numPages == 0 {
      NoPages(vmm, job, N', w', g, Index(4, v), Index(3, v), Index(2, v), Index(1, v), pdpt, pd, pt);
      return;
    }
    var pml4I, pdptI, pdI, ptI := Index(4, v), Index(3, v), Index(2, v), Index(1, v);
    var currentPhys := p;
    var i := 0;
    while i < numPages
      invariant i < numPages && currentPhys == p + i
      invariant AtPage(vmm, job, N', w', v + i, g, pml4I, pdptI, pdI, ptI, pdpt, pd, pt)
      invariant |w'.handed| + Leaves(v + i, numPages - i) == |w.handed| + Leaves(v, numPages) + 1
      invariant |vmm.pmm.free| + 4 + 8 * Leaves(v, numPages) >= |old(vmm.pmm.free)| + 8 * Leaves(v + i, numPages - i)
      decreases numPages - i
    {
      LeavesStep(v + i, numPages - i);
      var s, done;
      s, done, pml4I, pdptI, pdI, ptI, pdpt, pd, pt, N', w', g :=
        Turn(vmm, root, numPages - 1 - i, currentPhys, pml4I, pdptI, pdI, ptI, pdpt, pd, pt, job, v + i, g, N', w');
      if done {
        RangeShows(vmm, job, N', w');
        return;
      }
      i := i + (s - 1);
      currentPhys := currentPhys + s;
      i := i + 1;
    }
  }

  /** One turn of the loop: places a leaf of s pages and goes on to the next page,
      unless the range, or the address space, ends there. */
  method Turn(vmm: Vmm, root: nat, left: nat, p: nat, a4: nat, a3: nat, a2: nat, a1: nat, pdptBefore: nat,
              pdBefore: nat, ptBefore: nat, ghost job: Job, ghost c: nat, ghost g: nat, ghost N: Shape, ghost w: Ledger)
    returns (s: nat, done: bool, pml4I: nat, pdptI: nat, pdI: nat, ptI: nat, pdpt: nat, pd: nat, pt: nat,
             ghost N': Shape, ghost w': Ledger, ghost g': nat)
    requires AtPage(vmm, job, N, w, c, g, a4, a3, a2, a1, pdptBefore, pdBefore, ptBefore) && root == job.root
    requires Fresh(job.t0, job.root, job.v, job.n) && 8 <= |vmm.pmm.free|
    requires job.v <= c && c + left + 1 == job.v + job.n && p == job.p + (c - job.v) && p + left + 1 <= FRAME_LIMIT
    modifies vmm`tables, vmm`shape, vmm.pmm`allocatedPages, vmm.pmm`bits, vmm.pmm`free, vmm.pmm.ram
    ensures s == LeafSpan(c, left + 1) && |vmm.pmm.free| + 8 >= |old(vmm.pmm.free)|
    ensures done <==> c + s == job.v + job.n || c + s == PAGE_LIMIT
    ensures done ==> RangeMapped(vmm, job, N', w') && w'.handed == w.handed
    ensures !done ==> AtPage(vmm, job, N', w', c + s, g', pml4I, pdptI, pdI, ptI, pdpt, pd, pt)
    ensures !done ==> |w'.handed| == |w.handed| + 1
  {
    hide *;
    LeavesStep(c, left + 1);
    done, pml4I, pdptI, pdpt, pd, pt, g' := true, a4, a3, pdptBefore, pdBefore, ptBefore, g;
    s, pdI, ptI, N', w' := PlaceLeaf(vmm, left, p, a4, a3, a2, a1, pdpt, pd, pt, job, c, g, N, w);
    // nothing is created for a page behind the range
    if s - 1 == left {
      RangeEnds(vmm, job, N', w', c + s);
      return;
    }
    done, pml4I, pdptI, pdI, ptI, pdpt, pd, pt, N', w', g' :=
      NextPage(vmm, root, pml4I, pdptI, pdI, ptI, pdpt, pd, pt, job, c + s, N', w');
    if done { RangeEnds(vmm, job, N', w', c + s); }
  }

  lemma VirtualPage(a: nat)
    ensures PageOfAddress(a) < PAGE_LIMIT
  {
  }

  lemma LeavesStep(v: nat, r: nat)
    requires r > 0
    ensures Leaves(v + r, 0) == 0
    ensures LeafSpan(v, r) <= r && Leaves(v, r) == 1 + Leaves(v + LeafSpan(v, r), r - LeafSpan(v, r))
    ensures Leaves(v, r) >= 1
  {
  }

  /** The conversion of the physical argument, by a walk of the map in use. */
  method ConvertedFrame(vmm: Vmm, physicalAddress: nat, ghost root: nat, ghost N: Shape, ghost w: Ledger)
    returns (p: nat)
    requires Building(vmm, root, N, w)
    ensures p == Convert(vmm.tables, vmm.pml4, physicalAddress / 0x1000)
  {
    var physical := vmm.ConvertAddress(physicalAddress);
    p := physical / 0x1000;
  }

  /** With no pages to map, the frame the first entry was given stays. */
  lemma NoPages(vmm: Vmm, job: Job, N: Shape, w: Ledger, g: nat,
                pml4I: nat, pdptI: nat, pdI: nat, ptI: nat, pdpt: nat, pd: nat, pt: nat)
    requires AtPage(vmm, job, N, w, job.v, g, pml4I, pdptI, pdI, ptI, pdpt, pd, pt)
    ensures Building(vmm, job.root, N, w) && NewNear(job.N0, N, job.v, job.v)
    ensures LeafUpdate(job.t0, vmm.tables, job.root, job.v, 1, Leaf(1, g))
  {
  }

  // ----- what the new leaves mean -----

  /** What range mapping does, seen page by page. */
  lemma RangeShows(vmm: Vmm, job: Job, N: Shape, w: Ledger)
    requires RangeMapped(vmm, job, N, w)
    ensures RangeUpdate(job.t0, vmm.tables, job.root, job.v, job.n, job.p) && KeepsOpen(job.t0, vmm.tables, job.root)
  {
    hide Building, Booked, NewNear, LeafOf, RangeUpdate;
    MappedShows(job, vmm.tables);
  }

  /** Which pages of the range are in a large leaf, and from which frame on. */
  lemma LargeLeafIff(job: Job, t: Tables, u: nat)
    requires Mapped(job, t, job.v + job.n) && job.v <= u < job.v + job.n && u < PAGE_LIMIT
    ensures LeafOf(t, job.root, u).Leaf?
    ensures var l := LeafOf(t, job.root, u);
      && (l.span == 262144 <==> exists b :: FitsWhole(job.v, job.n, u, b, 262144))
      && (l.span == 512 <==>
            (exists b :: FitsWhole(job.v, job.n, u, b, 512)) && !exists b :: FitsWhole(job.v, job.n, u, b, 262144))
      && l.span in {1, 512, 262144}
      && l.frame + u % l.span == job.p + (u - job.v)
  {
    hide LeafOf, PlannedSpan, FitsWhole;
    SpanIff(job.v, job.n, u);
    PlannedInRange(job.v, job.n, u);
  }

  /** The range is shown frame by frame, and nothing else changes. */
  lemma MappedShows(job: Job, t: Tables)
    requires Mapped(job, t, job.v + job.n)
    ensures RangeUpdate(job.t0, t, job.root, job.v, job.n, job.p)
  {
    hide LeafAt, PlannedSpan;
    forall u: nat | u < PAGE_LIMIT
      ensures Walk(t, job.root, u) ==
              if job.v <= u < job.v + job.n then Page(job.p + (u - job.v)) else Walk(job.t0, job.root, u)
    {
      assert LeafOf(t, job.root, u) ==
             if job.v <= u < job.v + job.n then Planned(job.v, job.n, job.p, u) else LeafOf(job.t0, job.root, u);
      if job.v <= u { PlannedInRange(job.v, job.n, u); }
    }
  }

  /** The leaf of a page is the entry its walk ends in. */
  lemma EntryIsLeaf(t: Tables, root: nat, N: Shape, m: Node, i: nat, u: nat)
    requires Tree(t, root, N) && m in N && m.level <= 4 && i < 512 && u < PAGE_LIMIT && Through(m, i, u)
    requires N[m] in t && IsLargeLeaf(m.level, t[N[m]][i])
    ensures LeafOf(t, root, u) == Leaf(Span(m.level - 1), t[N[m]][i].frame)
  {
    WalkThrough(t, root, N, m, i, u);
  }

  /** Every large entry that the range mapper installs, at whatever node of the new map,
      starts at a frame that is a multiple of its span, exactly when the first page and
      the first frame of the range agree modulo the largest span it uses. */
  lemma LargeBaseAligned(job: Job, t: Tables, N: Shape)
    requires Mapped(job, t, job.v + job.n) && Tree(t, job.root, N) && job.n > 0 && job.v + job.n <= PAGE_LIMIT
    ensures (forall m, i: nat, u: nat :: m in N && LargeEntryOf(t, N, m, i, u) && job.v <= u < job.v + job.n ==>
               t[N[m]][i].frame % Span(m.level - 1) == 0)
            <==> job.p % LargestSpan(job.v, job.n) == job.v % LargestSpan(job.v, job.n)
  {
    hide LargestSpan, PlannedSpan, LeafAt, Tree, Through, Span;
    AlignedIff(job.v, job.n, job.p);
    forall m, i: nat, u: nat | m in N && LargeEntryOf(t, N, m, i, u) && job.v <= u < job.v + job.n
      ensures t[N[m]][i].frame == Planned(job.v, job.n, job.p, u).frame
      ensures Span(m.level - 1) == Planned(job.v, job.n, job.p, u).span
    {
      EntryIsLeaf(t, job.root, N, m, i, u);
    }
    forall u: nat | job.v <= u < job.v + job.n && Planned(job.v, job.n, job.p, u).span > 1
      ensures exists m, i: nat :: m in N && LargeEntryOf(t, N, m, i, u)
    {
      LeafHasEntry(t, job.root, N, u);
    }
  }

  /** Page u is translated by the large leaf in entry i at node m. */
  ghost predicate LargeEntryOf(t: Tables, N: Shape, m: Node, i: nat, u: nat)
    requires m in N
  {
    1 <= m.level <= 4 && i < 512 && Through(m, i, u) && N[m] in t && IsLargeLeaf(m.level, t[N[m]][i])
  }

  lemma LeafHasEntry(t: Tables, root: nat, N: Shape, u: nat)
    requires Tree(t, root, N) && u < PAGE_LIMIT && LeafOf(t, root, u).Leaf? && LeafOf(t, root, u).span > 1
    ensures exists m, i: nat :: m in N && LargeEntryOf(t, N, m, i, u)
  {
    RootNode(t, root, N);
    LeafEntryBelow(t, root, N, Node(4, 0), u);
  }

  lemma {:induction false} LeafEntryBelow(t: Tables, root: nat, N: Shape, n: Node, u: nat)
    requires Tree(t, root, N) && n in N && 1 <= n.level <= 4 && OnPath(n, u) && u < PAGE_LIMIT
    requires LeafAt(t, N[n], n.level, u).Leaf? && LeafAt(t, N[n], n.level, u).span > 1
    ensures exists m, i: nat :: m in N && LargeEntryOf(t, N, m, i, u)
    decreases n.level
  {
    AtNode(t, root, N, n);
    var i := Index(n.level, u);
    if IsLink(n.level, t[N[n]][i]) {
      PathStep(n.level, u);
      LeafEntryBelow(t, root, N, Child(n, i), u);
    } else {
      assert LargeEntryOf(t, N, n, i, u);
    }
  }

  /** Mapping 514 pages from page 512 on to the frames from 1 on: whatever the page map
      was, page 512 is then in a 2 MiB leaf that starts at frame 1. */
  lemma MisalignedLeaf(job: Job, t: Tables)
    requires Mapped(job, t, job.v + job.n) && job.v == 512 && job.n == 514 && job.p == 1
    ensures LeafOf(t, job.root, 512) == Leaf(512, 1)
  {
    MisalignedExample();
  }
}
