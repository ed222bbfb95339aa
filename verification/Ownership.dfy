/** Who owns which frame, over every run of allocating, freeing, mapping and
    unmapping. */
module Ownership {
  import opened Arithmetic
  import opened MemoryMap
  import opened FrameAllocator
  import opened PageTables
  import opened VirtualMemory

  /** Requests of clients. */
  datatype Op =
    | Alloc
    | Free(address: nat)
    | Map(physicalAddress: nat, virtualAddress: nat, flags: bv8)
    | Unmap(virtualAddress: nat)

  /** Every usable frame outside the bitmap is free, or a table of the page map in
      use, or held by a client, or abandoned; it is only one of these; and every table
      of the map in use is such a frame. */
  ghost predicate Partition(vmm: Vmm, held: set<nat>, abandoned: set<nat>)
    reads vmm, vmm.pmm
  {
    Classes(vmm, vmm.shape.Values, vmm.pmm.free, held, abandoned)
  }

  /** The same about a set of table frames and a set of free frames. */
  ghost predicate Classes(vmm: Vmm, linked: set<nat>, free: set<nat>, held: set<nat>, abandoned: set<nat>) {
    && linked !! free
    && held !! free && held !! linked
    && abandoned !! free && abandoned !! linked && abandoned !! held
    && (forall f :: vmm.pmm.Lends(f) ==> f in free || f in linked || f in held || f in abandoned)
    && (forall f :: f in held || f in abandoned || f in free || f in linked ==> vmm.pmm.Lends(f))
  }

  /** The direct map shows every usable frame at its page, and no usable frame's number
      is mapped to another frame. */
  ghost predicate DirectMapped(vmm: Vmm, t: Tables, root: nat)
  {
    forall f :: vmm.pmm.Usable(f) ==>
      && Walk(t, root, DirectPage(vmm.offset, f)) == Page(f)
      && (Walk(t, root, f) == Unmapped || Walk(t, root, f) == Page(f))
  }

  /** Every page of the direct map can be written. */
  ghost predicate DirectOpen(vmm: Vmm, t: Tables, root: nat)
  {
    forall f :: vmm.pmm.Usable(f) ==> OpenPage(t, root, DirectPage(vmm.offset, f))
  }

  /** Splitting never meets a 1 GiB page, or keeps the flag. */
  ghost predicate SplitsAreSafe(vmm: Vmm)
    reads vmm
  {
    vmm.keepFlag || forall v: nat :: v < PAGE_LIMIT ==> !InGigabyteLeaf(vmm.tables, vmm.pml4, v)
  }

  /** What every run keeps: the page map in use is a tree of the VMM's own tables, and
      every frame has one owner. */
  ghost predicate RunInv(vmm: Vmm, held: set<nat>, abandoned: set<nat>)
    reads vmm, vmm.pmm, vmm.pmm.ram
  {
    vmm.Valid() && vmm.initialised && Partition(vmm, held, abandoned) && SplitsAreSafe(vmm)
  }

  /** A page that is neither a direct-map page of a usable frame nor, as a number, a
      usable frame. */
  predicate Outside(vmm: Vmm, v: nat)
  {
    && Idx(vmm.pmm.regions, v * 0x1000).None?
    && Idx(vmm.pmm.regions, (v + PAGE_LIMIT - PageOfAddress(vmm.offset)) % PAGE_LIMIT * 0x1000).None?
  }

  lemma OutsideMeans(vmm: Vmm, v: nat, f: nat)
    requires vmm.Valid() && v < PAGE_LIMIT && Outside(vmm, v) && vmm.pmm.Usable(f)
    ensures v != f && v != DirectPage(vmm.offset, f) && f < PAGE_LIMIT
  {
    vmm.pmm.UsableInMemory(f);
  }

  /** A point update outside the direct map leaves the direct map in order. */
  lemma DirectMapSurvives(vmm: Vmm, t: Tables, t': Tables, root: nat, v: nat, r: Translation)
    requires vmm.Valid() && DirectMapped(vmm, t, root)
    requires v < PAGE_LIMIT && Outside(vmm, v) && PointUpdate(t, t', root, v, r)
    ensures DirectMapped(vmm, t', root)
    ensures DirectOpen(vmm, t, root) ==> DirectOpen(vmm, t', root)
  {
    hide LeafAt, Open, Pmm.Usable, Outside;
    forall f | vmm.pmm.Usable(f)
      ensures Walk(t', root, DirectPage(vmm.offset, f)) == Page(f)
      ensures Walk(t', root, f) == Unmapped || Walk(t', root, f) == Page(f)
      ensures OpenPage(t, root, DirectPage(vmm.offset, f)) ==> OpenPage(t', root, DirectPage(vmm.offset, f))
    {
      OutsideMeans(vmm, v, f);
      vmm.UsableFits(f);
    }
  }

  lemma DirectMapKept(vmm: Vmm, t: Tables, t': Tables, root: nat)
    requires vmm.Valid() && DirectMapped(vmm, t, root) && SameMeaning(t, t', root)
    ensures DirectMapped(vmm, t', root)
    ensures DirectOpen(vmm, t, root) ==> DirectOpen(vmm, t', root)
  {
    hide LeafAt, Open, Pmm.Usable;
    forall f | vmm.pmm.Usable(f)
      ensures Walk(t', root, DirectPage(vmm.offset, f)) == Page(f)
      ensures Walk(t', root, f) == Unmapped || Walk(t', root, f) == Page(f)
      ensures OpenPage(t, root, DirectPage(vmm.offset, f)) ==> OpenPage(t', root, DirectPage(vmm.offset, f))
    {
      vmm.UsableFits(f);
    }
  }

  /** Freeing a frame that the direct map shows remaps it to where it was. */
  lemma RemapChangesNothing(vmm: Vmm, root: nat, t: Tables, t': Tables, f: nat)
    requires vmm.Valid() && DirectMapped(vmm, t, root) && vmm.pmm.Usable(f)
    requires PointUpdate(t, t', root, DirectPage(vmm.offset, f), Page(Convert(t, root, f) % FRAME_LIMIT))
    requires Opens(t, t', root, DirectPage(vmm.offset, f))
    ensures SameMeaning(t, t', root)
  {
    vmm.UsableFits(f);
    hide WindowOk, Vmm.Valid, Pmm.Usable, Walk, DirectPage, PointUpdate, SameMeaning, Opens;
    assert Convert(t, root, f) == f;
    PointUpdateNothing(t, t', root, DirectPage(vmm.offset, f), Page(f));
  }

  /** Mapping a freed frame's direct-map page again shows the frame there exactly when
      the frame's number, taken as a virtual page, is not mapped to another frame:
      the address conversion of the mapping call would follow that mapping. */
  lemma RemapIsRightIff(vmm: Vmm, t: Tables, t': Tables, f: nat)
    requires vmm.Valid() && vmm.pmm.Lends(f) && vmm.Remapped(t, t', f)
    ensures Walk(t', vmm.pml4, DirectPage(vmm.offset, f)) == Page(f) <==>
            match Walk(t, vmm.pml4, f)
            case Page(q) => q % FRAME_LIMIT == f
            case _ => true
  {
    vmm.LentFits(f);
    hide WindowOk, Vmm.Valid, Pmm.Lends, Walk, DirectPage;
  }

  /** Virtual page 5 shows frame 9 and the direct map, at 0xFFFF_8000_0000_0000, shows
      frame 5: frame 1 holds the PML4. */
  function RemapExample(): Tables {
    map[1 := ZeroTable()[0 := SplitEntry(2)][256 := SplitEntry(6)],
        2 := ZeroTable()[0 := SplitEntry(3)],
        3 := ZeroTable()[0 := SplitEntry(4)],
        4 := ZeroTable()[5 := SplitEntry(9)],
        6 := ZeroTable()[0 := SplitEntry(7)],
        7 := ZeroTable()[0 := SplitEntry(8)],
        8 := ZeroTable()[5 := SplitEntry(5)]]
  }

  /** The concrete failure of the remap: once frame 5 is freed, its direct-map page
      shows frame 9. */
  lemma RemapExampleFails(t': Tables)
    ensures var t, d := RemapExample(), DirectPage(0xFFFF_8000_0000_0000, 5);
      && Walk(t, 1, 5) == Page(9) && Walk(t, 1, d) == Page(5)
      && (PointUpdate(t, t', 1, d, Page(Convert(t, 1, 5) % FRAME_LIMIT)) ==> Walk(t', 1, d) == Page(9))
  {
    hide Walk, RemapExample, PointUpdate, Convert;
    LowPageShows();
    DirectPageShows();
    var t, d := RemapExample(), DirectPage(0xFFFF_8000_0000_0000, 5);
    if PointUpdate(t, t', 1, d, Page(Convert(t, 1, 5) % FRAME_LIMIT)) { RemapFollows(t, t', d); }
  }

  /** A walk through four entries. */
  lemma FourSteps(t: Tables, r: nat, a: nat, b: nat, c: nat, f: nat, v: nat)
    requires r in t && a in t && b in t && c in t
    requires a < FRAME_LIMIT && b < FRAME_LIMIT && c < FRAME_LIMIT && f < FRAME_LIMIT
    requires t[r][Index(4, v)] == SplitEntry(a) && t[a][Index(3, v)] == SplitEntry(b)
    requires t[b][Index(2, v)] == SplitEntry(c) && t[c][Index(1, v)] == SplitEntry(f)
    ensures Walk(t, r, v) == Page(f)
  {
    hide Index;
    assert LeafAt(t, c, 1, v) == Leaf(1, f);
    assert LeafAt(t, b, 2, v) == Leaf(1, f);
    assert LeafAt(t, a, 3, v) == Leaf(1, f);
    assert LeafAt(t, r, 4, v) == Leaf(1, f);
  }

  lemma LowPageShows()
    ensures Walk(RemapExample(), 1, 5) == Page(9)
  {
    hide Walk, SplitEntry;
    assert Index(4, 5) == 0 && Index(3, 5) == 0 && Index(2, 5) == 0 && Index(1, 5) == 5;
    FourSteps(RemapExample(), 1, 2, 3, 4, 9, 5);
  }

  lemma DirectPageShows()
    ensures Walk(RemapExample(), 1, DirectPage(0xFFFF_8000_0000_0000, 5)) == Page(5)
  {
    hide Walk, SplitEntry;
    DirectDigits();
    FourSteps(RemapExample(), 1, 6, 7, 8, 5, DirectPage(0xFFFF_8000_0000_0000, 5));
  }

  lemma DirectDigits()
    ensures var d := DirectPage(0xFFFF_8000_0000_0000, 5);
      Index(4, d) == 256 && Index(3, d) == 0 && Index(2, d) == 0 && Index(1, d) == 5
  {
    assert DirectPage(0xFFFF_8000_0000_0000, 5) == 0x8_0000_0005;
  }

  lemma RemapFollows(t: Tables, t': Tables, d: nat)
    requires Walk(t, 1, 5) == Page(9) && d < PAGE_LIMIT
    requires PointUpdate(t, t', 1, d, Page(Convert(t, 1, 5) % FRAME_LIMIT))
    ensures Walk(t', 1, d) == Page(9)
  {
    hide Walk;
  }

  lemma PointUpdateNothing(t: Tables, t': Tables, root: nat, v: nat, r: Translation)
    requires PointUpdate(t, t', root, v, r) && Walk(t, root, v) == r && Opens(t, t', root, v)
    ensures SameMeaning(t, t', root)
  {
    hide Walk, Open;
    if OpenPage(t, root, v) { PageIsWay(t, root, 4, v); }
  }

  /** Map growth moves frames from the free set (and the frame just given back) into
      tables, and the partition follows. */
  lemma PartitionFollows(vmm: Vmm, t: Tables, S: Shape, F: set<nat>, held: set<nat>, abandoned: set<nat>)
    requires vmm.Valid()
    requires Classes(vmm, S.Values, F, held, abandoned)
    requires Grew(vmm.pml4, t, S, F, vmm.tables, vmm.shape, vmm.pmm.free)
    ensures Partition(vmm, held, abandoned)
  {
  }

  lemma SafetyKept(vmm: Vmm, t: Tables)
    requires NoNewGigabytes(t, vmm.tables, vmm.pml4)
    requires vmm.keepFlag || forall v: nat :: v < PAGE_LIMIT ==> !InGigabyteLeaf(t, vmm.pml4, v)
    ensures SplitsAreSafe(vmm)
  {
  }

  // ----- the flat machine -----

  /** The flat view of the system: a translation, free frames and held frames. */
  datatype World = World(tables: Tables, free: set<nat>, held: set<nat>)

  ghost function Seen(vmm: Vmm, held: set<nat>): World
    reads vmm, vmm.pmm
  {
    World(vmm.tables, vmm.pmm.free, held)
  }

  /** The frame an address is mapped to. */
  function Behind(t: Tables, root: nat, address: nat): Option<nat> {
    match Walk(t, root, PageOfAddress(address)) case Page(f) => Some(f) case _ => None
  }

  /** Tables that mapping or unmapping an address takes. */
  function Cost(t: Tables, root: nat, address: nat): nat {
    Needs(t, root, 4, PageOfAddress(address))
  }

  /** The free frames once f has been given back. */
  ghost function WithBack(vmm: Vmm, free: set<nat>, f: nat): set<nat> {
    free + vmm.Returned(Some(f))
  }

  /** Requests that are served: all for which there are frames enough, except that a
      client does not free a frame that another owner has. */
  ghost predicate Served(vmm: Vmm, root: nat, w: World, op: Op) {
    match op
    case Alloc => w.free != {}
    case Free(a) => (
      match Behind(w.tables, root, a)
      case None => true
      case Some(f) =>
        && (f in w.held || f in w.free || !vmm.pmm.Lends(f))
        && (vmm.IsBitmapFrame(f) || Needs(w.tables, root, 4, DirectPage(vmm.offset, f)) <= |WithBack(vmm, w.free, f)|))
    case Map(_, a, _) => Cost(w.tables, root, a) <= |w.free|
    case Unmap(a) => Cost(w.tables, root, a) <= |w.free|
  }

  /** What freeing frame f does: it is not held any more and its direct-map page is
      mapped again, to it or to what its number is mapped to as a virtual page; no
      other page is affected.  A bitmap page is not freed at all. */
  ghost predicate GivesBack(vmm: Vmm, root: nat, w: World, f: nat, w': World) {
    && w'.held == w.held - {f}
    && if vmm.IsBitmapFrame(f) then w'.tables == w.tables && w'.free == w.free
       else
         && PointUpdate(w.tables, w'.tables, root, DirectPage(vmm.offset, f),
                        Page(Convert(w.tables, root, f) % FRAME_LIMIT))
         && Opens(w.tables, w'.tables, root, DirectPage(vmm.offset, f))
         && w'.free <= WithBack(vmm, w.free, f)
         && |w'.free| + Needs(w.tables, root, 4, DirectPage(vmm.offset, f)) == |WithBack(vmm, w.free, f)|
  }

  /** What a request does, seen from outside: a free frame comes into the client's
      hands, or leaves them, or one page and no other changes its translation, and
      exactly the tables that were missing are taken from the free frames. */
  ghost predicate Follows(vmm: Vmm, root: nat, w: World, op: Op, w': World) {
    if !Served(vmm, root, w, op) then w' == w
    else match op
    case Alloc =>
      w'.tables == w.tables && exists f :: f in w.free && w'.free == w.free - {f} && w'.held == w.held + {f}
    case Free(a) => (
      match Behind(w.tables, root, a)
      case None => w' == w
      case Some(f) => GivesBack(vmm, root, w, f, w'))
    case Map(p, a, flags) =>
      && w'.held == w.held && w'.free <= w.free && |w'.free| + Cost(w.tables, root, a) == |w.free|
      && PointUpdate(w.tables, w'.tables, root, PageOfAddress(a), Page(Convert(w.tables, root, p / 0x1000) % FRAME_LIMIT))
      && (flags & 0x7E == 2 ==> Opens(w.tables, w'.tables, root, PageOfAddress(a)))
    case Unmap(a) =>
      && w'.held == w.held && w'.free <= w.free && |w'.free| + Cost(w.tables, root, a) == |w.free|
      && PointUpdate(w.tables, w'.tables, root, PageOfAddress(a), Unmapped)
      && Opens(w.tables, w'.tables, root, PageOfAddress(a))
  }

  // ----- single requests -----

  lemma InUse(vmm: Vmm, held: set<nat>, abandoned: set<nat>)
    requires RunInv(vmm, held, abandoned)
    ensures vmm.initialised && vmm.offset < U64 && Tree(vmm.tables, vmm.pml4, vmm.shape)
  {
  }

  method StepAlloc(vmm: Vmm, ghost held: set<nat>, ghost abandoned: set<nat>) returns (page: nat, f: nat)
    requires RunInv(vmm, held, abandoned) && vmm.pmm.free != {}
    modifies vmm.pmm`allocatedPages, vmm.pmm`bits, vmm.pmm`free, vmm.pmm.ram
    ensures f in old(vmm.pmm.free) && vmm.pmm.free == old(vmm.pmm.free) - {f}
    ensures RunInv(vmm, held + {f}, abandoned)
    ensures page == PhysToVirt(vmm.offset, f * 0x1000)
  {
    hide Classes, Vmm.Valid, WindowOk, Pmm.Lends, PhysToVirt, InGigabyteLeaf;
    ghost var g;
    FreeFits(vmm, held, abandoned);
    page, g := vmm.Alloc();
    f := (page + U64 - vmm.offset) % U64 / 0x1000;
    HeldByOneMore(vmm, old(vmm.pmm.free), g, held, abandoned);
  }

  /** The address a free frame is given out by leads back to it. */
  lemma FreeFits(vmm: Vmm, held: set<nat>, abandoned: set<nat>)
    requires RunInv(vmm, held, abandoned)
    ensures vmm.offset < U64 && vmm.Ready()
    ensures forall g :: g in vmm.pmm.free ==> (PhysToVirt(vmm.offset, g * 0x1000) + U64 - vmm.offset) % U64 == g * 0x1000
  {
    hide Pmm.Lends;
    forall g | g in vmm.pmm.free
      ensures (PhysToVirt(vmm.offset, g * 0x1000) + U64 - vmm.offset) % U64 == g * 0x1000
    {
      vmm.LentFits(g);
      ThereAndBack(vmm.offset, g * 0x1000);
    }
  }

  lemma HeldByOneMore(vmm: Vmm, F: set<nat>, f: nat, held: set<nat>, abandoned: set<nat>)
    requires vmm.Valid() && vmm.initialised && SplitsAreSafe(vmm)
    requires Classes(vmm, vmm.shape.Values, F, held, abandoned) && f in F && vmm.pmm.free == F - {f}
    ensures RunInv(vmm, held + {f}, abandoned)
  {
    hide Vmm.Valid, SplitsAreSafe, Pmm.Lends;
  }

  /** What freeing a frame that has no other owner is about, and why it works. */
  lemma FreedFrame(vmm: Vmm, f: nat, held: set<nat>, abandoned: set<nat>)
    requires RunInv(vmm, held, abandoned) && (f in held || f in vmm.pmm.free || !vmm.pmm.Lends(f))
    ensures f !in vmm.shape.Values
    ensures vmm.keepFlag || !InGigabyteLeaf(vmm.tables, vmm.pml4, DirectPage(vmm.offset, f))
    ensures Classes(vmm, vmm.shape.Values, WithBack(vmm, vmm.pmm.free, f), held - {f}, abandoned)
  {
  }

  method StepFree(vmm: Vmm, address: nat, ghost held: set<nat>, ghost abandoned: set<nat>)
    requires RunInv(vmm, held, abandoned)
    requires Served(vmm, vmm.pml4, Seen(vmm, held), Free(address)) && vmm.FrameBehind(address).Some?
    modifies vmm`tables, vmm`shape, vmm.pmm`allocatedPages, vmm.pmm`bits, vmm.pmm`free, vmm.pmm.ram
    ensures var f := old(vmm.FrameBehind(address)).value;
      && RunInv(vmm, held - {f}, abandoned)
      && GivesBack(vmm, vmm.pml4, old(Seen(vmm, held)), f, Seen(vmm, held - {f}))
  {
    hide Tree, Grew, PointUpdate, InGigabyteLeaf, NoNewGigabytes, Walk, DirectPage, Vmm.Returned, WindowOk, Convert,
         Pmm.Lends, Vmm.IsBitmapFrame, Classes, Needs, PageOfAddress, Opens, HasLeaf, MappedEntry;
    InUse(vmm, held, abandoned);
    ghost var f := vmm.FrameBehind(address).value;
    FreedFrame(vmm, f, held, abandoned);
    var ok := vmm.Free(address);
    PartitionFollows(vmm, old(vmm.tables), old(vmm.shape), WithBack(vmm, old(vmm.pmm.free), f), held - {f}, abandoned);
    GrewAddsNoGigabyte(vmm.pml4, old(vmm.tables), old(vmm.shape), WithBack(vmm, old(vmm.pmm.free), f),
                       vmm.tables, vmm.shape, vmm.pmm.free);
    SafetyKept(vmm, old(vmm.tables));
  }

  lemma GrewAddsNoGigabyte(root: nat, t0: Tables, N0: Shape, F0: set<nat>, t1: Tables, N1: Shape, F1: set<nat>)
    requires Grew(root, t0, N0, F0, t1, N1, F1)
    ensures NoNewGigabytes(t0, t1, root) && F1 <= F0
  {
  }

  method StepMap(vmm: Vmm, physicalAddress: nat, virtualAddress: nat, flags: bv8, ghost held: set<nat>,
                 ghost abandoned: set<nat>)
    requires RunInv(vmm, held, abandoned) && Cost(vmm.tables, vmm.pml4, virtualAddress) <= |vmm.pmm.free|
    modifies vmm`tables, vmm`shape, vmm.pmm`allocatedPages, vmm.pmm`bits, vmm.pmm`free, vmm.pmm.ram
    ensures RunInv(vmm, held, abandoned)
    ensures PointUpdate(old(vmm.tables), vmm.tables, vmm.pml4, PageOfAddress(virtualAddress),
                        Page(old(vmm.Target(physicalAddress))))
    ensures flags & 0x7E == 2 ==> Opens(old(vmm.tables), vmm.tables, vmm.pml4, PageOfAddress(virtualAddress))
    ensures vmm.pmm.free <= old(vmm.pmm.free)
    ensures |vmm.pmm.free| + Cost(old(vmm.tables), vmm.pml4, virtualAddress) == |old(vmm.pmm.free)|
  {
    hide Tree, Grew, PointUpdate, InGigabyteLeaf, NoNewGigabytes, Walk, PageOfAddress, Vmm.Target, WindowOk, Classes,
         Needs, SameMeaning, SameGigabytes, Opens, HasLeaf;
    var ok;
    ghost var N';
    ok, N' := vmm.MapPage(vmm.pml4, physicalAddress, virtualAddress, flags, vmm.shape);
    PartitionFollows(vmm, old(vmm.tables), old(vmm.shape), old(vmm.pmm.free), held, abandoned);
    GrewAddsNoGigabyte(vmm.pml4, old(vmm.tables), old(vmm.shape), old(vmm.pmm.free), vmm.tables, vmm.shape,
                       vmm.pmm.free);
    SafetyKept(vmm, old(vmm.tables));
  }

  method StepUnmap(vmm: Vmm, virtualAddress: nat, ghost held: set<nat>, ghost abandoned: set<nat>)
    requires RunInv(vmm, held, abandoned) && Cost(vmm.tables, vmm.pml4, virtualAddress) <= |vmm.pmm.free|
    modifies vmm`tables, vmm`shape, vmm.pmm`allocatedPages, vmm.pmm`bits, vmm.pmm`free, vmm.pmm.ram
    ensures RunInv(vmm, held, abandoned)
    ensures PointUpdate(old(vmm.tables), vmm.tables, vmm.pml4, PageOfAddress(virtualAddress), Unmapped)
    ensures Opens(old(vmm.tables), vmm.tables, vmm.pml4, PageOfAddress(virtualAddress))
    ensures vmm.pmm.free <= old(vmm.pmm.free)
    ensures |vmm.pmm.free| + Cost(old(vmm.tables), vmm.pml4, virtualAddress) == |old(vmm.pmm.free)|
  {
    hide Tree, Grew, PointUpdate, InGigabyteLeaf, NoNewGigabytes, Walk, PageOfAddress, WindowOk, Classes, Needs, Opens,
         HasLeaf;
    var ok := vmm.UnmapPage(virtualAddress);
    PartitionFollows(vmm, old(vmm.tables), old(vmm.shape), old(vmm.pmm.free), held, abandoned);
    GrewAddsNoGigabyte(vmm.pml4, old(vmm.tables), old(vmm.shape), old(vmm.pmm.free), vmm.tables, vmm.shape,
                       vmm.pmm.free);
    SafetyKept(vmm, old(vmm.tables));
  }

  // ----- runs -----

  /** May the frame behind an address be freed, and can its remapping be afforded? */
  method MayFree(vmm: Vmm, phys: nat, held: set<nat>, frames: nat, ghost abandoned: set<nat>) returns (b: bool)
    requires RunInv(vmm, held, abandoned) && frames == |vmm.pmm.free|
    ensures var f := phys / 0x1000;
      b <==>
      && (f in held || f in vmm.pmm.free || !vmm.pmm.Lends(f))
      && (vmm.IsBitmapFrame(f)
          || Needs(vmm.tables, vmm.pml4, 4, DirectPage(vmm.offset, f)) <= |WithBack(vmm, vmm.pmm.free, f)|)
  {
    var f := phys / 0x1000;
    var lent, clear := vmm.pmm.StateOf(phys);
    var index := vmm.pmm.GetIndexByAddress(phys);
    IdxOfPageStart(vmm.pmm.regions, phys, vmm.pmm.ram.Length);
    assert phys - phys % 0x1000 == f * 0x1000;
    assert vmm.IsBitmapFrame(f) ==> !lent;
    var bitmap := index < vmm.pmm.bitmapPages;
    assert bitmap == vmm.IsBitmapFrame(f);
    assert |WithBack(vmm, vmm.pmm.free, f)| == if lent && !clear then frames + 1 else frames by {
      if !lent || clear { assert vmm.pmm.free + vmm.Returned(Some(f)) == vmm.pmm.free; }
    }
    b := (f in held || clear || !lent)
         && (bitmap || Needs(vmm.tables, vmm.pml4, 4, DirectPage(vmm.offset, f)) <= if lent && !clear then frames + 1 else frames);
  }

  /** Serves one request, or passes it over. */
  method Serve(vmm: Vmm, op: Op, held: set<nat>, ghost abandoned: set<nat>) returns (held': set<nat>)
    requires RunInv(vmm, held, abandoned)
    modifies vmm`tables, vmm`shape, vmm.pmm`allocatedPages, vmm.pmm`bits, vmm.pmm`free, vmm.pmm.ram
    ensures RunInv(vmm, held', abandoned)
    ensures Follows(vmm, vmm.pml4, old(Seen(vmm, held)), op, Seen(vmm, held'))
  {
    hide RunInv, PointUpdate, Opens, PageOfAddress, Convert, Walk, Tree, Needs, WithBack, Vmm.IsBitmapFrame, Pmm.Lends,
         GivesBack, Cost, DirectPage;
    held' := held;
    InUse(vmm, held, abandoned);
    var bytes := FreeBytes(vmm, held, abandoned);
    var frames := bytes / 0x1000;
    match op {
      case Alloc =>
        if frames > 0 {
          var _, f := StepAlloc(vmm, held, abandoned);
          held' := held + {f};
        }
      case Free(a) =>
        var phys := vmm.PmmVirtToPhys(a);
        if phys != U64_MAX {
          var b := MayFree(vmm, phys, held, frames, abandoned);
          if b {
            StepFree(vmm, a, held, abandoned);
            held' := held - {phys / 0x1000};
          }
        }
      case Map(p, a, flags) =>
        if Cost(vmm.tables, vmm.pml4, a) <= frames {
          StepMap(vmm, p, a, flags, held, abandoned);
        }
      case Unmap(a) =>
        if Cost(vmm.tables, vmm.pml4, a) <= frames {
          StepUnmap(vmm, a, held, abandoned);
        }
    }
  }

  /** Any run of client requests, whatever addresses they name, keeps every frame in
      exactly one class and the page map a tree of its own tables; and it refines the
      flat machine: request by request, the log of what is seen from outside follows
      it. */
  method Run(vmm: Vmm, ops: seq<Op>, start: set<nat>, ghost abandoned: set<nat>)
    returns (held: set<nat>, ghost log: seq<World>)
    requires RunInv(vmm, start, abandoned)
    modifies vmm`tables, vmm`shape, vmm.pmm`allocatedPages, vmm.pmm`bits, vmm.pmm`free, vmm.pmm.ram
    ensures RunInv(vmm, held, abandoned)
    ensures |log| == |ops| + 1 && log[0] == old(Seen(vmm, start)) && log[|ops|] == Seen(vmm, held)
    ensures forall i :: 0 <= i < |ops| ==> Follows(vmm, vmm.pml4, log[i], ops[i], log[i + 1])
  {
    hide RunInv, Follows, Seen;
    held, log := start, [Seen(vmm, start)];
    for i := 0 to |ops|
      invariant RunInv(vmm, held, abandoned)
      invariant |log| == i + 1 && log[0] == old(Seen(vmm, start)) && log[i] == Seen(vmm, held)
      invariant forall j :: 0 <= j < i ==> Follows(vmm, vmm.pml4, log[j], ops[j], log[j + 1])
    {
      held := Serve(vmm, ops[i], held, abandoned);
      log := log + [Seen(vmm, held)];
    }
  }

  // ----- runs that leave the direct map alone -----

  /** A request that names no page of the direct map, no page whose number is a usable
      frame, and frees no frame outside usable memory. */
  ghost predicate Tame(vmm: Vmm, root: nat, w: World, op: Op) {
    match op
    case Alloc => true
    case Free(a) => (match Behind(w.tables, root, a) case None => true case Some(f) => vmm.pmm.Usable(f))
    case Map(_, a, _) => Outside(vmm, PageOfAddress(a))
    case Unmap(a) => Outside(vmm, PageOfAddress(a))
  }

  /** A tame request keeps the direct map exact, and freeing by any address changes no
      translation at all. */
  lemma TameKeeps(vmm: Vmm, root: nat, w: World, op: Op, w': World)
    requires vmm.Valid() && DirectMapped(vmm, w.tables, root)
    requires Follows(vmm, root, w, op, w') && Tame(vmm, root, w, op)
    ensures DirectMapped(vmm, w'.tables, root)
    ensures DirectOpen(vmm, w.tables, root) ==> DirectOpen(vmm, w'.tables, root)
    ensures op.Free? ==> SameMeaning(w.tables, w'.tables, root)
  {
    hide Vmm.Valid, DirectMapped, DirectOpen, Walk, Needs, PageOfAddress, PointUpdate, Opens, SameMeaning, WithBack,
         Convert, DirectPage, Outside, Vmm.IsBitmapFrame, Cost;
    match op {
      case Alloc =>
      case Free(a) =>
        SameItself(w.tables, root);
        if Served(vmm, root, w, op) && Behind(w.tables, root, a).Some? {
          var f := Behind(w.tables, root, a).value;
          if !vmm.IsBitmapFrame(f) {
            RemapChangesNothing(vmm, root, w.tables, w'.tables, f);
          }
          DirectMapKept(vmm, w.tables, w'.tables, root);
        }
      case Map(p, a, _) =>
        if Served(vmm, root, w, op) {
          PageInRange(a);
          DirectMapSurvives(vmm, w.tables, w'.tables, root, PageOfAddress(a),
                            Page(Convert(w.tables, root, p / 0x1000) % FRAME_LIMIT));
        }
      case Unmap(a) =>
        if Served(vmm, root, w, op) {
          PageInRange(a);
          DirectMapSurvives(vmm, w.tables, w'.tables, root, PageOfAddress(a), Unmapped);
        }
    }
  }

  lemma SameItself(t: Tables, root: nat)
    ensures SameMeaning(t, t, root)
  {
  }

  lemma PageInRange(a: nat)
    ensures PageOfAddress(a) < PAGE_LIMIT
  {
  }

  /** Over any run of tame requests the direct map stays exact, and stays writable. */
  lemma {:induction false} TameRun(vmm: Vmm, root: nat, ops: seq<Op>, log: seq<World>, k: nat)
    requires vmm.Valid() && |log| == |ops| + 1 && k <= |ops| && DirectMapped(vmm, log[0].tables, root)
    requires forall i :: 0 <= i < |ops| ==> Follows(vmm, root, log[i], ops[i], log[i + 1])
    requires forall i :: 0 <= i < |ops| ==> Tame(vmm, root, log[i], ops[i])
    ensures DirectMapped(vmm, log[k].tables, root)
    ensures DirectOpen(vmm, log[0].tables, root) ==> DirectOpen(vmm, log[k].tables, root)
    decreases k
  {
    hide Vmm.Valid, DirectMapped, DirectOpen, Follows, Tame;
    if k > 0 {
      TameRun(vmm, root, ops, log, k - 1);
      TameKeeps(vmm, root, log[k - 1], ops[k - 1], log[k]);
    }
  }

  method FreeBytes(vmm: Vmm, ghost held: set<nat>, ghost abandoned: set<nat>) returns (bytes: nat)
    requires RunInv(vmm, held, abandoned)
    ensures bytes == |vmm.pmm.free| * 0x1000
  {
    bytes := vmm.pmm.CurrentFreeMemory();
  }
}
