/** The heap with the pages under it and the frames under those, as one machine: heap
    calls and page requests, in any order. */
module KernelMemory {
  import opened Arithmetic
  import opened MemoryMap
  import opened FrameAllocator
  import opened PageTables
  import opened VirtualMemory
  import opened Ownership
  import opened HeapPages
  import opened KernelHeap
  import Segments
  import HeapRuns

  datatype Request =
    | HeapRequest(call: HeapRuns.Call)
    | PageRequest(op: Op)

  /** Pages a heap of less than 4 GiB can have. */
  const WINDOW: nat := 0x10_0000

  /** The heap's pages are none of the direct map's. */
  ghost predicate HeapWindow(vmm: Vmm, base: nat) {
    && base % 0x1000 == 0 && PageOfAddress(base) + WINDOW <= PAGE_LIMIT
    && forall u: nat :: PageOfAddress(base) <= u < PageOfAddress(base) + WINDOW ==> Outside(vmm, u)
  }

  /** The pages from v on show the frames, and no frame twice. */
  ghost predicate Backed(t: Tables, root: nat, v: nat, frames: seq<nat>) {
    Distinct(frames) && forall i: nat :: i < |frames| ==> Walk(t, root, v + i) == Page(frames[i])
  }

  /** The heap's pages, those it may yet grow by included, can be written. */
  ghost predicate WindowOpen(t: Tables, root: nat, v: nat) {
    forall u: nat :: v <= u < v + WINDOW && u < PAGE_LIMIT ==> OpenPage(t, root, u)
  }

  lemma WindowStaysOpen(t: Tables, t': Tables, root: nat, v: nat)
    requires WindowOpen(t, root, v) && KeepsOpen(t, t', root)
    ensures WindowOpen(t', root, v)
  {
    hide Open;
  }

  /** What every run keeps: the heap is whole and its blocks are known, every frame has
      one owner, the direct map is exact, and every page of the heap can be written and has
      a frame of its own that the kernel holds. */
  ghost predicate Inv(vmm: Vmm, heap: Heap, live: map<nat, nat>, frames: seq<nat>, held: set<nat>,
                      abandoned: set<nat>)
    reads vmm, vmm.pmm, vmm.pmm.ram, heap
  {
    && heap.Valid() && HeapRuns.Holds(heap.segs, live)
    && RunInv(vmm, held, abandoned) && DirectMapped(vmm, vmm.tables, vmm.pml4)
    && HeapWindow(vmm, heap.base) && |frames| == heap.heapSize && Elements(frames) <= held
    && Backed(vmm.tables, vmm.pml4, PageOfAddress(heap.base), frames)
    && WindowOpen(vmm.tables, vmm.pml4, PageOfAddress(heap.base))
  }

  // ----- what that means for every byte -----

  /** The physical address behind a virtual one. */
  ghost function Physical(t: Tables, root: nat, a: nat): Option<nat> {
    match Walk(t, root, PageOfAddress(a)) case Page(f) => Some(f * 0x1000 + a % 0x1000) case _ => None
  }

  lemma PageOfByte(base: nat, a: nat)
    requires base % 0x1000 == 0 && base <= a && PageOfAddress(base) + (a - base) / 0x1000 < PAGE_LIMIT
    ensures PageOfAddress(a) == PageOfAddress(base) + (a - base) / 0x1000
    ensures a % 0x1000 == (a - base) % 0x1000
  {
    var k := (a - base) / 0x1000;
    PageOfOffset(base, k);
    assert a / 0x1000 == (base + k * 0x1000) / 0x1000;
  }

  /** A byte of backed pages has the frame of its page. */
  lemma BackedByte(t: Tables, root: nat, base: nat, frames: seq<nat>, a: nat)
    requires Backed(t, root, PageOfAddress(base), frames) && |frames| < WINDOW
    requires base % 0x1000 == 0 && PageOfAddress(base) + WINDOW <= PAGE_LIMIT
    requires base <= a < base + |frames| * 0x1000
    ensures var k := (a - base) / 0x1000;
      k < |frames| && Physical(t, root, a) == Some(frames[k] * 0x1000 + (a - base) % 0x1000)
  {
    hide PageOfAddress, Walk;
    PageOfByte(base, a);
  }

  lemma ByteOpen(t: Tables, root: nat, base: nat, a: nat)
    requires WindowOpen(t, root, PageOfAddress(base)) && base % 0x1000 == 0 && base <= a
    requires PageOfAddress(base) + WINDOW <= PAGE_LIMIT && (a - base) / 0x1000 < WINDOW
    ensures OpenPage(t, root, PageOfAddress(a))
  {
    hide OpenPage, PageOfAddress;
    PageOfByte(base, a);
  }

  /** Every byte of the heap can be written, and lies in a frame that the kernel holds and
      that is neither free nor a page table. */
  lemma HeapByteHeld(vmm: Vmm, heap: Heap, live: map<nat, nat>, frames: seq<nat>, held: set<nat>,
                     abandoned: set<nat>, a: nat)
    requires Inv(vmm, heap, live, frames, held, abandoned)
    requires heap.base <= a < heap.base + heap.heapSize * 0x1000
    ensures var k := (a - heap.base) / 0x1000;
      && k < |frames| && frames[k] in held && frames[k] !in vmm.pmm.free && frames[k] !in vmm.shape.Values
      && Physical(vmm.tables, vmm.pml4, a) == Some(frames[k] * 0x1000 + (a - heap.base) % 0x1000)
      && OpenPage(vmm.tables, vmm.pml4, PageOfAddress(a))
  {
    hide *;
    ByteOpen(vmm.tables, vmm.pml4, heap.base, a) by { FitsHeapWindow(vmm, heap, live, frames, held, abandoned); }
    FitsHeapWindow(vmm, heap, live, frames, held, abandoned);
    BackedByte(vmm.tables, vmm.pml4, heap.base, frames, a);
    OneOwner(vmm, held, abandoned, frames, (a - heap.base) / 0x1000);
  }

  lemma FitsHeapWindow(vmm: Vmm, heap: Heap, live: map<nat, nat>, frames: seq<nat>, held: set<nat>, abandoned: set<nat>)
    requires Inv(vmm, heap, live, frames, held, abandoned)
    ensures heap.base % 0x1000 == 0 && heap.heapSize == |frames| < WINDOW
    ensures PageOfAddress(heap.base) + WINDOW <= PAGE_LIMIT
    ensures RunInv(vmm, held, abandoned) && Elements(frames) <= held && Distinct(frames)
    ensures Backed(vmm.tables, vmm.pml4, PageOfAddress(heap.base), frames)
    ensures WindowOpen(vmm.tables, vmm.pml4, PageOfAddress(heap.base))
  {
    hide OpenPage, Walk, Outside;
  }

  lemma OneOwner(vmm: Vmm, held: set<nat>, abandoned: set<nat>, frames: seq<nat>, k: nat)
    requires RunInv(vmm, held, abandoned) && Elements(frames) <= held && k < |frames|
    ensures frames[k] in held && frames[k] !in vmm.pmm.free && frames[k] !in vmm.shape.Values
  {
    assert frames[k] in Elements(frames);
  }

  /** No two bytes of the heap are the same byte of memory. */
  lemma HeapBytesApart(vmm: Vmm, heap: Heap, live: map<nat, nat>, frames: seq<nat>, held: set<nat>,
                       abandoned: set<nat>, a: nat, b: nat)
    requires Inv(vmm, heap, live, frames, held, abandoned) && a != b
    requires heap.base <= a < heap.base + heap.heapSize * 0x1000
    requires heap.base <= b < heap.base + heap.heapSize * 0x1000
    ensures Physical(vmm.tables, vmm.pml4, a) != Physical(vmm.tables, vmm.pml4, b)
  {
    hide *;
    HeapByteHeld(vmm, heap, live, frames, held, abandoned, a);
    HeapByteHeld(vmm, heap, live, frames, held, abandoned, b);
    FitsHeapWindow(vmm, heap, live, frames, held, abandoned);
    ApartInPages(frames, a - heap.base, b - heap.base);
  }

  lemma ApartInPages(frames: seq<nat>, a: nat, b: nat)
    requires Distinct(frames) && a != b && a / 0x1000 < |frames| && b / 0x1000 < |frames|
    ensures frames[a / 0x1000] * 0x1000 + a % 0x1000 != frames[b / 0x1000] * 0x1000 + b % 0x1000
  {
    var i, j := a / 0x1000, b / 0x1000;
    if i < j { assert frames[i] != frames[j]; }
    if j < i { assert frames[j] != frames[i]; }
  }

  /** So two blocks that clients hold share no byte of physical memory. */
  lemma HeldBlocksShareNoByte(vmm: Vmm, heap: Heap, live: map<nat, nat>, frames: seq<nat>, held: set<nat>,
                              abandoned: set<nat>, x: nat, i: nat, y: nat, j: nat)
    requires Inv(vmm, heap, live, frames, held, abandoned)
    requires x in live && y in live && x != y && i < live[x] && j < live[y]
    ensures Physical(vmm.tables, vmm.pml4, x + i).Some?
    ensures Physical(vmm.tables, vmm.pml4, x + i) != Physical(vmm.tables, vmm.pml4, y + j)
  {
    hide Inv, HeapRuns.Holds, Physical;
    BlocksInRange(vmm, heap, live, frames, held, abandoned, x, y);
    HeapByteHeld(vmm, heap, live, frames, held, abandoned, x + i);
    HeapBytesApart(vmm, heap, live, frames, held, abandoned, x + i, y + j);
  }

  lemma BlocksInRange(vmm: Vmm, heap: Heap, live: map<nat, nat>, frames: seq<nat>, held: set<nat>,
                      abandoned: set<nat>, x: nat, y: nat)
    requires Inv(vmm, heap, live, frames, held, abandoned) && x in live && y in live
    ensures heap.base <= x && x + live[x] <= heap.base + heap.heapSize * 0x1000
    ensures heap.base <= y && y + live[y] <= heap.base + heap.heapSize * 0x1000
    ensures x != y ==> x + live[x] <= y || y + live[y] <= x
  {
    HeapRuns.NotEmpty(heap);
    HeapRuns.HeldBlocksApart(heap, live, x, y, 0);
    HeapRuns.HeldBlocksApart(heap, live, y, x, 0);
  }

  // ----- the start -----

  lemma BackedByGrowth(t: Tables, t': Tables, root: nat, v: nat, frames: seq<nat>, more: seq<nat>, held: set<nat>,
                       free: set<nat>)
    requires Backed(t, root, v, frames) && v + |frames| + |more| <= PAGE_LIMIT
    requires ShowsFrames(t, t', root, v + |frames|, more)
    requires Distinct(more) && Elements(more) <= free && Elements(frames) <= held && held !! free
    ensures Backed(t', root, v, frames + more)
    ensures Elements(frames + more) == Elements(frames) + Elements(more)
  {
    hide Walk;
    var s := frames + more;
    forall i, j | 0 <= i < j < |s| ensures s[i] != s[j] {
      if i < |frames| <= j {
        assert frames[i] in Elements(frames) && more[j - |frames|] in Elements(more);
      }
    }
    forall x ensures x in Elements(s) <==> x in Elements(frames) + Elements(more) {
      if x in Elements(frames) {
        var i :| 0 <= i < |frames| && frames[i] == x;
        assert s[i] == x;
      }
      if x in Elements(more) {
        var i :| 0 <= i < |more| && more[i] == x;
        assert s[|frames| + i] == x;
      }
    }
    forall i: nat | i < |s| ensures Walk(t', root, v + i) == Page(s[i]) {
      assert i < |frames| ==> Walk(t, root, v + i) == Page(frames[i]);
    }
  }

  /** The address the kernel starts its heap at has such a window when the direct map is
      where the boot loader puts it and physical memory ends below 0x7FF0_0000_0000. */
  lemma KernelHeapAddress(vmm: Vmm)
    requires vmm.Valid() && vmm.offset == 0xFFFF_8000_0000_0000 && vmm.pmm.ram.Length <= 0x7FF0_0000_0000
    ensures HeapWindow(vmm, 0xFFFF_FFF0_0000_0000) && 0xFFFF_FFF0_0000_0000 + U32 <= U64
  {
    assert PageOfAddress(0xFFFF_FFF0_0000_0000) == 0xF_FF00_0000 && PageOfAddress(vmm.offset) == 0x8_0000_0000;
    forall u: nat | 0xF_FF00_0000 <= u < 0xF_FF10_0000 ensures Outside(vmm, u) {
      assert (u + PAGE_LIMIT - 0x8_0000_0000) % PAGE_LIMIT == u - 0x8_0000_0000;
      BeyondMemory(vmm, u * 0x1000);
      BeyondMemory(vmm, (u - 0x8_0000_0000) * 0x1000);
    }
  }

  lemma BeyondMemory(vmm: Vmm, a: nat)
    requires vmm.Valid() && vmm.pmm.ram.Length <= a
    ensures Idx(vmm.pmm.regions, a).None?
  {
    IdxDefined(vmm.pmm.regions, a);
  }

  /** heap_init: a heap of one page over a frame that was free. */
  method HeapInit(vmm: Vmm, base: nat, repaired: bool, held: set<nat>, ghost abandoned: set<nat>)
    returns (heap: Heap, frames: seq<nat>)
    requires RunInv(vmm, held, abandoned) && DirectMapped(vmm, vmm.tables, vmm.pml4)
    requires 4 <= |vmm.pmm.free| && 0 < base && base + U32 <= U64 && HeapWindow(vmm, base)
    requires WindowOpen(vmm.tables, vmm.pml4, PageOfAddress(base))
    modifies vmm`tables, vmm`shape, vmm.pmm`allocatedPages, vmm.pmm`bits, vmm.pmm`free, vmm.pmm.ram
    ensures fresh(heap) && heap.base == base && heap.repaired == repaired
    ensures Inv(vmm, heap, map[], frames, held + Elements(frames), abandoned)
    ensures |frames| == 1 && Elements(frames) <= old(vmm.pmm.free)
    ensures heap.segs == [Segments.Seg(base, 0x1000 - Segments.HEADER, true)]
    ensures |heap.data| == 0x1000 && forall j :: 0 <= j < 0x1000 ==> heap.data[j] == 0
  {
    hide RunInv, DirectMapped, Walk, Outside, Heap.Valid, HeapRuns.Holds, KeepsOpen, WindowOpen;
    ghost var t := vmm.tables;
    frames := GrowHeap(vmm, base, 0, 1, held, abandoned);
    WindowStaysOpen(t, vmm.tables, vmm.pml4, PageOfAddress(base));
    heap := new Heap(base, repaired, seq(0x1000, _ => 0));
    HeapRuns.NothingHeld(base, 0x1000 - Segments.HEADER);
  }

  // ----- single requests -----

  /** Everything that is seen of the machine. */
  datatype State = State(heap: HeapRuns.View, world: World, frames: seq<nat>)

  ghost function Look(vmm: Vmm, heap: Heap, live: map<nat, nat>, frames: seq<nat>, held: set<nat>): State
    reads vmm, vmm.pmm, heap
  {
    State(HeapRuns.Seen(heap, live), Ownership.Seen(vmm, held), frames)
  }

  /** Pages a call adds to the heap. */
  ghost function Added(repaired: bool, v: HeapRuns.View, call: HeapRuns.Call): nat
    requires |v.segs| > 0
  {
    if !HeapRuns.Served(repaired, v, call) || call.CallFree? then 0
    else Segments.Growth(v.segs, call.size)
  }

  /** A page request that touches neither the direct map nor the heap's pages, and frees
      no frame of the heap. */
  predicate Allowed(vmm: Vmm, base: nat, frames: seq<nat>, t: Tables, root: nat, op: Op) {
    match op
    case Alloc => true
    case Free(a) => (match Behind(t, root, a) case None => true case Some(f) => vmm.pmm.Usable(f) && f !in Elements(frames))
    case Map(_, a, _) => ElsewhereThan(vmm, base, PageOfAddress(a))
    case Unmap(a) => ElsewhereThan(vmm, base, PageOfAddress(a))
  }

  predicate ElsewhereThan(vmm: Vmm, base: nat, u: nat) {
    Outside(vmm, u) && !(PageOfAddress(base) <= u < PageOfAddress(base) + WINDOW)
  }

  /** The heap's new pages show frames that were free, and no other translation
      changes. */
  ghost predicate Grows(root: nat, v: nat, s: State, s': State) {
    && s.frames <= s'.frames && |s'.frames| == s'.heap.pages
    && var more := s'.frames[|s.frames|..];
       && Distinct(more) && Elements(more) <= s.world.free
       && s'.world.held == s.world.held + Elements(more)
       && s'.world.free <= s.world.free - Elements(more)
       && ShowsFrames(s.world.tables, s'.world.tables, root, v + |s.frames|, more)
  }

  /** What a request does.  A heap call is passed over when four frames for each page it
      adds are not there; a page request when it is not an allowed one. */
  ghost predicate Follows(vmm: Vmm, root: nat, repaired: bool, base: nat, s: State, r: Request, s': State)
    requires |s.heap.segs| > 0
  {
    match r
    case HeapRequest(call) =>
      if 4 * Added(repaired, s.heap, call) > |s.world.free| then s' == s
      else HeapRuns.Follows(repaired, base, s.heap, call, s'.heap) && Grows(root, PageOfAddress(base), s, s')
    case PageRequest(op) =>
      if !Allowed(vmm, base, s.frames, s.world.tables, root, op) then s' == s
      else s'.heap == s.heap && s'.frames == s.frames && Ownership.Follows(vmm, root, s.world, op, s'.world)
  }

  /** Pages the heap will add to itself for a call. */
  method AddedPages(heap: Heap, call: HeapRuns.Call, ghost live: map<nat, nat>) returns (n: nat)
    requires heap.Valid() && |heap.segs| > 0
    ensures n == Added(heap.repaired, HeapRuns.Seen(heap, live), call)
    ensures heap.heapSize + n < WINDOW
  {
    hide Good, Segments.CanAllocate, Segments.FirstFit;
    n := 0;
    if call.CallFree? { return; }
    var may := HeapRuns.MayAllocate(heap, call.size);
    if may && (call.CallRealloc? ==> call.ptr < U64) {
      var hdr, found;
      ghost var k;
      hdr, found, k := heap.Search(call.size);
      n := if found then 0 else call.size / 0x1000 + 1;
    }
  }

  lemma PagesFollow(repaired: bool, base: nat, v: HeapRuns.View, call: HeapRuns.Call, v': HeapRuns.View)
    requires |v.segs| > 0 && HeapRuns.Follows(repaired, base, v, call, v')
    ensures v'.pages == v.pages + Added(repaired, v, call)
  {
    hide Segments.CanAllocate, Segments.FirstFit, Segments.Malloc, Safe, OthersIntact, Moved, Segments.Growth;
  }

  lemma HeapParts(vmm: Vmm, heap: Heap, live: map<nat, nat>, frames: seq<nat>, held: set<nat>, abandoned: set<nat>)
    requires Inv(vmm, heap, live, frames, held, abandoned)
    ensures heap.Valid() && HeapRuns.Holds(heap.segs, live) && |heap.segs| > 0
    ensures DirectMapped(vmm, vmm.tables, vmm.pml4) && HeapWindow(vmm, heap.base)
    ensures forall u: nat :: PageOfAddress(heap.base) <= u < PageOfAddress(heap.base) + WINDOW ==> Outside(vmm, u)
    ensures held !! vmm.pmm.free
  {
  }

  /** The invariant after the heap and the pages under it have grown. */
  lemma InvAfterGrowth(vmm: Vmm, heap: Heap, live: map<nat, nat>, frames: seq<nat>, more: seq<nat>, held: set<nat>,
                       abandoned: set<nat>, t: Tables, F: set<nat>)
    requires heap.Valid() && HeapRuns.Holds(heap.segs, live) && HeapWindow(vmm, heap.base)
    requires RunInv(vmm, held + Elements(more), abandoned) && DirectMapped(vmm, vmm.tables, vmm.pml4)
    requires Backed(t, vmm.pml4, PageOfAddress(heap.base), frames) && Elements(frames) <= held && held !! F
    requires Distinct(more) && Elements(more) <= F && |frames| + |more| == heap.heapSize < WINDOW
    requires ShowsFrames(t, vmm.tables, vmm.pml4, PageOfAddress(heap.base) + |frames|, more)
    requires WindowOpen(t, vmm.pml4, PageOfAddress(heap.base))
    ensures Inv(vmm, heap, live, frames + more, held + Elements(more), abandoned)
  {
    hide Heap.Valid, HeapRuns.Holds, RunInv, DirectMapped, Outside, ShowsFrames, Backed, PageOfAddress, Distinct, Elements,
         WindowOpen, KeepsOpen;
    BackedByGrowth(t, vmm.tables, vmm.pml4, PageOfAddress(heap.base), frames, more, held, F);
    ShownKeepsOpen(t, vmm.tables, vmm.pml4, PageOfAddress(heap.base) + |frames|, more);
    WindowStaysOpen(t, vmm.tables, vmm.pml4, PageOfAddress(heap.base));
  }

  lemma ShownKeepsOpen(t: Tables, t': Tables, root: nat, v: nat, s: seq<nat>)
    requires ShowsFrames(t, t', root, v, s)
    ensures KeepsOpen(t, t', root)
  {
  }

  /** A heap call, with the pages it needs. */
  method ServeHeap(vmm: Vmm, heap: Heap, call: HeapRuns.Call, ghost live: map<nat, nat>, frames: seq<nat>, held: set<nat>,
                   ghost abandoned: set<nat>)
    returns (ghost live': map<nat, nat>, frames': seq<nat>, held': set<nat>)
    requires Inv(vmm, heap, live, frames, held, abandoned) && |heap.segs| > 0
    modifies vmm`tables, vmm`shape, vmm.pmm`allocatedPages, vmm.pmm`bits, vmm.pmm`free, vmm.pmm.ram, heap
    ensures Inv(vmm, heap, live', frames', held', abandoned)
    ensures Follows(vmm, vmm.pml4, heap.repaired, heap.base, old(Look(vmm, heap, live, frames, held)),
                    HeapRequest(call), Look(vmm, heap, live', frames', held'))
  {
    hide Inv, Heap.Valid, HeapRuns.Holds, HeapRuns.Follows, Added, RunInv, DirectMapped, Outside, ShowsFrames, Backed,
         PageOfAddress, Distinct, Elements, HeapWindow, WindowOpen;
    live', frames', held' := live, frames, held;
    FitsHeapWindow(vmm, heap, live, frames, held, abandoned);
    HeapParts(vmm, heap, live, frames, held, abandoned);
    var n := AddedPages(heap, call, live);
    var bytes := FreeBytes(vmm, held, abandoned);
    if 4 * n > bytes / 0x1000 { return; }
    ghost var t, F, v := vmm.tables, vmm.pmm.free, HeapRuns.Seen(heap, live);
    var more := GrowHeap(vmm, heap.base, heap.heapSize, n, held, abandoned);
    live' := HeapRuns.Serve(heap, call, live);
    PagesFollow(heap.repaired, heap.base, v, call, HeapRuns.Seen(heap, live'));
    InvAfterGrowth(vmm, heap, live', frames, more, held, abandoned, t, F);
    frames', held' := frames + more, held + Elements(more);
    assert frames'[|frames|..] == more;
  }

  // ----- page requests -----

  /** An allowed request is a tame one and leaves the heap's pages where they are. */
  lemma AllowedIsTame(vmm: Vmm, base: nat, frames: seq<nat>, root: nat, w: World, op: Op, w': World)
    requires Allowed(vmm, base, frames, w.tables, root, op)
    requires vmm.Valid() && HeapWindow(vmm, base) && |frames| < WINDOW
    requires DirectMapped(vmm, w.tables, root) && Ownership.Follows(vmm, root, w, op, w')
    requires Backed(w.tables, root, PageOfAddress(base), frames) && Elements(frames) <= w.held && w.held !! w.free
    ensures DirectMapped(vmm, w'.tables, root)
    ensures Backed(w'.tables, root, PageOfAddress(base), frames) && Elements(frames) <= w'.held
    ensures WindowOpen(w.tables, root, PageOfAddress(base)) ==> WindowOpen(w'.tables, root, PageOfAddress(base))
  {
    hide Vmm.Valid, DirectMapped, DirectOpen, Walk, Open, Needs, PageOfAddress, WithBack, Convert, DirectPage, Outside,
         Elements, Vmm.IsBitmapFrame, Cost, Pmm.Usable, Distinct, Opens;
    assert Tame(vmm, root, w, op);
    hide Tame;
    TameKeeps(vmm, root, w, op, w');
    var v := PageOfAddress(base);
    forall i: nat | i < |frames| ensures Walk(w'.tables, root, v + i) == Page(frames[i]) {
      assert Walk(w.tables, root, v + i) == Page(frames[i]);
    }
  }

  lemma InvAfterPages(vmm: Vmm, heap: Heap, live: map<nat, nat>, frames: seq<nat>, held: set<nat>, abandoned: set<nat>)
    requires heap.Valid() && HeapRuns.Holds(heap.segs, live) && HeapWindow(vmm, heap.base)
    requires RunInv(vmm, held, abandoned) && DirectMapped(vmm, vmm.tables, vmm.pml4)
    requires |frames| == heap.heapSize && Elements(frames) <= held
    requires Backed(vmm.tables, vmm.pml4, PageOfAddress(heap.base), frames)
    requires WindowOpen(vmm.tables, vmm.pml4, PageOfAddress(heap.base))
    ensures Inv(vmm, heap, live, frames, held, abandoned)
  {
  }

  /** A request of another client of the allocator and the VMM. */
  method ServePage(vmm: Vmm, heap: Heap, op: Op, ghost live: map<nat, nat>, frames: seq<nat>, held: set<nat>,
                   ghost abandoned: set<nat>)
    returns (held': set<nat>)
    requires Inv(vmm, heap, live, frames, held, abandoned) && |heap.segs| > 0
    modifies vmm`tables, vmm`shape, vmm.pmm`allocatedPages, vmm.pmm`bits, vmm.pmm`free, vmm.pmm.ram
    ensures Inv(vmm, heap, live, frames, held', abandoned)
    ensures Follows(vmm, vmm.pml4, heap.repaired, heap.base, old(Look(vmm, heap, live, frames, held)),
                    PageRequest(op), Look(vmm, heap, live, frames, held'))
  {
    hide Inv, Heap.Valid, HeapRuns.Holds, Ownership.Follows, RunInv, DirectMapped, Outside, Backed, PageOfAddress,
         Elements, HeapWindow, Allowed, WindowOpen;
    held' := held;
    FitsHeapWindow(vmm, heap, live, frames, held, abandoned);
    HeapParts(vmm, heap, live, frames, held, abandoned);
    RunIsValid(vmm, held, abandoned);
    if !Allowed(vmm, heap.base, frames, vmm.tables, vmm.pml4, op) { return; }
    ghost var w := Ownership.Seen(vmm, held);
    held' := Ownership.Serve(vmm, op, held, abandoned);
    RunIsValid(vmm, held', abandoned);
    AllowedIsTame(vmm, heap.base, frames, vmm.pml4, w, op, Ownership.Seen(vmm, held'));
    InvAfterPages(vmm, heap, live, frames, held', abandoned);
  }

  // ----- runs -----

  /** Any run of heap calls and page requests keeps the invariant: so no two held blocks
      share a byte of memory, whatever the requests in between were.  And request by
      request, the log of what is seen follows the specification. */
  method Run(vmm: Vmm, heap: Heap, requests: seq<Request>, ghost live0: map<nat, nat>, frames0: seq<nat>,
             held0: set<nat>, ghost abandoned: set<nat>)
    returns (ghost live: map<nat, nat>, frames: seq<nat>, held: set<nat>, ghost log: seq<State>)
    requires Inv(vmm, heap, live0, frames0, held0, abandoned)
    modifies vmm`tables, vmm`shape, vmm.pmm`allocatedPages, vmm.pmm`bits, vmm.pmm`free, vmm.pmm.ram, heap
    ensures Inv(vmm, heap, live, frames, held, abandoned)
    ensures |log| == |requests| + 1
    ensures log[0] == old(Look(vmm, heap, live0, frames0, held0))
    ensures log[|requests|] == Look(vmm, heap, live, frames, held)
    ensures forall i :: 0 <= i < |requests| ==>
              |log[i].heap.segs| > 0
              && Follows(vmm, vmm.pml4, heap.repaired, heap.base, log[i], requests[i], log[i + 1])
  {
    hide Inv, Follows;
    live, frames, held, log := live0, frames0, held0, [Look(vmm, heap, live0, frames0, held0)];
    for i := 0 to |requests|
      invariant Inv(vmm, heap, live, frames, held, abandoned)
      invariant |log| == i + 1 && log[0] == old(Look(vmm, heap, live0, frames0, held0))
      invariant log[i] == Look(vmm, heap, live, frames, held)
      invariant forall j :: 0 <= j < i ==>
                  |log[j].heap.segs| > 0
                  && Follows(vmm, vmm.pml4, heap.repaired, heap.base, log[j], requests[j], log[j + 1])
    {
      HeapParts(vmm, heap, live, frames, held, abandoned);
      match requests[i] {
        case HeapRequest(call) =>
          live, frames, held := ServeHeap(vmm, heap, call, live, frames, held, abandoned);
        case PageRequest(op) =>
          held := ServePage(vmm, heap, op, live, frames, held, abandoned);
      }
      log := log + [Look(vmm, heap, live, frames, held)];
    }
  }
}
