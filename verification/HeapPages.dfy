/** The pages under the heap: what heap_extend asks of the allocator and the VMM. */
module HeapPages {
  import opened Arithmetic
  import opened FrameAllocator
  import opened PageTables
  import opened VirtualMemory
  import opened Ownership

  /** No frame twice. */
  ghost predicate Distinct(s: seq<nat>) {
    forall i, j :: 0 <= i < j < |s| ==> s[i] != s[j]
  }

  function Elements(s: seq<nat>): set<nat> {
    set i | 0 <= i < |s| :: s[i]
  }

  /** The pages from v on show the frames of s, all other pages are as in t, and no page
      has lost access. */
  ghost predicate ShowsFrames(t: Tables, t': Tables, root: nat, v: nat, s: seq<nat>) {
    && KeepsOpen(t, t', root)
    && forall u: nat :: u < PAGE_LIMIT ==>
      Walk(t', root, u) == if v <= u < v + |s| then Page(s[u - v]) else Walk(t, root, u)
  }

  lemma ShowsOneMoreFrame(t: Tables, t1: Tables, t2: Tables, root: nat, v: nat, s: seq<nat>, f: nat)
    requires ShowsFrames(t, t1, root, v, s) && PointUpdate(t1, t2, root, v + |s|, Page(f))
    requires Opens(t1, t2, root, v + |s|)
    ensures ShowsFrames(t, t2, root, v, s + [f])
  {
    hide Walk, Open;
    forall u: nat | u < PAGE_LIMIT && OpenPage(t, root, u) ensures OpenPage(t2, root, u) {
      PageIsWay(t, root, 4, u);
    }
  }

  lemma PageOfOffset(a: nat, k: nat)
    requires a % 0x1000 == 0 && PageOfAddress(a) + k < PAGE_LIMIT
    ensures PageOfAddress(a + k * 0x1000) == PageOfAddress(a) + k
  {
    var p := a / 0x1000;
    assert (a + k * 0x1000) / 0x1000 == p + k;
    ModShift(p % PAGE_LIMIT + k, p / PAGE_LIMIT);
    assert p + k == p % PAGE_LIMIT + k + p / PAGE_LIMIT * PAGE_LIMIT;
  }

  /** pmm_allocz for a client: the address it gets stands, for the VMM, for a frame
      that was free. */
  method AllocPage(vmm: Vmm, ghost held: set<nat>, ghost abandoned: set<nat>) returns (page: nat, f: nat)
    requires RunInv(vmm, held, abandoned) && DirectMapped(vmm, vmm.tables, vmm.pml4) && vmm.pmm.free != {}
    modifies vmm.pmm`allocatedPages, vmm.pmm`bits, vmm.pmm`free, vmm.pmm.ram
    ensures RunInv(vmm, held + {f}, abandoned)
    ensures f in old(vmm.pmm.free) && vmm.pmm.free == old(vmm.pmm.free) - {f}
    ensures vmm.Target(page) == f
  {
    hide RunInv, DirectMapped, Pmm.Lends;
    DirectMapIs(vmm, held, abandoned);
    page, f := StepAlloc(vmm, held, abandoned);
  }

  /** While the direct map is in order, the direct-map address of a free frame stands
      for that frame. */
  lemma DirectMapIs(vmm: Vmm, held: set<nat>, abandoned: set<nat>)
    requires RunInv(vmm, held, abandoned) && DirectMapped(vmm, vmm.tables, vmm.pml4)
    ensures forall g :: g in vmm.pmm.free ==> vmm.Target(PhysToVirt(vmm.offset, g * 0x1000)) == g
  {
    forall g | g in vmm.pmm.free ensures vmm.Target(PhysToVirt(vmm.offset, g * 0x1000)) == g {
      vmm.LentFits(g);
    }
  }

  /** What the loop has done after some pages: the frames of s, distinct and all new
      to the client, are mapped one after the other. */
  ghost predicate Grown(vmm: Vmm, held: set<nat>, abandoned: set<nat>, t: Tables, F: set<nat>, v: nat, s: seq<nat>)
    reads vmm, vmm.pmm, vmm.pmm.ram
  {
    && RunInv(vmm, held + Elements(s), abandoned) && DirectMapped(vmm, vmm.tables, vmm.pml4)
    && ShowsFrames(t, vmm.tables, vmm.pml4, v, s)
    && Distinct(s) && Elements(s) <= F && vmm.pmm.free <= F - Elements(s)
  }

  /** One page of heap_extend. */
  method GrowByPage(vmm: Vmm, at: nat, ghost held: set<nat>, ghost abandoned: set<nat>,
                    ghost t: Tables, ghost F: set<nat>, ghost v: nat, s: seq<nat>)
    returns (s': seq<nat>)
    requires Grown(vmm, held, abandoned, t, F, v, s) && 4 <= |vmm.pmm.free|
    requires PageOfAddress(at) == v + |s| && Outside(vmm, v + |s|)
    modifies vmm`tables, vmm`shape, vmm.pmm`allocatedPages, vmm.pmm`bits, vmm.pmm`free, vmm.pmm.ram
    ensures |s'| == |s| + 1 && s <= s'
    ensures Grown(vmm, held, abandoned, t, F, v, s')
    ensures |vmm.pmm.free| + 4 >= |old(vmm.pmm.free)|
  {
    hide *;
    GrownParts(vmm, held, abandoned, t, F, v, s);
    var newPage, f;
    newPage, f := AllocPage(vmm, held + Elements(s), abandoned);
    ghost var t1, F1 := vmm.tables, vmm.pmm.free;
    s' := s + [f];
    MoreElements(held, s, f);
    AtMostThree(vmm.tables, vmm.pml4, at);
    RunIsValid(vmm, held + Elements(s'), abandoned);
    StepMap(vmm, newPage, at, 2, held + Elements(s'), abandoned);
    RunIsValid(vmm, held + Elements(s'), abandoned);
    PageInRange(at);
    DirectMapSurvives(vmm, t1, vmm.tables, vmm.pml4, v + |s|, Page(f));
    ShowsOneMoreFrame(t, t1, vmm.tables, vmm.pml4, v, s, f);
    GrownMore(vmm, held, abandoned, t, F, v, s, f, F1);
  }

  lemma GrownParts(vmm: Vmm, held: set<nat>, abandoned: set<nat>, t: Tables, F: set<nat>, v: nat, s: seq<nat>)
    requires Grown(vmm, held, abandoned, t, F, v, s)
    ensures RunInv(vmm, held + Elements(s), abandoned) && DirectMapped(vmm, vmm.tables, vmm.pml4)
    ensures ShowsFrames(t, vmm.tables, vmm.pml4, v, s)
    ensures Distinct(s) && Elements(s) <= F && vmm.pmm.free <= F - Elements(s)
  {
  }

  lemma GrownMore(vmm: Vmm, held: set<nat>, abandoned: set<nat>, t: Tables, F: set<nat>, v: nat, s: seq<nat>, f: nat,
                  F1: set<nat>)
    requires RunInv(vmm, held + Elements(s + [f]), abandoned) && DirectMapped(vmm, vmm.tables, vmm.pml4)
    requires ShowsFrames(t, vmm.tables, vmm.pml4, v, s + [f])
    requires Distinct(s) && Elements(s) <= F && f in F && f !in Elements(s)
    requires F1 <= F - Elements(s) - {f} && vmm.pmm.free <= F1
    ensures Grown(vmm, held, abandoned, t, F, v, s + [f])
  {
    hide RunInv, DirectMapped, ShowsFrames;
    MoreElements(held, s, f);
  }

  lemma AtMostThree(t: Tables, root: nat, a: nat)
    ensures Cost(t, root, a) <= 3
  {
  }

  lemma RunIsValid(vmm: Vmm, held: set<nat>, abandoned: set<nat>)
    requires RunInv(vmm, held, abandoned)
    ensures vmm.Valid() && vmm.initialised
  {
  }

  lemma MoreElements(held: set<nat>, s: seq<nat>, f: nat)
    ensures Elements(s + [f]) == Elements(s) + {f}
    ensures held + Elements(s) + {f} == held + Elements(s + [f])
    ensures Distinct(s) && f !in Elements(s) ==> Distinct(s + [f])
  {
    var s' := s + [f];
    forall x ensures x in Elements(s') <==> x in Elements(s) + {f} {
      if x in Elements(s) {
        var i :| 0 <= i < |s| && s[i] == x;
        assert s'[i] == x;
      }
      if x == f { assert s'[|s|] == f; }
    }
    if Distinct(s) && f !in Elements(s) {
      forall i, j | 0 <= i < j < |s'| ensures s'[i] != s'[j] {
        assert s[i] in Elements(s);
      }
    }
  }

  /** heap_extend, as far as memory goes: the next numPages pages of the heap get
      distinct frames that were free and that only the heap holds from now on, and
      no other translation changes. */
  method GrowHeap(vmm: Vmm, heapBase: nat, heapSize: nat, numPages: nat, ghost held: set<nat>,
                  ghost abandoned: set<nat>)
    returns (frames: seq<nat>)
    requires RunInv(vmm, held, abandoned) && DirectMapped(vmm, vmm.tables, vmm.pml4)
    requires 4 * numPages <= |vmm.pmm.free|
    requires heapBase % 0x1000 == 0 && PageOfAddress(heapBase) + heapSize + numPages <= PAGE_LIMIT
    requires forall u :: PageOfAddress(heapBase) + heapSize <= u < PageOfAddress(heapBase) + heapSize + numPages ==> Outside(vmm, u)
    modifies vmm`tables, vmm`shape, vmm.pmm`allocatedPages, vmm.pmm`bits, vmm.pmm`free, vmm.pmm.ram
    ensures |frames| == numPages && Distinct(frames) && Elements(frames) <= old(vmm.pmm.free)
    ensures ShowsFrames(old(vmm.tables), vmm.tables, vmm.pml4, PageOfAddress(heapBase) + heapSize, frames)
    ensures RunInv(vmm, held + Elements(frames), abandoned) && DirectMapped(vmm, vmm.tables, vmm.pml4)
    ensures |vmm.pmm.free| + 4 * numPages >= |old(vmm.pmm.free)|
    ensures vmm.pmm.free <= old(vmm.pmm.free) - Elements(frames)
  {
    hide DirectMapped, LeafOf, RunInv, ShowsFrames, PageOfAddress, Outside;
    frames := [];
    ghost var v := PageOfAddress(heapBase) + heapSize;
    NothingGrown(vmm, held, abandoned, v);
    for i := 0 to numPages
      invariant |frames| == i
      invariant Grown(vmm, held, abandoned, old(vmm.tables), old(vmm.pmm.free), v, frames)
      invariant 4 * (numPages - i) <= |vmm.pmm.free| && |vmm.pmm.free| + 4 * i >= |old(vmm.pmm.free)|
    {
      PageOfOffset(heapBase, heapSize + i);
      frames := GrowByPage(vmm, heapBase + (heapSize + i) * 0x1000, held, abandoned, old(vmm.tables),
                           old(vmm.pmm.free), v, frames);
    }
  }

  lemma NothingGrown(vmm: Vmm, held: set<nat>, abandoned: set<nat>, v: nat)
    requires RunInv(vmm, held, abandoned) && DirectMapped(vmm, vmm.tables, vmm.pml4)
    ensures Grown(vmm, held, abandoned, vmm.tables, vmm.pmm.free, v, [])
  {
    assert held + Elements([]) == held;
  }
}
