/** Boot-time set-up: the new page map with the higher-half direct map and the
    kernel's own pages. */
module MemoryInit {
  import opened Arithmetic
  import opened MemoryMap
  import opened FrameAllocator
  import opened PageTables
  import opened VirtualMemory
  import opened Ownership
  import opened RangePlan
  import opened RangeMapping

  /** The entry types memory_init maps: all that the boot protocol has. */
  predicate IsMapped(r: Region) {
    r.kind <= 7
  }

  /** The direct map, based at virtual page hh, shows this entry at page u. */
  predicate Covers(r: Region, hh: nat, u: nat) {
    IsMapped(r) && hh + r.base / 0x1000 <= u < hh + r.base / 0x1000 + r.length / 0x1000
  }

  ghost predicate Covered(rs: seq<Region>, hh: nat, u: nat) {
    exists k :: 0 <= k < |rs| && Covers(rs[k], hh, u)
  }

  /** The leaf planned for page u by the entry that covers it. */
  function PlannedBy(rs: seq<Region>, hh: nat, u: nat): Leaf {
    if rs == [] then NoLeaf
    else
      var r := rs[|rs| - 1];
      if Covers(r, hh, u) then Planned(hh + r.base / 0x1000, r.length / 0x1000, r.base / 0x1000, u)
      else PlannedBy(rs[..|rs| - 1], hh, u)
  }

  /** The page map has exactly the leaves planned for the entries of rs. */
  ghost predicate EntriesShown(t: Tables, root: nat, rs: seq<Region>, hh: nat) {
    forall u: nat :: u < PAGE_LIMIT ==> LeafOf(t, root, u) == PlannedBy(rs, hh, u)
  }

  lemma CoveredNext(rs: seq<Region>, hh: nat, u: nat)
    requires rs != []
    ensures Covered(rs, hh, u) <==> Covered(rs[..|rs| - 1], hh, u) || Covers(rs[|rs| - 1], hh, u)
  {
    var s := rs[..|rs| - 1];
    if k :| 0 <= k < |rs| && Covers(rs[k], hh, u) {
      assert k < |s| ==> Covers(s[k], hh, u);
    }
    if k :| 0 <= k < |s| && Covers(s[k], hh, u) {
      assert Covers(rs[k], hh, u);
    }
  }

  /** The planned leaves show the direct map: frame a at page hh + a. */
  lemma {:induction false} PlannedByShows(rs: seq<Region>, hh: nat, u: nat)
    ensures Shown(PlannedBy(rs, hh, u), u) == if Covered(rs, hh, u) then Page(u - hh) else Unmapped
    ensures !Covered(rs, hh, u) ==> PlannedBy(rs, hh, u) == NoLeaf
  {
    if rs != [] {
      CoveredNext(rs, hh, u);
      var r := rs[|rs| - 1];
      if Covers(r, hh, u) {
        PlannedInRange(hh + r.base / 0x1000, r.length / 0x1000, u);
      } else {
        PlannedByShows(rs[..|rs| - 1], hh, u);
      }
    }
  }

  /** Of disjoint entries, the one that covers the page decides its leaf. */
  lemma {:induction false} PlannedByAt(rs: seq<Region>, hh: nat, k: nat, u: nat)
    requires k < |rs| && Covers(rs[k], hh, u)
    requires forall j :: k < j < |rs| ==> !Covers(rs[j], hh, u)
    ensures PlannedBy(rs, hh, u) == Planned(hh + rs[k].base / 0x1000, rs[k].length / 0x1000, rs[k].base / 0x1000, u)
  {
    if k < |rs| - 1 {
      PlannedByAt(rs[..|rs| - 1], hh, k, u);
    }
  }

  /** A 1 GiB leaf is planned only for an entry that uses one. */
  lemma {:induction false} PlannedByUses(rs: seq<Region>, hh: nat, u: nat)
    requires PlannedBy(rs, hh, u).Leaf? && PlannedBy(rs, hh, u).span == 262144
    ensures exists k :: 0 <= k < |rs| && UsesGigabyte(rs[k], hh)
  {
    var n := |rs| - 1;
    if Covers(rs[n], hh, u) {
      GigabyteIff(hh + rs[n].base / 0x1000, rs[n].length / 0x1000);
      assert UsesGigabyte(rs[n], hh);
    } else {
      PlannedByUses(rs[..n], hh, u);
      var k :| 0 <= k < |rs[..n]| && UsesGigabyte(rs[..n][k], hh);
      assert UsesGigabyte(rs[k], hh);
    }
  }

  /** The entry is mapped by 1 GiB leaves, among others. */
  predicate UsesGigabyte(r: Region, hh: nat) {
    IsMapped(r) && Uses(hh + r.base / 0x1000, r.length / 0x1000, 262144)
  }

  /** Leaves that mapping the entries begins. */
  function LeafCount(rs: seq<Region>, hh: nat): nat {
    if rs == [] then 0
    else
      var r := rs[|rs| - 1];
      LeafCount(rs[..|rs| - 1], hh) + if IsMapped(r) then Leaves(hh + r.base / 0x1000, r.length / 0x1000) else 0
  }

  /** Frames the mapping of the entries may take at most. */
  function Budget(rs: seq<Region>, hh: nat): nat {
    if rs == [] then 0
    else Budget(rs[..|rs| - 1], hh) +
         (if IsMapped(rs[|rs| - 1]) then 4 + 8 * Leaves(hh + rs[|rs| - 1].base / 0x1000, rs[|rs| - 1].length / 0x1000) else 0)
  }

  lemma {:induction false} BudgetMonotone(rs: seq<Region>, hh: nat, i: nat)
    requires i <= |rs|
    ensures Budget(rs[..i], hh) <= Budget(rs, hh)
    decreases |rs| - i
  {
    if i < |rs| {
      assert rs[..i + 1][..i] == rs[..i];
      BudgetMonotone(rs, hh, i + 1);
    } else {
      assert rs[..i] == rs;
    }
  }

  /** What is asked of the entries to be mapped: at least a page each, disjoint, in
      the window above hh, in the range of frame numbers, and a base that the
      loader's page map, if it knows it as a virtual page at all, maps to itself. */
  ghost predicate EntriesOk(rs: seq<Region>, hh: nat, t: Tables, root: nat) {
    && (forall k :: 0 <= k < |rs| && IsMapped(rs[k]) ==>
          && 0 < rs[k].length / 0x1000
          && hh + rs[k].base / 0x1000 + rs[k].length / 0x1000 <= PAGE_LIMIT
          && rs[k].base / 0x1000 + rs[k].length / 0x1000 <= FRAME_LIMIT
          && Convert(t, root, rs[k].base / 0x1000) == rs[k].base / 0x1000)
    && (forall j, k, u :: 0 <= j < k < |rs| && Covers(rs[j], hh, u) ==> !Covers(rs[k], hh, u))
  }

  /** One more entry mapped. */
  lemma ShowsOneMore(job: Job, t: Tables, rs: seq<Region>, i: nat, hh: nat)
    requires i < |rs| && IsMapped(rs[i]) && EntriesShown(job.t0, job.root, rs[..i], hh)
    requires job.v == hh + rs[i].base / 0x1000 && job.n == rs[i].length / 0x1000 && job.p == rs[i].base / 0x1000
    requires Mapped(job, t, job.v + job.n)
    ensures EntriesShown(t, job.root, rs[..i + 1], hh)
  {
    hide LeafAt, Planned;
    assert rs[..i + 1][..i] == rs[..i];
    forall u: nat | u < PAGE_LIMIT ensures LeafOf(t, job.root, u) == PlannedBy(rs[..i + 1], hh, u) {
      assert LeafOf(job.t0, job.root, u) == PlannedBy(rs[..i], hh, u);
    }
  }

  lemma FreshEntry(t: Tables, root: nat, rs: seq<Region>, i: nat, hh: nat, t0: Tables, root0: nat)
    requires i < |rs| && IsMapped(rs[i]) && EntriesOk(rs, hh, t0, root0)
    requires EntriesShown(t, root, rs[..i], hh)
    ensures Fresh(t, root, hh + rs[i].base / 0x1000, rs[i].length / 0x1000)
  {
    hide LeafAt, Convert;
    forall u: nat | u < PAGE_LIMIT && Covers(rs[i], hh, u) ensures LeafOf(t, root, u) == NoLeaf {
      var s := rs[..i];
      forall k | 0 <= k < |s| ensures !Covers(s[k], hh, u) {
        assert s[k] == rs[k];
      }
      PlannedByShows(s, hh, u);
    }
  }

  /** Every page of the map can be written, if it is mapped. */
  ghost predicate AllOpen(t: Tables, root: nat) {
    forall u: nat :: u < PAGE_LIMIT ==> OpenPage(t, root, u)
  }

  lemma StillOpen(t: Tables, t': Tables, root: nat)
    requires AllOpen(t, root) && KeepsOpen(t, t', root)
    ensures AllOpen(t', root)
  {
    hide Open;
  }

  /** Every page of every entry of the types 0 to 7 is shown at its place above hh, and of
      the `size` bytes from page kv on every page that holds one is shown from frame kp
      on; no other page is mapped. */
  ghost predicate ShowsMemory(t: Tables, root: nat, rs: seq<Region>, hh: nat, kv: nat, kp: nat, size: nat) {
    && (forall k, u: nat :: 0 <= k < |rs| && rs[k].kind < 8 && u < PAGE_LIMIT &&
                            hh + rs[k].base / 0x1000 <= u < hh + rs[k].base / 0x1000 + rs[k].length / 0x1000 ==>
          Walk(t, root, u) == Page(u - hh))
    && (forall u: nat :: u < PAGE_LIMIT && kv <= u && (u - kv) * 0x1000 < size ==>
          Walk(t, root, u) == Page(kp + (u - kv)))
    && (forall u: nat :: u < PAGE_LIMIT && Walk(t, root, u) != Unmapped ==>
          || (kv <= u && (u - kv) * 0x1000 < size)
          || exists k :: 0 <= k < |rs| && rs[k].kind < 8 &&
                         hh + rs[k].base / 0x1000 <= u < hh + rs[k].base / 0x1000 + rs[k].length / 0x1000)
  }

  lemma CoveredMeans(rs: seq<Region>, hh: nat, u: nat)
    ensures Covered(rs, hh, u) <==>
            exists k :: 0 <= k < |rs| && rs[k].kind < 8 &&
                        hh + rs[k].base / 0x1000 <= u < hh + rs[k].base / 0x1000 + rs[k].length / 0x1000
  {
    if k :| 0 <= k < |rs| && rs[k].kind < 8 &&
            hh + rs[k].base / 0x1000 <= u < hh + rs[k].base / 0x1000 + rs[k].length / 0x1000 {
      assert Covers(rs[k], hh, u);
    }
    if k :| 0 <= k < |rs| && Covers(rs[k], hh, u) {
      assert rs[k].kind < 8;
    }
  }

  lemma ShowsWhenCovered(t: Tables, root: nat, rs: seq<Region>, hh: nat, kv: nat, kp: nat, size: nat)
    requires forall u: nat :: u < PAGE_LIMIT ==>
               Walk(t, root, u) ==
               if kv <= u && (u - kv) * 0x1000 < size then Page(kp + (u - kv))
               else if Covered(rs, hh, u) then Page(u - hh)
               else Unmapped
    requires forall u: nat :: kv <= u && (u - kv) * 0x1000 < size ==> !Covered(rs, hh, u)
    ensures ShowsMemory(t, root, rs, hh, kv, kp, size)
  {
    hide Walk, Covered;
    forall k, u: nat | 0 <= k < |rs| && rs[k].kind < 8 && u < PAGE_LIMIT &&
                       hh + rs[k].base / 0x1000 <= u < hh + rs[k].base / 0x1000 + rs[k].length / 0x1000
      ensures Walk(t, root, u) == Page(u - hh)
    {
      CoveredMeans(rs, hh, u);
    }
    forall u: nat | u < PAGE_LIMIT && Walk(t, root, u) != Unmapped
      ensures || (kv <= u && (u - kv) * 0x1000 < size)
              || exists k :: 0 <= k < |rs| && rs[k].kind < 8 &&
                             hh + rs[k].base / 0x1000 <= u < hh + rs[k].base / 0x1000 + rs[k].length / 0x1000
    {
      CoveredMeans(rs, hh, u);
    }
  }

  lemma EntriesShow(t: Tables, root: nat, rs: seq<Region>, hh: nat)
    requires EntriesShown(t, root, rs, hh)
    ensures ShowsMemory(t, root, rs, hh, 0, 0, 0)
  {
    hide LeafAt, PlannedBy, ShowsMemory;
    forall u: nat | u < PAGE_LIMIT
      ensures Walk(t, root, u) == if Covered(rs, hh, u) then Page(u - hh) else Unmapped
    {
      assert LeafOf(t, root, u) == PlannedBy(rs, hh, u);
      PlannedByShows(rs, hh, u);
    }
    ShowsWhenCovered(t, root, rs, hh, 0, 0, 0);
  }

  /** The same for the map after boot: the kernel's pages are those that a byte of its
      image, counted from its first page, lies in. */
  lemma BootShows(t: Tables, root: nat, rs: seq<Region>, hh: nat, kv: nat, kp: nat, start: nat, end: nat)
    requires start <= end && BootMap(t, root, rs, hh, kv, kp, KernelPages(start, end))
    requires forall u :: kv <= u < kv + KernelPages(start, end) ==> !Covered(rs, hh, u)
    ensures ShowsMemory(t, root, rs, hh, kv, kp, end - start)
  {
    hide Walk, ShowsMemory, Covered;
    forall u: nat | u < PAGE_LIMIT
      ensures Walk(t, root, u) ==
              if kv <= u && (u - kv) * 0x1000 < end - start then Page(kp + (u - kv))
              else if Covered(rs, hh, u) then Page(u - hh)
              else Unmapped
    {
      if kv <= u { PageOfImage(u - kv, start, end); }
    }
    forall u: nat | kv <= u && (u - kv) * 0x1000 < end - start ensures !Covered(rs, hh, u) {
      PageOfImage(u - kv, start, end);
    }
    ShowsWhenCovered(t, root, rs, hh, kv, kp, end - start);
  }

  lemma PageOfImage(j: nat, start: nat, end: nat)
    requires start <= end
    ensures j < KernelPages(start, end) <==> j * 0x1000 < end - start
  {
  }

  // ----- no table without a page -----

  ghost predicate Inhabited(t: Tables, root: nat, x: nat) {
    exists u: nat :: u < PAGE_LIMIT && u / 512 == x && LeafOf(t, root, u) != NoLeaf
  }

  /** Every PT of the map translates some page. */
  ghost predicate NoIdleTable(t: Tables, root: nat, N: Shape) {
    forall x: nat {:trigger Node(1, x)} :: Node(1, x) in N ==> Inhabited(t, root, x)
  }

  /** Then mapping a fresh range loses no table and leaves none without a page. */
  lemma NothingIdle(job: Job, t: Tables, N: Shape, w: Ledger)
    requires job.n > 0 && job.v + job.n <= PAGE_LIMIT
    requires NoIdleTable(job.t0, job.root, job.N0) && Fresh(job.t0, job.root, job.v, job.n)
    requires Mapped(job, t, job.v + job.n) && NewNear(job.N0, N, job.v, job.v + job.n - 1)
    requires Booked(job, w, job.v + job.n)
    ensures NoIdleTable(t, job.root, N) && w.lost == job.w0.lost
  {
    hide LeafAt, Planned;
    forall x: nat | Node(1, x) in N ensures Inhabited(t, job.root, x) {
      if Node(1, x) in job.N0 {
        assert Inhabited(job.t0, job.root, x);
        var u: nat :| u < PAGE_LIMIT && u / 512 == x && LeafOf(job.t0, job.root, u) != NoLeaf;
        StillMapped(job, t, u);
      } else {
        var u := if 512 * x < job.v then job.v else 512 * x;
        PageOfTable(job.v, job.v + job.n - 1, x);
        NowMapped(job, t, u);
      }
    }
    forall f | f in w.lost ensures f in job.w0.lost {
      if f !in job.w0.lost {
        var x: nat :| LostTable(job, f, x, job.v + job.n);
        assert Inhabited(job.t0, job.root, x);
        var u: nat :| u < PAGE_LIMIT && u / 512 == x && LeafOf(job.t0, job.root, u) != NoLeaf;
        StillMapped(job, t, u);
      }
    }
  }

  lemma PageOfTable(a: nat, b: nat, x: nat)
    requires a <= b && a / Span(1) <= x <= b / Span(1)
    ensures var u := if 512 * x < a then a else 512 * x; a <= u <= b && u / 512 == x
  {
  }

  lemma StillMapped(job: Job, t: Tables, u: nat)
    requires Fresh(job.t0, job.root, job.v, job.n) && Mapped(job, t, job.v + job.n)
    requires u < PAGE_LIMIT && LeafOf(job.t0, job.root, u) != NoLeaf
    ensures !(job.v <= u < job.v + job.n) && LeafOf(t, job.root, u) != NoLeaf
  {
    hide LeafOf, Planned;
  }

  lemma NowMapped(job: Job, t: Tables, u: nat)
    requires Mapped(job, t, job.v + job.n) && job.v <= u < job.v + job.n && u < PAGE_LIMIT
    ensures LeafOf(t, job.root, u) != NoLeaf
  {
    hide LeafOf;
  }

  /** A zeroed PML4 is a page map that maps nothing. */
  lemma EmptyMap(t: Tables, root: nat)
    requires root in t && t[root] == ZeroTable()
    ensures Tree(t, root, map[Node(4, 0) := root])
    ensures forall u: nat :: u < PAGE_LIMIT ==> LeafOf(t, root, u) == NoLeaf
    ensures AllOpen(t, root)
  {
    var N := map[Node(4, 0) := root];
    forall n | n in N ensures TableOk(t, N, n) {
    }
    forall n, i | n in N && i < 512 ensures DownOk(t, N, n, i) {
    }
  }

  /** The state of the loop over the entries: besides the accounts, every leaf begun
      was handed a frame, and no table was lost. */
  ghost predicate EntriesMapped(vmm: Vmm, root: nat, N: Shape, w: Ledger, rs: seq<Region>, hh: nat)
    reads vmm, vmm.pmm, vmm.pmm.ram
  {
    && Building(vmm, root, N, w)
    && EntriesShown(vmm.tables, root, rs, hh) && NoIdleTable(vmm.tables, root, N) && AllOpen(vmm.tables, root)
    && w.lost == {} && |w.handed| == LeafCount(rs, hh)
  }

  /** The body of the loop for an entry whose type is mapped. */
  method MapEntry(vmm: Vmm, root: nat, entry: Region, ghost i: nat, ghost rs: seq<Region>, ghost hh: nat,
                  ghost N: Shape, ghost w: Ledger)
    returns (ghost N': Shape, ghost w': Ledger)
    requires i < |rs| && rs[i] == entry && IsMapped(entry) && hh == PageOfAddress(vmm.offset)
    requires EntriesOk(rs, hh, w.before, vmm.pml4)
    requires EntriesMapped(vmm, root, N, w, rs[..i], hh)
    requires 4 + 8 * Leaves(hh + entry.base / 0x1000, entry.length / 0x1000) <= |vmm.pmm.free|
    modifies vmm`tables, vmm`shape, vmm.pmm`allocatedPages, vmm.pmm`bits, vmm.pmm`free, vmm.pmm.ram
    ensures EntriesMapped(vmm, root, N', w', rs[..i + 1], hh) && w'.pool == w.pool && w'.before == w.before
    ensures |vmm.pmm.free| + 4 + 8 * Leaves(hh + entry.base / 0x1000, entry.length / 0x1000) >= |old(vmm.pmm.free)|
  {
    hide *;
    EntryFacts(vmm, root, N, w, rs, i, hh);
    ghost var g;
    ghost var job := Job(root, hh + entry.base / 0x1000, entry.length / 0x1000, entry.base / 0x1000, vmm.tables, N, w);
    N', w', g := MapPages(vmm, root, entry.base, PhysToVirt(vmm.offset, entry.base), entry.length / 0x1000, N, w);
    EntryDone(vmm, job, N', w', rs, i, hh);
  }

  lemma EntryDone(vmm: Vmm, job: Job, N: Shape, w: Ledger, rs: seq<Region>, i: nat, hh: nat)
    requires i < |rs| && IsMapped(rs[i]) && RangeMapped(vmm, job, N, w)
    requires job.v == hh + rs[i].base / 0x1000 && job.n == rs[i].length / 0x1000 && job.p == rs[i].base / 0x1000
    requires Fresh(job.t0, job.root, job.v, job.n) && job.n > 0 && job.v + job.n <= PAGE_LIMIT
    requires EntriesShown(job.t0, job.root, rs[..i], hh) && NoIdleTable(job.t0, job.root, job.N0)
    requires AllOpen(job.t0, job.root)
    requires job.w0.lost == {} && |job.w0.handed| == LeafCount(rs[..i], hh)
    requires |w.handed| == |job.w0.handed| + Leaves(job.v, job.n)
    ensures EntriesMapped(vmm, job.root, N, w, rs[..i + 1], hh)
    ensures w.pool == job.w0.pool && w.before == job.w0.before
  {
    hide Building, Fresh, EntriesShown, Mapped, NewNear, NoIdleTable, AllOpen, Leaves;
    MappedKeepsOpen(job, vmm.tables);
    StillOpen(job.t0, vmm.tables, job.root);
    ShowsOneMore(job, vmm.tables, rs, i, hh);
    NothingIdle(job, vmm.tables, N, w);
    assert rs[..i + 1][..i] == rs[..i];
  }

  lemma MappedKeepsOpen(job: Job, t: Tables)
    requires Mapped(job, t, job.v + job.n)
    ensures KeepsOpen(job.t0, t, job.root)
  {
    hide KeepsOpen;
  }

  lemma EntryFacts(vmm: Vmm, root: nat, N: Shape, w: Ledger, rs: seq<Region>, i: nat, hh: nat)
    requires i < |rs| && IsMapped(rs[i]) && hh == PageOfAddress(vmm.offset)
    requires EntriesOk(rs, hh, w.before, vmm.pml4)
    requires EntriesMapped(vmm, root, N, w, rs[..i], hh)
    ensures PageOfAddress(PhysToVirt(vmm.offset, rs[i].base)) == hh + rs[i].base / 0x1000
    ensures Fresh(vmm.tables, root, hh + rs[i].base / 0x1000, rs[i].length / 0x1000)
    ensures Convert(vmm.tables, vmm.pml4, rs[i].base / 0x1000) == rs[i].base / 0x1000
    ensures rs[i].base / 0x1000 + rs[i].length / 0x1000 <= FRAME_LIMIT && 0 < rs[i].length / 0x1000
    ensures hh + rs[i].base / 0x1000 + rs[i].length / 0x1000 <= PAGE_LIMIT
    ensures Building(vmm, root, N, w) && EntriesShown(vmm.tables, root, rs[..i], hh)
    ensures NoIdleTable(vmm.tables, root, N) && AllOpen(vmm.tables, root)
    ensures w.lost == {} && |w.handed| == LeafCount(rs[..i], hh)
  {
    hide Tree, Walk, DirectMapped, SplitsAreSafe, Vmm.Owned, PhysToVirt, Fresh, EntriesShown, PageOfAddress, NoIdleTable,
         AllOpen;
    WindowStart(vmm.offset, rs[i].base, hh);
    FreshEntry(vmm.tables, root, rs, i, hh, w.before, vmm.pml4);
    SameConvert(w.before, vmm.tables, vmm.pml4, rs[i].base / 0x1000);
  }

  lemma WindowStart(offset: nat, base: nat, hh: nat)
    requires offset % 0x1000 == 0 && hh == PageOfAddress(offset) && hh + base / 0x1000 < PAGE_LIMIT
    ensures PageOfAddress(PhysToVirt(offset, base)) == hh + base / 0x1000
  {
    DirectPageOf(offset, base);
  }

  lemma SameConvert(t: Tables, t': Tables, root: nat, p: nat)
    requires SameMeaning(t, t', root)
    ensures Convert(t', root, p) == Convert(t, root, p)
  {
    hide WalkAt;
  }

  /** The loop over the memory map. */
  method MapEntries(vmm: Vmm, root: nat, rs: seq<Region>, ghost hh: nat, ghost N: Shape, ghost w: Ledger)
    returns (ghost N': Shape, ghost w': Ledger)
    requires hh == PageOfAddress(vmm.offset) && EntriesOk(rs, hh, w.before, vmm.pml4)
    requires EntriesMapped(vmm, root, N, w, [], hh)
    requires Budget(rs, hh) <= |vmm.pmm.free|
    modifies vmm`tables, vmm`shape, vmm.pmm`allocatedPages, vmm.pmm`bits, vmm.pmm`free, vmm.pmm.ram
    ensures EntriesMapped(vmm, root, N', w', rs, hh) && w'.pool == w.pool && w'.before == w.before
    ensures ShowsMemory(vmm.tables, root, rs, hh, 0, 0, 0)
    ensures forall u: nat :: u < PAGE_LIMIT ==> OpenPage(vmm.tables, root, u)
    ensures |vmm.pmm.free| + Budget(rs, hh) >= |old(vmm.pmm.free)|
  {
    hide EntriesMapped, EntriesOk, Leaves, PageOfAddress, ShowsMemory, OpenPage;
    N', w' := N, w;
    assert rs[..0] == [];
    for i := 0 to |rs|
      invariant EntriesMapped(vmm, root, N', w', rs[..i], hh) && w'.pool == w.pool && w'.before == w.before
      invariant |vmm.pmm.free| + Budget(rs[..i], hh) >= |old(vmm.pmm.free)|
    {
      var entry := rs[i];
      assert rs[..i + 1][..i] == rs[..i];
      BudgetMonotone(rs, hh, i + 1);
      if IsMapped(entry) {
        N', w' := MapEntry(vmm, root, entry, i, rs, hh, N', w');
      } else {
        SkipEntry(vmm, root, N', w', rs, i, hh);
      }
    }
    assert rs[..|rs|] == rs;
    MappedEntriesShow(vmm, root, N', w', rs, hh);
  }

  lemma MappedEntriesShow(vmm: Vmm, root: nat, N: Shape, w: Ledger, rs: seq<Region>, hh: nat)
    requires EntriesMapped(vmm, root, N, w, rs, hh)
    ensures ShowsMemory(vmm.tables, root, rs, hh, 0, 0, 0)
    ensures forall u: nat :: u < PAGE_LIMIT ==> OpenPage(vmm.tables, root, u)
  {
    hide Building, NoIdleTable, EntriesShown, ShowsMemory, OpenPage;
    EntriesShow(vmm.tables, root, rs, hh);
  }

  lemma SkipEntry(vmm: Vmm, root: nat, N: Shape, w: Ledger, rs: seq<Region>, i: nat, hh: nat)
    requires i < |rs| && !IsMapped(rs[i]) && EntriesMapped(vmm, root, N, w, rs[..i], hh)
    ensures EntriesMapped(vmm, root, N, w, rs[..i + 1], hh)
  {
    hide Building, LeafOf, NoIdleTable;
    assert rs[..i + 1][..i] == rs[..i];
    forall u: nat | u < PAGE_LIMIT ensures LeafOf(vmm.tables, root, u) == PlannedBy(rs[..i + 1], hh, u) {
    }
  }

  /** A zeroed frame becomes the PML4 of a new map. */
  method NewMap(vmm: Vmm, ghost hh: nat) returns (root: nat, ghost N: Shape, ghost w: Ledger)
    requires Apart(vmm, {}) && vmm.pmm.free != {}
    modifies vmm`tables, vmm.pmm`allocatedPages, vmm.pmm`bits, vmm.pmm`free, vmm.pmm.ram
    ensures w == Ledger(old(vmm.pmm.free) + vmm.shape.Values, old(vmm.tables), {}, {})
    ensures EntriesMapped(vmm, root, N, w, [], hh)
    ensures |vmm.pmm.free| + 1 == |old(vmm.pmm.free)|
  {
    hide Tree, LeafOf, DirectMapped, WindowOk, Pmm.Lends, EntriesMapped, SameMeaning, InGigabyteLeaf;
    FramesLent(vmm);
    w := Ledger(vmm.pmm.free + vmm.shape.Values, vmm.tables, {}, {});
    root := vmm.NewTable();
    N := map[Node(4, 0) := root];
    NewMapMade(vmm, old(vmm.tables), old(vmm.pmm.free), root, hh, w);
  }

  lemma NewMapMade(vmm: Vmm, t: Tables, F: set<nat>, root: nat, hh: nat, w: Ledger)
    requires vmm.Ready() && vmm.initialised
    requires root in F && vmm.pmm.free == F - {root} && vmm.tables == t[root := ZeroTable()]
    requires Tree(t, vmm.pml4, vmm.shape) && vmm.shape.Values !! F && DirectMapped(vmm, t, vmm.pml4)
    requires vmm.keepFlag || forall v: nat :: v < PAGE_LIMIT ==> !InGigabyteLeaf(t, vmm.pml4, v)
    requires forall f :: f in F ==> vmm.pmm.Lends(f)
    requires w == Ledger(F + vmm.shape.Values, t, {}, {})
    ensures EntriesMapped(vmm, root, map[Node(4, 0) := root], w, [], hh)
  {
    hide *;
    NewRoot(t, vmm.pml4, vmm.shape, root, F);
    EmptyMap(vmm.tables, root);
    EmptyMapShown(vmm.tables, root, hh);
    SameMeaningItself(t, vmm.pml4);
    StillTaken(vmm, t, F, {}, {root}, w);
    NewMapStarts(vmm, root, hh, w);
  }

  lemma NewMapStarts(vmm: Vmm, root: nat, hh: nat, w: Ledger)
    requires Taken(vmm, {root}, w) && w.handed == {} && w.lost == {} && root != vmm.pml4
    requires Tree(vmm.tables, root, map[Node(4, 0) := root]) && AllOpen(vmm.tables, root)
    requires EntriesShown(vmm.tables, root, [], hh) && NoIdleTable(vmm.tables, root, map[Node(4, 0) := root])
    ensures EntriesMapped(vmm, root, map[Node(4, 0) := root], w, [], hh)
  {
    hide Taken, Tree, AllOpen, EntriesShown, NoIdleTable;
    var N: Shape := map[Node(4, 0) := root];
    assert N.Values == {root} by { assert N[Node(4, 0)] == root; }
    assert N.Values + {} + {} == {root};
  }

  lemma EmptyMapShown(t: Tables, root: nat, hh: nat)
    requires forall u: nat :: u < PAGE_LIMIT ==> LeafOf(t, root, u) == NoLeaf
    ensures EntriesShown(t, root, [], hh) && NoIdleTable(t, root, map[Node(4, 0) := root])
  {
  }

  lemma SameMeaningItself(t: Tables, root: nat)
    ensures SameMeaning(t, t, root)
  {
  }

  lemma NewRoot(t: Tables, pml4: nat, S: Shape, root: nat, F: set<nat>)
    requires Tree(t, pml4, S) && S.Values !! F && root in F
    ensures root != pml4
  {
    assert pml4 in S.Values;
  }

  /** The page map after boot: the kernel's pages at their own place, the entries in
      the direct map, and nothing else. */
  ghost predicate BootMap(t: Tables, root: nat, rs: seq<Region>, hh: nat, kv: nat, kp: nat, kernelPages: nat) {
    forall u: nat :: u < PAGE_LIMIT ==>
      Walk(t, root, u) ==
        if kv <= u < kv + kernelPages then Page(kp + (u - kv))
        else if Covered(rs, hh, u) then Page(u - hh)
        else Unmapped
  }

  /** The same leaf by leaf: every page has the leaf that the range mapper plans for
      it. */
  ghost predicate BootLeaves(t: Tables, root: nat, rs: seq<Region>, hh: nat, kv: nat, kp: nat, kernelPages: nat) {
    forall u: nat :: u < PAGE_LIMIT ==>
      LeafOf(t, root, u) ==
        if kv <= u < kv + kernelPages then Planned(kv, kernelPages, kp, u) else PlannedBy(rs, hh, u)
  }

  lemma BootLeavesShow(t: Tables, root: nat, rs: seq<Region>, hh: nat, kv: nat, kp: nat, kernelPages: nat)
    requires BootLeaves(t, root, rs, hh, kv, kp, kernelPages)
    ensures BootMap(t, root, rs, hh, kv, kp, kernelPages)
  {
    hide LeafAt, PlannedSpan, PlannedBy;
    forall u: nat | u < PAGE_LIMIT
      ensures Walk(t, root, u) ==
                if kv <= u < kv + kernelPages then Page(kp + (u - kv))
                else if Covered(rs, hh, u) then Page(u - hh)
                else Unmapped
    {
      assert LeafOf(t, root, u) ==
             if kv <= u < kv + kernelPages then Planned(kv, kernelPages, kp, u) else PlannedBy(rs, hh, u);
      if kv <= u { PlannedInRange(kv, kernelPages, u); }
      PlannedByShows(rs, hh, u);
    }
  }

  /** A test on the memory map and the kernel's pages: does mapping them take a 1 GiB
      leaf? */
  predicate BootUsesGigabyte(rs: seq<Region>, hh: nat, kv: nat, kernelPages: nat) {
    Uses(kv, kernelPages, 262144) || exists k :: 0 <= k < |rs| && UsesGigabyte(rs[k], hh)
  }

  /** The map after boot has a 1 GiB leaf exactly when that test says so. */
  lemma BootGigabytes(t: Tables, root: nat, rs: seq<Region>, hh: nat, kv: nat, kp: nat, kernelPages: nat,
                      t0: Tables, root0: nat)
    requires BootLeaves(t, root, rs, hh, kv, kp, kernelPages) && EntriesOk(rs, hh, t0, root0)
    requires KernelOk(rs, hh, t0, root0, kv, kp, kernelPages)
    ensures (exists u: nat :: u < PAGE_LIMIT && InGigabyteLeaf(t, root, u)) <==> BootUsesGigabyte(rs, hh, kv, kernelPages)
  {
    hide LeafAt, PlannedSpan, InGigabyteLeaf, Uses, Convert, WalkAt;
    if u: nat :| u < PAGE_LIMIT && InGigabyteLeaf(t, root, u) {
      GigabyteIsLeaf(t, root, u);
      if kv <= u < kv + kernelPages {
        GigabyteIff(kv, kernelPages);
      } else {
        PlannedByUses(rs, hh, u);
      }
    }
    if Uses(kv, kernelPages, 262144) {
      GigabyteIff(kv, kernelPages);
      var u: nat :| kv <= u < kv + kernelPages && PlannedSpan(kv, kernelPages, u) == 262144;
      GigabyteIsLeaf(t, root, u);
    }
    if k: nat :| k < |rs| && UsesGigabyte(rs[k], hh) {
      var v, n := hh + rs[k].base / 0x1000, rs[k].length / 0x1000;
      GigabyteIff(v, n);
      var u: nat :| v <= u < v + n && PlannedSpan(v, n, u) == 262144;
      assert Covers(rs[k], hh, u);
      PlannedByAt(rs, hh, k, u);
      assert Covered(rs, hh, u);
      GigabyteIsLeaf(t, root, u);
    }
  }

  /** Pages of the kernel image, the last one perhaps not full. */
  function KernelPages(start: nat, end: nat): nat
    requires start <= end
  {
    (end - start) / 0x1000 + if (end - start) % 0x1000 != 0 then 1 else 0
  }

  /** What is asked of the kernel's pages: there are some, they lie between the window's
      start and the last page and outside the direct map, the loader has them mapped, and the number
      of their first frame, if it is mapped as a virtual page at all, is mapped to
      itself. */
  ghost predicate KernelOk(rs: seq<Region>, hh: nat, t: Tables, root: nat, kv: nat, kp: nat, kernelPages: nat) {
    && 0 < kernelPages && hh <= kv && kv + kernelPages <= PAGE_LIMIT
    && (forall u :: kv <= u < kv + kernelPages ==> !Covered(rs, hh, u))
    && Walk(t, root, kv) == Page(kp)
    && Convert(t, root, kp) == kp
    && kp + kernelPages <= FRAME_LIMIT
  }

  lemma KernelShown(job: Job, t: Tables, rs: seq<Region>, hh: nat)
    requires EntriesShown(job.t0, job.root, rs, hh) && Mapped(job, t, job.v + job.n)
    ensures BootLeaves(t, job.root, rs, hh, job.v, job.p, job.n)
  {
    hide LeafAt, Planned, PlannedBy;
    forall u: nat | u < PAGE_LIMIT
      ensures LeafOf(t, job.root, u) ==
              if job.v <= u < job.v + job.n then Planned(job.v, job.n, job.p, u) else PlannedBy(rs, hh, u)
    {
      assert LeafOf(job.t0, job.root, u) == PlannedBy(rs, hh, u);
    }
  }

  /** Mapping the kernel to its place. */
  method MapKernel(vmm: Vmm, root: nat, kernelStart: nat, kernelEnd: nat, ghost kp: nat, ghost rs: seq<Region>,
                   ghost hh: nat, ghost N: Shape, ghost w: Ledger)
    returns (ghost N': Shape, ghost w': Ledger)
    requires EntriesMapped(vmm, root, N, w, rs, hh) && kernelStart <= kernelEnd
    requires KernelOk(rs, hh, w.before, vmm.pml4, PageOfAddress(kernelStart), kp, KernelPages(kernelStart, kernelEnd))
    requires 4 + 8 * Leaves(PageOfAddress(kernelStart), KernelPages(kernelStart, kernelEnd)) <= |vmm.pmm.free|
    modifies vmm`tables, vmm`shape, vmm.pmm`allocatedPages, vmm.pmm`bits, vmm.pmm`free, vmm.pmm.ram
    ensures Building(vmm, root, N', w') && w'.pool == w.pool && w'.before == w.before && w'.lost == {}
    ensures |w'.handed| == LeafCount(rs, hh) + Leaves(PageOfAddress(kernelStart), KernelPages(kernelStart, kernelEnd))
    ensures BootLeaves(vmm.tables, root, rs, hh, PageOfAddress(kernelStart), kp, KernelPages(kernelStart, kernelEnd))
    ensures AllOpen(vmm.tables, root)
  {
    hide *;
    ghost var kv, n := PageOfAddress(kernelStart), KernelPages(kernelStart, kernelEnd);
    KernelFacts(vmm, root, N, w, rs, hh, kv, kp, n);
    KernelPagesAre(kernelStart, kernelEnd);
    var kernelStartPhys := vmm.VirtToPhys(kernelStart);
    var kernelSize := kernelEnd - kernelStart;
    var kernelPages := kernelSize / 0x1000;
    if kernelSize % 0x1000 != 0 { kernelPages := kernelPages + 1; }
    ghost var g;
    ghost var job := Job(root, kv, n, kp, vmm.tables, N, w);
    N', w', g := MapPages(vmm, root, kernelStartPhys, kernelStart, kernelPages, N, w);
    KernelDone(vmm, job, N', w', rs, hh);
  }

  lemma KernelPagesAre(start: nat, end: nat)
    requires start <= end
    ensures KernelPages(start, end) == (end - start) / 0x1000 + if (end - start) % 0x1000 != 0 then 1 else 0
  {
  }

  lemma KernelDone(vmm: Vmm, job: Job, N: Shape, w: Ledger, rs: seq<Region>, hh: nat)
    requires RangeMapped(vmm, job, N, w) && job.n > 0 && job.v + job.n <= PAGE_LIMIT
    requires Fresh(job.t0, job.root, job.v, job.n)
    requires EntriesShown(job.t0, job.root, rs, hh) && NoIdleTable(job.t0, job.root, job.N0) && job.w0.lost == {}
    requires AllOpen(job.t0, job.root)
    ensures AllOpen(vmm.tables, job.root)
    ensures Building(vmm, job.root, N, w) && w.pool == job.w0.pool && w.before == job.w0.before && w.lost == {}
    ensures BootLeaves(vmm.tables, job.root, rs, hh, job.v, job.p, job.n)
  {
    hide Building, Fresh, EntriesShown, Mapped, NewNear, NoIdleTable, BootLeaves, AllOpen;
    MappedKeepsOpen(job, vmm.tables);
    StillOpen(job.t0, vmm.tables, job.root);
    KernelShown(job, vmm.tables, rs, hh);
    NothingIdle(job, vmm.tables, N, w);
  }

  lemma KernelFacts(vmm: Vmm, root: nat, N: Shape, w: Ledger, rs: seq<Region>, hh: nat, kv: nat,
                    kp: nat, kernelPages: nat)
    requires EntriesMapped(vmm, root, N, w, rs, hh)
    requires KernelOk(rs, hh, w.before, vmm.pml4, kv, kp, kernelPages)
    ensures vmm.initialised && Tree(vmm.tables, vmm.pml4, vmm.shape)
    ensures Walk(vmm.tables, vmm.pml4, kv) == Page(kp)
    ensures Fresh(vmm.tables, root, kv, kernelPages)
    ensures Convert(vmm.tables, vmm.pml4, kp) == kp
    ensures kp + kernelPages <= FRAME_LIMIT && 0 < kernelPages && kv + kernelPages <= PAGE_LIMIT
    ensures Building(vmm, root, N, w) && EntriesShown(vmm.tables, root, rs, hh)
    ensures NoIdleTable(vmm.tables, root, N) && AllOpen(vmm.tables, root)
    ensures w.lost == {} && |w.handed| == LeafCount(rs, hh)
  {
    hide Tree, DirectMapped, SplitsAreSafe, Walk, LeafOf, Covered, NoIdleTable, AllOpen;
    SameConvert(w.before, vmm.tables, vmm.pml4, kp);
    forall u: nat | u < PAGE_LIMIT && kv <= u < kv + kernelPages ensures LeafOf(vmm.tables, root, u) == NoLeaf {
      PlannedByShows(rs, hh, u);
    }
  }

  /** The loader's page map S at cr3: its tables lie outside usable memory, it shows
      every usable frame in the direct map, and it maps no usable frame's number, as
      a virtual page, to another frame. */
  ghost predicate LoaderOk(rs: seq<Region>, offset: nat, t: Tables, cr3: nat, S: Shape) {
    && Tree(t, cr3, S)
    && (forall f :: f in S.Values ==> Idx(rs, f * 0x1000).None?)
    && (forall f: nat :: Idx(rs, f * 0x1000).Some? ==>
          && Walk(t, cr3, DirectPage(offset, f)) == Page(f)
          && (Walk(t, cr3, f) == Unmapped || Walk(t, cr3, f) == Page(f)))
  }

  /** memory_init: the allocator and the VMM are started, the new page map is built
      beside the loader's, and comes into use.  It has exactly the leaves planned for
      the entries and the kernel, and so is exactly their direct map; every usable
      frame has one owner.  The abandoned frames are one for each leaf begun and those
      that the loader's page map has grown by.  The state is one from which runs of
      client requests are safe exactly when splitting keeps the flag or no 1 GiB leaf
      was needed. */
  method MemoryInit(rs: seq<Region>, ram: array<bv8>, offset: nat, keepFlag: bool, kernelStart: nat, kernelEnd: nat,
                    loaderTables: Tables, cr3: nat, ghost S: Shape, ghost kp: nat)
    returns (vmm: Vmm, ghost handed: set<nat>, ghost S': Shape)
    requires RegionsOk(rs, ram.Length) && 0 < Pages(rs) && Pages(rs) * 32768 < U64_MAX
    requires WindowOk(offset, ram.Length) && ram.Length <= PageOfAddress(offset) * 0x1000
    requires LoaderOk(rs, offset, loaderTables, cr3, S)
    requires keepFlag || forall v: nat :: v < PAGE_LIMIT ==> !InGigabyteLeaf(loaderTables, cr3, v)
    requires EntriesOk(rs, PageOfAddress(offset), loaderTables, cr3) && kernelStart <= kernelEnd
    requires KernelOk(rs, PageOfAddress(offset), loaderTables, cr3, PageOfAddress(kernelStart), kp,
                      KernelPages(kernelStart, kernelEnd))
    requires 1 + Budget(rs, PageOfAddress(offset))
             + 4 + 8 * Leaves(PageOfAddress(kernelStart), KernelPages(kernelStart, kernelEnd))
             <= Pages(rs) - (Pages(rs) / 32768 + 1)
    modifies ram
    ensures vmm.Valid() && vmm.initialised && vmm.offset == offset && vmm.pmm.regions == rs && vmm.keepFlag == keepFlag
    ensures BootLeaves(vmm.tables, vmm.pml4, rs, PageOfAddress(offset),
                       PageOfAddress(kernelStart), kp, KernelPages(kernelStart, kernelEnd))
    ensures BootMap(vmm.tables, vmm.pml4, rs, PageOfAddress(offset),
                    PageOfAddress(kernelStart), kp, KernelPages(kernelStart, kernelEnd))
    ensures Tree(vmm.tables, cr3, S') && Partition(vmm, {}, handed + (S'.Values - S.Values))
    ensures ShowsMemory(vmm.tables, vmm.pml4, rs, PageOfAddress(offset), PageOfAddress(kernelStart), kp,
                        kernelEnd - kernelStart)
    ensures forall u: nat :: u < PAGE_LIMIT ==> OpenPage(vmm.tables, vmm.pml4, u)
    ensures |handed| == LeafCount(rs, PageOfAddress(offset))
                        + Leaves(PageOfAddress(kernelStart), KernelPages(kernelStart, kernelEnd))
    ensures handed !! S'.Values
    ensures DirectMapped(vmm, vmm.tables, vmm.pml4)
    ensures RunInv(vmm, {}, handed + (S'.Values - S.Values)) <==>
            keepFlag || !BootUsesGigabyte(rs, PageOfAddress(offset),
                                          PageOfAddress(kernelStart), KernelPages(kernelStart, kernelEnd))
  {
    hide *;
    ghost var hh, kv, n := PageOfAddress(offset), PageOfAddress(kernelStart), KernelPages(kernelStart, kernelEnd);
    LoaderTree(rs, offset, loaderTables, cr3, S);
    vmm := Start(rs, ram, offset, keepFlag, loaderTables, cr3, S);
    ghost var F0 := vmm.pmm.free;
    var root;
    ghost var N, w;
    root, N, w := BuildMap(vmm, rs, kernelStart, kernelEnd, kp, hh);
    S', handed := vmm.shape, w.handed;
    UseMap(vmm, root, N, w, S, rs, hh, kv, kp, n, F0, loaderTables, cr3);
    KernelApart(rs, hh, loaderTables, cr3, kv, kp, n);
    BootShows(vmm.tables, root, rs, hh, kv, kp, kernelStart, kernelEnd);
    OpenEverywhere(vmm.tables, root);
  }

  lemma KernelApart(rs: seq<Region>, hh: nat, t: Tables, root: nat, kv: nat, kp: nat, kernelPages: nat)
    requires KernelOk(rs, hh, t, root, kv, kp, kernelPages)
    ensures forall u :: kv <= u < kv + kernelPages ==> !Covered(rs, hh, u)
  {
  }

  lemma OpenEverywhere(t: Tables, root: nat)
    requires AllOpen(t, root)
    ensures forall u: nat :: u < PAGE_LIMIT ==> OpenPage(t, root, u)
  {
  }

  /** The new page map, from its PML4 to the kernel's pages. */
  method BuildMap(vmm: Vmm, rs: seq<Region>, kernelStart: nat, kernelEnd: nat, ghost kp: nat, ghost hh: nat)
    returns (root: nat, ghost N: Shape, ghost w: Ledger)
    requires Apart(vmm, {}) && hh == PageOfAddress(vmm.offset) && kernelStart <= kernelEnd
    requires EntriesOk(rs, hh, vmm.tables, vmm.pml4)
    requires KernelOk(rs, hh, vmm.tables, vmm.pml4, PageOfAddress(kernelStart), kp, KernelPages(kernelStart, kernelEnd))
    requires 1 + Budget(rs, hh) + 4 + 8 * Leaves(PageOfAddress(kernelStart), KernelPages(kernelStart, kernelEnd))
             <= |vmm.pmm.free|
    modifies vmm`tables, vmm`shape, vmm.pmm`allocatedPages, vmm.pmm`bits, vmm.pmm`free, vmm.pmm.ram
    ensures Building(vmm, root, N, w) && w.lost == {} && w.pool == old(vmm.pmm.free + vmm.shape.Values)
    ensures |w.handed| == LeafCount(rs, hh) + Leaves(PageOfAddress(kernelStart), KernelPages(kernelStart, kernelEnd))
    ensures BootLeaves(vmm.tables, root, rs, hh, PageOfAddress(kernelStart), kp, KernelPages(kernelStart, kernelEnd))
    ensures AllOpen(vmm.tables, root)
  {
    hide *;
    EnoughToStart(vmm);
    root, N, w := NewMap(vmm, hh);
    N, w := MapEntries(vmm, root, rs, hh, N, w);
    N, w := MapKernel(vmm, root, kernelStart, kernelEnd, kp, rs, hh, N, w);
  }

  /** The switch to the new page map. */
  method UseMap(vmm: Vmm, root: nat, ghost N: Shape, ghost w: Ledger, ghost S: Shape, ghost rs: seq<Region>,
                ghost hh: nat, ghost kv: nat, ghost kp: nat, ghost n: nat, ghost F0: set<nat>, ghost t: Tables,
                ghost r: nat)
    requires Building(vmm, root, N, w) && w.lost == {} && BootLeaves(vmm.tables, root, rs, hh, kv, kp, n)
    requires vmm.pmm.regions == rs && hh == PageOfAddress(vmm.offset) && vmm.pmm.ram.Length <= hh * 0x1000
    requires w.pool == F0 + S.Values && forall f: nat :: vmm.pmm.Lends(f) <==> f in F0
    requires forall f :: f in S.Values ==> !vmm.pmm.Usable(f)
    requires EntriesOk(rs, hh, t, r) && KernelOk(rs, hh, t, r, kv, kp, n)
    modifies vmm`pml4, vmm`shape
    ensures vmm.Valid() && vmm.initialised && vmm.tables == old(vmm.tables) && vmm.pml4 == root
    ensures BootMap(vmm.tables, root, rs, hh, kv, kp, n) && DirectMapped(vmm, vmm.tables, root)
    ensures Tree(vmm.tables, old(vmm.pml4), old(vmm.shape)) && w.handed !! old(vmm.shape).Values
    ensures Partition(vmm, {}, w.handed + (old(vmm.shape).Values - S.Values))
    ensures RunInv(vmm, {}, w.handed + (old(vmm.shape).Values - S.Values)) <==>
            vmm.keepFlag || !BootUsesGigabyte(rs, hh, kv, n)
  {
    hide *;
    BuildingFacts(vmm, root, N, w);
    NewOwners(vmm, root, N, w, F0, S, vmm.shape);
    ghost var abandoned := w.handed + (vmm.shape.Values - S.Values);
    vmm.SetPml4(root, N);
    NewPartition(vmm, abandoned);
    BootLeavesShow(vmm.tables, root, rs, hh, kv, kp, n);
    BootDirectMap(vmm, rs, hh, kv, kp, n, t, r);
    BootGigabytes(vmm.tables, root, rs, hh, kv, kp, n, t, r);
    BootRuns(vmm, abandoned);
  }

  lemma LoaderTree(rs: seq<Region>, offset: nat, t: Tables, cr3: nat, S: Shape)
    requires LoaderOk(rs, offset, t, cr3, S)
    ensures forall f :: f in S.Values ==> Idx(rs, f * 0x1000).None?
  {
  }

  lemma EnoughToStart(vmm: Vmm)
    requires 0 < |vmm.pmm.free|
    ensures vmm.pmm.free != {}
  {
  }

  /** Everything in the pool has one owner once the new map is complete. */
  lemma NewOwners(vmm: Vmm, root: nat, N: Shape, w: Ledger, F0: set<nat>, S: Shape, S': Shape)
    requires Building(vmm, root, N, w) && w.lost == {} && S' == vmm.shape && w.pool == F0 + S.Values
    requires forall f: nat :: vmm.pmm.Lends(f) <==> f in F0
    requires forall f :: f in S.Values ==> !vmm.pmm.Usable(f)
    ensures Classes(vmm, N.Values, vmm.pmm.free, {}, w.handed + (S'.Values - S.Values))
    ensures w.handed !! S'.Values
  {
    hide Building, Tree, DirectMapped, SameMeaning, InGigabyteLeaf, WindowOk, Vmm.Valid, Pmm.Usable, Pmm.Lends;
    BuildingFacts(vmm, root, N, w);
    LentIsUsable(vmm);
    forall f | f in S'.Values - S.Values ensures vmm.pmm.Lends(f) {
      assert f in w.pool;
    }
    forall f | vmm.pmm.Lends(f)
      ensures f in vmm.pmm.free || f in N.Values || f in w.handed + (S'.Values - S.Values)
    {
      assert f in w.pool;
    }
  }

  lemma LentIsUsable(vmm: Vmm)
    ensures forall f: nat :: vmm.pmm.Lends(f) ==> vmm.pmm.Usable(f)
  {
  }

  lemma NewPartition(vmm: Vmm, abandoned: set<nat>)
    requires Classes(vmm, vmm.shape.Values, vmm.pmm.free, {}, abandoned)
    ensures Partition(vmm, {}, abandoned)
  {
  }

  /** Runs may start from here exactly when no page is in a 1 GiB leaf, or the flag is
      kept. */
  lemma BootRuns(vmm: Vmm, abandoned: set<nat>)
    requires vmm.Valid() && vmm.initialised && Partition(vmm, {}, abandoned)
    ensures RunInv(vmm, {}, abandoned) <==>
            vmm.keepFlag || !exists u: nat :: u < PAGE_LIMIT && InGigabyteLeaf(vmm.tables, vmm.pml4, u)
  {
  }

  /** pmm_init and vmm_init. */
  method Start(rs: seq<Region>, ram: array<bv8>, offset: nat, keepFlag: bool, loaderTables: Tables, cr3: nat,
               ghost S: Shape)
    returns (vmm: Vmm)
    requires RegionsOk(rs, ram.Length) && 0 < Pages(rs) && Pages(rs) * 32768 < U64_MAX
    requires WindowOk(offset, ram.Length) && LoaderOk(rs, offset, loaderTables, cr3, S)
    requires keepFlag || forall v: nat :: v < PAGE_LIMIT ==> !InGigabyteLeaf(loaderTables, cr3, v)
    modifies ram
    ensures fresh(vmm) && fresh(vmm.pmm) && vmm.pmm.ram == ram
    ensures Apart(vmm, {})
    ensures vmm.offset == offset && vmm.pmm.regions == rs && vmm.keepFlag == keepFlag
    ensures vmm.tables == loaderTables && vmm.pml4 == cr3 && vmm.shape == S
    ensures |vmm.pmm.free| == Pages(rs) - (Pages(rs) / 32768 + 1)
    ensures forall f: nat :: vmm.pmm.Lends(f) <==> f in vmm.pmm.free
    ensures forall f: nat :: vmm.pmm.Usable(f) <==> Idx(rs, f * 0x1000).Some?
  {
    hide Tree, Walk, Clear, Count;
    var pmm := new Pmm(rs, ram);
    ClearCount(rs, pmm.bits, ram.Length);
    AllFree(pmm);
    vmm := new Vmm(pmm, offset, keepFlag, loaderTables);
    LoaderTablesNotFree(pmm, offset, loaderTables, cr3, S);
    vmm.Init(cr3, S);
  }

  /** At first all frames that can be lent are free. */
  lemma AllFree(pmm: Pmm)
    requires pmm.Valid() && forall i :: 0 <= i < pmm.usablePages ==> pmm.bits[i] == (i < pmm.bitmapPages)
    ensures forall f: nat :: pmm.Lends(f) <==> f in pmm.free
  {
    forall f: nat ensures pmm.Lends(f) <==> f in pmm.free {
      pmm.FreeIsLent(f);
      if pmm.Lends(f) {
        ClearUpdate(pmm.regions, pmm.bits, Idx(pmm.regions, f * 0x1000).value, true, pmm.ram.Length);
      }
    }
  }

  lemma LoaderTablesNotFree(pmm: Pmm, offset: nat, t: Tables, cr3: nat, S: Shape)
    requires pmm.Valid() && LoaderOk(pmm.regions, offset, t, cr3, S)
    ensures S.Values !! pmm.free
  {
    forall f | f in S.Values ensures f !in pmm.free {
      pmm.FreeIsLent(f);
    }
  }

  /** The boot map shows every usable frame, and maps no low page at all. */
  lemma BootDirectMap(vmm: Vmm, rs: seq<Region>, hh: nat, kv: nat, kp: nat, kernelPages: nat, t: Tables, root: nat)
    requires vmm.Valid() && vmm.pmm.regions == rs && hh == PageOfAddress(vmm.offset)
    requires BootMap(vmm.tables, vmm.pml4, rs, hh, kv, kp, kernelPages)
    requires vmm.pmm.ram.Length <= hh * 0x1000
    requires KernelOk(rs, hh, t, root, kv, kp, kernelPages)
    ensures DirectMapped(vmm, vmm.tables, vmm.pml4)
  {
    hide WalkAt;
    forall f | vmm.pmm.Usable(f)
      ensures Walk(vmm.tables, vmm.pml4, DirectPage(vmm.offset, f)) == Page(f)
      ensures Walk(vmm.tables, vmm.pml4, f) == Unmapped
    {
      vmm.UsableFits(f);
      vmm.pmm.UsableInMemory(f);
      UsableIsCovered(vmm, rs, hh, f);
    }
  }

  lemma UsableIsCovered(vmm: Vmm, rs: seq<Region>, hh: nat, f: nat)
    requires vmm.Ready() && vmm.pmm.regions == rs && vmm.pmm.Usable(f)
    ensures Covered(rs, hh, hh + f)
  {
    IdxDefined(rs, f * 0x1000);
    var k :| 0 <= k < |rs| && Holds(rs[k], f * 0x1000);
    assert Covers(rs[k], hh, hh + f);
  }

  /** For every usable page, physical to virtual and back is the identity, both while
      the VMM is not started and once its map shows the direct map. */
  method RoundTrip(vmm: Vmm, a: nat) returns (phys: nat)
    requires vmm.Valid() && a % 0x1000 == 0 && vmm.pmm.Usable(a / 0x1000)
    requires vmm.initialised ==> DirectMapped(vmm, vmm.tables, vmm.pml4)
    ensures phys == a
  {
    hide WindowOk, DirectMapped, Walk, Tree, Pmm.Usable, PhysToVirt, DirectPage, Pmm.Valid;
    ShownAt(vmm, a);
    var virt := PhysToVirt(vmm.offset, a);
    phys := vmm.PmmVirtToPhys(virt);
  }

  lemma ShownAt(vmm: Vmm, a: nat)
    requires vmm.Valid() && a % 0x1000 == 0 && vmm.pmm.Usable(a / 0x1000)
    requires vmm.initialised ==> DirectMapped(vmm, vmm.tables, vmm.pml4)
    ensures vmm.offset < U64
    ensures vmm.initialised ==> vmm.FrameBehind(PhysToVirt(vmm.offset, a)) == Some(a / 0x1000)
    ensures PhysToVirt(vmm.offset, a) % 0x1000 == 0
    ensures (PhysToVirt(vmm.offset, a) + U64 - vmm.offset) % U64 == a
    ensures a / 0x1000 != U64_MAX / 0x1000
  {
    vmm.UsableFits(a / 0x1000);
    assert a / 0x1000 * 0x1000 == a;
    ThereAndBack(vmm.offset, a);
  }
}
