/** Runs of the heap: which blocks clients hold after any sequence of calls. */
module HeapRuns {
  import opened Arithmetic
  import opened Segments
  import opened KernelHeap

  datatype Call =
    | CallMalloc(size: nat)
    | CallFree(ptr: nat)
    | CallRealloc(ptr: nat, size: nat)

  /** The blocks clients hold, with their sizes, are the segments that are not free. */
  ghost predicate Holds(segs: seq<Seg>, live: map<nat, nat>) {
    forall a: nat, n: nat :: LiveAt(segs, a, n) <==> (a in live && live[a] == n)
  }

  /** In a new heap nothing is held. */
  lemma NothingHeld(base: nat, size: nat)
    ensures Holds([Seg(base, size, true)], map[])
  {
  }

  /** Held blocks lie inside the heap, apart from each other and from every header. */
  lemma HeldBlocksApart(heap: Heap, live: map<nat, nat>, a: nat, b: nat, h: nat)
    requires heap.Valid() && Holds(heap.segs, live) && a in live && b in live && h < |heap.segs|
    ensures heap.base + HEADER <= a && a + live[a] <= heap.base + heap.heapSize * 0x1000
    ensures a != b ==> a + live[a] <= b || b + live[b] <= a
    ensures a + live[a] <= heap.segs[h].addr || heap.segs[h].addr + HEADER <= a
  {
    LiveBlocksApart(heap.segs, heap.base, heap.End(), a, live[a], b, live[b], h);
  }

  lemma MallocHolds(segs: seq<Seg>, base: nat, end: nat, size: nat, live: map<nat, nat>)
    requires Tiled(segs, base, end) && LastHasRoom(segs) && CanAllocate(segs, size) && Holds(segs, live)
    ensures var r, s, c := Payload(segs[Chosen(segs, size)]), Segments.Malloc(segs, size), Chosen(segs, size);
      r !in live && c < |s| && s[c].size >= size && Holds(s, live[r := s[c].size])
  {
    var r, s, c := Payload(segs[Chosen(segs, size)]), Segments.Malloc(segs, size), Chosen(segs, size);
    assert r in live ==> LiveAt(segs, r, live[r]);
    MallocFreshIff(segs, base, end, size);
    MallocGives(segs, size);
    forall a: nat, n: nat ensures LiveAt(s, a, n) <==> (a in live[r := s[c].size] && live[r := s[c].size][a] == n) {
      MallocLive(segs, base, end, size, a, n);
    }
  }

  /** Does malloc have a free segment to hand out or to extend, and room to grow? */
  method MayAllocate(heap: Heap, size: nat) returns (b: bool)
    requires heap.Valid()
    ensures b <==> CanAllocate(heap.segs, size) && (heap.heapSize + Growth(heap.segs, size)) * 0x1000 < U32
  {
    var hdr, found;
    ghost var k;
    hdr, found, k := heap.Search(size);
    assert HeaderOf(heap.hdrs, heap.segs, k);
    b := found || (heap.hdrs[hdr].free && (heap.heapSize + size / 0x1000 + 1) * 0x1000 < U32);
  }

  method StepMalloc(heap: Heap, size: nat, ghost live: map<nat, nat>) returns (r: nat, ghost live': map<nat, nat>)
    requires heap.Valid() && Holds(heap.segs, live)
    requires CanAllocate(heap.segs, size) && (heap.heapSize + Growth(heap.segs, size)) * 0x1000 < U32
    modifies heap
    ensures heap.Valid() && Holds(heap.segs, live')
    ensures r !in live && r in live' && live'[r] >= size && live' == live[r := live'[r]]
    ensures forall j :: |old(heap.data)| <= j < |heap.data| ==> heap.data[j] == 0
    ensures old(heap.data) <= heap.data && heap.segs == Segments.Malloc(old(heap.segs), size)
    ensures r == Payload(old(heap.segs)[Chosen(old(heap.segs), size)])
    ensures exists k: nat ::
              Allocated(old(heap.segs), heap.segs, size, k, Growth(old(heap.segs), size)) && r == old(heap.segs)[k].addr + HEADER
    ensures heap.heapSize == old(heap.heapSize) + Growth(old(heap.segs), size)
  {
    hide Good, Holds, CanAllocate, Segments.Malloc, FirstFit, Chosen, Growth, Allocated, PrevsKept;
    GoodIsWhole(heap.hdrs, heap.segs, heap.base, heap.End(), heap.repaired);
    WholeAllocates(heap.hdrs, heap.segs, heap.base, heap.End(), heap.repaired, size);
    MallocHolds(heap.segs, heap.base, heap.End(), size, live);
    r := heap.Malloc(size);
    live' := live[r := heap.segs[Chosen(old(heap.segs), size)].size];
  }

  lemma FreeHolds(segs: seq<Seg>, base: nat, end: nat, k: nat, ptr: nat, live: map<nat, nat>, s: seq<Seg>)
    requires Tiled(segs, base, end) && end < U64 && ptr < U64 && k < |segs| && segs[k].addr == HeaderAddr(ptr)
    requires Holds(segs, live)
    requires s == Segments.Free(segs, k) || s == SetFree(segs, k, true)
    ensures Holds(s, live - {ptr})
  {
    PayloadOf(segs, base, end, k, ptr);
    forall a: nat, n: nat ensures LiveAt(s, a, n) <==> (a in live - {ptr} && (live - {ptr})[a] == n) {
      FreeLive(segs, base, end, k, a, n);
      SetFreeLive(segs, base, end, k, a, n);
    }
  }

  /** The test a caller can make before it frees a block while free is as it stands. */
  method CheckSafe(heap: Heap, ptr: nat) returns (b: bool)
    requires heap.Valid() && !heap.repaired
    ensures b <==> heap.SafeToFree(ptr)
  {
    var valid;
    ghost var k;
    valid, k := heap.Find(HeaderAddr(ptr));
    if !valid { return true; }
    Neighbours(heap.hdrs, heap.segs, heap.base, heap.End(), k);
    var h := heap.hdrs[HeaderAddr(ptr)];
    b := (h.prev == 0 || !heap.hdrs[h.prev].free) && h.next != 0 && !heap.hdrs[h.next].free;
  }

  /** Freeing a pointer takes its block, if it is one, from the held blocks. */
  method StepFree(heap: Heap, ptr: nat, ghost live: map<nat, nat>) returns (ghost live': map<nat, nat>)
    requires heap.Valid() && Holds(heap.segs, live) && ptr < U64
    requires heap.repaired || heap.SafeToFree(ptr)
    modifies heap`hdrs, heap`segs
    ensures heap.Valid() && Holds(heap.segs, live') && live' == live - {ptr}
    ensures forall k :: 0 <= k < |old(heap.segs)| && old(heap.segs)[k].addr == HeaderAddr(ptr) ==>
              heap.segs == if heap.repaired then Segments.Free(old(heap.segs), k) else SetFree(old(heap.segs), k, true)
    ensures (forall k :: 0 <= k < |old(heap.segs)| ==> old(heap.segs)[k].addr != HeaderAddr(ptr)) ==>
              live' == live && heap.segs == old(heap.segs) && heap.hdrs == old(heap.hdrs)
  {
    hide Good, Holds, LiveAt, SetFree, Segments.Free;
    live' := live - {ptr};
    GoodIsWhole(heap.hdrs, heap.segs, heap.base, heap.End(), heap.repaired);
    ghost var s := heap.segs;
    if heap.repaired { heap.FreeRepaired(ptr); } else { var _ := heap.Free(ptr); }
    if k: nat :| k < |s| && s[k].addr == HeaderAddr(ptr) {
      FreeHolds(s, heap.base, heap.End(), k, ptr, live, heap.segs);
    } else {
      Vanished(s, heap.base, heap.End(), ptr, live);
    }
  }

  lemma Vanished(segs: seq<Seg>, base: nat, end: nat, ptr: nat, live: map<nat, nat>)
    requires Tiled(segs, base, end) && end < U64 && ptr < U64 && Holds(segs, live)
    requires forall k :: 0 <= k < |segs| ==> segs[k].addr != HeaderAddr(ptr)
    ensures live - {ptr} == live
  {
    hide HeaderAddr, Tiled;
    if ptr in live {
      assert LiveAt(segs, ptr, live[ptr]);
      var i :| 0 <= i < |segs| && !segs[i].free && Payload(segs[i]) == ptr && segs[i].size == live[ptr];
      InBounds(segs, base, end, i);
      HeaderOfPayload(segs[i].addr);
    }
  }

  method StepRealloc(heap: Heap, ptr: nat, size: nat, ghost live: map<nat, nat>)
    returns (r: nat, ghost live': map<nat, nat>)
    requires heap.Valid() && Holds(heap.segs, live) && ptr < U64
    requires CanAllocate(heap.segs, size) && (heap.heapSize + Growth(heap.segs, size)) * 0x1000 < U32
    modifies heap
    ensures heap.Valid() && Holds(heap.segs, live')
    ensures r !in live && r in live' && live'[r] >= size && live' == live[r := live'[r]]
    ensures heap.base <= r && heap.segs == Segments.Malloc(old(heap.segs), size)
    ensures r == Payload(old(heap.segs)[Chosen(old(heap.segs), size)])
    ensures exists k: nat ::
              Allocated(old(heap.segs), heap.segs, size, k, Growth(old(heap.segs), size)) && r == old(heap.segs)[k].addr + HEADER
    ensures heap.heapSize == old(heap.heapSize) + Growth(old(heap.segs), size)
    ensures OthersIntact(old(heap.data), heap.data, heap.base, r, size)
    ensures ptr in live ==>
              && heap.base <= ptr
              && Moved(old(heap.data), heap.data, ptr - heap.base, r - heap.base, Least(live[ptr], size))
  {
    hide *;
    heap.ValidParts();
    WholeAllocates(heap.hdrs, heap.segs, heap.base, heap.End(), heap.repaired, size);
    MallocHolds(heap.segs, heap.base, heap.End(), size, live);
    ghost var before, d := heap.segs, heap.data;
    HeldIsLive(before, live, ptr);
    r := heap.Realloc(ptr, size);
    live' := live[r := heap.segs[Chosen(before, size)].size];
    if ptr in live { LiveMoved(before, d, heap.data, heap.base, ptr, r, size, live[ptr]); }
  }

  lemma HeldIsLive(segs: seq<Seg>, live: map<nat, nat>, ptr: nat)
    requires Holds(segs, live)
    ensures ptr in live ==> LiveAt(segs, ptr, live[ptr])
  {
  }

  /** The heap as its clients and its own code see it. */
  datatype View = View(hdrs: Headers, segs: seq<Seg>, pages: nat, data: seq<bv8>, live: map<nat, nat>)

  ghost function Seen(heap: Heap, live: map<nat, nat>): View
    reads heap
  {
    View(heap.hdrs, heap.segs, heap.heapSize, heap.data, live)
  }

  /** Calls that are passed over: those of malloc and realloc that would extend a
      segment a client holds, or the heap past 4 GiB; those of free with a number that
      is no address; and, while free is as it stands, those that would not come
      back. */
  ghost predicate Served(repaired: bool, v: View, call: Call)
    requires |v.segs| > 0
  {
    match call
    case CallMalloc(size) => CanAllocate(v.segs, size) && (v.pages + Growth(v.segs, size)) * 0x1000 < U32
    case CallFree(ptr) => ptr < U64 && (repaired || Safe(v.hdrs, v.segs, ptr))
    case CallRealloc(ptr, size) =>
      ptr < U64 && CanAllocate(v.segs, size) && (v.pages + Growth(v.segs, size)) * 0x1000 < U32
  }

  /** A new block of at least size bytes, the first that fits, is held from now on, and
      no segment changes but the one it is taken from. */
  ghost predicate Gives(v: View, size: nat, v': View)
    requires |v.segs| > 0
  {
    var r := Payload(v.segs[Chosen(v.segs, size)]);
    && (exists k: nat :: Allocated(v.segs, v'.segs, size, k, Growth(v.segs, size)) && r == v.segs[k].addr + HEADER)
    && v'.segs == Segments.Malloc(v.segs, size) && v'.pages == v.pages + Growth(v.segs, size)
    && r !in v.live && r in v'.live && v'.live[r] >= size && v'.live == v.live[r := v'.live[r]]
  }

  /** What a call does to the held blocks and to the bytes of the heap. */
  ghost predicate Follows(repaired: bool, base: nat, v: View, call: Call, v': View)
    requires |v.segs| > 0
  {
    if !Served(repaired, v, call) then v' == v
    else match call
    case CallMalloc(size) =>
      Gives(v, size, v') && v.data <= v'.data && forall j :: |v.data| <= j < |v'.data| ==> v'.data[j] == 0
    case CallFree(ptr) =>
      && v'.live == v.live - {ptr} && v'.data == v.data && v'.pages == v.pages
      && (forall k :: 0 <= k < |v.segs| && v.segs[k].addr == HeaderAddr(ptr) ==>
            v'.segs == if repaired then Segments.Free(v.segs, k) else SetFree(v.segs, k, true))
      && ((forall k :: 0 <= k < |v.segs| ==> v.segs[k].addr != HeaderAddr(ptr)) ==> v' == v)
    case CallRealloc(ptr, size) =>
      var r := Payload(v.segs[Chosen(v.segs, size)]);
      && Gives(v, size, v')
      && OthersIntact(v.data, v'.data, base, r, size)
      && (ptr in v.live ==>
            && base <= ptr && base <= r
            && Moved(v.data, v'.data, ptr - base, r - base, Least(v.live[ptr], size)))
  }

  lemma NotEmpty(heap: Heap)
    requires heap.Valid()
    ensures |heap.segs| > 0
  {
  }

  /** Serves one call, or passes it over. */
  method Serve(heap: Heap, call: Call, ghost live: map<nat, nat>) returns (ghost live': map<nat, nat>)
    requires heap.Valid() && Holds(heap.segs, live) && |heap.segs| > 0
    modifies heap
    ensures heap.Valid() && Holds(heap.segs, live')
    ensures Follows(heap.repaired, heap.base, old(Seen(heap, live)), call, Seen(heap, live'))
  {
    hide Good, Holds, Safe, CanAllocate, Growth, Allocated, Moved, OthersIntact, Segments.Malloc, Segments.Free, SetFree,
         HeaderAddr;
    live' := live;
    match call {
      case CallMalloc(size) =>
        var b := MayAllocate(heap, size);
        if b {
          var r;
          r, live' := StepMalloc(heap, size, live);
        }
      case CallFree(ptr) =>
        var b := heap.repaired;
        if !b { b := CheckSafe(heap, ptr); }
        if b && ptr < U64 {
          live' := StepFree(heap, ptr, live);
        }
      case CallRealloc(ptr, size) =>
        var b := MayAllocate(heap, size);
        if b && ptr < U64 {
          var r;
          r, live' := StepRealloc(heap, ptr, size, live);
        }
    }
  }

  /** Any run of calls keeps the heap whole and the held blocks known exactly: so, with
      HeldBlocksApart, blocks never overlap.  And call by call, the log of what is
      seen of the heap follows the specification of the call. */
  method Run(heap: Heap, calls: seq<Call>, ghost start: map<nat, nat>)
    returns (ghost live: map<nat, nat>, ghost log: seq<View>)
    requires heap.Valid() && Holds(heap.segs, start)
    modifies heap
    ensures heap.Valid() && Holds(heap.segs, live)
    ensures |log| == |calls| + 1 && log[0] == old(Seen(heap, start)) && log[|calls|] == Seen(heap, live)
    ensures forall i :: 0 <= i < |calls| ==>
              |log[i].segs| > 0 && Follows(heap.repaired, heap.base, log[i], calls[i], log[i + 1])
  {
    hide Good, Holds, Follows;
    live, log := start, [Seen(heap, start)];
    NotEmpty(heap);
    for i := 0 to |calls|
      invariant heap.Valid() && Holds(heap.segs, live) && |heap.segs| > 0
      invariant |log| == i + 1 && log[0] == old(Seen(heap, start)) && log[i] == Seen(heap, live)
      invariant forall j :: 0 <= j < i ==>
                  |log[j].segs| > 0 && Follows(heap.repaired, heap.base, log[j], calls[j], log[j + 1])
    {
      live := Serve(heap, calls[i], live);
      NotEmpty(heap);
      log := log + [Seen(heap, live)];
    }
  }
}
