/** The heap's segments as a sequence, and what each heap operation does to it. */
module Segments {

  /** sizeof(heap_segment_hdr_t): two pointers, a 32-bit size and a flag, packed. */
  const HEADER: nat := 21

  datatype Seg = Seg(addr: nat, size: nat, free: bool)

  function End(s: Seg): nat {
    s.addr + HEADER + s.size
  }

  function Payload(s: Seg): nat {
    s.addr + HEADER
  }

  /** The segments tile [base, end): each ends where the next header begins. */
  ghost predicate Tiled(segs: seq<Seg>, base: nat, end: nat) {
    && |segs| > 0
    && segs[0].addr == base
    && (forall k {:trigger segs[k]} :: 0 <= k < |segs| - 1 ==> segs[k + 1].addr == End(segs[k]))
    && End(segs[|segs| - 1]) == end
  }

  /** The last segment has room; true from the start, and what tells a whole heap
      from one that was cut off at a cleared header. */
  ghost predicate LastHasRoom(segs: seq<Seg>) {
    |segs| > 0 && segs[|segs| - 1].size > 0
  }

  ghost predicate NoTwoFree(segs: seq<Seg>) {
    forall k {:trigger segs[k]} :: 0 <= k < |segs| - 1 ==> !(segs[k].free && segs[k + 1].free)
  }

  /** A block of n bytes at a that a client holds. */
  ghost predicate LiveAt(segs: seq<Seg>, a: nat, n: nat) {
    exists k :: 0 <= k < |segs| && !segs[k].free && Payload(segs[k]) == a && segs[k].size == n
  }

  // ----- consequences of tiling -----

  lemma {:induction false} Ascending(segs: seq<Seg>, base: nat, end: nat, i: nat, j: nat)
    requires Tiled(segs, base, end) && i < j < |segs|
    ensures End(segs[i]) <= segs[j].addr
    decreases j - i
  {
    if i + 1 < j {
      Ascending(segs, base, end, i + 1, j);
    }
  }

  lemma TiledEnds(segs: seq<Seg>, base: nat, end: nat)
    requires Tiled(segs, base, end)
    ensures |segs| > 0 && segs[0].addr == base && End(segs[|segs| - 1]) == end
  {
  }

  lemma InBounds(segs: seq<Seg>, base: nat, end: nat, i: nat)
    requires Tiled(segs, base, end) && i < |segs|
    ensures base <= segs[i].addr && End(segs[i]) <= end
  {
    hide Tiled;
    TiledEnds(segs, base, end);
    if i > 0 { Ascending(segs, base, end, 0, i); }
    if i < |segs| - 1 { Ascending(segs, base, end, i, |segs| - 1); }
  }

  lemma SameAddress(segs: seq<Seg>, base: nat, end: nat, i: nat, j: nat)
    requires Tiled(segs, base, end) && i < |segs| && j < |segs| && segs[i].addr == segs[j].addr
    ensures i == j
  {
    hide Tiled;
    if i < j { Ascending(segs, base, end, i, j); }
    if j < i { Ascending(segs, base, end, j, i); }
  }

  /** Live blocks lie inside the heap, apart from each other and from all headers. */
  lemma LiveBlocksApart(segs: seq<Seg>, base: nat, end: nat, a: nat, n: nat, b: nat, m: nat, h: nat)
    requires Tiled(segs, base, end) && LiveAt(segs, a, n) && LiveAt(segs, b, m) && h < |segs|
    ensures base + HEADER <= a && a + n <= end
    ensures a + n <= segs[h].addr || segs[h].addr + HEADER <= a
    ensures a != b ==> a + n <= b || b + m <= a
    ensures a == b ==> n == m
  {
    hide Tiled;
    var i :| 0 <= i < |segs| && !segs[i].free && Payload(segs[i]) == a && segs[i].size == n;
    var j :| 0 <= j < |segs| && !segs[j].free && Payload(segs[j]) == b && segs[j].size == m;
    InBounds(segs, base, end, i);
    if h < i { Ascending(segs, base, end, h, i); }
    if i < h { Ascending(segs, base, end, i, h); }
    if i < j { Ascending(segs, base, end, i, j); }
    if j < i { Ascending(segs, base, end, j, i); }
  }

  // ----- the operations -----

  /** heap_split_segment: cuts segment k down to `size` when what is left over has
      room for a header and at least a byte. */
  function Split(segs: seq<Seg>, k: nat, size: nat): seq<Seg>
    requires k < |segs|
  {
    if segs[k].size <= size + HEADER then segs
    else segs[..k] +
         [segs[k].(size := size), Seg(segs[k].addr + HEADER + size, segs[k].size - (size + HEADER), true)] +
         segs[k + 1..]
  }

  function SetFree(segs: seq<Seg>, k: nat, free: bool): seq<Seg>
    requires k < |segs|
  {
    segs[k := segs[k].(free := free)]
  }

  /** The part of malloc that hands out segment k. */
  function Take(segs: seq<Seg>, k: nat, size: nat): seq<Seg>
    requires k < |segs|
  {
    if segs[k].size == size then SetFree(segs, k, false) else SetFree(Split(segs, k, size), k, false)
  }

  /** heap_extend: more room in the last segment. */
  function Extend(segs: seq<Seg>, pages: nat): seq<Seg>
    requires |segs| > 0
  {
    segs[|segs| - 1 := segs[|segs| - 1].(size := segs[|segs| - 1].size + pages * 0x1000)]
  }

  predicate Fits(s: Seg, size: nat) {
    s.free && s.size >= size
  }

  /** Index of the first free segment that is large enough; |segs| if there is none. */
  function FirstFit(segs: seq<Seg>, size: nat): (k: nat)
    ensures k <= |segs|
    ensures k < |segs| ==> Fits(segs[k], size)
    ensures forall j :: 0 <= j < k ==> !Fits(segs[j], size)
  {
    if segs == [] || Fits(segs[0], size) then 0
    else
      var k := FirstFit(segs[1..], size);
      assert forall j :: 1 <= j < k + 1 ==> segs[j] == segs[1..][j - 1];
      1 + k
  }

  function PagesFor(size: nat): nat {
    size / 0x1000 + 1
  }

  /** The segment that malloc hands out. */
  function Chosen(segs: seq<Seg>, size: nat): nat
    requires |segs| > 0
  {
    if FirstFit(segs, size) < |segs| then FirstFit(segs, size) else |segs| - 1
  }

  function Malloc(segs: seq<Seg>, size: nat): seq<Seg>
    requires |segs| > 0
  {
    if FirstFit(segs, size) < |segs| then Take(segs, FirstFit(segs, size), size)
    else Take(Extend(segs, PagesFor(size)), |segs| - 1, size)
  }

  /** Pages malloc adds to the heap. */
  function Growth(segs: seq<Seg>, size: nat): nat {
    if FirstFit(segs, size) < |segs| then 0 else PagesFor(size)
  }

  /** heap_merge_forward, on the segments: k absorbs its successor. */
  function Merge(segs: seq<Seg>, k: nat): seq<Seg>
    requires k + 1 < |segs|
  {
    segs[..k] + [segs[k].(size := segs[k].size + HEADER + segs[k + 1].size)] + segs[k + 2..]
  }

  /** Merges k with its successor if that is free. */
  function MergeNext(segs: seq<Seg>, k: nat): seq<Seg>
    requires k < |segs|
  {
    if k + 1 < |segs| && segs[k + 1].free then Merge(segs, k) else segs
  }

  /** Where segment k is after it was merged with its predecessor, if that is free. */
  function BackIndex(segs: seq<Seg>, k: nat): nat
    requires k < |segs|
  {
    if k > 0 && segs[k - 1].free then k - 1 else k
  }

  function MergeBack(segs: seq<Seg>, k: nat): (s: seq<Seg>)
    requires k < |segs|
    ensures BackIndex(segs, k) < |s|
  {
    if k > 0 && segs[k - 1].free then Merge(segs, k - 1) else segs
  }

  /** free with its repairs: marks segment k and merges it with its free neighbours. */
  function Free(segs: seq<Seg>, k: nat): seq<Seg>
    requires k < |segs|
  {
    var s := SetFree(segs, k, true);
    MergeNext(MergeBack(s, k), BackIndex(s, k))
  }

  // ----- what they keep -----

  lemma SplitKeeps(segs: seq<Seg>, base: nat, end: nat, k: nat, size: nat)
    requires Tiled(segs, base, end) && LastHasRoom(segs) && k < |segs|
    ensures Tiled(Split(segs, k, size), base, end) && LastHasRoom(Split(segs, k, size))
  {
    var s := Split(segs, k, size);
    forall i | 0 <= i < |s| - 1 ensures s[i + 1].addr == End(s[i]) {
      if i < k - 1 { assert s[i + 1].addr == End(segs[i]); }
      if i == k - 1 { assert segs[i + 1].addr == End(segs[i]); }
      if i > k + 1 && |s| > |segs| { assert segs[i - 1 + 1].addr == End(segs[i - 1]); }
      if |s| == |segs| { assert segs[i + 1].addr == End(segs[i]); }
    }
  }

  lemma SetFreeKeeps(segs: seq<Seg>, base: nat, end: nat, k: nat, free: bool)
    requires Tiled(segs, base, end) && LastHasRoom(segs) && k < |segs|
    ensures Tiled(SetFree(segs, k, free), base, end) && LastHasRoom(SetFree(segs, k, free))
  {
    var s := SetFree(segs, k, free);
    forall i | 0 <= i < |s| - 1 ensures s[i + 1].addr == End(s[i]) {
      assert segs[i + 1].addr == End(segs[i]);
    }
  }

  lemma ExtendKeeps(segs: seq<Seg>, base: nat, end: nat, pages: nat)
    requires Tiled(segs, base, end) && LastHasRoom(segs)
    ensures Tiled(Extend(segs, pages), base, end + pages * 0x1000) && LastHasRoom(Extend(segs, pages))
  {
    var s := Extend(segs, pages);
    forall i | 0 <= i < |s| - 1 ensures s[i + 1].addr == End(s[i]) {
      assert segs[i + 1].addr == End(segs[i]);
    }
  }

  lemma MergeKeeps(segs: seq<Seg>, base: nat, end: nat, k: nat)
    requires Tiled(segs, base, end) && LastHasRoom(segs) && k + 1 < |segs|
    ensures Tiled(Merge(segs, k), base, end) && LastHasRoom(Merge(segs, k))
  {
    var s := Merge(segs, k);
    assert segs[k + 1].addr == End(segs[k]);
    forall i | 0 <= i < |s| - 1 ensures s[i + 1].addr == End(s[i]) {
      if i < k { assert segs[i + 1].addr == End(segs[i]); }
      if i >= k { assert segs[i + 2].addr == End(segs[i + 1]); }
    }
  }

  lemma TakeKeeps(segs: seq<Seg>, base: nat, end: nat, k: nat, size: nat)
    requires Tiled(segs, base, end) && LastHasRoom(segs) && k < |segs|
    ensures Tiled(Take(segs, k, size), base, end) && LastHasRoom(Take(segs, k, size))
  {
    SplitKeeps(segs, base, end, k, size);
    SetFreeKeeps(segs, base, end, k, false);
    SetFreeKeeps(Split(segs, k, size), base, end, k, false);
  }

  /** malloc keeps the heap tiled, its end moved by the pages it added. */
  lemma MallocKeeps(segs: seq<Seg>, base: nat, end: nat, size: nat)
    requires Tiled(segs, base, end) && LastHasRoom(segs)
    ensures Tiled(Malloc(segs, size), base, end + Growth(segs, size) * 0x1000) && LastHasRoom(Malloc(segs, size))
  {
    hide Tiled, Take, FirstFit;
    var k := FirstFit(segs, size);
    if k < |segs| {
      TakeKeeps(segs, base, end, k, size);
    } else {
      ExtendKeeps(segs, base, end, PagesFor(size));
      TakeKeeps(Extend(segs, PagesFor(size)), base, end + PagesFor(size) * 0x1000, |segs| - 1, size);
    }
  }

  /** The segment handed out holds at least the bytes asked for: the NULL return of
      malloc is never reached. */
  lemma MallocGives(segs: seq<Seg>, size: nat)
    requires |segs| > 0
    ensures var s, k := Malloc(segs, size), Chosen(segs, size);
      && k < |s| && !s[k].free && s[k].size >= size && s[k].addr == segs[k].addr
      && forall j :: 0 <= j < k ==> s[j] == segs[j]
    ensures FirstFit(segs, size) == |segs| ==> segs[|segs| - 1].size + PagesFor(size) * 0x1000 > size
  {
  }

  /** What malloc is to do, of the segments before and after: segment k is the first free
      one with room for the request, or the last one if there is none, with just pages
      enough added to it.  It is handed out, cut down to the size asked for if what is
      left over holds a header and at least a byte; that is then a free segment behind
      it.  No other segment changes. */
  ghost predicate Allocated(segs: seq<Seg>, s: seq<Seg>, size: nat, k: nat, pages: nat) {
    && k < |segs| && k < |s|
    && (forall j :: 0 <= j < k ==> !(segs[j].free && segs[j].size >= size))
    && (if segs[k].free && segs[k].size >= size then pages == 0
        else k == |segs| - 1 && pages > 0 && (pages - 1) * 0x1000 <= size < pages * 0x1000)
    && s[k].addr == segs[k].addr && !s[k].free
    && (forall j :: 0 <= j < k ==> s[j] == segs[j])
    && var room := segs[k].size + pages * 0x1000;
       if room <= size + HEADER then
         |s| == |segs| && s[k].size == room && (forall j :: k < j < |segs| ==> s[j] == segs[j])
       else
         && |s| == |segs| + 1 && s[k].size == size
         && s[k + 1] == Seg(segs[k].addr + HEADER + size, room - size - HEADER, true)
         && (forall j :: k < j < |segs| ==> s[j + 1] == segs[j])
  }

  lemma MallocAllocates(segs: seq<Seg>, size: nat)
    requires |segs| > 0
    ensures Allocated(segs, Malloc(segs, size), size, Chosen(segs, size), Growth(segs, size))
  {
    hide FirstFit;
    var k := FirstFit(segs, size);
    if k == |segs| {
      assert !Fits(segs[|segs| - 1], size);
    }
  }

  /** What free with both merges is to do: the freed segment and its free neighbours
      become one free segment, and no other segment changes. */
  lemma FreeMerges(segs: seq<Seg>, base: nat, end: nat, k: nat)
    requires Tiled(segs, base, end) && k < |segs|
    ensures var i := if k > 0 && segs[k - 1].free then k - 1 else k;
      var j := if k + 1 < |segs| && segs[k + 1].free then k + 1 else k;
      && segs[i].addr + HEADER <= segs[j].addr + HEADER + segs[j].size
      && Free(segs, k) ==
         segs[..i] + [Seg(segs[i].addr, segs[j].addr + segs[j].size - segs[i].addr, true)] + segs[j + 1..]
  {
    hide *;
    TiledAround(segs, base, end, k);
    MergedBehind(segs, k);
    MergedAhead(segs, k);
    MergedSegIs(segs, k);
  }

  lemma TiledAround(segs: seq<Seg>, base: nat, end: nat, k: nat)
    requires Tiled(segs, base, end) && k < |segs|
    ensures k > 0 ==> segs[k - 1].addr + HEADER + segs[k - 1].size == segs[k].addr
    ensures k + 1 < |segs| ==> segs[k].addr + HEADER + segs[k].size == segs[k + 1].addr
  {
    if k > 0 { assert segs[k - 1 + 1].addr == End(segs[k - 1]); }
  }

  /** The segment after the merge with its predecessor. */
  function MergedSeg(segs: seq<Seg>, k: nat): Seg
    requires k < |segs|
  {
    if k > 0 && segs[k - 1].free then Seg(segs[k - 1].addr, segs[k - 1].size + HEADER + segs[k].size, true)
    else segs[k].(free := true)
  }

  lemma MergedSegIs(segs: seq<Seg>, k: nat)
    requires k < |segs|
    ensures MergedSeg(segs, k).size ==
            if k > 0 && segs[k - 1].free then segs[k - 1].size + HEADER + segs[k].size else segs[k].size
  {
  }

  lemma MergedBehind(segs: seq<Seg>, k: nat)
    requires k < |segs|
    ensures var i := if k > 0 && segs[k - 1].free then k - 1 else k;
      && BackIndex(SetFree(segs, k, true), k) == i
      && MergeBack(SetFree(segs, k, true), k) == segs[..i] + [MergedSeg(segs, k)] + segs[k + 1..]
  {
    var s := SetFree(segs, k, true);
    assert s[k + 1..] == segs[k + 1..] && s[..k] == segs[..k];
    if k > 0 { assert s[..k - 1] == segs[..k - 1] && s[k - 1] == segs[k - 1]; }
    assert s == segs[..k] + [s[k]] + segs[k + 1..];
  }

  lemma MergedAhead(segs: seq<Seg>, k: nat)
    requires k < |segs|
    requires var i := if k > 0 && segs[k - 1].free then k - 1 else k;
      && BackIndex(SetFree(segs, k, true), k) == i
      && MergeBack(SetFree(segs, k, true), k) == segs[..i] + [MergedSeg(segs, k)] + segs[k + 1..]
    ensures var i := if k > 0 && segs[k - 1].free then k - 1 else k;
      var j := if k + 1 < |segs| && segs[k + 1].free then k + 1 else k;
      var n := MergedSeg(segs, k).size + if j > k then HEADER + segs[j].size else 0;
      Free(segs, k) == segs[..i] + [Seg(segs[i].addr, n, true)] + segs[j + 1..]
  {
    hide MergeBack, SetFree;
    var i := if k > 0 && segs[k - 1].free then k - 1 else k;
    var a, x, c := segs[..i], MergedSeg(segs, k), segs[k + 1..];
    var s := a + [x] + c;
    assert s[..i] == a && s[i] == x && s[i + 1..] == c;
    if |c| > 0 { assert s[i + 1] == c[0] == segs[k + 1] && s[i + 2..] == c[1..] == segs[k + 2..]; }
  }

  lemma FreeKeeps(segs: seq<Seg>, base: nat, end: nat, k: nat)
    requires Tiled(segs, base, end) && LastHasRoom(segs) && k < |segs|
    ensures Tiled(Free(segs, k), base, end) && LastHasRoom(Free(segs, k))
  {
    var s := SetFree(segs, k, true);
    SetFreeKeeps(segs, base, end, k, true);
    if k > 0 && s[k - 1].free { MergeKeeps(s, base, end, k - 1); }
    MergeNextKeeps(MergeBack(s, k), base, end, BackIndex(s, k));
  }

  lemma MergeNextKeeps(segs: seq<Seg>, base: nat, end: nat, k: nat)
    requires Tiled(segs, base, end) && LastHasRoom(segs) && k < |segs|
    ensures Tiled(MergeNext(segs, k), base, end) && LastHasRoom(MergeNext(segs, k))
  {
    if k + 1 < |segs| && segs[k + 1].free { MergeKeeps(segs, base, end, k); }
  }

  // ----- live blocks -----

  /** Index k of the sequence is the only live block at its payload. */
  lemma LiveAtIndex(segs: seq<Seg>, base: nat, end: nat, k: nat, n: nat)
    requires Tiled(segs, base, end) && k < |segs|
    ensures LiveAt(segs, Payload(segs[k]), n) <==> !segs[k].free && segs[k].size == n
  {
    if LiveAt(segs, Payload(segs[k]), n) {
      var i :| 0 <= i < |segs| && !segs[i].free && Payload(segs[i]) == Payload(segs[k]) && segs[i].size == n;
      SameAddress(segs, base, end, i, k);
    }
  }

  /** Handing out a free segment adds one live block and disturbs none. */
  lemma TakeLive(segs: seq<Seg>, base: nat, end: nat, k: nat, size: nat, a: nat, n: nat)
    requires Tiled(segs, base, end) && LastHasRoom(segs) && k < |segs| && segs[k].free
    ensures LiveAt(Take(segs, k, size), a, n) <==>
            LiveAt(segs, a, n) || (a == Payload(segs[k]) && n == Take(segs, k, size)[k].size)
  {
    hide LiveAt, Tiled;
    if segs[k].size != size { SplitLive(segs, k, size, a, n); }
    HoldLive(if segs[k].size == size then segs else Split(segs, k, size), k, a, n);
  }

  lemma SplitLive(segs: seq<Seg>, k: nat, size: nat, a: nat, n: nat)
    requires k < |segs| && segs[k].free
    ensures LiveAt(Split(segs, k, size), a, n) <==> LiveAt(segs, a, n)
  {
    var s := Split(segs, k, size);
    if LiveAt(segs, a, n) {
      var i :| 0 <= i < |segs| && !segs[i].free && Payload(segs[i]) == a && segs[i].size == n;
      assert s[if i < k || |s| == |segs| then i else i + 1] == segs[i];
    }
    if LiveAt(s, a, n) {
      var i :| 0 <= i < |s| && !s[i].free && Payload(s[i]) == a && s[i].size == n;
      assert segs[if i < k || |s| == |segs| then i else i - 1] == s[i];
    }
  }

  lemma HoldLive(segs: seq<Seg>, k: nat, a: nat, n: nat)
    requires k < |segs| && segs[k].free
    ensures LiveAt(SetFree(segs, k, false), a, n) <==>
            LiveAt(segs, a, n) || (a == Payload(segs[k]) && n == segs[k].size)
  {
    var s := SetFree(segs, k, false);
    if LiveAt(segs, a, n) {
      var i :| 0 <= i < |segs| && !segs[i].free && Payload(segs[i]) == a && segs[i].size == n;
      assert s[i] == segs[i];
    }
    if LiveAt(s, a, n) {
      var i :| 0 <= i < |s| && !s[i].free && Payload(s[i]) == a && s[i].size == n;
      assert i != k ==> segs[i] == s[i];
    }
    assert !s[k].free && Payload(s[k]) == Payload(segs[k]);
  }

  /** malloc finds a free segment, or the one it extends is free. */
  predicate CanAllocate(segs: seq<Seg>, size: nat)
    requires |segs| > 0
  {
    FirstFit(segs, size) < |segs| || segs[|segs| - 1].free
  }

  lemma ExtendLive(segs: seq<Seg>, pages: nat, a: nat, n: nat)
    requires |segs| > 0 && segs[|segs| - 1].free
    ensures LiveAt(Extend(segs, pages), a, n) <==> LiveAt(segs, a, n)
  {
    var s := Extend(segs, pages);
    forall i | 0 <= i < |segs| - 1 ensures s[i] == segs[i] {
    }
  }

  /** The block malloc hands out is a new one exactly when a free segment fits or the
      last segment is free.  Then it is added to the live blocks and all others stay
      as they are; otherwise the caller gets the block that a client already holds
      in the last segment. */
  lemma MallocFreshIff(segs: seq<Seg>, base: nat, end: nat, size: nat)
    requires Tiled(segs, base, end) && LastHasRoom(segs)
    ensures var r := Payload(segs[Chosen(segs, size)]);
      (forall n :: !LiveAt(segs, r, n)) <==> CanAllocate(segs, size)
  {
    var k := Chosen(segs, size);
    forall n ensures LiveAt(segs, Payload(segs[k]), n) ==> !CanAllocate(segs, size) {
      if n >= 0 { LiveAtIndex(segs, base, end, k, n); }
    }
    LiveAtIndex(segs, base, end, k, segs[k].size);
  }

  lemma MallocLive(segs: seq<Seg>, base: nat, end: nat, size: nat, a: nat, n: nat)
    requires Tiled(segs, base, end) && LastHasRoom(segs) && CanAllocate(segs, size)
    ensures Chosen(segs, size) < |Malloc(segs, size)|
    ensures LiveAt(Malloc(segs, size), a, n) <==>
            LiveAt(segs, a, n)
            || (a == Payload(segs[Chosen(segs, size)]) && n == Malloc(segs, size)[Chosen(segs, size)].size)
  {
    MallocGives(segs, size);
    var k := Chosen(segs, size);
    if FirstFit(segs, size) < |segs| {
      TakeLive(segs, base, end, k, size, a, n);
    } else {
      ExtendKeeps(segs, base, end, PagesFor(size));
      ExtendLive(segs, PagesFor(size), a, n);
      TakeLive(Extend(segs, PagesFor(size)), base, end + PagesFor(size) * 0x1000, k, size, a, n);
    }
  }

  /** A heap with one page, all of it held by a client as one block. */
  function FullHeapExample(): seq<Seg> {
    [Seg(0x10000, 0x1000 - HEADER, false)]
  }

  /** The concrete failure: asking for 8 bytes more returns the block that is held. */
  lemma MallocClashes()
    ensures Tiled(FullHeapExample(), 0x10000, 0x11000) && LastHasRoom(FullHeapExample())
    ensures LiveAt(FullHeapExample(), Payload(FullHeapExample()[Chosen(FullHeapExample(), 8)]), 0x1000 - HEADER)
  {
    var s := FullHeapExample();
    assert !s[0].free && Payload(s[0]) == 0x10000 + HEADER;
  }

  lemma MergeLive(segs: seq<Seg>, k: nat, a: nat, n: nat)
    requires k + 1 < |segs| && segs[k].free && segs[k + 1].free
    ensures LiveAt(Merge(segs, k), a, n) <==> LiveAt(segs, a, n)
  {
    var s := Merge(segs, k);
    if LiveAt(segs, a, n) {
      var i :| 0 <= i < |segs| && !segs[i].free && Payload(segs[i]) == a && segs[i].size == n;
      assert s[if i < k then i else i - 1] == segs[i];
    }
    if LiveAt(s, a, n) {
      var i :| 0 <= i < |s| && !s[i].free && Payload(s[i]) == a && s[i].size == n;
      assert segs[if i < k then i else i + 1] == s[i];
    }
  }

  lemma SetFreeLive(segs: seq<Seg>, base: nat, end: nat, k: nat, a: nat, n: nat)
    requires Tiled(segs, base, end) && k < |segs|
    ensures LiveAt(SetFree(segs, k, true), a, n) <==> LiveAt(segs, a, n) && a != Payload(segs[k])
  {
    var s := SetFree(segs, k, true);
    if LiveAt(segs, a, n) && a != Payload(segs[k]) {
      var i :| 0 <= i < |segs| && !segs[i].free && Payload(segs[i]) == a && segs[i].size == n;
      assert s[i] == segs[i];
    }
    if LiveAt(s, a, n) {
      var i :| 0 <= i < |s| && !s[i].free && Payload(s[i]) == a && s[i].size == n;
      assert segs[i] == s[i];
      if a == Payload(segs[k]) { SameAddress(segs, base, end, i, k); }
    }
  }

  /** free takes away the one block and disturbs no other. */
  lemma FreeLive(segs: seq<Seg>, base: nat, end: nat, k: nat, a: nat, n: nat)
    requires Tiled(segs, base, end) && k < |segs|
    ensures LiveAt(Free(segs, k), a, n) <==> LiveAt(segs, a, n) && a != Payload(segs[k])
  {
    hide Tiled, LiveAt, Merge;
    var s := SetFree(segs, k, true);
    SetFreeLive(segs, base, end, k, a, n);
    if k > 0 && s[k - 1].free { MergeLive(s, k - 1, a, n); }
    var s', k' := MergeBack(s, k), BackIndex(s, k);
    MergedIsFree(s, k);
    if k' + 1 < |s'| && s'[k' + 1].free { MergeLive(s', k', a, n); }
  }

  lemma MergedIsFree(segs: seq<Seg>, k: nat)
    requires k < |segs| && segs[k].free
    ensures MergeBack(segs, k)[BackIndex(segs, k)].free
  {
  }

  // ----- full coalescing -----

  lemma TakeNoTwoFree(segs: seq<Seg>, k: nat, size: nat)
    requires NoTwoFree(segs) && k < |segs| && (segs[k].free || k == |segs| - 1)
    ensures NoTwoFree(Take(segs, k, size))
  {
    var s := Take(segs, k, size);
    forall i | 0 <= i < |s| - 1 ensures !(s[i].free && s[i + 1].free) {
      if i + 1 < k { assert s[i] == segs[i] && s[i + 1] == segs[i + 1]; }
      if i == k + 1 && |s| > |segs| { assert s[i + 1] == segs[k + 1]; }
      if i > k + 1 && |s| > |segs| { assert s[i] == segs[i - 1] && s[i + 1] == segs[i - 1 + 1]; }
      if i > k && |s| == |segs| { assert s[i] == segs[i] && s[i + 1] == segs[i + 1]; }
    }
  }

  lemma MallocNoTwoFree(segs: seq<Seg>, size: nat)
    requires |segs| > 0 && NoTwoFree(segs)
    ensures NoTwoFree(Malloc(segs, size))
  {
    var e := Extend(segs, PagesFor(size));
    forall i | 0 <= i < |e| - 1 ensures !(e[i].free && e[i + 1].free) {
      assert segs[i].free == e[i].free && segs[i + 1].free == e[i + 1].free;
    }
    if FirstFit(segs, size) < |segs| {
      TakeNoTwoFree(segs, FirstFit(segs, size), size);
    } else {
      TakeNoTwoFree(e, |segs| - 1, size);
    }
  }

  /** free with its repairs leaves no two free neighbours. */
  lemma FreeNoTwoFree(segs: seq<Seg>, k: nat)
    requires NoTwoFree(segs) && k < |segs|
    ensures NoTwoFree(Free(segs, k))
  {
    var s, r := SetFree(segs, k, true), Free(segs, k);
    var k', s' := BackIndex(s, k), MergeBack(s, k);
    var d := |segs| - |r|;
    forall i | 0 <= i < |r| - 1 ensures !(r[i].free && r[i + 1].free) {
      if i + 1 < k' { assert r[i].free == segs[i].free && r[i + 1].free == segs[i + 1].free; }
      if i > k' { assert r[i] == segs[i + d] && r[i + 1] == segs[i + d + 1]; }
      if i + 1 == k' { assert r[i] == segs[i] && (k' < k ==> segs[k - 1].free && segs[i + 1] == segs[k - 1]); }
      if i == k' { assert r[i + 1] == segs[i + d + 1] && (k' + 1 < |s'| && s'[k' + 1].free ==> segs[i + d].free); }
    }
  }
}
