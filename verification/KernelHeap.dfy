/** The kernel heap: segment headers linked in memory, and malloc, free and realloc
    over them. */
module KernelHeap {
  import opened Arithmetic
  import opened Segments

  const U32: nat := 0x1_0000_0000

  /** heap_segment_hdr_t; addresses are numbers and 0 is NULL. */
  datatype Header = Header(prev: nat, next: nat, size: nat, free: bool)

  type Headers = map<nat, Header>

  const CLEARED: Header := Header(0, 0, 0, false)

  function NextAddr(segs: seq<Seg>, k: nat): nat
    requires k < |segs|
  {
    if k + 1 < |segs| then segs[k + 1].addr else 0
  }

  ghost predicate HeaderOf(h: Headers, segs: seq<Seg>, k: nat)
    requires k < |segs|
  {
    && segs[k].addr in h
    && h[segs[k].addr].size == segs[k].size
    && h[segs[k].addr].free == segs[k].free
    && h[segs[k].addr].next == NextAddr(segs, k)
  }

  /** The headers form the list of the segments, followed by `next`. */
  ghost predicate Linked(h: Headers, segs: seq<Seg>) {
    forall k {:trigger HeaderOf(h, segs, k)} :: 0 <= k < |segs| ==> HeaderOf(h, segs, k)
  }

  /** The headers describe a whole heap from base to end. */
  ghost predicate Whole(h: Headers, segs: seq<Seg>, base: nat, end: nat) {
    Linked(h, segs) && Tiled(segs, base, end)
  }

  /** a is the header of a segment before segment k. */
  ghost predicate Before(segs: seq<Seg>, k: nat, a: nat) {
    exists j :: 0 <= j < k && j < |segs| && segs[j].addr == a
  }

  ghost predicate PrevEarlierAt(h: Headers, segs: seq<Seg>, k: nat)
    requires k < |segs|
  {
    segs[k].addr in h && (h[segs[k].addr].prev == 0 || Before(segs, k, h[segs[k].addr].prev))
  }

  /** What `prev` is good for as the code stands: NULL, or some earlier segment. */
  ghost predicate PrevEarlier(h: Headers, segs: seq<Seg>) {
    forall k {:trigger PrevEarlierAt(h, segs, k)} :: 0 <= k < |segs| ==> PrevEarlierAt(h, segs, k)
  }

  ghost predicate PrevExactAt(h: Headers, segs: seq<Seg>, k: nat)
    requires k < |segs|
  {
    segs[k].addr in h && h[segs[k].addr].prev == if k == 0 then 0 else segs[k - 1].addr
  }

  /** What `prev` is with the repairs: the inverse of `next`. */
  ghost predicate PrevExact(h: Headers, segs: seq<Seg>) {
    forall k {:trigger PrevExactAt(h, segs, k)} :: 0 <= k < |segs| ==> PrevExactAt(h, segs, k)
  }

  /** Header writes that move no segment and touch no `prev` keep both. */
  lemma SamePrev(h: Headers, segs: seq<Seg>, h': Headers, s: seq<Seg>)
    requires |s| == |segs|
    requires forall i :: 0 <= i < |segs| ==> s[i].addr == segs[i].addr
    requires forall i :: 0 <= i < |segs| && segs[i].addr in h ==>
               segs[i].addr in h' && h'[segs[i].addr].prev == h[segs[i].addr].prev
    ensures PrevEarlier(h, segs) ==> PrevEarlier(h', s)
    ensures PrevExact(h, segs) ==> PrevExact(h', s)
  {
    if PrevEarlier(h, segs) {
      forall k | 0 <= k < |s| ensures PrevEarlierAt(h', s, k) {
        assert PrevEarlierAt(h, segs, k);
        if h[segs[k].addr].prev != 0 {
          var j :| 0 <= j < k && j < |segs| && segs[j].addr == h[segs[k].addr].prev;
          assert s[j].addr == segs[j].addr;
        }
      }
    }
    if PrevExact(h, segs) {
      forall k | 0 <= k < |s| ensures PrevExactAt(h', s, k) {
        assert PrevExactAt(h, segs, k);
      }
    }
  }

  // ----- header writes -----

  /** The headers after heap_split_segment wrote them. */
  function SplitHeaders(h: Headers, curr: nat, size: nat, repaired: bool): Headers
    requires curr in h
  {
    if h[curr].size <= size + HEADER then h
    else
      var newHdr := curr + HEADER + size;
      var h1 := h[newHdr := Header(curr, h[curr].next, h[curr].size - (size + HEADER), true)];
      var h2 := if repaired && h[curr].next != 0 && h[curr].next in h1
                then h1[h[curr].next := h1[h[curr].next].(prev := newHdr)] else h1;
      h2[curr := h[curr].(next := newHdr, size := size)]
  }

  lemma SplitLinked(h: Headers, segs: seq<Seg>, base: nat, end: nat, k: nat, size: nat, repaired: bool)
    requires Whole(h, segs, base, end) && k < |segs| && base > 0
    ensures segs[k].addr in h
    ensures Linked(SplitHeaders(h, segs[k].addr, size, repaired), Split(segs, k, size))
  {
    hide SplitHeaders, HeaderOf, Tiled, Split;
    HeaderThere(h, segs, k);
    SplitNothing(h, segs, k, size, repaired);
    if segs[k].size <= size + HEADER { return; }
    var h', s := SplitHeaders(h, segs[k].addr, size, repaired), Split(segs, k, size);
    forall i | 0 <= i < |s| ensures HeaderOf(h', s, i) {
      if i == k || i == k + 1 {
        SplitHeaderNear(h, segs, base, end, k, size, repaired);
      } else {
        SplitHeaderFar(h, segs, base, end, k, size, repaired, if i < k then i else i - 1);
      }
    }
  }

  lemma HeaderThere(h: Headers, segs: seq<Seg>, k: nat)
    requires Linked(h, segs) && k < |segs|
    ensures segs[k].addr in h
  {
    assert HeaderOf(h, segs, k);
  }

  lemma SplitNothing(h: Headers, segs: seq<Seg>, k: nat, size: nat, repaired: bool)
    requires Linked(h, segs) && k < |segs| && segs[k].addr in h
    ensures segs[k].size > size + HEADER ==> |Split(segs, k, size)| == |segs| + 1
    ensures segs[k].size <= size + HEADER ==> Split(segs, k, size) == segs && SplitHeaders(h, segs[k].addr, size, repaired) == h
  {
    assert HeaderOf(h, segs, k);
  }

  /** The two headers of the split segment. */
  lemma SplitHeaderNear(h: Headers, segs: seq<Seg>, base: nat, end: nat, k: nat, size: nat, repaired: bool)
    requires Whole(h, segs, base, end) && k < |segs| && segs[k].addr in h && segs[k].size > size + HEADER
    ensures HeaderOf(SplitHeaders(h, segs[k].addr, size, repaired), Split(segs, k, size), k)
    ensures HeaderOf(SplitHeaders(h, segs[k].addr, size, repaired), Split(segs, k, size), k + 1)
  {
    assert HeaderOf(h, segs, k);
    hide Tiled, Linked, Split, SplitHeaders;
    SplitSegmentNear(segs, k, size);
    SplitWrites(h, segs[k].addr, size, repaired);
  }

  lemma SplitSegmentNear(segs: seq<Seg>, k: nat, size: nat)
    requires k < |segs| && segs[k].size > size + HEADER
    ensures var s, a := Split(segs, k, size), segs[k].addr + HEADER + size;
      && |s| == |segs| + 1
      && s[k] == segs[k].(size := size) && NextAddr(s, k) == a
      && s[k + 1] == Seg(a, segs[k].size - (size + HEADER), true) && NextAddr(s, k + 1) == NextAddr(segs, k)
  {
  }

  lemma SplitWrites(h: Headers, curr: nat, size: nat, repaired: bool)
    requires curr in h && h[curr].size > size + HEADER
    ensures var h', a := SplitHeaders(h, curr, size, repaired), curr + HEADER + size;
      && curr in h' && h'[curr] == h[curr].(next := a, size := size)
      && a in h' && h'[a].size == h[curr].size - (size + HEADER) && h'[a].free && h'[a].next == h[curr].next
  {
  }

  /** Any other header: its segment, and where it leads, are as before. */
  lemma SplitHeaderFar(h: Headers, segs: seq<Seg>, base: nat, end: nat, k: nat, size: nat, repaired: bool, o: nat)
    requires Whole(h, segs, base, end) && k < |segs| && segs[k].addr in h && segs[k].size > size + HEADER
    requires o < |segs| && o != k
    ensures HeaderOf(SplitHeaders(h, segs[k].addr, size, repaired), Split(segs, k, size), if o < k then o else o + 1)
  {
    assert HeaderOf(h, segs, o);
    hide Tiled, Linked, Split, SplitHeaders;
    ApartFrom(segs, base, end, k, o, size);
    SplitSegmentFar(segs, k, size, o);
    SplitWritesNear(h, segs[k].addr, size, repaired, segs[o].addr);
  }

  lemma SplitSegmentFar(segs: seq<Seg>, k: nat, size: nat, o: nat)
    requires k < |segs| && segs[k].size > size + HEADER && o < |segs| && o != k
    ensures var s, i := Split(segs, k, size), if o < k then o else o + 1;
      i < |s| && s[i] == segs[o] && NextAddr(s, i) == NextAddr(segs, o)
  {
  }

  lemma SplitWritesNear(h: Headers, curr: nat, size: nat, repaired: bool, a: nat)
    requires curr in h && a in h && a != curr && a != curr + HEADER + size
    ensures var h' := SplitHeaders(h, curr, size, repaired);
      a in h' && h'[a].size == h[a].size && h'[a].free == h[a].free && h'[a].next == h[a].next
  {
  }

  /** The new header of a split lies inside segment k, so it is no other header. */
  lemma ApartFrom(segs: seq<Seg>, base: nat, end: nat, k: nat, o: nat, size: nat)
    requires Tiled(segs, base, end) && k < |segs| && o < |segs| && segs[k].size > size + HEADER
    ensures segs[o].addr != segs[k].addr + HEADER + size
    ensures o != k ==> segs[o].addr != segs[k].addr
  {
    if o < k { Ascending(segs, base, end, o, k); }
    if k < o { Ascending(segs, base, end, k, o); }
  }

  lemma BeforeInSplit(segs: seq<Seg>, k: nat, size: nat, i: nat, a: nat)
    requires k < |segs| && segs[k].size > size + HEADER && i < |segs| && Before(segs, i, a)
    ensures Before(Split(segs, k, size), if i <= k then i else i + 1, a)
  {
    var j :| 0 <= j < i && j < |segs| && segs[j].addr == a;
    assert Split(segs, k, size)[if j <= k then j else j + 1].addr == segs[j].addr;
  }

  lemma SplitPrevEarlier(h: Headers, segs: seq<Seg>, base: nat, end: nat, k: nat, size: nat, repaired: bool)
    requires Whole(h, segs, base, end) && k < |segs| && base > 0 && PrevEarlier(h, segs)
    ensures segs[k].addr in h
    ensures PrevEarlier(SplitHeaders(h, segs[k].addr, size, repaired), Split(segs, k, size))
  {
    hide Tiled, Linked, Split, SplitHeaders, Before;
    HeaderThere(h, segs, k);
    SplitNothing(h, segs, k, size, repaired);
    if segs[k].size <= size + HEADER { return; }
    var h', s := SplitHeaders(h, segs[k].addr, size, repaired), Split(segs, k, size);
    SplitSegmentNear(segs, k, size);
    forall i | 0 <= i < |s| ensures PrevEarlierAt(h', s, i) {
      var o := if i <= k then i else if i == k + 1 then k else i - 1;
      assert PrevEarlierAt(h, segs, o);
      SplitPrevAt(h, segs, base, end, k, size, repaired, o);
      BeforeNext(s, k);
      if h[segs[o].addr].prev != 0 {
        BeforeInSplit(segs, k, size, o, h[segs[o].addr].prev);
      }
    }
  }

  lemma BeforeNext(segs: seq<Seg>, k: nat)
    requires k < |segs|
    ensures Before(segs, k + 1, segs[k].addr)
    ensures k + 1 < |segs| ==> Before(segs, k + 2, segs[k + 1].addr)
  {
  }

  /** What `prev` says after a split: the new header points back at the old one, and
      with the repair the next header points back at the new one. */
  lemma SplitPrevAt(h: Headers, segs: seq<Seg>, base: nat, end: nat, k: nat, size: nat, repaired: bool, o: nat)
    requires Whole(h, segs, base, end) && k < |segs| && base > 0 && segs[k].addr in h
    requires segs[k].size > size + HEADER && o < |segs|
    ensures segs[o].addr in h
    ensures var h', s, a := SplitHeaders(h, segs[k].addr, size, repaired), Split(segs, k, size), segs[k].addr + HEADER + size;
      && (var i := if o <= k then o else o + 1; i < |s| && s[i].addr == segs[o].addr)
      && segs[o].addr in h' && h'[segs[o].addr].prev == (if repaired && o == k + 1 then a else h[segs[o].addr].prev)
      && a in h' && h'[a].prev == segs[k].addr
  {
    hide Tiled, Linked, HeaderOf, SplitHeaders;
    HeaderThere(h, segs, o);
    SizeThere(h, segs, k);
    NextIsAfter(h, segs, base, end, k, o);
    NextIsOld(h, segs, base, end, k, size);
    ApartFrom(segs, base, end, k, o, size);
    InBounds(segs, base, end, o);
    SplitPrevWrites(h, segs[k].addr, size, repaired, segs[o].addr);
  }

  lemma SizeThere(h: Headers, segs: seq<Seg>, k: nat)
    requires Linked(h, segs) && k < |segs|
    ensures segs[k].addr in h && h[segs[k].addr].size == segs[k].size
  {
    assert HeaderOf(h, segs, k);
  }

  lemma NextIsOld(h: Headers, segs: seq<Seg>, base: nat, end: nat, k: nat, size: nat)
    requires Whole(h, segs, base, end) && k < |segs| && base > 0 && segs[k].size > size + HEADER
    ensures segs[k].addr in h && h[segs[k].addr].next != segs[k].addr + HEADER + size
  {
    assert HeaderOf(h, segs, k);
    if k + 1 < |segs| { ApartFrom(segs, base, end, k, k + 1, size); }
  }

  lemma SplitPrevWrites(h: Headers, curr: nat, size: nat, repaired: bool, a: nat)
    requires curr in h && h[curr].size > size + HEADER && a in h && a > 0
    requires a != curr + HEADER + size && h[curr].next != curr + HEADER + size
    ensures var h' := SplitHeaders(h, curr, size, repaired);
      && a in h' && h'[a].prev == (if repaired && a == h[curr].next && a != curr then curr + HEADER + size else h[a].prev)
      && curr + HEADER + size in h' && h'[curr + HEADER + size].prev == curr
  {
  }

  /** The `next` of segment k is the header of segment k + 1 only. */
  lemma NextIsAfter(h: Headers, segs: seq<Seg>, base: nat, end: nat, k: nat, o: nat)
    requires Whole(h, segs, base, end) && k < |segs| && o < |segs| && base > 0
    ensures segs[k].addr in h && (h[segs[k].addr].next == segs[o].addr <==> o == k + 1)
  {
    assert HeaderOf(h, segs, k);
    InBounds(segs, base, end, o);
    if k + 1 < |segs| && segs[k + 1].addr == segs[o].addr { SameAddress(segs, base, end, k + 1, o); }
  }

  lemma SplitPrevExact(h: Headers, segs: seq<Seg>, base: nat, end: nat, k: nat, size: nat)
    requires Whole(h, segs, base, end) && k < |segs| && base > 0 && PrevExact(h, segs)
    ensures segs[k].addr in h
    ensures PrevExact(SplitHeaders(h, segs[k].addr, size, true), Split(segs, k, size))
  {
    hide Tiled, Linked, SplitHeaders;
    HeaderThere(h, segs, k);
    SplitNothing(h, segs, k, size, true);
    if segs[k].size <= size + HEADER { return; }
    var h', s := SplitHeaders(h, segs[k].addr, size, true), Split(segs, k, size);
    forall i | 0 <= i < |s| ensures PrevExactAt(h', s, i) {
      var o := if i <= k then i else if i == k + 1 then k else i - 1;
      assert PrevExactAt(h, segs, o);
      SplitPrevAt(h, segs, base, end, k, size, true, o);
    }
  }

  /** As the code stands, a split keeps `prev` the inverse of `next` exactly when it
      splits nothing or splits the last segment: the segment after the new one still
      points back at the old one. */
  lemma SplitKeepsPrevIff(h: Headers, segs: seq<Seg>, base: nat, end: nat, k: nat, size: nat)
    requires Whole(h, segs, base, end) && k < |segs| && base > 0 && PrevExact(h, segs)
    ensures segs[k].addr in h
    ensures PrevExact(SplitHeaders(h, segs[k].addr, size, false), Split(segs, k, size)) <==>
            segs[k].size <= size + HEADER || k + 1 == |segs|
  {
    assert HeaderOf(h, segs, k);
    var h', s := SplitHeaders(h, segs[k].addr, size, false), Split(segs, k, size);
    if segs[k].size > size + HEADER && k + 1 < |segs| {
      assert PrevExactAt(h, segs, k + 1) && s[k + 2].addr == segs[k + 1].addr;
      ApartFrom(segs, base, end, k, k + 1, size);
      assert !PrevExactAt(h', s, k + 2);
    } else if segs[k].size > size + HEADER {
      SplitPrevExact(h, segs, base, end, k, size);
      SplitLast(h, segs, k, size);
    }
  }

  lemma SplitLast(h: Headers, segs: seq<Seg>, k: nat, size: nat)
    requires k + 1 == |segs| && HeaderOf(h, segs, k)
    ensures SplitHeaders(h, segs[k].addr, size, false) == SplitHeaders(h, segs[k].addr, size, true)
  {
  }

  /** Marking a segment free or not. */
  function MarkHeaders(h: Headers, curr: nat, free: bool): Headers
    requires curr in h
  {
    h[curr := h[curr].(free := free)]
  }

  lemma MarkKeeps(h: Headers, segs: seq<Seg>, base: nat, end: nat, k: nat, free: bool)
    requires Whole(h, segs, base, end) && k < |segs|
    ensures segs[k].addr in h
    ensures Linked(MarkHeaders(h, segs[k].addr, free), SetFree(segs, k, free))
    ensures PrevEarlier(h, segs) ==> PrevEarlier(MarkHeaders(h, segs[k].addr, free), SetFree(segs, k, free))
    ensures PrevExact(h, segs) ==> PrevExact(MarkHeaders(h, segs[k].addr, free), SetFree(segs, k, free))
  {
    assert HeaderOf(h, segs, k);
    var h', s := MarkHeaders(h, segs[k].addr, free), SetFree(segs, k, free);
    forall i | 0 <= i < |s| ensures HeaderOf(h', s, i) {
      assert HeaderOf(h, segs, i);
      if i != k && segs[i].addr == segs[k].addr { SameAddress(segs, base, end, i, k); }
    }
    SamePrev(h, segs, h', s);
  }

  /** More room in the last segment. */
  function ExtendHeaders(h: Headers, last: nat, pages: nat): Headers
    requires last in h
  {
    h[last := h[last].(size := h[last].size + pages * 0x1000)]
  }

  lemma ExtendHeadersKeeps(h: Headers, segs: seq<Seg>, base: nat, end: nat, pages: nat)
    requires Whole(h, segs, base, end)
    ensures segs[|segs| - 1].addr in h
    ensures Linked(ExtendHeaders(h, segs[|segs| - 1].addr, pages), Extend(segs, pages))
    ensures PrevEarlier(h, segs) ==> PrevEarlier(ExtendHeaders(h, segs[|segs| - 1].addr, pages), Extend(segs, pages))
    ensures PrevExact(h, segs) ==> PrevExact(ExtendHeaders(h, segs[|segs| - 1].addr, pages), Extend(segs, pages))
  {
    var k := |segs| - 1;
    assert HeaderOf(h, segs, k);
    var h', s := ExtendHeaders(h, segs[k].addr, pages), Extend(segs, pages);
    forall i | 0 <= i < |s| ensures HeaderOf(h', s, i) {
      assert HeaderOf(h, segs, i);
      if i != k && segs[i].addr == segs[k].addr { SameAddress(segs, base, end, i, k); }
    }
    SamePrev(h, segs, h', s);
  }

  // ----- merging -----

  /** The absorbing header after the first two lines of heap_merge_forward. */
  function AbsorbHeaders(h: Headers, curr: nat): Headers
    requires curr in h && h[curr].next in h
  {
    h[curr := h[curr].(size := h[curr].size + HEADER + h[h[curr].next].size, next := h[h[curr].next].next)]
  }

  /** heap_merge_forward as the code stands, when the absorbed segment has a successor:
      the header that is cleared is that successor's. */
  function MergeHeaders(h: Headers, curr: nat): Headers
    requires curr in h && h[curr].next in h
  {
    AbsorbHeaders(h, curr)[h[h[curr].next].next := CLEARED]
  }

  /** heap_merge_forward repaired: it clears the absorbed header, and the `prev` of the
      next segment follows. */
  function MergeHeadersRepaired(h: Headers, curr: nat): Headers
    requires curr in h && h[curr].next in h
  {
    var after := h[h[curr].next].next;
    var h1 := AbsorbHeaders(h, curr)[h[curr].next := CLEARED];
    if after != 0 && after in h1 then h1[after := h1[after].(prev := curr)] else h1
  }

  /** The headers a repaired merge writes, apart from the absorbing one, are those of
      the two segments that follow. */
  lemma MergeRepairedAt(h: Headers, segs: seq<Seg>, base: nat, end: nat, k: nat, o: nat)
    requires Whole(h, segs, base, end) && k + 1 < |segs| && base > 0 && o < |segs| && o != k + 1
    ensures segs[k].addr in h && h[segs[k].addr].next in h && segs[o].addr in h
    ensures var h', a := MergeHeadersRepaired(h, segs[k].addr), segs[o].addr;
      && a in h' && h'[a].free == h[a].free
      && (o != k ==> h'[a].size == h[a].size && h'[a].next == h[a].next)
      && (o == k ==> h'[a].size == h[a].size + HEADER + segs[k + 1].size && h'[a].next == NextAddr(segs, k + 1))
      && h'[a].prev == if o == k + 2 then segs[k].addr else h[a].prev
  {
    hide Tiled, AbsorbHeaders, MergeHeadersRepaired, Linked;
    HeaderIs(h, segs, k);
    HeaderIs(h, segs, k + 1);
    HeaderIs(h, segs, o);
    InBounds(segs, base, end, o);
    InBounds(segs, base, end, k + 1);
    if k + 2 < |segs| { InBounds(segs, base, end, k + 2); }
    if o != k && segs[o].addr == segs[k].addr { SameAddress(segs, base, end, o, k); }
    if segs[o].addr == segs[k + 1].addr { SameAddress(segs, base, end, o, k + 1); }
    if k + 2 < |segs| && segs[o].addr == segs[k + 2].addr { SameAddress(segs, base, end, o, k + 2); }
    MergeRepairedWrites(h, segs[k].addr, segs[o].addr);
  }

  lemma MergeRepairedWrites(h: Headers, curr: nat, a: nat)
    requires curr in h && h[curr].next in h && a in h && a != h[curr].next && a != 0
    ensures var h', absorbed := MergeHeadersRepaired(h, curr), h[h[curr].next];
      && a in h' && h'[a].free == h[a].free
      && h'[a].size == (if a == curr then h[a].size + HEADER + absorbed.size else h[a].size)
      && h'[a].next == (if a == curr then absorbed.next else h[a].next)
      && h'[a].prev == (if a == absorbed.next then curr else h[a].prev)
  {
  }

  lemma MergeRepairedKeeps(h: Headers, segs: seq<Seg>, base: nat, end: nat, k: nat)
    requires Whole(h, segs, base, end) && k + 1 < |segs| && base > 0
    ensures segs[k].addr in h && h[segs[k].addr].next in h
    ensures Linked(MergeHeadersRepaired(h, segs[k].addr), Merge(segs, k))
    ensures PrevExact(h, segs) ==> PrevExact(MergeHeadersRepaired(h, segs[k].addr), Merge(segs, k))
  {
    hide MergeHeadersRepaired, Tiled, HeaderOf, PrevExactAt, Merge;
    HeaderThere(h, segs, k);
    MergeSize(segs, k);
    var s := Merge(segs, k);
    forall i | 0 <= i < |s|
      ensures segs[k].addr in h && h[segs[k].addr].next in h
      ensures HeaderOf(MergeHeadersRepaired(h, segs[k].addr), s, i)
      ensures PrevExact(h, segs) ==> PrevExactAt(MergeHeadersRepaired(h, segs[k].addr), s, i)
    {
      MergedHeader(h, segs, base, end, k, i);
    }
    MergeRepairedAt(h, segs, base, end, k, k);
  }

  lemma MergeSize(segs: seq<Seg>, k: nat)
    requires k + 1 < |segs|
    ensures |Merge(segs, k)| == |segs| - 1
  {
  }

  /** The header of segment i after a repaired merge. */
  lemma MergedHeader(h: Headers, segs: seq<Seg>, base: nat, end: nat, k: nat, i: nat)
    requires Whole(h, segs, base, end) && k + 1 < |segs| && base > 0 && i < |segs| - 1
    ensures segs[k].addr in h && h[segs[k].addr].next in h && |Merge(segs, k)| == |segs| - 1
    ensures HeaderOf(MergeHeadersRepaired(h, segs[k].addr), Merge(segs, k), i)
    ensures PrevExact(h, segs) ==> PrevExactAt(MergeHeadersRepaired(h, segs[k].addr), Merge(segs, k), i)
  {
    hide MergeHeadersRepaired, Tiled, Linked, Merge, NextAddr;
    var o := if i <= k then i else i + 1;
    HeaderIs(h, segs, o);
    assert PrevExact(h, segs) ==> PrevExactAt(h, segs, o);
    MergedSegment(segs, k, i);
    MergeRepairedAt(h, segs, base, end, k, o);
  }

  lemma MergedSegment(segs: seq<Seg>, k: nat, i: nat)
    requires k + 1 < |segs| && i < |segs| - 1
    ensures var s, o := Merge(segs, k), if i <= k then i else i + 1;
      && |s| == |segs| - 1 && s[i].addr == segs[o].addr && s[i].free == segs[o].free
      && s[i].size == (if i == k then segs[k].size + HEADER + segs[k + 1].size else segs[o].size)
      && NextAddr(s, i) == NextAddr(segs, if i == k then k + 1 else o)
      && (i > 0 ==> s[i - 1].addr == if i == k + 1 then segs[k].addr else segs[o - 1].addr)
  {
  }

  lemma HeaderIs(h: Headers, segs: seq<Seg>, k: nat)
    requires Linked(h, segs) && k < |segs|
    ensures HeaderOf(h, segs, k)
  {
  }

  /** A heap whose headers agree with h along segs up to index k. */
  lemma {:induction false} ChainPrefix(h: Headers, segs: seq<Seg>, h': Headers, s: seq<Seg>, base: nat, end: nat,
                                       k: nat, i: nat)
    requires Whole(h, segs, base, end) && Whole(h', s, base, end) && base > 0 && i <= k < |segs|
    requires forall j :: 0 <= j < k && segs[j].addr in h ==>
               segs[j].addr in h' && h'[segs[j].addr].next == h[segs[j].addr].next
    ensures i < |s| && s[i].addr == segs[i].addr
  {
    if i > 0 {
      ChainPrefix(h, segs, h', s, base, end, k, i - 1);
      assert HeaderOf(h, segs, i - 1) && HeaderOf(h', s, i - 1);
      InBounds(segs, base, end, i);
    }
  }

  /** Merging as the code stands leaves no whole heap behind when there is a segment
      after the absorbed one: the list ends at the cleared header, before the end. */
  lemma MergeBreaks(h: Headers, segs: seq<Seg>, base: nat, end: nat, k: nat, s: seq<Seg>)
    requires Whole(h, segs, base, end) && LastHasRoom(segs) && k + 2 < |segs| && base > 0
    ensures segs[k].addr in h && h[segs[k].addr].next in h
    ensures !Whole(MergeHeaders(h, segs[k].addr), s, base, end)
  {
    hide MergeHeaders, Tiled, LastHasRoom, HeaderOf;
    MergeWrites(h, segs, base, end, k);
    var h' := MergeHeaders(h, segs[k].addr);
    if Whole(h', s, base, end) {
      ChainPrefix(h, segs, h', s, base, end, k, k);
      EndsAtCleared(h', s, base, end, k, segs[k + 2].addr);
    }
  }

  /** What the merge writes: the header two segments on is cleared, before the end; the
      links up to segment k stay, and segment k leads to the cleared header. */
  lemma MergeWrites(h: Headers, segs: seq<Seg>, base: nat, end: nat, k: nat)
    requires Whole(h, segs, base, end) && LastHasRoom(segs) && k + 2 < |segs| && base > 0
    ensures segs[k].addr in h && h[segs[k].addr].next in h
    ensures var h', a := MergeHeaders(h, segs[k].addr), segs[k + 2].addr;
      && a in h' && h'[a] == CLEARED && 0 < a && a + HEADER < end
      && segs[k].addr in h' && h'[segs[k].addr].next == a
      && (forall j :: 0 <= j < k && segs[j].addr in h ==>
            segs[j].addr in h' && h'[segs[j].addr].next == h[segs[j].addr].next)
  {
    assert HeaderOf(h, segs, k) && HeaderOf(h, segs, k + 1);
    hide Linked;
    RoomBehind(segs, base, end, k + 2);
    InBounds(segs, base, end, k + 2);
    Ascending(segs, base, end, k, k + 2);
    hide Tiled, LastHasRoom;
    forall j | 0 <= j < k ensures segs[j].addr < segs[k].addr < segs[k + 2].addr {
      Ascending(segs, base, end, j, k);
    }
  }

  lemma RoomBehind(segs: seq<Seg>, base: nat, end: nat, k: nat)
    requires Tiled(segs, base, end) && LastHasRoom(segs) && k < |segs|
    ensures segs[k].addr + HEADER < end
  {
    if k < |segs| - 1 { Ascending(segs, base, end, k, |segs| - 1); }
  }

  lemma EndsAtCleared(h: Headers, s: seq<Seg>, base: nat, end: nat, k: nat, a: nat)
    requires Whole(h, s, base, end) && base > 0 && k < |s| && s[k].addr in h && h[s[k].addr].next == a != 0
    requires a in h && h[a] == CLEARED
    ensures end == a + HEADER
  {
    forall j: nat | j < |s| ensures s[j].addr > 0 {
      InBounds(s, base, end, j);
    }
    assert HeaderOf(h, s, k);
    assert HeaderOf(h, s, k + 1);
  }

  lemma FirstSegment(segs: seq<Seg>, base: nat, end: nat)
    requires Tiled(segs, base, end)
    ensures |segs| > 0 && segs[0].addr == base
  {
  }

  lemma AllLater(segs: seq<Seg>, base: nat, end: nat, k: nat, a: nat)
    requires Tiled(segs, base, end) && k < |segs| && a < segs[k].addr
    ensures forall i :: k <= i < |segs| ==> segs[i].addr != a
  {
    forall i | k <= i < |segs| ensures segs[i].addr != a {
      if k < i { Ascending(segs, base, end, k, i); }
    }
  }

  /** The block sizes and links in good order, as the code stands or with repairs. */
  ghost predicate Good(h: Headers, segs: seq<Seg>, base: nat, end: nat, repaired: bool) {
    && Whole(h, segs, base, end) && LastHasRoom(segs)
    && if repaired then PrevExact(h, segs) && NoTwoFree(segs) else PrevEarlier(h, segs)
  }

  /** The headers after malloc's writes to segment `curr`. */
  function TakeHeaders(h: Headers, curr: nat, size: nat, repaired: bool): (h': Headers)
    requires curr in h
    ensures curr in h'
  {
    if h[curr].size == size then MarkHeaders(h, curr, false)
    else MarkHeaders(SplitHeaders(h, curr, size, repaired), curr, false)
  }

  lemma TakeGood(h: Headers, segs: seq<Seg>, base: nat, end: nat, k: nat, size: nat, repaired: bool)
    requires Good(h, segs, base, end, repaired) && base > 0 && k < |segs| && (segs[k].free || k == |segs| - 1)
    ensures segs[k].addr in h
    ensures Good(TakeHeaders(h, segs[k].addr, size, repaired), Take(segs, k, size), base, end, repaired)
  {
    assert HeaderOf(h, segs, k);
    TakeKeeps(segs, base, end, k, size);
    if repaired { TakeNoTwoFree(segs, k, size); }
    if segs[k].size == size {
      MarkKeeps(h, segs, base, end, k, false);
    } else {
      var h1, s1 := SplitHeaders(h, segs[k].addr, size, repaired), Split(segs, k, size);
      SplitLinked(h, segs, base, end, k, size, repaired);
      SplitKeeps(segs, base, end, k, size);
      if repaired { SplitPrevExact(h, segs, base, end, k, size); } else { SplitPrevEarlier(h, segs, base, end, k, size, false); }
      assert s1[k].addr == segs[k].addr;
      MarkKeeps(h1, s1, base, end, k, false);
    }
  }

  lemma ExtendGood(h: Headers, segs: seq<Seg>, base: nat, end: nat, pages: nat, repaired: bool)
    requires Good(h, segs, base, end, repaired)
    ensures segs[|segs| - 1].addr in h
    ensures Good(ExtendHeaders(h, segs[|segs| - 1].addr, pages), Extend(segs, pages), base, end + pages * 0x1000, repaired)
  {
    ExtendKeeps(segs, base, end, pages);
    ExtendHeadersKeeps(h, segs, base, end, pages);
    if repaired {
      var s := Extend(segs, pages);
      forall i | 0 <= i < |s| - 1 ensures !(s[i].free && s[i + 1].free) {
        assert segs[i].free == s[i].free && segs[i + 1].free == s[i + 1].free;
      }
    }
  }

  /** Three segments of a heap at 0x10000, the middle one free. */
  function MergeExample(): Headers {
    map[0x10000 := Header(0, 0x1001D, 8, true),
        0x1001D := Header(0x10000, 0x1003A, 8, true),
        0x1003A := Header(0x1001D, 0, 4017, false)]
  }

  /** The concrete failure of merging: the list has lost its last segment. */
  lemma MergeExampleBreaks(s: seq<Seg>)
    ensures Whole(MergeExample(), [Seg(0x10000, 8, true), Seg(0x1001D, 8, true), Seg(0x1003A, 4017, false)], 0x10000, 0x11000)
    ensures !Whole(MergeHeaders(MergeExample(), 0x10000), s, 0x10000, 0x11000)
  {
    var segs := [Seg(0x10000, 8, true), Seg(0x1001D, 8, true), Seg(0x1003A, 4017, false)];
    forall k | 0 <= k < |segs| ensures HeaderOf(MergeExample(), segs, k) {
    }
    MergeBreaks(MergeExample(), segs, 0x10000, 0x11000, 0, s);
  }

  /** Three segments of the same heap, the middle one free. */
  function SplitExample(): Headers {
    map[0x10000 := Header(0, 0x1001D, 8, false),
        0x1001D := Header(0x10000, 0x10096, 100, true),
        0x10096 := Header(0x1001D, 0, 3925, false)]
  }

  /** The concrete failure of splitting: 16 bytes are taken from the middle segment, and
      the last one still points back at it, over the new segment between them. */
  lemma SplitExampleBreaks()
    ensures var h, segs := SplitExample(), [Seg(0x10000, 8, false), Seg(0x1001D, 100, true), Seg(0x10096, 3925, false)];
      && Good(h, segs, 0x10000, 0x11000, true)
      && PrevExact(SplitHeaders(h, 0x1001D, 16, true), Split(segs, 1, 16))
      && !PrevExact(SplitHeaders(h, 0x1001D, 16, false), Split(segs, 1, 16))
  {
    var h, segs := SplitExample(), [Seg(0x10000, 8, false), Seg(0x1001D, 100, true), Seg(0x10096, 3925, false)];
    hide Split, SplitHeaders;
    SplitPrevExact(h, segs, 0x10000, 0x11000, 1, 16);
    SplitKeepsPrevIff(h, segs, 0x10000, 0x11000, 1, 16);
  }

  /** The concrete failures of free: of a block that takes up the only segment of the
      heap, whose `next` is read through NULL, and of the block that malloc(16) gives out
      first, whose free successor has no successor to clear. */
  lemma FreeExamplesUnsafe()
    ensures var h, segs := map[0x10000 := Header(0, 0, 4075, false)], [Seg(0x10000, 4075, false)];
      Good(h, segs, 0x10000, 0x11000, false) && !Safe(h, segs, 0x10000 + HEADER)
    ensures var h := map[0x10000 := Header(0, 0, 4075, true)];
      var h', s := TakeHeaders(h, 0x10000, 16, false), Segments.Malloc([Seg(0x10000, 4075, true)], 16);
      Good(h', s, 0x10000, 0x11000, false) && !Safe(h', s, 0x10000 + HEADER)
  {
    var h, segs := map[0x10000 := Header(0, 0, 4075, true)], [Seg(0x10000, 4075, true)];
    assert HeaderAddr(0x10000 + HEADER) == 0x10000;
    assert FirstFit(segs, 16) == 0;
    assert Good(h, segs, 0x10000, 0x11000, false);
    TakeGood(h, segs, 0x10000, 0x11000, 0, 16, false);
    var h', s := TakeHeaders(h, 0x10000, 16, false), Segments.Malloc(segs, 16);
    assert s == [Seg(0x10000, 16, false), Seg(0x10025, 4038, true)];
    assert s[0].addr == HeaderAddr(0x10000 + HEADER);
    assert [Seg(0x10000, 4075, false)][0].addr == HeaderAddr(0x10000 + HEADER);
  }

  // ----- the steps of free as the code stands -----

  lemma OnlyIndex(segs: seq<Seg>, base: nat, end: nat, k: nat)
    requires Tiled(segs, base, end) && k < |segs|
    ensures forall j :: 0 <= j < |segs| && segs[j].addr == segs[k].addr ==> j == k
  {
    forall j | 0 <= j < |segs| && segs[j].addr == segs[k].addr ensures j == k {
      SameAddress(segs, base, end, j, k);
    }
  }

  /** The headers free looks at around segment k, and what marking k keeps. */
  lemma Neighbours(h: Headers, segs: seq<Seg>, base: nat, end: nat, k: nat)
    requires Good(h, segs, base, end, false) && base > 0 && k < |segs|
    ensures var a := segs[k].addr;
      && a in h
      && (h[a].prev != 0 ==> h[a].prev in h && h[a].prev != a && exists j: nat :: j < k && segs[j].addr == h[a].prev)
      && (h[a].next != 0 ==> h[a].next in h && h[a].next != a)
    ensures Good(MarkHeaders(h, segs[k].addr, true), SetFree(segs, k, true), base, end, false)
    ensures |SetFree(segs, k, true)| == |segs|
    ensures forall j :: 0 <= j < |segs| ==> SetFree(segs, k, true)[j].addr == segs[j].addr
  {
    assert HeaderOf(h, segs, k) && PrevEarlierAt(h, segs, k);
    var a := segs[k].addr;
    MarkKeeps(h, segs, base, end, k, true);
    SetFreeKeeps(segs, base, end, k, true);
    if k + 1 < |segs| {
      assert HeaderOf(h, segs, k + 1);
      Ascending(segs, base, end, k, k + 1);
    }
    if h[a].prev != 0 {
      var j: nat :| j < k && segs[j].addr == h[a].prev;
      assert HeaderOf(h, segs, j);
      Ascending(segs, base, end, j, k);
    }
  }

  /** A merge at j either writes through NULL or leaves no whole heap, and in the
      second case the next header it will look at is the cleared one. */
  lemma AsWrittenMerge(h: Headers, segs: seq<Seg>, base: nat, end: nat, j: nat)
    requires Whole(h, segs, base, end) && LastHasRoom(segs) && base > 0 && j < |segs|
    ensures segs[j].addr in h
    ensures j + 1 < |segs| ==>
              var a := segs[j].addr;
              && h[a].next in h && h[a].next != 0
              && (h[h[a].next].next != 0 ==>
                    && (forall s: seq<Seg> :: !Whole(MergeHeaders(h, a), s, base, end))
                    && MergeHeaders(h, a)[a].next == h[h[a].next].next
                    && MergeHeaders(h, a)[h[h[a].next].next] == CLEARED)
    ensures j + 1 == |segs| ==> h[segs[j].addr].next == 0
  {
    assert HeaderOf(h, segs, j);
    if j + 1 < |segs| {
      assert HeaderOf(h, segs, j + 1);
      InBounds(segs, base, end, j + 1);
      if j + 2 < |segs| {
        Ascending(segs, base, end, j, j + 2);
        forall s: seq<Seg> ensures !Whole(MergeHeaders(h, segs[j].addr), s, base, end) {
          MergeBreaks(h, segs, base, end, j, s);
        }
      }
    }
  }

  // ----- the steps of the repaired free -----

  /** A good heap, except that freed neighbours may not be merged yet. */
  ghost predicate Sound(h: Headers, segs: seq<Seg>, base: nat, end: nat) {
    Whole(h, segs, base, end) && LastHasRoom(segs) && PrevExact(h, segs)
  }

  lemma FreeStart(h: Headers, segs: seq<Seg>, base: nat, end: nat, k: nat)
    requires Good(h, segs, base, end, true) && k < |segs|
    ensures segs[k].addr in h
    ensures Sound(MarkHeaders(h, segs[k].addr, true), SetFree(segs, k, true), base, end)
    ensures |SetFree(segs, k, true)| == |segs| && SetFree(segs, k, true)[k].addr == segs[k].addr
    ensures NoTwoFree(segs)
  {
    MarkKeeps(h, segs, base, end, k, true);
    SetFreeKeeps(segs, base, end, k, true);
  }

  /** What the test of the predecessor finds, and what the merge with it leaves. */
  lemma BackStep(h: Headers, segs: seq<Seg>, base: nat, end: nat, k: nat)
    requires Sound(h, segs, base, end) && base > 0 && k < |segs|
    ensures var a := segs[k].addr;
      && a in h && (h[a].prev != 0 ==> h[a].prev in h)
      && var merges := h[a].prev != 0 && h[h[a].prev].free;
         && (!merges ==> Sound(h, MergeBack(segs, k), base, end) && MergeBack(segs, k)[BackIndex(segs, k)].addr == a)
         && (merges ==>
               && h[h[a].prev].next in h
               && Sound(MergeHeadersRepaired(h, h[a].prev), MergeBack(segs, k), base, end)
               && MergeBack(segs, k)[BackIndex(segs, k)].addr == h[a].prev)
  {
    assert PrevExactAt(h, segs, k);
    if k > 0 {
      assert HeaderOf(h, segs, k - 1);
      InBounds(segs, base, end, k - 1);
      MergeRepairedKeeps(h, segs, base, end, k - 1);
      MergeKeeps(segs, base, end, k - 1);
    }
  }

  /** The same for the successor. */
  lemma NextStep(h: Headers, segs: seq<Seg>, base: nat, end: nat, k: nat)
    requires Sound(h, segs, base, end) && base > 0 && k < |segs|
    ensures var a := segs[k].addr;
      && a in h && (h[a].next != 0 ==> h[a].next in h)
      && var merges := h[a].next != 0 && h[h[a].next].free;
         && (!merges ==> Sound(h, MergeNext(segs, k), base, end))
         && (merges ==> Sound(MergeHeadersRepaired(h, a), MergeNext(segs, k), base, end))
  {
    assert HeaderOf(h, segs, k);
    if k + 1 < |segs| {
      assert HeaderOf(h, segs, k + 1);
      InBounds(segs, base, end, k + 1);
      MergeRepairedKeeps(h, segs, base, end, k);
      MergeKeeps(segs, base, end, k);
    }
  }

  lemma FreeEnd(h: Headers, segs: seq<Seg>, base: nat, end: nat, k: nat)
    requires NoTwoFree(segs) && k < |segs| && Sound(h, Free(segs, k), base, end)
    ensures Good(h, Free(segs, k), base, end, true)
  {
    FreeNoTwoFree(segs, k);
  }

  lemma ExtendedLast(h: Headers, segs: seq<Seg>, k: nat, pages: nat)
    requires k + 1 == |segs| && segs[k].addr in h
    ensures |Extend(segs, pages)| == |segs| && Extend(segs, pages)[k].addr == segs[k].addr
    ensures segs[k].addr in ExtendHeaders(h, segs[k].addr, pages)
    ensures ExtendHeaders(h, segs[k].addr, pages)[segs[k].addr].size >= pages * 0x1000
  {
  }

  lemma GoodIsWhole(h: Headers, segs: seq<Seg>, base: nat, end: nat, repaired: bool)
    requires Good(h, segs, base, end, repaired)
    ensures Whole(h, segs, base, end) && LastHasRoom(segs) && Tiled(segs, base, end)
  {
  }

  /** As the code stands, malloc changes no `prev`; a segment split off behind the block at
      r points back at it. */
  ghost predicate PrevsKept(h: Headers, h': Headers, r: nat, size: nat, split: bool) {
    && (forall a :: a in h && !(split && a == r + size) ==> a in h' && h'[a].prev == h[a].prev)
    && (split ==> r + size in h' && h'[r + size].prev + HEADER == r)
  }

  lemma TakePrevs(h: Headers, curr: nat, size: nat)
    requires curr in h && h[curr].size >= size
    ensures PrevsKept(h, TakeHeaders(h, curr, size, false), curr + HEADER, size, h[curr].size > size + HEADER)
  {
  }

  lemma TakeLength(h: Headers, segs: seq<Seg>, k: nat, size: nat)
    requires Linked(h, segs) && k < |segs|
    ensures segs[k].addr in h && (|Take(segs, k, size)| > |segs| <==> h[segs[k].addr].size > size + HEADER)
  {
    assert HeaderOf(h, segs, k);
  }

  lemma ExtendPrevs(h: Headers, last: nat, pages: nat, h': Headers, r: nat, size: nat, split: bool)
    requires last in h && PrevsKept(ExtendHeaders(h, last, pages), h', r, size, split)
    ensures PrevsKept(h, h', r, size, split)
  {
    forall a | a in h ensures a in ExtendHeaders(h, last, pages) && ExtendHeaders(h, last, pages)[a].prev == h[a].prev {
    }
  }

  lemma MallocSteps(segs: seq<Seg>, size: nat)
    requires |segs| > 0
    ensures var k := FirstFit(segs, size);
      if k < |segs| then
        Segments.Malloc(segs, size) == Take(segs, k, size) && Chosen(segs, size) == k && segs[k].free && Growth(segs, size) == 0
      else
        && Growth(segs, size) == size / 0x1000 + 1 && Chosen(segs, size) == |segs| - 1
        && |Extend(segs, size / 0x1000 + 1)| == |segs|
        && Segments.Malloc(segs, size) == Take(Extend(segs, size / 0x1000 + 1), |segs| - 1, size)
  {
    hide Take;
  }

  lemma WholeAllocates(h: Headers, segs: seq<Seg>, base: nat, end: nat, repaired: bool, size: nat)
    requires Good(h, segs, base, end, repaired)
    ensures |segs| > 0 && Allocated(segs, Segments.Malloc(segs, size), size, Chosen(segs, size), Growth(segs, size))
  {
    MallocAllocates(segs, size);
  }

  lemma PayloadOf(segs: seq<Seg>, base: nat, end: nat, k: nat, ptr: nat)
    requires Tiled(segs, base, end) && end < U64 && k < |segs| && segs[k].addr == HeaderAddr(ptr) && ptr < U64
    ensures ptr == Payload(segs[k]) && base + HEADER <= ptr && ptr + segs[k].size <= end
  {
    InBounds(segs, base, end, k);
  }

  /** The bytes of the segment at ptr, as many as fit in `size`, are at r now. */
  ghost predicate BlockMoved(segs: seq<Seg>, before: seq<bv8>, after: seq<bv8>, base: nat, ptr: nat, r: nat,
                             size: nat) {
    forall k :: 0 <= k < |segs| && segs[k].addr + HEADER == ptr ==>
      && base <= ptr && base <= r && ptr + segs[k].size <= base + |before|
      && if r == ptr then before <= after
         else Moved(before, after, ptr - base, r - base, Least(segs[k].size, size))
  }

  lemma NoSuchBlock(segs: seq<Seg>, base: nat, end: nat, ptr: nat, before: seq<bv8>, after: seq<bv8>, r: nat, size: nat)
    requires Tiled(segs, base, end) && end < U64 && ptr < U64
    requires forall i :: 0 <= i < |segs| ==> segs[i].addr != HeaderAddr(ptr)
    ensures BlockMoved(segs, before, after, base, ptr, r, size)
  {
    hide HeaderAddr, Moved;
    forall i | 0 <= i < |segs| ensures segs[i].addr + HEADER != ptr {
      InBounds(segs, base, end, i);
      HeaderOfPayload(segs[i].addr);
    }
  }

  lemma HeaderOfPayload(a: nat)
    requires a + HEADER < U64
    ensures HeaderAddr(a + HEADER) == a
  {
  }

  /** malloc moves no header: what was a segment still is one. */
  lemma AddressesStay(segs: seq<Seg>, base: nat, end: nat, k: nat, size: nat)
    requires Tiled(segs, base, end) && k < |segs|
    ensures exists i :: 0 <= i < |Segments.Malloc(segs, size)| && Segments.Malloc(segs, size)[i].addr == segs[k].addr
  {
    var s, c := Segments.Malloc(segs, size), Chosen(segs, size);
    var e := if FirstFit(segs, size) < |segs| then segs else Extend(segs, PagesFor(size));
    assert e[k].addr == segs[k].addr && s == Take(e, c, size);
    hide FirstFit, Segments.Malloc, Extend;
    TakeAddress(e, c, size, k);
  }

  lemma TakeAddress(segs: seq<Seg>, c: nat, size: nat, k: nat)
    requires c < |segs| && k < |segs|
    ensures exists i :: 0 <= i < |Take(segs, c, size)| && Take(segs, c, size)[i].addr == segs[k].addr
  {
    var s := Take(segs, c, size);
    assert s[if k <= c || |s| == |segs| then k else k + 1].addr == segs[k].addr;
  }

  /** The block handed out lies inside the heap. */
  lemma BlockInside(segs: seq<Seg>, s: seq<Seg>, base: nat, end: nat, size: nat)
    requires |segs| > 0 && s == Segments.Malloc(segs, size) && Tiled(s, base, end)
    ensures base + HEADER <= Payload(segs[Chosen(segs, size)]) && Payload(segs[Chosen(segs, size)]) + size <= end
  {
    MallocGives(segs, size);
    InBounds(s, base, end, Chosen(segs, size));
  }

  lemma HeaderAt(h: Headers, segs: seq<Seg>, base: nat, end: nat, ptr: nat)
    requires Whole(h, segs, base, end) && end < U64 && ptr < U64
    requires exists i :: 0 <= i < |segs| && segs[i].addr == HeaderAddr(ptr)
    ensures HeaderAddr(ptr) in h && base <= ptr && ptr + h[HeaderAddr(ptr)].size <= end
    ensures forall i :: 0 <= i < |segs| && segs[i].addr == HeaderAddr(ptr) ==> h[HeaderAddr(ptr)].size == segs[i].size
  {
    var i :| 0 <= i < |segs| && segs[i].addr == HeaderAddr(ptr);
    assert HeaderOf(h, segs, i);
    PayloadOf(segs, base, end, i, ptr);
    OnlyIndex(segs, base, end, i);
  }

  /** What BlockMoved says, when only segment k is at ptr. */
  lemma OneBlockMoved(segs: seq<Seg>, before: seq<bv8>, after: seq<bv8>, base: nat, ptr: nat, r: nat, size: nat, k: nat)
    requires k < |segs| && segs[k].addr + HEADER == ptr
    requires forall j :: 0 <= j < |segs| && segs[j].addr == segs[k].addr ==> j == k
    requires base <= ptr && base <= r && ptr + segs[k].size <= base + |before|
    requires if r == ptr then before <= after
             else Moved(before, after, ptr - base, r - base, Least(segs[k].size, size))
    ensures BlockMoved(segs, before, after, base, ptr, r, size)
  {
    hide Moved;
  }

  lemma LiveMoved(segs: seq<Seg>, before: seq<bv8>, after: seq<bv8>, base: nat, ptr: nat, r: nat, size: nat, n: nat)
    requires BlockMoved(segs, before, after, base, ptr, r, size) && LiveAt(segs, ptr, n) && r != ptr
    ensures base <= ptr && base <= r
    ensures Moved(before, after, ptr - base, r - base, Least(n, size))
  {
    hide Moved;
  }

  /** Segment k, when another one is handed out, stays as it is, and apart from the new
      block. */
  lemma OtherSegment(segs: seq<Seg>, s: seq<Seg>, base: nat, end': nat, k: nat, c: nat, pages: nat, size: nat)
    requires Allocated(segs, s, size, c, pages) && Tiled(s, base, end') && k < |segs| && k != c
    ensures exists i :: 0 <= i < |s| && s[i] == segs[k]
    ensures segs[c].addr + HEADER + size <= segs[k].addr || segs[k].addr + HEADER + segs[k].size <= segs[c].addr
  {
    hide Tiled;
    var i := if k < c then k else k + |s| - |segs|;
    assert s[i] == segs[k];
    if i < c { Ascending(s, base, end', i, c); } else { Ascending(s, base, end', c, i); }
  }

  function Least(a: nat, b: nat): (m: nat)
    ensures m <= a && m <= b
  {
    if a < b then a else b
  }

  /** The first n bytes at `to` are those that were at `from`; all other old bytes are
      as they were. */
  ghost predicate Moved(before: seq<bv8>, after: seq<bv8>, from: nat, to: nat, n: nat) {
    && |before| <= |after| && from + n <= |before| && to + n <= |after|
    && (forall j :: to <= j < to + n ==> after[j] == before[j - to + from])
    && (forall j :: 0 <= j < |before| && !(to <= j < to + n) ==> after[j] == before[j])
  }

  /** n bytes were copied from ptr to r, and are there now if the two places were apart. */
  ghost predicate Copied(before: seq<bv8>, after: seq<bv8>, base: nat, ptr: nat, r: nat, n: nat) {
    base <= ptr && base <= r && (r + n <= ptr || ptr + n <= r ==> Moved(before, after, ptr - base, r - base, n))
  }

  lemma CopiedApart(before: seq<bv8>, after: seq<bv8>, base: nat, ptr: nat, r: nat, n: nat)
    requires Copied(before, after, base, ptr, r, n) && (r + n <= ptr || ptr + n <= r)
    ensures base <= ptr && base <= r && Moved(before, after, ptr - base, r - base, n)
  {
    hide Moved;
  }

  /** Every byte of the heap outside the m bytes at a is as it was. */
  ghost predicate OthersIntact(before: seq<bv8>, after: seq<bv8>, base: nat, a: nat, m: nat) {
    && |before| <= |after|
    && forall j :: 0 <= j < |before| && !(a <= base + j < a + m) ==> after[j] == before[j]
  }

  lemma IntactAfter(d0: seq<bv8>, d1: seq<bv8>, d2: seq<bv8>, base: nat, a: nat, m: nat)
    requires d0 <= d1 && OthersIntact(d1, d2, base, a, m)
    ensures OthersIntact(d0, d2, base, a, m)
  {
  }

  lemma MovedBlock(segs: seq<Seg>, s: seq<Seg>, base: nat, end: nat, end': nat, k: nat, c: nat, pages: nat, ptr: nat,
                   r: nat, size: nat, hdrSize: nat, d0: seq<bv8>, d1: seq<bv8>, d2: seq<bv8>)
    requires Tiled(segs, base, end) && Allocated(segs, s, size, c, pages) && Tiled(s, base, end')
    requires k < |segs| && segs[k].addr + HEADER == ptr && base + HEADER <= ptr && ptr + segs[k].size <= end
    requires end == base + |d0| && base <= segs[c].addr && r == segs[c].addr + HEADER
    requires forall i :: 0 <= i < |s| && s[i].addr + HEADER == ptr ==> hdrSize == s[i].size
    requires d0 <= d1 && |d1| == |d2| && (r == ptr ==> d2 == d1)
    requires Copied(d1, d2, base, ptr, r, Least(hdrSize, size))
    ensures BlockMoved(segs, d0, d2, base, ptr, r, size)
  {
    hide *;
    OnlyIndex(segs, base, end, k);
    AllocatedIndex(segs, s, size, c, pages);
    if r == ptr {
      OneBlockMoved(segs, d0, d2, base, ptr, r, size, k);
    } else {
      OtherSegment(segs, s, base, end', k, c, pages, size);
      SizeOfOther(s, segs[k], ptr, hdrSize);
      var n := Least(segs[k].size, size);
      CopiedApart(d1, d2, base, ptr, r, n);
      MovedAfter(d0, d1, d2, ptr - base, r - base, n);
      OneBlockMoved(segs, d0, d2, base, ptr, r, size, k);
    }
  }

  lemma SizeOfOther(s: seq<Seg>, seg: Seg, ptr: nat, hdrSize: nat)
    requires seg.addr + HEADER == ptr && exists i :: 0 <= i < |s| && s[i] == seg
    requires forall i :: 0 <= i < |s| && s[i].addr + HEADER == ptr ==> hdrSize == s[i].size
    ensures hdrSize == seg.size
  {
  }

  lemma AllocatedIndex(segs: seq<Seg>, s: seq<Seg>, size: nat, c: nat, pages: nat)
    requires Allocated(segs, s, size, c, pages)
    ensures c < |segs|
  {
  }

  lemma MovedAfter(d0: seq<bv8>, d1: seq<bv8>, d2: seq<bv8>, from: nat, to: nat, n: nat)
    requires d0 <= d1 && Moved(d1, d2, from, to, n) && from + n <= |d0|
    ensures Moved(d0, d2, from, to, n)
  {
  }

  class Heap {
    const base: nat
    const repaired: bool      // false: split, merge and free as the code stands; true: with their repairs
    var heapSize: nat         // in pages
    var hdrs: Headers         // the segment headers in memory, by address
    var data: seq<bv8>        // the bytes of the heap, from base on
    ghost var segs: seq<Seg>  // the segments in list order

    ghost function End(): nat
      reads this
    {
      base + heapSize * 0x1000
    }

    ghost predicate Valid()
      reads this
    {
      && 0 < base && base + U32 <= U64
      && 0 < heapSize && heapSize * 0x1000 < U32 && |data| == heapSize * 0x1000
      && Good(hdrs, segs, base, End(), repaired)
    }

    /** heap_init: one page, one free segment. */
    constructor (base: nat, repaired: bool, firstPage: seq<bv8>)
      requires 0 < base && base + U32 <= U64 && |firstPage| == 0x1000
      ensures Valid() && this.base == base && this.repaired == repaired
      ensures segs == [Seg(base, 0x1000 - HEADER, true)] && heapSize == 1 && data == firstPage
    {
      this.base, this.repaired := base, repaired;
      heapSize := 1;
      hdrs := map[base := Header(0, 0, 0x1000 - HEADER, true)];
      data := firstPage;
      segs := [Seg(base, 0x1000 - HEADER, true)];
    }

    /** heap_split_segment. */
    method SplitSegment(curr: nat, size: nat)
      requires curr in hdrs
      modifies this`hdrs
      ensures hdrs == SplitHeaders(old(hdrs), curr, size, repaired)
    {
      var newHdr := curr + HEADER + size;
      if hdrs[curr].size <= size + HEADER {
        return;
      }
      var h := hdrs[curr];
      var next := if h.next == 0 then 0 else h.next;
      hdrs := hdrs[newHdr := Header(curr, next, h.size - (size + HEADER), true)];
      if repaired && next != 0 && next in hdrs {
        hdrs := hdrs[next := hdrs[next].(prev := newHdr)];
      }
      hdrs := hdrs[curr := h.(next := newHdr, size := size)];
    }

    /** heap_extend: zeroed pages at the end, and the last segment grows by them. */
    method HeapExtend(last: nat, numPages: nat)
      requires last in hdrs
      modifies this`hdrs, this`heapSize, this`data
      ensures hdrs == ExtendHeaders(old(hdrs), last, numPages)
      ensures heapSize == old(heapSize) + numPages
      ensures |data| == |old(data)| + numPages * 0x1000 && old(data) <= data
      ensures forall j :: |old(data)| <= j < |data| ==> data[j] == 0
    {
      assert hdrs == ExtendHeaders(hdrs, last, 0);
      for i := 0 to numPages
        invariant last in hdrs && hdrs == ExtendHeaders(old(hdrs), last, i)
        invariant heapSize == old(heapSize) + i
        invariant |data| == |old(data)| + i * 0x1000 && old(data) <= data
        invariant forall j :: |old(data)| <= j < |data| ==> data[j] == 0
      {
        data := data + seq(0x1000, _ => 0);
        heapSize := heapSize + 1;
        hdrs := hdrs[last := hdrs[last].(size := hdrs[last].size + 0x1000)];
      }
    }

    /** Hands out the segment at hdr: the two `if`s of malloc, before and after
        extending. */
    method TakeSegment(hdr: nat, size: nat) returns (r: nat)
      requires hdr in hdrs && hdrs[hdr].size >= size
      modifies this`hdrs
      ensures hdrs == TakeHeaders(old(hdrs), hdr, size, repaired)
      ensures r == hdr + HEADER
    {
      if hdrs[hdr].size == size {
        hdrs := hdrs[hdr := hdrs[hdr].(free := false)];
        return hdr + HEADER;
      }
      SplitSegment(hdr, size);
      assert hdr in hdrs;
      hdrs := hdrs[hdr := hdrs[hdr].(free := false)];
      return hdr + HEADER;
    }

    /** The search loop of malloc: stops at the first free segment that is large
        enough, or at the last segment. */
    method Search(size: nat) returns (hdr: nat, found: bool, ghost k: nat)
      requires Valid()
      ensures k < |segs| && segs[k].addr == hdr && hdr in hdrs && k == Chosen(segs, size)
      ensures found <==> FirstFit(segs, size) < |segs|
      ensures hdrs[hdr].size == segs[k].size && (found ==> hdrs[hdr].size >= size)
    {
      hdr, k, found := base, 0, false;
      assert HeaderOf(hdrs, segs, 0);
      var searching := true;
      while searching
        invariant k < |segs| && segs[k].addr == hdr && HeaderOf(hdrs, segs, k) && !found
        invariant forall j :: 0 <= j < k ==> !Fits(segs[j], size)
        invariant !searching ==> k == |segs| - 1 && !Fits(segs[k], size)
        decreases |segs| - k, searching
      {
        if hdrs[hdr].free {
          if hdrs[hdr].size == size || hdrs[hdr].size > size {
            FirstFitIs(segs, size, k);
            return hdr, true, k;
          }
        }
        InBounds(segs, base, End(), if k + 1 < |segs| then k + 1 else k);
        if hdrs[hdr].next == 0 {
          searching := false;
        } else {
          hdr, k := hdrs[hdr].next, k + 1;
          assert HeaderOf(hdrs, segs, k);
        }
      }
      NoFit(segs, size);
    }

    /** malloc.  The heap stays whole; the block handed out is the first free segment
        that is large enough, or else the last segment, extended.  NULL is never
        returned. */
    method Malloc(size: nat) returns (r: nat)
      requires Valid()
      requires (heapSize + Growth(segs, size)) * 0x1000 < U32
      modifies this
      ensures Valid()
      ensures segs == Segments.Malloc(old(segs), size)
      ensures r == Payload(old(segs)[Chosen(old(segs), size)]) && r != 0
      ensures heapSize == old(heapSize) + Growth(old(segs), size)
      ensures exists k: nat :: Allocated(old(segs), segs, size, k, Growth(old(segs), size)) && r == old(segs)[k].addr + HEADER
      ensures old(data) <= data && forall j :: |old(data)| <= j < |data| ==> data[j] == 0
      ensures !repaired ==> PrevsKept(old(hdrs), hdrs, r, size, |segs| > |old(segs)|)
    {
      hide PrevsKept, Linked, Good, Take, Extend, ExtendHeaders, FirstFit, Allocated, Tiled, LastHasRoom, Segments.Malloc,
           Growth, Chosen;
      WholeAllocates(hdrs, segs, base, End(), repaired, size);
      MallocSteps(segs, size);
      var hdr, found;
      ghost var k;
      hdr, found, k := Search(size);
      if found {
        r := TakeAt(hdr, k, size, End());
        return;
      }
      // always at least a page, and enough for the whole block
      var bytesNeeded := size;
      var pagesNeeded := bytesNeeded / 0x1000 + 1;
      ExtendGood(hdrs, segs, base, End(), pagesNeeded, repaired);
      ghost var h, segs0, end := hdrs, segs, End() + pagesNeeded * 0x1000;
      HeapExtend(hdr, pagesNeeded);
      segs := Extend(segs, pagesNeeded);
      ExtendedLast(h, segs0, k, pagesNeeded);
      // the NULL return
      if hdrs[hdr].size < size { assert false; }
      r := TakeAt(hdr, k, size, end);
      if !repaired { ExtendPrevs(h, hdr, pagesNeeded, hdrs, r, size, |segs| > |segs0|); }
    }

    /** Hands out segment k, whose header is at hdr. */
    method TakeAt(hdr: nat, ghost k: nat, size: nat, ghost end: nat) returns (r: nat)
      requires base > 0 && Good(hdrs, segs, base, end, repaired)
      requires k < |segs| && segs[k].addr == hdr && hdr in hdrs && hdrs[hdr].size >= size
      requires segs[k].free || k == |segs| - 1
      modifies this`hdrs, this`segs
      ensures Good(hdrs, segs, base, end, repaired) && segs == Take(old(segs), k, size)
      ensures r == hdr + HEADER
      ensures !repaired ==> PrevsKept(old(hdrs), hdrs, r, size, |segs| > |old(segs)|)
    {
      hide *;
      TakeGood(hdrs, segs, base, end, k, size, repaired);
      GoodIsWhole(hdrs, segs, base, end, repaired);
      TakeLength(hdrs, segs, k, size);
      TakePrevs(hdrs, hdr, size);
      r := TakeSegment(hdr, size);
      segs := Take(segs, k, size);
    }

    /** The loop that looks a client's pointer up, in free and in realloc.  The
        segments ascend, so it stops safely for any pointer. */
    method Find(hdrAddr: nat) returns (valid: bool, ghost k: nat)
      requires Valid()
      ensures valid <==> exists i :: 0 <= i < |segs| && segs[i].addr == hdrAddr
      ensures valid ==> k < |segs| && segs[k].addr == hdrAddr && hdrAddr in hdrs
    {
      hide Tiled, LastHasRoom, PrevExact, PrevEarlier, NoTwoFree;
      var hdr := base;
      k := 0;
      FirstSegment(segs, base, End());
      assert HeaderOf(hdrs, segs, 0);
      while true
        invariant k < |segs| && segs[k].addr == hdr && HeaderOf(hdrs, segs, k)
        invariant forall i :: 0 <= i < k ==> segs[i].addr != hdrAddr
        decreases |segs| - k
      {
        InBounds(segs, base, End(), if k + 1 < |segs| then k + 1 else k);
        if hdrAddr == hdr {
          return true, k;
        } else if hdrs[hdr].next == 0 {
          return false, k;
        } else {
          hdr, k := hdrs[hdr].next, k + 1;
          assert HeaderOf(hdrs, segs, k);
        }
        if !(hdr <= hdrAddr) {
          AllLater(segs, base, End(), k, hdrAddr);
          return false, k;
        }
      }
    }

    /** heap_merge_forward.  As the code stands it clears the header that `next` then
        points at, or, when there is none, writes through NULL. */
    method MergeForward(curr: nat) returns (fault: bool)
      requires curr in hdrs && hdrs[curr].next in hdrs
      modifies this`hdrs
      ensures repaired ==> !fault && hdrs == MergeHeadersRepaired(old(hdrs), curr)
      ensures !repaired ==> (fault <==> old(hdrs)[old(hdrs)[curr].next].next == 0)
      ensures !repaired && !fault ==> hdrs == MergeHeaders(old(hdrs), curr)
    {
      var absorbed := hdrs[curr].next;
      hdrs := hdrs[curr := hdrs[curr].(size := hdrs[curr].size + HEADER + hdrs[absorbed].size)];
      hdrs := hdrs[curr := hdrs[curr].(next := hdrs[absorbed].next)];
      var next := hdrs[curr].next;
      if repaired {
        hdrs := hdrs[absorbed := CLEARED];
        if next != 0 && next in hdrs { hdrs := hdrs[next := hdrs[next].(prev := curr)]; }
        return false;
      }
      if next == 0 {
        return true;
      }
      hdrs := hdrs[next := CLEARED];
      return false;
    }

    /** When free, as the code stands, does its job: the pointer is no segment's, or
        the segment has a successor, and neither that nor the segment `prev` names is
        free. */
    ghost predicate SafeToFree(ptr: nat)
      reads this
    {
      Safe(hdrs, segs, ptr)
    }

    /** free as the code stands.  `fault` says that it read or wrote through NULL.  It
        comes back with a whole heap exactly when SafeToFree held; then it has only
        marked the segment. */
    method Free(ptr: nat) returns (fault: bool)
      requires Valid() && !repaired
      modifies this`hdrs, this`segs
      ensures (!fault && exists s: seq<Seg> :: Whole(hdrs, s, base, End())) <==> old(SafeToFree(ptr))
      ensures old(SafeToFree(ptr)) ==> Valid()
      ensures (forall k :: 0 <= k < |old(segs)| ==> old(segs)[k].addr != HeaderAddr(ptr)) ==>
                !fault && segs == old(segs) && hdrs == old(hdrs)
      ensures old(SafeToFree(ptr)) ==>
                forall k :: 0 <= k < |old(segs)| && old(segs)[k].addr == HeaderAddr(ptr) ==>
                  && segs == SetFree(old(segs), k, true)
                  && HeaderAddr(ptr) in old(hdrs)
                  && hdrs == old(hdrs)[HeaderAddr(ptr) := old(hdrs)[HeaderAddr(ptr)].(free := true)]
    {
      hide Tiled, LastHasRoom, Linked, PrevEarlier, NoTwoFree;
      var hdrAddr := HeaderAddr(ptr);
      var valid;
      ghost var k;
      valid, k := Find(hdrAddr);
      if !valid {
        assert Whole(hdrs, segs, base, End());
        return false;
      }
      OnlyIndex(segs, base, End(), k);
      Neighbours(hdrs, segs, base, End(), k);
      ghost var h1, s1 := MarkHeaders(hdrs, hdrAddr, true), SetFree(segs, k, true);
      var header := hdrAddr;
      hdrs := hdrs[header := hdrs[header].(free := true)];
      if hdrs[header].prev != 0 {
        if hdrs[hdrs[header].prev].free {
          header := hdrs[header].prev;
          ghost var j: nat :| j < k && segs[j].addr == header;
          AsWrittenMerge(h1, s1, base, End(), j);
          fault := MergeForward(header);
          if fault { return; }
        }
      }
      if hdrs[header].next == 0 {
        return true;
      }
      if hdrs[hdrs[header].next].free {
        AsWrittenMerge(h1, s1, base, End(), k);
        fault := MergeForward(header);
        return;
      }
      if header == hdrAddr {
        segs := s1;
        assert Whole(hdrs, segs, base, End());
      }
      return false;
    }

    /** free with its repairs: the block is gone, merged with its free neighbours. */
    method FreeRepaired(ptr: nat)
      requires Valid() && repaired
      modifies this`hdrs, this`segs
      ensures Valid()
      ensures (forall k :: 0 <= k < |old(segs)| ==> old(segs)[k].addr != HeaderAddr(ptr)) ==> segs == old(segs) && hdrs == old(hdrs)
      ensures forall k :: 0 <= k < |old(segs)| && old(segs)[k].addr == HeaderAddr(ptr) ==> segs == Segments.Free(old(segs), k)
    {
      var hdrAddr := HeaderAddr(ptr);
      var valid;
      ghost var k;
      valid, k := Find(hdrAddr);
      if !valid { return; }
      FreeFound(hdrAddr, k);
      forall j | 0 <= j < |old(segs)| && old(segs)[j].addr == hdrAddr ensures j == k {
        SameAddress(old(segs), base, End(), j, k);
      }
    }

    /** The part of the repaired free behind the validity check. */
    method FreeFound(hdrAddr: nat, ghost k: nat)
      requires Valid() && repaired && k < |segs| && segs[k].addr == hdrAddr && hdrAddr in hdrs
      modifies this`hdrs, this`segs
      ensures Valid()
      ensures segs == Segments.Free(old(segs), k)
    {
      hide Sound, Good, SetFree, MergeBack, MergeNext, MergeHeadersRepaired;
      FreeStart(hdrs, segs, base, End(), k);
      var header := hdrAddr;
      hdrs := hdrs[header := hdrs[header].(free := true)];
      ghost var s := SetFree(segs, k, true);
      BackStep(hdrs, s, base, End(), k);
      if hdrs[header].prev != 0 {
        if hdrs[hdrs[header].prev].free {
          header := hdrs[header].prev;
          var _ := MergeForward(header);
        }
      }
      NextStep(hdrs, MergeBack(s, k), base, End(), BackIndex(s, k));
      if hdrs[header].next != 0 {
        if hdrs[hdrs[header].next].free {
          var _ := MergeForward(header);
        }
      }
      FreeEnd(hdrs, segs, base, End(), k);
      segs := Segments.Free(segs, k);
    }

    /** memcpy between two places of the heap, given as offsets from its base. */
    method Copy(dest: nat, src: nat, n: nat)
      requires dest + n <= |data| && src + n <= |data|
      modifies this`data
      ensures |data| == |old(data)|
      ensures forall j :: 0 <= j < |data| && !(dest <= j < dest + n) ==> data[j] == old(data)[j]
      ensures dest + n <= src || src + n <= dest ==> Moved(old(data), data, src, dest, n)
      ensures dest == src ==> data == old(data)
      ensures Copied(old(data), data, base, base + src, base + dest, n)
      ensures OthersIntact(old(data), data, base, base + dest, n)
    {
      for i := 0 to n
        invariant |data| == |old(data)|
        invariant dest == src ==> data == old(data)
        invariant forall j :: 0 <= j < |data| && !(dest <= j < dest + i) ==> data[j] == old(data)[j]
        invariant dest + n <= src || src + n <= dest ==> forall j :: dest <= j < dest + i ==> data[j] == old(data)[j - dest + src]
      {
        data := data[dest + i := data[src + i]];
      }
    }

    /** realloc.  A pointer that is no segment's gives a plain malloc.  Otherwise a new
        block is allocated, the old block's bytes, as many as fit, are copied to its
        front, and the old block stays allocated.  No other byte of the heap
        changes. */
    method Realloc(ptr: nat, size: nat) returns (r: nat)
      requires Valid() && ptr < U64
      requires (heapSize + Growth(segs, size)) * 0x1000 < U32
      modifies this
      ensures Valid()
      ensures segs == Segments.Malloc(old(segs), size)
      ensures r == Payload(old(segs)[Chosen(old(segs), size)]) && r != 0
      ensures heapSize == old(heapSize) + Growth(old(segs), size)
      ensures base <= r && r + size <= base + |data|
      ensures OthersIntact(old(data), data, base, r, size)
      ensures BlockMoved(old(segs), old(data), data, base, ptr, r, size)
      ensures forall j :: |old(data)| <= j < |data| && !(r <= base + j < r + size) ==> data[j] == 0
      ensures !repaired ==> PrevsKept(old(hdrs), hdrs, r, size, |segs| > |old(segs)|)
      ensures (forall k :: 0 <= k < |old(segs)| ==> old(segs)[k].addr != HeaderAddr(ptr)) ==> old(data) <= data
    {
      hide Good, LiveAt, CanAllocate, Segments.Malloc, FirstFit, Chosen, HeaderAddr, BlockMoved, Growth, Tiled,
           Linked, Moved, Allocated, PrevsKept;
      var hdrAddr := HeaderAddr(ptr);
      var valid;
      ghost var k;
      valid, k := Find(hdrAddr);
      GoodIsWhole(hdrs, segs, base, End(), repaired);
      if !valid {
        r := Malloc(size);
        GoodIsWhole(hdrs, segs, base, End(), repaired);
        BlockInside(old(segs), segs, base, End(), size);
        NoSuchBlock(old(segs), base, old(End()), ptr, old(data), data, r, size);
        return;
      }
      r := ReallocFound(ptr, hdrAddr, k, size);
    }

    /** The part of realloc behind the validity check. */
    method ReallocFound(ptr: nat, hdrAddr: nat, ghost k: nat, size: nat) returns (r: nat)
      requires Valid() && ptr < U64 && hdrAddr == HeaderAddr(ptr) && k < |segs| && segs[k].addr == hdrAddr
      requires (heapSize + Growth(segs, size)) * 0x1000 < U32
      modifies this
      ensures Valid()
      ensures segs == Segments.Malloc(old(segs), size)
      ensures r == Payload(old(segs)[Chosen(old(segs), size)]) && r != 0
      ensures heapSize == old(heapSize) + Growth(old(segs), size)
      ensures base <= r && r + size <= base + |data|
      ensures OthersIntact(old(data), data, base, r, size)
      ensures BlockMoved(old(segs), old(data), data, base, ptr, r, size)
      ensures forall j :: |old(data)| <= j < |data| && !(r <= base + j < r + size) ==> data[j] == 0
      ensures !repaired ==> PrevsKept(old(hdrs), hdrs, r, size, |segs| > |old(segs)|)
    {
      hide *;
      ValidParts();
      AddressesStay(segs, base, End(), k, size);
      PayloadOf(segs, base, End(), k, ptr);
      WholeAllocates(hdrs, segs, base, End(), repaired, size);
      ghost var c, before, old0, end := Chosen(segs, size), segs, data, End();
      r := Malloc(size);
      ghost var d, end1 := data, End();
      ValidParts();
      PayloadIs(before[c]);
      BlockInside(before, segs, base, End(), size);
      ghost var hdrSize := CopyOld(ptr, hdrAddr, r, size);
      IntactAfter(old0, d, data, base, r, size);
      ZerosAfter(old0, d, data, base, r, size);
      MovedBlock(before, segs, base, end, end1, k, c, Growth(before, size), ptr, r, size, hdrSize, old0, d, data);
    }

    lemma PayloadIs(s: Seg)
      ensures Payload(s) == s.addr + HEADER
    {
    }

    lemma ValidParts()
      requires Valid()
      ensures Good(hdrs, segs, base, End(), repaired) && Tiled(segs, base, End()) && LastHasRoom(segs) && |segs| > 0
      ensures End() == base + |data| && End() < U64 && base > 0 && 0 < HEADER
      ensures forall i :: 0 <= i < |segs| ==> Payload(segs[i]) == segs[i].addr + HEADER && base <= segs[i].addr
    {
      forall i: nat | i < |segs| ensures base <= segs[i].addr {
        InBounds(segs, base, End(), i);
      }
    }

    /** The copying part of realloc: as many bytes as the old header says, or as were
        asked for. */
    method CopyOld(ptr: nat, hdrAddr: nat, r: nat, size: nat) returns (ghost hdrSize: nat)
      requires Valid() && HEADER <= ptr < U64 && hdrAddr == HeaderAddr(ptr)
      requires exists i :: 0 <= i < |segs| && segs[i].addr == hdrAddr
      requires base <= r && r + size <= base + |data|
      modifies this`data
      ensures Valid() && |data| == |old(data)| && base <= ptr
      ensures forall i :: 0 <= i < |segs| && segs[i].addr + HEADER == ptr ==> hdrSize == segs[i].size
      ensures r == ptr ==> data == old(data)
      ensures OthersIntact(old(data), data, base, r, size)
      ensures Copied(old(data), data, base, ptr, r, Least(hdrSize, size))
    {
      hide Good, LiveAt, HeaderAddr, Moved, Copied, OthersIntact, Least, Linked, Tiled;
      GoodIsWhole(hdrs, segs, base, End(), repaired);
      HeaderAt(hdrs, segs, base, End(), ptr);
      HeaderAddresses(segs, ptr);
      hdrSize := hdrs[hdrAddr].size;
      LeastIs(hdrSize, size);
      ghost var d := data;
      if hdrs[hdrAddr].size < size {
        Copy(r - base, ptr - base, hdrs[hdrAddr].size);
      } else {
        Copy(r - base, ptr - base, size);
      }
      IntactMore(d, data, base, r, Least(hdrSize, size), size);
    }
  }

  lemma LeastIs(a: nat, b: nat)
    ensures Least(a, b) == if a < b then a else b
  {
  }

  lemma IntactMore(d0: seq<bv8>, d1: seq<bv8>, base: nat, a: nat, n: nat, m: nat)
    requires OthersIntact(d0, d1, base, a, n) && n <= m
    ensures OthersIntact(d0, d1, base, a, m)
  {
  }

  lemma ZerosAfter(d0: seq<bv8>, d1: seq<bv8>, d2: seq<bv8>, base: nat, a: nat, m: nat)
    requires |d0| <= |d1| == |d2| && OthersIntact(d1, d2, base, a, m)
    requires forall j :: |d0| <= j < |d1| ==> d1[j] == 0
    ensures forall j :: |d0| <= j < |d2| && !(a <= base + j < a + m) ==> d2[j] == 0
  {
  }

  lemma HeaderAddresses(segs: seq<Seg>, ptr: nat)
    requires HEADER <= ptr < U64
    ensures forall i :: 0 <= i < |segs| && segs[i].addr + HEADER == ptr ==> segs[i].addr == HeaderAddr(ptr)
  {
  }

  /** SafeToFree, about headers and segments given as values. */
  ghost predicate Safe(h: Headers, segs: seq<Seg>, ptr: nat) {
    forall k :: 0 <= k < |segs| && segs[k].addr == HeaderAddr(ptr) && HeaderAddr(ptr) in h ==>
      var hdr := h[HeaderAddr(ptr)];
      && (hdr.prev == 0 || (hdr.prev in h && !h[hdr.prev].free))
      && hdr.next != 0 && hdr.next in h && !h[hdr.next].free
  }

  /** The address of the header that belongs to a client's pointer. */
  function HeaderAddr(ptr: nat): nat {
    (ptr + U64 - HEADER) % U64
  }

  lemma FirstFitIs(segs: seq<Seg>, size: nat, k: nat)
    requires k < |segs| && Fits(segs[k], size)
    requires forall j :: 0 <= j < k ==> !Fits(segs[j], size)
    ensures FirstFit(segs, size) == k
  {
  }

  lemma NoFit(segs: seq<Seg>, size: nat)
    requires forall j :: 0 <= j < |segs| ==> !Fits(segs[j], size)
    ensures FirstFit(segs, size) == |segs|
  {
  }
}

