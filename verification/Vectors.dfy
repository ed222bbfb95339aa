/** The growable vector, whose items live in a heap block that moves when it grows. */
module Vectors {
  import opened Arithmetic
  import opened Segments
  import opened KernelHeap
  import opened HeapRuns

  /** A pointer as it is stored: eight bytes. */
  type Word = w: seq<bv8> | |w| == 8 witness [0, 0, 0, 0, 0, 0, 0, 0]

  /** The n words stored from offset o on. */
  function Words(data: seq<bv8>, o: nat, n: nat): (ws: seq<Word>)
    requires o + 8 * n <= |data|
    ensures |ws| == n
  {
    seq(n, i requires 0 <= i < n => data[o + 8 * i..o + 8 * i + 8])
  }

  /** The bytes after a word was stored at offset o. */
  function Stored(data: seq<bv8>, o: nat, w: Word): seq<bv8>
    requires o + 8 <= |data|
  {
    data[..o] + w + data[o + 8..]
  }

  lemma StoredAt(data: seq<bv8>, o: nat, w: Word, j: nat)
    requires o + 8 <= |data| && j < |data|
    ensures |Stored(data, o, w)| == |data|
    ensures Stored(data, o, w)[j] == if o <= j < o + 8 then w[j - o] else data[j]
  {
  }

  /** Storing a word changes that word and no other. */
  lemma WordsStored(data: seq<bv8>, o: nat, n: nat, i: nat, w: Word)
    requires o + 8 * n <= |data| && i < n
    ensures |Stored(data, o + 8 * i, w)| == |data|
    ensures Words(Stored(data, o + 8 * i, w), o, n) == Words(data, o, n)[i := w]
  {
    var data' := Stored(data, o + 8 * i, w);
    forall k | 0 <= k < n ensures Words(data', o, n)[k] == Words(data, o, n)[i := w][k] {
      forall j | 0 <= j < 8 ensures Words(data', o, n)[k][j] == Words(data, o, n)[i := w][k][j] {
        StoredAt(data, o + 8 * i, w, o + 8 * k + j);
      }
      assert |Words(data', o, n)[k]| == 8;
    }
  }

  /** Words that were copied to another place are the same words. */
  lemma WordsMoved(before: seq<bv8>, after: seq<bv8>, from: nat, to: nat, m: nat, n: nat)
    requires Moved(before, after, from, to, m) && 8 * n <= m
    ensures Words(after, to, n) == Words(before, from, n)
  {
    forall k | 0 <= k < n ensures Words(after, to, n)[k] == Words(before, from, n)[k] {
      forall j | 0 <= j < 8 ensures Words(after, to, n)[k][j] == Words(before, from, n)[k][j] {
        assert after[to + 8 * k + j] == before[from + 8 * k + j];
      }
    }
  }

  lemma InsideHeap(heap: Heap, live: map<nat, nat>, a: nat)
    requires heap.Valid() && Holds(heap.segs, live) && a in live
    ensures heap.base <= a && a - heap.base + live[a] <= |heap.data|
  {
    assert |heap.segs| > 0;
    HeldBlocksApart(heap, live, a, a, 0);
  }

  lemma WordsGrown(d: seq<bv8>, d': seq<bv8>, base: nat, from: nat, to: nat, n: nat, have: nat, got: nat)
    requires base <= from && base <= to && 8 * n <= have && 8 * (n + 1) <= got
    requires from - base + 8 * n <= |d| && to - base + got <= |d'|
    requires Moved(d, d', from - base, to - base, Least(have, 8 * (n + 1)))
    ensures Words(d', to - base, n + 1)[..n] == Words(d, from - base, n)
    ensures OthersIntact(d, d', base, to, got)
  {
    WordsMoved(d, d', from - base, to - base, Least(have, 8 * (n + 1)), n);
    FirstWords(d', to - base, n, n + 1);
  }

  /** A heap of that many pages can serve a request of that size. */
  ghost predicate CanServe(segs: seq<Seg>, pages: nat, size: nat) {
    |segs| > 0 && CanAllocate(segs, size) && (pages + Growth(segs, size)) * 0x1000 < U32
  }

  /** ... two requests, one after the other. */
  ghost predicate CanServeTwo(segs: seq<Seg>, pages: nat, size: nat, size': nat) {
    CanServe(segs, pages, size) && CanServe(Segments.Malloc(segs, size), pages + Growth(segs, size), size')
  }

  class Vector {
    const heap: Heap
    var length: nat
    var items: nat        // address of the block that holds the items

    constructor (heap: Heap, items: nat)
      ensures this.heap == heap && this.items == items && length == 0
    {
      this.heap, this.items, length := heap, items, 0;
    }

    /** vector_init: one block for the vector itself, one with room for an item; the
        vector is empty. */
    static method Init(heap: Heap, ghost live: map<nat, nat>) returns (v: Vector, self: nat, ghost live': map<nat, nat>)
      requires heap.Valid() && Holds(heap.segs, live)
      requires CanServeTwo(heap.segs, heap.heapSize, 16, 8)
      modifies heap
      ensures fresh(v) && v.heap == heap && v.Valid(live') && v.length == 0
      ensures self !in live && v.items !in live && self != v.items
      ensures self in live' && v.items in live' && live' == live[self := live'[self]][v.items := live'[v.items]] && live'[self] >= 16 && live'[v.items] >= 8
      ensures old(heap.data) <= heap.data
    {
      hide Heap.Valid, Holds, CanAllocate, Segments.Malloc, FirstFit, Chosen, Growth;
      NotEmpty(heap);
      ghost var live1;
      self, live1 := StepMalloc(heap, 16, live);
      var items;
      items, live' := StepMalloc(heap, 8, live1);
      v := new Vector(heap, items);
    }

    /** The items have a block of their own that is large enough. */
    ghost predicate Valid(live: map<nat, nat>)
      reads this, heap
    {
      && heap.Valid() && Holds(heap.segs, live)
      && items in live && 8 * length <= live[items]
    }

    /** The items, in order. */
    ghost function Contents(live: map<nat, nat>): (ws: seq<Word>)
      reads this, heap
      requires Valid(live)
      ensures |ws| == length
    {
      ItemsInside(live);
      Words(heap.data, items - heap.base, length)
    }

    lemma ItemsInside(live: map<nat, nat>)
      requires Valid(live)
      ensures heap.base <= items && items - heap.base + live[items] <= |heap.data|
    {
      InsideHeap(heap, live, items);
    }

    /** Writing item i. */
    method SetItem(i: nat, w: Word, ghost live: map<nat, nat>)
      requires Valid(live) && i < length
      modifies heap`data
      ensures Valid(live)
      ensures Contents(live) == old(Contents(live))[i := w]
      ensures |heap.data| == |old(heap.data)|
      ensures OthersIntact(old(heap.data), heap.data, heap.base, items, live[items])
    {
      ItemsInside(live);
      var o := items - heap.base;
      WordsStored(heap.data, o, length, i, w);
      heap.data := heap.data[..o + 8 * i] + w + heap.data[o + 8 * i + 8..];
      assert heap.data == Stored(old(heap.data), o + 8 * i, w);
      forall j | 0 <= j < |heap.data| && !(o <= j < o + live[items]) ensures heap.data[j] == old(heap.data)[j] {
        StoredAt(old(heap.data), o + 8 * i, w, j);
      }
    }

    /** Reading item i. */
    method Item(i: nat, ghost live: map<nat, nat>) returns (w: Word)
      requires Valid(live) && i < length
      ensures w == Contents(live)[i]
    {
      ItemsInside(live);
      var o := items - heap.base + 8 * i;
      w := heap.data[o..o + 8];
    }

    /** vector_get: NULL for an index out of bounds. */
    method Get(index: nat, ghost live: map<nat, nat>) returns (w: Word)
      requires Valid(live)
      ensures w == if index < length then Contents(live)[index] else [0, 0, 0, 0, 0, 0, 0, 0]
    {
      if index >= length {
        return [0, 0, 0, 0, 0, 0, 0, 0];
      }
      w := Item(index, live);
    }

    /** The caller's side of growing to n items: the heap can serve the request. */
    ghost predicate CanGrow(n: nat)
      reads this, heap
    {
      CanServe(heap.segs, heap.heapSize, 8 * n)
    }

    /** `length++` and the realloc that follows it: the items move to a new block with
        room for one more, and nothing else in the heap changes. */
    method Grow(ghost live: map<nat, nat>) returns (ghost live': map<nat, nat>)
      requires Valid(live) && CanGrow(length + 1)
      modifies this, heap
      ensures Valid(live') && length == old(length) + 1
      ensures items !in live && items in live' && live' == live[items := live'[items]]
      ensures Contents(live')[..old(length)] == old(Contents(live))
      ensures OthersIntact(old(heap.data), heap.data, heap.base, items, live'[items])
    {
      hide Good, Moved, OthersIntact, Words, Holds, CanAllocate;
      ItemsInside(live);
      length := length + 1;
      ghost var from, d := items, heap.data;
      items, live' := StepRealloc(heap, items, length * 8, live);
      InsideHeap(heap, live', items);
      WordsGrown(d, heap.data, heap.base, from, items, old(length), live[from], live'[items]);
    }

    /** vector_add appends. */
    method Add(w: Word, ghost live: map<nat, nat>) returns (ghost live': map<nat, nat>)
      requires Valid(live) && CanGrow(length + 1)
      modifies this, heap
      ensures Valid(live')
      ensures Contents(live') == old(Contents(live)) + [w]
      ensures items !in live && items in live' && live' == live[items := live'[items]]
      ensures OthersIntact(old(heap.data), heap.data, heap.base, items, live'[items])
    {
      live' := Grow(live);
      SetItem(length - 1, w, live');
    }

    /** The loop of vector_insert: every item from index on moves up by one, over the
        last one. */
    method ShiftUp(index: nat, ghost live: map<nat, nat>)
      requires Valid(live) && index < length
      modifies heap`data
      ensures Valid(live)
      ensures Contents(live) == old(Contents(live))[..index + 1] + old(Contents(live))[index..length - 1]
      ensures OthersIntact(old(heap.data), heap.data, heap.base, items, live[items])
    {
      hide Good, Words, Holds;
      ghost var c := Contents(live);
      var i := length - 1;
      while i > index
        invariant index <= i < length && Valid(live)
        invariant Contents(live) == c[..i + 1] + c[i..length - 1]
        invariant OthersIntact(old(heap.data), heap.data, heap.base, items, live[items])
      {
        var below := Item(i - 1, live);
        SetItem(i, below, live);
        i := i - 1;
      }
    }

    /** vector_insert: insertion before index; nothing for an index past the end. */
    method Insert(index: nat, w: Word, ghost live: map<nat, nat>) returns (ghost live': map<nat, nat>)
      requires Valid(live) && CanGrow(length + 1)
      modifies this, heap
      ensures Valid(live')
      ensures index > old(length) ==> live' == live && Contents(live') == old(Contents(live)) && heap.data == old(heap.data)
      ensures index <= old(length) ==>
                && Contents(live') == old(Contents(live))[..index] + [w] + old(Contents(live))[index..]
                && items !in live && items in live' && live' == live[items := live'[items]]
                && OthersIntact(old(heap.data), heap.data, heap.base, items, live'[items])
    {
      hide Good, Words, Holds;
      if index > length { return live; }
      ghost var c := Contents(live);
      live' := Grow(live);
      ghost var grown := Contents(live');
      ShiftUp(index, live');
      SetItem(index, w, live');
      assert c == grown[..length - 1];
    }

    /** The loop of vector_delete_at: every item behind index moves down by one. */
    method ShiftDown(index: nat, ghost live: map<nat, nat>)
      requires Valid(live) && index + 1 < length
      modifies heap`data
      ensures Valid(live)
      ensures Contents(live)[..length - 1] == old(Contents(live))[..index] + old(Contents(live))[index + 1..]
      ensures OthersIntact(old(heap.data), heap.data, heap.base, items, live[items])
    {
      hide Good, Words, Holds, MovedDown;
      ghost var c := Contents(live);
      MovedDownEnds(c, index);
      var i := index + 1;
      while i < length
        invariant index + 1 <= i <= length && Valid(live)
        invariant Contents(live) == MovedDown(c, index, i)
        invariant OthersIntact(old(heap.data), heap.data, heap.base, items, live[items])
      {
        MovedDownStep(c, index, i);
        var above := Item(i, live);
        SetItem(i - 1, above, live);
        i := i + 1;
      }
    }

    /** vector_delete_at: removal of an item; for an index past the end the last item
        goes.  The block stays as it is.  Index UINT64_MAX wraps to 0: `fault` says that
        the first item would be written before the block, over its header.  An empty
        vector has 2^64 - 1 items afterwards. */
    method DeleteAt(index: nat, ghost live: map<nat, nat>) returns (fault: bool)
      requires Valid(live) && index < U64
      modifies this`length, heap`data
      ensures fault <==> index == U64 - 1 && 0 < old(length)
      ensures fault ==> Valid(live) && Contents(live) == old(Contents(live)) && heap.data == old(heap.data)
      ensures Valid(live) <==> 0 < old(length)
      ensures old(length) == 0 ==> length == U64 - 1 && heap.data == old(heap.data)
      ensures 0 < old(length) && !fault ==>
                && Contents(live) == (if index < old(length) then old(Contents(live))[..index] + old(Contents(live))[index + 1..]
                                      else old(Contents(live))[..old(length) - 1])
                && OthersIntact(old(heap.data), heap.data, heap.base, items, live[items])
    {
      hide Good, Words, Holds;
      ItemsInside(live);
      if (index + 1) % U64 < length {
        if index == U64 - 1 { return true; }
        ShiftDown(index, live);
      }
      if length > 0 {
        ItemsInside(live);
        FirstWords(heap.data, items - heap.base, length - 1, length);
      }
      length := (length + U64 - 1) % U64;
      return false;
    }
  }

  /** c when the items from index + 1 up to, not including, i have moved down by one. */
  function MovedDown(c: seq<Word>, index: nat, i: nat): (s: seq<Word>)
    requires index + 1 <= i <= |c|
    ensures |s| == |c|
  {
    c[..index] + c[index + 1..i] + c[i - 1..]
  }

  lemma MovedDownStep(c: seq<Word>, index: nat, i: nat)
    requires index + 1 <= i < |c|
    ensures MovedDown(c, index, i)[i - 1 := MovedDown(c, index, i)[i]] == MovedDown(c, index, i + 1)
  {
  }

  lemma MovedDownEnds(c: seq<Word>, index: nat)
    requires index + 1 <= |c|
    ensures MovedDown(c, index, index + 1) == c
    ensures MovedDown(c, index, |c|)[..|c| - 1] == c[..index] + c[index + 1..]
  {
  }

  lemma FirstWords(data: seq<bv8>, o: nat, m: nat, n: nat)
    requires m <= n && o + 8 * n <= |data|
    ensures Words(data, o, n)[..m] == Words(data, o, m)
  {
  }
}
