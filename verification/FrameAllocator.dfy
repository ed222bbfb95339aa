/** The bitmap frame allocator.  One bit a usable page, kept in the first usable
    pages themselves: a page of 0x1000 bytes has bits for 32768 pages. */
module FrameAllocator {
  import opened Arithmetic
  import opened MemoryMap

  // ----- the bits of a byte -----

  /** The byte with only bit b set. */
  function Mask(b: nat): bv8
    requires b < 8
  {
    if b == 0 then 1 else if b == 1 then 2 else if b == 2 then 4 else if b == 3 then 8
    else if b == 4 then 16 else if b == 5 then 32 else if b == 6 then 64 else 128
  }

  lemma MaskIsShift(b: nat)
    requires b < 8
    ensures Mask(b) == (1 as bv8) << b
  {
    if b < 4 {
      assert b == 0 || b == 1 || b == 2 || b == 3;
    } else {
      assert b == 4 || b == 5 || b == 6 || b == 7;
    }
  }

  function WithBit(byte: bv8, b: nat, on: bool): bv8
    requires b < 8
  {
    if on then byte | Mask(b) else byte & !Mask(b)
  }

  predicate HasBit(byte: bv8, b: nat)
    requires b < 8
  {
    byte & Mask(b) != 0
  }

  /** Setting or clearing one bit of a byte reads back and touches no other bit, and
      the byte changes exactly when the bit does. */
  lemma BitOfByte(byte: bv8, b: nat, c: nat, on: bool)
    requires b < 8 && c < 8
    ensures HasBit(WithBit(byte, b, on), c) == if b == c then on else HasBit(byte, c)
    ensures WithBit(byte, b, on) != byte <==> HasBit(byte, b) != on
  {
  }

  // ----- what the bits say -----

  /** Set bits, counted. */
  function Count(bits: seq<bool>): nat {
    if bits == [] then 0 else (if bits[|bits| - 1] then 1 else 0) + Count(bits[..|bits| - 1])
  }

  lemma {:induction false} CountUpdate(bits: seq<bool>, i: nat, b: bool)
    requires i < |bits|
    ensures Count(bits[i := b]) + (if bits[i] then 1 else 0) == Count(bits) + (if b then 1 else 0)
  {
    var k := |bits| - 1;
    if i < k {
      assert bits[i := b][..k] == bits[..k][i := b];
      CountUpdate(bits[..k], i, b);
    } else {
      assert bits[i := b][..k] == bits[..k];
    }
  }

  lemma {:induction false} CountNone(bits: seq<bool>)
    requires forall i :: 0 <= i < |bits| ==> !bits[i]
    ensures Count(bits) == 0
  {
    if bits != [] { CountNone(bits[..|bits| - 1]); }
  }

  lemma {:induction false} CountAtMost(bits: seq<bool>)
    ensures Count(bits) <= |bits|
  {
    if bits != [] { CountAtMost(bits[..|bits| - 1]); }
  }

  ghost function FrameAt(rs: seq<Region>, i: nat): nat
    requires i < Pages(rs)
  {
    AddrDefined(rs, i);
    Addr(rs, i).value / 0x1000
  }

  /** The frames of the clear bits. */
  ghost function Clear(rs: seq<Region>, bits: seq<bool>): set<nat>
    requires |bits| <= Pages(rs)
  {
    set i | 0 <= i < |bits| && !bits[i] :: FrameAt(rs, i)
  }

  lemma CountLast(bits: seq<bool>, k: nat)
    requires |bits| == k + 1
    ensures Count(bits) == Count(bits[..k]) + if bits[k] then 1 else 0
  {
  }

  lemma ClearLast(rs: seq<Region>, bits: seq<bool>, k: nat, limit: nat)
    requires RegionsOk(rs, limit) && |bits| == k + 1 <= Pages(rs)
    ensures Clear(rs, bits) == if bits[k] then Clear(rs, bits[..k]) else Clear(rs, bits[..k]) + {FrameAt(rs, k)}
    ensures FrameAt(rs, k) !in Clear(rs, bits[..k])
  {
    hide FrameAt, Addr, Pages;
    forall i: nat | i < k ensures FrameAt(rs, i) != FrameAt(rs, k) && bits[..k][i] == bits[i] {
      FramesDiffer(rs, i, k, limit);
    }
  }

  lemma FramesDiffer(rs: seq<Region>, i: nat, j: nat, limit: nat)
    requires RegionsOk(rs, limit) && i < Pages(rs) && j < Pages(rs) && i != j
    ensures FrameAt(rs, i) != FrameAt(rs, j)
  {
    AddrInjective(rs, i, j, limit);
  }

  /** Every usable page is either counted as allocated or has a frame in the free
      set of its own. */
  lemma {:induction false} ClearCount(rs: seq<Region>, bits: seq<bool>, limit: nat)
    requires RegionsOk(rs, limit) && |bits| <= Pages(rs)
    ensures |Clear(rs, bits)| + Count(bits) == |bits|
  {
    if bits == [] {
      assert Clear(rs, bits) == {};
    } else {
      var k := |bits| - 1;
      ClearCount(rs, bits[..k], limit);
      CountLast(bits, k);
      ClearLast(rs, bits, k, limit);
    }
  }

  lemma ClearUpdate(rs: seq<Region>, bits: seq<bool>, i: nat, b: bool, limit: nat)
    requires RegionsOk(rs, limit) && |bits| <= Pages(rs) && i < |bits|
    ensures Clear(rs, bits[i := b]) == if b then Clear(rs, bits) - {FrameAt(rs, i)} else Clear(rs, bits) + {FrameAt(rs, i)}
    ensures FrameAt(rs, i) in Clear(rs, bits) <==> !bits[i]
  {
    hide FrameAt, Addr, Pages;
    forall j: nat | j < |bits| && j != i ensures FrameAt(rs, j) != FrameAt(rs, i) {
      FramesDiffer(rs, i, j, limit);
    }
    var s, s' := Clear(rs, bits), Clear(rs, bits[i := b]);
    forall f ensures f in s' <==> (if b then f in s && f != FrameAt(rs, i) else f in s || f == FrameAt(rs, i)) {
      if f in s {
        var j :| 0 <= j < |bits| && !bits[j] && FrameAt(rs, j) == f;
        assert j != i ==> !bits[i := b][j];
      }
      if !b { assert !bits[i := b][i]; }
    }
  }

  class Pmm {
    const regions: seq<Region>
    const ram: array<bv8>              // physical memory, by physical address
    const usablePages: nat
    const bitmapPages: nat
    var allocatedPages: nat
    ghost var bits: seq<bool>          // the bitmap as a sequence of flags
    ghost var free: set<nat>           // the frames of the clear bits

    // ----- where a bit is -----

    /** The bitmap bit of page index, as stored; true when there is no such bit. */
    ghost predicate Bit(index: nat)
      reads ram
    {
      BitIn(ram[..], index)
    }

    ghost predicate BitIn(memory: seq<bv8>, index: nat) {
      if index / 32768 >= Pages(regions) then true
      else ByteAt(index) < |memory| && HasBit(memory[ByteAt(index)], index % 8)
    }

    /** The flags are what the bitmap bytes in memory say. */
    ghost predicate Reflects(memory: seq<bv8>, flags: seq<bool>) {
      && |flags| == usablePages
      && forall i :: 0 <= i < usablePages ==> flags[i] == BitIn(memory, i)
    }

    ghost function ByteAt(index: nat): nat
      requires index / 32768 < Pages(regions)
    {
      AddrDefined(regions, index / 32768);
      Addr(regions, index / 32768).value + index % 32768 / 8
    }

    lemma ByteAtBounds(index: nat)
      requires RegionsOk(regions, ram.Length) && index / 32768 < Pages(regions)
      ensures Addr(regions, index / 32768).Some? && Addr(regions, index / 32768).value != U64_MAX
      ensures ByteAt(index) < ram.Length
    {
      var _ := AddrInRegion(regions, index / 32768, ram.Length);
    }

    /** Where the bits lie: bit c of byte b in page j of usable entry k, which is page
        number i, is the bit of page 32768 * i + 8 * b + c. */
    lemma BitPlace(memory: seq<bv8>, k: nat, j: nat, b: nat, c: nat)
      requires k < |regions| && regions[k].kind == 0 && j < regions[k].length / 0x1000 && b < 0x1000 && c < 8
      requires regions[k].base + 0x1000 * j + b < |memory|
      ensures var i := Pages(regions[..k]) + j;
        BitIn(memory, 32768 * i + 8 * b + c) <==> memory[regions[k].base + 0x1000 * j + b] & ((1 as bv8) << c) != 0
    {
      var i := Pages(regions[..k]) + j;
      var index := 32768 * i + 8 * b + c;
      hide Mask, Pages, Addr;
      PageNumbers(regions, k, j);
      DivUnique(index, 32768, i, 8 * b + c);
      assert index % 32768 / 8 == b && index % 8 == c;
      MaskIsShift(c);
    }

    /** Distinct pages have distinct bits: another byte, or another bit of it. */
    lemma NoAliasing(i: nat, j: nat)
      requires RegionsOk(regions, ram.Length) && i != j
      requires i / 32768 < Pages(regions) && j / 32768 < Pages(regions)
      ensures ByteAt(i) != ByteAt(j) || i % 8 != j % 8
    {
      if i / 32768 != j / 32768 {
        AddrInjective(regions, i / 32768, j / 32768, ram.Length);
      } else {
        OtherBitOfPage(i, j);
      }
    }

    lemma OtherBitOfPage(i: nat, j: nat)
      requires i / 32768 == j / 32768 && i != j
      ensures i % 32768 / 8 != j % 32768 / 8 || i % 8 != j % 8
    {
    }

    /** The stored bits, the counter and the ghost view agree. */
    ghost predicate Consistent()
      reads this, ram
    {
      && Static()
      && Reflects(ram[..], bits)
      && allocatedPages == Count(bits)
      && free == Clear(regions, bits)
    }

    /** ... and the pages that hold the bitmap are allocated. */
    ghost predicate Valid()
      reads this, ram
    {
      Consistent() && forall i :: 0 <= i < bitmapPages ==> bits[i]
    }

    /** What never changes. */
    ghost predicate Static() {
      && RegionsOk(regions, ram.Length)
      && usablePages == Pages(regions)
      && 0 < usablePages && usablePages * 32768 < U64_MAX
      && bitmapPages == usablePages / 32768 + 1 <= usablePages
    }

    // ----- initialisation -----

    /** The loop of pmm_init that adds up the usable entries. */
    static method CountUsable(regions: seq<Region>) returns (usable: nat)
      ensures usable == Pages(regions)
    {
      usable := 0;
      for i := 0 to |regions|
        invariant usable + Pages(regions[i..]) == Pages(regions)
      {
        assert regions[i..][1..] == regions[i + 1..];
        if regions[i].kind == USABLE { usable := usable + regions[i].length / 0x1000; }
      }
    }

    /** pmm_init.  `fault` says that there is no usable page at all: the code then
        clears the page at UINT64_MAX. */
    static method Start(regions: seq<Region>, ram: array<bv8>) returns (pmm: Pmm?, fault: bool)
      requires RegionsOk(regions, ram.Length) && Pages(regions) * 32768 < U64_MAX
      modifies ram
      ensures fault <==> forall i: nat :: Addr(regions, i) == None
      ensures !fault ==> pmm != null && fresh(pmm) && pmm.regions == regions && pmm.ram == ram && pmm.Valid()
      ensures !fault ==> forall i :: 0 <= i < pmm.usablePages ==> pmm.bits[i] == (i < pmm.bitmapPages)
      ensures !fault ==> forall k: nat :: k / 32768 < pmm.bitmapPages ==> pmm.Bit(k) == (k < pmm.bitmapPages)
      ensures !fault ==> forall x :: 0 <= x < ram.Length && !pmm.InBitmap(x) ==> ram[x] == old(ram[x])
      ensures fault ==> ram[..] == old(ram[..])
      ensures !fault ==> pmm.allocatedPages == pmm.bitmapPages == Pages(regions) / 32768 + 1
    {
      var usable := CountUsable(regions);
      forall i: nat ensures Addr(regions, i) == None <==> i >= usable {
        AddrDefined(regions, i);
      }
      if usable == 0 {
        return null, true;
      }
      assert Addr(regions, 0) != None;
      fault := false;
      pmm := new Pmm(regions, ram);
    }

    /** Counts the usable pages, clears the bitmap pages and marks them allocated. */
    constructor (regions: seq<Region>, ram: array<bv8>)
      requires RegionsOk(regions, ram.Length)
      requires 0 < Pages(regions) && Pages(regions) * 32768 < U64_MAX
      modifies ram
      ensures this.regions == regions && this.ram == ram
      ensures Valid()
      ensures forall i :: 0 <= i < usablePages ==> bits[i] == (i < bitmapPages)
      ensures allocatedPages == bitmapPages
      ensures forall k: nat :: k / 32768 < bitmapPages ==> Bit(k) == (k < bitmapPages)
      ensures forall x :: 0 <= x < ram.Length && !InBitmap(x) ==> ram[x] == old(ram[x])
    {
      this.regions, this.ram := regions, ram;
      var usable := CountUsable(regions);
      usablePages, bitmapPages := usable, usable / 32768 + 1;
      allocatedPages, bits := 0, seq(usable, _ => false);
      new;
      for i := 0 to bitmapPages
        modifies ram
        invariant Static()
        invariant forall k: nat :: k / 32768 < i ==> !BitIn(ram[..], k)
        invariant forall x :: 0 <= x < ram.Length && !InBitmap(x) ==> ram[x] == old(ram[x])
      {
        AddrDefined(regions, i);
        var _ := AddrInRegion(regions, i, ram.Length);
        var page := GetAddressByIndex(i);
        ClearPage(page, i);
      }
      WithinBitmap();
      CountNone(bits);
      free := Clear(regions, bits);
      TakeBitmap();
    }

    /** The loop of pmm_init that marks the bitmap pages allocated. */
    method TakeBitmap()
      requires Consistent() && allocatedPages == 0
      requires forall k :: 0 <= k < usablePages ==> !bits[k]
      requires forall k: nat :: k / 32768 < bitmapPages ==> !Bit(k)
      modifies this`allocatedPages, this`bits, this`free, ram
      ensures Consistent()
      ensures forall k: nat :: k / 32768 < bitmapPages ==> Bit(k) == (k < bitmapPages)
      ensures forall x :: 0 <= x < ram.Length && !InBitmap(x) ==> ram[x] == old(ram[x])
      ensures forall k :: 0 <= k < usablePages ==> bits[k] == (k < bitmapPages)
      ensures allocatedPages == bitmapPages
    {
      for i := 0 to bitmapPages
        invariant Consistent()
        invariant forall k :: 0 <= k < usablePages ==> bits[k] == (k < i)
        invariant allocatedPages == i
        invariant forall k: nat :: k / 32768 < bitmapPages ==> Bit(k) == (k < i)
        invariant forall x :: 0 <= x < ram.Length && !InBitmap(x) ==> ram[x] == old(ram[x])
      {
        CountUpdate(bits, i, true);
        ByteInBitmap(i);
        SetAllocated(i, true);
      }
    }

    /** The byte at x lies in one of the pages that hold the bitmap. */
    ghost predicate InBitmap(x: nat) {
      exists i :: 0 <= i < bitmapPages && HoldsByte(i, x)
    }

    ghost predicate HoldsByte(i: nat, x: nat) {
      match Addr(regions, i)
      case Some(page) => page <= x < page + 0x1000
      case None => false
    }

    lemma ByteInBitmap(i: nat)
      requires Static() && i / 32768 < bitmapPages
      ensures InBitmap(ByteAt(i))
    {
      ByteAtBounds(i);
      assert HoldsByte(i / 32768, ByteAt(i));
    }

    lemma WithinBitmap()
      requires Static()
      ensures forall k :: 0 <= k < usablePages ==> k / 32768 < bitmapPages
    {
    }

    /** memset of one bitmap page to zero. */
    method ClearPage(page: nat, ghost i: nat)
      requires Static() && i < bitmapPages
      requires Addr(regions, i) == Some(page) && page + 0x1000 <= ram.Length
      modifies ram
      ensures forall k: nat :: k / 32768 == i ==> !BitIn(ram[..], k)
      ensures forall k: nat :: k / 32768 < i && !old(BitIn(ram[..], k)) ==> !BitIn(ram[..], k)
      ensures forall x :: 0 <= x < ram.Length && !InBitmap(x) ==> ram[x] == old(ram[x])
    {
      for b := 0 to 0x1000
        invariant forall x :: page <= x < page + b ==> ram[x] == 0
        invariant forall x :: 0 <= x < ram.Length && !(page <= x < page + 0x1000) ==> ram[x] == old(ram[x])
      {
        ram[page + b] := 0;
      }
      forall k: nat | k / 32768 < i && !old(BitIn(ram[..], k)) ensures !BitIn(ram[..], k) {
        AddrInjective(regions, k / 32768, i, ram.Length);
        ByteAtBounds(k);
      }
      forall x: nat | x < ram.Length && !InBitmap(x) ensures ram[x] == old(ram[x]) {
        assert !HoldsByte(i, x);
      }
    }

    // ----- frames -----

    /** A frame of usable memory. */
    predicate Usable(f: nat) {
      Idx(regions, f * 0x1000).Some?
    }

    lemma UsableInMemory(f: nat)
      requires RegionsOk(regions, ram.Length) && Usable(f)
      ensures Idx(regions, f * 0x1000).value < Pages(regions)
      ensures FrameAt(regions, Idx(regions, f * 0x1000).value) == f
      ensures f * 0x1000 < ram.Length && 0 < f
    {
      AddrOfIdx(regions, f * 0x1000, ram.Length);
      var _ := AddrInRegion(regions, Idx(regions, f * 0x1000).value, ram.Length);
    }

    /** A usable frame that does not hold the bitmap: one that clients can be given
        and can give back. */
    ghost predicate Lends(f: nat) {
      match Idx(regions, f * 0x1000)
      case Some(i) => i >= bitmapPages
      case None => false
    }

    /** Free frames are lendable, and lendable frames lie in memory. */
    lemma FreeIsLent(f: nat)
      requires Valid()
      ensures f in free ==> Lends(f)
      ensures Lends(f) ==> Usable(f) && f * 0x1000 < ram.Length && 0 < f
      ensures Lends(f) ==>
                Idx(regions, f * 0x1000).value < usablePages && FrameAt(regions, Idx(regions, f * 0x1000).value) == f
    {
      if f in free {
        var i :| 0 <= i < |bits| && !bits[i] && FrameAt(regions, i) == f;
        IdxOfAddr(regions, i, ram.Length);
        var _ := AddrInRegion(regions, i, ram.Length);
      }
      if Lends(f) { UsableInMemory(f); }
    }

    // ----- page numbering -----

    method GetAddressByIndex(index: nat) returns (a: nat)
      ensures a == match Addr(regions, index) case Some(x) => x case None => U64_MAX
      ensures forall k :: 0 <= k < |regions| && regions[k].kind == 0 &&
                          Pages(regions[..k]) <= index < Pages(regions[..k]) + regions[k].length / 0x1000 ==>
                a == regions[k].base + 0x1000 * (index - Pages(regions[..k]))
      ensures index >= Pages(regions) ==> a == U64_MAX
    {
      AddressOfNumber(index);
      var currentIndex := 0;
      for i := 0 to |regions|
        invariant currentIndex <= index
        invariant Addr(regions, index) == Addr(regions[i..], index - currentIndex)
      {
        var entry := regions[i];
        assert regions[i..][1..] == regions[i + 1..];
        if entry.kind == USABLE {
          if currentIndex + entry.length / 0x1000 <= index {
            currentIndex := currentIndex + entry.length / 0x1000;
            continue;
          } else {
            return entry.base + 0x1000 * (index - currentIndex);
          }
        }
      }
      return U64_MAX;
    }

    /** What page numbers mean, entry by entry. */
    lemma AddressOfNumber(index: nat)
      ensures forall k :: 0 <= k < |regions| && regions[k].kind == 0 &&
                          Pages(regions[..k]) <= index < Pages(regions[..k]) + regions[k].length / 0x1000 ==>
                Addr(regions, index) == Some(regions[k].base + 0x1000 * (index - Pages(regions[..k])))
      ensures index >= Pages(regions) ==> Addr(regions, index) == None
    {
      hide Addr, Pages;
      AddrDefined(regions, index);
      forall k: nat | k < |regions| && regions[k].kind == 0
          && Pages(regions[..k]) <= index < Pages(regions[..k]) + regions[k].length / 0x1000
        ensures Addr(regions, index) == Some(regions[k].base + 0x1000 * (index - Pages(regions[..k])))
      {
        PageNumbers(regions, k, index - Pages(regions[..k]));
      }
    }

    lemma NumberOfAddress(address: nat)
      ensures RegionsOk(regions, ram.Length) ==>
                forall k :: 0 <= k < |regions| && regions[k].kind == 0 &&
                            regions[k].base <= address < regions[k].base + regions[k].length ==>
                  Idx(regions, address) == Some(Pages(regions[..k]) + (address - regions[k].base) / 0x1000)
    {
      hide Idx, Pages;
      if RegionsOk(regions, ram.Length) {
        forall k: nat | k < |regions| && regions[k].kind == 0
            && regions[k].base <= address < regions[k].base + regions[k].length
          ensures Idx(regions, address) == Some(Pages(regions[..k]) + (address - regions[k].base) / 0x1000)
        {
          ByteNumbers(regions, k, address, ram.Length);
        }
      }
    }

    method GetIndexByAddress(address: nat) returns (index: nat)
      ensures index == match Idx(regions, address) case Some(k) => k case None => U64_MAX
      ensures RegionsOk(regions, ram.Length) ==>
                forall k :: 0 <= k < |regions| && regions[k].kind == 0 &&
                            regions[k].base <= address < regions[k].base + regions[k].length ==>
                  index == Pages(regions[..k]) + (address - regions[k].base) / 0x1000
    {
      NumberOfAddress(address);
      var currentIndex := 0;
      for i := 0 to |regions|
        invariant Idx(regions, address) ==
                  match Idx(regions[i..], address) case None => None case Some(k) => Some(currentIndex + k)
      {
        var entry := regions[i];
        assert regions[i..][1..] == regions[i + 1..];
        if entry.kind == USABLE {
          if entry.base <= address < entry.base + entry.length {
            return currentIndex + (address - entry.base) / 0x1000;
          }
          currentIndex := currentIndex + entry.length / 0x1000;
        }
      }
      return U64_MAX;
    }

    // ----- the bitmap -----

    method IsAllocated(index: nat) returns (b: bool)
      requires RegionsOk(regions, ram.Length)
      ensures b == Bit(index)
    {
      var bitmapPage := index / 32768;
      var bitOfPage := index - bitmapPage * 32768;
      var byteOfPage := bitOfPage / 8;
      var bitOfByte := bitOfPage - 8 * byteOfPage;
      var page := GetAddressByIndex(bitmapPage);
      AddrDefined(regions, bitmapPage);
      if bitmapPage < Pages(regions) { ByteAtBounds(index); }
      if page == U64_MAX { return true; }
      assert page + byteOfPage == ByteAt(index) && bitOfByte == index % 8;
      var byte := ram[page + byteOfPage];
      return HasBit(byte, bitOfByte);
    }

    /** Memory after the bit of page index was rewritten; as it was when there is no
        such bit. */
    ghost function Rewritten(memory: seq<bv8>, index: nat, taken: bool): seq<bv8>
      requires index / 32768 < Pages(regions) ==> ByteAt(index) < |memory|
    {
      if index / 32768 >= Pages(regions) then memory
      else memory[ByteAt(index) := WithBit(memory[ByteAt(index)], index % 8, taken)]
    }

    /** Sets one bit, for any index.  For the index of a usable page that changes the
        page's flag and no other, and the counter stays the number of set bits.  The
        UINT64_MAX of an unknown address, past every bitmap page, changes nothing.  In
        between, the bit of some other byte of a usable page is written, and the
        counter goes wrong exactly when that bit changes. */
    method SetAllocated(index: nat, taken: bool)
      requires Consistent()
      modifies this`allocatedPages, this`bits, this`free, ram
      ensures Consistent() <==> index < usablePages || index / 32768 >= usablePages || old(Bit(index)) == taken
      ensures index / 32768 < Pages(regions) ==> ByteAt(index) < |old(ram[..])|
      ensures ram[..] == Rewritten(old(ram[..]), index, taken) && Reflects(ram[..], bits)
      ensures forall i: nat :: i / 32768 < usablePages ==> Bit(i) == if i == index then taken else old(Bit(i))
      ensures bits == if index < usablePages then old(bits)[index := taken] else old(bits)
      ensures index >= usablePages ==> free == old(free)
      ensures index < usablePages ==>
                free == if taken then old(free) - {FrameAt(regions, index)} else old(free) + {FrameAt(regions, index)}
      ensures index < usablePages ==> (FrameAt(regions, index) in old(free) <==> !old(bits)[index])
    {
      hide *;
      ConsistentParts();
      PageOfBit(index, ram[..]);
      ghost var before, flags := ram[..], bits;
      var bitmapPage := index / 32768;
      var bitOfPage := index - bitmapPage * 32768;
      var byteOfPage := bitOfPage / 8;
      var bitOfByte := bitOfPage - byteOfPage * 8;
      assert bitOfByte == index % 8;
      var page := GetAddressByIndex(bitmapPage);
      RewrittenIs(index, before, taken);
      if page == U64_MAX {
        Settled(index, taken, before, flags, allocatedPages, free);
        return;
      }
      var byte := ram[page + byteOfPage];
      var newByte := WithBit(byte, bitOfByte, taken);
      BitsFollow(index, before, bits, taken);

      if taken && newByte != byte {
        allocatedPages := (allocatedPages + 1) % U64;
      } else if !taken && newByte != byte {
        allocatedPages := (allocatedPages + U64 - 1) % U64;
      }
      ram[page + byteOfPage] := newByte;
      assert ram[..] == before[page + byteOfPage := newByte];
      bits := if index < usablePages then bits[index := taken] else bits;
      free := Clear(regions, bits);
      CountedIs(old(allocatedPages), BitIn(before, index), taken);
      Settled(index, taken, before, flags, old(allocatedPages), old(free));
    }

    /** The counter after a bit was set to `taken`. */
    function Counted(count: nat, was: bool, taken: bool): nat {
      if was == taken then count else if taken then (count + 1) % U64 else (count + U64 - 1) % U64
    }

    lemma CountedIs(count: nat, was: bool, taken: bool)
      ensures Counted(count, was, taken) ==
              if was == taken then count else if taken then (count + 1) % U64 else (count + U64 - 1) % U64
    {
    }

    lemma ConsistentParts()
      requires Consistent()
      ensures Static() && Reflects(ram[..], bits) && allocatedPages == Count(bits) && free == Clear(regions, bits)
      ensures |bits| == usablePages && forall i: nat :: Bit(i) == BitIn(ram[..], i)
    {
    }

    /** What writing the bit leaves behind. */
    lemma Settled(index: nat, taken: bool, before: seq<bv8>, flags: seq<bool>, count: nat, F: set<nat>)
      requires Static() && |before| == ram.Length && Reflects(before, flags)
      requires count == Count(flags) && F == Clear(regions, flags)
      requires index / 32768 < Pages(regions) ==> ByteAt(index) < |before|
      requires ram[..] == Rewritten(before, index, taken)
      requires allocatedPages == if index / 32768 < usablePages then Counted(count, BitIn(before, index), taken) else count
      requires bits == if index < usablePages then flags[index := taken] else flags
      requires free == Clear(regions, bits)
      ensures forall i: nat :: i / 32768 < usablePages ==> Bit(i) == if i == index then taken else BitIn(before, i)
      ensures Consistent() <==> index < usablePages || index / 32768 >= usablePages || BitIn(before, index) == taken
      ensures Reflects(ram[..], bits)
      ensures index >= usablePages ==> free == F
      ensures index < usablePages ==>
                && free == (if taken then F - {FrameAt(regions, index)} else F + {FrameAt(regions, index)})
                && (FrameAt(regions, index) in F <==> !flags[index])
    {
      hide Count, Clear, FrameAt, Reflects, Rewritten, BitIn, ByteAt, Pages;
      forall i: nat | i / 32768 < usablePages ensures Bit(i) == if i == index then taken else BitIn(before, i) {
        if index / 32768 < usablePages { OtherBits(index, i, before, taken); } else { RewrittenIs(index, before, taken); }
      }
      if index / 32768 < usablePages {
        BitsFollow(index, before, flags, taken);
        if index < usablePages { ClearUpdate(regions, flags, index, taken, ram.Length); }
      } else {
        RewrittenIs(index, before, taken);
      }
    }

    lemma RewrittenIs(index: nat, before: seq<bv8>, taken: bool)
      requires index / 32768 < Pages(regions) ==> ByteAt(index) < |before|
      ensures if index / 32768 >= Pages(regions) then Rewritten(before, index, taken) == before
              else Rewritten(before, index, taken) ==
                   before[ByteAt(index) := WithBit(before[ByteAt(index)], index % 8, taken)]
    {
    }

    /** Where the bit of page index is, if it is anywhere. */
    lemma PageOfBit(index: nat, memory: seq<bv8>)
      requires Static() && |memory| == ram.Length
      ensures usablePages == Pages(regions) && RegionsOk(regions, ram.Length)
      ensures match Addr(regions, index / 32768)
              case None => index / 32768 >= usablePages && BitIn(memory, index)
              case Some(page) =>
                && index / 32768 < Pages(regions) && page != U64_MAX
                && ByteAt(index) == page + (index - index / 32768 * 32768) / 8 < ram.Length
                && BitIn(memory, index) == HasBit(memory[ByteAt(index)], index % 8)
    {
      hide Pages;
      AddrDefined(regions, index / 32768);
      if index / 32768 < Pages(regions) { ByteAtBounds(index); }
    }

    /** Rewriting the byte of page index updates the flags the bytes stand for. */
    lemma BitsFollow(index: nat, before: seq<bv8>, flags: seq<bool>, taken: bool)
      requires Static() && |before| == ram.Length
      requires index / 32768 < Pages(regions) && ByteAt(index) < ram.Length
      requires Reflects(before, flags)
      ensures |flags| == usablePages && Count(flags) <= usablePages < U64 - 1
      ensures WithBit(before[ByteAt(index)], index % 8, taken) != before[ByteAt(index)] <==> BitIn(before, index) != taken
      ensures index < usablePages ==>
                && BitIn(before, index) == flags[index]
                && Reflects(Rewritten(before, index, taken), flags[index := taken])
                && Count(flags[index := taken]) + (if flags[index] then 1 else 0) == Count(flags) + if taken then 1 else 0
      ensures index >= usablePages ==> Reflects(Rewritten(before, index, taken), flags)
    {
      hide Count, WithBit, HasBit;
      CountAtMost(flags);
      BitOfByte(before[ByteAt(index)], index % 8, index % 8, taken);
      if index < usablePages { CountUpdate(flags, index, taken); }
      var flags' := if index < usablePages then flags[index := taken] else flags;
      var after := Rewritten(before, index, taken);
      forall i | 0 <= i < usablePages ensures flags'[i] == BitIn(after, i) {
        OtherBits(index, i, before, taken);
      }
    }

    /** After the bit of page index was rewritten, page i reads as it should. */
    lemma OtherBits(index: nat, i: nat, before: seq<bv8>, taken: bool)
      requires RegionsOk(regions, ram.Length) && i / 32768 < Pages(regions)
      requires |before| == ram.Length && index / 32768 < Pages(regions) && ByteAt(index) < ram.Length
      ensures BitIn(Rewritten(before, index, taken), i) == if i == index then taken else BitIn(before, i)
    {
      ByteAtBounds(i);
      BitOfByte(before[ByteAt(index)], index % 8, i % 8, taken);
      if i != index { NoAliasing(i, index); }
    }

    /** Whether the frame of an address can be lent, and whether it is free. */
    method StateOf(address: nat) returns (lent: bool, clear: bool)
      requires Valid()
      ensures lent == Lends(address / 0x1000)
      ensures clear == (address / 0x1000 in free)
    {
      var index := GetIndexByAddress(address);
      IdxOfPageStart(regions, address, ram.Length);
      assert address - address % 0x1000 == address / 0x1000 * 0x1000;
      FreeIsLent(address / 0x1000);
      lent, clear := index != U64_MAX && index >= bitmapPages, false;
      if Usable(address / 0x1000) {
        UsableInMemory(address / 0x1000);
        ClearUpdate(regions, bits, index, true, ram.Length);
        var taken := IsAllocated(index);
        clear := !taken;
      }
    }

    // ----- allocation -----

    /** The address lies in usable entry k, and no frame of F in an earlier entry, or
        before it in its own. */
    ghost predicate FirstInMap(address: nat, F: set<nat>, k: nat) {
      && k < |regions| && regions[k].kind == 0
      && regions[k].base <= address < regions[k].base + regions[k].length
      && forall f :: f in F ==>
           && (regions[k].base <= f * 0x1000 < regions[k].base + regions[k].length ==> address <= f * 0x1000)
           && (forall j :: 0 <= j < k && regions[j].kind == 0 ==>
                 !(regions[j].base <= f * 0x1000 < regions[j].base + regions[j].length))
    }

    lemma LowestIsFirst(flags: seq<bool>, i: nat, address: nat)
      requires RegionsOk(regions, ram.Length) && i < |flags| <= Pages(regions)
      requires Addr(regions, i) == Some(address) && forall j :: 0 <= j < i ==> flags[j]
      ensures exists k :: FirstInMap(address, Clear(regions, flags), k)
    {
      hide Addr, Pages, Idx;
      var k := AddrInRegion(regions, i, ram.Length);
      IdxOfAddr(regions, i, ram.Length);
      ByteNumbers(regions, k, address, ram.Length);
      forall f | f in Clear(regions, flags)
        ensures regions[k].base <= f * 0x1000 < regions[k].base + regions[k].length ==> address <= f * 0x1000
        ensures forall j :: 0 <= j < k && regions[j].kind == 0 ==>
                  !(regions[j].base <= f * 0x1000 < regions[j].base + regions[j].length)
      {
        var m :| 0 <= m < |flags| && !flags[m] && FrameAt(regions, m) == f;
        assert i <= m;
        IdxOfAddr(regions, m, ram.Length);
        var _ := AddrInRegion(regions, m, ram.Length);
        assert Idx(regions, f * 0x1000) == Some(m);
        if regions[k].base <= f * 0x1000 < regions[k].base + regions[k].length {
          ByteNumbers(regions, k, f * 0x1000, ram.Length);
        }
        forall j: nat | j < k && regions[j].kind == 0
          ensures !(regions[j].base <= f * 0x1000 < regions[j].base + regions[j].length)
        {
          if regions[j].base <= f * 0x1000 < regions[j].base + regions[j].length {
            ByteNumbers(regions, j, f * 0x1000, ram.Length);
            PagesBefore(regions, j, k);
            assert false;
          }
        }
      }
      assert FirstInMap(address, Clear(regions, flags), k);
    }

    /** pmm_alloc_phys: the address of the lowest free page, now allocated; 0 when
        every page is allocated. */
    method AllocPhys() returns (address: nat)
      requires Valid()
      modifies this`allocatedPages, this`bits, this`free, ram
      ensures Valid()
      ensures address == 0 <==> old(free) == {}
      ensures address == 0 ==> bits == old(bits) && free == {} && ram[..] == old(ram[..])
      ensures address != 0 ==> exists i ::
                && 0 <= i < usablePages && Addr(regions, i) == Some(address)
                && !old(bits)[i] && (forall j :: 0 <= j < i ==> old(bits)[j])
                && bits == old(bits)[i := true]
                && (forall k: nat :: k / 32768 < usablePages ==> Bit(k) == (k == i || old(Bit(k))))
                && (forall x :: 0 <= x < ram.Length && !InBitmap(x) ==> ram[x] == old(ram[x]))
      ensures address != 0 ==> exists k :: FirstInMap(address, old(free), k)
      ensures address != 0 ==> address % 0x1000 == 0
      ensures address != 0 ==> address / 0x1000 in old(free) && free == old(free) - {address / 0x1000}
      ensures address != 0 ==> allocatedPages == old(allocatedPages) + 1
    {
      hide Count, Addr, Pages, Clear, FrameAt, Reflects, BitIn, InBitmap, FirstInMap;
      ConsistentParts();
      for i := 0 to usablePages
        invariant Valid() && bits == old(bits) && free == old(free) && allocatedPages == old(allocatedPages)
        invariant ram[..] == old(ram[..])
        invariant forall j :: 0 <= j < i ==> bits[j]
      {
        var b := IsAllocated(i);
        FlagIs(i);
        if !b {
          address := TakePage(i);
          return address;
        }
      }
      NoneClear();
      return 0;
    }

    lemma FlagIs(i: nat)
      requires Consistent() && i < usablePages
      ensures bits[i] == Bit(i)
    {
    }

    lemma NoneClear()
      requires Consistent() && forall j :: 0 <= j < usablePages ==> bits[j]
      ensures free == {}
    {
    }

    /** The branch of the loop for a free page. */
    method TakePage(i: nat) returns (address: nat)
      requires Valid() && i < usablePages && !bits[i] && forall j :: 0 <= j < i ==> bits[j]
      modifies this`allocatedPages, this`bits, this`free, ram
      ensures Valid() && address != 0 && Addr(regions, i) == Some(address)
      ensures bits == old(bits)[i := true]
      ensures forall k: nat :: k / 32768 < usablePages ==> Bit(k) == (k == i || old(Bit(k)))
      ensures forall x :: 0 <= x < ram.Length && !InBitmap(x) ==> ram[x] == old(ram[x])
      ensures exists k :: FirstInMap(address, old(free), k)
      ensures address % 0x1000 == 0 && address / 0x1000 in old(free) && free == old(free) - {address / 0x1000}
      ensures allocatedPages == old(allocatedPages) + 1
    {
      hide Count, Addr, Pages, Clear, Reflects, BitIn, FirstInMap;
      ConsistentParts();
      WithinBitmap();
      ByteInBitmap(i);
      CountUpdate(bits, i, true);
      var _ := AddrInRegion(regions, i, ram.Length);
      LowestIsFirst(bits, i, Addr(regions, i).value);
      SetAllocated(i, true);
      address := GetAddressByIndex(i);
      // UINT64_MAX is no address of a page
      if address == U64_MAX { assert false; }
    }

    /** pmm_get_current_free_memory: 0x1000 bytes for every free frame. */
    method CurrentFreeMemory() returns (bytes: nat)
      requires Consistent()
      ensures bytes == |free| * 0x1000
    {
      ClearCount(regions, bits, ram.Length);
      bytes := (usablePages - allocatedPages) * 0x1000;
    }
  }
}
