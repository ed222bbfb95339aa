/** The boot memory map and the numbering of its usable pages: index i is the i-th
    page of the usable entries, taken in order. */
module MemoryMap {

  /** The value that stands for "no such page". */
  const U64_MAX: nat := 0xFFFF_FFFF_FFFF_FFFF

  const USABLE: nat := 0

  datatype Option<+T> = None | Some(value: T)

  /** memmap_entry_t; `kind` is its type field, 0 for usable memory. */
  datatype Region = Region(base: nat, length: nat, kind: nat)

  function PagesOf(r: Region): nat {
    if r.kind == USABLE then r.length / 0x1000 else 0
  }

  /** Number of usable pages. */
  function Pages(rs: seq<Region>): nat {
    if rs == [] then 0 else PagesOf(rs[0]) + Pages(rs[1..])
  }

  predicate Holds(r: Region, a: nat) {
    r.kind == USABLE && r.base <= a < r.base + r.length
  }

  /** What the boot protocol promises of usable entries: page-aligned, not at 0,
      disjoint, and inside a physical memory of `limit` bytes. */
  ghost predicate RegionsOk(rs: seq<Region>, limit: nat) {
    && (forall i :: 0 <= i < |rs| && rs[i].kind == USABLE ==>
          && rs[i].base % 0x1000 == 0 && rs[i].length % 0x1000 == 0
          && 0 < rs[i].base && rs[i].base + rs[i].length <= limit)
    && (forall i, j :: 0 <= i < j < |rs| && rs[i].kind == USABLE && rs[j].kind == USABLE ==>
          rs[i].base + rs[i].length <= rs[j].base || rs[j].base + rs[j].length <= rs[i].base)
  }

  /** The address of page `index`. */
  function Addr(rs: seq<Region>, index: nat): Option<nat> {
    if rs == [] then None
    else if PagesOf(rs[0]) <= index then Addr(rs[1..], index - PagesOf(rs[0]))
    else Some(rs[0].base + 0x1000 * index)
  }

  /** The index of the page that holds address a. */
  function Idx(rs: seq<Region>, a: nat): Option<nat> {
    if rs == [] then None
    else if Holds(rs[0], a) then Some((a - rs[0].base) / 0x1000)
    else match Idx(rs[1..], a)
      case None => None
      case Some(k) => Some(PagesOf(rs[0]) + k)
  }

  lemma RegionsOkTail(rs: seq<Region>, limit: nat)
    requires RegionsOk(rs, limit) && rs != []
    ensures RegionsOk(rs[1..], limit)
  {
  }

  /** Exactly the indices below the number of usable pages have an address. */
  lemma {:induction false} AddrDefined(rs: seq<Region>, index: nat)
    ensures Addr(rs, index).Some? <==> index < Pages(rs)
  {
    if rs != [] && PagesOf(rs[0]) <= index {
      AddrDefined(rs[1..], index - PagesOf(rs[0]));
    }
  }

  lemma {:induction false} AddrInRegion(rs: seq<Region>, index: nat, limit: nat) returns (k: nat)
    requires RegionsOk(rs, limit) && index < Pages(rs)
    ensures Addr(rs, index).Some? && k < |rs| && Holds(rs[k], Addr(rs, index).value)
    ensures Addr(rs, index).value % 0x1000 == 0
    ensures 0 < Addr(rs, index).value && Addr(rs, index).value + 0x1000 <= limit
  {
    if PagesOf(rs[0]) <= index {
      RegionsOkTail(rs, limit);
      k := AddrInRegion(rs[1..], index - PagesOf(rs[0]), limit);
      k := k + 1;
    } else {
      k := 0;
    }
  }

  /** Exactly the addresses inside usable entries have an index. */
  lemma {:induction false} IdxDefined(rs: seq<Region>, a: nat)
    ensures Idx(rs, a).Some? <==> exists k :: 0 <= k < |rs| && Holds(rs[k], a)
  {
    if rs != [] {
      IdxDefined(rs[1..], a);
      if k :| 0 <= k < |rs[1..]| && Holds(rs[1..][k], a) {
        assert Holds(rs[k + 1], a);
      }
      if k :| 0 <= k < |rs| && Holds(rs[k], a) {
        assert k > 0 ==> Holds(rs[1..][k - 1], a);
      }
    }
  }

  /** Page numbering, one way: the index of the address of page i is i. */
  lemma {:induction false} IdxOfAddr(rs: seq<Region>, index: nat, limit: nat)
    requires RegionsOk(rs, limit) && index < Pages(rs)
    ensures Addr(rs, index).Some? && Idx(rs, Addr(rs, index).value) == Some(index)
  {
    if PagesOf(rs[0]) <= index {
      RegionsOkTail(rs, limit);
      var j := index - PagesOf(rs[0]);
      IdxOfAddr(rs[1..], j, limit);
      var k := AddrInRegion(rs[1..], j, limit);
      assert rs[1..][k] == rs[k + 1];
      assert !Holds(rs[0], Addr(rs[1..], j).value);
    }
  }

  /** Page numbering, the other way: the address of the index of a is the start of
      the page that holds a. */
  lemma {:induction false} AddrOfIdx(rs: seq<Region>, a: nat, limit: nat)
    requires RegionsOk(rs, limit) && Idx(rs, a).Some?
    ensures Idx(rs, a).value < Pages(rs)
    ensures Addr(rs, Idx(rs, a).value) == Some(a - a % 0x1000)
  {
    if !Holds(rs[0], a) {
      RegionsOkTail(rs, limit);
      AddrOfIdx(rs[1..], a, limit);
    }
  }

  /** No two pages share an address, so no two pages overlap. */
  lemma AddrInjective(rs: seq<Region>, i: nat, j: nat, limit: nat)
    requires RegionsOk(rs, limit) && i < Pages(rs) && j < Pages(rs) && i != j
    ensures Addr(rs, i).Some? && Addr(rs, j).Some?
    ensures Addr(rs, i).value / 0x1000 != Addr(rs, j).value / 0x1000
    ensures Addr(rs, i).value + 0x1000 <= Addr(rs, j).value || Addr(rs, j).value + 0x1000 <= Addr(rs, i).value
  {
    IdxOfAddr(rs, i, limit);
    IdxOfAddr(rs, j, limit);
    var _ := AddrInRegion(rs, i, limit);
    var _ := AddrInRegion(rs, j, limit);
  }

  /** The number of usable pages, entry by entry. */
  lemma {:induction false} PagesAre(rs: seq<Region>)
    ensures Pages([]) == 0
    ensures rs != [] ==>
              Pages(rs) == Pages(rs[..|rs| - 1]) + if rs[|rs| - 1].kind == 0 then rs[|rs| - 1].length / 0x1000 else 0
  {
    if |rs| > 1 {
      PagesAre(rs[1..]);
      assert rs[..|rs| - 1][1..] == rs[1..][..|rs| - 2];
    }
  }

  /** Entry j has its pages before those of every later entry. */
  lemma {:induction false} PagesBefore(rs: seq<Region>, j: nat, k: nat)
    requires j < k <= |rs| && rs[j].kind == 0
    ensures Pages(rs[..j]) + rs[j].length / 0x1000 <= Pages(rs[..k])
    decreases k
  {
    PagesAre(rs[..k]);
    assert rs[..k][..k - 1] == rs[..k - 1];
    if j < k - 1 { PagesBefore(rs, j, k - 1); }
  }

  /** Pages are numbered in the order of the entries, and upwards in each: page j of
      usable entry k has the pages of the entries before it below it, and j more. */
  lemma {:induction false} PageNumbers(rs: seq<Region>, k: nat, j: nat)
    requires k < |rs| && rs[k].kind == 0 && j < rs[k].length / 0x1000
    ensures Pages(rs[..k]) + j < Pages(rs)
    ensures Addr(rs, Pages(rs[..k]) + j) == Some(rs[k].base + 0x1000 * j)
  {
    if k > 0 {
      PageNumbers(rs[1..], k - 1, j);
      assert rs[..k][1..] == rs[1..][..k - 1];
    }
  }

  /** The same from the address: every byte of that page has its number. */
  lemma ByteNumbers(rs: seq<Region>, k: nat, a: nat, limit: nat)
    requires RegionsOk(rs, limit) && k < |rs| && rs[k].kind == 0 && rs[k].base <= a < rs[k].base + rs[k].length
    ensures Idx(rs, a) == Some(Pages(rs[..k]) + (a - rs[k].base) / 0x1000)
  {
    hide Pages, Addr, Idx;
    var j := (a - rs[k].base) / 0x1000;
    PageStart(rs[k].base, a);
    PageNumbers(rs, k, j);
    IdxOfAddr(rs, Pages(rs[..k]) + j, limit);
    IdxOfPageStart(rs, a, limit);
  }

  lemma PageStart(base: nat, a: nat)
    requires base % 0x1000 == 0 && base <= a
    ensures base + 0x1000 * ((a - base) / 0x1000) == a - a % 0x1000
    ensures forall n :: n % 0x1000 == 0 && a < base + n ==> (a - base) / 0x1000 < n / 0x1000
  {
  }

  /** All addresses of a page have its index. */
  lemma {:induction false} IdxOfPageStart(rs: seq<Region>, a: nat, limit: nat)
    requires RegionsOk(rs, limit)
    ensures Idx(rs, a - a % 0x1000) == Idx(rs, a)
  {
    if rs != [] {
      RegionsOkTail(rs, limit);
      IdxOfPageStart(rs[1..], a, limit);
      assert Holds(rs[0], a) <==> Holds(rs[0], a - a % 0x1000);
    }
  }
}
