/** Which leaves the range mapper takes for a range of pages, and when they are
    aligned. */
module RangePlan {
  import opened Arithmetic
  import opened PageTables

  // ----- how many leaves a range takes -----

  /** Pages of the leaf chosen at page v when r pages are left. */
  function LeafSpan(v: nat, r: nat): (s: nat)
    requires r > 0
    ensures 0 < s <= r
  {
    if r - 1 > 262144 && v % 262144 == 0 then 262144
    else if r - 1 > 512 && v % 512 == 0 then 512
    else 1
  }

  /** Leaves the range mapper makes for r pages from v on. */
  function Leaves(v: nat, r: nat): nat
    decreases r
  {
    if r == 0 then 0 else 1 + Leaves(v + LeafSpan(v, r), r - LeafSpan(v, r))
  }

  /** The span of the leaf that covers page u when the n pages from v on are mapped:
      1 GiB if its gigabyte starts in the range with more than a gigabyte and a page of
      it left, or else 2 MiB on the same terms, or else a page. */
  function PlannedSpan(v: nat, n: nat, u: nat): Positive {
    if v <= u - u % 262144 && v + n > u - u % 262144 + 262145 then 262144
    else if v <= u - u % 512 && v + n > u - u % 512 + 513 then 512
    else 1
  }

  /** The s pages from b on, b a multiple of s, hold page u; they lie in the range, and it
      goes on for more than a page behind them. */
  predicate FitsWhole(v: nat, n: nat, u: nat, b: nat, s: Positive) {
    b % s == 0 && v <= b <= u < b + s && b + s + 1 < v + n
  }

  /** A leaf is as large as such a block around the page allows, and otherwise one
      page. */
  lemma SpanIff(v: nat, n: nat, u: nat)
    requires v <= u
    ensures PlannedSpan(v, n, u) == 262144 <==> exists b :: FitsWhole(v, n, u, b, 262144)
    ensures PlannedSpan(v, n, u) == 512 <==>
            (exists b :: FitsWhole(v, n, u, b, 512)) && !exists b :: FitsWhole(v, n, u, b, 262144)
    ensures PlannedSpan(v, n, u) in {1, 512, 262144}
  {
    FitsIff(v, n, u, 262144);
    FitsIff(v, n, u, 512);
    hide FitsWhole;
  }

  lemma FitsIff(v: nat, n: nat, u: nat, s: Positive)
    requires v <= u
    ensures (exists b :: FitsWhole(v, n, u, b, s)) <==> v <= u - u % s && v + n > u - u % s + s + 1
  {
    if b: nat :| FitsWhole(v, n, u, b, s) {
      SameBlock(b, u, s);
    }
    if v <= u - u % s && v + n > u - u % s + s + 1 {
      BlockStart(u, s);
      assert FitsWhole(v, n, u, u - u % s, s);
    }
  }

  lemma BlockStart(u: nat, s: Positive)
    ensures (u - u % s) % s == 0
  {
    DivUnique(u - u % s, s, u / s, 0);
  }

  /** That leaf: it starts at the multiple of its span below u, and at the frame that
      is as far into the frames. */
  function Planned(v: nat, n: nat, p: nat, u: nat): Leaf
    requires v <= u
  {
    var s := PlannedSpan(v, n, u);
    Leaf(s, p + (u - u % s - v))
  }

  /** The block of size s that c lies in, if it starts in the range and before c, was
      too short of pages to be taken as one leaf. */
  predicate NotCut(v: nat, n: nat, c: nat, s: Positive) {
    c % s != 0 && v <= c - c % s ==> v + n <= c - c % s + s + 1
  }

  /** The loop comes to page c at the start of a leaf. */
  predicate AtLeaf(v: nat, n: nat, c: nat) {
    NotCut(v, n, c, 262144) && NotCut(v, n, c, 512)
  }

  /** The loop's choice at the start of a leaf is the planned leaf of all pages it
      covers, and after it the next leaf starts. */
  lemma ChoiceIsPlan(v: nat, n: nat, p: nat, c: nat, u: nat)
    requires v <= c < v + n && AtLeaf(v, n, c) && c <= u < c + LeafSpan(c, v + n - c)
    ensures Planned(v, n, p, u) == Leaf(LeafSpan(c, v + n - c), p + (c - v))
  {
    var s := LeafSpan(c, v + n - c);
    if s == 262144 {
      SameBlock(c, u, 262144);
    } else if s == 512 {
      SameBlock(c, u, 512);
      SameGigabyte(c, u);
    }
  }

  lemma NextLeaf(v: nat, n: nat, c: nat)
    requires v <= c < v + n && AtLeaf(v, n, c)
    ensures AtLeaf(v, n, c + LeafSpan(c, v + n - c))
  {
    hide NotCut;
    var s := LeafSpan(c, v + n - c);
    if s == 262144 {
      Whole(v, n, c, 262144, 262144);
      Whole(v, n, c, 262144, 512);
    } else if s == 512 {
      Whole(v, n, c, 512, 512);
      SameGigabyte(c, c + 511);
      NotCutOn(v, n, c, c + 511, 262144);
    } else {
      NotCutOn(v, n, c, c, 262144);
      NotCutOn(v, n, c, c, 512);
    }
  }

  lemma Whole(v: nat, n: nat, c: nat, s: Positive, k: Positive)
    requires c % s == 0 && s % k == 0
    ensures NotCut(v, n, c + s, k)
  {
    var a, b := c / s, s / k;
    assert c + s == (a + 1) * s && s == b * k;
    assert (a + 1) * s == (a + 1) * b * k;
    DivUnique(c + s, k, (a + 1) * b, 0);
  }

  /** From page c to the page after d in the same block. */
  lemma NotCutOn(v: nat, n: nat, c: nat, d: nat, s: Positive)
    requires NotCut(v, n, c, s) && c <= d && d - d % s == c - c % s
    requires c % s == 0 ==> v + n <= c + s + 1
    ensures NotCut(v, n, d + 1, s)
  {
    NextBlock(d, s);
  }

  lemma SameBlock(c: nat, u: nat, s: nat)
    requires s > 0 && c % s == 0 && c <= u < c + s
    ensures u - u % s == c
  {
    DivUnique(u, s, c / s, u - c);
  }

  /** The 512 pages from a multiple of 512 on lie in one gigabyte. */
  lemma SameGigabyte(c: nat, u: nat)
    requires c % 512 == 0 && c <= u < c + 512
    ensures u - u % 262144 == c - c % 262144
  {
    var q, r := c / 262144, c % 262144;
    assert r % 512 == 0;
    DivUnique(u, 262144, q, r + (u - c));
  }

  lemma NextBlock(c: nat, s: nat)
    requires s > 0
    ensures (c + 1) % s != 0 ==> c + 1 - (c + 1) % s == c - c % s
  {
    var q, r := c / s, c % s;
    assert c == q * s + r;
    if r + 1 < s {
      DivUnique(c + 1, s, q, r + 1);
    } else {
      assert (q + 1) * s == q * s + s;
      DivUnique(c + 1, s, q + 1, 0);
    }
  }

  /** Does the range take a 1 GiB leaf, or else a 2 MiB leaf?  It does when the first
      multiple of the span in it leaves more than a span and a page. */
  function FirstMultiple(v: nat, s: Positive): (c: nat)
    ensures v <= c < v + s && c % s == 0
  {
    assert (v + (s - 1)) / s * s + (v + (s - 1)) % s == v + (s - 1);
    DivUnique((v + (s - 1)) / s * s, s, (v + (s - 1)) / s, 0);
    (v + (s - 1)) / s * s
  }

  predicate Uses(v: nat, n: nat, s: Positive) {
    v + n > FirstMultiple(v, s) + s + 1
  }

  function LargestSpan(v: nat, n: nat): Positive {
    if Uses(v, n, 262144) then 262144 else if Uses(v, n, 512) then 512 else 1
  }

  lemma UsesIff(v: nat, n: nat, u: nat, s: Positive)
    requires v <= u
    ensures v <= u - u % s && v + n > u - u % s + s + 1 ==> Uses(v, n, s)
  {
    var c, b := FirstMultiple(v, s), u - u % s;
    assert b == u / s * s;
    DivUnique(b, s, u / s, 0);
    if v <= b {
      BlocksOrdered(c, b, v, s);
    }
  }

  /** The first multiple from v on comes before every other. */
  lemma BlocksOrdered(c: nat, b: nat, v: nat, s: Positive)
    requires v <= c < v + s && c % s == 0 && v <= b && b == b / s * s
    ensures c <= b
  {
    assert c == c / s * s;
    if b < c {
      MulMonotone(b / s + 1, c / s, s);
    }
  }

  /** Some page is covered by a 1 GiB leaf exactly when the range uses one. */
  lemma GigabyteIff(v: nat, n: nat)
    ensures (exists u :: v <= u < v + n && PlannedSpan(v, n, u) == 262144) <==> Uses(v, n, 262144)
  {
    if u :| v <= u < v + n && PlannedSpan(v, n, u) == 262144 {
      UsesIff(v, n, u, 262144);
    }
    if Uses(v, n, 262144) {
      assert PlannedSpan(v, n, FirstMultiple(v, 262144)) == 262144;
    }
  }

  lemma LargestIsUsed(v: nat, n: nat)
    requires n > 0
    ensures exists u :: v <= u < v + n && PlannedSpan(v, n, u) == LargestSpan(v, n)
  {
    var u := FirstMultiple(v, LargestSpan(v, n));
    if Uses(v, n, 262144) || Uses(v, n, 512) {
      assert v <= u < v + n;
      if !Uses(v, n, 262144) { UsesIff(v, n, u, 262144); }
      assert PlannedSpan(v, n, u) == LargestSpan(v, n);
    } else {
      UsesIff(v, n, v, 262144);
      UsesIff(v, n, v, 512);
      assert PlannedSpan(v, n, v) == 1;
    }
  }

  lemma PlannedAtMost(v: nat, n: nat, u: nat)
    requires v <= u
    ensures LargestSpan(v, n) % PlannedSpan(v, n, u) == 0
  {
    UsesIff(v, n, u, 262144);
    UsesIff(v, n, u, 512);
  }

  lemma AgreeBelow(p: nat, v: nat, s: Positive, k: Positive)
    requires s % k == 0 && p % s == v % s
    ensures p % k == v % k
  {
    var m := s / k;
    assert s == k * m && m > 0;
    ModMod(p, k, m);
    ModMod(v, k, m);
  }

  lemma BlockAligned(v: nat, p: nat, u: nat, s: Positive)
    requires v <= u - u % s
    ensures (p + (u - u % s - v)) % s == 0 <==> p % s == v % s
  {
    var k, a, d := u / s, v / s, p / s;
    var x, z, f := v % s, p % s, p + (u - u % s - v);
    assert f == k * s + d * s - a * s + (z - x);
    Remainder(f, s, k + d - a, z - x);
  }

  lemma Remainder(f: nat, s: Positive, q: int, r: int)
    requires f == q * s + r && 0 < r + s && r < s
    ensures f % s == 0 <==> r == 0
  {
    if r >= 0 {
      QuotientNatural(f, s, q, r);
      DivUnique(f, s, q, r);
    } else {
      assert (q - 1) * s == q * s - s;
      QuotientNatural(f, s, q - 1, r + s);
      DivUnique(f, s, q - 1, r + s);
    }
  }

  lemma QuotientNatural(f: nat, s: Positive, q: int, r: nat)
    requires f == q * s + r && r < s
    ensures q >= 0
  {
    if q < 0 {
      var m: nat := 0 - q;
      MulMonotone(1, m, s);
      MulSign(q, m, s);
    }
  }

  lemma MulSign(q: int, m: nat, s: nat)
    requires q == 0 - m
    ensures q * s == 0 - m * s
  {
  }

  /** Every leaf of the range starts at a frame that is a multiple of its span exactly
      when frames and pages agree modulo the largest span used. */
  lemma AlignedIff(v: nat, n: nat, p: nat)
    requires n > 0
    ensures (forall u :: v <= u < v + n ==> Planned(v, n, p, u).frame % Planned(v, n, p, u).span == 0)
            <==> p % LargestSpan(v, n) == v % LargestSpan(v, n)
  {
    hide PlannedSpan, LargestSpan;
    forall u: nat | v <= u < v + n
      ensures v <= u - u % PlannedSpan(v, n, u)
      ensures Planned(v, n, p, u).frame % Planned(v, n, p, u).span == 0 <==>
              p % PlannedSpan(v, n, u) == v % PlannedSpan(v, n, u)
    {
      PlannedInRange(v, n, u);
      BlockAligned(v, p, u, PlannedSpan(v, n, u));
    }
    LargestIsUsed(v, n);
    if p % LargestSpan(v, n) == v % LargestSpan(v, n) {
      forall u: nat | v <= u < v + n ensures p % PlannedSpan(v, n, u) == v % PlannedSpan(v, n, u) {
        PlannedAtMost(v, n, u);
        AgreeBelow(p, v, LargestSpan(v, n), PlannedSpan(v, n, u));
      }
    }
  }

  lemma PlannedInRange(v: nat, n: nat, u: nat)
    requires v <= u
    ensures v <= u - u % PlannedSpan(v, n, u)
  {
  }

  /** Mapping 514 pages from page 512 on to the frames from 1 on takes a 2 MiB leaf at
      frame 1. */
  lemma MisalignedExample()
    ensures Planned(512, 514, 1, 512) == Leaf(512, 1) && 1 % 512 != 0
  {
  }
}
