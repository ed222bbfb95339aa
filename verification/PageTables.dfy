/** Four-level page tables as plain values: the tables, the walk that gives them
    their meaning, the shape every page map keeps, and what each kind of entry
    write does to shape and meaning.

    Addresses are handled page by page.  A virtual page is bits 12 to 47 of a
    virtual address, a frame is a physical address divided by 0x1000.  A table is
    known by the frame that holds it.  A level is 4 for a PML4, 3 for a PDPT, 2
    for a PD and 1 for a PT. */
module PageTables {
  import opened Arithmetic

  /** Frame numbers an entry can hold: 40 bits of address above the low 12. */
  const FRAME_LIMIT: nat := 0x100_0000_0000

  /** Virtual pages: four indices of nine bits. */
  const PAGE_LIMIT: nat := 0x10_0000_0000

  /** One table entry, decoded.  `other` keeps the bits no code here looks at. */
  datatype Entry = Entry(present: bool, writable: bool, large: bool, other: bv64, frame: nat)

  const ZERO_ENTRY: Entry := Entry(false, false, false, 0, 0)

  type Table = s: seq<Entry> | |s| == 512 witness seq(512, _ => ZERO_ENTRY)

  function ZeroTable(): Table {
    seq(512, _ => ZERO_ENTRY)
  }

  /** The frames in use as page tables, with their contents. */
  type Tables = map<nat, Table>

  /** A position in a page map: the table at `level` that covers the virtual
      pages v with v / Span(level) == prefix. */
  datatype Node = Node(level: nat, prefix: nat)

  type Shape = map<Node, nat>

  /** What a walk finds.  `Stray` means that it followed a link to a frame that is
      not in use as a table, so that what it reads there is not the page map's. */
  datatype Translation = Unmapped | Page(frame: nat) | Stray

  type Positive = n: nat | n > 0 witness 1

  /** The entry a walk ends in: the pages it covers, and the frame in its address
      field. */
  datatype Leaf = NoLeaf | Lost | Leaf(span: Positive, frame: nat)

  // ----- indices -----

  /** Virtual pages covered by one table at `level` (by one entry one level up). */
  function Span(level: nat): (s: nat)
    requires level <= 4
    ensures s > 0
  {
    if level == 0 then 1
    else if level == 1 then 512
    else if level == 2 then 262144
    else if level == 3 then 134217728
    else 68719476736
  }

  /** The macros PML4_INDEX, PDPT_INDEX, PD_INDEX and PT_INDEX, on a page number. */
  function Index(level: nat, v: nat): (i: nat)
    requires 1 <= level <= 4
    ensures i < 512
  {
    v / Span(level - 1) % 512
  }

  function Child(n: Node, i: nat): Node
    requires n.level > 0
  {
    Node(n.level - 1, n.prefix * 512 + i)
  }

  function Parent(n: Node): Node {
    Node(n.level + 1, n.prefix / 512)
  }

  predicate OnPath(n: Node, v: nat)
    requires n.level <= 4
  {
    n.prefix == v / Span(n.level)
  }

  /** Virtual page v goes through entry i of the table at n. */
  predicate Through(n: Node, i: nat, v: nat)
    requires 1 <= n.level <= 4
  {
    OnPath(n, v) && Index(n.level, v) == i
  }

  lemma PathStep(level: nat, v: nat)
    requires 1 <= level <= 4
    ensures v / Span(level - 1) == v / Span(level) * 512 + Index(level, v)
    ensures v / Span(level - 1) / 512 == v / Span(level)
  {
    DivDiv(v, Span(level - 1), 512);
    assert Span(level) == Span(level - 1) * 512;
  }

  /** The four tables a walk of v goes through. */
  lemma PathNodes(v: nat)
    requires v < PAGE_LIMIT
    ensures Child(Node(4, 0), Index(4, v)) == Node(3, v / 134217728)
    ensures Child(Node(3, v / 134217728), Index(3, v)) == Node(2, v / 262144)
    ensures Child(Node(2, v / 262144), Index(2, v)) == Node(1, v / 512)
  {
    PathStep(4, v);
    PathStep(3, v);
    PathStep(2, v);
  }

  // ----- the walk -----

  /** An entry that leads to a table one level down.  The code tests the
      large-page bit in PDPT and PD entries only. */
  predicate IsLink(level: nat, e: Entry) {
    e.present && level > 1 && !(level <= 3 && e.large)
  }

  predicate IsLargeLeaf(level: nat, e: Entry) {
    e.present && 2 <= level <= 3 && e.large
  }

  function LeafAt(t: Tables, f: nat, level: nat, v: nat): Leaf
    requires 1 <= level <= 4
    decreases level
  {
    if f !in t then Lost
    else
      var e := t[f][Index(level, v)];
      if !e.present then NoLeaf
      else if IsLink(level, e) then LeafAt(t, e.frame, level - 1, v)
      else Leaf(Span(level - 1), e.frame)
  }

  function LeafOf(t: Tables, root: nat, v: nat): Leaf {
    LeafAt(t, root, 4, v)
  }

  /** What a leaf makes of page v. */
  function Shown(l: Leaf, v: nat): Translation {
    match l
    case NoLeaf => Unmapped
    case Lost => Stray
    case Leaf(s, f) => Page(f + v % s)
  }

  function WalkAt(t: Tables, f: nat, level: nat, v: nat): Translation
    requires 1 <= level <= 4
  {
    Shown(LeafAt(t, f, level, v), v)
  }

  /** The abstraction function: the page map as a flat map from pages to frames. */
  function Walk(t: Tables, root: nat, v: nat): Translation {
    WalkAt(t, root, 4, v)
  }

  /** The walk ends in a large leaf. */
  predicate EndsLarge(t: Tables, f: nat, level: nat, v: nat)
    requires 1 <= level <= 4
    decreases level
  {
    f in t
    && var e := t[f][Index(level, v)];
       IsLargeLeaf(level, e) || (IsLink(level, e) && EndsLarge(t, e.frame, level - 1, v))
  }

  /** The walk ends large exactly when its leaf covers more than a page. */
  lemma {:induction false} EndsLargeIff(t: Tables, f: nat, level: nat, v: nat)
    requires 1 <= level <= 4
    ensures EndsLarge(t, f, level, v) <==> LeafAt(t, f, level, v).Leaf? && LeafAt(t, f, level, v).span > 1
    decreases level
  {
    if f in t && IsLink(level, t[f][Index(level, v)]) {
      EndsLargeIff(t, t[f][Index(level, v)].frame, level - 1, v);
    }
  }

  /** Tables that going down to the PT of page v takes from the allocator: one for
      every level that is missing, or that a large page stands for. */
  function Needs(t: Tables, f: nat, level: nat, v: nat): (k: nat)
    requires 1 <= level <= 4
    ensures k < level
    decreases level
  {
    if level == 1 || f !in t then 0
    else
      var e := t[f][Index(level, v)];
      if IsLink(level, e) then Needs(t, e.frame, level - 1, v) else level - 1
  }

  /** The virtual page an address lies in: bits 12 to 47. */
  function PageOfAddress(a: nat): (v: nat)
    ensures v < PAGE_LIMIT
  {
    a / 0x1000 % PAGE_LIMIT
  }

  /** The offset of an address in a large page, split at the page boundary. */
  lemma LargeOffset(a: nat, level: nat)
    requires 2 <= level <= 3
    ensures a % (0x1000 * Span(level - 1)) == PageOfAddress(a) % Span(level - 1) * 0x1000 + a % 0x1000
  {
    DivDiv(a, 0x1000, Span(level - 1));
    ModMod(a / 0x1000, Span(level - 1), if level == 3 then 262144 else 134217728);
  }

  /** The index macros applied to an address are the indices of its page. */
  lemma IndexOfAddress(a: nat, level: nat)
    requires 1 <= level <= 4
    ensures a / (0x1000 * Span(level - 1)) % 512 == Index(level, PageOfAddress(a))
  {
    var s := Span(level - 1);
    var k := if level == 4 then 1 else if level == 3 then 512 else if level == 2 then 262144 else 134217728;
    DivDiv(a, 0x1000, s);
    ModMod(a / 0x1000, s, 512 * k);
    ModMod(a / 0x1000 / s, 512, k);
  }

  /** An entry that takes no access away: writable when present, and with none of the
      other attribute bits set. */
  predicate OpenEntry(e: Entry) {
    e.other == 0 && (e.present ==> e.writable)
  }

  /** All entries on the walk of page v from the table in f on are open, those of tables
      below level `down` not counted. */
  predicate Open(t: Tables, f: nat, level: nat, down: nat, v: nat)
    requires 1 <= level <= 4
    decreases level
  {
    f in t
    && (level < down
        || var e := t[f][Index(level, v)];
           OpenEntry(e) && (IsLink(level, e) ==> Open(t, e.frame, level - 1, down, v)))
  }

  /** Page v can be written, if it is mapped. */
  predicate OpenPage(t: Tables, root: nat, v: nat) {
    Open(t, root, 4, 1, v)
  }

  /** The way to the PT of page v is open. */
  predicate OpenWay(t: Tables, root: nat, v: nat) {
    Open(t, root, 4, 2, v)
  }

  /** No page loses access from t to t'. */
  ghost predicate KeepsOpen(t: Tables, t': Tables, root: nat) {
    forall u: nat :: u < PAGE_LIMIT ==>
      && (OpenPage(t, root, u) ==> OpenPage(t', root, u))
      && (OpenWay(t, root, u) ==> OpenWay(t', root, u))
  }

  /** No page but v does. */
  ghost predicate KeepsOpenBut(t: Tables, t': Tables, root: nat, v: nat) {
    forall u: nat :: u < PAGE_LIMIT ==>
      && (u != v && OpenPage(t, root, u) ==> OpenPage(t', root, u))
      && (OpenWay(t, root, u) ==> OpenWay(t', root, u))
  }

  /** Page v can be written in t' if only its PT entry stood against that in t. */
  ghost predicate Opens(t: Tables, t': Tables, root: nat, v: nat) {
    OpenWay(t, root, v) ==> OpenPage(t', root, v)
  }

  /** The two page maps translate every page alike, and no page loses access. */
  ghost predicate SameMeaning(t: Tables, t': Tables, root: nat) {
    && KeepsOpen(t, t', root)
    && forall v: nat :: v < PAGE_LIMIT ==> Walk(t', root, v) == Walk(t, root, v)
  }

  /** The two page maps translate every page by the same leaf, and no page loses
      access. */
  ghost predicate SameLeaves(t: Tables, t': Tables, root: nat) {
    && KeepsOpen(t, t', root)
    && forall v: nat :: v < PAGE_LIMIT ==> LeafOf(t', root, v) == LeafOf(t, root, v)
  }

  /** t' has one leaf l for the s pages from v on, and for every other page the leaf t
      has. */
  ghost predicate LeafChange(t: Tables, t': Tables, root: nat, v: nat, s: nat, l: Leaf) {
    forall u: nat :: u < PAGE_LIMIT ==> LeafOf(t', root, u) == if v <= u < v + s then l else LeafOf(t, root, u)
  }

  /** ... and no page loses access. */
  ghost predicate LeafUpdate(t: Tables, t': Tables, root: nat, v: nat, s: nat, l: Leaf) {
    LeafChange(t, t', root, v, s, l) && KeepsOpen(t, t', root)
  }

  /** t' translates page v to r and every other page as t does, and no other page loses
      access. */
  ghost predicate PointUpdate(t: Tables, t': Tables, root: nat, v: nat, r: Translation) {
    && KeepsOpenBut(t, t', root, v)
    && forall u: nat :: u < PAGE_LIMIT ==> Walk(t', root, u) == if u == v then r else Walk(t, root, u)
  }

  lemma {:induction false} PageIsWay(t: Tables, f: nat, level: nat, v: nat)
    requires 1 <= level <= 4 && Open(t, f, level, 1, v)
    ensures Open(t, f, level, 2, v)
    decreases level
  {
    var e := t[f][Index(level, v)];
    if IsLink(level, e) { PageIsWay(t, e.frame, level - 1, v); }
  }

  /** t' translates the `len` pages from v on to the frames from p on, and every
      other page as t does. */
  ghost predicate RangeUpdate(t: Tables, t': Tables, root: nat, v: nat, len: nat, p: nat) {
    forall u: nat :: u < PAGE_LIMIT ==>
      Walk(t', root, u) == if v <= u < v + len then Page(p + (u - v)) else Walk(t, root, u)
  }

  lemma SameLeavesShow(t: Tables, t': Tables, root: nat)
    requires SameLeaves(t, t', root)
    ensures SameMeaning(t, t', root)
  {
    hide KeepsOpen;
    forall v: nat | v < PAGE_LIMIT ensures Walk(t', root, v) == Walk(t, root, v) {
      assert LeafOf(t', root, v) == LeafOf(t, root, v);
    }
  }

  lemma PageLeafShows(t: Tables, t': Tables, root: nat, v: nat, l: Leaf)
    requires LeafChange(t, t', root, v, 1, l) && KeepsOpenBut(t, t', root, v)
    ensures PointUpdate(t, t', root, v, Shown(l, v))
  {
    hide KeepsOpenBut;
    forall u: nat | u < PAGE_LIMIT ensures Walk(t', root, u) == if u == v then Shown(l, v) else Walk(t, root, u) {
      assert LeafOf(t', root, u) == if v <= u < v + 1 then l else LeafOf(t, root, u);
    }
  }

  /** A leaf at a multiple of its size shows consecutive frames. */
  lemma LargeLeafShows(t: Tables, t': Tables, root: nat, v: nat, level: nat, p: nat)
    requires 2 <= level <= 3 && v % Span(level - 1) == 0
    requires LeafChange(t, t', root, v, Span(level - 1), Leaf(Span(level - 1), p))
    ensures RangeUpdate(t, t', root, v, Span(level - 1), p)
  {
    hide LeafAt;
    forall u: nat | u < PAGE_LIMIT
      ensures Walk(t', root, u) == if v <= u < v + Span(level - 1) then Page(p + (u - v)) else Walk(t, root, u)
    {
      SameLeaf(level, v, u);
      assert LeafOf(t', root, u) ==
             if v <= u < v + Span(level - 1) then Leaf(Span(level - 1), p) else LeafOf(t, root, u);
    }
  }

  // ----- the shape of a page map -----

  ghost predicate EntryOk(level: nat, e: Entry) {
    && (!e.present ==> !e.large)
    && (IsLargeLeaf(level, e) ==> e.frame + Span(level - 1) <= FRAME_LIMIT)
  }

  ghost predicate TableOk(t: Tables, N: Shape, n: Node)
    requires n in N
  {
    && 1 <= n.level <= 4
    && (n.level == 4 ==> n.prefix == 0)
    && N[n] in t
    && forall i {:trigger t[N[n]][i]} :: 0 <= i < 512 ==> EntryOk(n.level, t[N[n]][i])
  }

  /** A link out of n leads to the table the shape puts there. */
  ghost predicate DownOk(t: Tables, N: Shape, n: Node, i: nat)
    requires n in N && 1 <= n.level <= 4 && N[n] in t && i < 512
  {
    IsLink(n.level, t[N[n]][i]) ==> Child(n, i) in N && N[Child(n, i)] == t[N[n]][i].frame
  }

  /** Every table but the root is linked from the entry the shape says. */
  ghost predicate UpOk(t: Tables, N: Shape, n: Node)
    requires n in N
  {
    && Parent(n) in N
    && N[Parent(n)] in t
    && IsLink(n.level + 1, t[N[Parent(n)]][n.prefix % 512])
    && t[N[Parent(n)]][n.prefix % 512].frame == N[n]
  }

  ghost predicate Injective(N: Shape) {
    forall n, m :: n in N && m in N && N[n] == N[m] ==> n == m
  }

  /** The page map rooted at `root` is a tree of tables laid out as N says: every
      link leads to the table N has there, every table but the root is linked, and
      no frame holds two tables. */
  ghost predicate Tree(t: Tables, root: nat, N: Shape) {
    && Node(4, 0) in N && N[Node(4, 0)] == root
    && Injective(N)
    && (forall n {:trigger TableOk(t, N, n)} {:trigger n in N} :: n in N ==> TableOk(t, N, n))
    && (forall n, i {:trigger DownOk(t, N, n, i)} :: n in N && i < 512 ==> DownOk(t, N, n, i))
    && (forall n {:trigger UpOk(t, N, n)} :: n in N && n.level < 4 ==> UpOk(t, N, n))
  }

  /** The table in f, at `level`, is or leads to the one in g. */
  predicate LeadsTo(t: Tables, f: nat, level: nat, g: nat)
    requires 1 <= level <= 4
    decreases level
  {
    g == f
    || (f in t && exists i :: 0 <= i < 512 && IsLink(level, t[f][i]) && LeadsTo(t, t[f][i].frame, level - 1, g))
  }

  /** The root leads to the tables of the shape and to no other frame. */
  lemma RootLeadsTo(t: Tables, root: nat, N: Shape, g: nat)
    requires Tree(t, root, N)
    ensures LeadsTo(t, root, 4, g) <==> g in N.Values
  {
    if LeadsTo(t, root, 4, g) { LedToTable(t, root, N, Node(4, 0), g); }
    if g in N.Values {
      var m :| m in N && N[m] == g;
      assert TableOk(t, N, m);
      LedFromRoot(t, root, N, m, g);
    }
  }

  lemma {:induction false} LedToTable(t: Tables, root: nat, N: Shape, n: Node, g: nat)
    requires Tree(t, root, N) && n in N && 1 <= n.level <= 4 && LeadsTo(t, N[n], n.level, g)
    ensures g in N.Values
    decreases n.level
  {
    if g != N[n] {
      var i :| 0 <= i < 512 && IsLink(n.level, t[N[n]][i]) && LeadsTo(t, t[N[n]][i].frame, n.level - 1, g);
      assert TableOk(t, N, n) && DownOk(t, N, n, i);
      LedToTable(t, root, N, Child(n, i), g);
    }
  }

  lemma {:induction false} LedFromRoot(t: Tables, root: nat, N: Shape, m: Node, g: nat)
    requires Tree(t, root, N) && m in N && 1 <= m.level <= 4 && LeadsTo(t, N[m], m.level, g)
    ensures LeadsTo(t, root, 4, g)
    decreases 4 - m.level
  {
    assert TableOk(t, N, m);
    if m.level < 4 {
      assert UpOk(t, N, m);
      LedFromRoot(t, root, N, Parent(m), g);
    }
  }

  /** t' has the same tables as t at the nodes of N, except for entry i at n. */
  ghost predicate SameBut(t: Tables, N: Shape, n: Node, i: nat, t': Tables)
    requires n in N && i < 512
    requires forall m :: m in N ==> N[m] in t
  {
    forall m :: m in N ==>
      && N[m] in t'
      && (m != n ==> t'[N[m]] == t[N[m]])
      && (m == n ==> t'[N[m]] == t[N[m]][i := t'[N[m]][i]])
  }

  // ----- walks through and past a changed entry -----

  /** Descending from the root arrives at every table on the page's path. */
  lemma {:induction false} WalkReaches(t: Tables, root: nat, N: Shape, n: Node, v: nat)
    requires Tree(t, root, N) && v < PAGE_LIMIT
    requires n in N && n.level <= 4 && OnPath(n, v)
    ensures LeafOf(t, root, v) == LeafAt(t, N[n], n.level, v)
    ensures Walk(t, root, v) == WalkAt(t, N[n], n.level, v)
    decreases 4 - n.level
  {
    assert TableOk(t, N, n);
    if n.level < 4 {
      var p := Parent(n);
      assert UpOk(t, N, n);
      PathStep(n.level + 1, v);
      assert TableOk(t, N, p);
      WalkReaches(t, root, N, p, v);
    }
  }

  /** What is needed is needed below the tables that are there already. */
  lemma {:induction false} NeedsReaches(t: Tables, root: nat, N: Shape, n: Node, v: nat)
    requires Tree(t, root, N) && v < PAGE_LIMIT
    requires n in N && 1 <= n.level <= 4 && OnPath(n, v)
    ensures Needs(t, root, 4, v) == Needs(t, N[n], n.level, v)
    decreases 4 - n.level
  {
    assert TableOk(t, N, n);
    if n.level < 4 {
      var p := Parent(n);
      assert UpOk(t, N, n);
      PathStep(n.level + 1, v);
      assert TableOk(t, N, p);
      NeedsReaches(t, root, N, p, v);
    }
  }

  /** A walk depends on the entries on its path only. */
  lemma {:induction false} WalkLocal(t: Tables, root: nat, N: Shape, n: Node, t': Tables, v: nat)
    requires Tree(t, root, N)
    requires n in N && n.level <= 4 && OnPath(n, v)
    requires forall m :: m in N && m.level <= n.level && OnPath(m, v) ==>
               N[m] in t' && t'[N[m]][Index(m.level, v)] == t[N[m]][Index(m.level, v)]
    ensures LeafAt(t', N[n], n.level, v) == LeafAt(t, N[n], n.level, v)
    ensures WalkAt(t', N[n], n.level, v) == WalkAt(t, N[n], n.level, v)
    decreases n.level
  {
    assert TableOk(t, N, n);
    var i := Index(n.level, v);
    if IsLink(n.level, t[N[n]][i]) {
      assert DownOk(t, N, n, i);
      PathStep(n.level, v);
      WalkLocal(t, root, N, Child(n, i), t', v);
    }
  }

  /** Rewriting one entry leaves every page that does not go through it alone. */
  lemma WalkElsewhere(t: Tables, root: nat, N: Shape, n: Node, i: nat, t': Tables, v: nat)
    requires Tree(t, root, N) && n in N && i < 512 && v < PAGE_LIMIT
    requires SameBut(t, N, n, i, t')
    requires n.level <= 4 ==> !Through(n, i, v)
    ensures LeafOf(t', root, v) == LeafOf(t, root, v)
    ensures Walk(t', root, v) == Walk(t, root, v)
  {
    WalkLocal(t, root, N, Node(4, 0), t', v);
  }

  /** A walk that goes through entry i of n is decided there. */
  lemma WalkThrough(t: Tables, root: nat, N: Shape, n: Node, i: nat, v: nat)
    requires Tree(t, root, N) && n in N && n.level <= 4 && i < 512 && v < PAGE_LIMIT
    requires Through(n, i, v)
    ensures N[n] in t
    ensures var e := t[N[n]][i];
      LeafOf(t, root, v) ==
      if !e.present then NoLeaf
      else if IsLink(n.level, e) then LeafAt(t, e.frame, n.level - 1, v)
      else Leaf(Span(n.level - 1), e.frame)
    ensures var e := t[N[n]][i];
      Walk(t, root, v) ==
      if !e.present then Unmapped
      else if IsLink(n.level, e) then WalkAt(t, e.frame, n.level - 1, v)
      else Page(e.frame + v % Span(n.level - 1))
  {
    assert TableOk(t, N, n);
    WalkReaches(t, root, N, n, v);
  }

  /** K has all nodes of N that are reached without going through entry i at n. */
  ghost predicate Reached(N: Shape, K: Shape, n: Node, i: nat) {
    && (forall m :: m in K ==> m in N && K[m] == N[m])
    && forall m, k {:trigger Child(m, k)} ::
         m in K && 0 < m.level && 0 <= k < 512 && Child(m, k) in N && !(m == n && k == i) ==> Child(m, k) in K
  }

  /** Rewriting one entry keeps a page open that it keeps open from there on. */
  lemma {:induction false} OpenBut(t: Tables, root: nat, N: Shape, K: Shape, n: Node, i: nat, t': Tables, down: nat,
                                   m: Node, v: nat)
    requires Tree(t, root, N) && m in K && n in K && i < 512 && Reached(N, K, n, i)
    requires (forall j :: j in K ==> K[j] in t) && SameBut(t, K, n, i, t')
    requires 1 <= m.level <= 4 && OnPath(m, v) && 1 <= n.level <= 4
    requires Through(n, i, v) && Open(t, N[n], n.level, down, v) ==> Open(t', N[n], n.level, down, v)
    requires Open(t, N[m], m.level, down, v)
    ensures Open(t', N[m], m.level, down, v)
    decreases m.level
  {
    var k := Index(m.level, v);
    if !(m == n && k == i) && m.level >= down {
      var e := t[N[m]][k];
      assert t'[N[m]][k] == e;
      if IsLink(m.level, e) {
        assert DownOk(t, N, m, k);
        PathStep(m.level, v);
        OpenBut(t, root, N, K, n, i, t', down, Child(m, k), v);
      }
    }
  }

  /** No page loses access when the rewritten entry keeps it open for all pages that go
      through it. */
  lemma KeepsOpenBy(t: Tables, root: nat, N: Shape, K: Shape, n: Node, i: nat, t': Tables)
    requires Tree(t, root, N) && n in K && i < 512 && 1 <= n.level <= 4 && Reached(N, K, n, i) && Node(4, 0) in K
    requires (forall j :: j in K ==> K[j] in t) && SameBut(t, K, n, i, t')
    requires forall d: nat, v: nat :: 1 <= d <= 2 && v < PAGE_LIMIT && Through(n, i, v) && Open(t, N[n], n.level, d, v) ==>
               Open(t', N[n], n.level, d, v)
    ensures KeepsOpen(t, t', root)
  {
    hide Tree, SameBut, Reached, Open, Index;
    RootIsRoot(t, root, N);
    forall v: nat | v < PAGE_LIMIT
      ensures OpenPage(t, root, v) ==> OpenPage(t', root, v)
      ensures OpenWay(t, root, v) ==> OpenWay(t', root, v)
    {
      if OpenPage(t, root, v) { OpenBut(t, root, N, K, n, i, t', 1, Node(4, 0), v); }
      if OpenWay(t, root, v) { OpenBut(t, root, N, K, n, i, t', 2, Node(4, 0), v); }
    }
  }

  lemma RootIsRoot(t: Tables, root: nat, N: Shape)
    requires Tree(t, root, N)
    ensures Node(4, 0) in N && N[Node(4, 0)] == root && Injective(N)
    ensures forall m :: m in N ==> N[m] in t && 1 <= m.level <= 4
    ensures forall v: nat :: v < PAGE_LIMIT ==> OnPath(Node(4, 0), v)
  {
    assert forall m :: m in N ==> TableOk(t, N, m);
  }

  lemma {:induction false} OpenSame(t: Tables, root: nat, N: Shape, t': Tables, down: nat, m: Node, v: nat)
    requires Tree(t, root, N) && m in N && 1 <= m.level <= 4 && OnPath(m, v)
    requires forall n :: n in N ==> N[n] in t && N[n] in t' && t'[N[n]] == t[N[n]]
    requires Open(t, N[m], m.level, down, v)
    ensures Open(t', N[m], m.level, down, v)
    decreases m.level
  {
    var k := Index(m.level, v);
    if m.level >= down && IsLink(m.level, t[N[m]][k]) {
      assert DownOk(t, N, m, k);
      PathStep(m.level, v);
      OpenSame(t, root, N, t', down, Child(m, k), v);
    }
  }

  lemma SameTablesKeepOpen(t: Tables, root: nat, N: Shape, t': Tables)
    requires Tree(t, root, N)
    requires forall n :: n in N ==> N[n] in t && N[n] in t' && t'[N[n]] == t[N[n]]
    ensures KeepsOpen(t, t', root)
  {
    hide Tree, Open;
    RootIsRoot(t, root, N);
    forall v: nat | v < PAGE_LIMIT
      ensures OpenPage(t, root, v) ==> OpenPage(t', root, v)
      ensures OpenWay(t, root, v) ==> OpenWay(t', root, v)
    {
      if OpenPage(t, root, v) { OpenSame(t, root, N, t', 1, Node(4, 0), v); }
      if OpenWay(t, root, v) { OpenSame(t, root, N, t', 2, Node(4, 0), v); }
    }
  }

  /** In a tree, no walk strays, and large pages lie below the frame limit. */
  lemma {:induction false} WalkStays(t: Tables, root: nat, N: Shape, n: Node, v: nat)
    requires Tree(t, root, N)
    requires n in N && n.level <= 4 && OnPath(n, v)
    ensures n.level > 0 && WalkAt(t, N[n], n.level, v) != Stray
    ensures EndsLarge(t, N[n], n.level, v) ==>
              WalkAt(t, N[n], n.level, v).Page? && WalkAt(t, N[n], n.level, v).frame < FRAME_LIMIT
    decreases n.level
  {
    assert TableOk(t, N, n);
    var i := Index(n.level, v);
    assert EntryOk(n.level, t[N[n]][i]);
    if IsLink(n.level, t[N[n]][i]) {
      assert DownOk(t, N, n, i);
      PathStep(n.level, v);
      WalkStays(t, root, N, Child(n, i), v);
    }
  }

  /** The page is covered by a 1 GiB leaf. */
  predicate InGigabyteLeaf(t: Tables, root: nat, v: nat) {
    && root in t
    && var e4 := t[root][Index(4, v)];
       && e4.present && e4.frame in t
       && IsLargeLeaf(3, t[e4.frame][Index(3, v)])
  }

  ghost predicate NoNewGigabytes(t: Tables, t': Tables, root: nat) {
    forall v: nat :: v < PAGE_LIMIT && InGigabyteLeaf(t', root, v) ==> InGigabyteLeaf(t, root, v)
  }

  ghost predicate SameGigabytes(t: Tables, t': Tables, root: nat) {
    forall v: nat :: v < PAGE_LIMIT ==> InGigabyteLeaf(t', root, v) == InGigabyteLeaf(t, root, v)
  }

  /** A 1 GiB leaf is a leaf of 262144 pages. */
  lemma GigabyteIsLeaf(t: Tables, root: nat, v: nat)
    ensures InGigabyteLeaf(t, root, v) <==> LeafOf(t, root, v).Leaf? && LeafOf(t, root, v).span == 262144
  {
    if root in t && t[root][Index(4, v)].present {
      var f := t[root][Index(4, v)].frame;
      assert LeafOf(t, root, v) == LeafAt(t, f, 3, v);
      if f in t && IsLink(3, t[f][Index(3, v)]) {
        assert LeafAt(t, f, 3, v) == LeafAt(t, t[f][Index(3, v)].frame, 2, v);
      }
    }
  }

  /** In a tree, a 1 GiB leaf is an entry of a PDPT of the map. */
  lemma GigabyteAtNode(t: Tables, root: nat, N: Shape, v: nat)
    requires Tree(t, root, N) && v < PAGE_LIMIT
    ensures var n := Node(3, v / 134217728);
      InGigabyteLeaf(t, root, v) <==> (n in N && N[n] in t && IsLargeLeaf(3, t[N[n]][Index(3, v)]))
  {
    var n := Node(3, v / 134217728);
    PathNodes(v);
    assert TableOk(t, N, Node(4, 0));
    assert DownOk(t, N, Node(4, 0), Index(4, v));
    if n in N {
      assert UpOk(t, N, n);
      assert Index(4, v) == n.prefix % 512;
    }
  }

  /** A page map is not affected by what happens in frames outside it. */
  lemma FrameRule(t: Tables, root: nat, N: Shape, t': Tables)
    requires Tree(t, root, N)
    requires forall n :: n in N ==> N[n] in t && N[n] in t' && t'[N[n]] == t[N[n]]
    ensures Tree(t', root, N)
    ensures SameLeaves(t, t', root) && SameMeaning(t, t', root) && SameGigabytes(t, t', root)
  {
    forall n | n in N ensures TableOk(t', N, n) {
      assert TableOk(t, N, n);
      forall i | 0 <= i < 512 ensures EntryOk(n.level, t'[N[n]][i]) {
        assert EntryOk(n.level, t[N[n]][i]);
      }
    }
    forall n, i | n in N && i < 512 ensures DownOk(t', N, n, i) {
      assert DownOk(t, N, n, i);
    }
    forall n | n in N && n.level < 4 ensures UpOk(t', N, n) {
      assert UpOk(t, N, n);
    }
    forall v: nat | v < PAGE_LIMIT ensures LeafOf(t', root, v) == LeafOf(t, root, v) {
      WalkLocal(t, root, N, Node(4, 0), t', v);
    }
    SameTablesKeepOpen(t, root, N, t');
    SameLeavesShow(t, t', root);
    forall v: nat | v < PAGE_LIMIT ensures InGigabyteLeaf(t', root, v) == InGigabyteLeaf(t, root, v) {
      GigabyteAtNode(t, root, N, v);
      GigabyteAtNode(t', root, N, v);
    }
  }

  // ----- grafting a new table under an entry -----

  /** The entry i of n, which linked to nothing, now links to the new table in
      frame g, and that table holds no links itself. */
  ghost predicate Grafts(t: Tables, N: Shape, n: Node, i: nat, g: nat, t': Tables)
    requires n in N && i < 512
  {
    && 2 <= n.level <= 4
    && (forall m :: m in N ==> N[m] in t && N[m] != g)
    && SameBut(t, N, n, i, t')
    && !IsLink(n.level, t[N[n]][i])
    && IsLink(n.level, t'[N[n]][i]) && t'[N[n]][i].frame == g
    && EntryOk(n.level, t'[N[n]][i])
    && g in t'
    && (forall k {:trigger t'[g][k]} :: 0 <= k < 512 ==> !IsLink(n.level - 1, t'[g][k]) && EntryOk(n.level - 1, t'[g][k]))
  }

  lemma GraftIsFresh(t: Tables, root: nat, N: Shape, n: Node, i: nat)
    requires Tree(t, root, N) && n in N && i < 512 && 2 <= n.level <= 4
    requires N[n] in t && !IsLink(n.level, t[N[n]][i])
    ensures Child(n, i) !in N
  {
    assert Child(n, i) in N ==> UpOk(t, N, Child(n, i));
  }

  lemma GraftKeepsTree(t: Tables, root: nat, N: Shape, n: Node, i: nat, g: nat, t': Tables)
    requires Tree(t, root, N) && n in N && i < 512
    requires Grafts(t, N, n, i, g, t')
    ensures Child(n, i) !in N
    ensures Tree(t', root, N[Child(n, i) := g])
  {
    GraftIsFresh(t, root, N, n, i);
    var c := Child(n, i);
    var N' := N[c := g];
    forall m | m in N' ensures TableOk(t', N', m) {
      if m != c {
        assert TableOk(t, N, m);
        forall k | 0 <= k < 512 ensures EntryOk(m.level, t'[N'[m]][k]) {
          assert EntryOk(m.level, t[N[m]][k]);
        }
      } else {
        assert TableOk(t, N, n);
      }
    }
    forall m, k | m in N' && k < 512 ensures DownOk(t', N', m, k) {
      if m != c {
        assert DownOk(t, N, m, k);
        if Child(m, k) == c { assert m == n && k == i; }
      }
    }
    forall m | m in N' && m.level < 4 ensures UpOk(t', N', m) {
      if m == c {
        assert Parent(c) == n;
      } else {
        assert UpOk(t, N, m);
      }
    }
  }

  /** The graft is invisible when the new table answers, for every page that goes
      through the entry, what the entry answered before. */
  lemma GraftKeepsWalk(t: Tables, root: nat, N: Shape, n: Node, i: nat, g: nat, t': Tables, v: nat)
    requires Tree(t, root, N) && n in N && i < 512 && v < PAGE_LIMIT
    requires Grafts(t, N, n, i, g, t')
    requires Through(n, i, v) ==>
               var k, e := Index(n.level - 1, v), t[N[n]][i];
               if !e.present then !t'[g][k].present
               else t'[g][k].present && t'[g][k].frame + v % Span(n.level - 2) == e.frame + v % Span(n.level - 1)
    ensures Walk(t', root, v) == Walk(t, root, v)
    ensures !t[N[n]][i].present || !Through(n, i, v) ==> LeafOf(t', root, v) == LeafOf(t, root, v)
  {
    if Through(n, i, v) {
      GraftKeepsTree(t, root, N, n, i, g, t');
      var N' := N[Child(n, i) := g];
      WalkThrough(t, root, N, n, i, v);
      WalkThrough(t', root, N', n, i, v);
      assert !IsLink(n.level - 1, t'[g][Index(n.level - 1, v)]);
    } else {
      WalkElsewhere(t, root, N, n, i, t', v);
    }
  }

  // ----- the entry writes of the code -----

  /** vmm_pt_entry_set_address: only the address field changes. */
  function SetAddress(e: Entry, frame: nat): Entry {
    e.(frame := frame % FRAME_LIMIT)
  }

  /** An absent entry is pointed at a table and marked writable and present. */
  function LinkEntry(e: Entry, g: nat): Entry {
    SetAddress(e, g).(writable := true, present := true)
  }

  /** The low eight flag bits of an entry, set on top of those it has. */
  function OrFlags(e: Entry, flags: bv8): Entry {
    Entry(e.present || flags & 1 != 0, e.writable || flags & 2 != 0, e.large || flags & 0x80 != 0,
          e.other | ((flags & 0x7C) as bv64), e.frame)
  }

  /** The PT entry a mapping request writes: built from zero, so that no old bit stays. */
  function MappedEntry(frame: nat, flags: bv8): Entry {
    OrFlags(SetAddress(ZERO_ENTRY, frame), flags).(present := true)
  }

  lemma MappedEntryIs(p: nat, flags: bv8)
    ensures OrFlags(SetAddress(ZERO_ENTRY, p), flags).(present := true) == MappedEntry(p % FRAME_LIMIT, flags)
    ensures MappedEntry(p % FRAME_LIMIT, flags).present && MappedEntry(p % FRAME_LIMIT, flags).frame == p % FRAME_LIMIT
  {
  }

  /** An entry with the large-page flag set and a new address. */
  function LargeEntry(e: Entry, p: nat): Entry {
    SetAddress(e.(large := true), p)
  }

  /** The PT entry of page v in a page map of shape N is e. */
  ghost predicate HasLeaf(t: Tables, N: Shape, v: nat, e: Entry) {
    Node(1, v / 512) in N && N[Node(1, v / 512)] in t && t[N[Node(1, v / 512)]][v % 512] == e
  }

  /** The entry that replaces a large leaf: built from zero, so it is not large. */
  function SplitEntry(g: nat): Entry {
    LinkEntry(ZERO_ENTRY, g)
  }

  /** The table that replaces a large leaf at `level`.  The code marks none of its
      entries large (keepFlag is false); marking the 512 entries of a new PD large
      is the named repair (keepFlag is true). */
  function SplitTable(level: nat, base: nat, keepFlag: bool): Table
    requires 2 <= level <= 3
  {
    seq(512, k requires k >= 0 => SplitPiece(level, base, keepFlag, k))
  }

  function SplitPiece(level: nat, base: nat, keepFlag: bool, k: nat): Entry
    requires 2 <= level <= 3
  {
    Entry(true, true, level == 3 && keepFlag, 0, (base + k * Span(level - 2)) % FRAME_LIMIT)
  }

  /** t after the entry i of the table in f is pointed at the zeroed frame g. */
  function WithNewTable(t: Tables, f: nat, i: nat, g: nat): Tables
    requires f in t && i < 512 && g != f
  {
    t[g := ZeroTable()][f := t[f][i := LinkEntry(t[f][i], g)]]
  }

  /** t after the large leaf in entry i of the table in f is split over g. */
  function WithSplit(t: Tables, f: nat, i: nat, level: nat, g: nat, keepFlag: bool): Tables
    requires f in t && i < 512 && g != f && 2 <= level <= 3
  {
    t[g := SplitTable(level, t[f][i].frame, keepFlag)][f := t[f][i := SplitEntry(g)]]
  }

  function WithEntry(t: Tables, f: nat, i: nat, e: Entry): Tables
    requires f in t && i < 512
  {
    t[f := t[f][i := e]]
  }

  /** Filling in a missing table keeps the tree and every translation. */
  lemma NewTableKeepsMeaning(t: Tables, root: nat, N: Shape, n: Node, i: nat, g: nat)
    requires Tree(t, root, N) && n in N && 2 <= n.level && i < 512
    requires N[n] in t && !t[N[n]][i].present
    requires g !in N.Values && g < FRAME_LIMIT
    ensures g != N[n] && Child(n, i) !in N
    ensures Tree(WithNewTable(t, N[n], i, g), root, N[Child(n, i) := g])
    ensures SameLeaves(t, WithNewTable(t, N[n], i, g), root)
    ensures SameMeaning(t, WithNewTable(t, N[n], i, g), root)
  {
    assert forall m :: m in N ==> N[m] in N.Values;
    assert forall m :: m in N ==> TableOk(t, N, m);
    var t' := WithNewTable(t, N[n], i, g);
    GraftKeepsTree(t, root, N, n, i, g, t');
    forall v: nat | v < PAGE_LIMIT ensures LeafOf(t', root, v) == LeafOf(t, root, v) {
      GraftKeepsWalk(t, root, N, n, i, g, t', v);
    }
    NewTableKeepsOpen(t, root, N, n, i, g);
    SameLeavesShow(t, t', root);
  }

  lemma AllReached(N: Shape, n: Node, i: nat)
    ensures Reached(N, N, n, i)
  {
  }

  lemma NewTableKeepsOpen(t: Tables, root: nat, N: Shape, n: Node, i: nat, g: nat)
    requires Tree(t, root, N) && n in N && 2 <= n.level && i < 512
    requires N[n] in t && !t[N[n]][i].present
    requires g !in N.Values && g < FRAME_LIMIT && g != N[n]
    ensures KeepsOpen(t, WithNewTable(t, N[n], i, g), root)
  {
    hide Tree, KeepsOpen;
    RootIsRoot(t, root, N);
    AllReached(N, n, i);
    assert forall m :: m in N ==> N[m] in N.Values;
    KeepsOpenBy(t, root, N, N, n, i, WithNewTable(t, N[n], i, g));
  }

  /** The pieces of a split page are all writable and have no other attribute: they have
      those of the page exactly when the page was so itself. */
  lemma SplitKeepsAccessIff(level: nat, e: Entry, keepFlag: bool)
    requires 2 <= level <= 3
    ensures (forall k :: 0 <= k < 512 ==>
               var piece := SplitTable(level, e.frame, keepFlag)[k]; piece.writable == e.writable && piece.other == e.other)
            <==> e.writable && e.other == 0
  {
    assert SplitTable(level, e.frame, keepFlag)[0].writable && SplitTable(level, e.frame, keepFlag)[0].other == 0;
  }

  lemma SplitKeepsOpen(t: Tables, root: nat, N: Shape, n: Node, i: nat, g: nat, keepFlag: bool)
    requires Tree(t, root, N) && n in N && i < 512
    requires N[n] in t && IsLargeLeaf(n.level, t[N[n]][i]) && (n.level == 2 || keepFlag)
    requires g !in N.Values && g < FRAME_LIMIT && g != N[n]
    ensures KeepsOpen(t, WithSplit(t, N[n], i, n.level, g, keepFlag), root)
  {
    hide Tree, KeepsOpen;
    RootIsRoot(t, root, N);
    AllReached(N, n, i);
    assert forall m :: m in N ==> N[m] in N.Values;
    KeepsOpenBy(t, root, N, N, n, i, WithSplit(t, N[n], i, n.level, g, keepFlag));
  }

  lemma SplitOffset(level: nat, v: nat)
    requires 2 <= level <= 3
    ensures v % Span(level - 1) == Index(level - 1, v) * Span(level - 2) + v % Span(level - 2)
  {
    PathStep(level - 1, v);
  }

  /** The pieces of a split leaf lie one after the other from its base. */
  lemma SplitGrafts(t: Tables, root: nat, N: Shape, n: Node, i: nat, g: nat, keepFlag: bool)
    requires Tree(t, root, N) && n in N && i < 512
    requires N[n] in t && IsLargeLeaf(n.level, t[N[n]][i])
    requires n.level == 2 || keepFlag
    requires g !in N.Values && g < FRAME_LIMIT
    ensures g != N[n]
    ensures Grafts(t, N, n, i, g, WithSplit(t, N[n], i, n.level, g, keepFlag))
    ensures forall k {:trigger SplitTable(n.level, t[N[n]][i].frame, keepFlag)[k]} :: 0 <= k < 512 ==>
              SplitTable(n.level, t[N[n]][i].frame, keepFlag)[k] ==
              Entry(true, true, n.level == 3, 0, t[N[n]][i].frame + k * Span(n.level - 2))
  {
    assert forall m :: m in N ==> N[m] in N.Values;
    assert forall m :: m in N ==> TableOk(t, N, m);
    var base := t[N[n]][i].frame;
    assert EntryOk(n.level, t[N[n]][i]);
    assert base + Span(n.level - 1) <= FRAME_LIMIT;
    forall k: nat | k < 512
      ensures SplitPiece(n.level, base, keepFlag, k) == Entry(true, true, n.level == 3, 0, base + k * Span(n.level - 2))
    {
      assert base + k * Span(n.level - 2) < FRAME_LIMIT;
    }
  }

  /** Splitting a large page keeps the tree and every translation: as the code
      stands for a 2 MiB page, and with the flag kept for a 1 GiB page. */
  lemma SplitKeepsMeaning(t: Tables, root: nat, N: Shape, n: Node, i: nat, g: nat, keepFlag: bool)
    requires Tree(t, root, N) && n in N && i < 512
    requires N[n] in t && IsLargeLeaf(n.level, t[N[n]][i])
    requires n.level == 2 || keepFlag
    requires g !in N.Values && g < FRAME_LIMIT
    ensures g != N[n] && Child(n, i) !in N
    ensures Tree(WithSplit(t, N[n], i, n.level, g, keepFlag), root, N[Child(n, i) := g])
    ensures SameMeaning(t, WithSplit(t, N[n], i, n.level, g, keepFlag), root)
  {
    SplitGrafts(t, root, N, n, i, g, keepFlag);
    var t' := WithSplit(t, N[n], i, n.level, g, keepFlag);
    GraftKeepsTree(t, root, N, n, i, g, t');
    forall v: nat | v < PAGE_LIMIT ensures Walk(t', root, v) == Walk(t, root, v) {
      SplitOffset(n.level, v);
      assert Through(n, i, v) ==> Index(n.level - 1, v) < 512;
      GraftKeepsWalk(t, root, N, n, i, g, t', v);
    }
    SplitKeepsOpen(t, root, N, n, i, g, keepFlag);
  }

  // ----- writing a leaf -----

  /** Writing an entry of a PT changes the translation of one page, and the access to
      no other. */
  lemma LeafWrite(t: Tables, root: nat, N: Shape, v: nat, e: Entry)
    requires Tree(t, root, N) && v < PAGE_LIMIT
    requires Node(1, v / 512) in N && N[Node(1, v / 512)] in t
    requires !e.present ==> !e.large
    ensures Tree(WithEntry(t, N[Node(1, v / 512)], v % 512, e), root, N)
    ensures (OpenEntry(t[N[Node(1, v / 512)]][v % 512]) ==> OpenEntry(e)) ==>
              LeafUpdate(t, WithEntry(t, N[Node(1, v / 512)], v % 512, e), root, v, 1,
                         if e.present then Leaf(1, e.frame) else NoLeaf)
    ensures PointUpdate(t, WithEntry(t, N[Node(1, v / 512)], v % 512, e), root, v,
                        if e.present then Page(e.frame) else Unmapped)
    ensures OpenEntry(e) ==> Opens(t, WithEntry(t, N[Node(1, v / 512)], v % 512, e), root, v)
  {
    hide LeafAt, LeafChange, KeepsOpen, KeepsOpenBut, Open;
    var n, i := Node(1, v / 512), v % 512;
    WriteKeepsTree(t, root, N, n, i, e);
    WriteLeaf(t, root, N, v, e, WithEntry(t, N[n], i, e));
    WriteOpen(t, root, N, v, e);
    PageLeafShows(t, WithEntry(t, N[n], i, e), root, v, if e.present then Leaf(1, e.frame) else NoLeaf);
  }

  /** What writing an entry of a PT does to the access. */
  lemma WriteOpen(t: Tables, root: nat, N: Shape, v: nat, e: Entry)
    requires Tree(t, root, N) && v < PAGE_LIMIT
    requires Node(1, v / 512) in N && N[Node(1, v / 512)] in t
    ensures var t' := WithEntry(t, N[Node(1, v / 512)], v % 512, e);
      && KeepsOpenBut(t, t', root, v)
      && ((OpenEntry(t[N[Node(1, v / 512)]][v % 512]) ==> OpenEntry(e)) ==> KeepsOpen(t, t', root))
      && (OpenEntry(e) ==> Opens(t, t', root, v))
  {
    hide Tree, Injective;
    RootIsRoot(t, root, N);
    var n, i := Node(1, v / 512), v % 512;
    var t' := WithEntry(t, N[n], i, e);
    OneTableChanged(t, root, N, n, i, e);
    forall u: nat | u < PAGE_LIMIT
      ensures u != v && OpenPage(t, root, u) ==> OpenPage(t', root, u)
      ensures OpenWay(t, root, u) ==> OpenWay(t', root, u)
      ensures OpenPage(t, root, u) && (OpenEntry(t[N[n]][i]) ==> OpenEntry(e)) ==> OpenPage(t', root, u)
      ensures OpenWay(t, root, u) && u == v && OpenEntry(e) ==> OpenPage(t', root, u)
    {
      WriteOpenAt(t, root, N, v, e, Node(4, 0), u);
    }
  }

  lemma OneTableChanged(t: Tables, root: nat, N: Shape, n: Node, i: nat, e: Entry)
    requires Tree(t, root, N) && n in N && N[n] in t && i < 512
    ensures forall m :: m in N ==>
              && N[m] in t && N[m] in WithEntry(t, N[n], i, e) && 1 <= m.level <= 4
              && (m != n ==> WithEntry(t, N[n], i, e)[N[m]] == t[N[m]])
  {
    assert forall m :: m in N ==> TableOk(t, N, m);
  }

  lemma {:induction false} WriteOpenAt(t: Tables, root: nat, N: Shape, v: nat, e: Entry, m: Node, u: nat)
    requires Tree(t, root, N) && v < PAGE_LIMIT && u < PAGE_LIMIT
    requires Node(1, v / 512) in N && N[Node(1, v / 512)] in t && m in N && 1 <= m.level <= 4 && OnPath(m, u)
    ensures var n, t' := Node(1, v / 512), WithEntry(t, N[Node(1, v / 512)], v % 512, e);
      && (Open(t, N[m], m.level, 1, u) && (u == v && OpenEntry(t[N[n]][v % 512]) ==> OpenEntry(e)) ==>
            Open(t', N[m], m.level, 1, u))
      && (Open(t, N[m], m.level, 2, u) ==> Open(t', N[m], m.level, 2, u))
      && (Open(t, N[m], m.level, 2, u) && u == v && OpenEntry(e) ==> Open(t', N[m], m.level, 1, u))
    decreases m.level
  {
    OneTableChanged(t, root, N, Node(1, v / 512), v % 512, e);
    var k := Index(m.level, u);
    if IsLink(m.level, t[N[m]][k]) {
      assert DownOk(t, N, m, k);
      PathStep(m.level, u);
      WriteOpenAt(t, root, N, v, e, Child(m, k), u);
    }
  }

  /** An entry of a PT may be rewritten: a PT has no links. */
  lemma WriteKeepsTree(t: Tables, root: nat, N: Shape, n: Node, i: nat, e: Entry)
    requires Tree(t, root, N) && n in N && n.level == 1 && N[n] in t && i < 512
    requires !e.present ==> !e.large
    ensures Tree(WithEntry(t, N[n], i, e), root, N)
    ensures forall m :: m in N ==> N[m] in t
    ensures SameBut(t, N, n, i, WithEntry(t, N[n], i, e))
  {
    var t' := WithEntry(t, N[n], i, e);
    assert forall m :: m in N ==> TableOk(t, N, m);
    forall m | m in N ensures TableOk(t', N, m) {
      forall k | 0 <= k < 512 ensures EntryOk(m.level, t'[N[m]][k]) {
        assert EntryOk(m.level, t[N[m]][k]);
      }
    }
    forall m, k | m in N && k < 512 ensures DownOk(t', N, m, k) {
      assert DownOk(t, N, m, k);
    }
    forall m | m in N && m.level < 4 ensures UpOk(t', N, m) {
      assert UpOk(t, N, m);
    }
  }

  lemma WriteLeaf(t: Tables, root: nat, N: Shape, v: nat, e: Entry, t': Tables)
    requires Tree(t, root, N) && Tree(t', root, N) && v < PAGE_LIMIT && Node(1, v / 512) in N
    requires forall m :: m in N ==> N[m] in t
    requires SameBut(t, N, Node(1, v / 512), v % 512, t') && t'[N[Node(1, v / 512)]][v % 512] == e
    ensures LeafChange(t, t', root, v, 1, if e.present then Leaf(1, e.frame) else NoLeaf)
  {
    hide Tree;
    var n, i := Node(1, v / 512), v % 512;
    forall u: nat | u < PAGE_LIMIT
      ensures LeafOf(t', root, u) ==
              if u == v then (if e.present then Leaf(1, e.frame) else NoLeaf) else LeafOf(t, root, u)
    {
      if u == v {
        WalkThrough(t', root, N, n, i, u);
      } else {
        WalkElsewhere(t, root, N, n, i, t', u);
      }
    }
  }

  // ----- replacing a whole subtree by a large leaf -----

  /** m is c or below it. */
  predicate Below(c: Node, m: Node) {
    m == c || (c.level == 2 && m.level == 1 && m.prefix / 512 == c.prefix)
  }

  /** The shape without the table at c and the tables below it. */
  ghost function Without(N: Shape, c: Node): Shape {
    map m | m in N && !Below(c, m) :: N[m]
  }

  /** The entry i of n, whatever was below it, becomes a large leaf.  The tables
      below it may hold anything from then on. */
  ghost predicate Prunes(t: Tables, N: Shape, n: Node, i: nat, t': Tables)
    requires n in N && i < 512
  {
    && 2 <= n.level <= 3
    && (forall m :: m in N ==> N[m] in t)
    && N[n] in t'
    && SameBut(t, Without(N, Child(n, i)), n, i, t')
    && IsLargeLeaf(n.level, t'[N[n]][i])
    && EntryOk(n.level, t'[N[n]][i])
  }

  lemma PruneKeepsTree(t: Tables, root: nat, N: Shape, n: Node, i: nat, t': Tables)
    requires Tree(t, root, N) && n in N && i < 512
    requires Prunes(t, N, n, i, t')
    ensures Tree(t', root, Without(N, Child(n, i)))
  {
    var c := Child(n, i);
    var N' := Without(N, c);
    assert forall m :: m in N ==> TableOk(t, N, m);
    forall m | m in N' ensures TableOk(t', N', m) {
      forall k | 0 <= k < 512 ensures EntryOk(m.level, t'[N'[m]][k]) {
        assert EntryOk(m.level, t[N[m]][k]);
      }
    }
    forall m, k | m in N' && k < 512 ensures DownOk(t', N', m, k) {
      assert DownOk(t, N, m, k);
      assert Parent(Child(m, k)) == m && Child(m, k).prefix % 512 == k;
    }
    forall m | m in N' && m.level < 4 ensures UpOk(t', N', m) {
      assert UpOk(t, N, m);
    }
  }

  lemma PruneOutside(t: Tables, root: nat, N: Shape, n: Node, i: nat, t': Tables, u: nat)
    requires Tree(t, root, N) && n in N && i < 512 && u < PAGE_LIMIT
    requires Prunes(t, N, n, i, t') && !Through(n, i, u)
    ensures LeafOf(t', root, u) == LeafOf(t, root, u)
  {
    var c := Child(n, i);
    PathStep(n.level, u);
    PathStep(2, u);
    forall m | m in N && m.level <= 4 && OnPath(m, u)
      ensures N[m] in t' && t'[N[m]][Index(m.level, u)] == t[N[m]][Index(m.level, u)]
    {
      assert TableOk(t, N, m);
      assert m in Without(N, c);
    }
    WalkLocal(t, root, N, Node(4, 0), t', u);
  }

  /** The pages under the new large leaf get consecutive frames; no other page is
      affected. */
  lemma PruneMeaning(t: Tables, root: nat, N: Shape, n: Node, i: nat, t': Tables, v: nat, p: nat)
    requires Tree(t, root, N) && n in N && i < 512
    requires Prunes(t, N, n, i, t') && t'[N[n]][i].frame == p
    requires v < PAGE_LIMIT && Through(n, i, v) && v % Span(n.level - 1) == 0
    ensures LeafChange(t, t', root, v, Span(n.level - 1), Leaf(Span(n.level - 1), p))
    ensures (OpenEntry(t[N[n]][i]) ==> OpenEntry(t'[N[n]][i])) ==>
              LeafUpdate(t, t', root, v, Span(n.level - 1), Leaf(Span(n.level - 1), p))
    ensures RangeUpdate(t, t', root, v, Span(n.level - 1), p)
  {
    hide LeafChange, KeepsOpen;
    PruneLeaf(t, root, N, n, i, t', v, p);
    LargeLeafShows(t, t', root, v, n.level, p);
    if OpenEntry(t[N[n]][i]) ==> OpenEntry(t'[N[n]][i]) { PruneKeepsOpen(t, root, N, n, i, t'); }
  }

  lemma PruneKeepsOpen(t: Tables, root: nat, N: Shape, n: Node, i: nat, t': Tables)
    requires Tree(t, root, N) && n in N && i < 512 && Prunes(t, N, n, i, t')
    requires OpenEntry(t[N[n]][i]) ==> OpenEntry(t'[N[n]][i])
    ensures KeepsOpen(t, t', root)
  {
    hide Tree, KeepsOpen;
    var K := Without(N, Child(n, i));
    RootIsRoot(t, root, N);
    forall m, k | m in K && 0 < m.level && 0 <= k < 512 && Child(m, k) in N && !(m == n && k == i)
      ensures Child(m, k) in K
    {
      assert Parent(Child(m, k)) == m && Child(m, k).prefix % 512 == k;
    }
    assert Reached(N, K, n, i);
    KeepsOpenBy(t, root, N, K, n, i, t');
  }

  lemma PruneLeaf(t: Tables, root: nat, N: Shape, n: Node, i: nat, t': Tables, v: nat, p: nat)
    requires Tree(t, root, N) && n in N && i < 512
    requires Prunes(t, N, n, i, t') && t'[N[n]][i].frame == p
    requires v < PAGE_LIMIT && Through(n, i, v) && v % Span(n.level - 1) == 0
    ensures LeafChange(t, t', root, v, Span(n.level - 1), Leaf(Span(n.level - 1), p))
  {
    PruneKeepsTree(t, root, N, n, i, t');
    PathStep(n.level, v);
    forall u: nat | u < PAGE_LIMIT
      ensures LeafOf(t', root, u) ==
              if v <= u < v + Span(n.level - 1) then Leaf(Span(n.level - 1), p) else LeafOf(t, root, u)
    {
      PathStep(n.level, u);
      SameLeaf(n.level, v, u);
      if Through(n, i, u) {
        WalkThrough(t', root, Without(N, Child(n, i)), n, i, u);
      } else {
        PruneOutside(t, root, N, n, i, t', u);
      }
    }
  }

  /** The pages that share one entry's large page are the span above its base. */
  lemma SameLeaf(level: nat, v: nat, u: nat)
    requires 2 <= level <= 3 && v % Span(level - 1) == 0
    ensures u / Span(level - 1) == v / Span(level - 1) <==> v <= u < v + Span(level - 1)
    ensures v <= u < v + Span(level - 1) ==> u % Span(level - 1) == u - v
  {
    var s := Span(level - 1);
    assert v == v / s * s;
    assert u == u / s * s + u % s;
  }

  // ----- the 1 GiB split as the code stands -----

  /** The tables decide the shape. */
  lemma {:induction false} ShapeUnique(t: Tables, root: nat, N: Shape, M: Shape, n: Node)
    requires Tree(t, root, N) && Tree(t, root, M) && n in N
    ensures n in M && M[n] == N[n]
    decreases 4 - n.level
  {
    assert TableOk(t, N, n);
    if n.level == 4 {
      assert n == Node(4, 0);
    } else {
      assert UpOk(t, N, n);
      assert TableOk(t, N, Parent(n));
      ShapeUnique(t, root, N, M, Parent(n));
      assert DownOk(t, M, Parent(n), n.prefix % 512);
      assert Child(Parent(n), n.prefix % 512) == n;
    }
  }

  /** Pointing a leaf entry somewhere else leaves all old tables where they were. */
  lemma {:induction false} ShapeGrows(t: Tables, t': Tables, root: nat, N: Shape, M: Shape, n: Node, i: nat, m: Node)
    requires Tree(t, root, N) && Tree(t', root, M)
    requires n in N && i < 512 && m in N
    requires SameBut(t, N, n, i, t')
    requires n.level > 0 && N[n] in t && !IsLink(n.level, t[N[n]][i])
    ensures m in M && M[m] == N[m]
    decreases 4 - m.level
  {
    assert TableOk(t, N, m);
    if m.level == 4 {
      assert m == Node(4, 0);
    } else {
      assert UpOk(t, N, m);
      var q := Parent(m);
      assert TableOk(t, N, q);
      ShapeGrows(t, t', root, N, M, n, i, q);
      assert t'[N[q]][m.prefix % 512] == t[N[q]][m.prefix % 512];
      assert DownOk(t', M, q, m.prefix % 512);
      assert Child(q, m.prefix % 512) == m;
    }
  }

  /** Whatever shape M is tried for the tables after the flagless split: the new table
      is at the entry's child, and the first frame of the gigabyte at the child of
      that. */
  lemma FlaglessLinks(t: Tables, root: nat, N: Shape, n: Node, i: nat, g: nat, M: Shape)
    requires Tree(t, root, N) && n in N && i < 512
    requires N[n] in t && n.level == 3 && IsLargeLeaf(n.level, t[N[n]][i])
    requires g !in N.Values && g < FRAME_LIMIT && g != N[n]
    requires Tree(WithSplit(t, N[n], i, 3, g, false), root, M)
    ensures var c, d := Child(n, i), Child(Child(n, i), 0);
      && c in M && M[c] == g && d in M && M[d] == t[N[n]][i].frame
      && forall m :: m in N ==> m in M && M[m] == N[m]
  {
    var base, t' := t[N[n]][i].frame, WithSplit(t, N[n], i, 3, g, false);
    assert forall m :: m in N ==> N[m] in N.Values;
    assert forall m :: m in N ==> TableOk(t, N, m);
    assert EntryOk(3, t[N[n]][i]);
    var c := Child(n, i);
    forall m | m in N ensures m in M && M[m] == N[m] {
      ShapeGrows(t, t', root, N, M, n, i, m);
    }
    assert DownOk(t', M, n, i);
    assert t'[g][0] == SplitPiece(3, base, false, 0);
    assert TableOk(t', M, c);
    assert DownOk(t', M, c, 0);
  }

  /** The child of an entry that links to nothing is no node, nor is anything below. */
  lemma NothingBelow(t: Tables, root: nat, N: Shape, n: Node, i: nat)
    requires Tree(t, root, N) && n in N && i < 512 && n.level == 3
    requires N[n] in t && !IsLink(n.level, t[N[n]][i])
    ensures Child(n, i) !in N && Child(Child(n, i), 0) !in N
  {
    GraftIsFresh(t, root, N, n, i);
    var c, d := Child(n, i), Child(Child(n, i), 0);
    assert Parent(d) == c;
    assert d in N ==> UpOk(t, N, d);
  }

  /** Without the flag, splitting a 1 GiB page links frames of the mapped memory
      itself as page tables: whatever shape one tries, some frame is linked that
      is neither one of the old tables nor the new one, or is linked twice. */
  lemma FlaglessSplitBreaksTree(t: Tables, root: nat, N: Shape, n: Node, i: nat, g: nat, M: Shape)
    requires Tree(t, root, N) && n in N && i < 512
    requires N[n] in t && n.level == 3 && IsLargeLeaf(n.level, t[N[n]][i])
    requires g !in N.Values && g < FRAME_LIMIT && g != N[n]
    requires M.Values <= N.Values + {g}
    ensures !Tree(WithSplit(t, N[n], i, 3, g, false), root, M)
  {
    NothingBelow(t, root, N, n, i);
    if Tree(WithSplit(t, N[n], i, 3, g, false), root, M) {
      FlaglessLinks(t, root, N, n, i, g, M);
      ThirdTable(N, M, Child(n, i), Child(Child(n, i), 0), g);
    }
  }

  /** A shape with all of N, a table g at c and one more table at d uses a frame that
      is neither N's nor g. */
  lemma ThirdTable(N: Shape, M: Shape, c: Node, d: Node, g: nat)
    requires Injective(M) && c in M && M[c] == g && d in M && c != d && d !in N
    requires forall m :: m in N ==> m in M && M[m] == N[m]
    ensures !(M.Values <= N.Values + {g})
  {
    assert M[d] in M.Values;
  }

  lemma FlaglessSplitBreaksTrees(t: Tables, root: nat, N: Shape, n: Node, i: nat, g: nat)
    requires Tree(t, root, N) && n in N && i < 512
    requires N[n] in t && n.level == 3 && IsLargeLeaf(n.level, t[N[n]][i])
    requires g !in N.Values && g < FRAME_LIMIT && g != N[n]
    ensures forall M: Shape :: M.Values <= N.Values + {g} ==> !Tree(WithSplit(t, N[n], i, 3, g, false), root, M)
  {
    forall M: Shape | M.Values <= N.Values + {g} ensures !Tree(WithSplit(t, N[n], i, 3, g, false), root, M) {
      FlaglessSplitBreaksTree(t, root, N, n, i, g, M);
    }
  }

  /** Exactly when the split gives back a page map made of the VMM's own tables:
      for a 2 MiB page always, for a 1 GiB page only with the flag kept.  When it
      does, no translation changes. */
  lemma SplitIsSoundIff(t: Tables, root: nat, N: Shape, n: Node, i: nat, g: nat, keepFlag: bool)
    requires Tree(t, root, N) && n in N && i < 512
    requires N[n] in t && IsLargeLeaf(n.level, t[N[n]][i])
    requires g !in N.Values && g < FRAME_LIMIT && g != N[n]
    ensures (exists M: Shape :: M.Values <= N.Values + {g} && Tree(WithSplit(t, N[n], i, n.level, g, keepFlag), root, M))
            <==> (n.level == 2 || keepFlag)
    ensures n.level == 2 || keepFlag ==> SameMeaning(t, WithSplit(t, N[n], i, n.level, g, keepFlag), root)
  {
    if n.level == 2 || keepFlag {
      SplitKeepsMeaning(t, root, N, n, i, g, keepFlag);
      var M := N[Child(n, i) := g];
      assert M.Values <= N.Values + {g};
    } else {
      FlaglessSplitBreaksTrees(t, root, N, n, i, g);
    }
  }

  lemma TwoLinks(t: Tables, f: nat, g: nat, h: nat, v: nat)
    requires f in t && g in t
    requires IsLink(3, t[f][Index(3, v)]) && t[f][Index(3, v)].frame == g
    requires IsLink(2, t[g][Index(2, v)]) && t[g][Index(2, v)].frame == h
    ensures WalkAt(t, f, 3, v) == WalkAt(t, h, 1, v)
  {
    assert WalkAt(t, g, 2, v) == WalkAt(t, h, 1, v);
  }

  lemma SplitLeavesAncestors(t: Tables, root: nat, N: Shape, n: Node, i: nat, g: nat)
    requires Tree(t, root, N) && n in N && i < 512 && n.level == 3
    requires N[n] in t && g !in N.Values && g != N[n]
    ensures forall m :: m in N && m.level > n.level ==>
              N[m] in t && N[m] in WithSplit(t, N[n], i, 3, g, false) && WithSplit(t, N[n], i, 3, g, false)[N[m]] == t[N[m]]
  {
    forall m | m in N && m.level > n.level ensures N[m] in t && N[m] != g && N[m] != N[n] {
      assert TableOk(t, N, m);
      assert N[m] in N.Values;
    }
  }

  /** What the flagless split does to the walk of every page of the gigabyte: it
      reads the first frame of the page's 2 MiB piece as if it were a page table. */
  lemma FlaglessSplitReadsData(t: Tables, root: nat, N: Shape, n: Node, i: nat, g: nat, v: nat)
    requires Tree(t, root, N) && n in N && i < 512 && v < PAGE_LIMIT
    requires N[n] in t && n.level == 3 && IsLargeLeaf(n.level, t[N[n]][i]) && Through(n, i, v)
    requires g !in N.Values && g < FRAME_LIMIT && g != N[n]
    ensures Walk(t, root, v) == Page(t[N[n]][i].frame + v % 262144)
    ensures Walk(WithSplit(t, N[n], i, 3, g, false), root, v) ==
            WalkAt(WithSplit(t, N[n], i, 3, g, false), t[N[n]][i].frame + v / 512 % 512 * 512, 1, v)
  {
    hide Walk, WalkAt, Tree, WithSplit, Open, Needs, EndsLarge;
    var t' := WithSplit(t, N[n], i, 3, g, false);
    LargeWalk(t, root, N, n, i, v);
    FlaglessPiece(t, N[n], i, t[N[n]][i].frame, g, v);
    TwoLinks(t', N[n], g, t[N[n]][i].frame + v / 512 % 512 * 512, v);
    SplitLeavesAncestors(t, root, N, n, i, g);
    FlaglessDescends(t, root, N, n, t', v);
  }

  lemma LargeWalk(t: Tables, root: nat, N: Shape, n: Node, i: nat, v: nat)
    requires Tree(t, root, N) && n in N && i < 512 && v < PAGE_LIMIT
    requires N[n] in t && n.level == 3 && IsLargeLeaf(n.level, t[N[n]][i]) && Through(n, i, v)
    ensures Walk(t, root, v) == Page(t[N[n]][i].frame + v % 262144)
    ensures t[N[n]][i].frame + 262144 <= FRAME_LIMIT
  {
    hide LeafAt;
    WalkThrough(t, root, N, n, i, v);
    assert TableOk(t, N, n);
    assert EntryOk(3, t[N[n]][i]);
  }

  /** The two links the flagless split makes for page v. */
  lemma FlaglessPiece(t: Tables, f: nat, i: nat, base: nat, g: nat, v: nat)
    requires f in t && i < 512 && g != f && g < FRAME_LIMIT && base == t[f][i].frame && base + 262144 <= FRAME_LIMIT
    requires Index(3, v) == i
    ensures var t' := WithSplit(t, f, i, 3, g, false);
      && f in t' && g in t'
      && IsLink(3, t'[f][Index(3, v)]) && t'[f][Index(3, v)].frame == g
      && IsLink(2, t'[g][Index(2, v)]) && t'[g][Index(2, v)].frame == base + v / 512 % 512 * 512
  {
    assert WithSplit(t, f, i, 3, g, false)[g][Index(2, v)] == SplitPiece(3, base, false, Index(2, v));
  }

  /** The walk in the changed tables still arrives at the split entry. */
  lemma {:induction false} FlaglessDescends(t: Tables, root: nat, N: Shape, n: Node, t': Tables, v: nat)
    requires Tree(t, root, N) && n in N && n.level <= 4 && OnPath(n, v) && v < PAGE_LIMIT
    requires forall m :: m in N && m.level > n.level ==> N[m] in t && N[m] in t' && t'[N[m]] == t[N[m]]
    ensures Walk(t', root, v) == WalkAt(t', N[n], n.level, v)
    decreases 4 - n.level
  {
    assert TableOk(t, N, n);
    if n.level < 4 {
      assert UpOk(t, N, n);
      PathStep(n.level + 1, v);
      assert TableOk(t, N, Parent(n));
      FlaglessDescends(t, root, N, Parent(n), t', v);
    }
  }

  /** A page map with one 1 GiB page at virtual page 0: frame 1 holds the PML4 and
      frame 2 the PDPT. */
  function GigabyteExample(): Tables {
    map[1 := ZeroTable()[0 := SplitEntry(2)], 2 := ZeroTable()[0 := Entry(true, true, true, 0, 0x40000)]]
  }

  /** The concrete failure: page 5 was mapped to frame 0x40005, and after the split
      over frame 3 its walk leaves the page map. */
  lemma FlaglessSplitFails()
    ensures Walk(GigabyteExample(), 1, 5) == Page(0x40005)
    ensures Walk(WithSplit(GigabyteExample(), 2, 0, 3, 3, false), 1, 5) == Stray
    ensures Walk(WithSplit(GigabyteExample(), 2, 0, 3, 3, true), 1, 5) == Page(0x40005)
  {
    var t := GigabyteExample();
    var t', t'' := WithSplit(t, 2, 0, 3, 3, false), WithSplit(t, 2, 0, 3, 3, true);
    assert t'[3][0] == SplitPiece(3, 0x40000, false, 0);
    assert t''[3][0] == SplitPiece(3, 0x40000, true, 0);
    assert WalkAt(t, 2, 3, 5) == Page(0x40005);
    assert WalkAt(t', 3, 2, 5) == Stray;
    assert WalkAt(t', 2, 3, 5) == Stray;
    assert WalkAt(t'', 3, 2, 5) == Page(0x40005);
    assert WalkAt(t'', 2, 3, 5) == Page(0x40005);
  }

  // ----- 1 GiB leaves do not appear -----

  lemma GraftAddsNoGigabyte(t: Tables, root: nat, N: Shape, n: Node, i: nat, g: nat, t': Tables)
    requires Tree(t, root, N) && n in N && i < 512
    requires Grafts(t, N, n, i, g, t')
    requires n.level == 4 ==> t'[g] == ZeroTable()
    ensures NoNewGigabytes(t, t', root)
  {
    GraftKeepsTree(t, root, N, n, i, g, t');
    forall v: nat | v < PAGE_LIMIT && InGigabyteLeaf(t', root, v) ensures InGigabyteLeaf(t, root, v) {
      GigabyteAtNode(t, root, N, v);
      GigabyteAtNode(t', root, N[Child(n, i) := g], v);
    }
  }

  lemma LeafAddsNoGigabyte(t: Tables, root: nat, N: Shape, v: nat, e: Entry)
    requires Tree(t, root, N) && v < PAGE_LIMIT
    requires Node(1, v / 512) in N && N[Node(1, v / 512)] in t
    requires !e.present ==> !e.large
    ensures NoNewGigabytes(t, WithEntry(t, N[Node(1, v / 512)], v % 512, e), root)
  {
    var t' := WithEntry(t, N[Node(1, v / 512)], v % 512, e);
    LeafWrite(t, root, N, v, e);
    forall u: nat | u < PAGE_LIMIT && InGigabyteLeaf(t', root, u) ensures InGigabyteLeaf(t, root, u) {
      GigabyteAtNode(t, root, N, u);
      GigabyteAtNode(t', root, N, u);
    }
  }

  /** A page that has a PT is in no 1 GiB leaf. */
  lemma HasTableNotGigabyte(t: Tables, root: nat, N: Shape, v: nat)
    requires Tree(t, root, N) && v < PAGE_LIMIT && Node(1, v / 512) in N
    ensures !InGigabyteLeaf(t, root, v)
  {
    PathNodes(v);
    GigabyteAtNode(t, root, N, v);
    assert UpOk(t, N, Node(1, v / 512));
    PathStep(2, v);
    assert UpOk(t, N, Node(2, v / 262144));
    PathStep(3, v);
  }
}
