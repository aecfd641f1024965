/** The kernel's malloc: pages from the kernel pool, called arenas, cut into blocks of
    one power-of-two size each. This part says what must hold of arenas, free lists and
    live blocks. */
module Arenas {

  import opened Arithmetic
  import opened Bits
  import opened Options
  import opened Sequences

  const PGSIZE: nat := 4096

  /** sizeof (struct arena). */
  const HEADER: nat := 12

  /** The number of descriptors: blocks of 16 to 1024 bytes. */
  const DESCS: nat := 7

  /** The header of an arena: its descriptor and how many of its blocks are free, or
      for a big block no descriptor and the number of pages. */
  datatype Arena = Arena(desc: Option<nat>, freeCnt: nat)

  /** Block `idx` of the arena that starts at page `page` of the pool. */
  datatype Block = Block(page: nat, idx: nat)

  function BlockSize(d: nat): (r: nat)
    ensures r > 0
  {
    16 * Pow2(d)
  }

  function PerArena(d: nat): (r: nat) {
    (PGSIZE - HEADER) / BlockSize(d)
  }

  /** The pages that an arena takes up. */
  function Span(a: Arena): (r: nat) {
    if a.desc.Some? then 1 else a.freeCnt
  }

  /** The free blocks of one arena. */
  ghost function FreeIn(list: seq<Block>, page: nat): (r: set<Block>) {
    set b | b in list && b.page == page
  }

  /** Arena headers by page, free lists by size, the live blocks, and the bitmap of the
      kernel pool, which other parts of the kernel take pages from too. */
  datatype Mem = Mem(arenas: map<nat, Arena>, lists: seq<seq<Block>>, live: set<Block>, bits: seq<bool>)

  /** Arenas lie in used pages of the pool and do not overlap. */
  ghost predicate SpansOk(m: Mem) {
    && (forall p :: p in m.arenas ==> Span(m.arenas[p]) > 0 && p + Span(m.arenas[p]) <= |m.bits|)
    && (forall p, k :: p in m.arenas && p <= k < p + Span(m.arenas[p]) ==> m.bits[k])
    && (forall p, q :: p in m.arenas && q in m.arenas && p < q ==> p + Span(m.arenas[p]) <= q)
  }

  /** Free lists hold blocks of arenas of their own size, each once. */
  ghost predicate ListsOk(m: Mem) {
    && |m.lists| == DESCS
    && (forall d, b :: 0 <= d < DESCS && b in m.lists[d] ==>
          b.page in m.arenas && m.arenas[b.page].desc == Some(d) && b.idx < PerArena(d))
    && (forall d :: 0 <= d < DESCS ==> Distinct(m.lists[d]))
  }

  /** A live block is a block of an arena that is on no free list. */
  ghost predicate LiveOk(m: Mem)
    requires |m.lists| == DESCS
  {
    forall b :: b in m.live ==>
      && b.page in m.arenas
      && match m.arenas[b.page].desc
         case Some(d) => d < DESCS && b.idx < PerArena(d) && b !in m.lists[d]
         case None => b.idx == 0
  }

  /** Every block of arena `p` is free or live, and the header counts the free ones. */
  ghost predicate ArenaOk(m: Mem, p: nat)
    requires p in m.arenas && |m.lists| == DESCS
  {
    match m.arenas[p].desc
    case None => Block(p, 0) in m.live
    case Some(d) =>
      && d < DESCS && m.arenas[p].freeCnt == |FreeIn(m.lists[d], p)|
      && forall i :: 0 <= i < PerArena(d) ==> Block(p, i) in m.lists[d] || Block(p, i) in m.live
  }

  ghost predicate AllArenas(m: Mem)
    requires |m.lists| == DESCS
  {
    forall p :: p in m.arenas ==> ArenaOk(m, p)
  }

  ghost predicate Ok(m: Mem) {
    |m.lists| == DESCS && SpansOk(m) && ListsOk(m) && LiveOk(m) && AllArenas(m)
  }

  /** No arena is kept without a live block. */
  ghost predicate Busy(m: Mem) {
    forall p :: p in m.arenas && m.arenas[p].desc.Some? ==> m.arenas[p].freeCnt < PerArena(m.arenas[p].desc.value)
  }

  // Addresses, counted from the base of the pool.

  /** Where a block starts. */
  function Address(m: Mem, b: Block): (r: nat)
    requires b.page in m.arenas
  {
    PGSIZE * b.page + HEADER + if m.arenas[b.page].desc.Some? then b.idx * BlockSize(m.arenas[b.page].desc.value) else 0
  }

  /** How many bytes it has. */
  function Length(m: Mem, b: Block): (r: int)
    requires b.page in m.arenas
  {
    var a := m.arenas[b.page];
    if a.desc.Some? then BlockSize(a.desc.value) else PGSIZE * a.freeCnt - HEADER
  }

  lemma BlockFits(d: nat, idx: nat)
    requires idx < PerArena(d)
    ensures HEADER + idx * BlockSize(d) + BlockSize(d) <= PGSIZE
  {
    var s := BlockSize(d);
    MulMono(idx + 1, PerArena(d), s);
    assert (idx + 1) * s == idx * s + s;
    assert PerArena(d) * s <= PGSIZE - HEADER;
  }

  lemma LiveAt(m: Mem, b: Block)
    requires Ok(m) && b in m.live
    ensures b.page in m.arenas
    ensures match m.arenas[b.page].desc
            case Some(d) => d < DESCS && b.idx < PerArena(d)
            case None => b.idx == 0 && m.arenas[b.page].freeCnt > 0
  {
    hide PerArena, BlockSize;
  }

  /** A live block lies behind the header and inside the pages of its arena. */
  lemma Inside(m: Mem, b: Block)
    requires Ok(m) && b in m.live
    ensures b.page in m.arenas
    ensures PGSIZE * b.page + HEADER <= Address(m, b)
    ensures Address(m, b) + Length(m, b) <= PGSIZE * (b.page + Span(m.arenas[b.page]))
    ensures Length(m, b) > 0
  {
    hide Ok, PerArena, BlockSize;
    LiveAt(m, b);
    var a := m.arenas[b.page];
    if a.desc.Some? { BlockFits(a.desc.value, b.idx); }
  }

  /** Two live blocks share no byte. */
  lemma Disjoint(m: Mem, b: Block, c: Block)
    requires Ok(m) && b in m.live && c in m.live && b != c
    ensures b.page in m.arenas && c.page in m.arenas
    ensures || Address(m, b) + Length(m, b) <= Address(m, c)
            || Address(m, c) + Length(m, c) <= Address(m, b)
  {
    LiveAt(m, b);
    LiveAt(m, c);
    Inside(m, b);
    Inside(m, c);
    if b.page < c.page { assert b.page + Span(m.arenas[b.page]) <= c.page; }
    if c.page < b.page { assert c.page + Span(m.arenas[c.page]) <= b.page; }
    if b.page == c.page {
      assert m.arenas[b.page].desc.Some?;
      var s := BlockSize(m.arenas[b.page].desc.value);
      Stride(b.idx, c.idx, s);
    }
  }

  lemma Stride(i: nat, j: nat, s: nat)
    requires i != j
    ensures i * s + s <= j * s || j * s + s <= i * s
  {
    if i < j {
      MulMono(i + 1, j, s);
      assert (i + 1) * s == i * s + s;
    } else {
      MulMono(j + 1, i, s);
      assert (j + 1) * s == j * s + s;
    }
  }

  // What each move keeps.

  lemma ArenaSame(m: Mem, r: Mem, q: nat)
    requires |m.lists| == |r.lists| == DESCS && q in m.arenas && q in r.arenas && r.arenas[q] == m.arenas[q] && ArenaOk(m, q)
    requires forall d, b: Block :: 0 <= d < DESCS && b.page == q ==> (b in m.lists[d] <==> b in r.lists[d])
    requires forall b: Block :: b.page == q ==> (b in m.live <==> b in r.live)
    ensures ArenaOk(r, q)
  {
    hide PerArena;
    if m.arenas[q].desc.Some? {
      var d := m.arenas[q].desc.value;
      assert FreeIn(m.lists[d], q) == FreeIn(r.lists[d], q);
    }
  }

  /** A small arena's header, with another number of free blocks. */
  function Counted(arenas: map<nat, Arena>, p: nat, n: nat): (r: map<nat, Arena>)
    requires p in arenas
  {
    arenas[p := arenas[p].(freeCnt := n)]
  }

  lemma CountedSpans(m: Mem, r: Mem, p: nat, n: nat)
    requires SpansOk(m) && p in m.arenas && m.arenas[p].desc.Some? && r.arenas == Counted(m.arenas, p, n) && r.bits == m.bits
    ensures SpansOk(r)
  {
  }

  /** The first free block of size `d` becomes live. */
  ghost function Take(m: Mem, d: nat): (r: Mem)
    requires d < |m.lists| && m.lists[d] != [] && m.lists[d][0].page in m.arenas && m.arenas[m.lists[d][0].page].freeCnt > 0
  {
    var b := m.lists[d][0];
    m.(arenas := Counted(m.arenas, b.page, m.arenas[b.page].freeCnt - 1),
       lists := m.lists[d := m.lists[d][1..]], live := m.live + {b})
  }

  lemma TakeFacts(m: Mem, d: nat)
    requires Ok(m) && d < DESCS && m.lists[d] != []
    ensures var b := m.lists[d][0];
            && b.page in m.arenas && m.arenas[b.page].desc == Some(d) && b.idx < PerArena(d) && b !in m.live
            && m.arenas[b.page].freeCnt > 0 && m.arenas[b.page].freeCnt == |FreeIn(m.lists[d][1..], b.page)| + 1
            && b !in m.lists[d][1..] && Distinct(m.lists[d][1..])
  {
    hide PerArena;
    var b, rest := m.lists[d][0], m.lists[d][1..];
    assert b in m.lists[d];
    assert ArenaOk(m, b.page);
    assert m.lists[d] == [b] + rest;
    assert b !in rest by { assert Distinct(m.lists[d]); }
    assert FreeIn(m.lists[d], b.page) == FreeIn(rest, b.page) + {b};
  }

  lemma TakeArenas(m: Mem, d: nat)
    requires Ok(m) && d < DESCS && m.lists[d] != [] && m.lists[d][0].page in m.arenas && m.arenas[m.lists[d][0].page].freeCnt > 0
    ensures AllArenas(Take(m, d))
  {
    TakeFacts(m, d);
    hide PerArena, SpansOk, ListsOk, LiveOk;
    var r, b := Take(m, d), m.lists[d][0];
    assert m.lists[d] == [b] + r.lists[d];
    forall q | q in r.arenas ensures ArenaOk(r, q) {
      assert ArenaOk(m, q);
      if q != b.page { ArenaSame(m, r, q); }
    }
  }

  lemma TakeLists(m: Mem, d: nat)
    requires ListsOk(m) && LiveOk(m) && d < DESCS && m.lists[d] != [] && m.lists[d][0].page in m.arenas
    requires m.arenas[m.lists[d][0].page].freeCnt > 0 && m.lists[d][0] !in m.lists[d][1..] && Distinct(m.lists[d][1..])
    ensures ListsOk(Take(m, d)) && LiveOk(Take(m, d))
  {
    hide PerArena;
    var r, b := Take(m, d), m.lists[d][0];
    assert b in m.lists[d];
    assert forall c :: c in r.lists[d] ==> c in m.lists[d];
    forall c | c in r.live ensures c.page in r.arenas && (match r.arenas[c.page].desc
         case Some(e) => e < DESCS && c.idx < PerArena(e) && c !in r.lists[e]
         case None => c.idx == 0)
    {
      if c != b { assert c in m.live; }
    }
  }

  lemma TakeKeeps(m: Mem, d: nat)
    requires Ok(m) && d < DESCS && m.lists[d] != []
    ensures m.lists[d][0].page in m.arenas && m.arenas[m.lists[d][0].page].freeCnt > 0 && Ok(Take(m, d))
  {
    hide PerArena, SpansOk, ListsOk, LiveOk, AllArenas, FreeIn;
    TakeFacts(m, d);
    TakeArenas(m, d);
    TakeLists(m, d);
    var b := m.lists[d][0];
    CountedSpans(m, Take(m, d), b.page, m.arenas[b.page].freeCnt - 1);
  }

  /** A small live block goes back to the front of its free list. */
  ghost function Give(m: Mem, b: Block, d: nat): (r: Mem)
    requires d < |m.lists| && b.page in m.arenas
  {
    m.(arenas := Counted(m.arenas, b.page, m.arenas[b.page].freeCnt + 1),
       lists := m.lists[d := [b] + m.lists[d]], live := m.live - {b})
  }

  lemma GiveFacts(m: Mem, b: Block, d: nat)
    requires Ok(m) && b in m.live && b.page in m.arenas && m.arenas[b.page].desc == Some(d)
    ensures d < DESCS && b.idx < PerArena(d) && b !in m.lists[d] && Distinct([b] + m.lists[d])
    ensures |FreeIn([b] + m.lists[d], b.page)| == m.arenas[b.page].freeCnt + 1
  {
    hide PerArena;
    assert ArenaOk(m, b.page);
    assert Distinct(m.lists[d]);
    assert FreeIn([b] + m.lists[d], b.page) == FreeIn(m.lists[d], b.page) + {b};
  }

  lemma GiveArenas(m: Mem, b: Block, d: nat)
    requires Ok(m) && b in m.live && b.page in m.arenas && m.arenas[b.page].desc == Some(d) && d < DESCS
    ensures AllArenas(Give(m, b, d))
  {
    GiveFacts(m, b, d);
    hide PerArena, SpansOk, ListsOk, LiveOk;
    var r := Give(m, b, d);
    assert b in r.lists[d];
    forall q | q in r.arenas ensures ArenaOk(r, q) {
      assert ArenaOk(m, q);
      if q != b.page { ArenaSame(m, r, q); }
    }
  }

  lemma GiveLists(m: Mem, b: Block, d: nat)
    requires ListsOk(m) && LiveOk(m) && b in m.live && b.page in m.arenas && m.arenas[b.page].desc == Some(d) && d < DESCS
    requires b.idx < PerArena(d) && Distinct([b] + m.lists[d])
    ensures ListsOk(Give(m, b, d)) && LiveOk(Give(m, b, d))
  {
    hide PerArena;
    var r := Give(m, b, d);
    assert forall c :: c in r.lists[d] <==> c == b || c in m.lists[d];
  }

  lemma GiveKeeps(m: Mem, b: Block, d: nat)
    requires Ok(m) && b in m.live && b.page in m.arenas && m.arenas[b.page].desc == Some(d)
    ensures d < DESCS && Ok(Give(m, b, d))
  {
    hide PerArena, SpansOk, ListsOk, LiveOk, AllArenas, FreeIn;
    GiveFacts(m, b, d);
    GiveArenas(m, b, d);
    GiveLists(m, b, d);
    CountedSpans(m, Give(m, b, d), b.page, m.arenas[b.page].freeCnt + 1);
  }

  /** The blocks of a new arena, in order. */
  function Cut(p: nat, n: nat): (r: seq<Block>)
    ensures |r| == n && Distinct(r)
    ensures forall b :: b in r <==> b.page == p && b.idx < n
  {
    if n == 0 then [] else Cut(p, n - 1) + [Block(p, n - 1)]
  }

  /** A free page of the pool becomes an arena for size `d`, all of it free. */
  ghost function Grow(m: Mem, p: nat, d: nat): (r: Mem)
    requires d < |m.lists| && p < |m.bits|
  {
    m.(arenas := m.arenas[p := Arena(Some(d), PerArena(d))],
       lists := m.lists[d := m.lists[d] + Cut(p, PerArena(d))], bits := m.bits[p := true])
  }

  ghost function Members(q: seq<Block>): (r: set<Block>) {
    set b | b in q
  }

  lemma {:induction false} CutSize(p: nat, n: nat)
    ensures |Members(Cut(p, n))| == n
  {
    hide Cut;
    if n == 0 {
      assert Members(Cut(p, n)) == {};
    } else {
      CutSize(p, n - 1);
      CutLast(p, n);
      assert Block(p, n - 1) !in Members(Cut(p, n - 1));
      hide Members;
    }
  }

  lemma CutLast(p: nat, n: nat)
    requires n > 0
    ensures Members(Cut(p, n)) == Members(Cut(p, n - 1)) + {Block(p, n - 1)}
  {
    hide Cut;
    forall b | b in Members(Cut(p, n)) ensures b in Members(Cut(p, n - 1)) + {Block(p, n - 1)} {
      assert b == Block(p, b.idx);
    }
  }

  lemma GrowSpans(m: Mem, r: Mem, p: nat, a: Arena)
    requires SpansOk(m) && Span(a) > 0 && p + Span(a) <= |m.bits| && forall k :: p <= k < p + Span(a) ==> !m.bits[k]
    requires r.arenas == m.arenas[p := a] && |r.bits| == |m.bits|
    requires forall k :: 0 <= k < |m.bits| ==> r.bits[k] == (m.bits[k] || p <= k < p + Span(a))
    ensures p !in m.arenas && SpansOk(r)
  {
    forall q | q in m.arenas ensures q + Span(m.arenas[q]) <= p || p + Span(a) <= q {
      var k := if p < q then q else p;
      assert k < q + Span(m.arenas[q]) ==> m.bits[k];
      assert k < p + Span(a) ==> !m.bits[k];
    }
  }

  lemma GrowLists(m: Mem, p: nat, d: nat)
    requires ListsOk(m) && LiveOk(m) && d < DESCS && p !in m.arenas && p < |m.bits|
    ensures ListsOk(Grow(m, p, d)) && LiveOk(Grow(m, p, d))
  {
    hide PerArena, Cut;
    var r := Grow(m, p, d);
    assert forall c :: c in r.lists[d] <==> c in m.lists[d] || (c.page == p && c.idx < PerArena(d));
    assert Distinct(r.lists[d]) by {
      var x, y := m.lists[d], Cut(p, PerArena(d));
      assert Distinct(x);
      assert forall i :: 0 <= i < |x| ==> x[i] in x;
      assert forall i :: 0 <= i < |y| ==> y[i] in y;
    }
  }

  lemma GrowArenas(m: Mem, p: nat, d: nat)
    requires |m.lists| == DESCS && AllArenas(m) && ListsOk(m) && d < DESCS && p !in m.arenas && p < |m.bits|
    ensures AllArenas(Grow(m, p, d))
  {
    hide PerArena, Cut;
    var r := Grow(m, p, d);
    assert FreeIn(r.lists[d], p) == Members(Cut(p, PerArena(d)));
    CutSize(p, PerArena(d));
    assert forall c :: c in r.lists[d] <==> c in m.lists[d] || (c.page == p && c.idx < PerArena(d));
    hide ListsOk;
    forall q | q in r.arenas ensures ArenaOk(r, q) {
      if q != p {
        assert ArenaOk(m, q);
        ArenaSame(m, r, q);
      }
    }
  }

  lemma GrowKeeps(m: Mem, p: nat, d: nat)
    requires Ok(m) && d < DESCS && p < |m.bits| && !m.bits[p]
    ensures p !in m.arenas && Ok(Grow(m, p, d))
  {
    hide PerArena, SpansOk, ListsOk, LiveOk, AllArenas, FreeIn, Cut;
    GrowSpans(m, Grow(m, p, d), p, Arena(Some(d), PerArena(d)));
    GrowLists(m, p, d);
    GrowArenas(m, p, d);
  }

  /** A small arena goes back to the pool, and its blocks leave the free list. */
  ghost predicate Dropped(m: Mem, r: Mem, p: nat, d: nat)
    requires |m.lists| == DESCS && d < DESCS && p < |m.bits|
  {
    && r.arenas == m.arenas - {p} && r.live == m.live && r.bits == m.bits[p := false]
    && |r.lists| == DESCS && r.lists == m.lists[d := r.lists[d]] && Distinct(r.lists[d])
    && forall b :: b in r.lists[d] <==> b in m.lists[d] && b.page != p
  }

  /** When the header counts all blocks, all are free and none is live. */
  lemma AllFree(m: Mem, p: nat, d: nat)
    requires Ok(m) && p in m.arenas && m.arenas[p].desc == Some(d) && m.arenas[p].freeCnt >= PerArena(d)
    ensures d < DESCS && m.arenas[p].freeCnt == PerArena(d)
    ensures forall b: Block :: b.page == p && b.idx < PerArena(d) ==> b in m.lists[d]
    ensures forall b :: b in m.live ==> b.page != p
  {
    assert ArenaOk(m, p);
    hide PerArena, Cut;
    var free, every := FreeIn(m.lists[d], p), Members(Cut(p, PerArena(d)));
    CutSize(p, PerArena(d));
    assert free <= every;
    SubsetFull(free, every);
    forall b | b in m.live ensures b.page != p {
      assert b.page == p ==> b in every;
    }
  }

  lemma NoneLive(m: Mem, p: nat, d: nat)
    requires Ok(m) && p in m.arenas && m.arenas[p].desc == Some(d) && forall b :: b in m.live ==> b.page != p
    ensures m.arenas[p].freeCnt == PerArena(d)
  {
    assert ArenaOk(m, p);
    hide PerArena, Cut;
    CutSize(p, PerArena(d));
    forall b | b in Members(Cut(p, PerArena(d))) ensures b in FreeIn(m.lists[d], p) {
      assert b == Block(p, b.idx) && b !in m.live;
    }
    assert Members(Cut(p, PerArena(d))) == FreeIn(m.lists[d], p);
  }

  /** The header counts all blocks exactly when no block of the arena is live. */
  lemma IdleIff(m: Mem, p: nat, d: nat)
    requires Ok(m) && p in m.arenas && m.arenas[p].desc == Some(d)
    ensures m.arenas[p].freeCnt >= PerArena(d) <==> forall b :: b in m.live ==> b.page != p
  {
    hide Ok, PerArena;
    if m.arenas[p].freeCnt >= PerArena(d) { AllFree(m, p, d); }
    if forall b :: b in m.live ==> b.page != p { NoneLive(m, p, d); }
  }

  /** Taking a block from an arena that was busy or new leaves it busy. */
  lemma TakeBusy(m: Mem, d: nat)
    requires Ok(m) && d < DESCS && m.lists[d] != [] && m.lists[d][0].page in m.arenas && m.arenas[m.lists[d][0].page].freeCnt > 0
    requires forall p :: p in m.arenas && m.arenas[p].desc.Some? ==>
               m.arenas[p].freeCnt < PerArena(m.arenas[p].desc.value) + if p == m.lists[d][0].page then 1 else 0
    ensures Busy(Take(m, d))
  {
    hide PerArena, Ok;
  }

  lemma SubsetFull<T>(a: set<T>, b: set<T>)
    requires a <= b && |a| >= |b|
    ensures a == b && |a| == |b|
  {
    assert b == a + (b - a);
  }

  lemma DropSpans(m: Mem, r: Mem, p: nat)
    requires SpansOk(m) && p in m.arenas && r.arenas == m.arenas - {p} && |r.bits| == |m.bits|
    requires forall k :: 0 <= k < |m.bits| ==> r.bits[k] == (m.bits[k] && !(p <= k < p + Span(m.arenas[p])))
    ensures SpansOk(r)
  {
  }

  lemma DropKeeps(m: Mem, r: Mem, p: nat, d: nat)
    requires Ok(m) && d < DESCS && p in m.arenas && p < |m.bits| && m.arenas[p].desc == Some(d) && m.arenas[p].freeCnt >= PerArena(d)
    requires Dropped(m, r, p, d)
    ensures Ok(r)
  {
    AllFree(m, p, d);
    DropSpans(m, r, p);
    DropLists(m, r, p, d);
    hide PerArena, SpansOk, ListsOk, LiveOk;
    forall q | q in r.arenas ensures ArenaOk(r, q) {
      assert ArenaOk(m, q);
      ArenaSame(m, r, q);
    }
  }

  lemma DropLists(m: Mem, r: Mem, p: nat, d: nat)
    requires ListsOk(m) && LiveOk(m) && d < DESCS && p in m.arenas && p < |m.bits| && m.arenas[p].desc == Some(d) && Dropped(m, r, p, d)
    requires forall b :: b in m.live ==> b.page != p
    ensures ListsOk(r) && LiveOk(r)
  {
    hide PerArena;
  }

  /** `n` free pages from `p` on become a big block. */
  ghost function GrowBig(m: Mem, p: nat, n: nat, bits: seq<bool>): (r: Mem) {
    m.(arenas := m.arenas[p := Arena(None, n)], live := m.live + {Block(p, 0)}, bits := bits)
  }

  lemma BigLists(m: Mem, r: Mem, p: nat)
    requires ListsOk(m) && LiveOk(m) && p !in m.arenas && r.lists == m.lists && r.live == m.live + {Block(p, 0)}
    requires p in r.arenas && r.arenas[p].desc.None? && r.arenas == m.arenas[p := r.arenas[p]]
    ensures ListsOk(r) && LiveOk(r)
  {
    hide PerArena;
  }

  lemma NoBigLists(m: Mem, r: Mem, p: nat)
    requires ListsOk(m) && LiveOk(m) && p in m.arenas && m.arenas[p].desc.None? && r.lists == m.lists
    requires r.live == m.live - {Block(p, 0)} && r.arenas == m.arenas - {p}
    ensures ListsOk(r) && LiveOk(r)
  {
    hide PerArena;
  }

  lemma GrowBigKeeps(m: Mem, p: nat, n: nat, bits: seq<bool>)
    requires Ok(m) && 0 < n && p + n <= |m.bits| == |bits| && forall k :: p <= k < p + n ==> !m.bits[k]
    requires forall k :: 0 <= k < |bits| ==> bits[k] == (m.bits[k] || p <= k < p + n)
    ensures p !in m.arenas && Ok(GrowBig(m, p, n, bits))
  {
    hide PerArena;
    var r := GrowBig(m, p, n, bits);
    GrowSpans(m, r, p, Arena(None, n));
    hide SpansOk;
    BigLists(m, r, p);
    hide ListsOk, LiveOk;
    forall q | q in r.arenas ensures ArenaOk(r, q) {
      if q != p { assert ArenaOk(m, q); ArenaSame(m, r, q); }
    }
  }

  /** The pages of a big block go back. */
  ghost function DropBig(m: Mem, p: nat, bits: seq<bool>): (r: Mem) {
    m.(arenas := m.arenas - {p}, live := m.live - {Block(p, 0)}, bits := bits)
  }

  lemma DropBigKeeps(m: Mem, p: nat, bits: seq<bool>)
    requires Ok(m) && p in m.arenas && m.arenas[p].desc.None? && |m.bits| == |bits|
    requires forall k :: 0 <= k < |bits| ==> bits[k] == (m.bits[k] && !(p <= k < p + Span(m.arenas[p])))
    ensures Ok(DropBig(m, p, bits))
  {
    hide PerArena;
    var r := DropBig(m, p, bits);
    DropSpans(m, r, p);
    hide SpansOk;
    NoBigLists(m, r, p);
    hide ListsOk, LiveOk;
    forall q | q in r.arenas ensures ArenaOk(r, q) {
      assert ArenaOk(m, q);
      ArenaSame(m, r, q);
    }
  }
}
