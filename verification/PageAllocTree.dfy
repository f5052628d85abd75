/** Building the table pages of an address range before it is used: archPageTableOfflineAllocTree. */
module PageAllocTree {
  import opened Arith
  import opened Paging
  import opened Mmu
  import opened Hardware
  import opened PageNeeds
  import opened PageInsert
  import opened PageOffline

  /** Table `p` sits at node `q` of level `j`, a node between `from` and `to` that had no table in `m0`. */
  ghost predicate NewTable(m0: Mem, m: Mem, root: Mfn, p: Mfn, j: nat, q: nat, from: nat, to: nat) {
    && 1 <= j <= 3 && Shr(from, j) <= q <= Shr(to, j)
    && (forall vp: nat {:trigger TableAt(m, root, 4, vp, j)} :: vp < PAGES && Shr(vp, j) == q ==>
          TableAt(m0, root, 4, vp, j) == None && TableAt(m, root, 4, vp, j) == Some(p))
  }

  /** Tables are where they were, and every further one is among `added`. */
  ghost predicate OnlyAdded(m0: Mem, m: Mem, root: Mfn, added: seq<Mfn>) {
    forall vp: nat, j {:trigger TableAt(m, root, 4, vp, j)} :: vp < PAGES && 1 <= j <= 4 ==>
      if TableAt(m0, root, 4, vp, j).Some? then TableAt(m, root, 4, vp, j) == TableAt(m0, root, 4, vp, j)
      else TableAt(m, root, 4, vp, j).Some? ==> TableAt(m, root, 4, vp, j).value in added
  }

  /** The tables `added` are exactly the new ones: each is the table of a node between `from` and `to` that had none,
      all other tables are where they were, and no node got a table that is not among them. */
  ghost predicate Extended(m0: Mem, m: Mem, place: Places, root: Mfn, added: seq<Mfn>, from: nat, to: nat) {
    && (forall p :: p in added ==> p in place && NewTable(m0, m, root, p, place[p].level, place[p].prefix, from, to))
    && OnlyAdded(m0, m, root, added)
  }

  /** From `m` to `n` walks only get longer, and only by table `page`. */
  ghost predicate Longer(m: Mem, n: Mem, root: Mfn, page: Mfn) {
    forall vp: nat, j {:trigger TableAt(n, root, 4, vp, j)} :: vp < PAGES && 1 <= j <= 4 ==>
      && (TableAt(m, root, 4, vp, j).Some? ==> TableAt(n, root, 4, vp, j) == TableAt(m, root, 4, vp, j))
      && (TableAt(m, root, 4, vp, j).None? && TableAt(n, root, 4, vp, j).Some? ==>
            TableAt(n, root, 4, vp, j) == Some(page))
  }

  lemma GrownLonger(m: Mem, place: Places, root: Mfn, sp: nat, t: Mfn, i: nat, page: Mfn)
    requires Tree(m, place) && IsRoot(place, root, sp)
    requires t in place && place[t].level >= 2 && i < ENTRIES && Get(m, Slot(t, i)) == FREE
    requires page !in place && ZeroPage(m, page)
    ensures Longer(m, m[Slot(t, i) := Pte(page, TABLE_PROT)], root, page)
  {
    var m' := m[Slot(t, i) := Pte(page, TABLE_PROT)];
    forall vp: nat, j | vp < PAGES && 1 <= j <= 4
      ensures TableAt(m, root, 4, vp, j).Some? ==> TableAt(m', root, 4, vp, j) == TableAt(m, root, 4, vp, j)
      ensures TableAt(m, root, 4, vp, j).None? && TableAt(m', root, 4, vp, j).Some? ==>
                TableAt(m', root, 4, vp, j) == Some(page)
    {
      RootAt(place, root, sp, vp);
      TableGrown(m, place, t, i, page, root, sp, 4, vp, j);
    }
  }

  lemma StillNew(m0: Mem, m: Mem, n: Mem, root: Mfn, page: Mfn, p: Mfn, j: nat, q: nat, from: nat, to: nat)
    requires NewTable(m0, m, root, p, j, q, from, to) && Longer(m, n, root, page)
    ensures NewTable(m0, n, root, p, j, q, from, to)
  {
    hide TableAt, Shr;
    forall vp: nat {:trigger TableAt(n, root, 4, vp, j)} | vp < PAGES && Shr(vp, j) == q
      ensures TableAt(m0, root, 4, vp, j) == None && TableAt(n, root, 4, vp, j) == Some(p)
    {
      assert TableAt(m, root, 4, vp, j) == Some(p);
    }
  }

  lemma StillOnly(m0: Mem, m: Mem, n: Mem, root: Mfn, page: Mfn, added: seq<Mfn>)
    requires OnlyAdded(m0, m, root, added) && Longer(m, n, root, page)
    ensures OnlyAdded(m0, n, root, added + [page])
  {
    hide TableAt;
    forall vp: nat, j {:trigger TableAt(n, root, 4, vp, j)} | vp < PAGES && 1 <= j <= 4
      ensures if TableAt(m0, root, 4, vp, j).Some? then TableAt(n, root, 4, vp, j) == TableAt(m0, root, 4, vp, j)
              else TableAt(n, root, 4, vp, j).Some? ==> TableAt(n, root, 4, vp, j).value in added + [page]
    {
      assert TableAt(m, root, 4, vp, j).Some? || TableAt(m, root, 4, vp, j).None?;
    }
  }

  /** One more missing table. */
  lemma ExtendStep(m0: Mem, m: Mem, place: Places, root: Mfn, sp: nat, added: seq<Mfn>, from: nat, to: nat,
                   t: Mfn, k: nat, vp0: nat, page: Mfn)
    requires Tree(m, place) && IsRoot(place, root, sp) && Extended(m0, m, place, root, added, from, to)
    requires 2 <= k <= 4 && At(place, t, sp, k, vp0) && TableAt(m, root, 4, vp0, k) == Some(t)
    requires Get(m, Slot(t, Idx(vp0, k))) == FREE && page !in place && ZeroPage(m, page)
    requires Shr(from, k - 1) <= Shr(vp0, k - 1) <= Shr(to, k - 1)
    ensures Extended(m0, m[Slot(t, Idx(vp0, k)) := Pte(page, TABLE_PROT)],
                     place[page := Child(place[t], Idx(vp0, k))], root, added + [page], from, to)
  {
    hide Tree, TableAt;
    var m' := m[Slot(t, Idx(vp0, k)) := Pte(page, TABLE_PROT)];
    ChildNode(sp, k, vp0);
    GrownLonger(m, place, root, sp, t, Idx(vp0, k), page);
    StillOnly(m0, m, m', root, page, added);
    forall p | p in added
      ensures NewTable(m0, m', root, p, place[p].level, place[p].prefix, from, to)
    {
      StillNew(m0, m, m', root, page, p, place[p].level, place[p].prefix, from, to);
    }
    NewHere(m0, m, place, root, sp, added, from, to, t, k, vp0, page);
    assert forall p :: p in added + [page] ==> p in added || p == page;
  }

  lemma NewHere(m0: Mem, m: Mem, place: Places, root: Mfn, sp: nat, added: seq<Mfn>, from: nat, to: nat,
                t: Mfn, k: nat, vp0: nat, page: Mfn)
    requires Tree(m, place) && IsRoot(place, root, sp) && OnlyAdded(m0, m, root, added)
    requires 2 <= k <= 4 && At(place, t, sp, k, vp0) && TableAt(m, root, 4, vp0, k) == Some(t)
    requires Get(m, Slot(t, Idx(vp0, k))) == FREE && page !in place && ZeroPage(m, page)
    requires Shr(from, k - 1) <= Shr(vp0, k - 1) <= Shr(to, k - 1)
    ensures NewTable(m0, m[Slot(t, Idx(vp0, k)) := Pte(page, TABLE_PROT)], root, page, k - 1, Shr(vp0, k - 1), from, to)
  {
    var m' := m[Slot(t, Idx(vp0, k)) := Pte(page, TABLE_PROT)];
    var j := k - 1;
    forall vp: nat | vp < PAGES && Shr(vp, j) == Shr(vp0, j)
      ensures TableAt(m0, root, 4, vp, j) == None && TableAt(m', root, 4, vp, j) == Some(page)
    {
      ExtendedHere(m, place, root, sp, t, k, vp0, page, vp);
      assert TableAt(m, root, 4, vp, j) == None;
    }
    assert NewTable(m0, m', root, page, j, Shr(vp0, j), from, to);
  }

  lemma ExtendedHere(m: Mem, place: Places, root: Mfn, sp: nat, t: Mfn, k: nat, vp0: nat, page: Mfn, vp: nat)
    requires Tree(m, place) && IsRoot(place, root, sp) && vp < PAGES
    requires 2 <= k <= 4 && At(place, t, sp, k, vp0) && TableAt(m, root, 4, vp0, k) == Some(t)
    requires Get(m, Slot(t, Idx(vp0, k))) == FREE && Shr(vp, k - 1) == Shr(vp0, k - 1)
    ensures TableAt(m, root, 4, vp, k - 1) == None
    ensures TableAt(m[Slot(t, Idx(vp0, k)) := Pte(page, TABLE_PROT)], root, 4, vp, k - 1) == Some(page)
  {
    var m' := m[Slot(t, Idx(vp0, k)) := Pte(page, TABLE_PROT)];
    RootAt(place, root, sp, vp);
    WalkThrough(m, root, 4, vp0, k, vp);
    TableSame(m, m', place, root, sp, 4, vp, k);
    TableStep(m, root, 4, vp, k);
    TableStep(m', root, 4, vp, k);
  }

  /** The page number of an address masked with L1_MASK, L2_MASK or L3_MASK: its place below an entry of a level
      `k` table. */
  function Below(vp: nat, k: nat): nat {
    match k
    case 2 => vp % 0x200
    case 3 => vp % 0x4_0000
    case 4 => vp % 0x800_0000
    case _ => 0
  }

  /** The masks themselves. */
  function Mask(k: nat): nat {
    match k
    case 2 => 0x1FF
    case 3 => 0x3_FFFF
    case 4 => 0x7FF_FFFF
    case _ => 0
  }

  /** Masking an address keeps its lower offsets. */
  lemma MaskOffsets(vp: nat, k: nat, j: nat)
    requires 2 <= k <= 4 && 1 <= j < k
    ensures Idx(Below(vp, k), j) == Idx(vp, j)
    ensures Idx(Mask(k), j) == 511
  {
    Masks(k, j);
    match k
    case 2 => assert Shr(vp, 0) == vp;
    case 3 => Mask18(vp);
    case 4 => Mask27(vp);
  }

  lemma Masks(k: nat, j: nat)
    requires 2 <= k <= 4 && 1 <= j < k
    ensures Idx(Mask(k), j) == 511
  {
    assert Shr(0x3_FFFF, 1) == 0x1FF;
    assert Shr(0x7FF_FFFF, 1) == 0x3_FFFF && Shr(0x7FF_FFFF, 2) == 0x1FF;
  }

  lemma Mask18(vp: nat)
    ensures Idx(vp % 0x4_0000, 1) == Idx(vp, 1) && Idx(vp % 0x4_0000, 2) == Idx(vp, 2)
  {
    var q, w := vp / 0x4_0000, vp % 0x4_0000;
    assert vp == 512 * (512 * q) + w;
    Div512(512 * q, w);
    Div512(q, w / 512);
    assert Shr(w, 1) == w / 512 && Shr(vp, 1) == vp / 512;
  }

  /** Multiples of 512 do not reach into the lowest offset. */
  lemma Div512(a: nat, w: nat)
    ensures (512 * a + w) / 512 == a + w / 512 && (512 * a + w) % 512 == w % 512
  {
  }

  lemma Mask27(vp: nat)
    ensures forall j :: 1 <= j <= 3 ==> Idx(vp % 0x800_0000, j) == Idx(vp, j)
  {
    var q, w := vp / 0x800_0000, vp % 0x800_0000;
    assert vp == 512 * (512 * (512 * q)) + w;
    Div512(512 * (512 * q), w);
    Div512(512 * q, w / 512);
    Div512(q, w / 512 / 512);
    assert Shr(w, 1) == w / 512 && Shr(vp, 1) == vp / 512;
    assert Shr(w, 2) == w / 512 / 512 && Shr(vp, 2) == vp / 512 / 512;
  }

  /** All offsets of a page up to level `k` are `v`. */
  ghost predicate AllOffsets(vp: nat, k: nat, v: nat) {
    forall j :: 1 <= j <= k ==> Idx(vp, j) == v
  }

  /** The last page of a node. */
  lemma {:induction false} LastPage(q: nat, k: nat)
    ensures Base(q + 1, k) >= 1 && Shr(Base(q + 1, k) - 1, k) == q
    ensures AllOffsets(Base(q + 1, k) - 1, k, 511)
    decreases k
  {
    if k > 0 {
      LastPage(q * 512 + 511, k - 1);
      assert (q + 1) * 512 == q * 512 + 511 + 1;
    }
  }

  /** Offsets `off` are those of page `vp` up to level `k`. */
  ghost predicate OffsetsOf(off: nat, vp: nat, k: nat) {
    forall j :: 1 <= j <= k ==> Idx(off, j) == Idx(vp, j)
  }

  /** The pages that entry `l` contributes to the range [lo, hi] of its table, and their masked addresses. */
  ghost predicate EntryRange(lo: nat, hi: nat, q: nat, k: nat, l: nat, f: nat, t: nat, lo': nat, hi': nat)
    requires k >= 2
  {
    && lo' == (if l == Idx(lo, k) then lo else Base(q * 512 + l, k - 1))
    && hi' == (if l == Idx(hi, k) then hi else Base(q * 512 + l + 1, k - 1) - 1)
    && lo <= lo' <= hi' <= hi && Shr(lo', k - 1) == Shr(hi', k - 1) == q * 512 + l
    && OffsetsOf(f, lo', k - 1) && OffsetsOf(t, hi', k - 1)
  }

  lemma EntryRangeHolds(lo: nat, hi: nat, q: nat, k: nat, l: nat, from: nat, to: nat, f: nat, t: nat)
    requires 2 <= k <= 4 && lo <= hi && Shr(lo, k) == q == Shr(hi, k)
    requires OffsetsOf(from, lo, k) && OffsetsOf(to, hi, k) && Idx(lo, k) <= l <= Idx(hi, k)
    requires f == if l == Idx(lo, k) then Below(from, k) else 0
    requires t == if l == Idx(hi, k) then Below(to, k) else Mask(k)
    ensures EntryRange(lo, hi, q, k, l, f, t,
                       if l == Idx(lo, k) then lo else Base(q * 512 + l, k - 1),
                       if l == Idx(hi, k) then hi else Base(q * 512 + l + 1, k - 1) - 1)
  {
    var lo' := if l == Idx(lo, k) then lo else Base(q * 512 + l, k - 1);
    var hi' := if l == Idx(hi, k) then hi else Base(q * 512 + l + 1, k - 1) - 1;
    EntryBounds(lo, hi, q, k, l);
    EntryOffsets(lo, k, l, from, f, lo', q, 0, Base(q * 512 + l, k - 1));
    EntryOffsets(hi, k, l, to, t, hi', q, 511, Base(q * 512 + l + 1, k - 1) - 1);
  }

  lemma EntryBounds(lo: nat, hi: nat, q: nat, k: nat, l: nat)
    requires 2 <= k <= 4 && lo <= hi && Shr(lo, k) == q == Shr(hi, k) && Idx(lo, k) <= l <= Idx(hi, k)
    ensures
      var lo' := if l == Idx(lo, k) then lo else Base(q * 512 + l, k - 1);
      var hi' := if l == Idx(hi, k) then hi else Base(q * 512 + l + 1, k - 1) - 1;
      && 0 <= hi' && lo <= lo' <= hi' <= hi && Shr(lo', k - 1) == Shr(hi', k - 1) == q * 512 + l
    ensures AllOffsets(Base(q * 512 + l, k - 1), k - 1, 0)
    ensures Base(q * 512 + l + 1, k - 1) >= 1 && AllOffsets(Base(q * 512 + l + 1, k - 1) - 1, k - 1, 511)
  {
    var q' := q * 512 + l;
    assert Shr(lo, k - 1) == q * 512 + Idx(lo, k) && Shr(hi, k - 1) == q * 512 + Idx(hi, k);
    LastPage(q', k - 1);
    ShrBase(q', k - 1);
    hide Base, Shr;
    BaseShr(q', lo, k - 1);
    BaseShr(q' + 1, lo, k - 1);
    BaseShr(q', hi, k - 1);
    BaseShr(q' + 1, hi, k - 1);
    BaseShr(q' + 1, Base(q', k - 1), k - 1);
  }

  lemma EntryOffsets(vp: nat, k: nat, l: nat, off: nat, off': nat, vp': nat, q: nat, v: nat, edge: nat)
    requires 2 <= k <= 4 && OffsetsOf(off, vp, k) && AllOffsets(edge, k - 1, v) && (v == 0 || v == 511)
    requires off' == if l == Idx(vp, k) then Below(off, k) else if v == 0 then 0 else Mask(k)
    requires vp' == if l == Idx(vp, k) then vp else edge
    ensures OffsetsOf(off', vp', k - 1)
  {
    hide Below, Mask, Shr;
    forall j | 1 <= j < k
      ensures Idx(off', j) == Idx(vp', j)
    {
      MaskOffsets(off, k, j);
      ZeroIdx(j);
    }
  }

  lemma {:induction false} ZeroIdx(j: nat)
    requires j >= 1
    ensures Shr(0, j - 1) == 0 && Idx(0, j) == 0
  {
    if j > 1 {
      ZeroIdx(j - 1);
    }
  }

  /** The pages of a range. */
  ghost function PagesBetween(from: nat, to: nat): set<nat> { if from <= to then Numbers(from, to + 1 - from) else {} }

  ghost predicate UserRootSame(m0: Mem, m: Mem, userRoot: Mfn) {
    forall i: nat :: Get(m, Slot(userRoot, i)) == Get(m0, Slot(userRoot, i))
  }

  lemma ProvidedStep(m0: Mem, m: Mem, place: Places, root: Mfn, sp: nat, from: nat, to: nat, n: nat,
                     t: Mfn, k: nat, vp: nat, page: Mfn)
    requires Provided(m0, m, root, PagesBetween(from, to), n) && from <= vp <= to < PAGES
    requires Tree(m, place) && IsRoot(place, root, sp) && 2 <= k <= 4 && At(place, t, sp, k, vp)
    requires TableAt(m, root, 4, vp, k) == Some(t) && Get(m, Slot(t, Idx(vp, k))) == FREE
    requires page !in place && ZeroPage(m, page)
    ensures Provided(m0, m[Slot(t, Idx(vp, k)) := Pte(page, TABLE_PROT)], root, PagesBetween(from, to), n + 1)
  {
    hide Tree, TableAt, TablesMissing;
    var m' := m[Slot(t, Idx(vp, k)) := Pte(page, TABLE_PROT)];
    GrownAdds(m, place, root, sp, t, k, vp, page);
    ExtendedHere(m, place, root, sp, t, k, vp, page, vp);
    MissingLess(m, m', root, PagesBetween(from, to), vp, k - 1);
  }

  /** The state of archPageTableOfflineAllocTree for pages `from` to `to` with `n` tables allocated. */
  ghost predicate Allocating(mmu: Mmu, m0: Mem, place0: Places, pool0: seq<Mfn>, noWrite0: seq<Mfn>,
                             root: Mfn, userRoot: Mfn, sp: nat, from: nat, to: nat, n: nat)
    reads mmu
  {
    && Offline(mmu, root, userRoot, sp)
    && Grown(m0, place0, mmu.mem, mmu.place)
    && n <= |pool0| && mmu.pool == pool0[n..] && mmu.noWrite == noWrite0 + pool0[..n]
    && Extended(m0, mmu.mem, mmu.place, root, pool0[..n], from, to)
    && to < PAGES && Provided(m0, mmu.mem, root, PagesBetween(from, to), n) && UserRootSame(m0, mmu.mem, userRoot)
  }

  /** All pages from `lo` to `hi` have a complete path. */
  ghost predicate Covered(m: Mem, root: Mfn, lo: nat, hi: int) {
    forall vp: nat :: lo <= vp <= hi ==> LeafSlot(m, root, 4, vp).Some?
  }

  lemma CoveredKept(m: Mem, n: Mem, place: Places, root: Mfn, sp: nat, lo: nat, hi: int)
    requires Covered(m, root, lo, hi) && SameMappings(m, n, place) && IsRoot(place, root, sp) && hi < PAGES
    ensures Covered(n, root, lo, hi)
  {
    forall vp: nat | lo <= vp <= hi
      ensures LeafSlot(n, root, 4, vp).Some?
    {
      RootAt(place, root, sp, vp);
      assert LeafSlot(m, root, 4, vp).Some?;
    }
  }

  /** A table that is on a walk stays on it while further tables are allocated. */
  lemma TableKept(m0: Mem, m1: Mem, place1: Places, added1: seq<Mfn>, m2: Mem, place2: Places, added2: seq<Mfn>,
                  root: Mfn, sp: nat, from: nat, to: nat, t: Mfn, k: nat, vp: nat)
    requires Extended(m0, m1, place1, root, added1, from, to) && Extended(m0, m2, place2, root, added2, from, to)
    requires forall p :: p in added1 ==> p in added2
    requires At(place2, t, sp, k, vp) && TableAt(m1, root, 4, vp, k) == Some(t)
    ensures TableAt(m2, root, 4, vp, k) == Some(t)
  {
    if TableAt(m0, root, 4, vp, k).Some? {
      assert TableAt(m1, root, 4, vp, k) == TableAt(m0, root, 4, vp, k) == TableAt(m2, root, 4, vp, k);
    } else {
      assert t in added2;
    }
  }

  /** _offlineAllocTreePtp for entry `i` of table `t` of level `k`. */
  method AllocOne(mmu: Mmu, root: Mfn, ghost userRoot: Mfn, ghost sp: nat, t: Mfn, k: nat, i: nat,
                  ghost lo: nat, ghost m0: Mem, ghost place0: Places, ghost pool0: seq<Mfn>,
                  ghost noWrite0: seq<Mfn>, ghost from: nat, ghost to: nat, ghost n0: nat)
    returns (page: Option<Mfn>, ghost n: nat)
    requires 2 <= k <= 4 && from <= lo <= to && lo < PAGES && i == Idx(lo, k)
    requires Allocating(mmu, m0, place0, pool0, noWrite0, root, userRoot, sp, from, to, n0)
    requires At(mmu.place, t, sp, k, lo) && TableAt(mmu.mem, root, 4, lo, k) == Some(t) && t != userRoot
    modifies mmu`mem, mmu`pool, mmu`noWrite, mmu`place
    ensures n0 <= n && Allocating(mmu, m0, place0, pool0, noWrite0, root, userRoot, sp, from, to, n)
    ensures page.None? ==> !CanAllocate(mmu, 1) && LeafSlot(mmu.mem, root, 4, lo) == None
    ensures page.Some? ==>
      && At(mmu.place, page.value, sp, k - 1, lo) && TableAt(mmu.mem, root, 4, lo, k - 1) == Some(page.value)
      && page.value != userRoot
      && Grown(old(mmu.mem), old(mmu.place), mmu.mem, mmu.place)
  {
    hide Tree, SameMappings, Extended, TableAt, DualRoots, AllWaiting, ZeroPage, Shr, Provided, LeafSlot, TablesMissing,
         UppersFrom;
    ghost var m, place := mmu.mem, mmu.place;
    NodeLevel(place, t, sp, k, lo, userRoot);
    n := n0;
    page := PathLevel(mmu, root, userRoot, sp, Slot(t, i));
    if page == None {
      NoLeaf(m, root, t, k, lo);
      return;
    }
    ChildNode(sp, k, lo);
    if Get(m, Slot(t, i)) == FREE {
      ShrUpTo(from, lo, k - 1);
      ShrUpTo(lo, to, k - 1);
      ExtendStep(m0, m, place, root, sp, pool0[..n0], from, to, t, k, lo, page.value);
      ExtendedHere(m, place, root, sp, t, k, lo, page.value, lo);
      ProvidedStep(m0, m, place, root, sp, from, to, n0, t, k, lo, page.value);
      assert pool0[..n0 + 1] == pool0[..n0] + [page.value];
      n := n0 + 1;
    } else {
      TableStep(m, root, 4, lo, k);
    }
    SameMappingsTrans(m0, place0, m, place, mmu.mem);
    UppersTrans(m0, place0, m, place, mmu.mem, mmu.place);
    NodeLevel(mmu.place, page.value, sp, k - 1, lo, userRoot);
  }

  /** A walk that meets a free entry has no leaf slot. */
  lemma NoLeaf(m: Mem, root: Mfn, t: Mfn, k: nat, vp: nat)
    requires 2 <= k <= 4 && TableAt(m, root, 4, vp, k) == Some(t) && Get(m, Slot(t, Idx(vp, k))) == FREE
    ensures LeafSlot(m, root, 4, vp) == None
  {
    WalkThrough(m, root, 4, vp, k, vp);
  }

  lemma NodeLevel(place: Places, t: Mfn, sp: nat, k: nat, vp: nat, userRoot: Mfn)
    requires At(place, t, sp, k, vp) && IsRoot(place, userRoot, sp)
    ensures place[t].level == k && (k < 4 ==> t != userRoot)
  {
  }

  lemma {:induction false} ShrUpTo(vp: nat, wp: nat, j: nat)
    requires vp <= wp
    ensures Shr(vp, j) <= Shr(wp, j)
  {
    assert Shr(vp, 0) <= Shr(wp, 0);
    ShrMono(vp, wp, 0, j);
  }

  /** Below the last table of a path every page is covered. */
  lemma CoveredBelow(m: Mem, root: Mfn, t: Mfn, lo: nat, hi: nat)
    requires TableAt(m, root, 4, lo, 1) == Some(t) && lo <= hi && Shr(lo, 1) == Shr(hi, 1)
    ensures Covered(m, root, lo, hi)
  {
    forall vp: nat | lo <= vp <= hi
      ensures LeafSlot(m, root, 4, vp).Some?
    {
      ShrUpTo(lo, vp, 1);
      ShrUpTo(vp, hi, 1);
      WalkThrough(m, root, 4, lo, 1, vp);
    }
  }

  /** Entry `i` of table `t` of level `k`: its table, then the loop over the entries of that. */
  method AllocEntry(mmu: Mmu, root: Mfn, ghost userRoot: Mfn, ghost sp: nat, t: Mfn, k: nat, i: nat, from: nat, to: nat,
                    ghost lo: nat, ghost hi: nat, ghost m0: Mem, ghost place0: Places, ghost pool0: seq<Mfn>,
                    ghost noWrite0: seq<Mfn>, ghost from0: nat, ghost to0: nat, ghost n0: nat)
    returns (ok: bool, ghost n: nat)
    requires 2 <= k <= 4 && from0 <= lo <= hi <= to0 && hi < PAGES && Shr(lo, k - 1) == Shr(hi, k - 1)
    requires i == Idx(lo, k)
    requires OffsetsOf(from, lo, k - 1) && OffsetsOf(to, hi, k - 1)
    requires Allocating(mmu, m0, place0, pool0, noWrite0, root, userRoot, sp, from0, to0, n0)
    requires At(mmu.place, t, sp, k, lo) && TableAt(mmu.mem, root, 4, lo, k) == Some(t) && t != userRoot
    modifies mmu`mem, mmu`pool, mmu`noWrite, mmu`place
    ensures n0 <= n && Allocating(mmu, m0, place0, pool0, noWrite0, root, userRoot, sp, from0, to0, n)
    ensures ok ==> Covered(mmu.mem, root, lo, hi) && Grown(old(mmu.mem), old(mmu.place), mmu.mem, mmu.place)
    ensures !ok ==> !CanAllocate(mmu, 1) && !Covered(mmu.mem, root, from0, to0)
    decreases k, 0
  {
    hide Allocating, SameMappings, TableAt, Covered, Shr, UppersFrom;
    var page;
    page, n := AllocOne(mmu, root, userRoot, sp, t, k, i, lo, m0, place0, pool0, noWrite0, from0, to0, n0);
    if page == None {
      NotCovered(mmu.mem, root, from0, to0, lo);
      return false, n;
    }
    ghost var m, place := mmu.mem, mmu.place;
    if k == 2 {
      CoveredBelow(mmu.mem, root, page.value, lo, hi);
      ok := true;
    } else {
      ok, n := AllocEntries(mmu, root, userRoot, sp, page.value, k - 1, from, to, lo, hi,
                            m0, place0, pool0, noWrite0, from0, to0, n);
      if ok {
        SameMappingsTrans(old(mmu.mem), old(mmu.place), m, place, mmu.mem);
        UppersTrans(old(mmu.mem), old(mmu.place), m, place, mmu.mem, mmu.place);
      }
    }
  }

  lemma NotCovered(m: Mem, root: Mfn, from: nat, to: nat, vp: nat)
    requires from <= vp <= to && LeafSlot(m, root, 4, vp) == None
    ensures !Covered(m, root, from, to)
  {
  }

  lemma IdxUpTo(lo: nat, hi: nat, k: nat)
    requires k >= 1 && lo <= hi && Shr(lo, k) == Shr(hi, k)
    ensures Idx(lo, k) <= Idx(hi, k)
  {
    ShrUpTo(lo, hi, k - 1);
  }

  lemma CoveredJoin(m: Mem, root: Mfn, lo: nat, mid: nat, hi: nat)
    requires Covered(m, root, lo, mid - 1) && Covered(m, root, mid, hi)
    ensures Covered(m, root, lo, hi)
  {
  }

  lemma NothingCovered(m: Mem, root: Mfn, lo: nat)
    ensures Covered(m, root, lo, lo - 1)
  {
  }

  /** The table of the loop is still the table of the pages of the next entry. */
  lemma EntryTable(m0: Mem, m1: Mem, place1: Places, added1: seq<Mfn>, m2: Mem, place2: Places, added2: seq<Mfn>,
                   root: Mfn, sp: nat, from: nat, to: nat, t: Mfn, k: nat, lo: nat, q: nat, l: nat, lo': nat)
    requires Extended(m0, m1, place1, root, added1, from, to) && Extended(m0, m2, place2, root, added2, from, to)
    requires added1 <= added2 && forall u :: u in place1 ==> u in place2 && place2[u] == place1[u]
    requires 2 <= k <= 4 && At(place1, t, sp, k, lo) && TableAt(m1, root, 4, lo, k) == Some(t)
    requires lo' < PAGES && Shr(lo, k) == q && Shr(lo', k - 1) == q * 512 + l && l < 512
    ensures At(place2, t, sp, k, lo') && TableAt(m2, root, 4, lo', k) == Some(t) && Idx(lo', k) == l
  {
    assert Shr(lo', k) == q && Idx(lo', k) == l;
    SameNode(sp, k, lo, lo');
    assert At(place2, t, sp, k, lo);
    TableKept(m0, m1, place1, added1, m2, place2, added2, root, sp, from, to, t, k, lo);
    WalkThrough(m2, root, 4, lo, k, lo');
  }

  lemma AllocatingFacts(mmu: Mmu, m0: Mem, place0: Places, pool0: seq<Mfn>, noWrite0: seq<Mfn>,
                        root: Mfn, userRoot: Mfn, sp: nat, from: nat, to: nat, n: nat)
    requires Allocating(mmu, m0, place0, pool0, noWrite0, root, userRoot, sp, from, to, n)
    ensures n <= |pool0| && Extended(m0, mmu.mem, mmu.place, root, pool0[..n], from, to) && IsRoot(mmu.place, root, sp)
  {
  }

  /** The loop over the entries of table `t` of level `k` from the offset of `from` to that of `to`. */
  method AllocEntries(mmu: Mmu, root: Mfn, ghost userRoot: Mfn, ghost sp: nat, t: Mfn, k: nat, from: nat, to: nat,
                      ghost lo: nat, ghost hi: nat, ghost m0: Mem, ghost place0: Places, ghost pool0: seq<Mfn>,
                      ghost noWrite0: seq<Mfn>, ghost from0: nat, ghost to0: nat, ghost n0: nat)
    returns (ok: bool, ghost n: nat)
    requires 2 <= k <= 4 && from0 <= lo <= hi <= to0 && hi < PAGES && Shr(lo, k) == Shr(hi, k)
    requires OffsetsOf(from, lo, k) && OffsetsOf(to, hi, k)
    requires Allocating(mmu, m0, place0, pool0, noWrite0, root, userRoot, sp, from0, to0, n0)
    requires At(mmu.place, t, sp, k, lo) && TableAt(mmu.mem, root, 4, lo, k) == Some(t) && t != userRoot
    modifies mmu`mem, mmu`pool, mmu`noWrite, mmu`place
    ensures n0 <= n && Allocating(mmu, m0, place0, pool0, noWrite0, root, userRoot, sp, from0, to0, n)
    ensures ok ==> Covered(mmu.mem, root, lo, hi) && Grown(old(mmu.mem), old(mmu.place), mmu.mem, mmu.place)
    ensures !ok ==> !CanAllocate(mmu, 1) && !Covered(mmu.mem, root, from0, to0)
    decreases k, 1
  {
    hide SameMappings, TableAt, Covered, Shr, Base, Below, Mask, Extended, Idx, Tree, Allocating, UppersFrom;
    var min, max := Idx(from, k), Idx(to, k);
    var f, top := Below(from, k), Mask(k);
    var l := min;
    n := n0;
    ghost var q, m1, place1, next := Shr(lo, k), mmu.mem, mmu.place, lo;
    AllocatingFacts(mmu, m0, place0, pool0, noWrite0, root, userRoot, sp, from0, to0, n);
    IdxUpTo(lo, hi, k);
    SameMappingsRefl(m1, place1);
    UppersSame(m1, place1);
    NothingCovered(m1, root, lo);
    while l <= max
      invariant min <= l <= max + 1 && f == (if l == min then Below(from, k) else 0) && (l <= max ==> top == Mask(k))
      invariant next == if l == min then lo else if l <= max then Base(q * 512 + l, k - 1) else hi + 1
      invariant n0 <= n && Allocating(mmu, m0, place0, pool0, noWrite0, root, userRoot, sp, from0, to0, n)
      invariant Grown(m1, place1, mmu.mem, mmu.place) && Covered(mmu.mem, root, lo, next - 1)
    {
      if l == max {
        top := Below(to, k);
      }
      EntryRangeHolds(lo, hi, q, k, l, from, to, f, top);
      ghost var lo' := if l == Idx(lo, k) then lo else Base(q * 512 + l, k - 1);
      ghost var hi' := if l == Idx(hi, k) then hi else Base(q * 512 + l + 1, k - 1) - 1;
      ghost var m2, place2 := mmu.mem, mmu.place;
      AllocatingFacts(mmu, m0, place0, pool0, noWrite0, root, userRoot, sp, from0, to0, n);
      EntryTable(m0, m1, place1, pool0[..n0], m2, place2, pool0[..n], root, sp, from0, to0, t, k, lo, q, l, lo');
      ok, n := AllocEntry(mmu, root, userRoot, sp, t, k, l, f, top, lo', hi', m0, place0, pool0, noWrite0, from0, to0,
                          n);
      if !ok {
        return;
      }
      SameMappingsTrans(m1, place1, m2, place2, mmu.mem);
      UppersTrans(m1, place1, m2, place2, mmu.mem, mmu.place);
      CoveredKept(m2, mmu.mem, place2, root, sp, lo, next - 1);
      CoveredJoin(mmu.mem, root, lo, lo', hi');
      next := hi' + 1;
      f := 0;
      l := l + 1;
    }
    ok := true;
  }

  /** USERSPACE_END */
  const USERSPACE_END: nat := 0x8000_0000_0000

  /** archPageTableOfflineAllocTree; a result of false is a failed assertion. It succeeds iff the range ends in user
      space and there are pages for all tables that the range lacks; `n` counts those that were allocated. */
  method AllocTree(mmu: Mmu, root: Mfn, ghost userRoot: Mfn, ghost sp: nat, fromAddr: nat, toAddr: nat)
    returns (ok: bool, ghost n: nat)
    requires Offline(mmu, root, userRoot, sp) && fromAddr <= toAddr
    modifies mmu`mem, mmu`pool, mmu`noWrite, mmu`place
    ensures
      var need := TablesMissing(old(mmu.mem), root, PagesBetween(fromAddr / PAGE_SIZE, toAddr / PAGE_SIZE));
      && (ok <==> toAddr <= 0x8000_0000_0000 && old(CanAllocate(mmu, |need|)))
      && (ok ==> n == |need|)
    ensures toAddr <= 0x8000_0000_0000 ==>
      && Offline(mmu, root, userRoot, sp) && n <= |old(mmu.pool)|
      && mmu.pool == old(mmu.pool)[n..] && mmu.noWrite == old(mmu.noWrite) + old(mmu.pool)[..n]
      && Grown(old(mmu.mem), old(mmu.place), mmu.mem, mmu.place) && UserRootSame(old(mmu.mem), mmu.mem, userRoot)
      && Extended(old(mmu.mem), mmu.mem, mmu.place, root, old(mmu.pool)[..n], fromAddr / PAGE_SIZE, toAddr / PAGE_SIZE)
    ensures ok ==> Covered(mmu.mem, root, fromAddr / PAGE_SIZE, toAddr / PAGE_SIZE)
  {
    hide Tree, SameMappings, Extended, TableAt, DualRoots, AllWaiting, ZeroPage, Shr, Covered, TablesMissing,
         PagesBetween, UppersFrom;
    n := 0;
    if toAddr > USERSPACE_END {
      return false, n;
    }
    var from, to := fromAddr / PAGE_SIZE, toAddr / PAGE_SIZE;
    ghost var m0 := mmu.mem;
    RootAt(mmu.place, root, sp, from);
    TopShr(from);
    TopShr(to);
    NothingAdded(mmu.mem, mmu.place, root, from, to);
    SameMappingsRefl(mmu.mem, mmu.place);
    UppersSame(mmu.mem, mmu.place);
    assert mmu.pool[..0] == [];
    RootTable(mmu.mem, root, from);
    AllOffsetsOwn(from, to);
    ok, n := AllocEntries(mmu, root, userRoot, sp, root, 4, from, to, from, to,
                          mmu.mem, mmu.place, mmu.pool, mmu.noWrite, from, to, 0);
    if ok {
      CoveredLacksNone(mmu.mem, root, from, to);
    } else {
      UncoveredLacksSome(mmu.mem, root, from, to);
    }
  }

  lemma RootTable(m: Mem, root: Mfn, vp: nat)
    ensures TableAt(m, root, 4, vp, 4) == Some(root)
  {
  }

  lemma AllOffsetsOwn(from: nat, to: nat)
    ensures OffsetsOf(from, from, 4) && OffsetsOf(to, to, 4)
  {
  }

  lemma CoveredLacksNone(m: Mem, root: Mfn, from: nat, to: nat)
    requires Covered(m, root, from, to)
    ensures TablesMissing(m, root, PagesBetween(from, to)) == {}
  {
    hide TableAt, LeafSlot;
    NoneMissing(m, root, PagesBetween(from, to));
  }

  lemma UncoveredLacksSome(m: Mem, root: Mfn, from: nat, to: nat)
    requires !Covered(m, root, from, to)
    ensures TablesMissing(m, root, PagesBetween(from, to)) != {}
  {
    hide LeafSlot, TableAt;
    var vp: nat :| from <= vp <= to && LeafSlot(m, root, 4, vp) == None;
    LeafOfTable(m, root, vp);
    assert (1, Shr(vp, 1)) in TablesMissing(m, root, PagesBetween(from, to));
  }

  lemma LeafOfTable(m: Mem, root: Mfn, vp: nat)
    requires LeafSlot(m, root, 4, vp) == None
    ensures TableAt(m, root, 4, vp, 1) == None
  {
    WalkThrough(m, root, 4, vp, 1, vp);
  }

  lemma NothingAdded(m: Mem, place: Places, root: Mfn, from: nat, to: nat)
    ensures Extended(m, m, place, root, [], from, to)
  {
  }

  /** The assertion lets `toAddr` be USERSPACE_END itself, whose top-level entry belongs to the kernel half: the
      range then always leaves that entry in use. */
  lemma EndOfUserspaceIsKernel(m: Mem, root: Mfn, from: nat, to: nat)
    requires Covered(m, root, from, to) && from <= to && to == USERSPACE_END / PAGE_SIZE
    ensures Idx(to, 4) == USER_ENTRIES && Get(m, Slot(root, USER_ENTRIES)) != FREE
  {
    OffsetsAreIndices(USERSPACE_END);
    assert LeafSlot(m, root, 4, to).Some?;
  }
}
