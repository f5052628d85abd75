/** Inserting a page into a live tree: archPageTableInsert and what it calls. */
module PageInsert {
  import opened Paging
  import opened Hardware
  import opened PageNeeds
  import opened PageOthers
  import opened Mmu

  /** The entry `c` of a level `j + 1` table makes that table's node of `vp` map `vp` to `leaf` and nothing else. */
  ghost predicate Single(m: Mem, place: Places, c: Pte, sp: nat, j: nat, vp: nat, leaf: Pte) {
    if j == 0 then c == leaf
    else
      && At(place, c.frame, sp, j, vp) && c.flags == 0x067
      && (forall wp: nat :: wp < PAGES && Shr(wp, j) == Shr(vp, j) ==>
            Mapping(m, c.frame, j, wp) == if wp == vp then leaf else FREE)
      && Narrow(m, c, j, vp)
  }

  /** Below the table of `c` there are tables on the path of `vp` only. */
  ghost predicate Narrow(m: Mem, c: Pte, j: nat, vp: nat) {
    forall wp: nat, i {:trigger TableAt(m, c.frame, j, wp, i)} ::
      wp < PAGES && 1 <= i <= j && Shr(wp, j) == Shr(vp, j) && TableAt(m, c.frame, j, wp, i).Some? ==>
        Shr(wp, i) == Shr(vp, i)
  }

  lemma NarrowAbove(m: Mem, place: Places, page: Mfn, sp: nat, j: nat, vp: nat, c: Pte)
    requires Tree(m, place) && 1 <= j <= 3 && vp < PAGES && page !in place && ZeroPage(m, page)
    requires j > 1 ==> At(place, c.frame, sp, j - 1, vp) && Narrow(m, c, j - 1, vp)
    ensures Narrow(m[Slot(page, Idx(vp, j)) := c], Pte(page, TABLE_PROT), j, vp)
  {
    hide Tree;
    var m' := m[Slot(page, Idx(vp, j)) := c];
    forall wp: nat, i {:trigger TableAt(m', page, j, wp, i)}
      | wp < PAGES && 1 <= i <= j && Shr(wp, j) == Shr(vp, j) && TableAt(m', page, j, wp, i).Some?
      ensures Shr(wp, i) == Shr(vp, i)
    {
      if i < j {
        NarrowBelow(m, place, page, sp, j, vp, c, wp, i);
      }
    }
  }

  lemma NarrowBelow(m: Mem, place: Places, page: Mfn, sp: nat, j: nat, vp: nat, c: Pte, wp: nat, i: nat)
    requires Tree(m, place) && 2 <= j <= 3 && vp < PAGES && page !in place && ZeroPage(m, page)
    requires At(place, c.frame, sp, j - 1, vp) && Narrow(m, c, j - 1, vp)
    requires wp < PAGES && 1 <= i < j && Shr(wp, j) == Shr(vp, j)
    requires TableAt(m[Slot(page, Idx(vp, j)) := c], page, j, wp, i).Some?
    ensures Shr(wp, i) == Shr(vp, i)
  {
    var m' := m[Slot(page, Idx(vp, j)) := c];
    assert Get(m, Slot(page, Idx(wp, j))) == FREE;
    assert Idx(wp, j) == Idx(vp, j);
    assert Shr(wp, j - 1) == Shr(vp, j - 1);
    SameNode(sp, j - 1, vp, wp);
    TableSame(m, m', place, c.frame, sp, j - 1, wp, i);
    assert TableAt(m, c.frame, j - 1, wp, i).Some?;
  }

  /** A fresh page with `c` at the index of `vp` is the table above `c`. */
  lemma GrowChain(m: Mem, place: Places, page: Mfn, sp: nat, j: nat, vp: nat, c: Pte, leaf: Pte)
    requires Tree(m, place) && 1 <= j <= 3 && vp < PAGES && leaf != FREE
    requires page !in place && ZeroPage(m, page) && Single(m, place, c, sp, j - 1, vp, leaf)
    ensures
      var m' := m[Slot(page, Idx(vp, j)) := c];
      var place' := place[page := NodeFor(sp, j, vp)];
      && Tree(m', place') && SameWalks(m, m', place) && UppersFrom(m, place, m', place')
      && Single(m', place', Pte(page, TABLE_PROT), sp, j, vp, leaf) && Pte(page, TABLE_PROT) != FREE
  {
    hide Narrow, UppersFrom;
    var m' := m[Slot(page, Idx(vp, j)) := c];
    var place' := place[page := NodeFor(sp, j, vp)];
    PutOffPath(m, place, Slot(page, Idx(vp, j)), c);
    NarrowAbove(m, place, page, sp, j, vp, c);
    ChildNodeBelow(sp, j, vp);
    UppersPage(m, place, page, NodeFor(sp, j, vp));
    UppersPut(m, place', Slot(page, Idx(vp, j)), c);
    UppersTrans(m, place, m, place', m', place');
    assert forall t, i: nat {:trigger Get(m', Slot(t, i))} ::
        Get(m', Slot(t, i)) == if t == page && i == Idx(vp, j) then c else Get(m, Slot(t, i));
    forall wp: nat | wp < PAGES && Shr(wp, j) == Shr(vp, j)
      ensures Mapping(m', page, j, wp) == if wp == vp then leaf else FREE
    {
      if Idx(wp, j) == Idx(vp, j) {
        assert Shr(wp, j - 1) == Shr(vp, j - 1);
        if j > 1 {
          assert At(place, c.frame, sp, j - 1, wp) by { SameNode(sp, j - 1, vp, wp); }
          WalkPlace(m, place, c.frame, sp, j - 1, wp);
        }
      }
    }
  }

  lemma ChildNodeBelow(sp: nat, j: nat, vp: nat)
    requires 1 <= j <= 4 && vp < PAGES
    ensures j >= 2 ==> Child(NodeFor(sp, j, vp), Idx(vp, j)) == NodeFor(sp, j - 1, vp)
  {
    if j >= 2 {
      ChildNode(sp, j, vp);
    }
  }

  lemma SameNode(sp: nat, k: nat, vp: nat, wp: nat)
    requires k <= 4 && vp < PAGES && wp < PAGES && Shr(vp, k) == Shr(wp, k)
    ensures NodeFor(sp, k, vp) == NodeFor(sp, k, wp)
  {
    if k < 4 {
      ShrMono(vp, wp, k, 3);
      TopShr(vp);
      TopShr(wp);
    }
  }

  /** Hanging a chain for `vp` into the free slot at which its walk ends adds exactly `vp`. */
  lemma Attach(m: Mem, place: Places, root: Mfn, sp: nat, t: Mfn, k: nat, vp: nat, c: Pte, leaf: Pte)
    requires Tree(m, place) && IsRoot(place, root, sp) && At(place, t, sp, k, vp)
    requires TableAt(m, root, 4, vp, k) == Some(t) && Get(m, Slot(t, Idx(vp, k))) == FREE
    requires Single(m, place, c, sp, k - 1, vp, leaf)
    ensures
      var m' := m[Slot(t, Idx(vp, k)) := c];
      && Tree(m', place)
      && (forall wp: nat :: wp < PAGES ==>
            Mapping(m', root, 4, wp) == if wp == vp then leaf else Mapping(m, root, 4, wp))
      && (forall wp: nat :: wp < PAGES && LeafSlot(m, root, 4, wp).Some? ==>
            LeafSlot(m', root, 4, wp) == LeafSlot(m, root, 4, wp))
  {
    var s := Slot(t, Idx(vp, k));
    var m' := m[s := c];
    ChildNodeBelow(sp, k, vp);
    assert forall u, i: nat {:trigger Get(m', Slot(u, i))} ::
        Get(m', Slot(u, i)) == if u == t && i == Idx(vp, k) then c else Get(m, Slot(u, i));
    forall wp: nat | wp < PAGES
      ensures Mapping(m', root, 4, wp) == if wp == vp then leaf else Mapping(m, root, 4, wp)
      ensures LeafSlot(m, root, 4, wp).Some? ==> LeafSlot(m', root, 4, wp) == LeafSlot(m, root, 4, wp)
    {
      AttachAt(m, place, root, sp, t, k, vp, c, leaf, wp);
    }
  }

  lemma AttachAt(m: Mem, place: Places, root: Mfn, sp: nat, t: Mfn, k: nat, vp: nat, c: Pte, leaf: Pte, wp: nat)
    requires Tree(m, place) && IsRoot(place, root, sp) && At(place, t, sp, k, vp)
    requires TableAt(m, root, 4, vp, k) == Some(t) && Get(m, Slot(t, Idx(vp, k))) == FREE
    requires Single(m, place, c, sp, k - 1, vp, leaf) && wp < PAGES
    ensures Mapping(m[Slot(t, Idx(vp, k)) := c], root, 4, wp) == if wp == vp then leaf else Mapping(m, root, 4, wp)
    ensures LeafSlot(m, root, 4, wp).Some? ==>
              LeafSlot(m[Slot(t, Idx(vp, k)) := c], root, 4, wp) == LeafSlot(m, root, 4, wp)
  {
    var s := Slot(t, Idx(vp, k));
    var m' := m[s := c];
    RootAt(place, root, sp, wp);
    if Shr(wp, k - 1) == Shr(vp, k - 1) {
      AttachBelow(m, place, root, sp, t, k, vp, c, leaf, wp);
    } else {
      assert AgreeFrom(m, m', place, root, sp, 4, wp, 1);
      WalkSame(m, m', place, root, sp, 4, wp);
      WalkPlace(m, place, root, sp, 4, wp);
    }
  }

  lemma AttachBelow(m: Mem, place: Places, root: Mfn, sp: nat, t: Mfn, k: nat, vp: nat, c: Pte, leaf: Pte, wp: nat)
    requires Tree(m, place) && IsRoot(place, root, sp) && At(place, t, sp, k, vp)
    requires TableAt(m, root, 4, vp, k) == Some(t) && Get(m, Slot(t, Idx(vp, k))) == FREE
    requires Single(m, place, c, sp, k - 1, vp, leaf) && wp < PAGES && Shr(wp, k - 1) == Shr(vp, k - 1)
    ensures Mapping(m[Slot(t, Idx(vp, k)) := c], root, 4, wp) == if wp == vp then leaf else Mapping(m, root, 4, wp)
    ensures LeafSlot(m, root, 4, wp).Some? ==>
              LeafSlot(m[Slot(t, Idx(vp, k)) := c], root, 4, wp) == LeafSlot(m, root, 4, wp)
  {
    hide Tree, Narrow;
    var s := Slot(t, Idx(vp, k));
    var m' := m[s := c];
    RootAt(place, root, sp, vp);
    WalkThrough(m, root, 4, vp, k, wp);
    TableSame(m, m', place, root, sp, 4, vp, k);
    WalkThrough(m', root, 4, vp, k, wp);
    if k > 1 {
      SameNode(sp, k - 1, vp, wp);
      WalkSame(m, m', place, c.frame, sp, k - 1, wp);
      WalkPlace(m, place, c.frame, sp, k - 1, wp);
    }
  }

  /** A chain for `vp` provides tables on the path of `vp` only. */
  lemma AttachPaves(m: Mem, place: Places, root: Mfn, sp: nat, t: Mfn, k: nat, vp: nat, c: Pte, leaf: Pte)
    requires Tree(m, place) && IsRoot(place, root, sp) && At(place, t, sp, k, vp)
    requires TableAt(m, root, 4, vp, k) == Some(t) && Get(m, Slot(t, Idx(vp, k))) == FREE
    requires Single(m, place, c, sp, k - 1, vp, leaf)
    ensures Paving(m, m[Slot(t, Idx(vp, k)) := c], root, vp)
  {
    hide Tree, Single, TableAt, Shr;
    var m' := m[Slot(t, Idx(vp, k)) := c];
    TopTable(m, root, vp);
    forall wp: nat, j {:trigger TableAt(m', root, 4, wp, j)} | wp < PAGES && 1 <= j <= 4
      ensures TableAt(m, root, 4, wp, j).Some? ==> TableAt(m', root, 4, wp, j) == TableAt(m, root, 4, wp, j)
      ensures TableAt(m, root, 4, wp, j).None? && TableAt(m', root, 4, wp, j).Some? ==> Shr(wp, j) == Shr(vp, j)
    {
      if Shr(wp, k - 1) == Shr(vp, k - 1) {
        AttachTableBelow(m, place, root, sp, t, k, vp, c, leaf, wp, j);
      } else {
        AttachTableElsewhere(m, place, root, sp, t, k, vp, c, wp, j);
      }
    }
  }

  lemma TopTable(m: Mem, root: Mfn, vp: nat)
    ensures TableAt(m, root, 4, vp, 4) == Some(root)
  {
  }

  lemma AttachTableElsewhere(m: Mem, place: Places, root: Mfn, sp: nat, t: Mfn, k: nat, vp: nat, c: Pte, wp: nat,
                             j: nat)
    requires Tree(m, place) && IsRoot(place, root, sp) && At(place, t, sp, k, vp)
    requires wp < PAGES && 1 <= j <= 4 && Shr(wp, k - 1) != Shr(vp, k - 1) && (k == 4 ==> t == root)
    ensures TableAt(m[Slot(t, Idx(vp, k)) := c], root, 4, wp, j) == TableAt(m, root, 4, wp, j)
  {
    var m' := m[Slot(t, Idx(vp, k)) := c];
    RootAt(place, root, sp, wp);
    assert AgreeFrom(m, m', place, root, sp, 4, wp, j);
    TableSame(m, m', place, root, sp, 4, wp, j);
  }

  lemma AttachTableBelow(m: Mem, place: Places, root: Mfn, sp: nat, t: Mfn, k: nat, vp: nat, c: Pte, leaf: Pte,
                         wp: nat, j: nat)
    requires Tree(m, place) && IsRoot(place, root, sp) && At(place, t, sp, k, vp)
    requires TableAt(m, root, 4, vp, k) == Some(t) && Get(m, Slot(t, Idx(vp, k))) == FREE
    requires Single(m, place, c, sp, k - 1, vp, leaf) && wp < PAGES && 1 <= j <= 4 && Shr(wp, k - 1) == Shr(vp, k - 1)
    ensures
      var m' := m[Slot(t, Idx(vp, k)) := c];
      && (TableAt(m, root, 4, wp, j).Some? ==> TableAt(m', root, 4, wp, j) == TableAt(m, root, 4, wp, j))
      && (TableAt(m, root, 4, wp, j).None? && TableAt(m', root, 4, wp, j).Some? ==> Shr(wp, j) == Shr(vp, j))
  {
    hide Tree;
    var m' := m[Slot(t, Idx(vp, k)) := c];
    RootAt(place, root, sp, wp);
    WalkThrough(m, root, 4, vp, k, wp);
    if j >= k {
      TableSame(m, m', place, root, sp, 4, wp, j);
    } else {
      TableSame(m, m', place, root, sp, 4, wp, k);
      TableChain(m, root, 4, wp, k, j);
      TableChain(m', root, 4, wp, k, j);
      if k - 1 > 0 {
        SameNode(sp, k - 1, vp, wp);
        TableSame(m, m', place, c.frame, sp, k - 1, wp, j);
      }
    }
  }

  /** The walk below level `k` is that of the entry met there. */
  lemma {:induction false} TableChain(m: Mem, t: Mfn, i: nat, wp: nat, k: nat, j: nat)
    requires 1 <= j < k <= i && TableAt(m, t, i, wp, k).Some?
    ensures
      var e := Get(m, Slot(TableAt(m, t, i, wp, k).value, Idx(wp, k)));
      TableAt(m, t, i, wp, j) == if e == FREE then None else TableAt(m, e.frame, k - 1, wp, j)
    decreases i
  {
    if k < i { TableChain(m, Get(m, Slot(t, Idx(wp, i))).frame, i - 1, wp, k, j); }
  }

  // ------------------------------------------------------------------ methods

  /** The kernel pages at which frames `ps` are mapped. */
  ghost function KernelPages(kernelPage: map<Mfn, nat>, ps: seq<Mfn>): set<nat> {
    set p | p in ps && p in kernelPage :: kernelPage[p]
  }

  /** Memory `m` is `f` with write access taken from the entries `own`. */
  ghost predicate Marked(f: Mem, m: Mem, own: set<Slot>) {
    forall s :: Get(m, s) == if s in own then ClearRw(Get(f, s)) else Get(f, s)
  }

  ghost predicate SameOn(m: Mem, n: Mem, place: Places) {
    forall s: Slot :: s.page in place ==> Get(m, s) == Get(n, s)
  }

  /** The leaf slots at which the kernel maps the frames `ps`. */
  ghost function OwnSlots(m: Mem, root: Mfn, kernelPage: map<Mfn, nat>, ps: seq<Mfn>): set<Slot> {
    set p | p in ps && p in kernelPage && LeafSlot(m, root, 4, kernelPage[p]).Some? ::
      LeafSlot(m, root, 4, kernelPage[p]).value
  }

  lemma NoOwnSlots(m: Mem, root: Mfn, kp: map<Mfn, nat>)
    ensures OwnSlots(m, root, kp, []) == {}
  {
  }

  lemma ZeroElsewhere(m: Mem, s: Slot, c: Pte, q: Mfn)
    requires ZeroPage(m, q) && s.page != q
    ensures ZeroPage(m[s := c], q)
  {
    forall i: nat
      ensures Get(m[s := c], Slot(q, i)) == FREE
    {
      assert Get(m, Slot(q, i)) == FREE;
    }
  }

  /** _insertPtp: a fresh table page with one entry; its own mapping is queued to lose write access. */
  method InsertPtp(mmu: Mmu, root: Mfn, off: nat, c: Pte) returns (r: Option<Mfn>)
    requires mmu.PoolOk()
    requires mmu.pool != [] ==>
      var p := mmu.pool[0];
      var own := LeafSlot(mmu.mem[Slot(p, off) := c], root, 4, mmu.kernelPage[p]);
      own.Some? && own.value.page in mmu.place
    modifies mmu`mem, mmu`queue, mmu`history, mmu`pool
    ensures r == if old(mmu.pool) == [] then None else Some(old(mmu.pool)[0])
    ensures r == None ==> mmu.pool == []
    ensures r.Some? ==>
      var p := r.value;
      var m1 := old(mmu.mem)[Slot(p, off) := c];
      var own := LeafSlot(m1, root, 4, mmu.kernelPage[p]).value;
      && mmu.pool == old(mmu.pool)[1..]
      && mmu.Eff() == old(mmu.Eff())[Slot(p, off) := c][own := ClearRw(Get(m1, own))]
      && (mmu.mem == m1 || mmu.mem == old(mmu.Eff())[Slot(p, off) := c])
      && mmu.PoolOk() && p !in mmu.pool
  {
    r := mmu.PtpAlloc();
    if r == None {
      return;
    }
    var p := r.value;
    ApplyPut(mmu.mem, mmu.queue, Slot(p, off), c);
    forall q | q in mmu.pool
      ensures ZeroPage(mmu.mem[Slot(p, off) := c], q)
    {
      ZeroElsewhere(mmu.mem, Slot(p, off), c, q);
    }
    mmu.mem := mmu.mem[Slot(p, off) := c];
    var own := LeafSlot(mmu.mem, root, 4, mmu.kernelPage[p]).value;
    mmu.DeferredUpdate(own, ClearRw(Get(mmu.mem, own)));
  }

  /** What the paths and the pool of a live tree satisfy when no update is queued: the kernel maps every page of
      the pool. */
  ghost predicate Ready(mmu: Mmu, root: Mfn, userRoot: Mfn, sp: nat)
    reads mmu
  {
    && mmu.PoolOk() && Tree(mmu.mem, mmu.place)
    && IsRoot(mmu.place, root, sp) && IsRoot(mmu.place, userRoot, sp) && root != userRoot
    && (forall p :: p in mmu.pool ==> Present(Mapping(mmu.mem, root, 4, mmu.kernelPage[p])))
  }

  /** The walk of _insertInternal: the table and level at which the path of a page ends. */
  method WalkToEnd(m: Mem, ghost place: Places, root: Mfn, ghost sp: nat, vp: nat) returns (t: Mfn, k: nat)
    requires Tree(m, place) && IsRoot(place, root, sp) && vp < PAGES
    ensures k == EndLevel(m, root, 4, vp) && TableAt(m, root, 4, vp, k) == Some(t) && At(place, t, sp, k, vp)
    ensures k > 1 ==> Get(m, Slot(t, Idx(vp, k))) == FREE
  {
    t, k := root, 4;
    RootAt(place, root, sp, vp);
    while k > 1 && Get(m, Slot(t, Idx(vp, k))) != FREE
      invariant 1 <= k <= 4
      invariant At(place, t, sp, k, vp) && TableAt(m, root, 4, vp, k) == Some(t)
      invariant EndLevel(m, root, 4, vp) == EndLevel(m, t, k, vp)
    {
      TableStep(m, root, 4, vp, k);
      ChildNode(sp, k, vp);
      t, k := Get(m, Slot(t, Idx(vp, k))).frame, k - 1;
    }
  }

  /** The state of _insertInternal after `n` pages of the chain: `f` is memory with the chain but without the
      lost write accesses, which are those of the pages allocated so far. */
  ghost predicate Growing(m0: Mem, place0: Places, root: Mfn, kp: map<Mfn, nat>, pool0: seq<Mfn>, n: nat,
                          f: Mem, place: Places, live: Mem, eff: Mem)
  {
    && n <= |pool0|
    && Tree(f, place) && SameOn(m0, f, place0) && place0.Keys <= place.Keys
    && (forall s :: s !in OwnSlots(m0, root, kp, pool0[..n]) ==> Get(live, s) == Get(f, s))
    && Marked(f, eff, OwnSlots(m0, root, kp, pool0[..n]))
    && UppersFrom(m0, place0, f, place)
  }

  /** The root maps the kernel page of each of the frames `ps`. */
  ghost predicate KernelMapped(m0: Mem, root: Mfn, kp: map<Mfn, nat>, ps: seq<Mfn>) {
    forall p :: p in ps ==> p in kp && kp[p] < PAGES && LeafSlot(m0, root, 4, kp[p]).Some? && KernelHas(m0, root, kp, p)
  }

  /** The kernel can reach the frame at its page: the mapping is in use, and present. */
  ghost predicate KernelHas(m: Mem, root: Mfn, kp: map<Mfn, nat>, p: Mfn)
    requires p in kp
  {
    Present(Mapping(m, root, 4, kp[p]))
  }

  /** What the pool promises about the own mappings of its pages. */
  ghost predicate PoolMapped(m0: Mem, root: Mfn, kp: map<Mfn, nat>, pool0: seq<Mfn>) {
    && KernelMapped(m0, root, kp, pool0)
    && (forall p, q :: p in kp && q in kp && kp[p] == kp[q] ==> p == q)
    && (forall i, j :: 0 <= i < j < |pool0| ==> pool0[i] != pool0[j])
  }

  /** The own mapping of the next page of the pool has not been touched by the pages before it. */
  lemma NextOwnSlot(m0: Mem, place0: Places, root: Mfn, sp: nat, kp: map<Mfn, nat>, pool0: seq<Mfn>, n: nat)
    requires Tree(m0, place0) && IsRoot(place0, root, sp) && n < |pool0| && PoolMapped(m0, root, kp, pool0)
    ensures
      var own := LeafSlot(m0, root, 4, kp[pool0[n]]).value;
      && own.page in place0 && place0[own.page].level == 1
      && own !in OwnSlots(m0, root, kp, pool0[..n])
      && OwnSlots(m0, root, kp, pool0[..n + 1]) == OwnSlots(m0, root, kp, pool0[..n]) + {own}
  {
    var p := pool0[n];
    var before := OwnSlots(m0, root, kp, pool0[..n]);
    RootAt(place0, root, sp, kp[p]);
    WalkPlace(m0, place0, root, sp, 4, kp[p]);
    var own := LeafSlot(m0, root, 4, kp[p]).value;
    assert pool0[..n + 1] == pool0[..n] + [p];
    if own in before {
      var q :| q in pool0[..n] && LeafSlot(m0, root, 4, kp[q]) == Some(own);
      RootAt(place0, root, sp, kp[q]);
      LeafSlotInjective(m0, place0, root, sp, kp[p], root, sp, kp[q]);
      assert false;
    }
  }

  /** The walk to the next page's own mapping is the one in the memory at the start. */
  lemma NextWalk(m0: Mem, place0: Places, root: Mfn, sp: nat, kp: map<Mfn, nat>, pool0: seq<Mfn>, n: nat,
                 f: Mem, place: Places, live: Mem, eff: Mem, i: nat, c: Pte)
    requires Tree(m0, place0) && IsRoot(place0, root, sp) && n < |pool0| && PoolMapped(m0, root, kp, pool0)
    requires Growing(m0, place0, root, kp, pool0, n, f, place, live, eff) && pool0[n] !in place
    ensures
      var p := pool0[n];
      LeafSlot(live[Slot(p, i) := c], root, 4, kp[p]) == LeafSlot(m0, root, 4, kp[p])
  {
    var p := pool0[n];
    var live1 := live[Slot(p, i) := c];
    RootAt(place0, root, sp, kp[p]);
    OwnSlotsLevel(m0, place0, root, sp, kp, pool0[..n]);
    assert forall t, i: nat {:trigger Get(live1, Slot(t, i))} ::
        t in place0 && place0[t].level >= 2 ==> Get(live1, Slot(t, i)) == Get(m0, Slot(t, i));
    WalkSame(m0, live1, place0, root, sp, 4, kp[p]);
  }

  lemma GrowStep(m0: Mem, place0: Places, root: Mfn, sp: nat, kp: map<Mfn, nat>, pool0: seq<Mfn>, n: nat,
                 f: Mem, place: Places, live: Mem, eff: Mem, i: nat, c: Pte, node: Node, live2: Mem, own: Slot)
    requires Tree(m0, place0) && IsRoot(place0, root, sp) && n < |pool0| && PoolMapped(m0, root, kp, pool0)
    requires Growing(m0, place0, root, kp, pool0, n, f, place, live, eff)
    requires pool0[n] !in place && Tree(f[Slot(pool0[n], i) := c], place[pool0[n] := node])
    requires UppersFrom(f, place, f[Slot(pool0[n], i) := c], place[pool0[n] := node])
    requires Some(own) == LeafSlot(m0, root, 4, kp[pool0[n]])
    requires live2 == live[Slot(pool0[n], i) := c] || live2 == eff[Slot(pool0[n], i) := c]
    ensures Growing(m0, place0, root, kp, pool0, n + 1, f[Slot(pool0[n], i) := c], place[pool0[n] := node], live2,
                    eff[Slot(pool0[n], i) := c][own := ClearRw(Get(live[Slot(pool0[n], i) := c], own))])
  {
    hide Tree, LeafSlot, OwnSlots, ClearRw, UppersFrom;
    NextOwnSlot(m0, place0, root, sp, kp, pool0, n);
    OwnSlotsLevel(m0, place0, root, sp, kp, pool0[..n]);
    UppersTrans(m0, place0, f, place, f[Slot(pool0[n], i) := c], place[pool0[n] := node]);
    var before, s := OwnSlots(m0, root, kp, pool0[..n]), Slot(pool0[n], i);
    assert Get(live[s := c], own) == Get(f, own);
    MarkStep(f, eff, before, s, c, own, Get(f, own));
    assert forall u :: u !in before ==> Get(eff, u) == Get(f, u);
  }

  lemma MarkStep(f: Mem, eff: Mem, before: set<Slot>, s: Slot, c: Pte, own: Slot, p: Pte)
    requires Marked(f, eff, before) && s !in before && own !in before && own != s && p == Get(f, own)
    ensures Marked(f[s := c], eff[s := c][own := ClearRw(p)], before + {own})
  {
  }

  lemma OwnSlotsLevel(m: Mem, place: Places, root: Mfn, sp: nat, kp: map<Mfn, nat>, ps: seq<Mfn>)
    requires Tree(m, place) && IsRoot(place, root, sp)
    requires forall p :: p in ps && p in kp ==> kp[p] < PAGES
    ensures forall s :: s in OwnSlots(m, root, kp, ps) ==> s.page in place && place[s.page].level == 1
  {
    forall p | p in ps && p in kp && LeafSlot(m, root, 4, kp[p]).Some?
      ensures var s := LeafSlot(m, root, 4, kp[p]).value; s.page in place && place[s.page].level == 1
    {
      RootAt(place, root, sp, kp[p]);
      WalkPlace(m, place, root, sp, 4, kp[p]);
    }
  }

  /** Taking write access from own mappings changes the mappings of those pages only. */
  lemma MarkedMapping(m0: Mem, root: Mfn, sp: nat, kp: map<Mfn, nat>, ps: seq<Mfn>, f: Mem, e: Mem, place: Places)
    requires Tree(f, place) && IsRoot(place, root, sp) && KernelMapped(m0, root, kp, ps)
    requires Marked(f, e, OwnSlots(m0, root, kp, ps))
    requires forall p :: p in ps ==> LeafSlot(f, root, 4, kp[p]) == LeafSlot(m0, root, 4, kp[p])
    ensures Tree(e, place)
    ensures forall wp: nat :: wp < PAGES ==>
              Mapping(e, root, 4, wp) ==
              if wp in KernelPages(kp, ps) then ClearRw(Mapping(f, root, 4, wp)) else Mapping(f, root, 4, wp)
  {
    var own := OwnSlots(m0, root, kp, ps);
    assert own == OwnSlots(f, root, kp, ps);
    OwnSlotsLevel(f, place, root, sp, kp, ps);
    assert forall t, i: nat {:trigger Get(e, Slot(t, i))} ::
        t in place && place[t].level >= 2 ==> Get(e, Slot(t, i)) == Get(f, Slot(t, i));
    forall wp: nat | wp < PAGES
      ensures Mapping(e, root, 4, wp) ==
              if wp in KernelPages(kp, ps) then ClearRw(Mapping(f, root, 4, wp)) else Mapping(f, root, 4, wp)
    {
      RootAt(place, root, sp, wp);
      WalkSame(f, e, place, root, sp, 4, wp);
      if LeafSlot(f, root, 4, wp).Some? {
        var s := LeafSlot(f, root, 4, wp).value;
        if s in own {
          var p :| p in ps && p in kp && LeafSlot(f, root, 4, kp[p]) == Some(s);
          RootAt(place, root, sp, kp[p]);
          LeafSlotInjective(f, place, root, sp, wp, root, sp, kp[p]);
        }
      }
    }
  }

  /** After the insertion: `vp` maps to `leaf`, the pages `marks` are no longer writable, all else is as before. */
  ghost predicate Inserted(m0: Mem, m: Mem, root: Mfn, vp: nat, leaf: Pte, marks: set<nat>) {
    forall wp: nat :: wp < PAGES ==>
      Mapping(m, root, 4, wp) ==
      if wp == vp then leaf
      else if wp in marks then ClearRw(Mapping(m0, root, 4, wp))
      else Mapping(m0, root, 4, wp)
  }

  /** The two top-level entries of index `i` agree. */
  predicate Agree(m: Mem, root: Mfn, userRoot: Mfn, i: nat) {
    Get(m, Slot(root, i)) == Get(m, Slot(userRoot, i))
  }

  /** The top-level entries after an insertion: `top` tells whether the entry of index `i0` is new, in which case
      both roots have it. */
  ghost predicate RootsAfter(m0: Mem, m: Mem, root: Mfn, userRoot: Mfn, i0: nat, top: bool) {
    forall i: nat ::
      && (top && i == i0 ==> Agree(m, root, userRoot, i))
      && (!(top && i == i0) ==>
            Get(m, Slot(root, i)) == Get(m0, Slot(root, i)) && Get(m, Slot(userRoot, i)) == Get(m0, Slot(userRoot, i)))
  }

  /** Memory `m` once the chain `c` hangs in `s`, and at top level also in the user root. */
  ghost function Hung(m: Mem, s: Slot, userRoot: Mfn, k: nat, c: Pte): Mem {
    if k == 4 then m[s := c][Slot(userRoot, s.idx) := c] else m[s := c]
  }

  /** All walks from root `r` end in the same slots and find the same entries. */
  ghost predicate SameRoot(m: Mem, n: Mem, r: Mfn) {
    forall wp: nat :: wp < PAGES ==>
      LeafSlot(n, r, 4, wp) == LeafSlot(m, r, 4, wp) && Mapping(n, r, 4, wp) == Mapping(m, r, 4, wp)
  }

  /** Copying a top-level entry to the user root changes no walk from any other root. */
  lemma HungTwice(m: Mem, place: Places, root: Mfn, userRoot: Mfn, sp: nat, i0: nat)
    requires Tree(m, place) && IsRoot(place, root, sp) && IsRoot(place, userRoot, sp) && root != userRoot
    requires i0 < ENTRIES
    ensures
      var n := m[Slot(userRoot, i0) := Get(m, Slot(root, i0))];
      && Tree(n, place)
      && (forall r, sq :: IsRoot(place, r, sq) && r != userRoot ==> SameRoot(m, n, r))
  {
    var n := m[Slot(userRoot, i0) := Get(m, Slot(root, i0))];
    assert forall u, i: nat {:trigger Get(n, Slot(u, i))} ::
        Get(n, Slot(u, i)) == if u == userRoot && i == i0 then Get(m, Slot(root, i)) else Get(m, Slot(u, i));
    forall r, sq, wp: nat | IsRoot(place, r, sq) && r != userRoot && wp < PAGES
      ensures LeafSlot(n, r, 4, wp) == LeafSlot(m, r, 4, wp) && Mapping(n, r, 4, wp) == Mapping(m, r, 4, wp)
    {
      RootAt(place, r, sq, wp);
      WalkSame(m, n, place, r, sq, 4, wp);
      WalkPlace(m, place, r, sq, 4, wp);
    }
  }

  /** The chain alone changes no mapping. */
  lemma ChainUnseen(m0: Mem, f: Mem, place0: Places, root: Mfn, sp: nat)
    requires Tree(m0, place0) && IsRoot(place0, root, sp) && SameOn(m0, f, place0)
    ensures forall wp: nat :: wp < PAGES ==>
              && LeafSlot(f, root, 4, wp) == LeafSlot(m0, root, 4, wp)
              && Mapping(f, root, 4, wp) == Mapping(m0, root, 4, wp)
  {
    forall wp: nat | wp < PAGES
      ensures LeafSlot(f, root, 4, wp) == LeafSlot(m0, root, 4, wp)
      ensures Mapping(f, root, 4, wp) == Mapping(m0, root, 4, wp)
    {
      RootAt(place0, root, sp, wp);
      WalkSame(m0, f, place0, root, sp, 4, wp);
      WalkPlace(m0, place0, root, sp, 4, wp);
    }
  }

  lemma MarkedHung(f: Mem, eff: Mem, own: set<Slot>, s: Slot, userRoot: Mfn, k: nat, c: Pte)
    requires Marked(f, eff, own) && s !in own && (k == 4 ==> Slot(userRoot, s.idx) !in own)
    ensures Marked(Hung(f, s, userRoot, k, c), Hung(eff, s, userRoot, k, c), own)
  {
  }

  /** Without the marks: the hung chain maps `vp` and leaves all other walks alone. */
  lemma HungChain(f: Mem, place: Places, root: Mfn, userRoot: Mfn, sp: nat, t: Mfn, k: nat, vp: nat, c: Pte, leaf: Pte)
    requires Tree(f, place) && IsRoot(place, root, sp) && IsRoot(place, userRoot, sp) && root != userRoot
    requires At(place, t, sp, k, vp) && TableAt(f, root, 4, vp, k) == Some(t) && Get(f, Slot(t, Idx(vp, k))) == FREE
    requires Single(f, place, c, sp, k - 1, vp, leaf)
    ensures
      var f2 := Hung(f, Slot(t, Idx(vp, k)), userRoot, k, c);
      && Tree(f2, place)
      && (forall wp: nat :: wp < PAGES ==>
            Mapping(f2, root, 4, wp) == if wp == vp then leaf else Mapping(f, root, 4, wp))
      && (forall wp: nat :: wp < PAGES && LeafSlot(f, root, 4, wp).Some? ==>
            LeafSlot(f2, root, 4, wp) == LeafSlot(f, root, 4, wp))
  {
    Attach(f, place, root, sp, t, k, vp, c, leaf);
    if k == 4 {
      HungTwice(f[Slot(t, Idx(vp, k)) := c], place, root, userRoot, sp, Idx(vp, 4));
      assert IsRoot(place, root, sp);
    }
  }

  lemma RootsHung(m0: Mem, place0: Places, f: Mem, eff: Mem, own: set<Slot>, root: Mfn, userRoot: Mfn, sp: nat,
                  t: Mfn, k: nat, vp: nat, c: Pte)
    requires IsRoot(place0, root, sp) && IsRoot(place0, userRoot, sp) && root != userRoot
    requires At(place0, t, sp, k, vp) && (k == 4 ==> t == root)
    requires SameOn(m0, f, place0) && Marked(f, eff, own)
    requires forall s :: s in own ==> s.page in place0 && place0[s.page].level == 1
    ensures RootsAfter(m0, Hung(eff, Slot(t, Idx(vp, k)), userRoot, k, c), root, userRoot, Idx(vp, 4), k == 4)
  {
  }

  /** Memory after the insertion of page `vp`, for which the table pages `ps` were used: the page is mapped and those
      pages are read-only, the two roots stay in step, tables are new on the path of `vp` only, and other page tables
      have changed in what they share of the kernel half only. */
  ghost predicate AfterInsert(m0: Mem, place0: Places, m: Mem, place: Places, root: Mfn, userRoot: Mfn, sp: nat,
                              kp: map<Mfn, nat>, ps: seq<Mfn>, vp: nat, leaf: Pte)
  {
    && Tree(m, place) && (forall t :: t in place0 ==> t in place && place[t] == place0[t])
    && UppersFrom(m0, place0, m, place)
    && Inserted(m0, m, root, vp, leaf, KernelPages(kp, ps))
    && RootsAfter(m0, m, root, userRoot, Idx(vp, 4), |ps| == 3)
    && Paving(m0, m, root, vp)
    && OthersKept(m0, m, place0, sp)
    && RootsElsewhere(m0, m, place0, root, userRoot, OwnSlots(m0, root, kp, ps), {vp})
  }

  lemma InsertDone(m0: Mem, place0: Places, root: Mfn, userRoot: Mfn, sp: nat, kp: map<Mfn, nat>, pool0: seq<Mfn>,
                   f: Mem, place: Places, live: Mem, eff: Mem, t: Mfn, k: nat, vp: nat, c: Pte, leaf: Pte)
    requires Tree(m0, place0) && IsRoot(place0, root, sp) && IsRoot(place0, userRoot, sp) && root != userRoot
    requires PoolMapped(m0, root, kp, pool0) && KernelPagesOk(kp) && 1 <= k <= |pool0| + 1
    requires At(place0, t, sp, k, vp) && TableAt(m0, root, 4, vp, k) == Some(t) && Get(m0, Slot(t, Idx(vp, k))) == FREE
    requires forall t :: t in place0 ==> t in place && place[t] == place0[t]
    requires Growing(m0, place0, root, kp, pool0, k - 1, f, place, live, eff)
    requires Single(f, place, c, sp, k - 1, vp, leaf)
    ensures
      var e := Hung(eff, Slot(t, Idx(vp, k)), userRoot, k, c);
      AfterInsert(m0, place0, e, place, root, userRoot, sp, kp, pool0[..k - 1], vp, leaf)
  {
    hide Tree, Single, RootsAfter, ClearRw, Hung, Paving, OthersKept, RootsElsewhere, KernelHas, Mapping, Inserted,
         KernelPagesOk, OwnSlots, LeafSlot, KernelPages, TableAt, UppersFrom;
    var s := Slot(t, Idx(vp, k));
    var ps := pool0[..k - 1];
    var own := OwnSlots(m0, root, kp, ps);
    var f2, e := Hung(f, s, userRoot, k, c), Hung(eff, s, userRoot, k, c);
    OwnSlotsLevel(m0, place0, root, sp, kp, ps);
    TopTable(m0, root, vp);
    NoOwnSlots(m0, root, kp);
    assert k == 1 ==> ps == [];
    RootsHung(m0, place0, f, eff, own, root, userRoot, sp, t, k, vp, c);
    MarkedHung(f, eff, own, s, userRoot, k, c);
    assert TableAt(f, root, 4, vp, k) == Some(t) by {
      RootAt(place0, root, sp, vp);
      TableSame(m0, f, place0, root, sp, 4, vp, k);
    }
    InsertMaps(m0, place0, root, userRoot, sp, kp, ps, f, place, t, k, vp, c, leaf, e);
    HungUppers(f, place, userRoot, sp, t, k, vp, c, leaf, own, e);
    UppersTrans(m0, place0, f, place, e, place);
    InsertPaves(m0, place0, root, userRoot, sp, f, place, own, t, k, vp, c, leaf, e);
    InsertElsewhere(m0, place0, root, userRoot, sp, kp, ps, f, place, t, k, vp, c, leaf, e);
  }

  lemma HungUppers(f: Mem, place: Places, userRoot: Mfn, sp: nat, t: Mfn, k: nat, vp: nat, c: Pte, leaf: Pte,
                   own: set<Slot>, e: Mem)
    requires At(place, t, sp, k, vp) && Single(f, place, c, sp, k - 1, vp, leaf)
    requires Marked(Hung(f, Slot(t, Idx(vp, k)), userRoot, k, c), e, own)
    requires forall s :: s in own ==> s.page in place && place[s.page].level == 1
    ensures UppersFrom(f, place, e, place)
  {
    hide Narrow, UppersFrom, ClearRw;
    var f1, f2 := f[Slot(t, Idx(vp, k)) := c], Hung(f, Slot(t, Idx(vp, k)), userRoot, k, c);
    UppersPut(f, place, Slot(t, Idx(vp, k)), c);
    if k == 4 {
      UppersPut(f1, place, Slot(userRoot, Idx(vp, k)), c);
      UppersTrans(f, place, f1, place, f2, place);
    }
    UppersLeaves(f2, e, place);
    UppersTrans(f, place, f2, place, e, place);
  }

  /** The chain, its hanging and the marks map the page and take write access from the new tables. */
  lemma InsertMaps(m0: Mem, place0: Places, root: Mfn, userRoot: Mfn, sp: nat, kp: map<Mfn, nat>, ps: seq<Mfn>,
                   f: Mem, place: Places, t: Mfn, k: nat, vp: nat, c: Pte, leaf: Pte, e: Mem)
    requires Tree(m0, place0) && IsRoot(place0, root, sp) && root != userRoot && KernelMapped(m0, root, kp, ps)
    requires IsRoot(place, root, sp) && IsRoot(place, userRoot, sp) && At(place, t, sp, k, vp) && |ps| == k - 1
    requires TableAt(m0, root, 4, vp, k) == Some(t) && Get(m0, Slot(t, Idx(vp, k))) == FREE
    requires TableAt(f, root, 4, vp, k) == Some(t) && Get(f, Slot(t, Idx(vp, k))) == FREE
    requires SameOn(m0, f, place0) && Tree(f, place) && Single(f, place, c, sp, k - 1, vp, leaf)
    requires Marked(Hung(f, Slot(t, Idx(vp, k)), userRoot, k, c), e, OwnSlots(m0, root, kp, ps))
    ensures Tree(e, place) && Inserted(m0, e, root, vp, leaf, KernelPages(kp, ps))
  {
    hide Tree, Single, ClearRw, Hung, OwnSlots, Marked, KernelHas;
    ChainUnseen(m0, f, place0, root, sp);
    HungChain(f, place, root, userRoot, sp, t, k, vp, c, leaf);
    MarkedMapping(m0, root, sp, kp, ps, Hung(f, Slot(t, Idx(vp, k)), userRoot, k, c), e, place);
    NoTableOfPage(m0, root, kp, ps, t, k, vp);
  }

  /** The page whose path ends early is no kernel page. */
  lemma NoTableOfPage(m0: Mem, root: Mfn, kp: map<Mfn, nat>, ps: seq<Mfn>, t: Mfn, k: nat, vp: nat)
    requires 1 <= k <= 4 && TableAt(m0, root, 4, vp, k) == Some(t) && Get(m0, Slot(t, Idx(vp, k))) == FREE
    requires KernelMapped(m0, root, kp, ps) && |ps| == k - 1
    ensures vp !in KernelPages(kp, ps)
  {
    hide KernelHas;
    WalkThrough(m0, root, 4, vp, k, vp);
  }

  /** The chain, its hanging and the marks leave the other address spaces their entries; what their roots map of the
      kernel half changes by the inserted page and by the marks only. */
  lemma InsertElsewhere(m0: Mem, place0: Places, root: Mfn, userRoot: Mfn, sp: nat, kp: map<Mfn, nat>, ps: seq<Mfn>,
                        f: Mem, place: Places, t: Mfn, k: nat, vp: nat, c: Pte, leaf: Pte, e: Mem)
    requires Tree(m0, place0) && IsRoot(place0, root, sp) && IsRoot(place0, userRoot, sp) && root != userRoot
    requires KernelPagesOk(kp) && KernelMapped(m0, root, kp, ps)
    requires At(place0, t, sp, k, vp) && TableAt(m0, root, 4, vp, k) == Some(t) && Get(m0, Slot(t, Idx(vp, k))) == FREE
    requires forall t :: t in place0 ==> t in place && place[t] == place0[t]
    requires SameOn(m0, f, place0) && Tree(f, place) && Single(f, place, c, sp, k - 1, vp, leaf)
    requires Marked(Hung(f, Slot(t, Idx(vp, k)), userRoot, k, c), e, OwnSlots(m0, root, kp, ps))
    ensures OthersKept(m0, e, place0, sp)
    ensures RootsElsewhere(m0, e, place0, root, userRoot, OwnSlots(m0, root, kp, ps), {vp})
  {
    hide Tree, Single, ClearRw, Hung, RootAfter, OwnSlots, TableAt, Idx;
    var s, own := Slot(t, Idx(vp, k)), OwnSlots(m0, root, kp, ps);
    var f2 := Hung(f, s, userRoot, k, c);
    OwnSlotsKernel(m0, place0, root, sp, kp, ps);
    HungElsewhere(m0, f, place0, userRoot, sp, s, k, c);
    assert TableAt(f, root, 4, vp, k) == Some(t) by {
      RootAt(place0, root, sp, vp);
      TableSame(m0, f, place0, root, sp, 4, vp, k);
    }
    HungChain(f, place, root, userRoot, sp, t, k, vp, c, leaf);
    forall r, sq, wp: nat | IsRoot(place0, r, sq) && r != userRoot && wp < PAGES
      ensures RootAfter(m0, e, root, r, own, {vp}, wp)
    {
      ChainRootAfter(m0, f, place0, root, sp, r, sq, wp);
      HungRootAfter(f, place, root, userRoot, sp, t, k, vp, c, leaf, r, sq, wp);
      HungRootAfter(f, place, root, userRoot, sp, t, k, vp, c, leaf, root, sp, wp);
      LeafKept(f, f2, root, root, {}, {vp}, wp);
      RootAfterTrans(m0, f, f2, root, r, {}, {}, {}, {vp}, wp);
      MarkedRootAfter(f2, e, place, root, sp, own, r, sq, wp);
      MarkedRootAfter(f2, e, place, root, sp, own, root, sp, wp);
      LeafKept(f2, e, root, root, own, {}, wp);
      RootAfterTrans(m0, f2, e, root, r, {} + {}, own, {} + {vp}, {}, wp);
      assert {} + {} + own == own && {} + {vp} + {} == {vp};
    }
  }

  /** The own mappings of table pages lie in the kernel half. */
  lemma OwnSlotsKernel(m: Mem, place: Places, root: Mfn, sp: nat, kp: map<Mfn, nat>, ps: seq<Mfn>)
    requires Tree(m, place) && IsRoot(place, root, sp) && KernelPagesOk(kp)
    ensures forall s :: s in OwnSlots(m, root, kp, ps) ==>
              s.page in place && place[s.page].level == 1 && place[s.page].space == 0
  {
    hide Tree, LeafSlot;
    forall p | p in ps && p in kp && LeafSlot(m, root, 4, kp[p]).Some?
      ensures
        var s := LeafSlot(m, root, 4, kp[p]).value;
        s.page in place && place[s.page].level == 1 && place[s.page].space == 0
    {
      RootAt(place, root, sp, kp[p]);
      WalkPlace(m, place, root, sp, 4, kp[p]);
    }
  }

  lemma HungElsewhere(m0: Mem, f: Mem, place0: Places, userRoot: Mfn, sp: nat, s: Slot, k: nat, c: Pte)
    requires SameOn(m0, f, place0) && IsRoot(place0, userRoot, sp)
    requires s.page in place0 && place0[s.page].space in {0, sp}
    ensures OthersKept(m0, Hung(f, s, userRoot, k, c), place0, sp)
  {
  }

  lemma ChainRootAfter(m0: Mem, f: Mem, place0: Places, root: Mfn, sp: nat, r: Mfn, sq: nat, wp: nat)
    requires Tree(m0, place0) && SameOn(m0, f, place0) && IsRoot(place0, root, sp) && IsRoot(place0, r, sq)
    requires wp < PAGES
    ensures RootAfter(m0, f, root, r, {}, {}, wp)
  {
    hide Tree, LeafSlot;
    ChainUnseen(m0, f, place0, r, sq);
  }

  /** A root that shares the table in which the chain hangs gains the page; the walks from others do not pass there. */
  lemma AttachRootAfter(m: Mem, place: Places, root: Mfn, sp: nat, t: Mfn, k: nat, vp: nat, c: Pte, leaf: Pte, r: Mfn,
                        sq: nat, wp: nat)
    requires Tree(m, place) && IsRoot(place, root, sp) && At(place, t, sp, k, vp) && IsRoot(place, r, sq)
    requires TableAt(m, root, 4, vp, k) == Some(t) && Get(m, Slot(t, Idx(vp, k))) == FREE
    requires Single(m, place, c, sp, k - 1, vp, leaf) && wp < PAGES
    ensures RootAfter(m, m[Slot(t, Idx(vp, k)) := c], root, r, {}, {vp}, wp)
  {
    hide Tree, Single, LeafSlot, Narrow, TableAt, Shr;
    var s := Slot(t, Idx(vp, k));
    var m' := m[s := c];
    RootAt(place, r, sq, vp);
    RootAt(place, r, sq, wp);
    RootAt(place, root, sp, vp);
    TableSame(m, m', place, r, sq, 4, vp, k);
    TableSame(m, m', place, root, sp, 4, vp, k);
    if TableAt(m, r, 4, vp, k) == Some(t) {
      SingleShared(m, place, c, sp, sq, k, vp, leaf);
      AttachAt(m, place, r, sq, t, k, vp, c, leaf, wp);
      AttachAt(m, place, root, sp, t, k, vp, c, leaf, wp);
      WalkThrough(m', r, 4, vp, k, vp);
      WalkThrough(m', root, 4, vp, k, vp);
    } else {
      TableSame(m, m, place, r, sq, 4, wp, k);
      if TableAt(m, r, 4, wp, k) == Some(t) {
        WalkThrough(m, r, 4, vp, k, wp);
      }
      WalkMisses(m, place, r, sq, 4, wp, s, c);
    }
  }

  /** A chain does not tell apart the address spaces that share the table it hangs in. */
  lemma SingleShared(m: Mem, place: Places, c: Pte, sp: nat, sq: nat, k: nat, vp: nat, leaf: Pte)
    requires 1 <= k <= 4 && NodeFor(sp, k, vp) == NodeFor(sq, k, vp) && Single(m, place, c, sp, k - 1, vp, leaf)
    ensures Single(m, place, c, sq, k - 1, vp, leaf)
  {
  }

  lemma HungRootAfter(f: Mem, place: Places, root: Mfn, userRoot: Mfn, sp: nat, t: Mfn, k: nat, vp: nat, c: Pte,
                      leaf: Pte, r: Mfn, sq: nat, wp: nat)
    requires Tree(f, place) && IsRoot(place, root, sp) && IsRoot(place, userRoot, sp) && root != userRoot
    requires At(place, t, sp, k, vp) && TableAt(f, root, 4, vp, k) == Some(t) && Get(f, Slot(t, Idx(vp, k))) == FREE
    requires Single(f, place, c, sp, k - 1, vp, leaf) && IsRoot(place, r, sq) && r != userRoot && wp < PAGES
    ensures RootAfter(f, Hung(f, Slot(t, Idx(vp, k)), userRoot, k, c), root, r, {}, {vp}, wp)
  {
    hide Tree, Single, LeafSlot;
    AttachRootAfter(f, place, root, sp, t, k, vp, c, leaf, r, sq, wp);
    if k == 4 {
      Attach(f, place, root, sp, t, k, vp, c, leaf);
      var f1 := f[Slot(t, Idx(vp, k)) := c];
      HungTwice(f1, place, root, userRoot, sp, Idx(vp, 4));
      assert SameRoot(f1, Hung(f, Slot(t, Idx(vp, k)), userRoot, k, c), r);
      assert SameRoot(f1, Hung(f, Slot(t, Idx(vp, k)), userRoot, k, c), root);
    }
  }

  /** Marks of leaf entries move no walk. */
  lemma MarkedRootAfter(f: Mem, e: Mem, place: Places, root: Mfn, sp: nat, own: set<Slot>, r: Mfn, sq: nat, wp: nat)
    requires Tree(f, place) && Marked(f, e, own) && IsRoot(place, root, sp) && IsRoot(place, r, sq) && wp < PAGES
    requires forall s :: s in own ==> s.page in place && place[s.page].level == 1
    ensures RootAfter(f, e, root, r, own, {}, wp)
  {
    hide Tree, LeafSlot, ClearRw;
    RootAt(place, r, sq, wp);
    WalkSame(f, e, place, r, sq, 4, wp);
  }

  /** The chain, its hanging and the marks provide tables on the path of `vp` only. */
  lemma InsertPaves(m0: Mem, place0: Places, root: Mfn, userRoot: Mfn, sp: nat, f: Mem, place: Places, own: set<Slot>,
                    t: Mfn, k: nat, vp: nat, c: Pte, leaf: Pte, e: Mem)
    requires Tree(m0, place0) && IsRoot(place0, root, sp) && IsRoot(place0, userRoot, sp) && root != userRoot
    requires forall t :: t in place0 ==> t in place && place[t] == place0[t]
    requires SameOn(m0, f, place0) && Tree(f, place) && At(place, t, sp, k, vp)
    requires Single(f, place, c, sp, k - 1, vp, leaf)
    requires TableAt(f, root, 4, vp, k) == Some(t) && Get(f, Slot(t, Idx(vp, k))) == FREE
    requires Marked(Hung(f, Slot(t, Idx(vp, k)), userRoot, k, c), e, own)
    requires forall s :: s in own ==> s.page in place0 && place0[s.page].level == 1
    ensures Paving(m0, e, root, vp)
  {
    hide Tree, Single, Paving, TableAt;
    var s := Slot(t, Idx(vp, k));
    var f1 := f[s := c];
    PavingRefl(m0, root, vp);
    SameTablesPave(m0, m0, place0, root, sp, vp, f);
    AttachPaves(f, place, root, sp, t, k, vp, c, leaf);
    PavingTrans(m0, f, f1, root, vp);
    Attach(f, place, root, sp, t, k, vp, c, leaf);
    SameTablesPave(m0, f1, place, root, sp, vp, e);
  }

  lemma PoolLeaves(m: Mem, root: Mfn, kp: map<Mfn, nat>, pool: seq<Mfn>)
    requires KernelPagesOk(kp) && forall i, j :: 0 <= i < j < |pool| ==> pool[i] != pool[j]
    requires forall p :: p in pool ==> p in kp && Present(Mapping(m, root, 4, kp[p]))
    ensures PoolMapped(m, root, kp, pool)
  {
  }

  /** _insertInternal with `j - 1` pages of the chain in place, of which `c` names the topmost. */
  ghost predicate Building(mmu: Mmu, m0: Mem, place0: Places, pool0: seq<Mfn>, root: Mfn, sp: nat, vp: nat, leaf: Pte,
                           j: nat, c: Pte, f: Mem)
    requires j >= 1
    reads mmu
  {
    && j - 1 <= |pool0| && mmu.pool == pool0[j - 1..] && mmu.PoolOk()
    && (forall t :: t in place0 ==> t in mmu.place && mmu.place[t] == place0[t])
    && Single(f, mmu.place, c, sp, j - 1, vp, leaf) && c != FREE
    && Growing(m0, place0, root, mmu.kernelPage, pool0, j - 1, f, mmu.place, mmu.mem, mmu.Eff())
  }

  lemma ChainFacts(m0: Mem, place0: Places, root: Mfn, kp: map<Mfn, nat>, pool0: seq<Mfn>, n: nat,
                   f: Mem, place: Places, live: Mem, eff: Mem, q: Mfn)
    requires Growing(m0, place0, root, kp, pool0, n, f, place, live, eff)
    requires forall s :: s in OwnSlots(m0, root, kp, pool0[..n]) ==> s.page in place0
    requires q !in place && ZeroPage(live, q)
    ensures Tree(f, place) && ZeroPage(f, q)
  {
    forall i: nat
      ensures Get(f, Slot(q, i)) == FREE
    {
      assert Get(live, Slot(q, i)) == FREE;
      assert Slot(q, i) !in OwnSlots(m0, root, kp, pool0[..n]);
    }
  }

  lemma ChainStart(m0: Mem, place0: Places, root: Mfn, kp: map<Mfn, nat>, pool0: seq<Mfn>, sp: nat, vp: nat, leaf: Pte)
    requires Tree(m0, place0)
    ensures Single(m0, place0, leaf, sp, 0, vp, leaf)
    ensures Growing(m0, place0, root, kp, pool0, 0, m0, place0, m0, m0)
  {
    assert OwnSlots(m0, root, kp, pool0[..0]) == {};
  }

  /** One more page of the chain. */
  method ExtendChain(mmu: Mmu, root: Mfn, ghost m0: Mem, ghost place0: Places, ghost pool0: seq<Mfn>, ghost sp: nat,
                     vp: nat, ghost leaf: Pte, j: nat, c: Pte, ghost f: Mem)
    returns (c': Pte, halted: bool, ghost f': Mem)
    requires Tree(m0, place0) && IsRoot(place0, root, sp) && PoolMapped(m0, root, mmu.kernelPage, pool0)
    requires 1 <= j <= 3 && vp < PAGES && leaf != FREE && Building(mmu, m0, place0, pool0, root, sp, vp, leaf, j, c, f)
    modifies mmu`mem, mmu`queue, mmu`history, mmu`pool, mmu`place
    ensures halted <==> |pool0| < j
    ensures halted ==> mmu.pool == []
    ensures !halted ==> Building(mmu, m0, place0, pool0, root, sp, vp, leaf, j + 1, c', f')
  {
    hide Tree, Single, Growing, OwnSlots, ZeroPage, LeafSlot, Get, ClearRw, NodeFor;
    ghost var live, eff, place, kp := mmu.mem, mmu.Eff(), mmu.place, mmu.kernelPage;
    if mmu.pool != [] {
      assert mmu.pool[0] == pool0[j - 1];
      NextWalk(m0, place0, root, sp, kp, pool0, j - 1, f, place, live, eff, Idx(vp, j), c);
      NextOwnSlot(m0, place0, root, sp, kp, pool0, j - 1);
    }
    c', f' := c, f;
    var page := InsertPtp(mmu, root, Idx(vp, j), c);
    halted := page == None;
    if !halted {
      var p := page.value;
      OwnSlotsLevel(m0, place0, root, sp, kp, pool0[..j - 1]);
      ChainFacts(m0, place0, root, kp, pool0, j - 1, f, place, live, eff, p);
      GrowChain(f, place, p, sp, j, vp, c, leaf);
      GrowStep(m0, place0, root, sp, kp, pool0, j - 1, f, place, live, eff, Idx(vp, j), c, NodeFor(sp, j, vp),
               mmu.mem, LeafSlot(m0, root, 4, kp[p]).value);
      f' := f[Slot(p, Idx(vp, j)) := c];
      mmu.place := place[p := NodeFor(sp, j, vp)];
      c' := Pte(p, TABLE_PROT);
    }
  }

  /** The table pages of _insertInternal below level `k`, from the leaf table up. */
  method BuildChain(mmu: Mmu, root: Mfn, ghost sp: nat, vp: nat, leaf: Pte, k: nat)
    returns (c: Pte, halted: bool, ghost f: Mem)
    requires mmu.PoolOk() && Tree(mmu.mem, mmu.place) && IsRoot(mmu.place, root, sp)
    requires PoolMapped(mmu.mem, root, mmu.kernelPage, mmu.pool)
    requires mmu.queue == [] && vp < PAGES && leaf != FREE && 1 <= k <= 4
    modifies mmu`mem, mmu`queue, mmu`history, mmu`pool, mmu`place
    ensures halted <==> |old(mmu.pool)| < k - 1
    ensures halted ==> mmu.pool == []
    ensures !halted ==> Building(mmu, old(mmu.mem), old(mmu.place), old(mmu.pool), root, sp, vp, leaf, k, c, f)
  {
    hide Tree, Single, Growing, OwnSlots, ZeroPage, Get, ClearRw, NodeFor, LeafSlot, Shr;
    ghost var m0, place0, pool0, kp := mmu.mem, mmu.place, mmu.pool, mmu.kernelPage;
    var j := 1;
    c, f, halted := leaf, m0, false;
    ChainStart(m0, place0, root, kp, pool0, sp, vp, leaf);
    assert pool0[0..] == pool0;
    while j < k
      invariant 1 <= j <= k && Building(mmu, m0, place0, pool0, root, sp, vp, leaf, j, c, f)
    {
      c, halted, f := ExtendChain(mmu, root, m0, place0, pool0, sp, vp, leaf, j, c, f);
      if halted {
        return;
      }
      j := j + 1;
    }
  }

  /** The last step of _insertInternal: the chain hangs in the slot at which the walk ended. */
  method Hang(mmu: Mmu, s: Slot, userRoot: Mfn, k: nat, c: Pte)
    requires mmu.PoolOk() && s.page in mmu.place && userRoot in mmu.place
    modifies mmu`mem, mmu`queue, mmu`history
    ensures mmu.PoolOk() && mmu.Eff() == Hung(old(mmu.Eff()), s, userRoot, k, c)
  {
    mmu.DeferredUpdate(s, c);
    if k == 4 {
      mmu.DeferredUpdate(Slot(userRoot, s.idx), c);
    }
  }

  /** A page is mapped iff the entry at which its walk ends is in use. */
  lemma EndDecides(m: Mem, root: Mfn, vp: nat, t: Mfn, k: nat)
    requires 1 <= k <= 4 && TableAt(m, root, 4, vp, k) == Some(t) && (k > 1 ==> Get(m, Slot(t, Idx(vp, k))) == FREE)
    ensures Mapping(m, root, 4, vp) != FREE <==> Get(m, Slot(t, Idx(vp, k))) != FREE
  {
    WalkThrough(m, root, 4, vp, k, vp);
  }

  /** The end of _insertInternal. */
  method HangChain(mmu: Mmu, root: Mfn, userRoot: Mfn, ghost sp: nat, vp: nat, ghost leaf: Pte, t: Mfn, k: nat, c: Pte,
                   ghost m0: Mem, ghost place0: Places, ghost pool0: seq<Mfn>, ghost f: Mem)
    requires Tree(m0, place0) && IsRoot(place0, root, sp) && IsRoot(place0, userRoot, sp) && root != userRoot
    requires PoolMapped(m0, root, mmu.kernelPage, pool0) && 1 <= k <= 4 && At(place0, t, sp, k, vp)
    requires TableAt(m0, root, 4, vp, k) == Some(t) && Get(m0, Slot(t, Idx(vp, k))) == FREE
    requires Building(mmu, m0, place0, pool0, root, sp, vp, leaf, k, c, f)
    modifies mmu`mem, mmu`queue, mmu`history
    ensures mmu.PoolOk() && k - 1 <= |pool0| && mmu.pool == pool0[k - 1..]
    ensures AfterInsert(m0, place0, mmu.Eff(), mmu.place, root, userRoot, sp, mmu.kernelPage, pool0[..k - 1], vp, leaf)
  {
    hide Tree, Single, Growing, OwnSlots, ZeroPage, Get, ClearRw, NodeFor, TableAt, Shr, LeafSlot, Mapping,
         KernelPagesOk, PoolMapped, Hung, KernelPages, Idx, AfterInsert;
    InsertDone(m0, place0, root, userRoot, sp, mmu.kernelPage, pool0, f, mmu.place, mmu.mem, mmu.Eff(), t, k, vp, c,
               leaf);
    Hang(mmu, Slot(t, Idx(vp, k)), userRoot, k, c);
  }

  /** _insertInternal: its four cases are the four levels at which the walk can meet a free entry. */
  method InsertInternal(mmu: Mmu, root: Mfn, userRoot: Mfn, ghost sp: nat, vp: nat, leaf: Pte)
    returns (r: Option<Slot>, halted: bool)
    requires Ready(mmu, root, userRoot, sp) && mmu.queue == [] && vp < PAGES && leaf != FREE
    modifies mmu`mem, mmu`queue, mmu`history, mmu`pool, mmu`place
    ensures Mapping(old(mmu.mem), root, 4, vp) != FREE ==>
              r == None && !halted && mmu.mem == old(mmu.mem) && mmu.queue == [] && mmu.pool == old(mmu.pool)
    ensures Mapping(old(mmu.mem), root, 4, vp) == FREE ==>
              var n := EndLevel(old(mmu.mem), root, 4, vp) - 1;
              (halted <==> |old(mmu.pool)| < n) && (halted <==> r == None) && (halted ==> mmu.pool == [])
    ensures r.Some? ==>
              var m0 := old(mmu.mem);
              var n := EndLevel(m0, root, 4, vp) - 1;
              && n <= |old(mmu.pool)| && mmu.pool == old(mmu.pool)[n..] && mmu.PoolOk()
              && AfterInsert(m0, old(mmu.place), mmu.Eff(), mmu.place, root, userRoot, sp, mmu.kernelPage,
                             old(mmu.pool)[..n], vp, leaf)
  {
    hide Tree, Single, Growing, OwnSlots, ZeroPage, Get, ClearRw, NodeFor, TableAt, EndLevel, Shr, LeafSlot, Mapping,
         KernelPagesOk, PoolMapped, Hung, KernelPages, Idx, AfterInsert, Building;
    ghost var m0, place0, pool0, kp := mmu.mem, mmu.place, mmu.pool, mmu.kernelPage;
    var t, k := WalkToEnd(mmu.mem, mmu.place, root, sp, vp);
    var slot := Slot(t, Idx(vp, k));
    RootAt(place0, root, sp, vp);
    EndDecides(m0, root, vp, t, k);
    if Get(mmu.mem, slot) != FREE {
      return None, false;
    }
    PoolLeaves(m0, root, kp, pool0);
    var c;
    ghost var f;
    c, halted, f := BuildChain(mmu, root, sp, vp, leaf, k);
    if halted {
      return None, true;
    }
    HangChain(mmu, root, userRoot, sp, vp, leaf, t, k, c, m0, place0, pool0, f);
    r, halted := Some(slot), false;
  }

  /** A page is mapped to the frame: a user page with the permission, and a kernel page present, writable, accessed and
      of user mode. */
  predicate MapsTo(p: Pte, vp: nat, frame: Mfn, perm: Permission) {
    p.frame == frame && if vp < 0x8_0000_0000 then Grants(p.flags, perm) else p.flags == 0x027
  }

  /** The leaf entry of archPageTableInsert: the permission counts in user space only. */
  function LeafFor(vp: nat, frame: Mfn, perm: Permission): (p: Pte)
    ensures p != FREE && MapsTo(p, vp, frame, perm)
  {
    Pte(frame, if vp < USER_PAGES then UserFlags(perm) else L1_PROT)
  }

  /** archPageTableInsert; a result of false is a failed assertion. */
  method Insert(mmu: Mmu, root: Mfn, userRoot: Mfn, ghost sp: nat, vp: nat, frame: Mfn, perm: Permission)
    returns (ok: bool)
    requires Ready(mmu, root, userRoot, sp) && mmu.queue == [] && vp < PAGES
    modifies mmu`mem, mmu`queue, mmu`history, mmu`pool, mmu`place
    ensures ok <==>
              && Mapping(old(mmu.mem), root, 4, vp) == FREE
              && EndLevel(old(mmu.mem), root, 4, vp) - 1 <= |old(mmu.pool)|
    ensures !ok && Mapping(old(mmu.mem), root, 4, vp) == FREE ==> mmu.pool == []
    ensures ok ==>
              var n := EndLevel(old(mmu.mem), root, 4, vp) - 1;
              && mmu.queue == [] && mmu.pool == old(mmu.pool)[n..] && Ready(mmu, root, userRoot, sp)
              && MapsTo(Mapping(mmu.mem, root, 4, vp), vp, frame, perm)
              && Inserted(old(mmu.mem), mmu.mem, root, vp, LeafFor(vp, frame, perm),
                          KernelPages(mmu.kernelPage, old(mmu.pool)[..n]))
              && UppersFrom(old(mmu.mem), old(mmu.place), mmu.mem, mmu.place)
              && (old(AllPassable(mmu.mem, mmu.place)) ==>
                    && AllPassable(mmu.mem, mmu.place)
                    && MapsTo(HardwareEntry(mmu.mem, root, vp * 4096), vp, frame, perm))
              && RootsAfter(old(mmu.mem), mmu.mem, root, userRoot, Idx(vp, 4), n == 3)
              && Paving(old(mmu.mem), mmu.mem, root, vp)
              && (forall t :: t in old(mmu.place) ==> t in mmu.place && mmu.place[t] == old(mmu.place)[t])
              && OthersKept(old(mmu.mem), mmu.mem, old(mmu.place), sp)
              && RootsElsewhere(old(mmu.mem), mmu.mem, old(mmu.place), root, userRoot,
                                OwnSlots(old(mmu.mem), root, mmu.kernelPage, old(mmu.pool)[..n]), {vp})
              && (forall r, u, sq :: r != userRoot && old(Ready(mmu, r, u, sq)) ==> Ready(mmu, r, u, sq))
  {
    hide Tree, ZeroPage, Mapping, RootsAfter, EndLevel, Paving, OthersKept, RootsElsewhere, OwnSlots, Inserted,
         KernelPages, KernelPagesOk, Present, LeafFor, MapsTo, UppersFrom, AllPassable, HardwareEntry;
    var r, halted := InsertInternal(mmu, root, userRoot, sp, vp, LeafFor(vp, frame, perm));
    if r == None {
      return false;
    }
    ghost var n := EndLevel(old(mmu.mem), root, 4, vp) - 1;
    PoolStillPresent(old(mmu.mem), mmu.Eff(), root, mmu.kernelPage, old(mmu.pool), n, vp, LeafFor(vp, frame, perm));
    mmu.DoUpdate();
    InsertedLeaf(old(mmu.mem), mmu.mem, root, vp, LeafFor(vp, frame, perm),
                 KernelPages(mmu.kernelPage, old(mmu.pool)[..n]));
    if old(AllPassable(mmu.mem, mmu.place)) {
      HardwareReaches(old(mmu.mem), old(mmu.place), mmu.mem, mmu.place, root, sp, vp);
    }
    forall r, u, sq | r != userRoot && old(Ready(mmu, r, u, sq))
      ensures Ready(mmu, r, u, sq)
    {
      StillPresent(old(mmu.mem), mmu.mem, old(mmu.place), root, userRoot,
                   OwnSlots(old(mmu.mem), root, mmu.kernelPage, old(mmu.pool)[..n]), {vp}, r, sq, mmu.kernelPage,
                   mmu.pool);
    }
    ok := true;
  }

  lemma InsertedLeaf(m0: Mem, m: Mem, root: Mfn, vp: nat, leaf: Pte, marks: set<nat>)
    requires Inserted(m0, m, root, vp, leaf, marks) && vp < PAGES
    ensures Mapping(m, root, 4, vp) == leaf
  {
  }

  /** What another root has mapped of the pages that `root` has mapped stays mapped. */
  lemma StillPresent(m0: Mem, m: Mem, place0: Places, root: Mfn, userRoot: Mfn, own: set<Slot>, ws: set<nat>, r: Mfn,
                     sq: nat, kp: map<Mfn, nat>, ps: seq<Mfn>)
    requires RootsElsewhere(m0, m, place0, root, userRoot, own, ws) && IsRoot(place0, r, sq) && r != userRoot
    requires KernelPagesOk(kp) && forall p :: p in ps ==> p in kp
    requires forall p :: p in ps ==> Present(Mapping(m0, r, 4, kp[p])) && Present(Mapping(m, root, 4, kp[p]))
    ensures forall p :: p in ps ==> Present(Mapping(m, r, 4, kp[p]))
  {
    hide Mapping, LeafSlot;
    forall p | p in ps
      ensures Present(Mapping(m, r, 4, kp[p]))
    {
      assert RootAfter(m0, m, root, r, own, ws, kp[p]);
      ClearKeepsPresent(Mapping(m0, r, 4, kp[p]));
    }
  }

  lemma ClearKeepsPresent(e: Pte)
    ensures Present(ClearRw(e)) == Present(e)
  {
    var b := e.flags;
    assert b & 0xFFD & PAGE_PRESENT == b & PAGE_PRESENT;
  }

  /** The kernel still maps the pages left in the pool. */
  lemma PoolStillPresent(m0: Mem, m: Mem, root: Mfn, kp: map<Mfn, nat>, pool: seq<Mfn>, n: nat, vp: nat, leaf: Pte)
    requires n <= |pool| && KernelPagesOk(kp) && forall i, j :: 0 <= i < j < |pool| ==> pool[i] != pool[j]
    requires forall p :: p in pool ==> p in kp && Present(Mapping(m0, root, 4, kp[p]))
    requires Inserted(m0, m, root, vp, leaf, KernelPages(kp, pool[..n])) && Mapping(m0, root, 4, vp) == FREE
    ensures forall p :: p in pool[n..] ==> Present(Mapping(m, root, 4, kp[p]))
  {
    hide Mapping, KernelPages;
    forall p | p in pool[n..]
      ensures Present(Mapping(m, root, 4, kp[p]))
    {
      NotMarked(kp, pool, n, p);
    }
  }

  /** A page still in the pool is none of those taken. */
  lemma NotMarked(kp: map<Mfn, nat>, pool: seq<Mfn>, n: nat, p: Mfn)
    requires n <= |pool| && p in pool[n..] && p in kp
    requires forall p, q :: p in kp && q in kp && kp[p] == kp[q] ==> p == q
    requires forall i, j :: 0 <= i < j < |pool| ==> pool[i] != pool[j]
    ensures kp[p] !in KernelPages(kp, pool[..n]) && p in pool
  {
  }

  /** A page is mapped to the same frame in both memories, or unmapped in both. */
  ghost predicate SameFrame(m0: Mem, m: Mem, root: Mfn, wp: nat) {
    && Mapping(m, root, 4, wp).frame == Mapping(m0, root, 4, wp).frame
    && (Mapping(m, root, 4, wp) == FREE <==> Mapping(m0, root, 4, wp) == FREE)
  }

  /** One insertion moves no other page. */
  lemma InsertedKeepsFrames(m0: Mem, m: Mem, root: Mfn, kp: map<Mfn, nat>, ps: seq<Mfn>, vp: nat, leaf: Pte)
    requires Inserted(m0, m, root, vp, leaf, KernelPages(kp, ps))
    requires forall p :: p in ps ==> p in kp && Present(Mapping(m0, root, 4, kp[p]))
    ensures forall wp: nat :: wp < PAGES && wp != vp ==> SameFrame(m0, m, root, wp)
  {
    forall wp: nat | wp < PAGES && wp != vp
      ensures SameFrame(m0, m, root, wp)
    {
      if wp in KernelPages(kp, ps) {
        var p :| p in ps && p in kp && kp[p] == wp;
        assert Present(Mapping(m0, root, 4, kp[p]));
      }
    }
  }

  /** After mapping `frames`, for which the table pages `taken` were used: each frame is at its own kernel page,
      present, writable, accessed and of user mode; the own mappings of the table pages have lost write access, and no
      other page has moved. */
  ghost predicate Populated(m0: Mem, m: Mem, root: Mfn, kp: map<Mfn, nat>, frames: seq<Mfn>, taken: seq<Mfn>) {
    && (forall f :: f in frames && f in kp ==> Mapping(m, root, 4, kp[f]) == Pte(f, 0x027))
    && (forall wp: nat :: wp < PAGES && wp !in KernelPages(kp, frames) ==>
          Mapping(m, root, 4, wp) ==
          if wp in KernelPages(kp, taken) then ClearRw(Mapping(m0, root, 4, wp)) else Mapping(m0, root, 4, wp))
  }

  lemma PopulatedStep(m0: Mem, m: Mem, n: Mem, root: Mfn, kp: map<Mfn, nat>, frames: seq<Mfn>, f: Mfn, taken: seq<Mfn>,
                      more: seq<Mfn>)
    requires Populated(m0, m, root, kp, frames, taken) && KernelPagesOk(kp) && f in kp
    requires Inserted(m, n, root, kp[f], LeafFor(kp[f], f, PERM_NONE), KernelPages(kp, more))
    requires Mapping(m, root, 4, kp[f]) == FREE
    requires forall g :: g in frames || g == f ==> g in kp && Mapping(m0, root, 4, kp[g]) == FREE
    requires forall p :: p in more ==> p in kp && Mapping(m0, root, 4, kp[p]) != FREE && p !in taken
    ensures Populated(m0, n, root, kp, frames + [f], taken + more)
  {
    hide Mapping, ClearRw, LeafFor, LeafSlot;
    forall g | g in frames + [f]
      ensures Mapping(n, root, 4, kp[g]) == Pte(g, 0x027)
    {
      if g in frames && g != f {
        NotAmong(kp, more, g);
        assert kp[g] != kp[f];
      }
    }
    KernelPagesAppend(kp, frames, f);
    forall wp: nat | wp < PAGES && wp !in KernelPages(kp, frames + [f])
      ensures Mapping(n, root, 4, wp) ==
              if wp in KernelPages(kp, taken + more) then ClearRw(Mapping(m0, root, 4, wp))
              else Mapping(m0, root, 4, wp)
    {
      if wp in KernelPages(kp, more) {
        var p :| p in more && p in kp && kp[p] == wp;
        NotAmong(kp, taken, p);
      }
    }
  }

  /** A frame that is not among some has its page not among theirs. */
  lemma NotAmong(kp: map<Mfn, nat>, ps: seq<Mfn>, p: Mfn)
    requires p in kp && p !in ps && KernelPagesOk(kp)
    ensures kp[p] !in KernelPages(kp, ps)
  {
  }

  /** The mapping loop of archPageTablePopulate over the frames of the pfns it maps. It succeeds iff the frames are
      distinct, no page of theirs is mapped and there are pages for all tables their paths lack. */
  method Populate(mmu: Mmu, root: Mfn, userRoot: Mfn, ghost sp: nat, frames: seq<Mfn>)
    returns (ok: bool, ghost used: nat)
    requires Ready(mmu, root, userRoot, sp) && mmu.queue == []
    requires forall f :: f in frames ==> f in mmu.kernelPage
    modifies mmu`mem, mmu`queue, mmu`history, mmu`pool, mmu`place
    ensures ok <==> CanPopulate(old(mmu.mem), old(mmu.pool), root, mmu.kernelPage, frames)
    ensures ok ==> used == |TablesMissing(old(mmu.mem), root, KernelPages(mmu.kernelPage, frames))|
    ensures ok ==>
              && mmu.queue == [] && Ready(mmu, root, userRoot, sp)
              && used <= |old(mmu.pool)| && mmu.pool == old(mmu.pool)[used..]
              && Populated(old(mmu.mem), mmu.mem, root, mmu.kernelPage, frames, old(mmu.pool)[..used])
              && UppersFrom(old(mmu.mem), old(mmu.place), mmu.mem, mmu.place)
              && (forall t :: t in old(mmu.place) ==> t in mmu.place && mmu.place[t] == old(mmu.place)[t])
              && OthersKept(old(mmu.mem), mmu.mem, old(mmu.place), sp)
              && RootsElsewhere(old(mmu.mem), mmu.mem, old(mmu.place), root, userRoot,
                                OwnSlots(old(mmu.mem), root, mmu.kernelPage, old(mmu.pool)[..used]),
                                KernelPages(mmu.kernelPage, frames))
              && (forall r, u, sq :: r != userRoot && old(Ready(mmu, r, u, sq)) ==> Ready(mmu, r, u, sq))
  {
    hide Tree, ZeroPage, Mapping, RootsAfter, EndLevel, Inserted, KernelPages, Populated, TablesMissing, Paving,
         LeafFor, KernelPagesOk, Populating, OthersKept, RootsElsewhere, OwnSlots, Ready, UppersFrom;
    ghost var m0, pool0, kp, ws := mmu.mem, mmu.pool, mmu.kernelPage, KernelPages(mmu.kernelPage, frames);
    ghost var place0 := mmu.place;
    PopulateStart(mmu, root, userRoot, sp, frames);
    used := 0;
    for n := 0 to |frames|
      invariant Populating(mmu, m0, place0, pool0, root, userRoot, sp, frames, n, used)
      invariant forall r, u, sq :: r != userRoot && old(Ready(mmu, r, u, sq)) ==> Ready(mmu, r, u, sq)
    {
      ok, used := PopulateOne(mmu, m0, place0, pool0, root, userRoot, sp, frames, n, used);
      if !ok {
        return;
      }
    }
    PopulateEnd(mmu, m0, place0, pool0, root, userRoot, sp, frames, used);
    ok := true;
  }

  /** The state of the loop after `n` frames. */
  ghost predicate Populating(mmu: Mmu, m0: Mem, place0: Places, pool0: seq<Mfn>, root: Mfn, userRoot: Mfn, sp: nat,
                             frames: seq<Mfn>, n: nat, used: nat)
    reads mmu
  {
    && n <= |frames| && Ready(mmu, root, userRoot, sp) && mmu.queue == []
    && AllDistinct(pool0) && used <= |pool0| && mmu.pool == pool0[used..]
    && (forall p :: p in pool0 ==> p in mmu.kernelPage && Present(Mapping(m0, root, 4, mmu.kernelPage[p])))
    && Provided(m0, mmu.mem, root, KernelPages(mmu.kernelPage, frames), used)
    && Populated(m0, mmu.mem, root, mmu.kernelPage, frames[..n], pool0[..used])
    && PopulatedElsewhere(mmu, m0, place0, root, userRoot, sp, frames[..n], pool0[..used])
    && AllDistinct(frames[..n])
    && (forall f :: f in frames[..n] ==> f in mmu.kernelPage && Mapping(m0, root, 4, mmu.kernelPage[f]) == FREE)
  }

  /** What the loop keeps of places and of the other page tables. */
  ghost predicate PopulatedElsewhere(mmu: Mmu, m0: Mem, place0: Places, root: Mfn, userRoot: Mfn, sp: nat,
                                     frames: seq<Mfn>, taken: seq<Mfn>)
    reads mmu
  {
    && IsRoot(place0, root, sp)
    && (forall t :: t in place0 ==> t in mmu.place && mmu.place[t] == place0[t])
    && UppersFrom(m0, place0, mmu.mem, mmu.place)
    && OthersKept(m0, mmu.mem, place0, sp)
    && RootsElsewhere(m0, mmu.mem, place0, root, userRoot, OwnSlots(m0, root, mmu.kernelPage, taken),
                      KernelPages(mmu.kernelPage, frames))
  }

  lemma PopulatedElsewhereStep(mmu: Mmu, m0: Mem, place0: Places, m: Mem, place: Places, root: Mfn, userRoot: Mfn,
                               sp: nat, frames: seq<Mfn>, f: Mfn, taken: seq<Mfn>, more: seq<Mfn>)
    requires IsRoot(place0, root, sp) && root != userRoot && f in mmu.kernelPage && KernelPagesOk(mmu.kernelPage)
    requires forall t :: t in place0 ==> t in place && place[t] == place0[t]
    requires forall t :: t in place ==> t in mmu.place && mmu.place[t] == place[t]
    requires UppersFrom(m0, place0, m, place) && UppersFrom(m, place, mmu.mem, mmu.place)
    requires OthersKept(m0, m, place0, sp) && OthersKept(m, mmu.mem, place, sp)
    requires RootsElsewhere(m0, m, place0, root, userRoot, OwnSlots(m0, root, mmu.kernelPage, taken),
                            KernelPages(mmu.kernelPage, frames))
    requires RootsElsewhere(m, mmu.mem, place, root, userRoot, OwnSlots(m, root, mmu.kernelPage, more),
                            {mmu.kernelPage[f]})
    requires forall p :: p in more ==> p in mmu.kernelPage && Present(Mapping(m0, root, 4, mmu.kernelPage[p]))
    ensures PopulatedElsewhere(mmu, m0, place0, root, userRoot, sp, frames + [f], taken + more)
  {
    hide RootAfter, Mapping, LeafSlot, RootsElsewhere, KernelPages, OwnSlots, UppersFrom;
    var kp := mmu.kernelPage;
    UppersTrans(m0, place0, m, place, mmu.mem, mmu.place);
    KernelPagesAppend(kp, frames, f);
    OwnSlotsAppend(m0, m, place0, root, userRoot, sp, kp, taken, more, KernelPages(kp, frames));
    RootsElsewhereTrans(m0, m, mmu.mem, place0, place, root, userRoot, sp, OwnSlots(m0, root, kp, taken),
                        OwnSlots(m, root, kp, more), KernelPages(kp, frames), {kp[f]});
  }

  /** The own mappings of further pages are where they were at the start. */
  lemma OwnSlotsAppend(m0: Mem, m: Mem, place0: Places, root: Mfn, userRoot: Mfn, sp: nat, kp: map<Mfn, nat>,
                       taken: seq<Mfn>, more: seq<Mfn>, ws: set<nat>)
    requires IsRoot(place0, root, sp) && root != userRoot && KernelPagesOk(kp)
    requires RootsElsewhere(m0, m, place0, root, userRoot, OwnSlots(m0, root, kp, taken), ws)
    requires forall p :: p in more ==> p in kp && Present(Mapping(m0, root, 4, kp[p]))
    ensures OwnSlots(m0, root, kp, taken + more) == OwnSlots(m0, root, kp, taken) + OwnSlots(m, root, kp, more)
  {
    hide LeafSlot, RootAfter;
    forall p | p in more
      ensures LeafSlot(m0, root, 4, kp[p]).Some? && LeafSlot(m, root, 4, kp[p]) == LeafSlot(m0, root, 4, kp[p])
    {
      LeafKept(m0, m, root, root, OwnSlots(m0, root, kp, taken), ws, kp[p]);
    }
  }

  ghost predicate AllDistinct(s: seq<Mfn>) { forall i, j :: 0 <= i < j < |s| ==> s[i] != s[j] }

  /** What the loop succeeds on. */
  ghost predicate CanPopulate(m0: Mem, pool0: seq<Mfn>, root: Mfn, kp: map<Mfn, nat>, frames: seq<Mfn>)
    requires forall f :: f in frames ==> f in kp
  {
    && AllDistinct(frames) && (forall f :: f in frames ==> Mapping(m0, root, 4, kp[f]) == FREE)
    && |TablesMissing(m0, root, KernelPages(kp, frames))| <= |pool0|
  }

  /** One pass of the loop. */
  method PopulateOne(mmu: Mmu, ghost m0: Mem, ghost place0: Places, ghost pool0: seq<Mfn>, root: Mfn, userRoot: Mfn,
                     ghost sp: nat, frames: seq<Mfn>, n: nat, ghost used: nat)
    returns (ok: bool, ghost used': nat)
    requires Populating(mmu, m0, place0, pool0, root, userRoot, sp, frames, n, used) && n < |frames|
    requires forall f :: f in frames ==> f in mmu.kernelPage
    modifies mmu`mem, mmu`queue, mmu`history, mmu`pool, mmu`place
    ensures ok ==> Populating(mmu, m0, place0, pool0, root, userRoot, sp, frames, n + 1, used')
    ensures ok ==> forall r, u, sq :: r != userRoot && old(Ready(mmu, r, u, sq)) ==> Ready(mmu, r, u, sq)
    ensures !ok ==> !CanPopulate(m0, pool0, root, mmu.kernelPage, frames)
  {
    hide Tree, ZeroPage, Mapping, RootsAfter, EndLevel, Inserted, KernelPages, Populated, TablesMissing, Paving,
         LeafFor, KernelPagesOk, AllDistinct, LeafSlot, OthersKept, RootsElsewhere, OwnSlots, UppersFrom, MapsTo;
    ghost var m, place, kp, ws := mmu.mem, mmu.place, mmu.kernelPage, KernelPages(mmu.kernelPage, frames);
    var f := frames[n];
    assert f in frames;
    KernelPagesIn(kp, frames);
    PopulatedMapped(m0, m, root, kp, frames[..n], pool0[..used], f);
    ok := Insert(mmu, root, userRoot, sp, mmu.kernelPage[f], f, PERM_NONE);
    if !ok {
      if Mapping(m, root, 4, kp[f]) == FREE {
        PathAmong(m, root, ws, kp[f]);
      } else if f in frames[..n] {
        Repeated(frames, n);
      }
      return ok, used;
    }
    ghost var more := EndLevel(m, root, 4, kp[f]) - 1;
    PopulateMore(m0, m, mmu.mem, root, kp, frames[..n], f, pool0, used, more);
    PopulatedElsewhereStep(mmu, m0, place0, m, place, root, userRoot, sp, frames[..n], f, pool0[..used],
                           pool0[used..][..more]);
    PavingStep(m, mmu.mem, root, ws, kp[f]);
    OneMore(frames, n);
    used' := used + more;
  }

  lemma Repeated(frames: seq<Mfn>, n: nat)
    requires n < |frames| && frames[n] in frames[..n]
    ensures !AllDistinct(frames)
  {
  }

  lemma OneMore(frames: seq<Mfn>, n: nat)
    requires n < |frames| && AllDistinct(frames[..n]) && frames[n] !in frames[..n]
    ensures frames[..n + 1] == frames[..n] + [frames[n]] && AllDistinct(frames[..n + 1])
  {
  }

  /** Whether a page is mapped is decided by what was mapped at the start and by the frames so far. */
  lemma PopulatedMapped(m0: Mem, m: Mem, root: Mfn, kp: map<Mfn, nat>, frames: seq<Mfn>, taken: seq<Mfn>, f: Mfn)
    requires Populated(m0, m, root, kp, frames, taken) && KernelPagesOk(kp) && f in kp
    requires forall p :: p in taken ==> p in kp && Present(Mapping(m0, root, 4, kp[p]))
    ensures Mapping(m, root, 4, kp[f]) != FREE <==> f in frames || Mapping(m0, root, 4, kp[f]) != FREE
  {
    hide Mapping, LeafSlot;
    if f !in frames {
      NotAmong(kp, frames, f);
      if kp[f] in KernelPages(kp, taken) {
        var p :| p in taken && p in kp && kp[p] == kp[f];
      }
    }
  }

  lemma PopulateMore(m0: Mem, m: Mem, n: Mem, root: Mfn, kp: map<Mfn, nat>, frames: seq<Mfn>, f: Mfn, pool: seq<Mfn>,
                     used: nat, more: nat)
    requires KernelPagesOk(kp) && f in kp && f !in frames && used + more <= |pool|
    requires AllDistinct(pool) && forall p :: p in pool ==> p in kp && Present(Mapping(m0, root, 4, kp[p]))
    requires Populated(m0, m, root, kp, frames, pool[..used]) && Mapping(m, root, 4, kp[f]) == FREE
    requires forall g :: g in frames || g == f ==> g in kp && Mapping(m0, root, 4, kp[g]) == FREE
    requires Inserted(m, n, root, kp[f], LeafFor(kp[f], f, PERM_NONE), KernelPages(kp, pool[used..][..more]))
    ensures Populated(m0, n, root, kp, frames + [f], pool[..used + more]) && LeafSlot(n, root, 4, kp[f]).Some?
    ensures pool[used..][more..] == pool[used + more..] && pool[..used + more] == pool[..used] + pool[used..][..more]
  {
    hide Mapping, LeafFor, KernelPages, Populated, Inserted, LeafSlot, KernelPagesOk;
    var taken, next := pool[..used], pool[used..][..more];
    TakeMore(pool, used, more);
    PopulatedStep(m0, m, n, root, kp, frames, f, taken, next);
    MappedHasLeaf(m, n, root, kp, f, KernelPages(kp, next));
  }

  /** The next pages of the pool are none of those taken before. */
  lemma TakeMore(pool: seq<Mfn>, used: nat, more: nat)
    requires AllDistinct(pool) && used + more <= |pool|
    ensures pool[used..][more..] == pool[used + more..] && pool[..used + more] == pool[..used] + pool[used..][..more]
    ensures forall p :: p in pool[used..][..more] ==> p in pool && p !in pool[..used]
  {
    forall p | p in pool[used..][..more]
      ensures p in pool && p !in pool[..used]
    {
      var i :| 0 <= i < |pool[used..][..more]| && pool[used..][..more][i] == p;
      assert p == pool[used + i];
    }
  }

  lemma MappedHasLeaf(m: Mem, n: Mem, root: Mfn, kp: map<Mfn, nat>, f: Mfn, marks: set<nat>)
    requires KernelPagesOk(kp) && f in kp && Inserted(m, n, root, kp[f], LeafFor(kp[f], f, PERM_NONE), marks)
    ensures LeafSlot(n, root, 4, kp[f]).Some?
  {
    assert Mapping(n, root, 4, kp[f]) != FREE;
  }

  lemma PopulateEnd(mmu: Mmu, m0: Mem, place0: Places, pool0: seq<Mfn>, root: Mfn, userRoot: Mfn, sp: nat,
                    frames: seq<Mfn>, used: nat)
    requires Populating(mmu, m0, place0, pool0, root, userRoot, sp, frames, |frames|, used)
    requires forall f :: f in frames ==> f in mmu.kernelPage
    ensures CanPopulate(m0, pool0, root, mmu.kernelPage, frames) && mmu.queue == [] && Ready(mmu, root, userRoot, sp)
    ensures used <= |pool0| && mmu.pool == pool0[used..]
    ensures used == |TablesMissing(m0, root, KernelPages(mmu.kernelPage, frames))|
    ensures Populated(m0, mmu.mem, root, mmu.kernelPage, frames, pool0[..used])
    ensures PopulatedElsewhere(mmu, m0, place0, root, userRoot, sp, frames, pool0[..used])
  {
    hide Mapping, Tree, TablesMissing, KernelPages, Populated, AllDistinct;
    assert frames[..|frames|] == frames;
    PopulatedPaved(m0, mmu.mem, root, mmu.kernelPage, frames, pool0[..used]);
  }

  lemma PopulatedPaved(m0: Mem, m: Mem, root: Mfn, kp: map<Mfn, nat>, frames: seq<Mfn>, taken: seq<Mfn>)
    requires Populated(m0, m, root, kp, frames, taken)
    ensures TablesMissing(m, root, KernelPages(kp, frames)) == {}
  {
    hide LeafSlot, TableAt;
    var ws := KernelPages(kp, frames);
    forall w | w in ws
      ensures LeafSlot(m, root, 4, w).Some?
    {
      var f :| f in frames && f in kp && kp[f] == w;
      assert Mapping(m, root, 4, w) != FREE;
    }
    NoneMissing(m, root, ws);
  }

  lemma KernelPagesIn(kp: map<Mfn, nat>, ps: seq<Mfn>)
    requires KernelPagesOk(kp)
    ensures forall p :: p in ps && p in kp ==> kp[p] in KernelPages(kp, ps)
    ensures forall w :: w in KernelPages(kp, ps) ==> w < PAGES
  {
  }

  lemma PopulateStart(mmu: Mmu, root: Mfn, userRoot: Mfn, sp: nat, frames: seq<Mfn>)
    requires Ready(mmu, root, userRoot, sp) && mmu.queue == []
    ensures Populating(mmu, mmu.mem, mmu.place, mmu.pool, root, userRoot, sp, frames, 0, 0)
  {
    hide Mapping, Tree, TablesMissing;
    assert frames[..0] == [] && mmu.pool[..0] == [] && mmu.pool[0..] == mmu.pool;
  }

  lemma KernelPagesAppend(kp: map<Mfn, nat>, ps: seq<Mfn>, p: Mfn)
    requires p in kp
    ensures KernelPages(kp, ps + [p]) == KernelPages(kp, ps) + {kp[p]}
  {
  }
}
