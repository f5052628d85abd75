/** Building a page table that is not in use yet, by direct writes, and handing it to the hypervisor:
    archPageTableOfflineClone, archPageTableOfflineUserInsert, archPageTableOfflineAllocTree and
    archPageTableOfflineCompleteExisting. */
module PageOffline {
  import opened Paging
  import opened Mmu
  import opened Hardware
  import opened PageNeeds
  import opened PageInsert

  /** The capacity of ptNoWrite. */
  const MAX_PTS: nat := 4096

  // --------------------------------------------------------- growing a tree by one page

  /** Every walk that reached a leaf slot still reaches it, every page is mapped as before, and every entry in use stays
      as it is. */
  ghost predicate SameMappings(m: Mem, n: Mem, place: Places) {
    && (forall t, sp, k, vp {:trigger At(place, t, sp, k, vp)} :: At(place, t, sp, k, vp) ==>
          && (LeafSlot(m, t, k, vp).Some? ==> LeafSlot(n, t, k, vp) == LeafSlot(m, t, k, vp))
          && Mapping(n, t, k, vp) == Mapping(m, t, k, vp))
    && (forall s: Slot :: s.page in place && Get(m, s) != FREE ==> Get(n, s) == Get(m, s))
  }

  /** Hanging a zero page into a free upper slot maps nothing. */
  lemma AddTable(m: Mem, place: Places, t: Mfn, i: nat, page: Mfn)
    requires Tree(m, place) && t in place && place[t].level >= 2 && i < ENTRIES && Get(m, Slot(t, i)) == FREE
    requires page !in place && ZeroPage(m, page)
    ensures
      var m' := m[Slot(t, i) := Pte(page, TABLE_PROT)];
      && Tree(m', place[page := Child(place[t], i)]) && SameMappings(m, m', place)
      && UppersFrom(m, place, m', place[page := Child(place[t], i)])
  {
    var m' := m[Slot(t, i) := Pte(page, TABLE_PROT)];
    assert forall u, j: nat {:trigger Get(m', Slot(u, j))} ::
        Get(m', Slot(u, j)) == if u == t && j == i then Pte(page, TABLE_PROT) else Get(m, Slot(u, j));
    assert forall j: nat :: Get(m, Slot(page, j)) == FREE;
    var place' := place[page := Child(place[t], i)];
    UppersPage(m, place, page, Child(place[t], i));
    UppersPut(m, place', Slot(t, i), Pte(page, TABLE_PROT));
    UppersTrans(m, place, m, place', m', place');
    forall u, sp, k, vp | At(place, u, sp, k, vp)
      ensures LeafSlot(m, u, k, vp).Some? ==> LeafSlot(m', u, k, vp) == LeafSlot(m, u, k, vp)
      ensures Mapping(m', u, k, vp) == Mapping(m, u, k, vp)
    {
      AddTableWalk(m, place, t, i, page, u, sp, k, vp);
    }
  }

  lemma {:induction false} AddTableWalk(m: Mem, place: Places, t: Mfn, i: nat, page: Mfn, u: Mfn, sp: nat, k: nat,
                                        vp: nat)
    requires Tree(m, place) && t in place && place[t].level >= 2 && i < ENTRIES && Get(m, Slot(t, i)) == FREE
    requires page !in place && ZeroPage(m, page) && At(place, u, sp, k, vp)
    ensures
      var m' := m[Slot(t, i) := Pte(page, TABLE_PROT)];
      && (LeafSlot(m, u, k, vp).Some? ==> LeafSlot(m', u, k, vp) == LeafSlot(m, u, k, vp))
      && Mapping(m', u, k, vp) == Mapping(m, u, k, vp)
    decreases k
  {
    var m' := m[Slot(t, i) := Pte(page, TABLE_PROT)];
    if k > 1 {
      var s := Slot(u, Idx(vp, k));
      if s == Slot(t, i) {
        assert Get(m, Slot(page, Idx(vp, k - 1))) == FREE;
        assert Get(m', Slot(page, Idx(vp, k - 1))) == FREE;
        assert Mapping(m', page, k - 1, vp) == FREE;
      } else if Get(m, s) != FREE {
        ChildNode(sp, k, vp);
        AddTableWalk(m, place, t, i, page, Get(m, s).frame, sp, k - 1, vp);
      }
    }
  }

  // ------------------------------------------------------------------ the invariant

  /** Xen's two roots: an entry of the user root is unused or that of the kernel root. */
  ghost predicate DualRoots(m: Mem, root: Mfn, userRoot: Mfn) {
    forall i: nat {:trigger Get(m, Slot(userRoot, i))} | i < ENTRIES ::
      Get(m, Slot(userRoot, i)) == FREE || Agree(m, root, userRoot, i)
  }

  /** Every table page of the address space but its two roots waits in ptNoWrite. */
  ghost predicate AllWaiting(place: Places, root: Mfn, userRoot: Mfn, sp: nat, noWrite: seq<Mfn>) {
    forall t :: t in place && place[t].space == sp ==> t == root || t == userRoot || t in noWrite
  }

  /** A page table under construction. */
  ghost predicate Offline(mmu: Mmu, root: Mfn, userRoot: Mfn, sp: nat)
    reads mmu
  {
    && mmu.queue == [] && mmu.PoolOk() && Tree(mmu.mem, mmu.place)
    && sp != 0 && root != userRoot && IsRoot(mmu.place, root, sp) && IsRoot(mmu.place, userRoot, sp)
    && |mmu.noWrite| < MAX_PTS
    && AllWaiting(mmu.place, root, userRoot, sp, mmu.noWrite)
    && DualRoots(mmu.mem, root, userRoot)
  }

  // ------------------------------------------------------------------------- clone

  /** archPageTableOfflineClone: an empty user half, an empty user root, and the kernel half of the old root. */
  method Clone(mmu: Mmu, root: Mfn, userRoot: Mfn, ghost sp: nat, oldRoot: Mfn, ghost oldSp: nat)
    requires mmu.queue == [] && mmu.PoolOk() && Tree(mmu.mem, mmu.place) && IsRoot(mmu.place, oldRoot, oldSp)
    requires |mmu.noWrite| < MAX_PTS && sp != 0 && forall t :: t in mmu.place ==> mmu.place[t].space != sp
    requires root != userRoot && {root, userRoot} !! mmu.place.Keys && root !in mmu.pool && userRoot !in mmu.pool
    modifies mmu`mem, mmu`place
    ensures Offline(mmu, root, userRoot, sp)
    ensures mmu.place == old(mmu.place)[root := Node(sp, 4, 0)][userRoot := Node(sp, 4, 0)]
    ensures SameOn(old(mmu.mem), mmu.mem, old(mmu.place))
    ensures forall i: nat :: i < USER_ENTRIES ==> Get(mmu.mem, Slot(root, i)) == FREE
    ensures forall i: nat :: i < ENTRIES ==> Get(mmu.mem, Slot(userRoot, i)) == FREE
    ensures UppersFrom(old(mmu.mem), old(mmu.place), mmu.mem, mmu.place)
    ensures forall wp: nat :: wp < PAGES ==>
              Mapping(mmu.mem, root, 4, wp) ==
              if wp < USER_PAGES then FREE else Mapping(old(mmu.mem), oldRoot, 4, wp)
  {
    hide Tree, Mapping, LeafSlot, UppersFrom;
    ghost var m0 := mmu.mem;
    var i := 0;
    while i < USER_ENTRIES
      modifies mmu`mem
      invariant i <= USER_ENTRIES
      invariant forall s: Slot :: s.page !in {root, userRoot} ==> Get(mmu.mem, s) == Get(m0, s)
      invariant forall j :: 0 <= j < i ==>
                Get(mmu.mem, Slot(root, j)) == FREE && Get(mmu.mem, Slot(userRoot, j)) == FREE
    {
      mmu.mem := mmu.mem[Slot(userRoot, i) := FREE][Slot(root, i) := FREE];
      i := i + 1;
    }
    while i < ENTRIES
      modifies mmu`mem
      invariant USER_ENTRIES <= i <= ENTRIES
      invariant forall s: Slot :: s.page !in {root, userRoot} ==> Get(mmu.mem, s) == Get(m0, s)
      invariant forall j :: 0 <= j < i ==> Get(mmu.mem, Slot(userRoot, j)) == FREE
      invariant forall j :: 0 <= j < i ==>
                  Get(mmu.mem, Slot(root, j)) == if j < USER_ENTRIES then FREE else Get(m0, Slot(oldRoot, j))
    {
      mmu.mem := mmu.mem[Slot(userRoot, i) := FREE][Slot(root, i) := Get(mmu.mem, Slot(oldRoot, i))];
      i := i + 1;
    }
    forall p | p in mmu.pool
      ensures ZeroPage(mmu.mem, p)
    {
      assert forall i: nat :: Get(m0, Slot(p, i)) == FREE;
    }
    ClonedTree(m0, mmu.mem, mmu.place, root, userRoot, sp, oldRoot, oldSp);
    ClonedUppers(m0, mmu.mem, mmu.place, root, userRoot, sp, oldRoot, oldSp);
    mmu.place := mmu.place[root := Node(sp, 4, 0)][userRoot := Node(sp, 4, 0)];
  }

  /** Two new roots: one empty, the other with the kernel half of an old root. */
  ghost predicate Cloned(m0: Mem, m: Mem, place: Places, root: Mfn, userRoot: Mfn, oldRoot: Mfn) {
    && root != userRoot && {root, userRoot} !! place.Keys && SameOn(m0, m, place)
    && (forall i: nat | i < ENTRIES :: Get(m, Slot(userRoot, i)) == FREE)
    && (forall i: nat | i < ENTRIES ::
          Get(m, Slot(root, i)) == if i < USER_ENTRIES then FREE else Get(m0, Slot(oldRoot, i)))
  }

  lemma ClonedTree(m0: Mem, m: Mem, place: Places, root: Mfn, userRoot: Mfn, sp: nat, oldRoot: Mfn, oldSp: nat)
    requires Tree(m0, place) && IsRoot(place, oldRoot, oldSp) && Cloned(m0, m, place, root, userRoot, oldRoot)
    ensures Tree(m, place[root := Node(sp, 4, 0)][userRoot := Node(sp, 4, 0)])
    ensures DualRoots(m, root, userRoot)
    ensures forall wp: nat :: wp < PAGES ==>
              Mapping(m, root, 4, wp) == if wp < USER_PAGES then FREE else Mapping(m0, oldRoot, 4, wp)
  {
    forall wp: nat | wp < PAGES
      ensures Mapping(m, root, 4, wp) == if wp < USER_PAGES then FREE else Mapping(m0, oldRoot, 4, wp)
    {
      TopShr(wp);
      RootAt(place, oldRoot, oldSp, wp);
      var e := Get(m, Slot(root, Idx(wp, 4)));
      if e != FREE {
        ChildNode(oldSp, 4, wp);
        WalkSame(m0, m, place, e.frame, oldSp, 3, wp);
        WalkPlace(m0, place, e.frame, oldSp, 3, wp);
      }
    }
  }

  lemma ClonedUppers(m0: Mem, m: Mem, place: Places, root: Mfn, userRoot: Mfn, sp: nat, oldRoot: Mfn, oldSp: nat)
    requires IsRoot(place, oldRoot, oldSp) && Cloned(m0, m, place, root, userRoot, oldRoot)
    ensures UppersFrom(m0, place, m, place[root := Node(sp, 4, 0)][userRoot := Node(sp, 4, 0)])
  {
    var place' := place[root := Node(sp, 4, 0)][userRoot := Node(sp, 4, 0)];
    forall fs | UppersHave(m0, place, fs) && 0x067 in fs
      ensures UppersHave(m, place', fs)
    {
      forall t, i: nat | t in place' && place'[t].level >= 2 && i < ENTRIES && Get(m, Slot(t, i)) != FREE
        ensures Get(m, Slot(t, i)).flags in fs
      {
        if t in place { assert Get(m0, Slot(t, i)) == Get(m, Slot(t, i)); }
        assert t == root ==> Get(m0, Slot(oldRoot, i)).flags in fs;
      }
    }
  }

  // ------------------------------------------------------------------- allocation

  /** Whether _offlinePtpAlloc will succeed `n` times in a row. */
  predicate CanAllocate(mmu: Mmu, n: nat)
    reads mmu
  {
    n == 0 || (n <= |mmu.pool| && |mmu.noWrite| + n < MAX_PTS)
  }

  /** _offlinePtpAlloc */
  method OfflinePtpAlloc(mmu: Mmu) returns (r: Option<Mfn>)
    requires mmu.PoolOk()
    modifies mmu`pool, mmu`noWrite
    ensures r.Some? <==> old(CanAllocate(mmu, 1))
    ensures r.Some? ==>
      && r.value == old(mmu.pool)[0] && mmu.pool == old(mmu.pool)[1..] && mmu.noWrite == old(mmu.noWrite) + [r.value]
      && mmu.PoolOk() && r.value !in mmu.pool
    ensures r.None? ==> mmu.pool == old(mmu.pool) && mmu.noWrite == old(mmu.noWrite)
  {
    if |mmu.noWrite| + 1 >= MAX_PTS {
      return None;
    }
    r := mmu.PtpAlloc();
    if r.Some? {
      mmu.noWrite := mmu.noWrite + [r.value];
    }
  }

  /** A direct write to a page of the tree does not touch the pool. */
  lemma PoolAfterWrite(pool: seq<Mfn>, place: Places, m: Mem, s: Slot, p: Pte)
    requires s.page in place && forall q :: q in pool ==> q !in place && ZeroPage(m, q)
    ensures forall q :: q in pool ==> ZeroPage(m[s := p], q)
  {
    forall q | q in pool
      ensures ZeroPage(m[s := p], q)
    {
      ZeroElsewhere(m, s, p, q);
    }
  }

  lemma DualAfterWrite(m: Mem, root: Mfn, userRoot: Mfn, s: Slot, p: Pte)
    requires DualRoots(m, root, userRoot) && root != userRoot && s.page != userRoot && Get(m, s) == FREE
    ensures DualRoots(m[s := p], root, userRoot)
  {
    forall i: nat | i < ENTRIES
      ensures Get(m[s := p], Slot(userRoot, i)) == FREE || Agree(m[s := p], root, userRoot, i)
    {
      assert Get(m, Slot(userRoot, i)) == FREE || Agree(m, root, userRoot, i);
    }
  }

  /** What one offline step keeps of the memory and the places before it. */
  ghost predicate Grown(m0: Mem, place0: Places, m: Mem, place: Places) {
    && (forall t :: t in place0 ==> t in place && place[t] == place0[t])
    && SameMappings(m0, m, place0) && UppersFrom(m0, place0, m, place)
  }

  lemma SameMappingsRefl(m: Mem, place: Places)
    ensures SameMappings(m, m, place)
  {
  }

  lemma SameMappingsTrans(m0: Mem, place0: Places, m1: Mem, place1: Places, m2: Mem)
    requires SameMappings(m0, m1, place0) && SameMappings(m1, m2, place1)
    requires forall t :: t in place0 ==> t in place1 && place1[t] == place0[t]
    ensures SameMappings(m0, m2, place0)
  {
    forall t, sp, k, vp | At(place0, t, sp, k, vp)
      ensures LeafSlot(m0, t, k, vp).Some? ==> LeafSlot(m2, t, k, vp) == LeafSlot(m0, t, k, vp)
      ensures Mapping(m2, t, k, vp) == Mapping(m0, t, k, vp)
    {
      assert At(place1, t, sp, k, vp);
    }
  }

  /** _offlinePathLevel and _offlineAllocTreePtp: the table below a slot, allocated if missing. */
  method PathLevel(mmu: Mmu, ghost root: Mfn, ghost userRoot: Mfn, ghost sp: nat, s: Slot) returns (r: Option<Mfn>)
    requires Offline(mmu, root, userRoot, sp) && s.page in mmu.place && mmu.place[s.page].level >= 2 && s.idx < ENTRIES
    requires s.page != userRoot
    modifies mmu`mem, mmu`pool, mmu`noWrite, mmu`place
    ensures Get(old(mmu.mem), s) != FREE ==>
              r == Some(Get(old(mmu.mem), s).frame) && mmu.mem == old(mmu.mem) && mmu.place == old(mmu.place)
              && mmu.pool == old(mmu.pool) && mmu.noWrite == old(mmu.noWrite)
    ensures Get(old(mmu.mem), s) == FREE ==>
              && (r.Some? <==> old(CanAllocate(mmu, 1)))
              && (r.Some? ==>
                    && r.value == old(mmu.pool)[0] && mmu.pool == old(mmu.pool)[1..]
                    && mmu.noWrite == old(mmu.noWrite) + [r.value]
                    && mmu.mem == old(mmu.mem)[s := Pte(r.value, TABLE_PROT)] && ZeroPage(old(mmu.mem), r.value)
                    && r.value !in old(mmu.place)
                    && mmu.place == old(mmu.place)[r.value := Child(old(mmu.place)[s.page], s.idx)])
    ensures r.None? ==> mmu.pool == old(mmu.pool) && mmu.noWrite == old(mmu.noWrite)
    ensures r.None? ==> mmu.mem == old(mmu.mem) && mmu.place == old(mmu.place)
    ensures Offline(mmu, root, userRoot, sp)
    ensures r.Some? ==>
      && Grown(old(mmu.mem), old(mmu.place), mmu.mem, mmu.place)
      && r.value in mmu.place && mmu.place[r.value] == Child(mmu.place[s.page], s.idx)
  {
    hide Tree, SameMappings, DualRoots, UppersFrom;
    var e := Get(mmu.mem, s);
    if e != FREE {
      UppersSame(mmu.mem, mmu.place);
      SameMappingsRefl(mmu.mem, mmu.place);
      TreeEntry(mmu.mem, mmu.place, s);
      return Some(e.frame);
    }
    ghost var m0, place0 := mmu.mem, mmu.place;
    r := OfflinePtpAlloc(mmu);
    if r.Some? {
      AddTable(m0, place0, s.page, s.idx, r.value);
      PoolAfterWrite(mmu.pool, place0, m0, s, Pte(r.value, TABLE_PROT));
      DualAfterWrite(m0, root, userRoot, s, Pte(r.value, TABLE_PROT));
      mmu.mem := mmu.mem[s := Pte(r.value, TABLE_PROT)];
      mmu.place := place0[r.value := Child(place0[s.page], s.idx)];
    }
  }

  /** The pages of every root but the user root are mapped as before. */
  ghost predicate Unmoved(m0: Mem, m: Mem, place0: Places, root: Mfn, sp: nat) {
    forall r, sq :: IsRoot(place0, r, sq) && (r == root || sq != sp) ==>
      forall wp: nat :: wp < PAGES ==> Mapping(m, r, 4, wp) == Mapping(m0, r, 4, wp)
  }

  lemma UnmovedStep(m0: Mem, place0: Places, m: Mem, place: Places, n: Mem, root: Mfn, sp: nat)
    requires Unmoved(m0, m, place0, root, sp) && SameMappings(m, n, place)
    requires forall t :: t in place0 ==> t in place && place[t] == place0[t]
    ensures Unmoved(m0, n, place0, root, sp)
  {
    forall r, sq, wp: nat | IsRoot(place0, r, sq) && (r == root || sq != sp) && wp < PAGES
      ensures Mapping(n, r, 4, wp) == Mapping(m0, r, 4, wp)
    {
      RootAt(place, r, sq, wp);
    }
  }

  /** Nothing is written outside the address space `sp`. */
  ghost predicate OtherSpacesKept(m0: Mem, m: Mem, place0: Places, sp: nat) {
    forall s: Slot :: s.page in place0 && place0[s.page].space != sp ==> Get(m, s) == Get(m0, s)
  }

  /** Writing a table of the address space keeps the others. */
  lemma OtherSpacesStep(m0: Mem, place0: Places, m: Mem, place: Places, n: Mem, sp: nat, t: Mfn)
    requires OtherSpacesKept(m0, m, place0, sp) && t in place && place[t].space == sp
    requires forall u :: u in place0 ==> u in place && place[u] == place0[u]
    requires forall s: Slot :: s.page != t ==> Get(n, s) == Get(m, s)
    ensures OtherSpacesKept(m0, n, place0, sp)
  {
  }

  /** _offlineDuplicateL4 */
  method DuplicateL4(mmu: Mmu, root: Mfn, userRoot: Mfn, ghost sp: nat, i: nat)
    requires Offline(mmu, root, userRoot, sp) && i < ENTRIES
    modifies mmu`mem
    ensures Offline(mmu, root, userRoot, sp) && Agree(mmu.mem, root, userRoot, i)
    ensures mmu.mem == old(mmu.mem)[Slot(userRoot, i) := Get(old(mmu.mem), Slot(root, i))]
    ensures forall r, sq :: IsRoot(mmu.place, r, sq) && r != userRoot ==> SameRoot(old(mmu.mem), mmu.mem, r)
    ensures UppersFrom(old(mmu.mem), mmu.place, mmu.mem, mmu.place)
  {
    hide Tree, LeafSlot, Mapping, SameMappings, UppersFrom;
    ghost var m0 := mmu.mem;
    UppersPut(m0, mmu.place, Slot(userRoot, i), Get(m0, Slot(root, i)));
    PoolAfterWrite(mmu.pool, mmu.place, m0, Slot(userRoot, i), Get(m0, Slot(root, i)));
    HungTwice(m0, mmu.place, root, userRoot, sp, i);
    mmu.mem := mmu.mem[Slot(userRoot, i) := Get(mmu.mem, Slot(root, i))];
    forall j: nat | j < ENTRIES
      ensures Get(mmu.mem, Slot(userRoot, j)) == FREE || Agree(mmu.mem, root, userRoot, j)
    {
      assert Get(m0, Slot(userRoot, j)) == FREE || Agree(m0, root, userRoot, j);
    }
  }

  /** The progress of _offlinePath: `n` tables have been allocated, the last of which is `tab` if there is any. */
  ghost predicate PathProgress(m0: Mem, m: Mem, root: Mfn, userRoot: Mfn, vp: nat, tab: Mfn, k: nat, n: nat) {
    && 1 <= k <= 4 && TableAt(m, root, 4, vp, k) == Some(tab)
    && (n == 0 ==>
          && EndLevel(m0, root, 4, vp) == EndLevel(m0, tab, k, vp)
          && (forall s: Slot :: s.page != userRoot ==> Get(m, s) == Get(m0, s)))
    && (n > 0 ==> EndLevel(m0, root, 4, vp) == k + n && ZeroPage(m, tab))
    && (k < 4 ==> Agree(m, root, userRoot, Idx(vp, 4)))
  }

  /** One level of _offlinePath, without the copy to the user root. */
  lemma PathStep(m0: Mem, m: Mem, place: Places, root: Mfn, userRoot: Mfn, sp: nat, vp: nat, tab: Mfn, k: nat, n: nat,
                 page: Mfn, m': Mem)
    requires Tree(m, place) && IsRoot(place, root, sp) && IsRoot(place, userRoot, sp) && root != userRoot
    requires vp < PAGES && 2 <= k && PathProgress(m0, m, root, userRoot, vp, tab, k, n) && At(place, tab, sp, k, vp)
    requires
      var e := Get(m, Slot(tab, Idx(vp, k)));
      if e != FREE then m' == m && page == e.frame
      else m' == m[Slot(tab, Idx(vp, k)) := Pte(page, TABLE_PROT)] && ZeroPage(m, page) && page !in place
    ensures
      var n' := if Get(m, Slot(tab, Idx(vp, k))) == FREE then n + 1 else n;
      var m'' := if k == 4 then m'[Slot(userRoot, Idx(vp, 4)) := Get(m', Slot(root, Idx(vp, 4)))] else m';
      PathProgress(m0, m'', root, userRoot, vp, page, k - 1, n')
  {
    var s := Slot(tab, Idx(vp, k));
    var n' := if Get(m, s) == FREE then n + 1 else n;
    var m'' := if k == 4 then m'[Slot(userRoot, Idx(vp, 4)) := Get(m', Slot(root, Idx(vp, 4)))] else m';
    RootAt(place, root, sp, vp);
    RootAt(place, userRoot, sp, vp);
    TableSame(m, m'', place, root, sp, 4, vp, k);
    TableStep(m'', root, 4, vp, k);
    if Get(m, s) == FREE {
      forall i: nat
        ensures Get(m'', Slot(page, i)) == FREE
      {
        assert Get(m, Slot(page, i)) == FREE;
      }
    }
  }

  /** The state of _offlinePath at table `tab` of level `k`, with `n` pages allocated. */
  ghost predicate OnPath(mmu: Mmu, m0: Mem, place0: Places, pool0: seq<Mfn>, noWrite0: seq<Mfn>,
                         root: Mfn, userRoot: Mfn, sp: nat, vp: nat, tab: Mfn, k: nat, n: nat)
    reads mmu
  {
    && Offline(mmu, root, userRoot, sp) && (k == 4 ==> tab == root)
    && (forall t :: t in place0 ==> t in mmu.place && mmu.place[t] == place0[t])
    && n <= |pool0| && mmu.pool == pool0[n..] && mmu.noWrite == noWrite0 + pool0[..n]
    && At(mmu.place, tab, sp, k, vp)
    && PathProgress(m0, mmu.mem, root, userRoot, vp, tab, k, n)
    && PathKeeps(m0, mmu.mem, place0, root, userRoot, sp, vp)
    && UppersFrom(m0, place0, mmu.mem, mmu.place)
  }

  /** No entry of the user root that was in use is unused: with the invariant of the two roots, agreement once reached
      lasts. */
  ghost predicate UserRootKept(m0: Mem, m: Mem, userRoot: Mfn) {
    forall i: nat | i < ENTRIES :: Get(m0, Slot(userRoot, i)) != FREE ==> Get(m, Slot(userRoot, i)) != FREE
  }

  /** A write elsewhere or the copy of an entry from the other root keeps that. */
  lemma UserRootStep(m0: Mem, m: Mem, n: Mem, root: Mfn, userRoot: Mfn)
    requires UserRootKept(m0, m, userRoot) && DualRoots(m, root, userRoot)
    requires forall i: nat ::
               || Get(n, Slot(userRoot, i)) == Get(m, Slot(userRoot, i))
               || Get(n, Slot(userRoot, i)) == Get(m, Slot(root, i))
    ensures UserRootKept(m0, n, userRoot)
  {
    forall i: nat | i < ENTRIES && Get(m0, Slot(userRoot, i)) != FREE
      ensures Get(n, Slot(userRoot, i)) != FREE
    {
      assert Get(m, Slot(userRoot, i)) == FREE || Agree(m, root, userRoot, i);
    }
  }

  /** A new table on a path, and the copy of an entry to the user root, keep the other tables of the root. */
  lemma PathPaves(m0: Mem, m: Mem, place: Places, root: Mfn, sp: nat, tab: Mfn, k: nat, vp: nat, page: Mfn, m': Mem)
    requires Paving(m0, m, root, vp) && Tree(m, place) && IsRoot(place, root, sp) && 2 <= k && At(place, tab, sp, k, vp)
    requires
      if Get(m, Slot(tab, Idx(vp, k))) != FREE then m' == m
      else m' == m[Slot(tab, Idx(vp, k)) := Pte(page, TABLE_PROT)] && ZeroPage(m, page) && page !in place
    ensures Paving(m0, m', root, vp)
  {
    hide Paving, Tree;
    if Get(m, Slot(tab, Idx(vp, k))) == FREE {
      GrownAdds(m, place, root, sp, tab, k, vp, page);
      AddsPaving(m, m', root, k - 1, vp);
      PavingTrans(m0, m, m', root, vp);
    }
  }

  /** What _offlinePath keeps all along. */
  ghost predicate PathKeeps(m0: Mem, m: Mem, place0: Places, root: Mfn, userRoot: Mfn, sp: nat, vp: nat) {
    && Unmoved(m0, m, place0, root, sp) && OtherSpacesKept(m0, m, place0, sp)
    && UserRootKept(m0, m, userRoot) && Paving(m0, m, root, vp)
  }

  /** The copy of the top-level entry to the user root. */
  method CopyTop(mmu: Mmu, root: Mfn, userRoot: Mfn, ghost sp: nat, vp: nat, ghost m0: Mem, ghost place0: Places)
    requires Offline(mmu, root, userRoot, sp) && PathKeeps(m0, mmu.mem, place0, root, userRoot, sp, vp)
    requires forall t :: t in place0 ==> t in mmu.place && mmu.place[t] == place0[t]
    modifies mmu`mem
    ensures Offline(mmu, root, userRoot, sp) && PathKeeps(m0, mmu.mem, place0, root, userRoot, sp, vp)
    ensures UppersFrom(old(mmu.mem), mmu.place, mmu.mem, mmu.place)
    ensures mmu.mem == old(mmu.mem)[Slot(userRoot, Idx(vp, 4)) := Get(old(mmu.mem), Slot(root, Idx(vp, 4)))]
  {
    hide Tree, LeafSlot, Mapping, ZeroPage, DualRoots, AllWaiting, UserRootKept, OtherSpacesKept, Unmoved, Paving,
         Agree, UppersFrom;
    ghost var m := mmu.mem;
    DuplicateL4(mmu, root, userRoot, sp, Idx(vp, 4));
    UserRootStep(m0, m, mmu.mem, root, userRoot);
    OtherSpacesStep(m0, place0, m, mmu.place, mmu.mem, sp, userRoot);
    UnmovedDuplicate(m0, place0, m, mmu.place, mmu.mem, root, userRoot, sp);
    SameTablesPave(m0, m, mmu.place, root, sp, vp, mmu.mem);
  }

  /** The table that a path goes on with, allocated or not, keeps all that. */
  lemma PathLevelKeeps(m0: Mem, place0: Places, m: Mem, place: Places, m': Mem, root: Mfn, userRoot: Mfn, sp: nat,
                       vp: nat,
                       tab: Mfn, k: nat, page: Mfn)
    requires PathKeeps(m0, m, place0, root, userRoot, sp, vp) && Tree(m, place) && IsRoot(place, root, sp)
    requires 2 <= k && At(place, tab, sp, k, vp) && place[tab].space == sp && tab != userRoot
    requires DualRoots(m, root, userRoot) && SameMappings(m, m', place)
    requires forall t :: t in place0 ==> t in place && place[t] == place0[t]
    requires
      if Get(m, Slot(tab, Idx(vp, k))) != FREE then m' == m
      else m' == m[Slot(tab, Idx(vp, k)) := Pte(page, TABLE_PROT)] && ZeroPage(m, page) && page !in place
    ensures PathKeeps(m0, m', place0, root, userRoot, sp, vp)
  {
    hide Tree, SameMappings, DualRoots, UserRootKept, OtherSpacesKept, Unmoved, Paving, ZeroPage;
    UnmovedStep(m0, place0, m, place, m', root, sp);
    UserRootStep(m0, m, m', root, userRoot);
    OtherSpacesStep(m0, place0, m, place, m', sp, tab);
    PathPaves(m0, m, place, root, sp, tab, k, vp, page, m');
  }

  /** One of the three levels of _offlinePath. */
  method PathDown(mmu: Mmu, root: Mfn, userRoot: Mfn, ghost sp: nat, vp: nat, tab: Mfn, k: nat, ghost n: nat,
                  ghost m0: Mem, ghost place0: Places, ghost pool0: seq<Mfn>, ghost noWrite0: seq<Mfn>)
    returns (page: Option<Mfn>, ghost n': nat)
    requires 2 <= k <= 4 && vp < USER_PAGES
    requires OnPath(mmu, m0, place0, pool0, noWrite0, root, userRoot, sp, vp, tab, k, n)
    modifies mmu`mem, mmu`pool, mmu`noWrite, mmu`place
    ensures page.None? ==> EndLevel(m0, root, 4, vp) == k + n && !old(CanAllocate(mmu, 1)) && !CanAllocate(mmu, 1)
    ensures page.Some? ==> OnPath(mmu, m0, place0, pool0, noWrite0, root, userRoot, sp, vp, page.value, k - 1, n')
  {
    hide Tree, LeafSlot, Mapping, SameMappings, TableAt, EndLevel, ZeroPage, DualRoots, AllWaiting, Shr, Child,
         NodeFor, PathKeeps, PathProgress, Agree, UppersFrom;
    ghost var m, place := mmu.mem, mmu.place;
    UserRootElsewhere(place, tab, root, userRoot, sp, k, vp);
    PathNeeds(m0, m, root, userRoot, vp, tab, k, n);
    n' := if Get(m, Slot(tab, Idx(vp, k))) == FREE then n + 1 else n;
    page := PathLevel(mmu, root, userRoot, sp, Slot(tab, Idx(vp, k)));
    if page == None {
      return;
    }
    ChildNode(sp, k, vp);
    PathStep(m0, m, place, root, userRoot, sp, vp, tab, k, n, page.value, mmu.mem);
    PathLevelKeeps(m0, place0, m, place, mmu.mem, root, userRoot, sp, vp, tab, k, page.value);
    UppersTrans(m0, place0, m, place, mmu.mem, mmu.place);
    if k == 4 {
      ghost var m1 := mmu.mem;
      CopyTop(mmu, root, userRoot, sp, vp, m0, place0);
      UppersTrans(m0, place0, m1, mmu.place, mmu.mem, mmu.place);
    }
  }

  /** _offlinePath: the leaf slot of a page, its missing tables allocated; None is a failed assertion. */
  method OfflinePath(mmu: Mmu, root: Mfn, userRoot: Mfn, ghost sp: nat, vp: nat) returns (r: Option<Slot>)
    requires Offline(mmu, root, userRoot, sp) && vp < USER_PAGES
    modifies mmu`mem, mmu`pool, mmu`noWrite, mmu`place
    ensures r.Some? <==> old(CanAllocate(mmu, EndLevel(mmu.mem, root, 4, vp) - 1))
    ensures r.None? ==> !CanAllocate(mmu, 1)
    ensures r.Some? ==>
      var n := EndLevel(old(mmu.mem), root, 4, vp) - 1;
      && Offline(mmu, root, userRoot, sp) && LeafSlot(mmu.mem, root, 4, vp) == r
      && (forall t :: t in old(mmu.place) ==> t in mmu.place && mmu.place[t] == old(mmu.place)[t])
      && n <= |old(mmu.pool)| && mmu.pool == old(mmu.pool)[n..] && mmu.noWrite == old(mmu.noWrite) + old(mmu.pool)[..n]
      && Unmoved(old(mmu.mem), mmu.mem, old(mmu.place), root, sp)
      && OtherSpacesKept(old(mmu.mem), mmu.mem, old(mmu.place), sp)
      && Agree(mmu.mem, root, userRoot, Idx(vp, 4)) && UserRootKept(old(mmu.mem), mmu.mem, userRoot)
      && Paving(old(mmu.mem), mmu.mem, root, vp) && UppersFrom(old(mmu.mem), old(mmu.place), mmu.mem, mmu.place)
  {
    hide Tree, LeafSlot, Mapping, SameMappings, TableAt, EndLevel, ZeroPage, DualRoots, AllWaiting, Shr, Child,
         NodeFor, PathProgress, UserRootKept, Paving, UppersFrom;
    ghost var m0, place0, pool0, noWrite0, n := mmu.mem, mmu.place, mmu.pool, mmu.noWrite, 0;
    var tab, k := root, 4;
    RootAt(place0, root, sp, vp);
    PathStart(m0, root, userRoot, vp);
    PavingRefl(m0, root, vp);
    UppersSame(m0, place0);
    while k > 1
      invariant 1 <= k <= 4 && OnPath(mmu, m0, place0, pool0, noWrite0, root, userRoot, sp, vp, tab, k, n)
    {
      var page;
      page, n := PathDown(mmu, root, userRoot, sp, vp, tab, k, n, m0, place0, pool0, noWrite0);
      if page == None {
        return None;
      }
      tab, k := page.value, k - 1;
    }
    PathEnd(m0, mmu.mem, root, userRoot, vp, tab, n);
    r := Some(Slot(tab, Idx(vp, 1)));
  }

  lemma PathStart(m0: Mem, root: Mfn, userRoot: Mfn, vp: nat)
    ensures PathProgress(m0, m0, root, userRoot, vp, root, 4, 0) && UserRootKept(m0, m0, userRoot)
  {
  }

  /** Every table still to allocate is among those the walk missed at the start. */
  lemma PathNeeds(m0: Mem, m: Mem, root: Mfn, userRoot: Mfn, vp: nat, tab: Mfn, k: nat, n: nat)
    requires PathProgress(m0, m, root, userRoot, vp, tab, k, n) && k >= 2 && (n == 0 ==> tab != userRoot)
    ensures Get(m, Slot(tab, Idx(vp, k))) == FREE ==> EndLevel(m0, root, 4, vp) == k + n
  {
  }

  lemma PathEnd(m0: Mem, m: Mem, root: Mfn, userRoot: Mfn, vp: nat, tab: Mfn, n: nat)
    requires PathProgress(m0, m, root, userRoot, vp, tab, 1, n)
    ensures LeafSlot(m, root, 4, vp) == Some(Slot(tab, Idx(vp, 1)))
    ensures EndLevel(m0, root, 4, vp) == n + 1 && Agree(m, root, userRoot, Idx(vp, 4))
  {
    WalkThrough(m, root, 4, vp, 1, vp);
  }

  lemma UserRootElsewhere(place: Places, tab: Mfn, root: Mfn, userRoot: Mfn, sp: nat, k: nat, vp: nat)
    requires At(place, tab, sp, k, vp) && IsRoot(place, userRoot, sp) && root != userRoot
    requires k == 4 ==> tab == root
    ensures tab != userRoot && place[tab].level == k && (vp < USER_PAGES ==> place[tab].space == sp)
  {
  }

  lemma UnmovedDuplicate(m0: Mem, place0: Places, m: Mem, place: Places, n: Mem, root: Mfn, userRoot: Mfn, sp: nat)
    requires Unmoved(m0, m, place0, root, sp) && IsRoot(place, userRoot, sp) && root != userRoot
    requires forall t :: t in place0 ==> t in place && place[t] == place0[t]
    requires forall r, sq :: IsRoot(place, r, sq) && r != userRoot ==> SameRoot(m, n, r)
    ensures Unmoved(m0, n, place0, root, sp)
  {
    forall r, sq, wp: nat | IsRoot(place0, r, sq) && (r == root || sq != sp) && wp < PAGES
      ensures Mapping(n, r, 4, wp) == Mapping(m0, r, 4, wp)
    {
      assert IsRoot(place, r, sq);
      assert SameRoot(m, n, r);
    }
  }

  /** After an offline insertion: `vp` maps to `leaf` in this address space; nothing else moves in any. */
  ghost predicate UserInserted(m0: Mem, m: Mem, place0: Places, root: Mfn, sp: nat, vp: nat, leaf: Pte) {
    forall r, sq :: IsRoot(place0, r, sq) && (r == root || sq != sp) ==>
      forall wp: nat :: wp < PAGES ==>
        Mapping(m, r, 4, wp) == if r == root && wp == vp then leaf else Mapping(m0, r, 4, wp)
  }

  lemma WriteLeaf(m0: Mem, place0: Places, m: Mem, place: Places, root: Mfn, userRoot: Mfn, sp: nat, vp: nat, s: Slot,
                  leaf: Pte)
    requires Tree(m, place) && IsRoot(place, root, sp) && IsRoot(place, userRoot, sp) && vp < USER_PAGES && sp != 0
    requires LeafSlot(m, root, 4, vp) == Some(s) && Unmoved(m0, m, place0, root, sp)
    requires forall t :: t in place0 ==> t in place && place[t] == place0[t]
    ensures UserInserted(m0, m[s := leaf], place0, root, sp, vp, leaf)
    ensures Tree(m[s := leaf], place) && s.page in place && place[s.page].space == sp && place[s.page].level == 1
    ensures LeafSlot(m[s := leaf], root, 4, vp) == Some(s)
    ensures s.page != root && s.page != userRoot
    ensures forall i: nat :: Get(m[s := leaf], Slot(root, i)) == Get(m, Slot(root, i))
    ensures DualRoots(m, root, userRoot) ==> DualRoots(m[s := leaf], root, userRoot)
  {
    RootAt(place, root, sp, vp);
    WalkPlace(m, place, root, sp, 4, vp);
    PutOffPath(m, place, s, leaf);
    forall r, sq, wp: nat | IsRoot(place0, r, sq) && (r == root || sq != sp) && wp < PAGES
      ensures Mapping(m[s := leaf], r, 4, wp) == if r == root && wp == vp then leaf else Mapping(m0, r, 4, wp)
    {
      RootAt(place, r, sq, wp);
      assert LeafSlot(m, r, 4, wp) == LeafSlot(m[s := leaf], r, 4, wp);
      if LeafSlot(m, r, 4, wp) == Some(s) {
        WalkPlace(m, place, r, sq, 4, wp);
        LeafSlotInjective(m, place, root, sp, vp, r, sq, wp);
      }
    }
    DualWrite(m, root, userRoot, s, leaf);
  }

  lemma DualWrite(m: Mem, root: Mfn, userRoot: Mfn, s: Slot, p: Pte)
    requires s.page != root && s.page != userRoot
    ensures DualRoots(m, root, userRoot) ==> DualRoots(m[s := p], root, userRoot)
  {
    if DualRoots(m, root, userRoot) {
      forall i: nat | i < ENTRIES
        ensures Get(m[s := p], Slot(userRoot, i)) == FREE || Agree(m[s := p], root, userRoot, i)
      {
        assert Get(m, Slot(userRoot, i)) == FREE || Agree(m, root, userRoot, i);
      }
    }
  }

  /** archPageTableOfflineUserInsert */
  method UserInsert(mmu: Mmu, root: Mfn, userRoot: Mfn, ghost sp: nat, vp: nat, frame: Mfn, perm: Permission)
    returns (ok: bool)
    requires Offline(mmu, root, userRoot, sp) && vp < USER_PAGES
    modifies mmu`mem, mmu`pool, mmu`noWrite, mmu`place
    ensures ok <==> old(CanAllocate(mmu, EndLevel(mmu.mem, root, 4, vp) - 1))
    ensures !ok ==> !CanAllocate(mmu, 1)
    ensures ok ==>
      var n := EndLevel(old(mmu.mem), root, 4, vp) - 1;
      && Offline(mmu, root, userRoot, sp)
      && (forall t :: t in old(mmu.place) ==> t in mmu.place && mmu.place[t] == old(mmu.place)[t])
      && n <= |old(mmu.pool)| && mmu.pool == old(mmu.pool)[n..] && mmu.noWrite == old(mmu.noWrite) + old(mmu.pool)[..n]
      && UserInserted(old(mmu.mem), mmu.mem, old(mmu.place), root, sp, vp, Pte(frame, UserFlags(perm)))
      && OtherSpacesKept(old(mmu.mem), mmu.mem, old(mmu.place), sp)
      && Agree(mmu.mem, root, userRoot, Idx(vp, 4)) && UserRootKept(old(mmu.mem), mmu.mem, userRoot)
      && Paving(old(mmu.mem), mmu.mem, root, vp) && LeafSlot(mmu.mem, root, 4, vp).Some?
      && Mapping(mmu.mem, root, 4, vp).frame == frame && Grants(Mapping(mmu.mem, root, 4, vp).flags, perm)
      && UppersFrom(old(mmu.mem), old(mmu.place), mmu.mem, mmu.place)
      && (old(AllPassable(mmu.mem, mmu.place)) ==>
            AllPassable(mmu.mem, mmu.place) && HardwareEntry(mmu.mem, root, vp * 4096) == Mapping(mmu.mem, root, 4, vp))
  {
    hide Tree, LeafSlot, Mapping, SameMappings, EndLevel, DualRoots, Shr, NodeFor, Unmoved, UserInserted, Paving,
         Grants, UppersFrom, AllPassable, HardwareEntry;
    var r := OfflinePath(mmu, root, userRoot, sp, vp);
    if r == None {
      return false;
    }
    var s, leaf := r.value, Pte(frame, UserFlags(perm));
    WriteLeaf(old(mmu.mem), old(mmu.place), mmu.mem, mmu.place, root, userRoot, sp, vp, s, leaf);
    PoolAfterWrite(mmu.pool, mmu.place, mmu.mem, s, leaf);
    SameTablesPave(old(mmu.mem), mmu.mem, mmu.place, root, sp, vp, mmu.mem[s := leaf]);
    UppersPut(mmu.mem, mmu.place, s, leaf);
    UppersTrans(old(mmu.mem), old(mmu.place), mmu.mem, mmu.place, mmu.mem[s := leaf], mmu.place);
    UserInsertedLeaf(old(mmu.mem), mmu.mem[s := leaf], old(mmu.place), root, sp, vp, leaf);
    mmu.mem := mmu.mem[s := leaf];
    if old(AllPassable(mmu.mem, mmu.place)) {
      HardwareReaches(old(mmu.mem), old(mmu.place), mmu.mem, mmu.place, root, sp, vp);
    }
    ok := true;
  }

  lemma UserInsertedLeaf(m0: Mem, m: Mem, place0: Places, root: Mfn, sp: nat, vp: nat, leaf: Pte)
    requires UserInserted(m0, m, place0, root, sp, vp, leaf) && IsRoot(place0, root, sp) && vp < PAGES
    ensures Mapping(m, root, 4, vp) == leaf
  {
  }

  // ------------------------------------------------------------------- completion

  /** Memory `m` is somewhere between `m0` and `m0` with write access taken from the entries `own`. */
  ghost predicate PartlyMarked(m0: Mem, m: Mem, own: set<Slot>) {
    forall s :: Get(m, s) == Get(m0, s) || (s in own && Get(m, s) == ClearRw(Get(m0, s)))
  }

  /** The own mapping of the next page of ptNoWrite is found whatever has been flushed, and marking it again
      is harmless. */
  lemma CompleteStep(m0: Mem, live: Mem, eff: Mem, place: Places, master: Mfn, sp: nat, kp: map<Mfn, nat>,
                     ps: seq<Mfn>, i: nat)
    requires Tree(m0, place) && IsRoot(place, master, sp) && KernelMapped(m0, master, kp, ps) && i < |ps|
    requires PartlyMarked(m0, live, OwnSlots(m0, master, kp, ps[..i]))
    requires Marked(m0, eff, OwnSlots(m0, master, kp, ps[..i]))
    ensures LeafSlot(live, master, 4, kp[ps[i]]) == LeafSlot(m0, master, 4, kp[ps[i]])
    ensures
      var own := LeafSlot(m0, master, 4, kp[ps[i]]).value;
      var p := ClearRw(Get(live, own));
      && own.page in place && Get(live, own) != FREE
      && Marked(m0, eff[own := p], OwnSlots(m0, master, kp, ps[..i + 1]))
      && PartlyMarked(m0, live, OwnSlots(m0, master, kp, ps[..i + 1]))
      && PartlyMarked(m0, eff, OwnSlots(m0, master, kp, ps[..i + 1]))
  {
    hide Tree, ClearRw, LeafSlot, Writable;
    var before := OwnSlots(m0, master, kp, ps[..i]);
    OwnSlotsLevel(m0, place, master, sp, kp, ps[..i]);
    RootAt(place, master, sp, kp[ps[i]]);
    WalkPlace(m0, place, master, sp, 4, kp[ps[i]]);
    WalkSame(m0, live, place, master, sp, 4, kp[ps[i]]);
    assert ps[..i + 1] == ps[..i] + [ps[i]];
    assert OwnSlots(m0, master, kp, ps[..i + 1]) == before + {LeafSlot(m0, master, 4, kp[ps[i]]).value};
    ClearTwice(Get(m0, LeafSlot(m0, master, 4, kp[ps[i]]).value));
  }

  lemma ClearTwice(p: Pte)
    ensures ClearRw(ClearRw(p)) == ClearRw(p) && !Writable(ClearRw(p))
    ensures Present(p) ==> p != FREE && ClearRw(p) != FREE
  {
  }

  lemma CompleteStart(m0: Mem, master: Mfn, kp: map<Mfn, nat>, ps: seq<Mfn>)
    ensures PartlyMarked(m0, m0, OwnSlots(m0, master, kp, ps[..0])) && Marked(m0, m0, OwnSlots(m0, master, kp, ps[..0]))
  {
    assert OwnSlots(m0, master, kp, ps[..0]) == {};
  }

  /** archPageTableOfflineCompleteExisting up to the pins, through the master table. `inBounds` tells whether the
      two stores to ptNoWrite stay inside it; if not, what follows is undefined. */
  method CompleteExisting(mmu: Mmu, root: Mfn, userRoot: Mfn, ghost sp: nat, master: Mfn, ghost masterSp: nat)
    returns (inBounds: bool)
    requires Offline(mmu, root, userRoot, sp) && IsRoot(mmu.place, master, masterSp)
    requires KernelMapped(mmu.mem, master, mmu.kernelPage, mmu.noWrite + [root, userRoot])
    modifies mmu`mem, mmu`queue, mmu`history, mmu`noWrite
    ensures inBounds <==> |old(mmu.noWrite)| <= MAX_PTS - 2
    ensures inBounds ==> mmu.queue == [] && mmu.noWrite == [] && Tree(mmu.mem, mmu.place) && mmu.PoolOk()
    ensures inBounds ==>
              Marked(old(mmu.mem), mmu.mem,
                     OwnSlots(old(mmu.mem), master, mmu.kernelPage, old(mmu.noWrite) + [root, userRoot]))
    ensures inBounds ==> forall wp: nat :: wp < PAGES ==>
              Mapping(mmu.mem, master, 4, wp) ==
              if wp in KernelPages(mmu.kernelPage, old(mmu.noWrite) + [root, userRoot])
              then ClearRw(Mapping(old(mmu.mem), master, 4, wp))
              else Mapping(old(mmu.mem), master, 4, wp)
    ensures inBounds ==> forall wp: nat :: wp < PAGES ==>
              SameButWrite(Mapping(mmu.mem, master, 4, wp), Mapping(old(mmu.mem), master, 4, wp))
    ensures inBounds ==> PinSafe(mmu.mem, mmu.kernelPage, root, userRoot, master)
    ensures inBounds ==> UppersFrom(old(mmu.mem), mmu.place, mmu.mem, mmu.place)
  {
    hide UppersFrom, Tree, Mapping, PinSafe, DualRoots, ZeroPage, ClearRw, PartlyMarked, Marked, OwnSlots, LeafSlot,
         KernelPagesOk, SameButWrite, Writable;
    inBounds := |mmu.noWrite| + 2 <= MAX_PTS;
    if !inBounds {
      return;
    }
    mmu.noWrite := mmu.noWrite + [root, userRoot];
    ghost var m0, place, ps, kp := mmu.mem, mmu.place, mmu.noWrite, mmu.kernelPage;
    var i := 0;
    CompleteStart(m0, master, kp, ps);
    while i < |mmu.noWrite|
      modifies mmu`mem, mmu`queue, mmu`history
      invariant i <= |ps| && mmu.PoolOk()
      invariant PartlyMarked(m0, mmu.mem, OwnSlots(m0, master, kp, ps[..i]))
      invariant Marked(m0, mmu.Eff(), OwnSlots(m0, master, kp, ps[..i]))
    {
      CompleteStep(m0, mmu.mem, mmu.Eff(), place, master, masterSp, kp, ps, i);
      var own := LeafSlot(mmu.mem, master, 4, mmu.kernelPage[mmu.noWrite[i]]).value;
      assert Get(mmu.mem, own) != FREE;
      mmu.DeferredUpdate(own, ClearRw(Get(mmu.mem, own)));
      i := i + 1;
    }
    assert ps[..i] == ps;
    MarkedMapping(m0, master, masterSp, kp, ps, m0, mmu.Eff(), place);
    MarkedUppers(m0, mmu.Eff(), place, master, masterSp, kp, ps);
    mmu.DoUpdate();
    MarkedSame(m0, mmu.mem, master, KernelPages(kp, ps));
    AllUnwritable(m0, mmu.mem, place, root, userRoot, sp, master, kp, ps);
    mmu.noWrite := [];
  }

  /** Marked mappings lose bit 1 of their flags and nothing else. */
  lemma MarkedSame(m0: Mem, m: Mem, master: Mfn, ws: set<nat>)
    requires forall wp: nat :: wp < PAGES ==>
               Mapping(m, master, 4, wp) ==
               if wp in ws then ClearRw(Mapping(m0, master, 4, wp)) else Mapping(m0, master, 4, wp)
    ensures forall wp: nat :: wp < PAGES ==> SameButWrite(Mapping(m, master, 4, wp), Mapping(m0, master, 4, wp))
  {
    hide Mapping, ClearRw;
    forall wp: nat | wp < PAGES
      ensures SameButWrite(Mapping(m, master, 4, wp), Mapping(m0, master, 4, wp))
    {
      WriteAccess(Mapping(m0, master, 4, wp));
    }
  }

  lemma MarkedUppers(m0: Mem, m: Mem, place: Places, master: Mfn, sp: nat, kp: map<Mfn, nat>, ps: seq<Mfn>)
    requires Tree(m0, place) && IsRoot(place, master, sp) && KernelMapped(m0, master, kp, ps)
    requires Marked(m0, m, OwnSlots(m0, master, kp, ps))
    ensures UppersFrom(m0, place, m, place)
  {
    hide Tree, OwnSlots, UppersFrom, KernelHas;
    OwnSlotsLevel(m0, place, master, sp, kp, ps);
    UppersLeaves(m0, m, place);
  }

  /** What the hypervisor demands of a table to pin: neither root nor any table page reachable from the user half
      is mapped writable. */
  ghost predicate PinSafe(m: Mem, kp: map<Mfn, nat>, root: Mfn, userRoot: Mfn, master: Mfn) {
    && (forall t :: t == root || t == userRoot ==> t in kp && !Writable(Mapping(m, master, 4, kp[t])))
    && (forall vp: nat, k :: vp < USER_PAGES && 1 <= k <= 4 && TableAt(m, root, 4, vp, k).Some? ==>
          var t := TableAt(m, root, 4, vp, k).value; t in kp && !Writable(Mapping(m, master, 4, kp[t])))
  }

  lemma AllUnwritable(m0: Mem, m: Mem, place: Places, root: Mfn, userRoot: Mfn, sp: nat, master: Mfn,
                      kp: map<Mfn, nat>, ps: seq<Mfn>)
    requires Tree(m, place) && IsRoot(place, root, sp) && sp != 0
    requires AllWaiting(place, root, userRoot, sp, ps) && root in ps && userRoot in ps
    requires forall p :: p in ps ==> p in kp && kp[p] < PAGES
    requires forall wp: nat :: wp < PAGES && wp in KernelPages(kp, ps) ==>
               Mapping(m, master, 4, wp) == ClearRw(Mapping(m0, master, 4, wp))
    ensures PinSafe(m, kp, root, userRoot, master)
  {
    forall p | p in ps
      ensures !Writable(Mapping(m, master, 4, kp[p]))
    {
      assert kp[p] in KernelPages(kp, ps);
      ClearTwice(Mapping(m0, master, 4, kp[p]));
    }
    forall vp: nat, k | vp < USER_PAGES && 1 <= k <= 4 && TableAt(m, root, 4, vp, k).Some?
      ensures TableAt(m, root, 4, vp, k).value in ps
    {
      RootAt(place, root, sp, vp);
      TableSame(m, m, place, root, sp, 4, vp, k);
    }
  }
}
