/** Agreement of the two roots of an address space over the whole life of a page table: while it is built, when it is
    completed, when pages are inserted into it in use, and when it is torn down. */
module PageDualRoots {
  import opened Paging
  import opened Mmu
  import opened PageNeeds
  import opened PageOthers
  import opened PageInsert
  import opened PageOffline
  import opened PageAllocTree
  import opened PageFree

  /** What cloning, offline insertion, tree allocation and insertion all keep of the two roots. */
  ghost predicate DualStep(m: Mem, n: Mem, root: Mfn, userRoot: Mfn) {
    DualRoots(n, root, userRoot) && UserRootKept(m, n, userRoot)
  }

  /** Over any run of them, once an entry of the user root is in use it is the kernel root's from then on. */
  lemma {:induction false} AgreementLasts(ms: seq<Mem>, root: Mfn, userRoot: Mfn, a: nat, b: nat, i: nat)
    requires a <= b < |ms| && i < ENTRIES
    requires forall k :: 0 <= k < |ms| - 1 ==> DualStep(ms[k], ms[k + 1], root, userRoot)
    requires Get(ms[a], Slot(userRoot, i)) != FREE && Agree(ms[a], root, userRoot, i)
    ensures Get(ms[b], Slot(userRoot, i)) != FREE && Agree(ms[b], root, userRoot, i)
    decreases b
  {
    if a < b {
      AgreementLasts(ms, root, userRoot, a, b - 1, i);
      assert DualStep(ms[b - 1], ms[b - 1 + 1], root, userRoot);
      assert Get(ms[b], Slot(userRoot, i)) == FREE || Agree(ms[b], root, userRoot, i);
    }
  }

  /** Tree allocation is such a step. */
  lemma AllocationKeepsRoots(m0: Mem, place0: Places, m: Mem, place: Places, root: Mfn, userRoot: Mfn, sp: nat)
    requires Grown(m0, place0, m, place) && IsRoot(place0, userRoot, sp) && DualRoots(m, root, userRoot)
    ensures DualStep(m0, m, root, userRoot)
  {
  }

  /** A page keeps its leaf slot and its mapping from a root, but that of a kernel page may lose write access. */
  ghost predicate KeptOrMarked(m0: Mem, m: Mem, r: Mfn, wp: nat) {
    && LeafSlot(m, r, 4, wp) == LeafSlot(m0, r, 4, wp)
    && (wp < USER_PAGES ==> Mapping(m, r, 4, wp) == Mapping(m0, r, 4, wp))
    && (|| Mapping(m, r, 4, wp) == Mapping(m0, r, 4, wp)
        || Mapping(m, r, 4, wp) == ClearRw(Mapping(m0, r, 4, wp)))
  }

  /** Completion is such a step: it writes leaf entries only. What it marks are mappings of kernel pages, so every
      user page of every root is mapped as before, and each kernel page to the same frame. */
  lemma CompletionKeepsRoots(m0: Mem, m: Mem, place: Places, root: Mfn, userRoot: Mfn, sp: nat, master: Mfn,
                             masterSp: nat, kp: map<Mfn, nat>, ps: seq<Mfn>)
    requires Tree(m0, place) && IsRoot(place, root, sp) && IsRoot(place, userRoot, sp)
    requires IsRoot(place, master, masterSp)
    requires KernelMapped(m0, master, kp, ps) && KernelPagesOk(kp) && DualRoots(m0, root, userRoot)
    requires Marked(m0, m, OwnSlots(m0, master, kp, ps))
    ensures DualStep(m0, m, root, userRoot) && UserRootSame(m0, m, userRoot)
    ensures forall r, sq, wp: nat :: IsRoot(place, r, sq) && wp < PAGES ==> KeptOrMarked(m0, m, r, wp)
  {
    hide Tree, ClearRw, LeafSlot, Mapping, OwnSlots, KeptOrMarked;
    var own := OwnSlots(m0, master, kp, ps);
    OwnSlotsLevel(m0, place, master, masterSp, kp, ps);
    forall i: nat | i < ENTRIES
      ensures Get(m, Slot(userRoot, i)) == FREE || Agree(m, root, userRoot, i)
    {
      assert Get(m0, Slot(userRoot, i)) == FREE || Agree(m0, root, userRoot, i);
    }
    forall r, sq, wp: nat | IsRoot(place, r, sq) && wp < PAGES
      ensures KeptOrMarked(m0, m, r, wp)
    {
      CompletionWalk(m0, m, place, master, masterSp, kp, ps, r, sq, wp);
    }
  }

  lemma CompletionWalk(m0: Mem, m: Mem, place: Places, master: Mfn, masterSp: nat, kp: map<Mfn, nat>, ps: seq<Mfn>,
                       r: Mfn, sq: nat, wp: nat)
    requires Tree(m0, place) && IsRoot(place, master, masterSp) && IsRoot(place, r, sq) && wp < PAGES
    requires KernelMapped(m0, master, kp, ps) && KernelPagesOk(kp) && Marked(m0, m, OwnSlots(m0, master, kp, ps))
    ensures KeptOrMarked(m0, m, r, wp)
  {
    hide Tree, ClearRw, LeafSlot;
    OwnSlotsLevel(m0, place, master, masterSp, kp, ps);
    RootAt(place, r, sq, wp);
    WalkSame(m0, m, place, r, sq, 4, wp);
    if LeafSlot(m0, r, 4, wp).Some? && LeafSlot(m0, r, 4, wp).value in OwnSlots(m0, master, kp, ps) {
      var p :| p in ps && p in kp && LeafSlot(m0, master, 4, kp[p]) == LeafSlot(m0, r, 4, wp);
      RootAt(place, master, masterSp, kp[p]);
      LeafSlotInjective(m0, place, master, masterSp, kp[p], r, sq, wp);
    }
  }

  /** A table that was completed is ready for insertion if the kernel maps the pages of the pool. */
  lemma CompletedIsReady(mmu: Mmu, m0: Mem, root: Mfn, userRoot: Mfn, sp: nat, master: Mfn, masterSp: nat, ps: seq<Mfn>)
    requires Tree(m0, mmu.place) && IsRoot(mmu.place, root, sp) && IsRoot(mmu.place, userRoot, sp) && root != userRoot
    requires IsRoot(mmu.place, master, masterSp) && KernelMapped(m0, master, mmu.kernelPage, ps) && mmu.PoolOk()
    requires Tree(mmu.mem, mmu.place) && Marked(m0, mmu.mem, OwnSlots(m0, master, mmu.kernelPage, ps))
    requires forall p :: p in mmu.pool ==> Present(Mapping(m0, root, 4, mmu.kernelPage[p]))
    ensures Ready(mmu, root, userRoot, sp)
  {
    hide Tree, Mapping, LeafSlot, OwnSlots, ZeroPage;
    forall p | p in mmu.pool
      ensures Present(Mapping(mmu.mem, root, 4, mmu.kernelPage[p]))
    {
      CompletionWalk(m0, mmu.mem, mmu.place, master, masterSp, mmu.kernelPage, ps, root, sp, mmu.kernelPage[p]);
    }
  }

  /** Insertion into one page table, and its teardown, are such steps of every other, and leave its user root alone. */
  lemma ChangeElsewhere(m0: Mem, m: Mem, place0: Places, sp: nat, root: Mfn, userRoot: Mfn, sq: nat)
    requires OthersKept(m0, m, place0, sp) && IsRoot(place0, root, sq) && IsRoot(place0, userRoot, sq)
    requires sq != 0 && sq != sp && DualRoots(m0, root, userRoot)
    ensures DualStep(m0, m, root, userRoot) && UserRootSame(m0, m, userRoot)
  {
    forall i: nat | i < ENTRIES
      ensures Get(m, Slot(userRoot, i)) == FREE || Agree(m, root, userRoot, i)
    {
      assert Get(m0, Slot(userRoot, i)) == FREE || Agree(m0, root, userRoot, i);
    }
  }

  /** Insertion keeps every entry of the user root unused or equal to the kernel root's. The entry over the inserted
      page is equal afterwards iff it was before or the kernel root's was unused: _insertInternal copies the entry to
      the user root only when it makes it. */
  lemma InsertAgreesIff(m0: Mem, m: Mem, root: Mfn, userRoot: Mfn, vp: nat)
    requires DualRoots(m0, root, userRoot) && vp < PAGES
    requires RootsAfter(m0, m, root, userRoot, Idx(vp, 4), EndLevel(m0, root, 4, vp) == 4)
    ensures DualRoots(m, root, userRoot) && UserRootKept(m0, m, userRoot)
    ensures Agree(m, root, userRoot, Idx(vp, 4)) <==>
            Get(m0, Slot(root, Idx(vp, 4))) == FREE || Agree(m0, root, userRoot, Idx(vp, 4))
  {
    hide Idx;
    var i0 := Idx(vp, 4);
    assert EndLevel(m0, root, 4, vp) == 4 <==> Get(m0, Slot(root, i0)) == FREE;
    forall i: nat | i < ENTRIES
      ensures Get(m, Slot(userRoot, i)) == FREE || Agree(m, root, userRoot, i)
    {
      assert Get(m0, Slot(userRoot, i)) == FREE || Agree(m0, root, userRoot, i);
    }
  }

  /** Tables allocated ahead are in the kernel root only, so a page inserted below them later, when the page table is in
      use, is not found from the user root. */
  lemma AllocatedAheadIsMissed(m0: Mem, m: Mem, root: Mfn, userRoot: Mfn, vp: nat)
    requires DualRoots(m0, root, userRoot) && vp < PAGES
    requires Get(m0, Slot(root, Idx(vp, 4))) != FREE && Get(m0, Slot(userRoot, Idx(vp, 4))) == FREE
    requires RootsAfter(m0, m, root, userRoot, Idx(vp, 4), EndLevel(m0, root, 4, vp) == 4)
    ensures Mapping(m, userRoot, 4, vp) == FREE
  {
    InsertAgreesIff(m0, m, root, userRoot, vp);
  }

  /** A walk from either root ends the same way where the entries agree. */
  lemma AgreedWalks(m: Mem, root: Mfn, userRoot: Mfn, vp: nat)
    requires Agree(m, root, userRoot, Idx(vp, 4))
    ensures Mapping(m, userRoot, 4, vp) == Mapping(m, root, 4, vp)
  {
  }

  // ------------------------------------------------------------------- teardown

  /** An entry of a root names the page. */
  ghost predicate NamedBy(m: Mem, r: Mfn, p: Mfn) {
    exists i: nat :: i < ENTRIES && Get(m, Slot(r, i)) != FREE && Get(m, Slot(r, i)).frame == p
  }

  /** In a tree a table page below a root is named at one index only. */
  lemma NamedAt(m: Mem, place: Places, r: Mfn, sp: nat, p: Mfn, q: nat, i: nat)
    requires Tree(m, place) && IsRoot(place, r, sp) && p in place && place[p] == Node(sp, 3, q) && i < ENTRIES
    requires Get(m, Slot(r, i)) != FREE && Get(m, Slot(r, i)).frame == p
    ensures i == q
  {
    TreeEntry(m, place, Slot(r, i));
  }

  /** archPageTableFree clears the entry of the kernel root only: whenever a table page below a root has become
      writable, a root still names it iff the entry of the user root over it was in use. */
  lemma FreedTableNamedIff(m0: Mem, m: Mem, place: Places, root: Mfn, userRoot: Mfn, sp: nat, kp: map<Mfn, nat>, i: nat)
    requires Freeable(m0, place, root, userRoot, sp, kp) && root != userRoot && DualRoots(m0, root, userRoot)
    requires Ordered(m0, place, root, kp, SlotsBelow(m0, root, 4, USER_ENTRIES), m)
    requires i < USER_ENTRIES && Get(m0, Slot(root, i)) != FREE && Get(m0, Slot(root, i)).frame in kp
    requires
      var own := OwnSlot(m0, root, kp, Get(m0, Slot(root, i)).frame);
      Get(m, own) != Get(m0, own)
    ensures
      var p := Get(m0, Slot(root, i)).frame;
      && !NamedBy(m, root, p)
      && (NamedBy(m, userRoot, p) <==> Get(m0, Slot(userRoot, i)) != FREE)
  {
    hide SlotsBelow, UserTable, KernelPagesOk, OwnSlot, Tree;
    var p, all := Get(m0, Slot(root, i)).frame, SlotsBelow(m0, root, 4, USER_ENTRIES);
    TreeEntry(m0, place, Slot(root, i));
    RootSlotListed(m0, root, i);
    UserRootUntouched(m0, m, place, root, userRoot, sp, kp);
    if NamedBy(m, root, p) {
      var j: nat :| j < ENTRIES && Get(m, Slot(root, j)) != FREE && Get(m, Slot(root, j)).frame == p;
      assert Get(m, Slot(root, j)) == Get(m0, Slot(root, j));
      NamedAt(m0, place, root, sp, p, i, j);
    }
    if NamedBy(m, userRoot, p) {
      var j: nat :| j < ENTRIES && Get(m, Slot(userRoot, j)) != FREE && Get(m, Slot(userRoot, j)).frame == p;
      NamedAt(m0, place, userRoot, sp, p, i, j);
    }
    assert Get(m0, Slot(userRoot, i)) == FREE || Agree(m0, root, userRoot, i);
  }

  /** After archPageTableFree the user root is as it was, and yet maps no page: the tables it still names are empty. */
  lemma FreedUserRoot(m0: Mem, m: Mem, place: Places, root: Mfn, userRoot: Mfn, sp: nat, kp: map<Mfn, nat>)
    requires Freeable(m0, place, root, userRoot, sp, kp) && root != userRoot && DualRoots(m0, root, userRoot)
    requires FreedMemory(m0, m, root, userRoot, kp)
    ensures forall i: nat :: i < ENTRIES ==> Get(m, Slot(userRoot, i)) == Get(m0, Slot(userRoot, i))
    ensures forall vp: nat :: vp < USER_PAGES ==> Mapping(m, userRoot, 4, vp) == FREE
  {
    hide SlotsBelow, UserTable, KernelPagesOk, OwnSlot, Tree, FreedMemory, Mapping;
    FreedIsOrdered(m0, m, place, root, userRoot, sp, kp);
    UserRootUntouched(m0, m, place, root, userRoot, sp, kp);
    forall vp: nat | vp < USER_PAGES
      ensures Mapping(m, userRoot, 4, vp) == FREE
    {
      TopShr(vp);
      var e := Get(m0, Slot(userRoot, Idx(vp, 4)));
      assert e == FREE || Agree(m0, root, userRoot, Idx(vp, 4));
      if e != FREE {
        BelowCleared(m0, m, place, root, userRoot, sp, kp, vp);
      }
      EmptyBelow(m, userRoot, vp);
    }
  }

  /** The entry of the next level on the path of a user page is cleared. */
  lemma BelowCleared(m0: Mem, m: Mem, place: Places, root: Mfn, userRoot: Mfn, sp: nat, kp: map<Mfn, nat>, vp: nat)
    requires Freeable(m0, place, root, userRoot, sp, kp) && FreedMemory(m0, m, root, userRoot, kp) && vp < USER_PAGES
    requires Get(m0, Slot(root, Idx(vp, 4))) != FREE
    ensures Get(m, Slot(Get(m0, Slot(root, Idx(vp, 4))).frame, Idx(vp, 3))) == FREE
  {
    hide SlotsBelow, UserTable, KernelPagesOk, OwnSlot;
    TopShr(vp);
    FreedIsOrdered(m0, m, place, root, userRoot, sp, kp);
    var t := Get(m0, Slot(root, Idx(vp, 4))).frame;
    TreeEntry(m0, place, Slot(root, Idx(vp, 4)));
    assert TableAt(m0, root, 4, vp, 3) == Some(t);
    if Get(m0, Slot(t, Idx(vp, 3))) != FREE {
      var s := TableListed(m0, root, 4, USER_ENTRIES, vp, 2);
    }
  }

  lemma EmptyBelow(m: Mem, r: Mfn, vp: nat)
    requires
      var e := Get(m, Slot(r, Idx(vp, 4)));
      e == FREE || Get(m, Slot(e.frame, Idx(vp, 3))) == FREE
    ensures Mapping(m, r, 4, vp) == FREE
  {
  }
}
