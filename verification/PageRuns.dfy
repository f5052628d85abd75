/** Runs of the whole interface, from cloning a page table on, that end where the code departs from its intent. */
module PageRuns {
  import opened Paging
  import opened Mmu
  import opened PageNeeds
  import opened PageOthers
  import opened PageInsert
  import opened PageOffline
  import opened PageAllocTree
  import opened PageFree
  import opened PageDualRoots

  /** Where a run starts: a master table that maps the two pages for the new roots, the pool and what waits in
      ptNoWrite. */
  ghost predicate Startable(mmu: Mmu, root: Mfn, userRoot: Mfn, sp: nat, master: Mfn, masterSp: nat)
    reads mmu
  {
    && mmu.queue == [] && mmu.PoolOk() && Tree(mmu.mem, mmu.place) && IsRoot(mmu.place, master, masterSp)
    && |mmu.noWrite| < MAX_PTS && sp != 0 && (forall t :: t in mmu.place ==> mmu.place[t].space != sp)
    && root != userRoot && {root, userRoot} !! mmu.place.Keys && root !in mmu.pool && userRoot !in mmu.pool
    && (forall p :: p in mmu.noWrite + mmu.pool + [root, userRoot] ==>
          p in mmu.kernelPage && Present(Mapping(mmu.mem, master, 4, mmu.kernelPage[p])))
  }

  /** A page table is cloned from the master table, the tables for a page are allocated ahead, the table is completed,
      and then the page is inserted. Nothing fails iff there are three table pages and five
      places in ptNoWrite; the page is then mapped from the kernel root and not from the user root. */
  method AllocatedAheadRun(mmu: Mmu, root: Mfn, userRoot: Mfn, ghost sp: nat, master: Mfn, ghost masterSp: nat,
                           vp: nat, frame: Mfn, perm: Permission)
    returns (ok: bool)
    requires Startable(mmu, root, userRoot, sp, master, masterSp) && vp < USER_PAGES
    modifies mmu`mem, mmu`queue, mmu`history, mmu`pool, mmu`noWrite, mmu`place
    ensures ok <==> 3 <= |old(mmu.pool)| && |old(mmu.noWrite)| + 5 <= MAX_PTS
    ensures ok ==> Mapping(mmu.mem, root, 4, vp) == Pte(frame, UserFlags(perm))
    ensures ok ==> Mapping(mmu.mem, userRoot, 4, vp) == FREE
  {
    hide Tree, Mapping, LeafSlot, DualRoots, ZeroPage, EndLevel, Paving, RootsAfter, Inserted;
    ok := AllocateAhead(mmu, root, userRoot, sp, master, masterSp, vp);
    if !ok {
      return;
    }
    ghost var m := mmu.mem;
    ok := Insert(mmu, root, userRoot, sp, vp, frame, perm);
    StillMissed(m, mmu.mem, mmu.kernelPage, root, userRoot, vp, frame, perm);
  }

  /** The run up to completion. */
  method AllocateAhead(mmu: Mmu, root: Mfn, userRoot: Mfn, ghost sp: nat, master: Mfn, ghost masterSp: nat, vp: nat)
    returns (ok: bool)
    requires Startable(mmu, root, userRoot, sp, master, masterSp) && vp < USER_PAGES
    modifies mmu`mem, mmu`queue, mmu`history, mmu`pool, mmu`noWrite, mmu`place
    ensures ok <==> 3 <= |old(mmu.pool)| && |old(mmu.noWrite)| + 5 <= MAX_PTS
    ensures ok ==> mmu.queue == [] && Ready(mmu, root, userRoot, sp)
    ensures ok ==> Mapping(mmu.mem, root, 4, vp) == FREE && EndLevel(mmu.mem, root, 4, vp) == 1
    ensures ok ==> forall i: nat :: i < ENTRIES ==> Get(mmu.mem, Slot(userRoot, i)) == FREE
  {
    hide Tree, Mapping, LeafSlot, DualRoots, ZeroPage, SameMappings, Marked, OwnSlots, EndLevel, TablesMissing,
         Extended, AllWaiting, Covered, PinSafe, KernelPagesOk, PagesBetween, KernelMapped, Present, SameOn;
    ghost var m0, place0, kp, ps := mmu.mem, mmu.place, mmu.kernelPage, mmu.noWrite + mmu.pool + [root, userRoot];
    Clone(mmu, root, userRoot, sp, master, masterSp);
    ghost var m1, place1 := mmu.mem, mmu.place;
    FreshPath(m1, root, vp);
    MasterAfterClone(m0, m1, place0, master, masterSp, kp, ps);
    ghost var n;
    ok, n := AllocTree(mmu, root, userRoot, sp, vp * PAGE_SIZE, vp * PAGE_SIZE);
    if !ok {
      return;
    }
    ghost var m2, waiting := mmu.mem, mmu.noWrite + [root, userRoot];
    AfterAllocation(m0, m1, m2, place1, root, sp, master, masterSp, kp, ps, vp);
    SomeMapped(m2, master, kp, ps, waiting);
    ok := CompleteExisting(mmu, root, userRoot, sp, master, masterSp);
    if !ok {
      return;
    }
    CompletedIsReady(mmu, m2, root, userRoot, sp, master, masterSp, waiting);
    CompletionWalk(m2, mmu.mem, mmu.place, master, masterSp, kp, waiting, root, sp, vp);
    PathComplete(mmu.mem, root, vp);
    UserRootMarked(m2, mmu.mem, mmu.place, userRoot, sp, master, masterSp, kp, waiting);
  }

  lemma SomeMapped(m: Mem, master: Mfn, kp: map<Mfn, nat>, ps: seq<Mfn>, qs: seq<Mfn>)
    requires KernelMapped(m, master, kp, ps) && forall q :: q in qs ==> q in ps
    ensures KernelMapped(m, master, kp, qs)
  {
  }

  lemma UserRootMarked(m0: Mem, m: Mem, place: Places, userRoot: Mfn, sp: nat, master: Mfn, masterSp: nat,
                       kp: map<Mfn, nat>, ps: seq<Mfn>)
    requires Tree(m0, place) && IsRoot(place, userRoot, sp) && IsRoot(place, master, masterSp)
    requires KernelMapped(m0, master, kp, ps)
    requires Marked(m0, m, OwnSlots(m0, master, kp, ps))
    ensures UserRootSame(m0, m, userRoot)
  {
    hide Tree, LeafSlot, OwnSlots, ClearRw;
    OwnSlotsLevel(m0, place, master, masterSp, kp, ps);
  }

  /** A fresh clone lacks all three tables of a user page. */
  lemma FreshPath(m: Mem, root: Mfn, vp: nat)
    requires vp < USER_PAGES && forall i: nat :: i < USER_ENTRIES ==> Get(m, Slot(root, i)) == FREE
    ensures |TablesMissing(m, root, PagesBetween(vp, vp))| == 3
  {
    TopShr(vp);
    assert EndLevel(m, root, 4, vp) == 4;
    assert PagesBetween(vp, vp) == {vp};
    PathMissing(m, root, vp);
  }

  lemma MasterAfterClone(m0: Mem, m1: Mem, place0: Places, master: Mfn, masterSp: nat, kp: map<Mfn, nat>, ps: seq<Mfn>)
    requires Tree(m0, place0) && IsRoot(place0, master, masterSp) && SameOn(m0, m1, place0) && KernelPagesOk(kp)
    requires forall p :: p in ps ==> p in kp && Present(Mapping(m0, master, 4, kp[p]))
    ensures KernelMapped(m1, master, kp, ps)
  {
    hide Tree, LeafSlot;
    ChainUnseen(m0, m1, place0, master, masterSp);
  }

  /** Allocation keeps the mappings of the kernel pages and of the user page. */
  lemma AfterAllocation(m0: Mem, m1: Mem, m2: Mem, place1: Places, root: Mfn, sp: nat, master: Mfn, masterSp: nat,
                        kp: map<Mfn, nat>, ps: seq<Mfn>, vp: nat)
    requires SameMappings(m1, m2, place1) && IsRoot(place1, root, sp) && IsRoot(place1, master, masterSp)
    requires KernelMapped(m1, master, kp, ps) && KernelPagesOk(kp) && vp < USER_PAGES
    requires forall p :: p in ps ==> Present(Mapping(m0, master, 4, kp[p]))
    requires forall wp: nat :: wp < PAGES ==>
               Mapping(m1, root, 4, wp) == if wp < USER_PAGES then FREE else Mapping(m0, master, 4, wp)
    requires Covered(m2, root, vp, vp)
    ensures KernelMapped(m2, master, kp, ps)
    ensures forall p :: p in ps ==> Present(Mapping(m2, root, 4, kp[p]))
    ensures Mapping(m2, root, 4, vp) == FREE && LeafSlot(m2, root, 4, vp).Some?
  {
    hide LeafSlot, Mapping, Present;
    RootAt(place1, root, sp, vp);
    MasterAfterAllocation(m1, m2, place1, master, masterSp, kp, ps);
    forall p | p in ps
      ensures Present(Mapping(m2, root, 4, kp[p]))
    {
      RootAt(place1, root, sp, kp[p]);
    }
  }

  lemma MasterAfterAllocation(m1: Mem, m2: Mem, place1: Places, master: Mfn, masterSp: nat, kp: map<Mfn, nat>,
                              ps: seq<Mfn>)
    requires SameMappings(m1, m2, place1) && IsRoot(place1, master, masterSp) && KernelMapped(m1, master, kp, ps)
    ensures KernelMapped(m2, master, kp, ps)
  {
    hide LeafSlot, Mapping, Present;
    forall p | p in ps
      ensures LeafSlot(m2, master, 4, kp[p]).Some? && KernelHas(m2, master, kp, p)
    {
      RootAt(place1, master, masterSp, kp[p]);
    }
  }

  lemma PathComplete(m: Mem, root: Mfn, vp: nat)
    requires LeafSlot(m, root, 4, vp).Some?
    ensures EndLevel(m, root, 4, vp) == 1
  {
    PathHasTable(m, root, vp, 1);
    TableFrom(m, root, 4, vp, 1);
  }

  lemma StillMissed(m: Mem, n: Mem, kp: map<Mfn, nat>, root: Mfn, userRoot: Mfn, vp: nat, frame: Mfn, perm: Permission)
    requires vp < USER_PAGES && forall i: nat :: i < ENTRIES ==> Get(m, Slot(userRoot, i)) == FREE
    requires RootsAfter(m, n, root, userRoot, Idx(vp, 4), false)
    requires Inserted(m, n, root, vp, LeafFor(vp, frame, perm), KernelPages(kp, []))
    ensures Mapping(n, root, 4, vp) == Pte(frame, UserFlags(perm)) && Mapping(n, userRoot, 4, vp) == FREE
  {
    assert Get(n, Slot(userRoot, Idx(vp, 4))) == Get(m, Slot(userRoot, Idx(vp, 4)));
  }

  // ------------------------------------------------------------------------------------ too many pages for ptNoWrite

  /** A page table is cloned when nothing waits, all tables of the first 4086 * 512 pages are allocated, which fills
      ptNoWrite but for the one place that the allocation leaves, and the table is completed: the second of the two
      roots is stored behind the end of ptNoWrite. */
  method OverflowRun(mmu: Mmu, root: Mfn, userRoot: Mfn, ghost sp: nat, master: Mfn, ghost masterSp: nat)
    returns (built: bool, inBounds: bool)
    requires Startable(mmu, root, userRoot, sp, master, masterSp) && mmu.noWrite == [] && MAX_PTS - 1 <= |mmu.pool|
    modifies mmu`mem, mmu`queue, mmu`history, mmu`pool, mmu`noWrite, mmu`place
    ensures built && !inBounds
  {
    hide Tree, Mapping, LeafSlot, DualRoots, ZeroPage, SameMappings, TablesMissing, Extended, AllWaiting, Covered,
         KernelPagesOk, PagesBetween, KernelMapped, Present, SameOn, PinSafe, Marked, OwnSlots;
    ghost var m0, place0, kp, ps := mmu.mem, mmu.place, mmu.kernelPage, mmu.noWrite + mmu.pool + [root, userRoot];
    Clone(mmu, root, userRoot, sp, master, masterSp);
    ghost var m1, place1 := mmu.mem, mmu.place;
    FreshRange(m1, root);
    MasterAfterClone(m0, m1, place0, master, masterSp, kp, ps);
    ghost var n;
    built, n := AllocTree(mmu, root, userRoot, sp, 0, (FULL - 1) * PAGE_SIZE);
    MasterAfterAllocation(m1, mmu.mem, place1, master, masterSp, kp, ps);
    SomeMapped(mmu.mem, master, kp, ps, mmu.noWrite + [root, userRoot]);
    inBounds := CompleteExisting(mmu, root, userRoot, sp, master, masterSp);
  }

  /** The first pages, for which a fresh page table needs 4086 tables of level 1, 8 of level 2 and one of level 3. */
  const FULL: nat := 4086 * 512

  ghost function NodesOf(j: nat, n: nat): (s: set<(nat, nat)>)
    ensures |s| == n && forall x :: x in s <==> x.0 == j && x.1 < n
  {
    if n == 0 then {} else NodesOf(j, n - 1) + {(j, n - 1)}
  }

  lemma FreshRange(m: Mem, root: Mfn)
    requires forall i: nat :: i < USER_ENTRIES ==> Get(m, Slot(root, i)) == FREE
    ensures |TablesMissing(m, root, PagesBetween(0, FULL - 1))| == MAX_PTS - 1
  {
    hide TableAt, Shr, TablesMissing, PagesBetween, NodesOf;
    var missing := TablesMissing(m, root, PagesBetween(0, FULL - 1));
    var nodes := NodesOf(1, 4086) + NodesOf(2, 8) + NodesOf(3, 1);
    forall x
      ensures x in missing <==> x in nodes
    {
      if x in missing { MissingIsNode(m, root, x); }
      if x in nodes { NodeIsMissing(m, root, x); }
    }
    assert missing == nodes;
  }

  ghost predicate NodeBelowFull(x: (nat, nat)) {
    (x.0 == 1 && x.1 < 4086) || (x.0 == 2 && x.1 < 8) || (x.0 == 3 && x.1 < 1)
  }

  lemma MissingIsNode(m: Mem, root: Mfn, x: (nat, nat))
    requires x in TablesMissing(m, root, PagesBetween(0, FULL - 1))
    ensures NodeBelowFull(x)
  {
    hide TableAt, Shr;
    var w, j :| w in PagesBetween(0, FULL - 1) && 1 <= j <= 3 && x == (j, Shr(w, j));
    Shifts(w);
  }

  lemma NodeIsMissing(m: Mem, root: Mfn, x: (nat, nat))
    requires forall i: nat :: i < USER_ENTRIES ==> Get(m, Slot(root, i)) == FREE
    requires NodeBelowFull(x)
    ensures x in TablesMissing(m, root, PagesBetween(0, FULL - 1))
  {
    hide TableAt, Shr, Base;
    var w := Base(x.1, x.0);
    FirstOf(x.0, x.1);
    EmptyHalf(m, root, w, x.0);
    assert w in PagesBetween(0, FULL - 1) && x == (x.0, Shr(w, x.0));
  }

  lemma EmptyHalf(m: Mem, root: Mfn, w: nat, j: nat)
    requires w < USER_PAGES && 1 <= j <= 3 && forall i: nat :: i < USER_ENTRIES ==> Get(m, Slot(root, i)) == FREE
    ensures TableAt(m, root, 4, w, j) == None
  {
    TopShr(w);
  }

  lemma Shifts(w: nat)
    ensures Shr(w, 1) == w / 512 && Shr(w, 2) == w / 512 / 512 && Shr(w, 3) == w / 512 / 512 / 512
  {
  }

  lemma FirstOf(j: nat, q: nat)
    requires 1 <= j <= 3 && q < if j == 1 then 4086 else if j == 2 then 8 else 1
    ensures Base(q, j) < FULL && Shr(Base(q, j), j) == q
  {
    ShrBase(q, j);
    assert Base(q, 1) == q * 512 && Base(q, 2) == q * 512 * 512 && Base(q, 3) == q * 512 * 512 * 512;
  }

  // ------------------------------------------------------------------------------------------- a table still named

  /** A page table is cloned, a user page is inserted, and the table is completed and torn down. Nothing fails iff there
      are three table pages and five places in ptNoWrite. A table page has then been given back and is writable, and the
      user root still names it. */
  method StillNamedRun(mmu: Mmu, root: Mfn, userRoot: Mfn, ghost sp: nat, master: Mfn, ghost masterSp: nat, vp: nat,
                       frame: Mfn, perm: Permission)
    returns (ok: bool, p: Mfn)
    requires Startable(mmu, root, userRoot, sp, master, masterSp) && vp < USER_PAGES
    modifies mmu`mem, mmu`queue, mmu`history, mmu`pool, mmu`noWrite, mmu`place, mmu`freedPages, mmu`freedFrames
    ensures ok <==> 3 <= |old(mmu.pool)| && |old(mmu.noWrite)| + 5 <= MAX_PTS
    ensures ok ==> p in mmu.freedPages && p in mmu.kernelPage && Writable(Mapping(mmu.mem, root, 4, mmu.kernelPage[p]))
    ensures ok ==> NamedBy(mmu.mem, userRoot, p)
  {
    hide Tree, Mapping, LeafSlot, DualRoots, ZeroPage, Freeable, FreedMemory, UserTable, SlotsBelow, FramesBelow,
         TraceOrdered, NamedBy, OthersKept, KernelPagesOk;
    ok := InsertAndComplete(mmu, root, userRoot, sp, master, masterSp, vp, frame, perm);
    p := Get(mmu.mem, Slot(root, Idx(vp, 4))).frame;
    if !ok {
      return;
    }
    ghost var m, place := mmu.mem, mmu.place;
    FreeableTree(m, place, root, userRoot, sp, mmu.kernelPage);
    FirstTable(m, place, root, sp, vp);
    Free(mmu, root, userRoot, sp);
    FreedMeaning(m, mmu.mem, place, root, userRoot, sp, mmu.kernelPage);
    FreedUserRoot(m, mmu.mem, place, root, userRoot, sp, mmu.kernelPage);
    NamedIn(m, mmu.mem, root, userRoot, vp);
  }

  lemma FirstTable(m: Mem, place: Places, root: Mfn, sp: nat, vp: nat)
    requires Tree(m, place) && IsRoot(place, root, sp) && vp < USER_PAGES && Get(m, Slot(root, Idx(vp, 4))) != FREE
    ensures
      var p := Get(m, Slot(root, Idx(vp, 4))).frame;
      UserTable(m, root, p) && p in PagesOf(m, SlotsBelow(m, root, 4, USER_ENTRIES))
  {
    hide Tree, SlotsBelow;
    var p := Get(m, Slot(root, Idx(vp, 4))).frame;
    assert TableAt(m, p, 3, vp, 3) == Some(p);
    assert TableAt(m, root, 4, vp, 3) == Some(p);
    PagesAreTables(m, place, root, sp);
  }

  lemma NamedIn(m: Mem, n: Mem, root: Mfn, userRoot: Mfn, vp: nat)
    requires Get(m, Slot(root, Idx(vp, 4))) != FREE && Agree(m, root, userRoot, Idx(vp, 4))
    requires forall i: nat :: i < ENTRIES ==> Get(n, Slot(userRoot, i)) == Get(m, Slot(userRoot, i))
    ensures NamedBy(n, userRoot, Get(m, Slot(root, Idx(vp, 4))).frame)
  {
    assert Get(n, Slot(userRoot, Idx(vp, 4))) == Get(m, Slot(userRoot, Idx(vp, 4)));
  }

  lemma FreeableTree(m: Mem, place: Places, root: Mfn, userRoot: Mfn, sp: nat, kp: map<Mfn, nat>)
    requires Freeable(m, place, root, userRoot, sp, kp)
    ensures Tree(m, place) && IsRoot(place, root, sp) && IsRoot(place, userRoot, sp)
    ensures forall p :: p == root || p == userRoot || UserTable(m, root, p) ==> p in kp
  {
  }

  /** The run up to the teardown. */
  method InsertAndComplete(mmu: Mmu, root: Mfn, userRoot: Mfn, ghost sp: nat, master: Mfn, ghost masterSp: nat, vp: nat,
                           frame: Mfn, perm: Permission)
    returns (ok: bool)
    requires Startable(mmu, root, userRoot, sp, master, masterSp) && vp < USER_PAGES
    modifies mmu`mem, mmu`queue, mmu`history, mmu`pool, mmu`noWrite, mmu`place
    ensures ok <==> 3 <= |old(mmu.pool)| && |old(mmu.noWrite)| + 5 <= MAX_PTS
    ensures ok ==> mmu.queue == [] && root != userRoot && DualRoots(mmu.mem, root, userRoot)
    ensures ok ==> Freeable(mmu.mem, mmu.place, root, userRoot, sp, mmu.kernelPage)
    ensures ok ==> Get(mmu.mem, Slot(root, Idx(vp, 4))) != FREE && Agree(mmu.mem, root, userRoot, Idx(vp, 4))
  {
    hide Tree, Mapping, LeafSlot, DualRoots, ZeroPage, Marked, OwnSlots, EndLevel, PinSafe, KernelPagesOk, KernelMapped,
         Present, SameOn, Freeable, UserInserted, OtherSpacesKept, UserRootKept, Paving, Agree, KeptOrMarked;
    ghost var m0, place0, kp, ps := mmu.mem, mmu.place, mmu.kernelPage, mmu.noWrite + mmu.pool + [root, userRoot];
    Clone(mmu, root, userRoot, sp, master, masterSp);
    ghost var m1, place1 := mmu.mem, mmu.place;
    FreshEnd(m1, root, vp);
    MasterAfterClone(m0, m1, place0, master, masterSp, kp, ps);
    ok := UserInsert(mmu, root, userRoot, sp, vp, frame, perm);
    if !ok {
      return;
    }
    ghost var m2, waiting := mmu.mem, mmu.noWrite + [root, userRoot];
    AfterUserInsert(m0, m1, m2, place1, root, sp, master, masterSp, kp, ps, vp, Pte(frame, UserFlags(perm)));
    SomeMapped(m2, master, kp, ps, waiting);
    SomeMapped(m2, root, kp, ps, waiting);
    ok := CompleteExisting(mmu, root, userRoot, sp, master, masterSp);
    if !ok {
      return;
    }
    CompletionKeepsRoots(m2, mmu.mem, mmu.place, root, userRoot, sp, master, masterSp, kp, waiting);
    TopKept(m2, mmu.mem, mmu.place, root, userRoot, sp, master, masterSp, kp, waiting, vp);
    CompletedIsFreeable(m2, mmu.mem, mmu.place, root, userRoot, sp, kp, waiting);
  }

  /** A fresh clone has no table for a user page. */
  lemma FreshEnd(m: Mem, root: Mfn, vp: nat)
    requires vp < USER_PAGES && forall i: nat :: i < USER_ENTRIES ==> Get(m, Slot(root, i)) == FREE
    ensures EndLevel(m, root, 4, vp) == 4
  {
    TopShr(vp);
  }

  /** Inserting a user page keeps the kernel pages of both tables. */
  lemma AfterUserInsert(m0: Mem, m1: Mem, m2: Mem, place1: Places, root: Mfn, sp: nat, master: Mfn, masterSp: nat,
                        kp: map<Mfn, nat>, ps: seq<Mfn>, vp: nat, leaf: Pte)
    requires UserInserted(m1, m2, place1, root, sp, vp, leaf) && vp < USER_PAGES && sp != masterSp
    requires IsRoot(place1, root, sp) && IsRoot(place1, master, masterSp)
    requires KernelMapped(m1, master, kp, ps) && KernelPagesOk(kp)
    requires forall p :: p in ps ==> Present(Mapping(m0, master, 4, kp[p]))
    requires forall wp: nat :: wp < PAGES ==>
               Mapping(m1, root, 4, wp) == if wp < USER_PAGES then FREE else Mapping(m0, master, 4, wp)
    ensures KernelMapped(m2, master, kp, ps) && KernelMapped(m2, root, kp, ps)
    ensures Mapping(m2, root, 4, vp) == leaf
  {
    hide LeafSlot;
    forall p | p in ps
      ensures Present(Mapping(m2, master, 4, kp[p])) && Present(Mapping(m2, root, 4, kp[p]))
    {
    }
  }

  /** Completion writes no entry of the roots. */
  lemma TopKept(m2: Mem, m: Mem, place: Places, root: Mfn, userRoot: Mfn, sp: nat, master: Mfn, masterSp: nat,
                kp: map<Mfn, nat>, ps: seq<Mfn>, vp: nat)
    requires Tree(m2, place) && IsRoot(place, root, sp) && IsRoot(place, userRoot, sp)
    requires IsRoot(place, master, masterSp) && KernelMapped(m2, master, kp, ps)
    requires Marked(m2, m, OwnSlots(m2, master, kp, ps))
    requires Agree(m2, root, userRoot, Idx(vp, 4)) && Mapping(m2, root, 4, vp) != FREE
    ensures Get(m, Slot(root, Idx(vp, 4))) != FREE && Agree(m, root, userRoot, Idx(vp, 4))
  {
    hide Tree, OwnSlots, KernelHas;
    OwnSlotsLevel(m2, place, master, masterSp, kp, ps);
    assert Get(m2, Slot(root, Idx(vp, 4))) != FREE;
  }

  /** A table that was completed may be torn down: its tables all waited and so the kernel maps them. */
  lemma CompletedIsFreeable(m2: Mem, m: Mem, place: Places, root: Mfn, userRoot: Mfn, sp: nat, kp: map<Mfn, nat>,
                            ps: seq<Mfn>)
    requires Tree(m, place) && IsRoot(place, root, sp) && IsRoot(place, userRoot, sp) && sp != 0 && KernelPagesOk(kp)
    requires KernelMapped(m2, root, kp, ps) && forall wp: nat :: wp < PAGES ==> KeptOrMarked(m2, m, root, wp)
    requires AllWaiting(place, root, userRoot, sp, ps) && root in ps && userRoot in ps
    ensures Freeable(m, place, root, userRoot, sp, kp)
  {
    hide Tree, LeafSlot, Mapping, TableAt, KernelPagesOk, Present;
    forall p | p in ps
      ensures p in kp && LeafSlot(m, root, 4, kp[p]).Some? && KernelHas(m, root, kp, p)
    {
      assert KeptOrMarked(m2, m, root, kp[p]);
      ClearKeepsPresent(Mapping(m2, root, 4, kp[p]));
    }
    forall p | UserTable(m, root, p)
      ensures p in ps
    {
      var vp: nat, k :| vp < USER_PAGES && 1 <= k <= 3 && TableAt(m, root, 4, vp, k) == Some(p);
      RootAt(place, root, sp, vp);
      TableSame(m, m, place, root, sp, 4, vp, k);
    }
  }
}
