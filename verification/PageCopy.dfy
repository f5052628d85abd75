/** Sharing a range of pages with another address space: archPageTableUserspaceCopy. */
module PageCopy {
  import opened Paging
  import opened Mmu
  import opened Hardware
  import opened PageNeeds
  import opened PageInsert
  import opened PageNext
  import opened PageRange
  import opened PageOffline

  /** physicalInfo's count of a frame. */
  function CountOf(count: map<Mfn, nat>, f: Mfn): nat {
    if f in count then count[f] else 0
  }

  /** The page is mapped and lies in the range from `lb` up to `ub` and below address `hi`. */
  predicate Hit(m: Mem, root: Mfn, lb: nat, ub: nat, hi: nat, w: int) {
    0 <= w < PAGES && lb <= w < ub && w * PAGE_SIZE < hi && Mapping(m, root, 4, w) != FREE
  }

  /** The pages of the range that are mapped to frame `f`. */
  ghost function HitPages(m: Mem, root: Mfn, lb: nat, ub: nat, hi: nat, f: Mfn): set<nat> {
    set w: nat | w < PAGES && Hit(m, root, lb, ub, hi, w) && Mapping(m, root, 4, w).frame == f
  }

  /** `toRoot` maps what it mapped in `m0`, and on top of that, `off` pages further, the pages of the range of
      `root`. */
  ghost predicate Copied(m0: Mem, m: Mem, root: Mfn, toRoot: Mfn, lb: nat, ub: nat, hi: nat, off: int, flags: bv12) {
    forall wp: nat :: wp < PAGES ==>
      Mapping(m, toRoot, 4, wp) ==
      if Hit(m0, root, lb, ub, hi, wp - off) then Pte(Mapping(m0, root, 4, wp - off).frame, flags)
      else Mapping(m0, toRoot, 4, wp)
  }

  /** The count of every frame has risen by the number of pages of the range that are mapped to it. */
  ghost predicate Counted(m0: Mem, root: Mfn, lb: nat, ub: nat, hi: nat, count0: map<Mfn, nat>, count: map<Mfn, nat>) {
    forall f :: CountOf(count, f) == CountOf(count0, f) + |HitPages(m0, root, lb, ub, hi, f)|
  }

  /** No page is hit between `a` and `b`. */
  ghost predicate NoHits(m: Mem, root: Mfn, lb: nat, hi: nat, a: nat, b: nat) {
    forall w: nat :: a <= w < b && w < PAGES ==> !(lb <= w && w * PAGE_SIZE < hi && Mapping(m, root, 4, w) != FREE)
  }

  lemma SkipNoHits(m0: Mem, m: Mem, root: Mfn, toRoot: Mfn, lb: nat, a: nat, b: nat, hi: nat, off: int, flags: bv12,
                   count0: map<Mfn, nat>, count: map<Mfn, nat>)
    requires a <= b && NoHits(m0, root, lb, hi, a, b)
    requires Copied(m0, m, root, toRoot, lb, a, hi, off, flags) && Counted(m0, root, lb, a, hi, count0, count)
    ensures Copied(m0, m, root, toRoot, lb, b, hi, off, flags) && Counted(m0, root, lb, b, hi, count0, count)
  {
    assert forall w: nat :: w < PAGES ==> (Hit(m0, root, lb, a, hi, w) <==> Hit(m0, root, lb, b, hi, w));
    forall f
      ensures HitPages(m0, root, lb, a, hi, f) == HitPages(m0, root, lb, b, hi, f)
    {
    }
  }

  /** Copying page `w`, the next of the range. */
  lemma CopiedStep(m0: Mem, m: Mem, n: Mem, root: Mfn, toRoot: Mfn, lb: nat, w: nat, hi: nat, off: int, flags: bv12)
    requires w < PAGES && 0 <= w + off < PAGES && Hit(m0, root, lb, w + 1, hi, w)
    requires Copied(m0, m, root, toRoot, lb, w, hi, off, flags)
    requires forall wp: nat :: wp < PAGES ==>
               Mapping(n, toRoot, 4, wp) ==
               if wp == w + off then Pte(Mapping(m0, root, 4, w).frame, flags) else Mapping(m, toRoot, 4, wp)
    ensures Copied(m0, n, root, toRoot, lb, w + 1, hi, off, flags)
  {
    hide Mapping;
    forall wp: nat | wp < PAGES
      ensures Mapping(n, toRoot, 4, wp) ==
              if Hit(m0, root, lb, w + 1, hi, wp - off) then Pte(Mapping(m0, root, 4, wp - off).frame, flags)
              else Mapping(m0, toRoot, 4, wp)
    {
      assert Hit(m0, root, lb, w + 1, hi, wp - off) <==> Hit(m0, root, lb, w, hi, wp - off) || wp - off == w;
    }
  }

  /** The pages of a frame gain the next page iff it is mapped to the frame. */
  lemma HitPagesStep(m0: Mem, root: Mfn, lb: nat, w: nat, hi: nat, g: Mfn)
    requires w < PAGES && Hit(m0, root, lb, w + 1, hi, w)
    ensures |HitPages(m0, root, lb, w + 1, hi, g)| ==
            |HitPages(m0, root, lb, w, hi, g)| + if g == Mapping(m0, root, 4, w).frame then 1 else 0
  {
    hide Mapping;
    var before := HitPages(m0, root, lb, w, hi, g);
    assert HitPages(m0, root, lb, w + 1, hi, g) == before + (if g == Mapping(m0, root, 4, w).frame then {w} else {});
    assert w !in before;
  }

  lemma CountedStep(m0: Mem, root: Mfn, lb: nat, w: nat, hi: nat, count0: map<Mfn, nat>, count: map<Mfn, nat>)
    requires w < PAGES && Hit(m0, root, lb, w + 1, hi, w) && Counted(m0, root, lb, w, hi, count0, count)
    ensures
      var f := Mapping(m0, root, 4, w).frame;
      Counted(m0, root, lb, w + 1, hi, count0, count[f := CountOf(count, f) + 1])
  {
    hide Mapping, HitPages, Hit;
    var f := Mapping(m0, root, 4, w).frame;
    forall g
      ensures |HitPages(m0, root, lb, w + 1, hi, g)| == |HitPages(m0, root, lb, w, hi, g)| + if g == f then 1 else 0
    {
      HitPagesStep(m0, root, lb, w, hi, g);
    }
  }

  /** The pages that the pages of the range are copied to. */
  ghost function Targets(m: Mem, root: Mfn, lb: nat, ub: nat, hi: nat, off: int): set<nat> {
    set w: nat | w < PAGES && Hit(m, root, lb, ub, hi, w) :: Moved(w, off)
  }

  /** What is to be provided for the pages `ws`: the table pages that will be left and the length ptNoWrite will have
      when they all have their paths. */
  datatype Budget = Budget(ws: set<nat>, left: int, waiting: int)

  ghost predicate Holds(b: Budget, mmu: Mmu, toRoot: Mfn)
    reads mmu
  {
    && b.left == |mmu.pool| - |TablesMissing(mmu.mem, toRoot, b.ws)|
    && b.waiting == |mmu.noWrite| + |TablesMissing(mmu.mem, toRoot, b.ws)|
  }

  predicate Affordable(b: Budget) { b.left >= 0 && b.waiting < MAX_PTS }

  /** The budget of a page table under construction can be met iff all tables it lacks can be allocated. */
  lemma AffordableIff(b: Budget, mmu: Mmu, toRoot: Mfn)
    requires Holds(b, mmu, toRoot) && |mmu.noWrite| < MAX_PTS
    ensures Affordable(b) <==> CanAllocate(mmu, |TablesMissing(mmu.mem, toRoot, b.ws)|)
  {
  }

  /** A page of the set that cannot have its path is beyond the budget. */
  lemma BeyondBudget(b: Budget, mmu: Mmu, toRoot: Mfn, vp: nat)
    requires Holds(b, mmu, toRoot) && vp in b.ws && !CanAllocate(mmu, EndLevel(mmu.mem, toRoot, 4, vp) - 1)
    ensures !Affordable(b)
  {
    hide EndLevel, TablesMissing;
    PathAmong(mmu.mem, toRoot, b.ws, vp);
  }

  /** The copies fall on the pages of the budget. */
  ghost predicate Budgeted(b: Budget, m0: Mem, root: Mfn, lb: nat, hi: nat, off: int) {
    && (forall w: nat :: w < PAGES && Hit(m0, root, lb, PAGES, hi, w) ==> w + off in b.ws)
    && (forall v :: v in b.ws ==> v < PAGES)
  }

  /** The state of archPageTableUserspaceCopy when the pages of the range up to `cur` have been copied. */
  ghost predicate Copying(mmu: Mmu, m0: Mem, place0: Places, count0: map<Mfn, nat>, root: Mfn, toRoot: Mfn, toUser: Mfn,
                          toSp: nat, lb: nat, cur: nat, hi: nat, off: int, perm: Permission, tables: set<Mfn>,
                          b: Budget)
    reads mmu
  {
    && Offline(mmu, toRoot, toUser, toSp)
    && (forall t :: t in place0 ==> t in mmu.place && mmu.place[t] == place0[t])
    && OtherSpacesKept(m0, mmu.mem, place0, toSp) && UppersFrom(m0, place0, mmu.mem, mmu.place)
    && Copied(m0, mmu.mem, root, toRoot, lb, cur, hi, off, UserFlags(perm))
    && Counted(m0, root, lb, cur, hi, count0, mmu.count)
    && AllShareable(m0, root, lb, cur, hi, count0, tables)
    && Holds(b, mmu, toRoot) && Budgeted(b, m0, root, lb, hi, off)
  }

  /** Why the copy stops short: a page of the range whose frame cannot be shared, or too few table pages. */
  ghost predicate Stopped(b: Budget, m0: Mem, count0: map<Mfn, nat>, root: Mfn, lb: nat, hi: nat, tables: set<Mfn>) {
    !Affordable(b) || !AllShareable(m0, root, lb, PAGES, hi, count0, tables)
  }

  /** The frame is the zero frame, a table, or not counted. */
  predicate Unshareable(f: Mfn, count0: map<Mfn, nat>, tables: set<Mfn>) {
    f == 0 || f in tables || f !in count0 || count0[f] == 0
  }

  /** No page copied so far was one of those. */
  ghost predicate AllShareable(m0: Mem, root: Mfn, lb: nat, ub: nat, hi: nat, count0: map<Mfn, nat>, tables: set<Mfn>) {
    forall w: nat :: w < PAGES && Hit(m0, root, lb, ub, hi, w) ==>
      !Unshareable(Mapping(m0, root, 4, w).frame, count0, tables)
  }

  lemma ShareableStep(m0: Mem, root: Mfn, lb: nat, w: nat, hi: nat, count0: map<Mfn, nat>, count: map<Mfn, nat>,
                      tables: set<Mfn>)
    requires w < PAGES && Counted(m0, root, lb, w, hi, count0, count)
    requires AllShareable(m0, root, lb, w, hi, count0, tables)
    requires Mapping(m0, root, 4, w).frame != 0 && Mapping(m0, root, 4, w).frame !in tables
    requires CountOf(count, Mapping(m0, root, 4, w).frame) != 0
    ensures AllShareable(m0, root, lb, w + 1, hi, count0, tables)
  {
    hide Mapping;
    var f := Mapping(m0, root, 4, w).frame;
    if v :| v in HitPages(m0, root, lb, w, hi, f) {
      assert Hit(m0, root, lb, w, hi, v) && Mapping(m0, root, 4, v).frame == f;
    } else {
      assert HitPages(m0, root, lb, w, hi, f) == {};
    }
    forall v: nat | v < PAGES && Hit(m0, root, lb, w + 1, hi, v)
      ensures !Unshareable(Mapping(m0, root, 4, v).frame, count0, tables)
    {
      if v < w { assert Hit(m0, root, lb, w, hi, v); }
    }
  }

  lemma ShareableSkip(m0: Mem, root: Mfn, lb: nat, a: nat, b: nat, hi: nat, count0: map<Mfn, nat>, tables: set<Mfn>)
    requires a <= b && NoHits(m0, root, lb, hi, a, b) && AllShareable(m0, root, lb, a, hi, count0, tables)
    ensures AllShareable(m0, root, lb, b, hi, count0, tables)
  {
    hide Mapping;
    forall v: nat | v < PAGES && Hit(m0, root, lb, b, hi, v)
      ensures !Unshareable(Mapping(m0, root, 4, v).frame, count0, tables)
    {
      assert Hit(m0, root, lb, a, hi, v);
    }
  }

  lemma NotCounted(m0: Mem, root: Mfn, lb: nat, ub: nat, hi: nat, count0: map<Mfn, nat>, count: map<Mfn, nat>, f: Mfn)
    requires Counted(m0, root, lb, ub, hi, count0, count) && CountOf(count, f) == 0
    ensures CountOf(count0, f) == 0
  {
  }

  /** The innermost step: `w` is mapped to the frame of `e`. `tables` are the frames flagged PG_pt or PG_ptp. A result
      of false is a failed assertion. */
  method CopyPage(mmu: Mmu, e: Pte, w: nat, off: int, perm: Permission, tables: set<Mfn>, toRoot: Mfn, toUser: Mfn,
                  ghost toSp: nat, ghost m0: Mem, ghost place0: Places, ghost count0: map<Mfn, nat>, ghost root: Mfn,
                  ghost lb: nat, ghost hi: nat, ghost b: Budget)
    returns (ok: bool)
    requires w < PAGES && 0 <= w + off < USER_PAGES && Hit(m0, root, lb, w + 1, hi, w)
    requires Mapping(m0, root, 4, w).frame == e.frame && IsRoot(place0, toRoot, toSp)
    requires Copying(mmu, m0, place0, count0, root, toRoot, toUser, toSp, lb, w, hi, off, perm, tables, b)
    modifies mmu`mem, mmu`pool, mmu`noWrite, mmu`place, mmu`count
    ensures ok ==> Copying(mmu, m0, place0, count0, root, toRoot, toUser, toSp, lb, w + 1, hi, off, perm, tables, b)
    ensures !ok ==> Stopped(b, m0, count0, root, lb, hi, tables)
  {
    hide Mapping, Hit, Counted, Copied, DualRoots, AllWaiting, Tree, ZeroPage, AllShareable, Budgeted, EndLevel,
         TablesMissing, Paving, LeafSlot;
    HitInRange(m0, root, lb, w, hi);
    if e.frame == 0 || e.frame in tables || CountOf(mmu.count, e.frame) == 0 {
      if CountOf(mmu.count, e.frame) == 0 { NotCounted(m0, root, lb, w, hi, count0, mmu.count, e.frame); }
      NotShareable(m0, root, lb, w, hi, count0, tables);
      return false;
    }
    ShareableStep(m0, root, lb, w, hi, count0, mmu.count, tables);
    CountedStep(m0, root, lb, w, hi, count0, mmu.count);
    mmu.count := mmu.count[e.frame := CountOf(mmu.count, e.frame) + 1];
    ghost var m, place := mmu.mem, mmu.place;
    TargetBudgeted(b, m0, root, lb, hi, off, w);
    if !CanAllocate(mmu, EndLevel(mmu.mem, toRoot, 4, w + off) - 1) {
      BeyondBudget(b, mmu, toRoot, w + off);
    }
    ok := UserInsert(mmu, toRoot, toUser, toSp, w + off, e.frame, perm);
    if ok {
      PavingStep(m, mmu.mem, toRoot, b.ws, w + off);
      assert IsRoot(place, toRoot, toSp);
      CopiedStep(m0, m, mmu.mem, root, toRoot, lb, w, hi, off, UserFlags(perm));
    }
  }

  lemma NotShareable(m0: Mem, root: Mfn, lb: nat, w: nat, hi: nat, count0: map<Mfn, nat>, tables: set<Mfn>)
    requires w < PAGES && Hit(m0, root, lb, PAGES, hi, w) && Unshareable(Mapping(m0, root, 4, w).frame, count0, tables)
    ensures !AllShareable(m0, root, lb, PAGES, hi, count0, tables)
  {
  }

  lemma TargetBudgeted(b: Budget, m0: Mem, root: Mfn, lb: nat, hi: nat, off: int, w: nat)
    requires Budgeted(b, m0, root, lb, hi, off) && w < PAGES && Hit(m0, root, lb, PAGES, hi, w)
    ensures w + off in b.ws && forall v :: v in b.ws ==> v < PAGES
  {
  }

  /** A free entry hides no hit. */
  lemma NoHitsFree(m: Mem, root: Mfn, t: Mfn, k: nat, p: nat, l: nat, lb: nat, cur: nat, hi: nat)
    requires 1 <= k <= 4 && l < 512 && Under(m, root, t, k, p) && Get(m, Slot(t, l)) == FREE
    requires Base(p * 512 + l, k - 1) <= cur
    ensures NoHits(m, root, lb, hi, cur, Base(p * 512 + l + 1, k - 1))
  {
    hide Base, Under, Mapping, LeafSlot;
    var to := Base(p * 512 + l + 1, k - 1);
    forall w: nat | cur <= w < to && w < PAGES
      ensures Mapping(m, root, 4, w) == FREE
    {
      FreeEntry(m, root, t, k, p, l, w);
    }
  }

  /** A leaf in use that is in range is a hit. */
  lemma LeafHit(m: Mem, root: Mfn, t: Mfn, p: nat, l: nat, lb: nat, hi: nat)
    requires l < 512 && Under(m, root, t, 1, p) && Get(m, Slot(t, l)) != FREE
    requires lb <= Base(p * 512 + l, 0) < PAGES && Base(p * 512 + l, 0) * PAGE_SIZE < hi
    ensures Hit(m, root, lb, Base(p * 512 + l, 0) + 1, hi, Base(p * 512 + l, 0))
    ensures Mapping(m, root, 4, Base(p * 512 + l, 0)) == Get(m, Slot(t, l))
    ensures Base(p * 512 + l + 1, 0) == Base(p * 512 + l, 0) + 1
  {
    var w := p * 512 + l;
    assert Shr(w, 0) == w && Shr(w, 1) == p && Idx(w, 1) == l;
    assert LeafSlot(m, root, 4, w) == Some(Slot(t, l));
  }

  lemma NoHitsEnd(m: Mem, root: Mfn, lb: nat, a: nat, b: nat, hi: nat)
    requires hi <= a * PAGE_SIZE
    ensures NoHits(m, root, lb, hi, a, b)
  {
  }

  /** Every hit has its copy in user space. */
  ghost predicate FitsUserSpace(m: Mem, root: Mfn, lb: nat, hi: nat, off: int) {
    forall w :: Hit(m, root, lb, PAGES, hi, w) ==> 0 <= w + off < USER_PAGES
  }

  /** One of the four nested loops of archPageTableUserspaceCopy with the loops inside it. */
  method CopyLevel(mmu: Mmu, ghost m0: Mem, ghost place0: Places, ghost count0: map<Mfn, nat>, ghost root: Mfn,
                   ghost lb0: nat, t: Mfn, k: nat, ghost p: nat, upper: nat, offset: seq<nat>, ghost lb: nat, hi: nat,
                   off: int, perm: Permission, tables: set<Mfn>, toRoot: Mfn, toUser: Mfn, ghost toSp: nat,
                   ghost b: Budget)
    returns (ok: bool, stop: bool)
    requires 1 <= k <= 4 && Shr(lb, k) == p && upper == Base(p, k) * PAGE_SIZE && Offsets(offset, k, lb)
    requires Base(p + 1, k) <= PAGES && lb0 <= lb && Under(m0, root, t, k, p)
    requires Tree(m0, place0) && IsRoot(place0, toRoot, toSp) && FitsUserSpace(m0, root, lb0, hi, off)
    requires t in place0 && place0[t].level == k && place0[t].space != toSp && toSp != 0
    requires Copying(mmu, m0, place0, count0, root, toRoot, toUser, toSp, lb0, lb, hi, off, perm, tables, b)
    modifies mmu`mem, mmu`pool, mmu`noWrite, mmu`place, mmu`count
    ensures ok ==> Copying(mmu, m0, place0, count0, root, toRoot, toUser, toSp, lb0,
                           if stop then PAGES else Base(p + 1, k), hi, off, perm, tables, b)
    ensures !ok ==> Stopped(b, m0, count0, root, lb0, hi, tables)
    decreases k
  {
    hide Base, Shr, LeafSlot, Mapping, Under, Hit, Counted, Copied, Tree, DualRoots, AllWaiting, ZeroPage, NoHits,
         Offline, Stopped, AllShareable, Budgeted, Holds;
    var l, o := offset[k - 1], offset;
    ghost var cur := lb;
    while l < ENTRIES
      invariant Idx(lb, k) <= l <= ENTRIES && |o| == 4
      invariant if l == Idx(lb, k) then o == offset else forall j :: 0 <= j < k - 1 ==> o[j] == 0
      invariant cur == if l < ENTRIES then StartOf(lb, p, l, k) else Base(p * 512 + ENTRIES, k - 1)
      invariant Copying(mmu, m0, place0, count0, root, toRoot, toUser, toSp, lb0, cur, hi, off, perm, tables, b)
    {
      EntryBase(p, l, k);
      EndOfEntry(p, l, k);
      StartInside(lb, p, l, k);
      var base := upper + l * Bytes(k);
      if base >= hi {
        NoHitsEnd(m0, root, lb0, cur, PAGES, hi);
        SkipNoHits(m0, mmu.mem, root, toRoot, lb0, cur, PAGES, hi, off, UserFlags(perm), count0, mmu.count);
        ShareableSkip(m0, root, lb0, cur, PAGES, hi, count0, tables);
        return true, true;
      }
      var e := Get(mmu.mem, Slot(t, l));
      assert e == Get(m0, Slot(t, l));
      ghost var next := Base(p * 512 + l + 1, k - 1);
      if e != FREE {
        if k == 1 {
          LeafHit(m0, root, t, p, l, lb0, hi);
          HitInRange(m0, root, lb0, cur, hi);
          ok := CopyPage(mmu, e, base / PAGE_SIZE, off, perm, tables, toRoot, toUser, toSp, m0, place0, count0, root,
                         lb0, hi, b);
          if !ok {
            return false, false;
          }
        } else {
          StartOfEntry(lb, p, l, k, o);
          UnderEntry(m0, root, t, k, p, l);
          TreeEntry(m0, place0, Slot(t, l));
          ok, stop := CopyLevel(mmu, m0, place0, count0, root, lb0, e.frame, k - 1, p * 512 + l, base, o,
                                StartOf(lb, p, l, k), hi, off, perm, tables, toRoot, toUser, toSp, b);
          if !ok || stop {
            return;
          }
        }
      } else {
        NoHitsFree(m0, root, t, k, p, l, lb0, cur, hi);
        SkipNoHits(m0, mmu.mem, root, toRoot, lb0, cur, next, hi, off, UserFlags(perm), count0, mmu.count);
        ShareableSkip(m0, root, lb0, cur, next, hi, count0, tables);
      }
      o := Reset(o, k);
      l := l + 1;
      cur := next;
    }
    BaseOfNext(p, k);
    return true, false;
  }

  lemma HitInRange(m: Mem, root: Mfn, lb: nat, w: nat, hi: nat)
    requires Hit(m, root, lb, w + 1, hi, w)
    ensures Hit(m, root, lb, PAGES, hi, w)
  {
  }

  /** The first page archPageTableUserspaceCopy looks at and the one after the last. */
  function CopyEnd(addr: nat, hi: nat): nat
    requires addr <= hi
  {
    if hi - addr < PAGE_SIZE then addr / PAGE_SIZE else PAGES
  }

  /** So all mapped pages of the range are copied unless the range is shorter than a page and one is mapped. */
  lemma CopyIsWholeIff(m: Mem, root: Mfn, addr: nat, hi: nat)
    requires addr <= hi < PAGES * PAGE_SIZE
    ensures (forall w: nat :: Hit(m, root, addr / PAGE_SIZE, PAGES, hi, w) ==>
               Hit(m, root, addr / PAGE_SIZE, CopyEnd(addr, hi), hi, w)) <==>
            !LeftOut(m, root, addr, hi)
  {
    hide Mapping;
    var lb := addr / PAGE_SIZE;
    if LeftOut(m, root, addr, hi) {
      var w := if lb * PAGE_SIZE < hi && Mapping(m, root, 4, lb) != FREE then lb else lb + 1;
      assert Hit(m, root, lb, PAGES, hi, w) && !Hit(m, root, lb, CopyEnd(addr, hi), hi, w);
    }
  }

  /** archPageTableUserspaceCopy between two address spaces; `off` is the offset in pages. A result of false is a
      failed assertion. */
  method UserspaceCopy(mmu: Mmu, root: Mfn, ghost sp: nat, addr: nat, hi: nat, toRoot: Mfn, toUser: Mfn,
                       ghost toSp: nat, off: int, perm: Permission, tables: set<Mfn>)
    returns (ok: bool)
    requires Offline(mmu, toRoot, toUser, toSp) && IsRoot(mmu.place, root, sp) && sp != toSp
    requires addr <= hi < PAGES * PAGE_SIZE && FitsUserSpace(mmu.mem, root, addr / PAGE_SIZE, hi, off)
    modifies mmu`mem, mmu`pool, mmu`noWrite, mmu`place, mmu`count
    ensures ok ==> Offline(mmu, toRoot, toUser, toSp)
    ensures ok ==> forall t :: t in old(mmu.place) ==> t in mmu.place && mmu.place[t] == old(mmu.place)[t]
    ensures ok ==> OtherSpacesKept(old(mmu.mem), mmu.mem, old(mmu.place), toSp)
    ensures ok ==> UppersFrom(old(mmu.mem), old(mmu.place), mmu.mem, mmu.place)
    ensures ok ==>
              forall w: nat :: w < PAGES && Hit(old(mmu.mem), root, addr / PAGE_SIZE, CopyEnd(addr, hi), hi, w) ==>
                var p := Mapping(mmu.mem, toRoot, 4, w + off);
                p.frame == Mapping(old(mmu.mem), root, 4, w).frame && Grants(p.flags, perm)
    ensures ok ==>
              Copied(old(mmu.mem), mmu.mem, root, toRoot, addr / PAGE_SIZE, CopyEnd(addr, hi), hi, off, UserFlags(perm))
    ensures ok ==> Counted(old(mmu.mem), root, addr / PAGE_SIZE, CopyEnd(addr, hi), hi, old(mmu.count), mmu.count)
    ensures ok ==> forall w: nat :: w < PAGES ==> Mapping(mmu.mem, root, 4, w) == Mapping(old(mmu.mem), root, 4, w)
    ensures
      var need := TablesMissing(old(mmu.mem), toRoot,
                                Targets(old(mmu.mem), root, addr / PAGE_SIZE, CopyEnd(addr, hi), hi, off));
      ok <==> old(CanAllocate(mmu, |need|)) &&
              AllShareable(old(mmu.mem), root, addr / PAGE_SIZE, CopyEnd(addr, hi), hi, old(mmu.count), tables)
  {
    ghost var lb, m0, place0 := addr / PAGE_SIZE, mmu.mem, mmu.place;
    NothingCopied(m0, root, toRoot, lb, hi, off, UserFlags(perm), mmu.count);
    UppersSame(m0, place0);
    if hi - addr < PAGE_SIZE {
      NoTargets(m0, root, toRoot, lb, hi, off, mmu.count, tables);
      return true;
    }
    ghost var ws := Targets(m0, root, lb, PAGES, hi, off);
    ghost var b := Budget(ws, |mmu.pool| - |TablesMissing(m0, toRoot, ws)|,
                          |mmu.noWrite| + |TablesMissing(m0, toRoot, ws)|);
    AffordableIff(b, mmu, toRoot);
    AllBudgeted(b, m0, root, lb, hi, off);
    OffsetsAreIndices(addr);
    TopShr(lb);
    BaseTop();
    var offset := [addr / 0x1000 % 512, addr / 0x20_0000 % 512, addr / 0x4000_0000 % 512, addr / 0x80_0000_0000 % 512];
    var stop;
    ok, stop := CopyLevel(mmu, m0, place0, mmu.count, root, lb, root, 4, 0, 0, offset, lb, hi, off, perm, tables,
                         toRoot, toUser, toSp, b);
    if ok {
      TargetsPaved(m0, mmu.mem, root, toRoot, lb, hi, off, UserFlags(perm));
      SourceKept(m0, mmu.mem, place0, root, sp, toSp);
      CopiedGrants(m0, mmu.mem, root, toRoot, lb, hi, off, perm);
    }
  }

  /** Each page copied has the frame of its source and grants what was asked. */
  lemma CopiedGrants(m0: Mem, m: Mem, root: Mfn, toRoot: Mfn, lb: nat, hi: nat, off: int, perm: Permission)
    requires Copied(m0, m, root, toRoot, lb, PAGES, hi, off, UserFlags(perm)) && FitsUserSpace(m0, root, lb, hi, off)
    ensures forall w: nat :: w < PAGES && Hit(m0, root, lb, PAGES, hi, w) ==>
              var p := Mapping(m, toRoot, 4, w + off);
              p.frame == Mapping(m0, root, 4, w).frame && Grants(p.flags, perm)
  {
    hide Mapping, UserFlags, Grants;
    forall w: nat | w < PAGES && Hit(m0, root, lb, PAGES, hi, w)
      ensures
        var p := Mapping(m, toRoot, 4, w + off);
        p.frame == Mapping(m0, root, 4, w).frame && Grants(p.flags, perm)
    {
      var wp: nat := w + off;
      assert wp - off == w;
    }
  }

  lemma NoTargets(m: Mem, root: Mfn, toRoot: Mfn, lb: nat, hi: nat, off: int, count0: map<Mfn, nat>, tables: set<Mfn>)
    ensures TablesMissing(m, toRoot, Targets(m, root, lb, lb, hi, off)) == {}
    ensures AllShareable(m, root, lb, lb, hi, count0, tables)
  {
    hide TableAt, Mapping;
    assert Targets(m, root, lb, lb, hi, off) == {};
  }

  lemma AllBudgeted(b: Budget, m: Mem, root: Mfn, lb: nat, hi: nat, off: int)
    requires b.ws == Targets(m, root, lb, PAGES, hi, off) && FitsUserSpace(m, root, lb, hi, off)
    ensures Budgeted(b, m, root, lb, hi, off)
  {
    hide Mapping;
    forall w: nat | w < PAGES && Hit(m, root, lb, PAGES, hi, w)
      ensures w + off in b.ws
    {
      assert Moved(w, off) in b.ws;
    }
  }

  /** After the copy every target has its path. */
  lemma TargetsPaved(m0: Mem, m: Mem, root: Mfn, toRoot: Mfn, lb: nat, hi: nat, off: int, flags: bv12)
    requires Copied(m0, m, root, toRoot, lb, PAGES, hi, off, flags) && flags != 0
    requires FitsUserSpace(m0, root, lb, hi, off)
    ensures TablesMissing(m, toRoot, Targets(m0, root, lb, PAGES, hi, off)) == {}
  {
    hide LeafSlot, TableAt;
    var ws := Targets(m0, root, lb, PAGES, hi, off);
    forall v | v in ws
      ensures LeafSlot(m, toRoot, 4, v).Some?
    {
      var w: nat :| w < PAGES && Hit(m0, root, lb, PAGES, hi, w) && v == Moved(w, off);
      assert Mapping(m, toRoot, 4, v) != FREE;
    }
    NoneMissing(m, toRoot, ws);
  }

  lemma NothingCopied(m: Mem, root: Mfn, toRoot: Mfn, lb: nat, hi: nat, off: int, flags: bv12, count: map<Mfn, nat>)
    ensures Copied(m, m, root, toRoot, lb, lb, hi, off, flags)
    ensures Counted(m, root, lb, lb, hi, count, count)
  {
    forall f
      ensures HitPages(m, root, lb, lb, hi, f) == {}
    {
    }
  }

  lemma SourceKept(m0: Mem, m: Mem, place0: Places, root: Mfn, sp: nat, toSp: nat)
    requires Tree(m0, place0) && IsRoot(place0, root, sp) && sp != toSp && toSp != 0
    requires OtherSpacesKept(m0, m, place0, toSp)
    ensures forall w: nat :: w < PAGES ==> Mapping(m, root, 4, w) == Mapping(m0, root, 4, w)
  {
    forall w: nat | w < PAGES
      ensures Mapping(m, root, 4, w) == Mapping(m0, root, 4, w)
    {
      RootAt(place0, root, sp, w);
      WalkSame(m0, m, place0, root, sp, 4, w);
      WalkPlace(m0, place0, root, sp, 4, w);
    }
  }

  /** The pages a root maps to frame `f`. */
  ghost function Names(m: Mem, root: Mfn, f: Mfn): set<nat> {
    set w: nat | w < PAGES && Mapping(m, root, 4, w) != FREE && Mapping(m, root, 4, w).frame == f
  }

  /** When no copy replaces a page, the count of every frame rises exactly as the number of pages that name it, over
      both address spaces. */
  lemma CountsMatchEntries(m0: Mem, m: Mem, root: Mfn, toRoot: Mfn, lb: nat, ub: nat, hi: nat, off: int, flags: bv12,
                           count0: map<Mfn, nat>, count: map<Mfn, nat>, f: Mfn)
    requires Copied(m0, m, root, toRoot, lb, ub, hi, off, flags) && flags != 0
    requires Counted(m0, root, lb, ub, hi, count0, count)
    requires forall w: nat :: w < PAGES ==> Mapping(m, root, 4, w) == Mapping(m0, root, 4, w)
    requires forall w: nat :: w < PAGES && Hit(m0, root, lb, ub, hi, w) ==>
               0 <= w + off < PAGES && Mapping(m0, toRoot, 4, w + off) == FREE
    ensures CountOf(count, f) - CountOf(count0, f) ==
            |Names(m, root, f)| + |Names(m, toRoot, f)| - (|Names(m0, root, f)| + |Names(m0, toRoot, f)|)
  {
    hide Mapping, Copied, Hit;
    var hits := HitPages(m0, root, lb, ub, hi, f);
    assert Names(m, root, f) == Names(m0, root, f);
    assert forall w :: w in hits ==> w + off >= 0;
    ShiftSize(hits, off);
    ShiftedHas(hits, off);
    NamesAfterCopy(m0, m, root, toRoot, lb, ub, hi, off, flags, f);
  }

  lemma NamesAfterCopy(m0: Mem, m: Mem, root: Mfn, toRoot: Mfn, lb: nat, ub: nat, hi: nat, off: int, flags: bv12,
                       f: Mfn)
    requires Copied(m0, m, root, toRoot, lb, ub, hi, off, flags) && flags != 0
    requires forall w: nat :: w < PAGES && Hit(m0, root, lb, ub, hi, w) ==>
               0 <= w + off < PAGES && Mapping(m0, toRoot, 4, w + off) == FREE
    ensures
      var copies := Shifted(HitPages(m0, root, lb, ub, hi, f), off);
      Names(m, toRoot, f) == Names(m0, toRoot, f) + copies && Names(m0, toRoot, f) !! copies
  {
    hide Mapping;
    var hits := HitPages(m0, root, lb, ub, hi, f);
    assert forall w :: w in hits ==> w + off >= 0;
    ShiftedHas(hits, off);
    forall v: nat
      ensures v in Names(m, toRoot, f) <==> v in Names(m0, toRoot, f) || v - off in hits
      ensures v in Names(m0, toRoot, f) ==> v - off !in hits
    {
      if Hit(m0, root, lb, ub, hi, v - off) {
        var w: nat := v - off;
        assert Mapping(m0, toRoot, 4, w + off) == FREE;
      }
    }
  }

  function Moved(w: nat, off: int): nat {
    if w + off >= 0 then w + off else 0
  }

  /** The pages of `ws`, moved by `off`. */
  ghost function Shifted(ws: set<nat>, off: int): set<nat> {
    set w | w in ws :: Moved(w, off)
  }

  lemma ShiftedHas(ws: set<nat>, off: int)
    requires forall w :: w in ws ==> w + off >= 0
    ensures forall v: nat :: v in Shifted(ws, off) <==> v - off in ws
  {
    forall v: nat
      ensures v in Shifted(ws, off) <==> v - off in ws
    {
      if v - off in ws {
        assert Moved(v - off, off) == v;
      }
    }
  }

  lemma ShiftRemove(ws: set<nat>, w: nat, off: int)
    requires w in ws && forall v :: v in ws ==> v + off >= 0
    ensures Shifted(ws, off) == Shifted(ws - {w}, off) + {Moved(w, off)}
    ensures Moved(w, off) !in Shifted(ws - {w}, off)
  {
    hide Shifted;
    ShiftedHas(ws, off);
    ShiftedHas(ws - {w}, off);
  }

  lemma {:induction false} ShiftSize(ws: set<nat>, off: int)
    requires forall w :: w in ws ==> w + off >= 0
    ensures |Shifted(ws, off)| == |ws|
    decreases ws
  {
    if ws == {} {
      assert Shifted(ws, off) == {};
    } else {
      var w :| w in ws;
      ShiftSize(ws - {w}, off);
      ShiftRemove(ws, w, off);
    }
  }
}
