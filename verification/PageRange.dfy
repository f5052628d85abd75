/** Changing the flags of a range of pages through the update queue: _rangeSet and archPageTableProtectRange. */
module PageRange {
  import opened Paging
  import opened Mmu
  import opened Hardware
  import opened PageNext

  /** The leaf slots of the mapped pages from `lb` up to `ub` that start below address `hi`. */
  ghost function HitSlots(m: Mem, root: Mfn, lb: nat, ub: nat, hi: nat): set<Slot> {
    set w: nat |
      lb <= w < ub && w * PAGE_SIZE < hi && LeafSlot(m, root, 4, w).Some? && Mapping(m, root, 4, w) != FREE ::
      LeafSlot(m, root, 4, w).value
  }

  /** Memory `m` is `m0` with the entries `hits` given new flags. */
  ghost predicate Reflagged(m0: Mem, m: Mem, hits: set<Slot>, flags: bv12) {
    forall s :: Get(m, s) == if s in hits then Pte(Get(m0, s).frame, flags) else Get(m0, s)
  }

  /** Two memories have the same entries in use, naming the same frames: walks cannot tell them apart. */
  ghost predicate SameShape(m: Mem, n: Mem) {
    forall s :: Get(n, s).frame == Get(m, s).frame && (Get(n, s) == FREE <==> Get(m, s) == FREE)
  }

  /** Table `t` of level `k` is on the path of all pages of node `p`. */
  ghost predicate Under(m: Mem, root: Mfn, t: Mfn, k: nat, p: nat)
    requires k >= 1
  {
    forall w: nat :: w < PAGES && Shr(w, k) == p ==> LeafSlot(m, root, 4, w) == LeafSlot(m, t, k, w)
  }

  lemma UnderEntry(m: Mem, root: Mfn, t: Mfn, k: nat, p: nat, l: nat)
    requires k >= 2 && l < 512 && Under(m, root, t, k, p) && Get(m, Slot(t, l)) != FREE
    ensures Under(m, root, Get(m, Slot(t, l)).frame, k - 1, p * 512 + l)
  {
    forall w: nat | w < PAGES && Shr(w, k - 1) == p * 512 + l
      ensures LeafSlot(m, root, 4, w) == LeafSlot(m, Get(m, Slot(t, l)).frame, k - 1, w)
    {
      assert Shr(w, k) == p && Idx(w, k) == l;
    }
  }

  /** The walk of an entry starts inside the entry's node and not before that of its table. */
  lemma StartInside(lb: nat, p: nat, l: nat, k: nat)
    requires 1 <= k <= 4 && Shr(lb, k) == p && Idx(lb, k) <= l < 512
    ensures
      var cur := StartOf(lb, p, l, k);
      && Base(p * 512 + l, k - 1) <= cur < Base(p * 512 + l + 1, k - 1) && lb <= cur
      && (k == 1 ==> cur == Base(p * 512 + l, 0))
  {
    var q, cur := p * 512 + l, StartOf(lb, p, l, k);
    ShrBase(q, k - 1);
    BaseShr(q, cur, k - 1);
    BaseShr(q + 1, cur, k - 1);
    BaseShr(q, lb, k - 1);
    assert Shr(cur, k - 1) == q;
  }

  /** No page below a free entry is mapped. */
  lemma FreeEntry(m: Mem, root: Mfn, t: Mfn, k: nat, p: nat, l: nat, w: nat)
    requires 1 <= k <= 4 && l < 512 && Under(m, root, t, k, p) && Get(m, Slot(t, l)) == FREE && w < PAGES
    requires Base(p * 512 + l, k - 1) <= w < Base(p * 512 + l + 1, k - 1)
    ensures Mapping(m, root, 4, w) == FREE
  {
    hide Base;
    var q := p * 512 + l;
    BaseShr(q, w, k - 1);
    BaseShr(q + 1, w, k - 1);
    EntryOf(w, k, p, l);
  }

  lemma EntryOf(w: nat, k: nat, p: nat, l: nat)
    requires k >= 1 && l < 512 && Shr(w, k - 1) == p * 512 + l
    ensures Shr(w, k) == p && Idx(w, k) == l
  {
  }

  /** No hits below a free entry. */
  lemma HitsFree(m: Mem, root: Mfn, t: Mfn, k: nat, p: nat, l: nat, lb: nat, cur: nat, hi: nat)
    requires 1 <= k <= 4 && l < 512 && Under(m, root, t, k, p) && Get(m, Slot(t, l)) == FREE
    requires Base(p * 512 + l, k - 1) <= cur <= Base(p * 512 + l + 1, k - 1) <= PAGES
    ensures HitSlots(m, root, lb, Base(p * 512 + l + 1, k - 1), hi) == HitSlots(m, root, lb, cur, hi)
  {
    hide Base, Under, Mapping, LeafSlot;
    var from, to := Base(p * 512 + l, k - 1), Base(p * 512 + l + 1, k - 1);
    forall w: nat | from <= w < to
      ensures Mapping(m, root, 4, w) == FREE
    {
      FreeEntry(m, root, t, k, p, l, w);
    }
  }

  /** A leaf in use is a hit. */
  lemma HitsLeaf(m: Mem, root: Mfn, t: Mfn, p: nat, l: nat, lb: nat, hi: nat)
    requires l < 512 && Under(m, root, t, 1, p) && Get(m, Slot(t, l)) != FREE
    requires lb <= Base(p * 512 + l, 0) < PAGES && Base(p * 512 + l, 0) * PAGE_SIZE < hi
    ensures HitSlots(m, root, lb, Base(p * 512 + l + 1, 0), hi) ==
            HitSlots(m, root, lb, Base(p * 512 + l, 0), hi) + {Slot(t, l)}
  {
    var w := p * 512 + l;
    assert Shr(w, 0) == w && Shr(w, 1) == p && Idx(w, 1) == l;
    assert LeafSlot(m, root, 4, w) == Some(Slot(t, l));
    forall s
      ensures s in HitSlots(m, root, lb, w + 1, hi) <==> s in HitSlots(m, root, lb, w, hi) + {Slot(t, l)}
    {
    }
  }

  /** At or after `hi` there are no hits. */
  lemma HitsEnd(m: Mem, root: Mfn, lb: nat, ub: nat, hi: nat)
    requires hi <= ub * PAGE_SIZE && ub <= PAGES
    ensures HitSlots(m, root, lb, ub, hi) == HitSlots(m, root, lb, PAGES, hi)
  {
  }

  /** A leaf entry read from memory gets new flags in the memory that the queue makes of it. */
  lemma ReflagLeaf(m0: Mem, live: Mem, eff: Mem, hits: set<Slot>, s: Slot, flags: bv12)
    requires SameShape(m0, live) && SameShape(m0, eff) && Reflagged(m0, eff, hits, flags)
    requires Get(live, s) != FREE && flags != 0
    ensures SameShape(m0, eff[s := Pte(Get(live, s).frame, flags)])
    ensures Reflagged(m0, eff[s := Pte(Get(live, s).frame, flags)], hits + {s}, flags)
    ensures Get(m0, s) != FREE
  {
  }

  /** The frame a walk finds is the one that was there at the start. */
  lemma ShapeEntry(m: Mem, n: Mem, s: Slot)
    requires SameShape(m, n)
    ensures Get(n, s).frame == Get(m, s).frame && (Get(n, s) == FREE <==> Get(m, s) == FREE)
  {
  }

  /** One of the four nested loops of _rangeSet with the loops inside it; `m0` is memory before the walk. */
  method RangeLevel(mmu: Mmu, ghost m0: Mem, ghost root: Mfn, ghost lb0: nat, t: Mfn, k: nat, ghost p: nat, upper: nat,
                    offset: seq<nat>, ghost lb: nat, hi: nat, flags: bv12)
    returns (stop: bool)
    requires 1 <= k <= 4 && Shr(lb, k) == p && upper == Base(p, k) * PAGE_SIZE && Offsets(offset, k, lb)
    requires Base(p + 1, k) <= PAGES && lb0 <= lb && flags != 0 && Under(m0, root, t, k, p)
    requires SameShape(m0, mmu.mem) && SameShape(m0, mmu.Eff())
    requires Reflagged(m0, mmu.Eff(), HitSlots(m0, root, lb0, lb, hi), flags)
    modifies mmu`mem, mmu`queue, mmu`history
    ensures SameShape(m0, mmu.mem) && SameShape(m0, mmu.Eff())
    ensures Reflagged(m0, mmu.Eff(), HitSlots(m0, root, lb0, if stop then PAGES else Base(p + 1, k), hi), flags)
    decreases k
  {
    hide Base, Shr, HitSlots, LeafSlot, Under, SameShape, Reflagged;
    var l, off := offset[k - 1], offset;
    ghost var cur := lb;
    while l < ENTRIES
      invariant Idx(lb, k) <= l <= ENTRIES && |off| == 4
      invariant if l == Idx(lb, k) then off == offset else forall j :: 0 <= j < k - 1 ==> off[j] == 0
      invariant cur == if l < ENTRIES then StartOf(lb, p, l, k) else Base(p * 512 + ENTRIES, k - 1)
      invariant SameShape(m0, mmu.mem) && SameShape(m0, mmu.Eff())
      invariant Reflagged(m0, mmu.Eff(), HitSlots(m0, root, lb0, cur, hi), flags)
    {
      EntryBase(p, l, k);
      EndOfEntry(p, l, k);
      StartInside(lb, p, l, k);
      var base := upper + l * Bytes(k);
      if base >= hi {
        HitsEnd(m0, root, lb0, cur, hi);
        return true;
      }
      var e := Get(mmu.mem, Slot(t, l));
      ShapeEntry(m0, mmu.mem, Slot(t, l));
      if e != FREE {
        if k == 1 {
          HitsLeaf(m0, root, t, p, l, lb0, hi);
          ReflagLeaf(m0, mmu.mem, mmu.Eff(), HitSlots(m0, root, lb0, cur, hi), Slot(t, l), flags);
          mmu.DeferredUpdate(Slot(t, l), Pte(e.frame, flags));
        } else {
          StartOfEntry(lb, p, l, k, off);
          UnderEntry(m0, root, t, k, p, l);
          stop := RangeLevel(mmu, m0, root, lb0, e.frame, k - 1, p * 512 + l, base, off, StartOf(lb, p, l, k), hi,
                             flags);
          if stop {
            return;
          }
        }
      } else {
        HitsFree(m0, root, t, k, p, l, lb0, cur, hi);
      }
      off := Reset(off, k);
      l := l + 1;
      cur := Base(p * 512 + l, k - 1);
    }
    BaseOfNext(p, k);
    stop := false;
  }

  /** The case _rangeSet and archPageTableUserspaceCopy leave out: `addr` and `hi` are less than a page apart, and yet a
      page of the range is mapped. It is that of `addr` or the next one. */
  predicate LeftOut(m: Mem, root: Mfn, addr: nat, hi: nat) {
    && hi - addr < PAGE_SIZE
    && (|| (addr / PAGE_SIZE * PAGE_SIZE < hi && Mapping(m, root, 4, addr / PAGE_SIZE) != FREE)
        || ((addr / PAGE_SIZE + 1) * PAGE_SIZE < hi && Mapping(m, root, 4, addr / PAGE_SIZE + 1) != FREE))
  }

  /** The entries re-flagged are those of all mapped pages of the range unless that is the case. */
  lemma RangeIsWholeIff(m: Mem, root: Mfn, addr: nat, hi: nat)
    requires addr <= hi < PAGES * PAGE_SIZE
    ensures RangeSlots(m, root, addr, hi) == HitSlots(m, root, addr / PAGE_SIZE, PAGES, hi) <==>
            !LeftOut(m, root, addr, hi)
  {
    hide LeafSlot;
    var lb, all := addr / PAGE_SIZE, HitSlots(m, root, addr / PAGE_SIZE, PAGES, hi);
    if hi - addr < PAGE_SIZE {
      if LeftOut(m, root, addr, hi) {
        var w := if lb * PAGE_SIZE < hi && Mapping(m, root, 4, lb) != FREE then lb else lb + 1;
        assert LeafSlot(m, root, 4, w).value in all;
      } else {
        assert forall w: nat :: lb <= w && w * PAGE_SIZE < hi ==> w == lb || w == lb + 1;
        assert all == {};
      }
    }
  }

  /** _rangeSet */
  method RangeSet(mmu: Mmu, root: Mfn, addr: nat, hi: nat, flags: bv12)
    requires mmu.queue == [] && addr <= hi < PAGES * PAGE_SIZE && flags != 0
    modifies mmu`mem, mmu`queue, mmu`history
    ensures Reflagged(old(mmu.mem), mmu.Eff(), RangeSlots(old(mmu.mem), root, addr, hi), flags)
  {
    if hi - addr < PAGE_SIZE {
      return;
    }
    ghost var lb := addr / PAGE_SIZE;
    OffsetsAreIndices(addr);
    TopShr(lb);
    BaseTop();
    var offset := [addr / 0x1000 % 512, addr / 0x20_0000 % 512, addr / 0x4000_0000 % 512, addr / 0x80_0000_0000 % 512];
    var _ := RangeLevel(mmu, mmu.mem, root, lb, root, 4, 0, 0, offset, lb, hi, flags);
  }

  lemma BaseTop()
    ensures Base(0, 4) == 0 && Base(1, 4) == PAGES
  {
    assert Base(1, 4) == Base(512, 3) == Base(0x4_0000, 2) == Base(0x800_0000, 1) == 0x10_0000_0000;
    BaseZero(4);
  }

  /** The leaf slots _rangeSet changes: those of the mapped pages of [addr, hi), unless the two are less than a
      page apart. */
  ghost function RangeSlots(m: Mem, root: Mfn, addr: nat, hi: nat): set<Slot>
    requires addr <= hi
  {
    if hi - addr < PAGE_SIZE then {} else HitSlots(m, root, addr / PAGE_SIZE, PAGES, hi)
  }

  /** archPageTableProtectRange. The result does not mention the capacity of the queue. */
  method ProtectRange(mmu: Mmu, root: Mfn, addr: nat, hi: nat, perm: Permission)
    requires mmu.queue == [] && addr <= hi < PAGES * PAGE_SIZE
    modifies mmu`mem, mmu`queue, mmu`history
    ensures mmu.queue == []
    ensures Reflagged(old(mmu.mem), mmu.mem, RangeSlots(old(mmu.mem), root, addr, hi), UserFlags(perm))
    ensures forall s :: s in RangeSlots(old(mmu.mem), root, addr, hi) ==>
              Get(mmu.mem, s).frame == Get(old(mmu.mem), s).frame && Grants(Get(mmu.mem, s).flags, perm)
  {
    hide Grants, UserFlags, RangeSlots;
    RangeSet(mmu, root, addr, hi, UserFlags(perm));
    mmu.DoUpdate();
  }

  /** What re-flagging a range means for a tree: its pages keep their frames and get the flags, every other page of the
      root is mapped as before, and the tree stays a tree. */
  lemma ReflaggedMapping(m0: Mem, m: Mem, place: Places, root: Mfn, sp: nat, addr: nat, hi: nat, flags: bv12)
    requires Tree(m0, place) && IsRoot(place, root, sp) && addr <= hi && flags != 0
    requires Reflagged(m0, m, RangeSlots(m0, root, addr, hi), flags)
    ensures Tree(m, place) && UppersFrom(m0, place, m, place)
    ensures forall w: nat :: w < PAGES ==>
              Mapping(m, root, 4, w) ==
              if && hi - addr >= PAGE_SIZE && addr / PAGE_SIZE <= w && w * PAGE_SIZE < hi
                 && Mapping(m0, root, 4, w) != FREE
              then Pte(Mapping(m0, root, 4, w).frame, flags)
              else Mapping(m0, root, 4, w)
  {
    var hits := RangeSlots(m0, root, addr, hi);
    forall s | s in hits
      ensures s.page in place && place[s.page].level == 1
    {
      var w: nat :| w < PAGES && LeafSlot(m0, root, 4, w) == Some(s);
      RootAt(place, root, sp, w);
      WalkPlace(m0, place, root, sp, 4, w);
    }
    assert forall t, i: nat {:trigger Get(m, Slot(t, i))} ::
        t in place && place[t].level >= 2 ==> Get(m, Slot(t, i)) == Get(m0, Slot(t, i));
    forall w: nat | w < PAGES
      ensures Mapping(m, root, 4, w) ==
              if && hi - addr >= PAGE_SIZE && addr / PAGE_SIZE <= w && w * PAGE_SIZE < hi
                 && Mapping(m0, root, 4, w) != FREE
              then Pte(Mapping(m0, root, 4, w).frame, flags)
              else Mapping(m0, root, 4, w)
    {
      RootAt(place, root, sp, w);
      WalkSame(m0, m, place, root, sp, 4, w);
      if LeafSlot(m0, root, 4, w).Some? && LeafSlot(m0, root, 4, w).value in hits {
        var s := LeafSlot(m0, root, 4, w).value;
        var v: nat :| v < PAGES && LeafSlot(m0, root, 4, v) == Some(s) && addr / PAGE_SIZE <= v && v * PAGE_SIZE < hi &&
                      Mapping(m0, root, 4, v) != FREE;
        RootAt(place, root, sp, v);
        LeafSlotInjective(m0, place, root, sp, w, root, sp, v);
      }
    }
  }
}
