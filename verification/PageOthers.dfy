/** What a change to one page table does to the others in memory: they share the tables of the kernel half. */
module PageOthers {
  import opened Paging

  /** Memory `m` has the entries of the address spaces other than `sp` as `m0` has them; those of the kernel half, which
      all spaces share, are not meant. */
  ghost predicate OthersKept(m0: Mem, m: Mem, place0: Places, sp: nat) {
    forall s: Slot :: s.page in place0 && place0[s.page].space != 0 && place0[s.page].space != sp ==>
      Get(m, s) == Get(m0, s)
  }

  /** The mapping of a page with write access taken from the entries `own`. */
  ghost function AsMarked(m: Mem, r: Mfn, wp: nat, own: set<Slot>): Pte {
    var s := LeafSlot(m, r, 4, wp);
    if s.Some? && s.value in own then ClearRw(Mapping(m, r, 4, wp)) else Mapping(m, r, 4, wp)
  }

  /** From `m0` to `m` root `r` keeps the leaf slots it has. A page `wp` among `ws` whose leaf slot it shares with
      `root` is mapped as from there; otherwise the mapping at most loses write access, and it does iff its entry is
      among `own`. */
  ghost predicate RootAfter(m0: Mem, m: Mem, root: Mfn, r: Mfn, own: set<Slot>, ws: set<nat>, wp: nat) {
    && (LeafSlot(m0, r, 4, wp).Some? ==> LeafSlot(m, r, 4, wp) == LeafSlot(m0, r, 4, wp))
    && Mapping(m, r, 4, wp) ==
       if wp in ws && LeafSlot(m, r, 4, wp) == LeafSlot(m, root, 4, wp) then Mapping(m, root, 4, wp)
       else AsMarked(m0, r, wp, own)
  }

  /** So for every root but `userRoot`. */
  ghost predicate RootsElsewhere(m0: Mem, m: Mem, place0: Places, root: Mfn, userRoot: Mfn, own: set<Slot>,
                                 ws: set<nat>) {
    forall r, sq, wp: nat :: IsRoot(place0, r, sq) && r != userRoot && wp < PAGES ==>
      RootAfter(m0, m, root, r, own, ws, wp)
  }

  lemma RootAfterTrans(m0: Mem, m: Mem, n: Mem, root: Mfn, r: Mfn, own0: set<Slot>, own1: set<Slot>, ws0: set<nat>,
                       ws1: set<nat>, wp: nat)
    requires RootAfter(m0, m, root, r, own0, ws0, wp) && RootAfter(m, n, root, r, own1, ws1, wp)
    requires LeafSlot(m, root, 4, wp).Some? ==> LeafSlot(n, root, 4, wp) == LeafSlot(m, root, 4, wp)
    ensures RootAfter(m0, n, root, r, own0 + own1, ws0 + ws1, wp)
  {
    hide LeafSlot;
    assert forall e: Pte :: ClearRw(ClearRw(e)) == ClearRw(e) by {
      forall e: Pte ensures ClearRw(ClearRw(e)) == ClearRw(e) { ClearAgain(e.flags); }
    }
    assert ClearRw(FREE) == FREE;
  }

  lemma ClearAgain(b: bv12)
    ensures b & 0xFFD & 0xFFD == b & 0xFFD
  {
  }

  lemma LeafKept(m: Mem, n: Mem, root: Mfn, r: Mfn, own: set<Slot>, ws: set<nat>, wp: nat)
    requires RootAfter(m, n, root, r, own, ws, wp)
    ensures LeafSlot(m, r, 4, wp).Some? ==> LeafSlot(n, r, 4, wp) == LeafSlot(m, r, 4, wp)
  {
  }

  lemma RootsElsewhereTrans(m0: Mem, m: Mem, n: Mem, place0: Places, place: Places, root: Mfn, userRoot: Mfn, sp: nat,
                            own0: set<Slot>, own1: set<Slot>, ws0: set<nat>, ws1: set<nat>)
    requires IsRoot(place0, root, sp) && root != userRoot
    requires forall t :: t in place0 ==> t in place && place[t] == place0[t]
    requires RootsElsewhere(m0, m, place0, root, userRoot, own0, ws0)
    requires RootsElsewhere(m, n, place, root, userRoot, own1, ws1)
    ensures RootsElsewhere(m0, n, place0, root, userRoot, own0 + own1, ws0 + ws1)
  {
    hide RootAfter;
    forall r, sq, wp: nat | IsRoot(place0, r, sq) && r != userRoot && wp < PAGES
      ensures RootAfter(m0, n, root, r, own0 + own1, ws0 + ws1, wp)
    {
      assert IsRoot(place, r, sq) && IsRoot(place, root, sp);
      LeafKept(m, n, root, root, own1, ws1, wp);
      RootAfterTrans(m0, m, n, root, r, own0, own1, ws0, ws1, wp);
    }
  }

  /** A walk that does not pass a slot is not changed by a write to it. */
  lemma {:induction false} WalkMisses(m: Mem, place: Places, u: Mfn, sq: nat, j: nat, wp: nat, s: Slot, c: Pte)
    requires Tree(m, place) && At(place, u, sq, j, wp) && s.page in place
    requires
      var k := place[s.page].level;
      1 <= k <= j && s.idx == Idx(wp, k) ==> TableAt(m, u, j, wp, k) != Some(s.page)
    ensures LeafSlot(m[s := c], u, j, wp) == LeafSlot(m, u, j, wp)
    ensures Mapping(m[s := c], u, j, wp) == Mapping(m, u, j, wp)
    decreases j
  {
    if j > 1 {
      var e := Get(m, Slot(u, Idx(wp, j)));
      if e != FREE {
        ChildNode(sq, j, wp);
        WalkMisses(m, place, e.frame, sq, j - 1, wp, s, c);
      }
    }
  }

  /** The user pages of another address space are mapped as before, from both of its roots. */
  lemma OtherUserPages(m0: Mem, m: Mem, place0: Places, sp: nat, r: Mfn, sq: nat, wp: nat)
    requires Tree(m0, place0) && OthersKept(m0, m, place0, sp) && IsRoot(place0, r, sq) && sq != 0 && sq != sp
    requires wp < USER_PAGES
    ensures LeafSlot(m, r, 4, wp) == LeafSlot(m0, r, 4, wp) && Mapping(m, r, 4, wp) == Mapping(m0, r, 4, wp)
  {
    hide Tree;
    RootAt(place0, r, sq, wp);
    WalkSame(m0, m, place0, r, sq, 4, wp);
    WalkPlace(m0, place0, r, sq, 4, wp);
  }
}
