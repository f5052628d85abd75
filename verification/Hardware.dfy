/** What the processor makes of the page tables: it walks only through entries that are present, and reaches a page in
    user mode for writing only if every entry on the way is writable and of user mode. */
module Hardware {
  import opened Paging

  /** Bits 0, 1 and 2 of an entry are set. */
  predicate Passable(flags: bv12) { flags & 0x007 == 0x007 }

  /** The processor's walk of a virtual address from the root: the leaf entry it ends at, or the unused entry when an
      entry on the way does not let it pass. */
  function HardwareEntry(m: Mem, root: Mfn, vaddr: nat): Pte {
    var e4 := Get(m, Slot(root, vaddr / 0x80_0000_0000 % 512));
    if !Passable(e4.flags) then Pte(0, 0) else
    var e3 := Get(m, Slot(e4.frame, vaddr / 0x4000_0000 % 512));
    if !Passable(e3.flags) then Pte(0, 0) else
    var e2 := Get(m, Slot(e3.frame, vaddr / 0x20_0000 % 512));
    if !Passable(e2.flags) then Pte(0, 0) else
    Get(m, Slot(e2.frame, vaddr / 0x1000 % 512))
  }

  /** Every entry in use of an upper table lets the processor pass. */
  ghost predicate AllPassable(m: Mem, place: Places) {
    forall t, i: nat {:trigger Get(m, Slot(t, i))} ::
      t in place && place[t].level >= 2 && i < ENTRIES && Get(m, Slot(t, i)) != FREE ==>
        Passable(Get(m, Slot(t, i)).flags)
  }

  /** Then the processor finds what the page table maps the page to, at every address. */
  lemma HardwareFinds(m: Mem, place: Places, root: Mfn, sp: nat, vaddr: nat)
    requires Tree(m, place) && IsRoot(place, root, sp) && AllPassable(m, place) && vaddr < 0x1_0000_0000_0000
    ensures HardwareEntry(m, root, vaddr) == Mapping(m, root, 4, vaddr / 4096)
  {
    var vp := vaddr / 4096;
    OffsetsAreIndices(vaddr);
    RootAt(place, root, sp, vp);
    var e4 := Get(m, Slot(root, Idx(vp, 4)));
    if e4 != FREE {
      ChildNode(sp, 4, vp);
      var e3 := Get(m, Slot(e4.frame, Idx(vp, 3)));
      if e3 != FREE {
        ChildNode(sp, 3, vp);
        var e2 := Get(m, Slot(e3.frame, Idx(vp, 2)));
        if e2 != FREE {
          ChildNode(sp, 2, vp);
          assert LeafSlot(m, e2.frame, 1, vp) == Some(Slot(e2.frame, Idx(vp, 1)));
        }
        assert LeafSlot(m, e3.frame, 2, vp) == if e2 == FREE then None else Some(Slot(e2.frame, Idx(vp, 1)));
      }
      assert LeafSlot(m, e4.frame, 3, vp) == if e3 == FREE then None else LeafSlot(m, e3.frame, 2, vp);
    }
  }

  // ------------------------------------------------------------------ flags of the upper entries

  /** The upper entries in use have flags among `fs`. */
  ghost predicate UppersHave(m: Mem, place: Places, fs: set<bv12>) {
    forall t, i: nat {:trigger Get(m, Slot(t, i))} ::
      t in place && place[t].level >= 2 && i < ENTRIES && Get(m, Slot(t, i)) != FREE ==> Get(m, Slot(t, i)).flags in fs
  }

  /** Upper entries in use of `m` have flags that an upper entry of `m0` had, or those the source makes new ones with:
      present, writable, user, accessed and dirty. */
  ghost predicate UppersFrom(m0: Mem, place0: Places, m: Mem, place: Places) {
    forall fs :: UppersHave(m0, place0, fs) && 0x067 in fs ==> UppersHave(m, place, fs)
  }

  /** So the processor can pass if it could before. */
  lemma PassableLasts(m0: Mem, place0: Places, m: Mem, place: Places)
    requires UppersFrom(m0, place0, m, place) && AllPassable(m0, place0)
    ensures AllPassable(m, place)
  {
    var fs := (set s | s in m0 && Passable(m0[s].flags) :: m0[s].flags) + {0x067};
    assert UppersHave(m0, place0, fs) by {
      forall t, i: nat | t in place0 && place0[t].level >= 2 && i < ENTRIES && Get(m0, Slot(t, i)) != FREE
        ensures Get(m0, Slot(t, i)).flags in fs
      {
        assert Slot(t, i) in m0 && Passable(m0[Slot(t, i)].flags);
      }
    }
    assert UppersHave(m, place, fs);
  }

  /** What a root maps a page to after such a change is what the processor finds there. */
  lemma HardwareReaches(m0: Mem, place0: Places, m: Mem, place: Places, root: Mfn, sp: nat, vp: nat)
    requires UppersFrom(m0, place0, m, place) && AllPassable(m0, place0) && Tree(m, place) && IsRoot(place, root, sp)
    requires vp < PAGES
    ensures AllPassable(m, place) && HardwareEntry(m, root, vp * 4096) == Mapping(m, root, 4, vp)
  {
    hide UppersFrom, Tree, AllPassable, HardwareEntry, Mapping;
    PassableLasts(m0, place0, m, place);
    HardwareFinds(m, place, root, sp, vp * 4096);
  }

  lemma UppersSame(m: Mem, place: Places)
    ensures UppersFrom(m, place, m, place)
  {
  }

  lemma UppersTrans(m0: Mem, place0: Places, m1: Mem, place1: Places, m2: Mem, place2: Places)
    requires UppersFrom(m0, place0, m1, place1) && UppersFrom(m1, place1, m2, place2)
    ensures UppersFrom(m0, place0, m2, place2)
  {
    hide UppersHave;
  }

  /** One write: of a leaf entry, of an entry with the source's flags, or of what an upper entry holds. */
  lemma UppersPut(m: Mem, place: Places, s: Slot, p: Pte)
    requires
      || s.page !in place || place[s.page].level < 2 || p == FREE || p.flags == 0x067
      || exists u: Slot :: u.page in place && place[u.page].level >= 2 && u.idx < ENTRIES && p == Get(m, u)
    ensures UppersFrom(m, place, m[s := p], place)
  {
    forall fs | UppersHave(m, place, fs) && 0x067 in fs
      ensures UppersHave(m[s := p], place, fs)
    {
      assert forall t, i: nat {:trigger Get(m[s := p], Slot(t, i))} ::
          Get(m[s := p], Slot(t, i)) == if Slot(t, i) == s then p else Get(m, Slot(t, i));
      if u: Slot :| u.page in place && place[u.page].level >= 2 && u.idx < ENTRIES && p == Get(m, u) {
        assert u == Slot(u.page, u.idx);
      }
    }
  }

  /** A zero page that gets a place. */
  lemma UppersPage(m: Mem, place: Places, page: Mfn, node: Node)
    requires ZeroPage(m, page) && page !in place
    ensures UppersFrom(m, place, m, place[page := node])
  {
    forall fs | UppersHave(m, place, fs)
      ensures UppersHave(m, place[page := node], fs)
    {
    }
  }

  /** Writes of leaf entries only. */
  lemma UppersLeaves(m0: Mem, m: Mem, place: Places)
    requires forall s: Slot :: s.page in place && place[s.page].level >= 2 ==>
               Get(m, s) == Get(m0, s) || Get(m, s) == FREE
    ensures UppersFrom(m0, place, m, place)
  {
  }
}
