/** The four-level radix tree of page tables: addresses, entries, memory and the walk. */
module Paging {

  // ---------------------------------------------------------------- addresses

  /** The number of entries of a page table, and of bytes of a page. */
  const ENTRIES: nat := 512
  const PAGE_SIZE: nat := 4096

  /** Page numbers are virtual addresses without their low twelve bits; 36 bits of them are translated. */
  const PAGES: nat := 0x10_0000_0000

  /** The first page number outside user space (USERSPACE_END >> 12). */
  const USER_PAGES: nat := 0x8_0000_0000

  /** The first top-level index of the kernel half (PT_USER_ENTRIES). */
  const USER_ENTRIES: nat := 256

  /** A page number without its low 9 * k bits: the number of the node of level `k` above the page. */
  function Shr(vp: nat, k: nat): nat {
    if k == 0 then vp else Shr(vp, k - 1) / 512
  }

  /** The index of a page in the table of level `k` on its path. */
  function Idx(vp: nat, k: nat): (i: nat)
    requires k >= 1
    ensures i < 512
  {
    Shr(vp, k - 1) % 512
  }

  /** The first page below node number `q` of level `k`. */
  function Base(q: nat, k: nat): nat
    decreases k
  {
    if k == 0 then q else Base(q * 512, k - 1)
  }

  /** The shift-and-mask offsets of a virtual address are the indices of its page. */
  lemma OffsetsAreIndices(vaddr: nat)
    ensures vaddr / 0x1000 % 512 == Idx(vaddr / PAGE_SIZE, 1)
    ensures vaddr / 0x20_0000 % 512 == Idx(vaddr / PAGE_SIZE, 2)
    ensures vaddr / 0x4000_0000 % 512 == Idx(vaddr / PAGE_SIZE, 3)
    ensures vaddr / 0x80_0000_0000 % 512 == Idx(vaddr / PAGE_SIZE, 4)
  {
    var vp := vaddr / PAGE_SIZE;
    assert Shr(vp, 0) == vp;
    assert Shr(vp, 1) == vaddr / 0x20_0000;
    assert Shr(vp, 2) == vaddr / 0x4000_0000;
    assert Shr(vp, 3) == vaddr / 0x80_0000_0000;
  }

  /** Two pages with the same four indices are the same page. */
  lemma IndicesDetermine(vp: nat, wp: nat)
    requires vp < PAGES && wp < PAGES
    requires forall k :: 1 <= k <= 4 ==> Idx(vp, k) == Idx(wp, k)
    ensures vp == wp
  {
    TopShr(vp);
    TopShr(wp);
    assert Idx(vp, 4) == Idx(wp, 4) && Idx(vp, 3) == Idx(wp, 3) && Idx(vp, 2) == Idx(wp, 2) && Idx(vp, 1) == Idx(wp, 1);
    assert Shr(vp, 3) == Shr(wp, 3);
    assert Shr(vp, 2) == Shr(wp, 2);
    assert Shr(vp, 1) == Shr(wp, 1);
  }

  lemma TopShr(vp: nat)
    requires vp < PAGES
    ensures Shr(vp, 4) == 0
    ensures Idx(vp, 4) >= USER_ENTRIES <==> vp >= USER_PAGES
  {
    assert Shr(vp, 1) == vp / 512;
    assert Shr(vp, 2) == vp / 0x4_0000;
    assert Shr(vp, 3) == vp / 0x800_0000;
  }

  /** `Base` is the lower adjoint of `Shr`: a page is at or after a node's first page iff its node is. */
  lemma {:induction false} BaseShr(q: nat, vp: nat, k: nat)
    ensures Base(q, k) <= vp <==> q <= Shr(vp, k)
    decreases k
  {
    if k > 0 {
      BaseShr(q * 512, vp, k - 1);
    }
  }

  lemma {:induction false} ShrBase(q: nat, k: nat)
    ensures Shr(Base(q, k), k) == q
    ensures forall j :: 1 <= j <= k ==> Idx(Base(q, k), j) == 0
    decreases k
  {
    if k > 0 {
      ShrBase(q * 512, k - 1);
    }
  }

  // ------------------------------------------------------------------ entries

  /** A machine frame number. */
  type Mfn = nat

  /** A page table entry: the frame it names and its twelve low bits. */
  datatype Pte = Pte(frame: Mfn, flags: bv12)

  /** The unused entry, the all-zero word. */
  const FREE := Pte(0, 0)

  const PAGE_PRESENT: bv12 := 0x001
  const PAGE_RW: bv12 := 0x002
  const PAGE_USER: bv12 := 0x004
  const PAGE_ACCESSED: bv12 := 0x020
  const PAGE_DIRTY: bv12 := 0x040
  const PAGE_PERM_NONE: bv12 := 0x080

  const L1_PROT: bv12 := PAGE_PRESENT | PAGE_RW | PAGE_ACCESSED | PAGE_USER

  /** L2_PROT, L3_PROT and L4_PROT are one value. */
  const TABLE_PROT: bv12 := PAGE_PRESENT | PAGE_RW | PAGE_ACCESSED | PAGE_DIRTY | PAGE_USER

  function ClearRw(p: Pte): Pte { p.(flags := p.flags & 0xFFD) }

  function SetRw(p: Pte): Pte { p.(flags := p.flags | PAGE_RW) }

  /** The two entries name the same frame and agree on every flag but bit 1. */
  predicate SameButWrite(p: Pte, q: Pte) { p.frame == q.frame && p.flags | 0x002 == q.flags | 0x002 }

  /** Losing and gaining write access touch bit 1 of the flags alone. */
  lemma WriteAccess(p: Pte)
    ensures SameButWrite(ClearRw(p), p) && ClearRw(p).flags & 0x002 == 0
    ensures SameButWrite(SetRw(p), p) && SetRw(p).flags & 0x002 != 0
  {
    hide ClearRw, SetRw, SameButWrite;
    LosesWrite(p);
    GainsWrite(p);
  }

  lemma LosesWrite(p: Pte)
    ensures SameButWrite(ClearRw(p), p) && ClearRw(p).flags & 0x002 == 0
  {
  }

  lemma GainsWrite(p: Pte)
    ensures SameButWrite(SetRw(p), p) && SetRw(p).flags & 0x002 != 0
  {
  }

  predicate Present(p: Pte) { p.flags & 0x001 != 0 }

  predicate Writable(p: Pte) { p.flags & 0x002 != 0 }

  /** A permission_t: bit 0 reads, bit 1 writes, bit 2 executes. */
  type Permission = bv3

  const PERM_NONE: Permission := 0

  /** The flags of a user page with this permission and no other: bit 0 lets it be read, bit 1 written, bit 7 marks the
      page that grants nothing, bit 2 is for user mode; no other bit is set. */
  predicate Grants(flags: bv12, perm: Permission) {
    && (flags & 0x001 != 0 <==> perm != 0)
    && (flags & 0x002 != 0 <==> perm & 2 != 0)
    && (flags & 0x080 != 0 <==> perm == 0)
    && flags & 0x004 != 0 && flags & 0xF78 == 0
  }

  /** _pteFlags for a user page */
  function UserFlags(perm: Permission): (flags: bv12)
    ensures flags != 0 && Grants(flags, perm)
  {
    if perm == PERM_NONE then PAGE_USER | PAGE_PERM_NONE
    else if perm & 2 != 0 then PAGE_USER | PAGE_PRESENT | PAGE_RW
    else PAGE_USER | PAGE_PRESENT
  }

  /** archPteGetPermission */
  function PtePermission(p: Pte): Permission {
    if p.flags & PAGE_PERM_NONE != 0 then PERM_NONE else if p.flags & PAGE_RW != 0 then 7 else 5
  }

  /** What an entry grants is the permission it was made with, widened to the two combinations the hardware has. */
  lemma PermissionRoundTrip(frame: Mfn, perm: Permission)
    ensures
      var got := PtePermission(Pte(frame, UserFlags(perm)));
      && (got == PERM_NONE <==> perm == PERM_NONE)
      && (got & 2 != 0 <==> perm & 2 != 0)
      && got | perm == got
      && PtePermission(Pte(frame, UserFlags(got))) == got
  {
  }

  // ------------------------------------------------------------------- memory

  /** An entry of a page table page. */
  datatype Slot = Slot(page: Mfn, idx: nat)

  /** The entries of all pages; an entry that is not in the map is zero. */
  type Mem = map<Slot, Pte>

  function Get(m: Mem, s: Slot): Pte {
    if s in m then m[s] else FREE
  }

  ghost predicate ZeroPage(m: Mem, page: Mfn) {
    forall i: nat :: Get(m, Slot(page, i)) == FREE
  }

  datatype Option<T> = None | Some(value: T)

  /** The walk of archPteGetPtr from table `t` of level `k`: the leaf slot of a page, if its path exists. */
  function LeafSlot(m: Mem, t: Mfn, k: nat, vp: nat): Option<Slot>
    requires k >= 1
    decreases k
  {
    if k == 1 then
      Some(Slot(t, Idx(vp, 1)))
    else
      var e := Get(m, Slot(t, Idx(vp, k)));
      if e == FREE then None else LeafSlot(m, e.frame, k - 1, vp)
  }

  /** What the table `t` of level `k` maps a page to; FREE if nothing. */
  function Mapping(m: Mem, t: Mfn, k: nat, vp: nat): Pte
    requires k >= 1
  {
    match LeafSlot(m, t, k, vp)
    case None => FREE
    case Some(s) => Get(m, s)
  }

  // --------------------------------------------------------------------- tree

  /** Where a table page sits: in which address space (0 for the shared kernel half), level and node number. */
  datatype Node = Node(space: nat, level: nat, prefix: nat)

  function Child(n: Node, i: nat): Node
    requires n.level >= 2
  {
    Node(if n.level == 4 && i >= USER_ENTRIES then 0 else n.space, n.level - 1, n.prefix * 512 + i)
  }

  lemma TreeEntry(m: Mem, place: Places, s: Slot)
    requires Tree(m, place) && s.page in place && place[s.page].level >= 2 && s.idx < ENTRIES && Get(m, s) != FREE
    ensures Get(m, s).frame in place && place[Get(m, s).frame] == Child(place[s.page], s.idx)
  {
    assert s == Slot(s.page, s.idx);
  }

  /** The node of level `k` on the path of page `vp` in address space `sp`. */
  function NodeFor(sp: nat, k: nat, vp: nat): Node {
    Node(if k < 4 && vp >= USER_PAGES then 0 else sp, k, Shr(vp, k))
  }

  type Places = map<Mfn, Node>

  /** Every entry in use of an upper table leads to the table page of the node below it. As a page has one place, the
      slots a table page hangs below are all of its own node: below a root, one slot of each root. */
  ghost predicate Tree(m: Mem, place: Places) {
    && (forall t :: t in place ==> 1 <= place[t].level <= 4)
    && (forall t, i: nat {:trigger Get(m, Slot(t, i))} ::
          t in place && place[t].level >= 2 && i < ENTRIES && Get(m, Slot(t, i)) != FREE ==>
          var c := Get(m, Slot(t, i)).frame; c in place && place[c] == Child(place[t], i))
  }

  ghost predicate At(place: Places, t: Mfn, sp: nat, k: nat, vp: nat) {
    1 <= k <= 4 && vp < PAGES && t in place && place[t] == NodeFor(sp, k, vp)
  }

  lemma ChildNode(sp: nat, k: nat, vp: nat)
    requires 2 <= k <= 4 && vp < PAGES
    ensures Child(NodeFor(sp, k, vp), Idx(vp, k)) == NodeFor(sp, k - 1, vp)
  {
    TopShr(vp);
  }

  /** The walk stays on the nodes of its page. */
  lemma {:induction false} WalkPlace(m: Mem, place: Places, t: Mfn, sp: nat, k: nat, vp: nat)
    requires Tree(m, place) && At(place, t, sp, k, vp)
    ensures LeafSlot(m, t, k, vp).Some? ==>
              var s := LeafSlot(m, t, k, vp).value; At(place, s.page, sp, 1, vp) && s.idx == Idx(vp, 1)
    decreases k
  {
    if k > 1 {
      var e := Get(m, Slot(t, Idx(vp, k)));
      if e != FREE {
        ChildNode(sp, k, vp);
        WalkPlace(m, place, e.frame, sp, k - 1, vp);
      }
    }
  }

  /** The leaf slots of two different pages differ, also across roots. */
  lemma LeafSlotInjective(m: Mem, place: Places, t: Mfn, sp: nat, vp: nat, u: Mfn, sq: nat, wp: nat)
    requires Tree(m, place) && At(place, t, sp, 4, vp) && At(place, u, sq, 4, wp)
    requires LeafSlot(m, t, 4, vp).Some? && LeafSlot(m, t, 4, vp) == LeafSlot(m, u, 4, wp)
    ensures vp == wp
  {
    WalkPlace(m, place, t, sp, 4, vp);
    WalkPlace(m, place, u, sq, 4, wp);
    assert Shr(vp, 0) == Shr(vp, 1) * 512 + Idx(vp, 1);
    assert Shr(wp, 0) == Shr(wp, 1) * 512 + Idx(wp, 1);
  }

  /** Two memories agree on the entries of the path of a page in the levels above `lo`, from table `t` of level
      `k` down: on the entry of `t` and on those of every table below. */
  ghost predicate AgreeFrom(m: Mem, n: Mem, place: Places, t: Mfn, sp: nat, k: nat, vp: nat, lo: nat)
    requires 1 <= k
  {
    && (k > lo ==> Get(m, Slot(t, Idx(vp, k))) == Get(n, Slot(t, Idx(vp, k))))
    && (forall u ::
          && u in place && 1 <= place[u].level && lo < place[u].level < k
          && place[u] == NodeFor(sp, place[u].level, vp) ==>
          Get(m, Slot(u, Idx(vp, place[u].level))) == Get(n, Slot(u, Idx(vp, place[u].level))))
  }

  lemma {:induction false} WalkSame(m: Mem, n: Mem, place: Places, t: Mfn, sp: nat, k: nat, vp: nat)
    requires Tree(m, place) && At(place, t, sp, k, vp)
    requires AgreeFrom(m, n, place, t, sp, k, vp, 1)
    ensures LeafSlot(m, t, k, vp) == LeafSlot(n, t, k, vp)
    decreases k
  {
    if k > 1 {
      var e := Get(m, Slot(t, Idx(vp, k)));
      if e != FREE {
        ChildNode(sp, k, vp);
        WalkSame(m, n, place, e.frame, sp, k - 1, vp);
      }
    }
  }

  /** No walk from a table page with a place differs in the two memories. */
  ghost predicate SameWalks(m: Mem, n: Mem, place: Places) {
    forall t, sp, k, vp {:trigger At(place, t, sp, k, vp)} ::
      At(place, t, sp, k, vp) ==> LeafSlot(m, t, k, vp) == LeafSlot(n, t, k, vp)
  }

  /** Writing a leaf entry, or an entry of a page outside the tree, moves no path. */
  lemma PutOffPath(m: Mem, place: Places, s: Slot, p: Pte)
    requires Tree(m, place) && (s.page in place ==> place[s.page].level == 1)
    ensures Tree(m[s := p], place) && SameWalks(m, m[s := p], place)
  {
    assert forall t, i: nat {:trigger Get(m[s := p], Slot(t, i))} ::
        t in place && place[t].level >= 2 ==> Get(m[s := p], Slot(t, i)) == Get(m, Slot(t, i));
    forall t, sp, k, vp | At(place, t, sp, k, vp)
      ensures LeafSlot(m, t, k, vp) == LeafSlot(m[s := p], t, k, vp)
    {
      WalkSame(m, m[s := p], place, t, sp, k, vp);
    }
  }

  ghost predicate IsRoot(place: Places, root: Mfn, sp: nat) {
    root in place && place[root] == Node(sp, 4, 0)
  }

  lemma RootAt(place: Places, root: Mfn, sp: nat, vp: nat)
    requires IsRoot(place, root, sp) && vp < PAGES
    ensures At(place, root, sp, 4, vp)
  {
    TopShr(vp);
  }

  /** The table of level `k` that the walk from table `t` of level `j` passes. */
  function TableAt(m: Mem, t: Mfn, j: nat, vp: nat, k: nat): Option<Mfn>
    requires 1 <= k <= j
    decreases j
  {
    if j == k then
      Some(t)
    else
      var e := Get(m, Slot(t, Idx(vp, j)));
      if e == FREE then None else TableAt(m, e.frame, j - 1, vp, k)
  }

  lemma {:induction false} TableSame(m: Mem, n: Mem, place: Places, t: Mfn, sp: nat, j: nat, vp: nat, k: nat)
    requires Tree(m, place) && At(place, t, sp, j, vp) && 1 <= k <= j
    requires AgreeFrom(m, n, place, t, sp, j, vp, k)
    ensures TableAt(m, t, j, vp, k) == TableAt(n, t, j, vp, k)
    ensures TableAt(m, t, j, vp, k).Some? ==> At(place, TableAt(m, t, j, vp, k).value, sp, k, vp)
    decreases j
  {
    if j > k {
      var e := Get(m, Slot(t, Idx(vp, j)));
      if e != FREE {
        ChildNode(sp, j, vp);
        TableSame(m, n, place, e.frame, sp, j - 1, vp, k);
      }
    }
  }

  /** One more step of the walk. */
  lemma {:induction false} TableStep(m: Mem, t: Mfn, j: nat, vp: nat, k: nat)
    requires 2 <= k <= j && TableAt(m, t, j, vp, k).Some?
    ensures
      var e := Get(m, Slot(TableAt(m, t, j, vp, k).value, Idx(vp, k)));
      TableAt(m, t, j, vp, k - 1) == if e == FREE then None else Some(e.frame)
    decreases j
  {
    if j > k {
      TableStep(m, Get(m, Slot(t, Idx(vp, j))).frame, j - 1, vp, k);
    } else {
      var e := Get(m, Slot(t, Idx(vp, j)));
      assert e != FREE ==> TableAt(m, e.frame, j - 1, vp, k - 1) == Some(e.frame);
    }
  }

  /** The level at which the walk for a page meets a free entry, or 1 if the path is complete. */
  function EndLevel(m: Mem, t: Mfn, k: nat, vp: nat): (e: nat)
    requires k >= 1
    ensures 1 <= e <= k
    decreases k
  {
    var e := Get(m, Slot(t, Idx(vp, k)));
    if k == 1 || e == FREE then k else EndLevel(m, e.frame, k - 1, vp)
  }

  /** All pages of a node share the walk down to it. */
  lemma {:induction false} WalkThrough(m: Mem, t: Mfn, j: nat, vp: nat, k: nat, wp: nat)
    requires 1 <= k <= j && Shr(vp, k) == Shr(wp, k)
    ensures TableAt(m, t, j, vp, k) == TableAt(m, t, j, wp, k)
    ensures TableAt(m, t, j, vp, k).Some? ==> LeafSlot(m, t, j, wp) == LeafSlot(m, TableAt(m, t, j, vp, k).value, k, wp)
    ensures TableAt(m, t, j, vp, k).None? ==> LeafSlot(m, t, j, wp) == None
    decreases j
  {
    if j > k {
      ShrMono(vp, wp, k, j - 1);
      var e := Get(m, Slot(t, Idx(vp, j)));
      if e != FREE {
        WalkThrough(m, e.frame, j - 1, vp, k, wp);
      }
    }
  }

  lemma {:induction false} ShrMono(vp: nat, wp: nat, k: nat, j: nat)
    requires k <= j && Shr(vp, k) <= Shr(wp, k)
    ensures Shr(vp, j) <= Shr(wp, j)
    ensures Shr(vp, k) == Shr(wp, k) ==> Shr(vp, j) == Shr(wp, j)
    decreases j
  {
    if j > k {
      ShrMono(vp, wp, k, j - 1);
    }
  }
}
