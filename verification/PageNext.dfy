/** The ordered walk over the mapped pages of an address range: archPageTableNext. */
module PageNext {
  import opened Paging

  /** The bytes covered by one entry of a table of level `k`: 1 << Lk_PAGETABLE_SHIFT. */
  function Bytes(k: nat): nat
    requires k >= 1
    decreases k
  {
    if k == 1 then PAGE_SIZE else 512 * Bytes(k - 1)
  }

  /** The base address the walk adds up is the address of the first page of the entry's node. */
  lemma {:induction false} BaseLinear(q: nat, l: nat, k: nat)
    ensures Base(q + l, k) * PAGE_SIZE == Base(q, k) * PAGE_SIZE + l * Bytes(k + 1)
    decreases k
  {
    if k > 0 {
      BaseLinear(q * 512, l * 512, k - 1);
      assert (q + l) * 512 == q * 512 + l * 512;
      Regroup(l, Bytes(k));
    }
  }

  lemma Regroup(l: nat, b: nat)
    ensures l * 512 * b == l * (512 * b)
  {
  }

  lemma EntryBase(p: nat, l: nat, k: nat)
    requires k >= 1
    ensures Base(p * 512 + l, k - 1) * PAGE_SIZE == Base(p, k) * PAGE_SIZE + l * Bytes(k)
  {
    BaseLinear(p * 512, l, k - 1);
  }

  /** The offsets of the walk below level `k`: those of the page `lb`, where the walk of the node starts. */
  ghost predicate Offsets(offset: seq<nat>, k: nat, lb: nat) {
    |offset| == 4 && forall j :: 1 <= j <= k <= 4 ==> offset[j - 1] == Idx(lb, j)
  }

  /** Where the walk of entry `l` starts when that of its table starts at `lb`: the offsets are reset after the
      first entry. */
  ghost function StartOf(lb: nat, p: nat, l: nat, k: nat): nat
    requires k >= 1
  {
    if l == Idx(lb, k) then lb else Base(p * 512 + l, k - 1)
  }

  lemma StartOfEntry(lb: nat, p: nat, l: nat, k: nat, offset: seq<nat>)
    requires 1 <= k <= 4 && Shr(lb, k) == p && l < 512
    requires |offset| == 4
    requires if l == Idx(lb, k) then Offsets(offset, k - 1, lb) else forall j :: 0 <= j < k - 1 ==> offset[j] == 0
    ensures Shr(StartOf(lb, p, l, k), k - 1) == p * 512 + l
    ensures Offsets(offset, k - 1, StartOf(lb, p, l, k))
  {
    ShrBase(p * 512 + l, k - 1);
  }

  /** The offsets with those of the levels below `k` reset. */
  function Reset(offset: seq<nat>, k: nat): seq<nat>
    requires |offset| == 4 && 1 <= k <= 4
    ensures |Reset(offset, k)| == 4
  {
    seq(4, i requires 0 <= i < 4 => if i < k - 1 then 0 else offset[i])
  }

  datatype Scan = Found(addr: nat) | ReachedHi | Exhausted

  ghost predicate Unmapped(m: Mem, t: Mfn, k: nat, p: nat, from: nat, to: nat)
    requires k >= 1
  {
    forall w: nat :: from <= w < to && Shr(w, k) == p ==> Mapping(m, t, k, w) == FREE
  }

  /** The number of pages that start below address `hi`. */
  function PagesBelow(hi: nat): nat { (hi + PAGE_SIZE - 1) / PAGE_SIZE }

  /** What the walk of the node `p` of table `t` from page `lb` reports. */
  ghost predicate Scanned(m: Mem, t: Mfn, k: nat, p: nat, lb: nat, hi: nat, r: Scan)
    requires k >= 1
  {
    match r
    case Found(a) =>
      && a % PAGE_SIZE == 0 && a < hi && Shr(a / PAGE_SIZE, k) == p && lb <= a / PAGE_SIZE
      && Mapping(m, t, k, a / PAGE_SIZE) != FREE
      && Unmapped(m, t, k, p, lb, a / PAGE_SIZE)
    case ReachedHi => Unmapped(m, t, k, p, lb, PagesBelow(hi)) && hi <= Base(p + 1, k) * PAGE_SIZE
    case Exhausted => Unmapped(m, t, k, p, lb, Base(p + 1, k))
  }

  lemma FirstEntry(m: Mem, t: Mfn, k: nat, p: nat, lb: nat)
    requires k >= 1 && Shr(lb, k) == p
    ensures Unmapped(m, t, k, p, lb, Base(p * 512 + Idx(lb, k), k - 1))
  {
    BaseShr(p * 512 + Idx(lb, k), lb, k - 1);
  }

  /** A free entry hides no page. */
  lemma SkipFree(m: Mem, t: Mfn, k: nat, p: nat, lb: nat, l: nat)
    requires k >= 1 && l < 512 && Get(m, Slot(t, l)) == FREE
    requires Unmapped(m, t, k, p, lb, Base(p * 512 + l, k - 1))
    ensures Unmapped(m, t, k, p, lb, Base(p * 512 + l + 1, k - 1))
  {
    forall w: nat | lb <= w < Base(p * 512 + l + 1, k - 1) && Shr(w, k) == p
      ensures Mapping(m, t, k, w) == FREE
    {
      BaseShr(p * 512 + l, w, k - 1);
      BaseShr(p * 512 + l + 1, w, k - 1);
    }
  }

  /** Nothing before the entry and nothing below it. */
  lemma JoinChild(m: Mem, t: Mfn, k: nat, p: nat, lb: nat, l: nat, to: nat)
    requires k >= 2 && l < 512 && Shr(lb, k) == p && Idx(lb, k) <= l && Get(m, Slot(t, l)) != FREE
    requires Unmapped(m, t, k, p, lb, Base(p * 512 + l, k - 1)) && to <= Base(p * 512 + l + 1, k - 1)
    requires Unmapped(m, Get(m, Slot(t, l)).frame, k - 1, p * 512 + l, StartOf(lb, p, l, k), to)
    ensures Unmapped(m, t, k, p, lb, to)
  {
    forall w: nat | lb <= w < to && Shr(w, k) == p
      ensures Mapping(m, t, k, w) == FREE
    {
      BaseShr(p * 512 + l, w, k - 1);
      BaseShr(p * 512 + l + 1, w, k - 1);
      if w >= Base(p * 512 + l, k - 1) {
        assert Shr(w, k - 1) == p * 512 + l && Idx(w, k) == l;
        assert Mapping(m, Get(m, Slot(t, l)).frame, k - 1, w) == FREE;
      }
    }
  }

  /** Where the node of an entry ends, its table ends at the earliest. */
  lemma EndOfEntry(p: nat, l: nat, k: nat)
    requires k >= 1 && l < 512
    ensures Base(p * 512 + l, k - 1) * PAGE_SIZE <= Base(p * 512 + l + 1, k - 1) * PAGE_SIZE
    ensures Base(p * 512 + l + 1, k - 1) * PAGE_SIZE <= Base(p + 1, k) * PAGE_SIZE
  {
    hide Base, Bytes;
    BaseOfNext(p, k);
    EntryBase(p, l, k);
    EntryBase(p, l + 1, k);
    EntryBase(p, 512, k);
    MulMono(l, l + 1, Bytes(k));
    MulMono(l + 1, 512, Bytes(k));
  }

  lemma MulMono(a: nat, b: nat, c: nat)
    requires a <= b
    ensures a * c <= b * c
  {
  }

  lemma BaseOfNext(p: nat, k: nat)
    requires k >= 1
    ensures Base(p + 1, k) == Base(p * 512 + 512, k - 1)
  {
    assert (p + 1) * 512 == p * 512 + 512;
  }

  /** What the loop below an entry reports holds of the loop around it. */
  lemma FromChild(m: Mem, t: Mfn, k: nat, p: nat, lb: nat, l: nat, hi: nat, r: Scan)
    requires k >= 2 && l < 512 && Shr(lb, k) == p && Idx(lb, k) <= l && Get(m, Slot(t, l)) != FREE
    requires Unmapped(m, t, k, p, lb, Base(p * 512 + l, k - 1))
    requires Scanned(m, Get(m, Slot(t, l)).frame, k - 1, p * 512 + l, StartOf(lb, p, l, k), hi, r)
    ensures r != Exhausted ==> Scanned(m, t, k, p, lb, hi, r)
    ensures r == Exhausted ==> Unmapped(m, t, k, p, lb, Base(p * 512 + l + 1, k - 1))
  {
    hide Unmapped, Base, Bytes;
    EndOfEntry(p, l, k);
    match r
    case Found(a) =>
      BaseShr(p * 512 + l + 1, a / PAGE_SIZE, k - 1);
      JoinChild(m, t, k, p, lb, l, a / PAGE_SIZE);
      BaseShr(p * 512 + l, lb, k - 1);
      BaseShr(p * 512 + l, a / PAGE_SIZE, k - 1);
      if l != Idx(lb, k) {
        BaseShr(p * 512 + l, lb, k - 1);
      }
    case ReachedHi =>
      JoinChild(m, t, k, p, lb, l, PagesBelow(hi));
    case Exhausted =>
      JoinChild(m, t, k, p, lb, l, Base(p * 512 + l + 1, k - 1));
  }

  lemma FoundHere(m: Mem, t: Mfn, p: nat, lb: nat, l: nat, hi: nat)
    requires l < 512 && Shr(lb, 1) == p && Idx(lb, 1) <= l && Get(m, Slot(t, l)) != FREE
    requires Base(p * 512 + l, 0) * PAGE_SIZE < hi && Unmapped(m, t, 1, p, lb, Base(p * 512 + l, 0))
    ensures Scanned(m, t, 1, p, lb, hi, Found(Base(p * 512 + l, 0) * PAGE_SIZE))
  {
    assert Shr(lb, 0) == lb == p * 512 + Idx(lb, 1);
    assert Shr(p * 512 + l, 0) == p * 512 + l && Shr(p * 512 + l, 1) == p && Idx(p * 512 + l, 1) == l;
  }

  lemma AtHi(m: Mem, t: Mfn, k: nat, p: nat, lb: nat, l: nat, hi: nat)
    requires k >= 1 && l < 512 && Unmapped(m, t, k, p, lb, Base(p * 512 + l, k - 1))
    requires hi <= Base(p * 512 + l, k - 1) * PAGE_SIZE
    ensures Scanned(m, t, k, p, lb, hi, ReachedHi)
  {
    EndOfEntry(p, l, k);
  }

  /** One of the four nested loops of archPageTableNext with the loops inside it. */
  method ScanLevel(m: Mem, t: Mfn, k: nat, ghost p: nat, upper: nat, offset: seq<nat>, ghost lb: nat, hi: nat)
    returns (r: Scan)
    requires 1 <= k <= 4 && Shr(lb, k) == p && upper == Base(p, k) * PAGE_SIZE && Offsets(offset, k, lb)
    ensures Scanned(m, t, k, p, lb, hi, r)
    decreases k
  {
    hide Mapping, Unmapped, Base, Shr;
    var l, off := offset[k - 1], offset;
    FirstEntry(m, t, k, p, lb);
    while l < ENTRIES
      invariant Idx(lb, k) <= l <= ENTRIES && |off| == 4
      invariant if l == Idx(lb, k) then off == offset else forall j :: 0 <= j < k - 1 ==> off[j] == 0
      invariant Unmapped(m, t, k, p, lb, Base(p * 512 + l, k - 1))
    {
      EntryBase(p, l, k);
      var base := upper + l * Bytes(k);
      if base >= hi {
        AtHi(m, t, k, p, lb, l, hi);
        return ReachedHi;
      }
      var e := Get(m, Slot(t, l));
      if e != FREE {
        if k == 1 {
          FoundHere(m, t, p, lb, l, hi);
          return Found(base);
        }
        StartOfEntry(lb, p, l, k, off);
        r := ScanLevel(m, e.frame, k - 1, p * 512 + l, base, off, StartOf(lb, p, l, k), hi);
        FromChild(m, t, k, p, lb, l, hi, r);
        if r != Exhausted {
          return r;
        }
      } else {
        SkipFree(m, t, k, p, lb, l);
      }
      off := Reset(off, k);
      l := l + 1;
    }
    BaseOfNext(p, k);
    r := Exhausted;
  }

  /** No page that starts after `addr` and below `to` is mapped. */
  ghost predicate NoneBefore(m: Mem, root: Mfn, addr: nat, to: nat) {
    forall w: nat :: addr / PAGE_SIZE + 1 <= w && w * PAGE_SIZE < to ==> Mapping(m, root, 4, w) == FREE
  }

  /** The case archPageTableNext gets wrong: `addr` and `hi` are less than a page apart and yet the next page
      starts below `hi` and is mapped. It does not arise for page-aligned `addr`. */
  predicate Missed(m: Mem, root: Mfn, addr: nat, hi: nat) {
    && hi - addr < PAGE_SIZE && (addr / PAGE_SIZE + 1) * PAGE_SIZE < hi
    && Mapping(m, root, 4, addr / PAGE_SIZE + 1) != FREE
  }

  /** The result archPageTableNext is for: the first mapped page after that of `addr` and below `hi`, or `hi`. */
  ghost predicate NextIs(m: Mem, root: Mfn, addr: nat, hi: nat, r: nat) {
    && (r == hi || (addr < r < hi && r % PAGE_SIZE == 0 && Mapping(m, root, 4, r / PAGE_SIZE) != FREE))
    && NoneBefore(m, root, addr, r)
  }

  /** The addresses met when it is called again and again, each time from where it was, until it gives `hi`. */
  ghost predicate Iteration(m: Mem, root: Mfn, vs: seq<nat>, hi: nat) {
    |vs| > 0 &&
    if |vs| == 1 then vs[0] == hi
    else vs[0] < hi && vs[0] % PAGE_SIZE == 0 && NextIs(m, root, vs[0], hi, vs[1]) && Iteration(m, root, vs[1..], hi)
  }

  /** They are strictly increasing. */
  lemma {:induction false} IterationIncreases(m: Mem, root: Mfn, vs: seq<nat>, hi: nat)
    requires Iteration(m, root, vs, hi)
    ensures forall i, j :: 0 <= i < j < |vs| ==> vs[i] < vs[j]
    ensures vs[|vs| - 1] == hi
    decreases |vs|
  {
    hide NextIs;
    if |vs| > 1 {
      var rest := vs[1..];
      assert vs[0] < vs[1] by { StepUp(m, root, vs[0], hi, vs[1]); }
      IterationIncreases(m, root, rest, hi);
      forall i, j | 0 <= i < j < |vs| ensures vs[i] < vs[j] {
        assert vs[j] == rest[j - 1];
        if i > 0 { assert vs[i] == rest[i - 1]; } else if j > 1 { assert rest[0] < rest[j - 1]; }
      }
    }
  }

  lemma StepUp(m: Mem, root: Mfn, addr: nat, hi: nat, r: nat)
    requires NextIs(m, root, addr, hi, r) && addr < hi
    ensures addr < r
  {
  }

  /** They are exactly the mapped pages after the first and below `hi`, and `hi` itself. */
  lemma {:induction false} IterationVisitsAll(m: Mem, root: Mfn, vs: seq<nat>, hi: nat, w: nat)
    requires Iteration(m, root, vs, hi) && vs[0] / PAGE_SIZE < w && w * PAGE_SIZE < hi
    ensures Mapping(m, root, 4, w) != FREE <==> w * PAGE_SIZE in vs[1..]
    decreases |vs|
  {
    hide Mapping, NoneBefore;
    var rest := vs[1..];
    assert vs[1] == rest[0];
    if w * PAGE_SIZE < vs[1] { NoneBetween(m, root, vs[0], vs[1], w); }
    IterationIncreases(m, root, rest, hi);
    if w * PAGE_SIZE <= vs[1] {
      assert w * PAGE_SIZE in rest <==> w * PAGE_SIZE == vs[1];
    } else {
      assert |rest| > 1;
      assert vs[1] / PAGE_SIZE < w;
      IterationVisitsAll(m, root, rest, hi, w);
      assert rest == [vs[1]] + rest[1..];
    }
  }

  lemma NoneBetween(m: Mem, root: Mfn, addr: nat, r: nat, w: nat)
    requires NoneBefore(m, root, addr, r) && addr / PAGE_SIZE < w && w * PAGE_SIZE < r
    ensures Mapping(m, root, 4, w) == FREE
  {
  }

  /** archPageTableNext returns the address of the first mapped page after that of `addr` and below `hi`, or `hi`. */
  method Next(m: Mem, root: Mfn, addr: nat, hi: nat) returns (r: nat)
    requires addr <= hi < PAGES * PAGE_SIZE
    ensures r == hi || (addr < r < hi && r % PAGE_SIZE == 0 && Mapping(m, root, 4, r / PAGE_SIZE) != FREE)
    ensures NoneBefore(m, root, addr, r) <==> !Missed(m, root, addr, hi)
    ensures addr % PAGE_SIZE == 0 ==> NextIs(m, root, addr, hi, r)
  {
    if hi - addr < PAGE_SIZE {
      assert forall w: nat :: addr / PAGE_SIZE + 1 <= w && w * PAGE_SIZE < hi ==> w == addr / PAGE_SIZE + 1;
      return hi;
    }
    var addr' := addr + PAGE_SIZE;
    ghost var lb := addr' / PAGE_SIZE;
    OffsetsAreIndices(addr');
    TopShr(lb);
    var offset := [addr' / 0x1000 % 512, addr' / 0x20_0000 % 512,
                   addr' / 0x4000_0000 % 512, addr' / 0x80_0000_0000 % 512];
    assert Base(0, 4) == 0 by { BaseZero(4); }
    var scan := ScanLevel(m, root, 4, 0, 0, offset, lb, hi);
    r := if scan.Found? then scan.addr else hi;
    forall w: nat | lb <= w && w * PAGE_SIZE < r
      ensures Mapping(m, root, 4, w) == FREE
    {
      TopShr(w);
      BaseShr(1, w, 4);
    }
  }

  /** An input for which it goes wrong: asked for a page after address 4095 and below 4097, it gives 4097, although
      page 1 starts in between and is mapped. */
  method NextPassesOver() returns (m: Mem, r: nat)
    ensures Missed(m, 1, 4095, 4097) && Mapping(m, 1, 4, 1) != FREE && r == 4097
  {
    m := map[Slot(1, 0) := Pte(2, 1), Slot(2, 0) := Pte(3, 1), Slot(3, 0) := Pte(4, 1), Slot(4, 1) := Pte(5, 1)];
    assert Shr(1, 1) == 0 && Shr(1, 2) == 0 && Shr(1, 3) == 0;
    assert Idx(1, 4) == 0 && Idx(1, 3) == 0 && Idx(1, 2) == 0 && Idx(1, 1) == 1;
    assert LeafSlot(m, 2, 3, 1) == LeafSlot(m, 3, 2, 1) == LeafSlot(m, 4, 1, 1) == Some(Slot(4, 1));
    r := Next(m, 1, 4095, 4097);
  }

  lemma {:induction false} BaseZero(k: nat)
    ensures Base(0, k) == 0
    decreases k
  {
    if k > 0 {
      BaseZero(k - 1);
    }
  }
}
