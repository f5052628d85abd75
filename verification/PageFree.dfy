/** Tearing down a user address space through the update queue: archPageTableFree. */
module PageFree {
  import opened Paging
  import opened Mmu
  import opened Hardware
  import opened PageOthers
  import opened PageInsert

  // ------------------------------------------------------------ what there is to free

  /** L1_USER_ENTRIES to L4_USER_ENTRIES */
  function UserEntries(k: nat): nat { if k == 4 then USER_ENTRIES else ENTRIES }

  /** The frames the first `n` entries of table `t` of level `k` map, in the order of their pages. */
  ghost function FramesBelow(m: Mem, t: Mfn, k: nat, n: nat): seq<Mfn>
    requires k >= 1
    decreases k, n
  {
    if n == 0 then []
    else
      var e := Get(m, Slot(t, n - 1));
      FramesBelow(m, t, k, n - 1) +
      if e == FREE then [] else if k == 1 then [e.frame] else FramesBelow(m, e.frame, k - 1, ENTRIES)
  }

  /** The slots in use of the upper tables reached through the first `n` entries of `t`, children first. */
  ghost function SlotsBelow(m: Mem, t: Mfn, k: nat, n: nat): seq<Slot>
    requires k >= 1
    decreases k, n
  {
    if k == 1 || n == 0 then []
    else
      var e := Get(m, Slot(t, n - 1));
      SlotsBelow(m, t, k, n - 1) +
      if e == FREE then [] else SlotsBelow(m, e.frame, k - 1, ENTRIES) + [Slot(t, n - 1)]
  }

  /** The table pages that slots name. */
  ghost function PagesOf(m: Mem, ss: seq<Slot>): (ps: seq<Mfn>)
    ensures |ps| == |ss| && forall i :: 0 <= i < |ss| ==> ps[i] == Get(m, ss[i]).frame
  {
    if ss == [] then [] else PagesOf(m, ss[..|ss| - 1]) + [Get(m, ss[|ss| - 1]).frame]
  }

  lemma PagesOfAppend(m: Mem, ss: seq<Slot>, s: Slot)
    ensures PagesOf(m, ss + [s]) == PagesOf(m, ss) + [Get(m, s).frame]
  {
    assert (ss + [s])[..|ss|] == ss;
  }

  /** The node below an upper slot. */
  ghost function NodeBelow(place: Places, s: Slot): Node
    requires s.page in place && place[s.page].level >= 2
  {
    Child(place[s.page], s.idx)
  }

  /** The first page of the node below an upper slot. */
  ghost function StartBelow(place: Places, s: Slot): nat
    requires s.page in place && place[s.page].level >= 2
  {
    Base(NodeBelow(place, s).prefix, NodeBelow(place, s).level)
  }

  /** Slot `s` is an upper slot of the user half whose node starts between pages `a` and `b`. */
  ghost predicate UserSlot(place: Places, sp: nat, s: Slot, a: nat, b: nat) {
    && s.page in place && 2 <= place[s.page].level <= 4 && place[s.page].space == sp && s.idx < ENTRIES
    && a <= StartBelow(place, s) < b
  }

  /** Where the nodes of a table's entries start and end. */
  lemma NodeBounds(p: nat, n: nat, k: nat)
    requires k >= 1
    ensures Base(p, k) <= Base(p * 512 + n, k - 1) < Base(p * 512 + n + 1, k - 1)
    ensures Base(p * 512, k - 1) == Base(p, k)
  {
    ShrBase(p * 512 + n, k - 1);
    BaseShr(p * 512 + n + 1, Base(p * 512 + n, k - 1), k - 1);
    BaseShr(p * 512, Base(p * 512 + n, k - 1), k - 1);
  }

  /** The last entry of a table ends where the table's node ends. */
  lemma NodeEnd(q: nat, k: nat)
    requires k >= 1
    ensures Base(q * 512 + ENTRIES, k - 1) == Base(q + 1, k)
  {
    assert (q + 1) * 512 == q * 512 + ENTRIES;
  }

  /** All slots to clear are upper slots in use of the nodes walked, no two of them of the same node. */
  ghost predicate SlotsOk(m: Mem, place: Places, sp: nat, k: nat, ss: seq<Slot>, a: nat, b: nat) {
    && (forall s :: s in ss ==> UserSlot(place, sp, s, a, b) && place[s.page].level <= k && Get(m, s) != FREE)
    && (forall i, j :: 0 <= i < j < |ss| ==> NodeBelow(place, ss[i]) != NodeBelow(place, ss[j]))
  }

  lemma {:induction false} SlotsBelowOk(m: Mem, place: Places, sp: nat, t: Mfn, k: nat, p: nat, n: nat)
    requires Tree(m, place) && 1 <= k <= 4 && t in place && place[t] == Node(sp, k, p)
    requires n <= UserEntries(k)
    ensures SlotsOk(m, place, sp, k, SlotsBelow(m, t, k, n), Base(p, k), Base(p * 512 + n, k - 1))
    decreases k, n
  {
    hide Base, SlotsOk, Tree, SlotsBelow;
    if k > 1 && n > 0 {
      SlotsBelowOk(m, place, sp, t, k, p, n - 1);
      var e := Get(m, Slot(t, n - 1));
      if e != FREE {
        TreeEntry(m, place, Slot(t, n - 1));
        SlotsBelowOk(m, place, sp, e.frame, k - 1, p * 512 + (n - 1), ENTRIES);
      }
      NodeBounds(p, n - 1, k);
      NodeEnd(p * 512 + (n - 1), k - 1);
      SlotHere(place, sp, Slot(t, n - 1), k, p, n - 1);
      SlotsStep(m, place, sp, t, k, n - 1, Base(p, k), Base(p * 512 + (n - 1), k - 1),
                Base(p * 512 + (n - 1) + 1, k - 1));
    } else {
      SlotsUnfold(m, t, k, n);
      NoSlots(m, place, sp, k, Base(p, k), Base(p * 512 + n, k - 1));
    }
  }

  lemma SlotsStep(m: Mem, place: Places, sp: nat, t: Mfn, k: nat, i: nat, a: nat, b: nat, c: nat)
    requires 2 <= k <= 4 && t in place && place[t].level == k && i < ENTRIES && a <= b < c
    requires UserSlot(place, sp, Slot(t, i), b, c)
    requires SlotsOk(m, place, sp, k, SlotsBelow(m, t, k, i), a, b)
    requires
      var e := Get(m, Slot(t, i));
      e != FREE ==> SlotsOk(m, place, sp, k - 1, SlotsBelow(m, e.frame, k - 1, ENTRIES), b, c)
    ensures SlotsOk(m, place, sp, k, SlotsBelow(m, t, k, i + 1), a, c)
  {
    hide SlotsOk, StartBelow, SlotsBelow, UserSlot;
    SlotsUnfold(m, t, k, i + 1);
    var s := Slot(t, i);
    if Get(m, s) == FREE {
      SlotsWiden(m, place, sp, k, SlotsBelow(m, t, k, i), a, b, c);
    } else {
      SlotsJoin(m, place, sp, k, SlotsBelow(m, t, k, i), SlotsBelow(m, Get(m, s).frame, k - 1, ENTRIES), s, a, b, c);
    }
  }

  lemma SlotsUnfold(m: Mem, t: Mfn, k: nat, n: nat)
    requires k >= 1
    ensures k == 1 || n == 0 ==> SlotsBelow(m, t, k, n) == []
    ensures k > 1 && n > 0 ==>
              var e := Get(m, Slot(t, n - 1));
              SlotsBelow(m, t, k, n) ==
              if e == FREE then SlotsBelow(m, t, k, n - 1)
              else SlotsBelow(m, t, k, n - 1) + (SlotsBelow(m, e.frame, k - 1, ENTRIES) + [Slot(t, n - 1)])
  {
  }

  lemma SlotCases(m: Mem, t: Mfn, k: nat, n: nat, s: Slot)
    requires k >= 1 && s in SlotsBelow(m, t, k, n)
    ensures k >= 2 && n >= 1
    ensures
      var e := Get(m, Slot(t, n - 1));
      || s in SlotsBelow(m, t, k, n - 1)
      || (e != FREE && (s == Slot(t, n - 1) || s in SlotsBelow(m, e.frame, k - 1, ENTRIES)))
  {
  }

  lemma NoSlots(m: Mem, place: Places, sp: nat, k: nat, a: nat, b: nat)
    ensures SlotsOk(m, place, sp, k, [], a, b)
  {
  }

  lemma SlotHere(place: Places, sp: nat, s: Slot, k: nat, p: nat, i: nat)
    requires 2 <= k <= 4 && s.page in place && place[s.page] == Node(sp, k, p) && s.idx == i < UserEntries(k)
    ensures UserSlot(place, sp, s, Base(p * 512 + i, k - 1), Base(p * 512 + i + 1, k - 1))
  {
    NodeBounds(p, i, k);
  }

  lemma SlotsWiden(m: Mem, place: Places, sp: nat, k: nat, ss: seq<Slot>, a: nat, b: nat, c: nat)
    requires b <= c && SlotsOk(m, place, sp, k, ss, a, b)
    ensures SlotsOk(m, place, sp, k, ss, a, c)
  {
  }

  /** The slots of earlier entries, those below an entry, and the entry itself. */
  lemma SlotsJoin(m: Mem, place: Places, sp: nat, k: nat, before: seq<Slot>, below: seq<Slot>, s: Slot,
                  a: nat, b: nat, c: nat)
    requires 2 <= k <= 4 && a <= b < c && SlotsOk(m, place, sp, k, before, a, b)
    requires SlotsOk(m, place, sp, k - 1, below, b, c)
    requires UserSlot(place, sp, s, b, c) && place[s.page].level == k && Get(m, s) != FREE
    ensures SlotsOk(m, place, sp, k, before + (below + [s]), a, c)
  {
    var ss := before + (below + [s]);
    forall x | x in ss
      ensures UserSlot(place, sp, x, a, c) && place[x.page].level <= k && Get(m, x) != FREE
    {
      assert x in before || x in below || x == s;
    }
    forall i, j | 0 <= i < j < |ss|
      ensures NodeBelow(place, ss[i]) != NodeBelow(place, ss[j])
    {
      if i < |before| {
        assert ss[i] in before && StartBelow(place, ss[i]) < b;
        if j >= |before| {
          assert ss[j] in below || ss[j] == s;
          assert StartBelow(place, ss[j]) >= b;
        }
      } else {
        assert ss[i] == below[i - |before|] && ss[i] in below;
        if j < |ss| - 1 {
          assert ss[j] == below[j - |before|] && ss[j] in below;
        }
      }
    }
  }

  /** Slot `s` is on the walk, from table `t` of level `k`, of the first page of its node. */
  ghost predicate Reached(m: Mem, place: Places, t: Mfn, k: nat, s: Slot) {
    && s.page in place && 2 <= place[s.page].level <= k
    && TableAt(m, t, k, StartBelow(place, s), place[s.page].level) == Some(s.page)
    && Idx(StartBelow(place, s), place[s.page].level) == s.idx
  }

  lemma ReachedHere(m: Mem, place: Places, sp: nat, k: nat, p: nat, s: Slot)
    requires 2 <= k <= 4 && s.page in place && place[s.page] == Node(sp, k, p) && s.idx < ENTRIES
    ensures Reached(m, place, s.page, k, s)
  {
    ShrBase(p * 512 + s.idx, k - 1);
  }

  lemma ReachedAbove(m: Mem, place: Places, t: Mfn, k: nat, i: nat, s: Slot)
    requires k >= 2 && Get(m, Slot(t, i)) != FREE && Reached(m, place, Get(m, Slot(t, i)).frame, k - 1, s)
    requires Idx(StartBelow(place, s), k) == i
    ensures Reached(m, place, t, k, s)
  {
  }

  /** A slot below entry `i` belongs to a node below that entry. */
  lemma StartBelowEntry(m: Mem, place: Places, sp: nat, t: Mfn, k: nat, i: nat, s: Slot)
    requires Tree(m, place) && 2 <= k <= 4 && i < UserEntries(k) && t in place && place[t].level == k
    requires place[t].space == sp && Get(m, Slot(t, i)) != FREE
    requires s in SlotsBelow(m, Get(m, Slot(t, i)).frame, k - 1, ENTRIES)
    ensures s.page in place && place[s.page].level >= 2 && Idx(StartBelow(place, s), k) == i
  {
    hide StartBelow, SlotsBelow, Tree;
    var c := Get(m, Slot(t, i)).frame;
    ChildLevel(m, place, sp, t, k, i);
    StartInNode(m, place, sp, c, k - 1, place[c].prefix, s);
    assert place[c].prefix % 512 == i by {
      TreeEntry(m, place, Slot(t, i));
    }
  }

  lemma StartInNode(m: Mem, place: Places, sp: nat, t: Mfn, k: nat, q: nat, s: Slot)
    requires Tree(m, place) && 1 <= k <= 3 && t in place && place[t] == Node(sp, k, q)
    requires s in SlotsBelow(m, t, k, ENTRIES)
    ensures s.page in place && place[s.page].level >= 2 && Shr(StartBelow(place, s), k) == q
  {
    hide Base, Shr, SlotsBelow, StartBelow;
    SlotsBelowOk(m, place, sp, t, k, q, ENTRIES);
    NodeEnd(q, k);
    assert UserSlot(place, sp, s, Base(q, k), Base(q + 1, k));
    InNode(q, k, StartBelow(place, s));
  }

  /** Every slot to clear is on the walk of the first page of its node. */
  lemma {:induction false} SlotReached(m: Mem, place: Places, sp: nat, t: Mfn, k: nat, p: nat, n: nat, s: Slot)
    requires Tree(m, place) && 1 <= k <= 4 && t in place && place[t] == Node(sp, k, p)
    requires n <= UserEntries(k) && s in SlotsBelow(m, t, k, n)
    ensures Reached(m, place, t, k, s)
    decreases k, n
  {
    hide SlotsBelow, StartBelow, Reached, Shr, Tree, TableAt, Get, Idx;
    SlotCases(m, t, k, n, s);
    if s in SlotsBelow(m, t, k, n - 1) {
      SlotReached(m, place, sp, t, k, p, n - 1, s);
    } else if s == Slot(t, n - 1) {
      ReachedHere(m, place, sp, k, p, s);
    } else {
      var e := Get(m, Slot(t, n - 1));
      ChildLevel(m, place, sp, t, k, n - 1);
      SlotReached(m, place, sp, e.frame, k - 1, place[e.frame].prefix, ENTRIES, s);
      StartBelowEntry(m, place, sp, t, k, n - 1, s);
      ReachedAbove(m, place, t, k, n - 1, s);
    }
  }

  lemma ChildLevel(m: Mem, place: Places, sp: nat, t: Mfn, k: nat, i: nat)
    requires Tree(m, place) && 2 <= k <= 4 && i < UserEntries(k) && t in place && place[t].level == k
    requires place[t].space == sp
    requires Get(m, Slot(t, i)) != FREE
    ensures
      var c := Get(m, Slot(t, i)).frame;
      c in place && place[c].level == k - 1 && place[c].space == sp
  {
  }

  lemma InNode(q: nat, k: nat, vp: nat)
    ensures Base(q, k) <= vp < Base(q + 1, k) <==> Shr(vp, k) == q
  {
    BaseShr(q, vp, k);
    BaseShr(q + 1, vp, k);
  }

  /** Every table a walk reaches through the first `n` entries hangs in one of the slots. */
  lemma {:induction false} TableListed(m: Mem, t: Mfn, k: nat, n: nat, vp: nat, j: nat) returns (s: Slot)
    requires 1 <= j < k && Idx(vp, k) < n <= ENTRIES && TableAt(m, t, k, vp, j).Some?
    ensures s in SlotsBelow(m, t, k, n) && Get(m, s).frame == TableAt(m, t, k, vp, j).value
    ensures TableAt(m, t, k, vp, j + 1) == Some(s.page) && s.idx == Idx(vp, j + 1)
    decreases k, n
  {
    hide SlotsBelow;
    SlotsUnfold(m, t, k, n);
    if Idx(vp, k) < n - 1 {
      s := TableListed(m, t, k, n - 1, vp, j);
    } else if j == k - 1 {
      s := Slot(t, n - 1);
    } else {
      s := TableListed(m, Get(m, Slot(t, n - 1)).frame, k - 1, ENTRIES, vp, j);
    }
  }

  /** The table pages to free are those reachable from the user half, each once. */
  lemma PagesAreTables(m: Mem, place: Places, root: Mfn, sp: nat)
    requires Tree(m, place) && IsRoot(place, root, sp)
    ensures
      var ps := PagesOf(m, SlotsBelow(m, root, 4, USER_ENTRIES));
      && (forall i, j :: 0 <= i < j < |ps| ==> ps[i] != ps[j])
      && (forall p :: p in ps <==> UserTable(m, root, p))
  {
    hide SlotsBelow, Tree, UserTable, TableAt;
    var ss := SlotsBelow(m, root, 4, USER_ENTRIES);
    var ps := PagesOf(m, ss);
    PagesDiffer(m, place, root, sp);
    forall p
      ensures p in ps <==> UserTable(m, root, p)
    {
      if p in ps {
        var i :| 0 <= i < |ps| && ps[i] == p;
        assert ss[i] in ss;
        ListedIsTable(m, place, root, sp, ss[i]);
      }
      if UserTable(m, root, p) {
        var s := TableIsListed(m, root, p);
        var i :| 0 <= i < |ss| && ss[i] == s;
        assert ps[i] == p;
      }
    }
  }

  /** Page `p` is a table on the walk of some user page. */
  ghost predicate UserTable(m: Mem, root: Mfn, p: Mfn) {
    exists vp: nat, k :: vp < USER_PAGES && 1 <= k <= 3 && TableAt(m, root, 4, vp, k) == Some(p)
  }

  lemma PagesDiffer(m: Mem, place: Places, root: Mfn, sp: nat)
    requires Tree(m, place) && IsRoot(place, root, sp)
    ensures
      var ps := PagesOf(m, SlotsBelow(m, root, 4, USER_ENTRIES));
      forall i, j :: 0 <= i < j < |ps| ==> ps[i] != ps[j]
  {
    hide SlotsBelow, Tree, StartBelow;
    var ss := SlotsBelow(m, root, 4, USER_ENTRIES);
    var ps := PagesOf(m, ss);
    SlotsBelowOk(m, place, sp, root, 4, 0, USER_ENTRIES);
    forall i, j | 0 <= i < j < |ps|
      ensures ps[i] != ps[j]
    {
      assert ss[i] in ss && ss[j] in ss;
      TreeEntry(m, place, ss[i]);
      TreeEntry(m, place, ss[j]);
      assert NodeBelow(place, ss[i]) != NodeBelow(place, ss[j]);
    }
  }

  lemma ListedIsTable(m: Mem, place: Places, root: Mfn, sp: nat, s: Slot)
    requires Tree(m, place) && IsRoot(place, root, sp) && s in SlotsBelow(m, root, 4, USER_ENTRIES)
    ensures UserTable(m, root, Get(m, s).frame)
  {
    hide SlotsBelow, Tree, StartBelow, Base;
    SlotsBelowOk(m, place, sp, root, 4, 0, USER_ENTRIES);
    UserBounds();
    SlotReached(m, place, sp, root, 4, 0, USER_ENTRIES, s);
    assert UserSlot(place, sp, s, Base(0, 4), Base(0 * 512 + USER_ENTRIES, 3)) && Get(m, s) != FREE;
    var vp, k := StartBelow(place, s), place[s.page].level;
    TableStep(m, root, 4, vp, k);
    assert TableAt(m, root, 4, vp, k - 1) == Some(Get(m, s).frame);
  }

  lemma TableIsListed(m: Mem, root: Mfn, p: Mfn) returns (s: Slot)
    requires UserTable(m, root, p)
    ensures s in SlotsBelow(m, root, 4, USER_ENTRIES) && Get(m, s).frame == p
  {
    var vp: nat, k :| vp < USER_PAGES && 1 <= k <= 3 && TableAt(m, root, 4, vp, k) == Some(p);
    TopShr(vp);
    s := TableListed(m, root, 4, USER_ENTRIES, vp, k);
  }

  lemma UserBounds()
    ensures Base(0, 4) == 0 && Base(0 * 512 + USER_ENTRIES, 3) == USER_PAGES
  {
    assert Base(USER_ENTRIES, 3) == Base(0x2_0000, 2) == Base(0x400_0000, 1) == USER_PAGES;
    assert Base(0, 4) == Base(0, 3) == Base(0, 2) == Base(0, 1);
  }

  /** `vs` are, in increasing order, exactly the pages from `a` up to `b` that table `t` of level `k` maps, and `fs`
      the frames it maps them to. */
  ghost predicate FramesMatch(m: Mem, t: Mfn, k: nat, vs: seq<nat>, fs: seq<Mfn>, a: nat, b: nat)
    requires k >= 1
  {
    && |vs| == |fs|
    && (forall i :: 0 <= i < |vs| ==>
          a <= vs[i] < b && Mapping(m, t, k, vs[i]) != FREE && Mapping(m, t, k, vs[i]).frame == fs[i])
    && (forall i, j :: 0 <= i < j < |vs| ==> vs[i] < vs[j])
    && (forall v: nat :: a <= v < b && Mapping(m, t, k, v) != FREE ==> v in vs)
  }

  lemma FramesJoin(m: Mem, t: Mfn, k: nat, vs: seq<nat>, fs: seq<Mfn>, c: Mfn, j: nat, ws: seq<nat>, gs: seq<Mfn>,
                   a: nat, b: nat, d: nat)
    requires k >= 1 && j >= 1 && a <= b <= d && FramesMatch(m, t, k, vs, fs, a, b) && FramesMatch(m, c, j, ws, gs, b, d)
    requires forall v: nat :: b <= v < d ==> Mapping(m, t, k, v) == Mapping(m, c, j, v)
    ensures FramesMatch(m, t, k, vs + ws, fs + gs, a, d)
  {
    hide Mapping;
    forall i, j | 0 <= i < j < |vs + ws|
      ensures (vs + ws)[i] < (vs + ws)[j]
    {
    }
    forall v: nat | a <= v < d && Mapping(m, t, k, v) != FREE
      ensures v in vs + ws
    {
      assert v in vs || v in ws;
    }
  }

  /** What a table maps the pages below one of its entries to. */
  lemma EntryMapping(m: Mem, t: Mfn, k: nat, p: nat, i: nat, v: nat)
    requires k >= 1 && i < ENTRIES && Base(p * 512 + i, k - 1) <= v < Base(p * 512 + i + 1, k - 1)
    ensures
      var e := Get(m, Slot(t, i));
      Mapping(m, t, k, v) == if k == 1 || e == FREE then e else Mapping(m, e.frame, k - 1, v)
  {
    InNode(p * 512 + i, k - 1, v);
    assert Idx(v, k) == i;
  }

  /** The frames to release are those of the mapped pages, in order. */
  lemma {:induction false} FramesBelowOk(m: Mem, t: Mfn, k: nat, p: nat, n: nat) returns (vs: seq<nat>)
    requires 1 <= k <= 4 && n <= ENTRIES
    ensures FramesMatch(m, t, k, vs, FramesBelow(m, t, k, n), Base(p, k), Base(p * 512 + n, k - 1))
    decreases k, n
  {
    hide Base, Mapping, LeafSlot;
    NodeBounds(p, 0, k);
    vs := [];
    if n > 0 {
      var e, q := Get(m, Slot(t, n - 1)), p * 512 + (n - 1);
      var a, b, c := Base(p, k), Base(q, k - 1), Base(q + 1, k - 1);
      NodeBounds(p, n - 1, k);
      forall v: nat | b <= v < c
        ensures Mapping(m, t, k, v) == if k == 1 || e == FREE then e else Mapping(m, e.frame, k - 1, v)
      {
        EntryMapping(m, t, k, p, n - 1, v);
      }
      vs := FramesBelowOk(m, t, k, p, n - 1);
      if e == FREE {
        NoFrames(m, t, k, b, c);
        FramesJoin(m, t, k, vs, FramesBelow(m, t, k, n - 1), t, k, [], [], a, b, c);
        assert vs + [] == vs && FramesBelow(m, t, k, n - 1) + [] == FramesBelow(m, t, k, n - 1);
      } else if k == 1 {
        OneFrame(m, t, p, n - 1);
        FramesJoin(m, t, k, vs, FramesBelow(m, t, k, n - 1), t, k, [b], [e.frame], a, b, c);
        vs := vs + [b];
      } else {
        var ws := FramesBelowOk(m, e.frame, k - 1, q, ENTRIES);
        NodeEnd(q, k - 1);
        FramesJoin(m, t, k, vs, FramesBelow(m, t, k, n - 1), e.frame, k - 1, ws,
                   FramesBelow(m, e.frame, k - 1, ENTRIES), a, b, c);
        vs := vs + ws;
      }
    }
  }

  lemma NoFrames(m: Mem, t: Mfn, k: nat, a: nat, b: nat)
    requires k >= 1 && forall v: nat :: a <= v < b ==> Mapping(m, t, k, v) == FREE
    ensures FramesMatch(m, t, k, [], [], a, b)
  {
  }

  lemma OneFrame(m: Mem, t: Mfn, p: nat, i: nat)
    requires i < ENTRIES && Get(m, Slot(t, i)) != FREE
    ensures FramesMatch(m, t, 1, [Base(p * 512 + i, 0)], [Get(m, Slot(t, i)).frame], Base(p * 512 + i, 0),
                        Base(p * 512 + i + 1, 0))
  {
    EntryMapping(m, t, 1, p, i, p * 512 + i);
  }

  /** The frames released by tearing down an address space are those its user pages are mapped to, once for each
      page. */
  lemma FramesAreUserFrames(m: Mem, root: Mfn) returns (vs: seq<nat>)
    ensures FramesMatch(m, root, 4, vs, FramesBelow(m, root, 4, USER_ENTRIES), 0, USER_PAGES)
  {
    vs := FramesBelowOk(m, root, 4, 0, USER_ENTRIES);
    UserBounds();
  }

  // ------------------------------------------------------------------- tearing down

  /** Entry `s` of `m0` once the slots `zs` have been cleared and the entries `own` made writable. */
  ghost function Torn(m0: Mem, zs: seq<Slot>, own: set<Slot>, s: Slot): Pte {
    if s in zs then FREE else if s in own then SetRw(Get(m0, s)) else Get(m0, s)
  }

  /** The kernel's own mapping of a table page. */
  ghost function OwnSlot(m0: Mem, root: Mfn, kp: map<Mfn, nat>, p: Mfn): Slot
    requires p in kp
  {
    match LeafSlot(m0, root, 4, kp[p])
    case Some(s) => s
    case None => Slot(0, ENTRIES)
  }

  /** The own mappings of the table pages hung in the slots `zs`. */
  ghost function OwnOf(m0: Mem, root: Mfn, kp: map<Mfn, nat>, zs: seq<Slot>): set<Slot> {
    set s | s in zs && Get(m0, s).frame in kp :: OwnSlot(m0, root, kp, Get(m0, s).frame)
  }

  /** A table page becomes writable only after the slot it hung in below the kernel root has been cleared; the other
      upper slots, those of the user root among them, are as at the start, and so are these until they are cleared. */
  ghost predicate Ordered(m0: Mem, place0: Places, root: Mfn, kp: map<Mfn, nat>, all: seq<Slot>, m: Mem) {
    && (forall s :: s in all && Get(m0, s).frame in kp ==>
          var own := OwnSlot(m0, root, kp, Get(m0, s).frame);
          Get(m, own) != Get(m0, own) ==> Get(m, s) == FREE)
    && (forall s: Slot :: s.page in place0 && place0[s.page].level >= 2 ==>
          Get(m, s) == Get(m0, s) || (s in all && Get(m, s) == FREE))
  }

  /** What the walk relies on: `all` are the slots to clear, and the kernel maps the table pages in them. */
  ghost predicate Teardown(m0: Mem, place0: Places, root: Mfn, sp: nat, kp: map<Mfn, nat>, all: seq<Slot>) {
    && Tree(m0, place0) && IsRoot(place0, root, sp) && sp != 0 && KernelPagesOk(kp)
    && SlotsOk(m0, place0, sp, 4, all, 0, USER_PAGES)
    && (forall s :: s in all ==>
          var p := Get(m0, s).frame; p in kp && LeafSlot(m0, root, 4, kp[p]).Some? && KernelHas(m0, root, kp, p))
  }

  /** Own mappings are leaf entries of the kernel half. */
  lemma OwnSlotPlace(m0: Mem, place0: Places, root: Mfn, sp: nat, kp: map<Mfn, nat>, p: Mfn)
    requires Tree(m0, place0) && IsRoot(place0, root, sp) && KernelPagesOk(kp)
    requires p in kp && LeafSlot(m0, root, 4, kp[p]).Some?
    ensures
      var own := OwnSlot(m0, root, kp, p);
      own.page in place0 && place0[own.page].level == 1 && place0[own.page].space == 0
  {
    RootAt(place0, root, sp, kp[p]);
    WalkPlace(m0, place0, root, sp, 4, kp[p]);
  }

  /** The state of the teardown: the slots `zs`, the first ones of `all`, have been cleared; memory shows some part of
      this, memory after the queue all of it. */
  ghost predicate Tearing(m0: Mem, place0: Places, root: Mfn, sp: nat, kp: map<Mfn, nat>, all: seq<Slot>,
                          zs: seq<Slot>, live: Mem, eff: Mem)
  {
    && zs <= all
    && (forall s :: Get(eff, s) == Torn(m0, zs, OwnOf(m0, root, kp, zs), s))
    && (forall s :: Get(live, s) == Get(m0, s) || Get(live, s) == Torn(m0, zs, OwnOf(m0, root, kp, zs), s))
  }

  /** An entry that is neither cleared nor an own mapping is as at the start in memory. */
  lemma LiveEntry(m0: Mem, place0: Places, root: Mfn, sp: nat, kp: map<Mfn, nat>, all: seq<Slot>, zs: seq<Slot>,
                  live: Mem, eff: Mem, s: Slot)
    requires Teardown(m0, place0, root, sp, kp, all) && Tearing(m0, place0, root, sp, kp, all, zs, live, eff)
    requires s.page in place0 && (place0[s.page].level == 1 ==> place0[s.page].space != 0) && s !in zs
    ensures Get(live, s) == Get(m0, s)
  {
    hide StartBelow, Tree, LeafSlot;
    if s in OwnOf(m0, root, kp, zs) {
      var z :| z in zs && Get(m0, z).frame in kp && OwnSlot(m0, root, kp, Get(m0, z).frame) == s;
      assert z in all;
      OwnSlotPlace(m0, place0, root, sp, kp, Get(m0, z).frame);
    }
  }

  /** In the teardown, the kernel's mapping of any page is found where it was at the start. */
  lemma LiveKernelWalk(m0: Mem, place0: Places, root: Mfn, sp: nat, kp: map<Mfn, nat>, all: seq<Slot>, zs: seq<Slot>,
                       live: Mem, eff: Mem, p: Mfn)
    requires Teardown(m0, place0, root, sp, kp, all) && Tearing(m0, place0, root, sp, kp, all, zs, live, eff)
    requires p in kp && LeafSlot(m0, root, 4, kp[p]).Some? && KernelHas(m0, root, kp, p)
    ensures LeafSlot(live, root, 4, kp[p]) == LeafSlot(m0, root, 4, kp[p])
    ensures Get(live, OwnSlot(m0, root, kp, p)) != FREE
    ensures SetRw(Get(live, OwnSlot(m0, root, kp, p))) == SetRw(Get(m0, OwnSlot(m0, root, kp, p)))
  {
    RootAt(place0, root, sp, kp[p]);
    TopShr(kp[p]);
    OwnSlotPlace(m0, place0, root, sp, kp, p);
    forall u | u in place0 && (u == root || (2 <= place0[u].level < 4 && place0[u].space == 0))
      ensures Get(live, Slot(u, Idx(kp[p], place0[u].level))) == Get(m0, Slot(u, Idx(kp[p], place0[u].level)))
    {
      if u == root {
        KernelTop(place0, root, sp, Idx(kp[p], 4));
      }
      LiveEntry(m0, place0, root, sp, kp, all, zs, live, eff, Slot(u, Idx(kp[p], place0[u].level)));
    }
    WalkSame(m0, live, place0, root, sp, 4, kp[p]);
    SetTwice(Get(m0, OwnSlot(m0, root, kp, p)));
  }

  lemma SetTwice(p: Pte)
    ensures SetRw(SetRw(p)) == SetRw(p) && Writable(SetRw(p))
    ensures p != FREE ==> SetRw(p) != FREE
  {
  }

  /** A kernel entry of the root belongs to a node after the user half. */
  lemma KernelTop(place: Places, root: Mfn, sp: nat, i: nat)
    requires IsRoot(place, root, sp) && USER_ENTRIES <= i < ENTRIES
    ensures StartBelow(place, Slot(root, i)) >= USER_PAGES
  {
    ShrBase(i, 3);
    assert Base(USER_ENTRIES, 3) == USER_PAGES by { UserBounds(); }
    ShrBase(USER_ENTRIES, 3);
    BaseShr(USER_ENTRIES, Base(i, 3), 3);
  }

  lemma OwnOfAppend(m0: Mem, root: Mfn, kp: map<Mfn, nat>, zs: seq<Slot>, z: Slot)
    requires Get(m0, z).frame in kp
    ensures OwnOf(m0, root, kp, zs + [z]) == OwnOf(m0, root, kp, zs) + {OwnSlot(m0, root, kp, Get(m0, z).frame)}
  {
  }

  /** No own mapping is among the slots to clear. */
  lemma OwnNotCleared(m0: Mem, place0: Places, root: Mfn, sp: nat, kp: map<Mfn, nat>, all: seq<Slot>, zs: seq<Slot>,
                      ys: seq<Slot>)
    requires Teardown(m0, place0, root, sp, kp, all)
    requires (forall s :: s in zs ==> s in all) && (forall s :: s in ys ==> s in all)
    ensures forall s :: s in OwnOf(m0, root, kp, ys) ==> s !in zs
  {
    hide StartBelow, Tree, LeafSlot;
    forall s | s in OwnOf(m0, root, kp, ys)
      ensures s !in zs
    {
      var y :| y in ys && Get(m0, y).frame in kp && OwnSlot(m0, root, kp, Get(m0, y).frame) == s;
      assert y in all;
      OwnSlotPlace(m0, place0, root, sp, kp, Get(m0, y).frame);
      assert s !in all;
    }
  }

  /** Clearing one more slot and then making its table page writable. */
  lemma TearStep(m0: Mem, place0: Places, root: Mfn, sp: nat, kp: map<Mfn, nat>, all: seq<Slot>, zs: seq<Slot>,
                 live: Mem, eff: Mem, z: Slot, eff1: Mem, live2: Mem, eff2: Mem)
    requires Teardown(m0, place0, root, sp, kp, all) && Tearing(m0, place0, root, sp, kp, all, zs, live, eff)
    requires zs + [z] <= all
    requires eff1 == eff[z := FREE] && Get(m0, z).frame in kp
    requires var own := OwnSlot(m0, root, kp, Get(m0, z).frame); eff2 == eff1[own := SetRw(Get(m0, own))]
    requires live2 == live || live2 == eff || live2 == eff1
    ensures Tearing(m0, place0, root, sp, kp, all, zs + [z], live2, eff2)
  {
    hide StartBelow, Tree, LeafSlot, SetRw, OwnSlot, OwnOf, Teardown;
    assert z == all[|zs|];
    TearFrame(m0, place0, root, sp, kp, all, z);
    var own := OwnSlot(m0, root, kp, Get(m0, z).frame);
    var before, after := OwnOf(m0, root, kp, zs), OwnOf(m0, root, kp, zs + [z]);
    OwnOfAppend(m0, root, kp, zs, z);
    OwnNotCleared(m0, place0, root, sp, kp, all, zs + [z], zs + [z]);
    forall s
      ensures Get(eff1, s) == if s in zs + [z] then FREE else if s in before then SetRw(Get(m0, s)) else Get(m0, s)
      ensures Get(eff2, s) == Torn(m0, zs + [z], after, s)
      ensures Torn(m0, zs, before, s) == Get(m0, s) || Torn(m0, zs, before, s) == Torn(m0, zs + [z], after, s)
    {
      assert Get(eff, s) == Torn(m0, zs, before, s);
      assert own !in zs + [z];
    }
  }

  lemma TearFrame(m0: Mem, place0: Places, root: Mfn, sp: nat, kp: map<Mfn, nat>, all: seq<Slot>, z: Slot)
    requires Teardown(m0, place0, root, sp, kp, all) && z in all
    ensures Get(m0, z).frame in kp && LeafSlot(m0, root, 4, kp[Get(m0, z).frame]).Some?
  {
  }

  /** Two slots of the teardown whose table pages have the same own mapping are one. */
  lemma SameOwn(m0: Mem, place0: Places, root: Mfn, sp: nat, kp: map<Mfn, nat>, all: seq<Slot>, s: Slot, z: Slot)
    requires Teardown(m0, place0, root, sp, kp, all) && s in all && z in all
    requires Get(m0, s).frame in kp && Get(m0, z).frame in kp
    requires OwnSlot(m0, root, kp, Get(m0, s).frame) == OwnSlot(m0, root, kp, Get(m0, z).frame)
    ensures s == z
  {
    hide StartBelow;
    var p, q := Get(m0, s).frame, Get(m0, z).frame;
    RootAt(place0, root, sp, kp[p]);
    RootAt(place0, root, sp, kp[q]);
    LeafSlotInjective(m0, place0, root, sp, kp[p], root, sp, kp[q]);
    assert p == q;
    TreeEntry(m0, place0, s);
    TreeEntry(m0, place0, z);
    assert NodeBelow(place0, s) == NodeBelow(place0, z);
    var i :| 0 <= i < |all| && all[i] == s;
    var j :| 0 <= j < |all| && all[j] == z;
  }

  /** A memory in which the slots `zs` are cleared and at most their own mappings changed is in order. */
  lemma TornIsOrdered(m0: Mem, place0: Places, root: Mfn, sp: nat, kp: map<Mfn, nat>, all: seq<Slot>, zs: seq<Slot>,
                      m: Mem)
    requires Teardown(m0, place0, root, sp, kp, all) && forall s :: s in zs ==> s in all
    requires forall s :: s in zs ==> Get(m, s) == FREE
    requires forall s :: s !in zs && s !in OwnOf(m0, root, kp, zs) ==> Get(m, s) == Get(m0, s)
    ensures Ordered(m0, place0, root, kp, all, m)
  {
    hide StartBelow, Tree, LeafSlot, SetRw, OwnSlot, SlotsOk;
    forall s | s in all && Get(m0, s).frame in kp
      ensures var own := OwnSlot(m0, root, kp, Get(m0, s).frame); Get(m, own) != Get(m0, own) ==> Get(m, s) == FREE
    {
      var own := OwnSlot(m0, root, kp, Get(m0, s).frame);
      if Get(m, own) != Get(m0, own) {
        OwnNotCleared(m0, place0, root, sp, kp, all, zs, [s]);
        assert own in OwnOf(m0, root, kp, [s]);
        var z :| z in zs && Get(m0, z).frame in kp && OwnSlot(m0, root, kp, Get(m0, z).frame) == own;
        SameOwn(m0, place0, root, sp, kp, all, s, z);
      }
    }
    forall s: Slot | s.page in place0 && place0[s.page].level >= 2
      ensures Get(m, s) == Get(m0, s) || (s in all && Get(m, s) == FREE)
    {
      UpperNotOwn(m0, place0, root, sp, kp, all, zs, s);
    }
  }

  /** An upper slot is no own mapping. */
  lemma UpperNotOwn(m0: Mem, place0: Places, root: Mfn, sp: nat, kp: map<Mfn, nat>, all: seq<Slot>, zs: seq<Slot>,
                    s: Slot)
    requires Teardown(m0, place0, root, sp, kp, all) && forall z :: z in zs ==> z in all
    requires s.page in place0 && place0[s.page].level >= 2
    ensures s !in OwnOf(m0, root, kp, zs)
  {
    hide StartBelow, Tree, LeafSlot, OwnSlot, SlotsOk;
    if z :| z in zs && Get(m0, z).frame in kp && OwnSlot(m0, root, kp, Get(m0, z).frame) == s {
      OwnSlotPlace(m0, place0, root, sp, kp, Get(m0, z).frame);
    }
  }


  /** The state of the object during the teardown; `trace0` is its trace at the start. */
  ghost predicate InTeardown(mmu: Mmu, m0: Mem, place0: Places, root: Mfn, sp: nat, all: seq<Slot>, zs: seq<Slot>,
                             trace0: seq<Mem>, pages0: seq<Mfn>)
    reads mmu
  {
    && Teardown(m0, place0, root, sp, mmu.kernelPage, all)
    && Tearing(m0, place0, root, sp, mmu.kernelPage, all, zs, mmu.mem, mmu.Eff())
    && mmu.freedPages == pages0 + PagesOf(m0, zs)
    && TraceOrdered(trace0, mmu.Trace(), m0, place0, root, mmu.kernelPage, all)
  }

  /** Every memory of the trace since `trace0` is in order. */
  ghost predicate TraceOrdered(trace0: seq<Mem>, trace: seq<Mem>, m0: Mem, place0: Places, root: Mfn, kp: map<Mfn, nat>,
                               all: seq<Slot>)
  {
    trace0 <= trace && forall m :: m in trace[|trace0|..] ==> Ordered(m0, place0, root, kp, all, m)
  }

  lemma TraceStarts(trace0: seq<Mem>, m0: Mem, place0: Places, root: Mfn, kp: map<Mfn, nat>, all: seq<Slot>)
    ensures TraceOrdered(trace0, trace0, m0, place0, root, kp, all)
  {
  }

  lemma TraceGrows(trace0: seq<Mem>, trace: seq<Mem>, m0: Mem, place0: Places, root: Mfn, kp: map<Mfn, nat>,
                   all: seq<Slot>, m: Mem)
    requires TraceOrdered(trace0, trace, m0, place0, root, kp, all) && Ordered(m0, place0, root, kp, all, m)
    ensures TraceOrdered(trace0, trace + [m], m0, place0, root, kp, all)
  {
    hide Ordered;
    assert (trace + [m])[|trace0|..] == trace[|trace0|..] + [m];
  }

  /** _ptpFree: the table page in slot `z` is given back, the slot cleared and the page made writable. */
  method PtpFree(mmu: Mmu, root: Mfn, z: Slot, ghost m0: Mem, ghost place0: Places, ghost sp: nat, ghost all: seq<Slot>,
                 ghost zs: seq<Slot>, ghost trace0: seq<Mem>, ghost pages0: seq<Mfn>)
    requires InTeardown(mmu, m0, place0, root, sp, all, zs, trace0, pages0)
    requires zs + [z] <= all
    modifies mmu`mem, mmu`queue, mmu`history, mmu`freedPages
    ensures InTeardown(mmu, m0, place0, root, sp, all, zs + [z], trace0, pages0)
  {
    hide StartBelow, Tree, LeafSlot, SetRw, OwnSlot, SlotsOk, Ordered, Torn, KernelPagesOk, TraceOrdered, Tearing;
    ghost var live, eff, kp, trace := mmu.mem, mmu.Eff(), mmu.kernelPage, mmu.Trace();
    NextSlot(m0, place0, sp, all, zs, z);
    LiveEntry(m0, place0, root, sp, kp, all, zs, live, eff, z);
    TearFrame(m0, place0, root, sp, kp, all, z);
    var child := Get(mmu.mem, z).frame;
    LiveKernelWalk(m0, place0, root, sp, kp, all, zs, live, eff, child);
    OwnSlotIs(m0, root, kp, child);
    mmu.freedPages := mmu.freedPages + [child];
    var own := LeafSlot(mmu.mem, root, 4, mmu.kernelPage[child]).value;
    assert Get(mmu.mem, own) != FREE;
    var writable := SetRw(Get(mmu.mem, own));
    mmu.DeferredUpdate(z, FREE);
    ghost var eff1 := mmu.Eff();
    mmu.DeferredUpdate(own, writable);
    TearStep(m0, place0, root, sp, kp, all, zs, live, eff, z, eff1, mmu.mem, mmu.Eff());
    TearOrdered(m0, place0, root, sp, kp, all, zs, live, eff, z, eff1, mmu.Eff());
    TraceGrows(trace0, trace, m0, place0, root, kp, all, eff1);
    TraceGrows(trace0, trace + [eff1], m0, place0, root, kp, all, mmu.Eff());
    PagesOfAppend(m0, zs, z);
  }

  /** The next slot to clear has not been cleared yet. */
  lemma NextSlot(m0: Mem, place0: Places, sp: nat, all: seq<Slot>, zs: seq<Slot>, z: Slot)
    requires SlotsOk(m0, place0, sp, 4, all, 0, USER_PAGES) && zs + [z] <= all
    ensures z !in zs && z in all && UserSlot(place0, sp, z, 0, USER_PAGES) && Get(m0, z) != FREE
  {
    hide StartBelow;
    assert z == all[|zs|];
    forall i | 0 <= i < |zs|
      ensures zs[i] != z
    {
      assert all[i] in all && NodeBelow(place0, all[i]) != NodeBelow(place0, all[|zs|]);
    }
  }

  lemma OwnSlotIs(m0: Mem, root: Mfn, kp: map<Mfn, nat>, p: Mfn)
    requires p in kp && LeafSlot(m0, root, 4, kp[p]).Some?
    ensures OwnSlot(m0, root, kp, p) == LeafSlot(m0, root, 4, kp[p]).value
  {
  }

  /** Both memories the hypervisor goes through on the way are in order. */
  lemma TearOrdered(m0: Mem, place0: Places, root: Mfn, sp: nat, kp: map<Mfn, nat>, all: seq<Slot>, zs: seq<Slot>,
                    live: Mem, eff: Mem, z: Slot, eff1: Mem, eff2: Mem)
    requires Teardown(m0, place0, root, sp, kp, all) && Tearing(m0, place0, root, sp, kp, all, zs, live, eff)
    requires zs + [z] <= all && Get(m0, z).frame in kp && eff1 == eff[z := FREE]
    requires var own := OwnSlot(m0, root, kp, Get(m0, z).frame); eff2 == eff1[own := SetRw(Get(m0, own))]
    ensures Ordered(m0, place0, root, kp, all, eff1) && Ordered(m0, place0, root, kp, all, eff2)
  {
    hide StartBelow, Tree, LeafSlot, SetRw, OwnSlot, SlotsOk, Ordered, UserSlot;
    var own := OwnSlot(m0, root, kp, Get(m0, z).frame);
    var before := OwnOf(m0, root, kp, zs);
    OwnOfAppend(m0, root, kp, zs, z);
    OwnNotCleared(m0, place0, root, sp, kp, all, zs + [z], zs + [z]);
    forall s
      ensures s in zs + [z] ==> Get(eff1, s) == FREE && Get(eff2, s) == FREE
      ensures s !in zs + [z] && s !in OwnOf(m0, root, kp, zs + [z]) ==> Get(eff1, s) == Get(m0, s) == Get(eff2, s)
    {
      assert Get(eff, s) == Torn(m0, zs, before, s);
      assert own !in zs + [z];
    }
    TornIsOrdered(m0, place0, root, sp, kp, all, zs + [z], eff1);
    TornIsOrdered(m0, place0, root, sp, kp, all, zs + [z], eff2);
  }

  /** The slots of fewer entries come first. */
  lemma {:induction false} SlotsPrefix(m: Mem, t: Mfn, k: nat, l: nat, n: nat)
    requires k >= 1 && l <= n
    ensures SlotsBelow(m, t, k, l) <= SlotsBelow(m, t, k, n)
    decreases n - l
  {
    if l < n {
      SlotsPrefix(m, t, k, l, n - 1);
      SlotsUnfold(m, t, k, n);
    }
  }

  /** The slots of one entry follow those of the entries before. */
  lemma SlotsNext(m: Mem, t: Mfn, k: nat, l: nat, n: nat, zs: seq<Slot>, all: seq<Slot>)
    requires k >= 2 && l < n && zs + SlotsBelow(m, t, k, n) <= all && Get(m, Slot(t, l)) != FREE
    ensures
      var c := Get(m, Slot(t, l)).frame;
      var here := zs + SlotsBelow(m, t, k, l);
      && here + SlotsBelow(m, c, k - 1, ENTRIES) <= all
      && here + SlotsBelow(m, c, k - 1, ENTRIES) + [Slot(t, l)] <= all
      && here + SlotsBelow(m, c, k - 1, ENTRIES) + [Slot(t, l)] == zs + SlotsBelow(m, t, k, l + 1)
  {
    hide SlotsBelow, Get;
    var below := SlotsBelow(m, Get(m, Slot(t, l)).frame, k - 1, ENTRIES);
    SlotsUnfold(m, t, k, l + 1);
    SlotsPrefix(m, t, k, l + 1, n);
    JoinSlots(zs, SlotsBelow(m, t, k, l), below, [Slot(t, l)]);
    PrefixSlots(zs, SlotsBelow(m, t, k, l + 1), SlotsBelow(m, t, k, n), all);
    FrontSlots(zs + SlotsBelow(m, t, k, l) + below, [Slot(t, l)], all);
  }

  lemma JoinSlots(z: seq<Slot>, a: seq<Slot>, b: seq<Slot>, c: seq<Slot>)
    ensures z + a + b + c == z + (a + (b + c))
  {
  }

  lemma PrefixSlots(z: seq<Slot>, a: seq<Slot>, b: seq<Slot>, all: seq<Slot>)
    requires a <= b && z + b <= all
    ensures z + a <= all
  {
    assert z + a <= z + b;
  }

  lemma FrontSlots(a: seq<Slot>, b: seq<Slot>, all: seq<Slot>)
    requires a + b <= all
    ensures a <= all
  {
    assert a <= a + b;
  }

  /** The frames an entry releases. */
  ghost function FramesOf(m: Mem, t: Mfn, k: nat, l: nat): seq<Mfn>
    requires k >= 1
  {
    var e := Get(m, Slot(t, l));
    if e == FREE then [] else if k == 1 then [e.frame] else FramesBelow(m, e.frame, k - 1, ENTRIES)
  }

  /** The body of the loops of _offlineFree, for entry `l` of table `t` of level `k`. */
  method FreeEntry(mmu: Mmu, root: Mfn, t: Mfn, k: nat, l: nat, ghost m0: Mem, ghost place0: Places, ghost sp: nat,
                   ghost all: seq<Slot>, ghost zs: seq<Slot>, ghost trace0: seq<Mem>, ghost pages0: seq<Mfn>)
    requires 1 <= k <= 4 && t in place0 && place0[t].level == k && place0[t].space == sp && l < UserEntries(k)
    requires InTeardown(mmu, m0, place0, root, sp, all, zs + SlotsBelow(m0, t, k, l), trace0, pages0)
    requires zs + SlotsBelow(m0, t, k, UserEntries(k)) <= all
    modifies mmu`mem, mmu`queue, mmu`history, mmu`freedPages, mmu`freedFrames
    ensures InTeardown(mmu, m0, place0, root, sp, all, zs + SlotsBelow(m0, t, k, l + 1), trace0, pages0)
    ensures mmu.freedFrames == old(mmu.freedFrames) + FramesOf(m0, t, k, l)
    decreases k, 1
  {
    hide InTeardown, Tree, SlotsBelow, FramesBelow;
    EntryAtStart(mmu, root, t, k, l, m0, place0, sp, all, zs, trace0, pages0);
    var e := Get(mmu.mem, Slot(t, l));
    SlotsUnfold(m0, t, k, l + 1);
    if e == FREE {
      SlotsUnfold(m0, t, k, l);
    } else if k == 1 {
      SlotsUnfold(m0, t, k, l);
      ReleaseFrame(mmu, e.frame, root, m0, place0, sp, all, zs + SlotsBelow(m0, t, k, l), trace0, pages0);
    } else {
      FreeBelow(mmu, root, t, k, l, m0, place0, sp, all, zs, trace0, pages0);
    }
  }

  lemma EntryAtStart(mmu: Mmu, root: Mfn, t: Mfn, k: nat, l: nat, m0: Mem, place0: Places, sp: nat, all: seq<Slot>,
                     zs: seq<Slot>, trace0: seq<Mem>, pages0: seq<Mfn>)
    requires 1 <= k <= 4 && t in place0 && place0[t].level == k && place0[t].space == sp && l < UserEntries(k)
    requires InTeardown(mmu, m0, place0, root, sp, all, zs + SlotsBelow(m0, t, k, l), trace0, pages0)
    requires zs + SlotsBelow(m0, t, k, UserEntries(k)) <= all
    ensures Get(mmu.mem, Slot(t, l)) == Get(m0, Slot(t, l)) && Tree(m0, place0)
  {
    hide StartBelow, Tree, LeafSlot, SlotsBelow, SlotsOk, Ordered, Tearing, TraceOrdered, KernelPagesOk;
    EntryNotCleared(m0, place0, root, sp, mmu.kernelPage, all, zs + SlotsBelow(m0, t, k, l), t, k, l, zs, mmu.mem,
                    mmu.Eff());
  }

  /** pageTablePfnUserFree */
  method ReleaseFrame(mmu: Mmu, f: Mfn, ghost root: Mfn, ghost m0: Mem, ghost place0: Places, ghost sp: nat,
                      ghost all: seq<Slot>, ghost zs: seq<Slot>, ghost trace0: seq<Mem>, ghost pages0: seq<Mfn>)
    requires InTeardown(mmu, m0, place0, root, sp, all, zs, trace0, pages0)
    modifies mmu`freedFrames
    ensures InTeardown(mmu, m0, place0, root, sp, all, zs, trace0, pages0)
    ensures mmu.freedFrames == old(mmu.freedFrames) + [f]
  {
    hide Teardown, Tearing, TraceOrdered;
    mmu.freedFrames := mmu.freedFrames + [f];
  }

  /** The loops below an entry in use, and then its table. */
  method FreeBelow(mmu: Mmu, root: Mfn, t: Mfn, k: nat, l: nat, ghost m0: Mem, ghost place0: Places, ghost sp: nat,
                   ghost all: seq<Slot>, ghost zs: seq<Slot>, ghost trace0: seq<Mem>, ghost pages0: seq<Mfn>)
    requires 2 <= k <= 4 && t in place0 && place0[t].level == k && place0[t].space == sp && l < UserEntries(k)
    requires InTeardown(mmu, m0, place0, root, sp, all, zs + SlotsBelow(m0, t, k, l), trace0, pages0)
    requires zs + SlotsBelow(m0, t, k, UserEntries(k)) <= all && Tree(m0, place0)
    requires Get(mmu.mem, Slot(t, l)) == Get(m0, Slot(t, l)) != FREE
    modifies mmu`mem, mmu`queue, mmu`history, mmu`freedPages, mmu`freedFrames
    ensures InTeardown(mmu, m0, place0, root, sp, all, zs + SlotsBelow(m0, t, k, l + 1), trace0, pages0)
    ensures mmu.freedFrames == old(mmu.freedFrames) + FramesBelow(m0, Get(m0, Slot(t, l)).frame, k - 1, ENTRIES)
    decreases k, 0
  {
    hide InTeardown, Tree, SlotsBelow, FramesBelow;
    var e := Get(mmu.mem, Slot(t, l));
    ghost var here := zs + SlotsBelow(m0, t, k, l);
    SlotsNext(m0, t, k, l, UserEntries(k), zs, all);
    ChildLevel(m0, place0, sp, t, k, l);
    FreeLevel(mmu, root, e.frame, k - 1, m0, place0, sp, all, here, trace0, pages0);
    PtpFree(mmu, root, Slot(t, l), m0, place0, sp, all, here + SlotsBelow(m0, e.frame, k - 1, ENTRIES), trace0, pages0);
  }

  /** One of the four nested loops of _offlineFree with the loops inside it. */
  method FreeLevel(mmu: Mmu, root: Mfn, t: Mfn, k: nat, ghost m0: Mem, ghost place0: Places, ghost sp: nat,
                   ghost all: seq<Slot>, ghost zs: seq<Slot>, ghost trace0: seq<Mem>, ghost pages0: seq<Mfn>)
    requires InTeardown(mmu, m0, place0, root, sp, all, zs, trace0, pages0)
    requires 1 <= k <= 4 && t in place0 && place0[t].level == k && place0[t].space == sp
    requires zs + SlotsBelow(m0, t, k, UserEntries(k)) <= all
    modifies mmu`mem, mmu`queue, mmu`history, mmu`freedPages, mmu`freedFrames
    ensures InTeardown(mmu, m0, place0, root, sp, all, zs + SlotsBelow(m0, t, k, UserEntries(k)), trace0, pages0)
    ensures mmu.freedFrames == old(mmu.freedFrames) + FramesBelow(m0, t, k, UserEntries(k))
    decreases k, 2
  {
    hide InTeardown, SlotsBelow, FramesBelow, FramesOf;
    var l := 0;
    NothingBelow(m0, t, k);
    assert zs + [] == zs;
    while l < UserEntries(k)
      invariant l <= UserEntries(k)
      invariant InTeardown(mmu, m0, place0, root, sp, all, zs + SlotsBelow(m0, t, k, l), trace0, pages0)
      invariant mmu.freedFrames == old(mmu.freedFrames) + FramesBelow(m0, t, k, l)
    {
      FramesUnfold(m0, t, k, l + 1);
      FreeEntry(mmu, root, t, k, l, m0, place0, sp, all, zs, trace0, pages0);
      l := l + 1;
    }
  }

  lemma NothingBelow(m: Mem, t: Mfn, k: nat)
    requires k >= 1
    ensures SlotsBelow(m, t, k, 0) == [] && FramesBelow(m, t, k, 0) == []
  {
  }

  lemma FramesUnfold(m: Mem, t: Mfn, k: nat, n: nat)
    requires k >= 1 && n >= 1
    ensures FramesBelow(m, t, k, n) == FramesBelow(m, t, k, n - 1) + FramesOf(m, t, k, n - 1)
  {
  }

  /** The loop reads every entry as it was at the start. */
  lemma EntryNotCleared(m0: Mem, place0: Places, root: Mfn, sp: nat, kp: map<Mfn, nat>, all: seq<Slot>, here: seq<Slot>,
                        t: Mfn, k: nat, l: nat, zs: seq<Slot>, live: Mem, eff: Mem)
    requires Teardown(m0, place0, root, sp, kp, all) && Tearing(m0, place0, root, sp, kp, all, here, live, eff)
    requires 1 <= k <= 4 && t in place0 && place0[t].level == k && place0[t].space == sp && l < UserEntries(k)
    requires here == zs + SlotsBelow(m0, t, k, l) && zs + SlotsBelow(m0, t, k, UserEntries(k)) <= all
    ensures Get(live, Slot(t, l)) == Get(m0, Slot(t, l))
  {
    hide StartBelow, Tree, LeafSlot, SlotsBelow;
    var s := Slot(t, l);
    if k >= 2 && Get(m0, s) != FREE {
      SlotsNext(m0, t, k, l, UserEntries(k), zs, all);
      NextSlot(m0, place0, sp, all, here + SlotsBelow(m0, Get(m0, s).frame, k - 1, ENTRIES), s);
    } else {
      assert forall z :: z in here ==> z in all;
    }
    LiveEntry(m0, place0, root, sp, kp, all, here, live, eff, s);
  }

  /** The user entries of the root that are in use are among the slots to clear. */
  lemma RootSlotListed(m: Mem, root: Mfn, i: nat)
    requires i < USER_ENTRIES && Get(m, Slot(root, i)) != FREE
    ensures Slot(root, i) in SlotsBelow(m, root, 4, USER_ENTRIES)
  {
    hide SlotsBelow;
    SlotsUnfold(m, root, 4, i + 1);
    SlotsPrefix(m, root, 4, i + 1, USER_ENTRIES);
    var ss := SlotsBelow(m, root, 4, i + 1);
    assert ss[|ss| - 1] == Slot(root, i);
  }

  /** What archPageTableFree needs of the kernel half: the kernel maps the roots and all user tables. */
  ghost predicate Freeable(m: Mem, place: Places, root: Mfn, userRoot: Mfn, sp: nat, kp: map<Mfn, nat>) {
    && Tree(m, place) && IsRoot(place, root, sp) && IsRoot(place, userRoot, sp) && sp != 0 && KernelPagesOk(kp)
    && (forall p :: p == root || p == userRoot || UserTable(m, root, p) ==>
          p in kp && LeafSlot(m, root, 4, kp[p]).Some? && KernelHas(m, root, kp, p))
  }

  /** Memory after archPageTableFree: the slots of the user tables are cleared, the own mappings of the tables and
      of both roots are writable, and nothing else has changed. */
  ghost predicate FreedMemory(m0: Mem, m: Mem, root: Mfn, userRoot: Mfn, kp: map<Mfn, nat>)
    requires root in kp && userRoot in kp
  {
    var all := SlotsBelow(m0, root, 4, USER_ENTRIES);
    forall s :: Get(m, s) == Torn(m0, all, OwnFreed(m0, root, userRoot, kp), s)
  }

  /** The entries that have become writable. */
  ghost function OwnFreed(m0: Mem, root: Mfn, userRoot: Mfn, kp: map<Mfn, nat>): set<Slot>
    requires root in kp && userRoot in kp
  {
    OwnOf(m0, root, kp, SlotsBelow(m0, root, 4, USER_ENTRIES))
    + {OwnSlot(m0, root, kp, root), OwnSlot(m0, root, kp, userRoot)}
  }

  lemma StartTeardown(m: Mem, place: Places, root: Mfn, userRoot: Mfn, sp: nat, kp: map<Mfn, nat>)
    requires Freeable(m, place, root, userRoot, sp, kp)
    ensures
      var all := SlotsBelow(m, root, 4, USER_ENTRIES);
      Teardown(m, place, root, sp, kp, all) && Tearing(m, place, root, sp, kp, all, [], m, m)
  {
    hide SlotsBelow, Tree, LeafSlot, StartBelow, SlotsOk, UserTable, KernelPagesOk;
    var all := SlotsBelow(m, root, 4, USER_ENTRIES);
    SlotsBelowOk(m, place, sp, root, 4, 0, USER_ENTRIES);
    UserBounds();
    forall s | s in all
      ensures var p := Get(m, s).frame; p in kp && LeafSlot(m, root, 4, kp[p]).Some? && KernelHas(m, root, kp, p)
    {
      ListedIsTable(m, place, root, sp, s);
    }
    assert OwnOf(m, root, kp, []) == {};
  }

  /** The roots' own mappings are neither slots to clear nor own mappings of tables. */
  lemma RootOwn(m0: Mem, place0: Places, root: Mfn, sp: nat, kp: map<Mfn, nat>, all: seq<Slot>, r: Mfn)
    requires Teardown(m0, place0, root, sp, kp, all) && IsRoot(place0, r, sp)
    requires r in kp && LeafSlot(m0, root, 4, kp[r]).Some?
    ensures OwnSlot(m0, root, kp, r) !in all && OwnSlot(m0, root, kp, r) !in OwnOf(m0, root, kp, all)
  {
    hide StartBelow, Tree, LeafSlot, OwnSlot;
    OwnSlotPlace(m0, place0, root, sp, kp, r);
    var own := OwnSlot(m0, root, kp, r);
    assert own !in all;
    if own in OwnOf(m0, root, kp, all) {
      var s :| s in all && Get(m0, s).frame in kp && OwnSlot(m0, root, kp, Get(m0, s).frame) == own;
      SameFrameOwn(m0, place0, root, sp, kp, r, Get(m0, s).frame);
      TreeEntry(m0, place0, s);
      assert false;
    }
  }

  lemma SameFrameOwn(m0: Mem, place0: Places, root: Mfn, sp: nat, kp: map<Mfn, nat>, p: Mfn, q: Mfn)
    requires Tree(m0, place0) && IsRoot(place0, root, sp) && KernelPagesOk(kp) && p in kp && q in kp
    requires LeafSlot(m0, root, 4, kp[p]).Some? && LeafSlot(m0, root, 4, kp[q]).Some?
    requires OwnSlot(m0, root, kp, p) == OwnSlot(m0, root, kp, q)
    ensures p == q
  {
    RootAt(place0, root, sp, kp[p]);
    RootAt(place0, root, sp, kp[q]);
    LeafSlotInjective(m0, place0, root, sp, kp[p], root, sp, kp[q]);
  }

  /** Making a root writable keeps memory in order. */
  lemma RootWritable(m0: Mem, place0: Places, root: Mfn, sp: nat, kp: map<Mfn, nat>, all: seq<Slot>, r: Mfn, m: Mem,
                     p: Pte)
    requires Teardown(m0, place0, root, sp, kp, all) && IsRoot(place0, r, sp)
    requires r in kp && LeafSlot(m0, root, 4, kp[r]).Some? && Ordered(m0, place0, root, kp, all, m)
    ensures Ordered(m0, place0, root, kp, all, m[OwnSlot(m0, root, kp, r) := p])
  {
    hide StartBelow, Tree, LeafSlot, OwnSlot, SlotsOk;
    var own, n := OwnSlot(m0, root, kp, r), m[OwnSlot(m0, root, kp, r) := p];
    RootOwn(m0, place0, root, sp, kp, all, r);
    OwnSlotPlace(m0, place0, root, sp, kp, r);
    forall s | s in all && Get(m0, s).frame in kp
      ensures var o := OwnSlot(m0, root, kp, Get(m0, s).frame); Get(n, o) != Get(m0, o) ==> Get(n, s) == FREE
    {
      var o := OwnSlot(m0, root, kp, Get(m0, s).frame);
      assert o in OwnOf(m0, root, kp, all);
      assert Get(n, o) == Get(m, o) && Get(n, s) == Get(m, s);
    }
  }

  lemma TearingFlushed(m0: Mem, place0: Places, root: Mfn, sp: nat, kp: map<Mfn, nat>, all: seq<Slot>, zs: seq<Slot>,
                       live: Mem, eff: Mem)
    requires Tearing(m0, place0, root, sp, kp, all, zs, live, eff)
    ensures Tearing(m0, place0, root, sp, kp, all, zs, eff, eff)
  {
  }

  lemma TearingOrdered(m0: Mem, place0: Places, root: Mfn, sp: nat, kp: map<Mfn, nat>, all: seq<Slot>, live: Mem,
                       eff: Mem)
    requires Teardown(m0, place0, root, sp, kp, all) && Tearing(m0, place0, root, sp, kp, all, all, live, eff)
    ensures Ordered(m0, place0, root, kp, all, eff)
  {
    hide Teardown, OwnOf, Ordered, OwnSlot;
    forall s
      ensures s in all ==> Get(eff, s) == FREE
      ensures s !in all && s !in OwnOf(m0, root, kp, all) ==> Get(eff, s) == Get(m0, s)
    {
      assert Get(eff, s) == Torn(m0, all, OwnOf(m0, root, kp, all), s);
    }
    TornIsOrdered(m0, place0, root, sp, kp, all, all, eff);
  }

  lemma FreedBoth(m0: Mem, place0: Places, root: Mfn, userRoot: Mfn, sp: nat, kp: map<Mfn, nat>, live: Mem, eff: Mem,
                  m: Mem)
    requires Freeable(m0, place0, root, userRoot, sp, kp)
    requires
      var all := SlotsBelow(m0, root, 4, USER_ENTRIES);
      Teardown(m0, place0, root, sp, kp, all) && Tearing(m0, place0, root, sp, kp, all, all, live, eff)
    requires
      var r, u := OwnSlot(m0, root, kp, root), OwnSlot(m0, root, kp, userRoot);
      m == eff[r := SetRw(Get(m0, r))][u := SetRw(Get(m0, u))]
    ensures FreedMemory(m0, m, root, userRoot, kp)
  {
    hide StartBelow, Tree, LeafSlot, OwnSlot, SlotsOk, SlotsBelow, OwnOf, UserTable, Teardown;
    var all := SlotsBelow(m0, root, 4, USER_ENTRIES);
    RootOwn(m0, place0, root, sp, kp, all, root);
    RootOwn(m0, place0, root, sp, kp, all, userRoot);
    forall s
      ensures
        var roots := {OwnSlot(m0, root, kp, root), OwnSlot(m0, root, kp, userRoot)};
        Get(m, s) == Torn(m0, all, OwnOf(m0, root, kp, all) + roots, s)
    {
      assert Get(eff, s) == Torn(m0, all, OwnOf(m0, root, kp, all), s);
    }
  }

  /** The own mapping of root `r` is queued to become writable. */
  method RootWritableAgain(mmu: Mmu, root: Mfn, r: Mfn, ghost m0: Mem, ghost place0: Places, ghost sp: nat,
                           ghost all: seq<Slot>, ghost eff: Mem, ghost trace0: seq<Mem>)
    requires Teardown(m0, place0, root, sp, mmu.kernelPage, all) && IsRoot(place0, r, sp)
    requires Tearing(m0, place0, root, sp, mmu.kernelPage, all, all, mmu.mem, eff)
    requires r in mmu.kernelPage && LeafSlot(m0, root, 4, mmu.kernelPage[r]).Some?
    requires KernelHas(m0, root, mmu.kernelPage, r)
    requires Ordered(m0, place0, root, mmu.kernelPage, all, mmu.Eff())
    requires TraceOrdered(trace0, mmu.Trace(), m0, place0, root, mmu.kernelPage, all)
    modifies mmu`mem, mmu`queue, mmu`history
    ensures
      var own := OwnSlot(m0, root, mmu.kernelPage, r);
      mmu.Eff() == old(mmu.Eff())[own := SetRw(Get(m0, own))]
    ensures Ordered(m0, place0, root, mmu.kernelPage, all, mmu.Eff())
    ensures TraceOrdered(trace0, mmu.Trace(), m0, place0, root, mmu.kernelPage, all)
    ensures mmu.mem == old(mmu.mem) || mmu.mem == old(mmu.Eff())
  {
    hide StartBelow, Tree, LeafSlot, OwnSlot, SlotsOk, Tearing, Ordered, OwnOf, KernelPagesOk, TraceOrdered;
    ghost var trace := mmu.Trace();
    OwnSlotIs(m0, root, mmu.kernelPage, r);
    LiveKernelWalk(m0, place0, root, sp, mmu.kernelPage, all, all, mmu.mem, eff, r);
    var own := LeafSlot(mmu.mem, root, 4, mmu.kernelPage[r]).value;
    assert Get(mmu.mem, own) != FREE;
    RootWritable(m0, place0, root, sp, mmu.kernelPage, all, r, mmu.Eff(), SetRw(Get(m0, own)));
    mmu.DeferredUpdate(own, SetRw(Get(mmu.mem, own)));
    TraceGrows(trace0, trace, m0, place0, root, mmu.kernelPage, all, mmu.Eff());
  }

  /** archPageTableFree */
  method Free(mmu: Mmu, root: Mfn, userRoot: Mfn, ghost sp: nat)
    requires mmu.queue == [] && Freeable(mmu.mem, mmu.place, root, userRoot, sp, mmu.kernelPage)
    modifies mmu`mem, mmu`queue, mmu`history, mmu`freedPages, mmu`freedFrames
    ensures mmu.queue == [] && FreedMemory(old(mmu.mem), mmu.mem, root, userRoot, mmu.kernelPage)
    ensures mmu.freedFrames == old(mmu.freedFrames) + FramesBelow(old(mmu.mem), root, 4, USER_ENTRIES)
    ensures mmu.freedPages ==
            old(mmu.freedPages) + PagesOf(old(mmu.mem), SlotsBelow(old(mmu.mem), root, 4, USER_ENTRIES))
    ensures TraceOrdered(old(mmu.history), mmu.history, old(mmu.mem), mmu.place, root, mmu.kernelPage,
                         SlotsBelow(old(mmu.mem), root, 4, USER_ENTRIES))
    ensures Tree(mmu.mem, mmu.place) && OthersKept(old(mmu.mem), mmu.mem, mmu.place, sp)
    ensures UppersFrom(old(mmu.mem), mmu.place, mmu.mem, mmu.place)
    ensures old(mmu.PoolOk()) ==> mmu.PoolOk()
    ensures forall r, u, sq :: old(Ready(mmu, r, u, sq)) ==> Ready(mmu, r, u, sq)
  {
    hide StartBelow, Tree, LeafSlot, OwnSlot, SlotsOk, SlotsBelow, FramesBelow, Tearing, UserTable, Ordered,
         FreedMemory, OwnOf, KernelPagesOk, TraceOrdered, Torn, ZeroPage, OthersKept, KeptOrGained, Present, Mapping,
         UppersFrom;
    ghost var m0, place0, kp, all := mmu.mem, mmu.place, mmu.kernelPage, SlotsBelow(mmu.mem, root, 4, USER_ENTRIES);
    StartTeardown(m0, place0, root, userRoot, sp, kp);
    assert PagesOf(m0, []) == [] && [] + all == all && mmu.Trace() == mmu.history;
    TraceStarts(mmu.history, m0, place0, root, kp, all);
    FreeLevel(mmu, root, root, 4, m0, place0, sp, all, [], mmu.history, mmu.freedPages);

    ghost var live, eff, trace0 := mmu.mem, mmu.Eff(), old(mmu.history);
    TearingOrdered(m0, place0, root, sp, kp, all, live, eff);
    TearingFlushed(m0, place0, root, sp, kp, all, all, live, eff);
    RootWritableAgain(mmu, root, root, m0, place0, sp, all, eff, trace0);
    RootWritableAgain(mmu, root, userRoot, m0, place0, sp, all, eff, trace0);
    FreedBoth(m0, place0, root, userRoot, sp, kp, live, eff, mmu.Eff());
    FreedElsewhere(m0, mmu.Eff(), place0, root, userRoot, sp, kp);
    mmu.DoUpdate();
    forall r, u, sq | old(Ready(mmu, r, u, sq))
      ensures Ready(mmu, r, u, sq)
    {
      FreedPresent(m0, mmu.mem, place0, r, sq, kp, mmu.pool);
    }
  }

  lemma FreedPresent(m0: Mem, m: Mem, place: Places, r: Mfn, sq: nat, kp: map<Mfn, nat>, ps: seq<Mfn>)
    requires KernelPagesOk(kp) && IsRoot(place, r, sq) && forall p :: p in ps ==> p in kp
    requires forall wp: nat :: USER_PAGES <= wp < PAGES ==> KeptOrGained(m0, m, r, wp)
    requires forall p :: p in ps ==> Present(Mapping(m0, r, 4, kp[p]))
    ensures forall p :: p in ps ==> Present(Mapping(m, r, 4, kp[p]))
  {
    hide Mapping, LeafSlot;
    forall p | p in ps
      ensures Present(Mapping(m, r, 4, kp[p]))
    {
      assert KeptOrGained(m0, m, r, kp[p]);
      SetKeepsPresent(Mapping(m0, r, 4, kp[p]));
    }
  }

  lemma SetKeepsPresent(e: Pte)
    ensures Present(SetRw(e)) == Present(e)
  {
    var b := e.flags;
    assert (b | PAGE_RW) & PAGE_PRESENT == b & PAGE_PRESENT;
  }

  /** Afterwards the user half is empty and the kernel may write to every page that was freed and to both roots. */
  lemma FreedMeaning(m0: Mem, m: Mem, place: Places, root: Mfn, userRoot: Mfn, sp: nat, kp: map<Mfn, nat>)
    requires Freeable(m0, place, root, userRoot, sp, kp) && FreedMemory(m0, m, root, userRoot, kp)
    ensures forall i: nat :: i < USER_ENTRIES ==> Get(m, Slot(root, i)) == FREE
    ensures forall vp: nat :: vp < USER_PAGES ==> Mapping(m, root, 4, vp) == FREE
    ensures forall p :: p == root || p == userRoot || UserTable(m0, root, p) ==>
              && Writable(Mapping(m, root, 4, kp[p]))
              && SameButWrite(Mapping(m, root, 4, kp[p]), Mapping(m0, root, 4, kp[p]))
  {
    hide Tree, SlotsBelow, OwnOf, Torn, LeafSlot, SameButWrite, KeptOrGained;
    forall i: nat | i < USER_ENTRIES
      ensures Get(m, Slot(root, i)) == FREE
    {
      RootEntryFreed(m0, m, place, root, userRoot, sp, kp, i);
    }
    forall vp: nat | vp < USER_PAGES
      ensures Mapping(m, root, 4, vp) == FREE
    {
      TopShr(vp);
      NoPath(m, root, vp);
    }
    forall p | p == root || p == userRoot || UserTable(m0, root, p)
      ensures Writable(Mapping(m, root, 4, kp[p]))
      ensures SameButWrite(Mapping(m, root, 4, kp[p]), Mapping(m0, root, 4, kp[p]))
    {
      OwnWritable(m0, m, place, root, userRoot, sp, kp, p);
      OwnSame(m0, m, place, root, userRoot, sp, kp, p);
    }
  }

  /** The memory at the end is in order too. */
  lemma FreedIsOrdered(m0: Mem, m: Mem, place: Places, root: Mfn, userRoot: Mfn, sp: nat, kp: map<Mfn, nat>)
    requires Freeable(m0, place, root, userRoot, sp, kp) && FreedMemory(m0, m, root, userRoot, kp)
    ensures Ordered(m0, place, root, kp, SlotsBelow(m0, root, 4, USER_ENTRIES), m)
  {
    hide Tree, SlotsBelow, UserTable, StartBelow, OwnSlot, LeafSlot, KernelPagesOk, SlotsOk;
    var all := SlotsBelow(m0, root, 4, USER_ENTRIES);
    StartTeardown(m0, place, root, userRoot, sp, kp);
    OwnSlotPlace(m0, place, root, sp, kp, root);
    OwnSlotPlace(m0, place, root, sp, kp, userRoot);
    forall s: Slot | s.page in place && place[s.page].level >= 2
      ensures Get(m, s) == Get(m0, s) || (s in all && Get(m, s) == FREE)
    {
      UpperNotOwn(m0, place, root, sp, kp, all, all, s);
    }
  }

  /** The user root is not written at any moment. */
  lemma UserRootUntouched(m0: Mem, m: Mem, place: Places, root: Mfn, userRoot: Mfn, sp: nat, kp: map<Mfn, nat>)
    requires Freeable(m0, place, root, userRoot, sp, kp) && root != userRoot
    requires Ordered(m0, place, root, kp, SlotsBelow(m0, root, 4, USER_ENTRIES), m)
    ensures forall i: nat :: i < ENTRIES ==> Get(m, Slot(userRoot, i)) == Get(m0, Slot(userRoot, i))
  {
    hide SlotsBelow, Tree, UserTable, KernelPagesOk, StartBelow, OwnSlot;
    forall i: nat | i < ENTRIES
      ensures Slot(userRoot, i) !in SlotsBelow(m0, root, 4, USER_ENTRIES)
    {
      if Slot(userRoot, i) in SlotsBelow(m0, root, 4, USER_ENTRIES) {
        SlotReached(m0, place, sp, root, 4, 0, USER_ENTRIES, Slot(userRoot, i));
      }
    }
  }

  lemma NoPath(m: Mem, root: Mfn, vp: nat)
    requires Get(m, Slot(root, Idx(vp, 4))) == FREE
    ensures Mapping(m, root, 4, vp) == FREE
  {
  }

  lemma RootEntryFreed(m0: Mem, m: Mem, place: Places, root: Mfn, userRoot: Mfn, sp: nat, kp: map<Mfn, nat>, i: nat)
    requires Freeable(m0, place, root, userRoot, sp, kp) && FreedMemory(m0, m, root, userRoot, kp) && i < USER_ENTRIES
    ensures Get(m, Slot(root, i)) == FREE
  {
    hide Tree, SlotsBelow, OwnOf, LeafSlot, UserTable, KernelPagesOk;
    var s, all := Slot(root, i), SlotsBelow(m0, root, 4, USER_ENTRIES);
    if Get(m0, s) != FREE {
      RootSlotListed(m0, root, i);
      assert s in all;
    } else {
      TopNotOwn(m0, place, root, userRoot, sp, kp, s);
    }
  }

  /** A slot of the root is no own mapping. */
  lemma TopNotOwn(m0: Mem, place: Places, root: Mfn, userRoot: Mfn, sp: nat, kp: map<Mfn, nat>, s: Slot)
    requires Freeable(m0, place, root, userRoot, sp, kp) && s.page == root
    ensures s !in OwnOf(m0, root, kp, SlotsBelow(m0, root, 4, USER_ENTRIES))
    ensures s != OwnSlot(m0, root, kp, root) && s != OwnSlot(m0, root, kp, userRoot)
  {
    hide Tree, SlotsBelow, LeafSlot, UserTable, KernelPagesOk, OwnSlot;
    var all := SlotsBelow(m0, root, 4, USER_ENTRIES);
    OwnSlotPlace(m0, place, root, sp, kp, root);
    OwnSlotPlace(m0, place, root, sp, kp, userRoot);
    if s in OwnOf(m0, root, kp, all) {
      var z :| z in all && Get(m0, z).frame in kp && OwnSlot(m0, root, kp, Get(m0, z).frame) == s;
      ListedIsTable(m0, place, root, sp, z);
      OwnSlotPlace(m0, place, root, sp, kp, Get(m0, z).frame);
      assert false;
    }
  }

  lemma OwnSame(m0: Mem, m: Mem, place: Places, root: Mfn, userRoot: Mfn, sp: nat, kp: map<Mfn, nat>, p: Mfn)
    requires Freeable(m0, place, root, userRoot, sp, kp) && FreedMemory(m0, m, root, userRoot, kp) && p in kp
    ensures SameButWrite(Mapping(m, root, 4, kp[p]), Mapping(m0, root, 4, kp[p]))
  {
    hide FreedMemory, Tree, Mapping, LeafSlot, UserTable, KernelHas;
    FreedWalkElsewhere(m0, m, place, root, userRoot, sp, kp, root, sp, kp[p]);
    WriteAccess(Mapping(m0, root, 4, kp[p]));
  }

  lemma OwnWritable(m0: Mem, m: Mem, place: Places, root: Mfn, userRoot: Mfn, sp: nat, kp: map<Mfn, nat>, p: Mfn)
    requires Freeable(m0, place, root, userRoot, sp, kp) && FreedMemory(m0, m, root, userRoot, kp)
    requires p == root || p == userRoot || UserTable(m0, root, p)
    ensures Writable(Mapping(m, root, 4, kp[p]))
  {
    hide Tree, SlotsBelow, UserTable, StartBelow, TableAt;
    var all, own := SlotsBelow(m0, root, 4, USER_ENTRIES), OwnSlot(m0, root, kp, p);
    StartTeardown(m0, place, root, userRoot, sp, kp);
    OwnSlotIs(m0, root, kp, p);
    OwnSlotPlace(m0, place, root, sp, kp, p);
    assert own !in all;
    if p != root && p != userRoot {
      var z := TableIsListed(m0, root, p);
      assert own in OwnOf(m0, root, kp, all);
    }
    SetTwice(Get(m0, own));
    assert Get(m, own) == SetRw(Get(m0, own));
    FreedWalkElsewhere(m0, m, place, root, userRoot, sp, kp, root, sp, kp[p]);
  }

  lemma OwnFreedPlace(m0: Mem, place: Places, root: Mfn, userRoot: Mfn, sp: nat, kp: map<Mfn, nat>, s: Slot)
    requires Freeable(m0, place, root, userRoot, sp, kp) && s in OwnFreed(m0, root, userRoot, kp)
    ensures s.page in place && place[s.page].level == 1 && place[s.page].space == 0
    ensures exists p :: p in kp && LeafSlot(m0, root, 4, kp[p]) == Some(s)
  {
    hide Tree, SlotsBelow, UserTable, StartBelow, OwnSlot, LeafSlot, KernelPagesOk, KernelHas;
    var all := SlotsBelow(m0, root, 4, USER_ENTRIES);
    StartTeardown(m0, place, root, userRoot, sp, kp);
    var p :| p in kp && LeafSlot(m0, root, 4, kp[p]).Some? && OwnSlot(m0, root, kp, p) == s;
    OwnSlotPlace(m0, place, root, sp, kp, p);
    OwnSlotIs(m0, root, kp, p);
  }

  /** The teardown keeps the upper entries of other address spaces and of the kernel half. */
  lemma UpperKept(m0: Mem, m: Mem, place: Places, root: Mfn, userRoot: Mfn, sp: nat, kp: map<Mfn, nat>, s: Slot)
    requires Freeable(m0, place, root, userRoot, sp, kp) && FreedMemory(m0, m, root, userRoot, kp)
    requires s.page in place && s.idx < ENTRIES
    requires place[s.page].level >= 2 || place[s.page].space != 0
    requires place[s.page].space != sp || (place[s.page] == Node(sp, 4, 0) && s.idx >= USER_ENTRIES)
    ensures Get(m, s) == Get(m0, s)
  {
    hide Tree, SlotsBelow, UserTable, StartBelow, OwnSlot, LeafSlot, KernelPagesOk, KernelHas, OwnOf;
    var all := SlotsBelow(m0, root, 4, USER_ENTRIES);
    StartTeardown(m0, place, root, userRoot, sp, kp);
    if place[s.page].space == sp {
      KernelTop(place, s.page, sp, s.idx);
    }
    assert s !in all;
    if s in OwnFreed(m0, root, userRoot, kp) {
      OwnFreedPlace(m0, place, root, userRoot, sp, kp, s);
    }
  }

  /** A page keeps its leaf slot and its mapping from a root, but that of a kernel page may gain write access. */
  ghost predicate KeptOrGained(m0: Mem, m: Mem, r: Mfn, wp: nat) {
    && LeafSlot(m, r, 4, wp) == LeafSlot(m0, r, 4, wp)
    && (wp < USER_PAGES ==> Mapping(m, r, 4, wp) == Mapping(m0, r, 4, wp))
    && (|| Mapping(m, r, 4, wp) == Mapping(m0, r, 4, wp)
        || Mapping(m, r, 4, wp) == SetRw(Mapping(m0, r, 4, wp)))
  }

  /** Tearing one page table down leaves a tree, the pages of the pool and the user pages of every other page table. The
      kernel pages of every root keep their frames. */
  lemma FreedElsewhere(m0: Mem, m: Mem, place: Places, root: Mfn, userRoot: Mfn, sp: nat, kp: map<Mfn, nat>)
    requires Freeable(m0, place, root, userRoot, sp, kp) && FreedMemory(m0, m, root, userRoot, kp)
    ensures Tree(m, place) && OthersKept(m0, m, place, sp) && UppersFrom(m0, place, m, place)
    ensures forall p :: p !in place && ZeroPage(m0, p) ==> ZeroPage(m, p)
    ensures forall r, sq, wp: nat :: IsRoot(place, r, sq) && wp < PAGES && (sq != sp || wp >= USER_PAGES) ==>
              KeptOrGained(m0, m, r, wp)
  {
    hide Freeable, FreedMemory, KeptOrGained, Tree, UppersFrom;
    FreedTree(m0, m, place, root, userRoot, sp, kp);
    FreedUppers(m0, m, place, root, userRoot, sp, kp);
    forall r, sq, wp: nat | IsRoot(place, r, sq) && wp < PAGES && (sq != sp || wp >= USER_PAGES)
      ensures KeptOrGained(m0, m, r, wp)
    {
      FreedWalkElsewhere(m0, m, place, root, userRoot, sp, kp, r, sq, wp);
    }
  }

  lemma FreedUppers(m0: Mem, m: Mem, place: Places, root: Mfn, userRoot: Mfn, sp: nat, kp: map<Mfn, nat>)
    requires Freeable(m0, place, root, userRoot, sp, kp) && FreedMemory(m0, m, root, userRoot, kp)
    ensures UppersFrom(m0, place, m, place)
  {
    hide Freeable, FreedMemory, UppersFrom, SlotsBelow;
    FreedIsOrdered(m0, m, place, root, userRoot, sp, kp);
    UppersLeaves(m0, m, place);
  }

  lemma FreedTree(m0: Mem, m: Mem, place: Places, root: Mfn, userRoot: Mfn, sp: nat, kp: map<Mfn, nat>)
    requires Freeable(m0, place, root, userRoot, sp, kp) && FreedMemory(m0, m, root, userRoot, kp)
    ensures Tree(m, place) && OthersKept(m0, m, place, sp)
    ensures forall p :: p !in place && ZeroPage(m0, p) ==> ZeroPage(m, p)
  {
    hide SlotsBelow, UserTable, StartBelow, OwnSlot, LeafSlot, KernelPagesOk, KernelHas, OwnOf;
    var all := SlotsBelow(m0, root, 4, USER_ENTRIES);
    StartTeardown(m0, place, root, userRoot, sp, kp);
    FreedIsOrdered(m0, m, place, root, userRoot, sp, kp);
    forall s: Slot | s.page in place && place[s.page].space != 0 && place[s.page].space != sp
      ensures Get(m, s) == Get(m0, s)
    {
      if s in OwnFreed(m0, root, userRoot, kp) {
        OwnFreedPlace(m0, place, root, userRoot, sp, kp, s);
      }
    }
    forall p | p !in place && ZeroPage(m0, p)
      ensures ZeroPage(m, p)
    {
      forall i: nat ensures Get(m, Slot(p, i)) == FREE {
        assert Get(m0, Slot(p, i)) == FREE;
        if Slot(p, i) in OwnFreed(m0, root, userRoot, kp) {
          OwnFreedPlace(m0, place, root, userRoot, sp, kp, Slot(p, i));
        }
      }
    }
  }

  lemma FreedWalkElsewhere(m0: Mem, m: Mem, place: Places, root: Mfn, userRoot: Mfn, sp: nat, kp: map<Mfn, nat>, r: Mfn,
                           sq: nat, wp: nat)
    requires Freeable(m0, place, root, userRoot, sp, kp) && FreedMemory(m0, m, root, userRoot, kp)
    requires IsRoot(place, r, sq) && wp < PAGES && (sq != sp || wp >= USER_PAGES)
    ensures KeptOrGained(m0, m, r, wp)
  {
    hide SlotsBelow, UserTable, SlotsOk, StartBelow, TableAt, OwnSlot, OwnOf, KernelHas;
    var all := SlotsBelow(m0, root, 4, USER_ENTRIES);
    StartTeardown(m0, place, root, userRoot, sp, kp);
    RootAt(place, r, sq, wp);
    TopShr(wp);
    forall u | u in place && (u == r || (2 <= place[u].level < 4 && place[u] == NodeFor(sq, place[u].level, wp)))
      ensures Get(m, Slot(u, Idx(wp, place[u].level))) == Get(m0, Slot(u, Idx(wp, place[u].level)))
    {
      UpperKept(m0, m, place, root, userRoot, sp, kp, Slot(u, Idx(wp, place[u].level)));
    }
    WalkSame(m0, m, place, r, sq, 4, wp);
    FreedLeaf(m0, m, place, root, userRoot, sp, kp, r, sq, wp);
  }

  lemma FreedLeaf(m0: Mem, m: Mem, place: Places, root: Mfn, userRoot: Mfn, sp: nat, kp: map<Mfn, nat>, r: Mfn,
                  sq: nat, wp: nat)
    requires Freeable(m0, place, root, userRoot, sp, kp) && FreedMemory(m0, m, root, userRoot, kp)
    requires IsRoot(place, r, sq) && wp < PAGES && LeafSlot(m, r, 4, wp) == LeafSlot(m0, r, 4, wp)
    ensures KeptOrGained(m0, m, r, wp)
  {
    hide SlotsBelow, UserTable, StartBelow, TableAt, OwnSlot, OwnOf, KernelHas, LeafSlot, Tree;
    var all := SlotsBelow(m0, root, 4, USER_ENTRIES);
    StartTeardown(m0, place, root, userRoot, sp, kp);
    RootAt(place, r, sq, wp);
    WalkPlace(m0, place, r, sq, 4, wp);
    if LeafSlot(m0, r, 4, wp).Some? {
      var s := LeafSlot(m0, r, 4, wp).value;
      assert s !in all;
      if s in OwnFreed(m0, root, userRoot, kp) {
        OwnFreedPlace(m0, place, root, userRoot, sp, kp, s);
        var p :| p in kp && LeafSlot(m0, root, 4, kp[p]) == Some(s);
        RootAt(place, root, sp, kp[p]);
        LeafSlotInjective(m0, place, root, sp, kp[p], r, sq, wp);
      }
    }
  }
}
