/** How many table pages the paths of a set of pages lack. */
module PageNeeds {
  import opened Arith
  import opened Paging

  /** The nodes of the lower three levels on the paths of the pages `ws` that have no table. */
  ghost function TablesMissing(m: Mem, root: Mfn, ws: set<nat>): set<(nat, nat)> {
    set w, j | w in ws && 1 <= j <= 3 && TableAt(m, root, 4, w, j) == None :: (j, Shr(w, j))
  }

  /** `n` of the tables that the pages lacked have been provided. */
  ghost predicate Provided(m0: Mem, m: Mem, root: Mfn, ws: set<nat>, n: nat) {
    |TablesMissing(m0, root, ws)| == |TablesMissing(m, root, ws)| + n
  }

  /** From `m` to `n` tables stay where they are, and every further table is on the path of `vp`. */
  ghost predicate Paving(m: Mem, n: Mem, root: Mfn, vp: nat) {
    forall wp: nat, j {:trigger TableAt(n, root, 4, wp, j)} :: wp < PAGES && 1 <= j <= 4 ==>
      && (TableAt(m, root, 4, wp, j).Some? ==> TableAt(n, root, 4, wp, j) == TableAt(m, root, 4, wp, j))
      && (TableAt(m, root, 4, wp, j).None? && TableAt(n, root, 4, wp, j).Some? ==> Shr(wp, j) == Shr(vp, j))
  }

  /** A page without a path lacks the tables below the level at which its walk ends. */
  lemma {:induction false} TableFrom(m: Mem, t: Mfn, k: nat, vp: nat, j: nat)
    requires 1 <= j <= k
    ensures TableAt(m, t, k, vp, j).None? <==> j < EndLevel(m, t, k, vp)
    decreases k
  {
    var e := Get(m, Slot(t, Idx(vp, k)));
    if j < k && e != FREE { TableFrom(m, e.frame, k - 1, vp, j); }
  }

  ghost function PathNodes(vp: nat, e: nat): (ns: set<(nat, nat)>)
    requires e >= 1
    ensures |ns| == e - 1 && forall n :: n in ns <==> 1 <= n.0 < e && n.1 == Shr(vp, n.0)
  {
    if e == 1 then {} else PathNodes(vp, e - 1) + {(e - 1, Shr(vp, e - 1))}
  }

  lemma PathMissing(m: Mem, root: Mfn, vp: nat)
    ensures TablesMissing(m, root, {vp}) == PathNodes(vp, EndLevel(m, root, 4, vp))
    ensures |TablesMissing(m, root, {vp})| == EndLevel(m, root, 4, vp) - 1
  {
    hide TableAt, EndLevel, Shr, PathNodes;
    forall j | 1 <= j <= 3
      ensures TableAt(m, root, 4, vp, j) == None <==> j < EndLevel(m, root, 4, vp)
    {
      TableFrom(m, root, 4, vp, j);
    }
    forall n
      ensures n in TablesMissing(m, root, {vp}) <==> n in PathNodes(vp, EndLevel(m, root, 4, vp))
    {
      if 1 <= n.0 <= 3 { assert TableAt(m, root, 4, vp, n.0) == None <==> n.0 < EndLevel(m, root, 4, vp); }
    }
  }

  /** The tables a page lacks are among those that a set with it lacks. */
  lemma PathAmong(m: Mem, root: Mfn, ws: set<nat>, vp: nat)
    requires vp in ws
    ensures EndLevel(m, root, 4, vp) - 1 <= |TablesMissing(m, root, ws)|
  {
    hide TableAt, EndLevel, Shr;
    PathMissing(m, root, vp);
    SubsetSize(TablesMissing(m, root, {vp}), TablesMissing(m, root, ws));
  }

  /** Once every page has its path nothing is missing. */
  lemma NoneMissing(m: Mem, root: Mfn, ws: set<nat>)
    requires forall w :: w in ws ==> LeafSlot(m, root, 4, w).Some?
    ensures TablesMissing(m, root, ws) == {}
  {
    hide TableAt, LeafSlot;
    forall w, j | w in ws && 1 <= j <= 3
      ensures TableAt(m, root, 4, w, j).Some?
    {
      PathHasTable(m, root, w, j);
    }
  }

  lemma PathHasTable(m: Mem, root: Mfn, vp: nat, j: nat)
    requires 1 <= j <= 4 && LeafSlot(m, root, 4, vp).Some?
    ensures TableAt(m, root, 4, vp, j).Some?
  {
    WalkThrough(m, root, 4, vp, j, vp);
  }

  /** Completing the path of one page of a set provides exactly the tables that page lacked. */
  lemma PavingStep(m: Mem, n: Mem, root: Mfn, ws: set<nat>, vp: nat)
    requires Paving(m, n, root, vp) && LeafSlot(n, root, 4, vp).Some? && vp in ws && forall w :: w in ws ==> w < PAGES
    ensures |TablesMissing(m, root, ws)| == |TablesMissing(n, root, ws)| + EndLevel(m, root, 4, vp) - 1
  {
    hide TablesMissing, EndLevel, LeafSlot, Paving;
    var all, rest, path := TablesMissing(m, root, ws), TablesMissing(n, root, ws), TablesMissing(m, root, {vp});
    PathMissing(m, root, vp);
    forall x
      ensures x in all <==> x in rest || x in path
      ensures !(x in rest && x in path)
    {
      PavedNode(m, n, root, ws, vp, x);
    }
    assert all == rest + path && rest !! path;
  }

  lemma PavedNode(m: Mem, n: Mem, root: Mfn, ws: set<nat>, vp: nat, x: (nat, nat))
    requires Paving(m, n, root, vp) && LeafSlot(n, root, 4, vp).Some? && vp in ws && forall w :: w in ws ==> w < PAGES
    ensures x in TablesMissing(m, root, ws) <==> x in TablesMissing(n, root, ws) || x in TablesMissing(m, root, {vp})
    ensures !(x in TablesMissing(n, root, ws) && x in TablesMissing(m, root, {vp}))
  {
    hide TableAt, Shr, LeafSlot;
    var j := x.0;
    if 1 <= j <= 3 {
      PathHasTable(n, root, vp, j);
      forall w | w in ws && Shr(w, j) == Shr(vp, j)
        ensures TableAt(m, root, 4, w, j) == TableAt(m, root, 4, vp, j)
        ensures TableAt(n, root, 4, w, j) == TableAt(n, root, 4, vp, j)
      {
        WalkThrough(m, root, 4, w, j, vp);
        WalkThrough(n, root, 4, w, j, vp);
      }
    }
  }

  lemma PavingRefl(m: Mem, root: Mfn, vp: nat)
    ensures Paving(m, m, root, vp)
  {
  }

  lemma PavingTrans(l: Mem, m: Mem, n: Mem, root: Mfn, vp: nat)
    requires Paving(l, m, root, vp) && Paving(m, n, root, vp)
    ensures Paving(l, n, root, vp)
  {
    hide TableAt, Shr;
    forall wp: nat, j {:trigger TableAt(n, root, 4, wp, j)} | wp < PAGES && 1 <= j <= 4
      ensures TableAt(l, root, 4, wp, j).Some? ==> TableAt(n, root, 4, wp, j) == TableAt(l, root, 4, wp, j)
      ensures TableAt(l, root, 4, wp, j).None? && TableAt(n, root, 4, wp, j).Some? ==> Shr(wp, j) == Shr(vp, j)
    {
      assert TableAt(m, root, 4, wp, j).Some? || TableAt(m, root, 4, wp, j).None?;
    }
  }

  /** Writes that leave the upper tables below a root alone provide no table. */
  lemma SameTablesPave(m0: Mem, m: Mem, place: Places, root: Mfn, sp: nat, vp: nat, m': Mem)
    requires Paving(m0, m, root, vp) && Tree(m, place) && IsRoot(place, root, sp)
    requires forall s: Slot :: s.page in place && (s.page == root || 2 <= place[s.page].level < 4) ==>
              Get(m', s) == Get(m, s)
    ensures Paving(m0, m', root, vp)
  {
    hide Tree;
    forall wp: nat, j {:trigger TableAt(m', root, 4, wp, j)} | wp < PAGES && 1 <= j <= 4
      ensures TableAt(m', root, 4, wp, j) == TableAt(m, root, 4, wp, j)
    {
      RootAt(place, root, sp, wp);
      TableSame(m, m', place, root, sp, 4, wp, j);
    }
    PavingTrans(m0, m, m', root, vp);
  }

  // ------------------------------------------------------------------ one more table

  /** Table `page`, newly hung into slot `i` of `t`, extends exactly the walks of its node, by one table. */
  lemma {:induction false} TableGrown(m: Mem, place: Places, t: Mfn, i: nat, page: Mfn, u: Mfn, sp: nat, k: nat,
                                      vp: nat, j: nat)
    requires Tree(m, place) && t in place && place[t].level >= 2 && i < ENTRIES && Get(m, Slot(t, i)) == FREE
    requires page !in place && ZeroPage(m, page) && At(place, u, sp, k, vp) && 1 <= j <= k
    ensures
      var m' := m[Slot(t, i) := Pte(page, TABLE_PROT)];
      && (TableAt(m, u, k, vp, j).Some? ==> TableAt(m', u, k, vp, j) == TableAt(m, u, k, vp, j))
      && (TableAt(m, u, k, vp, j).None? && TableAt(m', u, k, vp, j).Some? ==>
            && TableAt(m', u, k, vp, j).value == page && NodeFor(sp, j, vp) == Child(place[t], i))
    decreases k
  {
    var m' := m[Slot(t, i) := Pte(page, TABLE_PROT)];
    if j < k {
      var s := Slot(u, Idx(vp, k));
      ChildNode(sp, k, vp);
      if s == Slot(t, i) {
        assert Get(m', s) == Pte(page, TABLE_PROT) != FREE;
        if j < k - 1 {
          assert Get(m, Slot(page, Idx(vp, k - 1))) == FREE;
          assert Get(m', Slot(page, Idx(vp, k - 1))) == FREE;
          assert TableAt(m', page, k - 1, vp, j) == None;
        }
      } else if Get(m, s) != FREE {
        TableGrown(m, place, t, i, page, Get(m, s).frame, sp, k - 1, vp, j);
      }
    }
  }

  /** From `m` to `n` tables stay where they are, and every further table is that of node `q` of level `j0`. */
  ghost predicate Adds(m: Mem, n: Mem, root: Mfn, j0: nat, q: nat) {
    forall wp: nat, j {:trigger TableAt(n, root, 4, wp, j)} :: wp < PAGES && 1 <= j <= 4 ==>
      && (TableAt(m, root, 4, wp, j).Some? ==> TableAt(n, root, 4, wp, j) == TableAt(m, root, 4, wp, j))
      && (TableAt(m, root, 4, wp, j).None? && TableAt(n, root, 4, wp, j).Some? ==> j == j0 && Shr(wp, j) == q)
  }

  lemma GrownAdds(m: Mem, place: Places, root: Mfn, sp: nat, t: Mfn, k: nat, vp: nat, page: Mfn)
    requires Tree(m, place) && IsRoot(place, root, sp) && 2 <= k <= 4 && At(place, t, sp, k, vp)
    requires Get(m, Slot(t, Idx(vp, k))) == FREE && page !in place && ZeroPage(m, page)
    ensures Adds(m, m[Slot(t, Idx(vp, k)) := Pte(page, TABLE_PROT)], root, k - 1, Shr(vp, k - 1))
  {
    var m' := m[Slot(t, Idx(vp, k)) := Pte(page, TABLE_PROT)];
    ChildNode(sp, k, vp);
    forall wp: nat, j | wp < PAGES && 1 <= j <= 4
      ensures TableAt(m, root, 4, wp, j).Some? ==> TableAt(m', root, 4, wp, j) == TableAt(m, root, 4, wp, j)
      ensures TableAt(m, root, 4, wp, j).None? && TableAt(m', root, 4, wp, j).Some? ==>
                j == k - 1 && Shr(wp, j) == Shr(vp, k - 1)
    {
      RootAt(place, root, sp, wp);
      TableGrown(m, place, t, Idx(vp, k), page, root, sp, 4, wp, j);
    }
  }

  lemma AddsPaving(m: Mem, n: Mem, root: Mfn, j: nat, vp: nat)
    requires Adds(m, n, root, j, Shr(vp, j))
    ensures Paving(m, n, root, vp)
  {
    hide TableAt, Shr;
  }

  /** One table more is one missing less, for a node on the path of one of the pages. */
  lemma MissingLess(m: Mem, n: Mem, root: Mfn, ws: set<nat>, vp: nat, j: nat)
    requires 1 <= j <= 3 && Adds(m, n, root, j, Shr(vp, j)) && vp in ws && forall w :: w in ws ==> w < PAGES
    requires TableAt(m, root, 4, vp, j) == None && TableAt(n, root, 4, vp, j).Some?
    ensures |TablesMissing(m, root, ws)| == |TablesMissing(n, root, ws)| + 1
  {
    hide TablesMissing, Adds, TableAt, Shr;
    var all, rest, here := TablesMissing(m, root, ws), TablesMissing(n, root, ws), (j, Shr(vp, j));
    forall x
      ensures x in all <==> x in rest || x == here
      ensures !(x in rest && x == here)
    {
      AddedNode(m, n, root, ws, vp, j, x);
    }
    assert all == rest + {here};
  }

  lemma AddedNode(m: Mem, n: Mem, root: Mfn, ws: set<nat>, vp: nat, j: nat, x: (nat, nat))
    requires 1 <= j <= 3 && Adds(m, n, root, j, Shr(vp, j)) && vp in ws && forall w :: w in ws ==> w < PAGES
    requires TableAt(m, root, 4, vp, j) == None && TableAt(n, root, 4, vp, j).Some?
    ensures x in TablesMissing(m, root, ws) <==> x in TablesMissing(n, root, ws) || x == (j, Shr(vp, j))
    ensures !(x in TablesMissing(n, root, ws) && x == (j, Shr(vp, j)))
  {
    hide TableAt, Shr;
    forall w | w in ws && Shr(w, j) == Shr(vp, j)
      ensures TableAt(n, root, 4, w, j) == TableAt(n, root, 4, vp, j)
    {
      WalkThrough(n, root, 4, w, j, vp);
    }
  }
}
