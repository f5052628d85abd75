/** The intrusive circular lists of include/nano/list.h. Nodes are addresses; a list is its head and the items linked
    after it, and the head closes the circle. */
module LinkedList {

  type Addr = int

  /** The nodes of `all` are linked in a circle in this order, each once. */
  ghost predicate Circle(next: map<Addr, Addr>, prev: map<Addr, Addr>, all: seq<Addr>) {
    |all| > 0 &&
    (forall i, j :: 0 <= i < j < |all| ==> all[i] != all[j]) &&
    (forall i :: 0 <= i < |all| ==>
        all[i] in next && all[i] in prev && next[all[i]] == After(all, i) && prev[all[i]] == Before(all, i))
  }

  function After(all: seq<Addr>, i: nat): Addr requires i < |all| { if i + 1 < |all| then all[i + 1] else all[0] }

  function Before(all: seq<Addr>, i: nat): Addr requires i < |all| { if i > 0 then all[i - 1] else all[|all| - 1] }

  /** Nodes other than these are as they were. */
  ghost predicate SameBut(m: map<Addr, Addr>, m': map<Addr, Addr>, nodes: set<Addr>) {
    m.Keys <= m'.Keys && forall a :: a in m && a !in nodes ==> m'[a] == m[a]
  }

  /** Changes elsewhere keep a list. */
  lemma CircleElsewhere(next: map<Addr, Addr>, prev: map<Addr, Addr>, next': map<Addr, Addr>, prev': map<Addr, Addr>,
                        all: seq<Addr>, nodes: set<Addr>)
    requires Circle(next, prev, all) && SameBut(next, next', nodes) && SameBut(prev, prev', nodes)
    requires forall a :: a in all ==> a !in nodes
    ensures Circle(next', prev', all)
  {
  }

  /** A circle may be read from any of its nodes on. */
  lemma Rotate(next: map<Addr, Addr>, prev: map<Addr, Addr>, all: seq<Addr>, k: nat)
    requires Circle(next, prev, all) && k < |all|
    ensures Circle(next, prev, all[k..] + all[..k])
  {
    var r := all[k..] + all[..k];
    var n := |all|;
    forall i | 0 <= i < n
      ensures r[i] in next && r[i] in prev && next[r[i]] == After(r, i) && prev[r[i]] == Before(r, i)
    {
      var j := if i + k < n then i + k else i + k - n;
      assert r[i] == all[j];
    }
    forall i, j | 0 <= i < j < n ensures r[i] != r[j] {
      var a := if i + k < n then i + k else i + k - n;
      var b := if j + k < n then j + k else j + k - n;
      assert r[i] == all[a] && r[j] == all[b] && a != b;
    }
  }

  /** The links after a node is put in at the end of a circle, before its first node. */
  lemma Linked(next: map<Addr, Addr>, prev: map<Addr, Addr>, all: seq<Addr>, x: Addr)
    requires Circle(next, prev, all) && x !in all
    ensures var last, first := all[|all| - 1], all[0];
            Circle(next[x := first][last := x], prev[first := x][x := last], all + [x])
  {
    var last, first := all[|all| - 1], all[0];
    var n, p, r := next[x := first][last := x], prev[first := x][x := last], all + [x];
    var k := |all| - 1;
    forall i | 0 <= i < k ensures r[i] in n && n[r[i]] == After(r, i) {
      assert r[i] == all[i] && all[i] != last && all[i] != x && After(all, i) == all[i + 1] == r[i + 1];
    }
    assert r[k] == last && r[k + 1] == x && n[last] == x && (x != last ==> n[x] == first);
    forall i | 1 <= i <= k ensures r[i] in p && p[r[i]] == Before(r, i) {
      assert r[i] == all[i] && all[i] != first && all[i] != x && Before(all, i) == all[i - 1] == r[i - 1];
    }
    assert r[0] == first && p[first] == x && p[x] == last;
    assert forall i, j :: 0 <= i < j < |r| ==> r[i] != r[j];
  }

  /** The links after the last node of a circle is taken out. */
  lemma Unlinked(next: map<Addr, Addr>, prev: map<Addr, Addr>, all: seq<Addr>)
    requires Circle(next, prev, all) && |all| > 1
    ensures var first, last := all[0], all[|all| - 2];
            Circle(next[last := first], prev[first := last], all[..|all| - 1])
  {
  }

  class Nodes {
    var next: map<Addr, Addr>
    var prev: map<Addr, Addr>

    ghost predicate List(head: Addr, items: seq<Addr>) reads this { Circle(next, prev, [head] + items) }

    constructor ()
      ensures next == map[] && prev == map[]
    {
      next, prev := map[], map[];
    }

    /** INIT_LIST_HEAD */
    method Init(head: Addr)
      modifies this
      ensures List(head, [])
      ensures SameBut(old(next), next, {head}) && SameBut(old(prev), prev, {head})
    {
      next := next[head := head];
      prev := prev[head := head];
    }

    /** __list_add, into a circle between its last node and its first. */
    method AddBetween(x: Addr, last: Addr, first: Addr, ghost all: seq<Addr>)
      requires Circle(next, prev, all) && x !in all && first == all[0] && last == all[|all| - 1]
      modifies this
      ensures Circle(next, prev, all + [x])
      ensures SameBut(old(next), next, {x, last}) && SameBut(old(prev), prev, {x, first})
    {
      Linked(next, prev, all, x);
      prev := prev[first := x];
      next := next[x := first];
      prev := prev[x := last];
      next := next[last := x];
    }

    /** list_add: a new first item. */
    method Add(x: Addr, head: Addr, ghost items: seq<Addr>)
      requires List(head, items) && x != head && x !in items
      modifies this
      ensures List(head, [x] + items)
      ensures SameBut(old(next), next, {x, head}) && SameBut(old(prev), prev, {x, After([head] + items, 0)})
    {
      hide Circle;
      ghost var all := [head] + items;
      Rotate(next, prev, all, if items == [] then 0 else 1);
      ghost var turned := if items == [] then [head] else items + [head];
      assert items != [] ==> all[1..] + all[..1] == turned;
      assert items == [] ==> all[0..] + all[..0] == turned;
      Ends(next, prev, head, items);
      AddBetween(x, head, next[head], turned);
      Rotate(next, prev, turned + [x], |items|);
      assert (turned + [x])[|items|..] + (turned + [x])[..|items|] == [head] + ([x] + items);
    }

    /** list_add_tail: a new last item. */
    method AddTail(x: Addr, head: Addr, ghost items: seq<Addr>)
      requires List(head, items) && x != head && x !in items
      modifies this
      ensures List(head, items + [x])
      ensures SameBut(old(next), next, {x, Before([head] + items, 0)}) && SameBut(old(prev), prev, {x, head})
    {
      hide Circle;
      Ends(next, prev, head, items);
      AddBetween(x, prev[head], head, [head] + items);
      assert ([head] + items) + [x] == [head] + (items + [x]);
    }

    /** list_del: the entry leaves the list; its own links stay as they are. */
    method Del(entry: Addr, ghost head: Addr, ghost items: seq<Addr>, ghost k: nat)
      requires List(head, items) && k < |items| && entry == items[k]
      modifies this
      ensures List(head, items[..k] + items[k + 1..])
      ensures SameBut(old(next), next, {Before([head] + items, k + 1)})
      ensures SameBut(old(prev), prev, {After([head] + items, k + 1)})
    {
      hide Circle, Before, After;
      ghost var all := [head] + items;
      ghost var turned := Turn(all, k + 1);
      TurnLinks(next, prev, all, k + 1);
      Unlinked(next, prev, turned);
      assert all[k + 1] == entry;
      var p, q := prev[entry], next[entry];
      prev := prev[q := p];
      next := next[p := q];
      ghost var rest := turned[..|items|];
      Rotate(next, prev, rest, |items| - (k + 1));
      TurnBack(head, items, k);
    }

    /** list_splice: the items of one list go before those of another; the head of the first keeps its links. */
    method Splice(list: Addr, head: Addr, ghost xs: seq<Addr>, ghost ys: seq<Addr>)
      requires List(list, xs) && List(head, ys) && list != head && list !in ys && head !in xs
      requires forall x :: x in xs ==> x !in ys
      modifies this
      ensures List(head, xs + ys)
      ensures SameBut(old(next), next, set a | a in [head] + xs)
      ensures SameBut(old(prev), prev, set a | a in [head] + xs + ys)
    {
      hide Circle;
      Ends(next, prev, list, xs);
      Ends(next, prev, head, ys);
      ItemLinks(next, prev, list, xs);
      ItemLinks(next, prev, head, ys);
      var first := next[list];
      if first != list {
        var last, at := prev[list], next[head];
        prev := prev[first := head];
        next := next[head := first];
        next := next[last := at];
        prev := prev[at := last];
        SpliceLinks(old(next), old(prev), list, head, xs, ys);
      } else {
        assert xs == [];
        assert xs + ys == ys;
      }
    }

    /** list_move_tail: an item of one list becomes the last of another. */
    method MoveTail(entry: Addr, head: Addr, ghost from: Addr, ghost xs: seq<Addr>, ghost k: nat, ghost ys: seq<Addr>)
      requires List(from, xs) && k < |xs| && entry == xs[k] && List(head, ys)
      requires forall a :: a in [from] + xs ==> a !in [head] + ys
      modifies this
      ensures List(from, xs[..k] + xs[k + 1..]) && List(head, ys + [entry])
      ensures SameBut(old(next), next, set a | a in [from] + xs + [head] + ys)
      ensures SameBut(old(prev), prev, set a | a in [from] + xs + [head] + ys)
    {
      hide Circle, Before, After;
      ghost var n, p, all, rest := next, prev, [from] + xs, xs[..k] + xs[k + 1..];
      Apart(all, [head] + ys);
      InCircle(next, prev, all, k + 1);
      assert all[k + 1] == entry;
      Del(entry, from, xs, k);
      CircleElsewhere(n, p, next, prev, [head] + ys, {Before(all, k + 1), After(all, k + 1)});
      ghost var n1, p1 := next, prev;
      assert entry in all && head in [head] + ys && forall y :: y in ys ==> y in [head] + ys;
      InCircle(n1, p1, [head] + ys, 0);
      ItemLinks(n, p, from, xs);
      assert forall a :: a in [from] + rest ==> a in all && a != entry;
      AddTail(entry, head, ys);
      ghost var touched := {entry, Before([head] + ys, 0), head};
      CircleElsewhere(n1, p1, next, prev, [from] + rest, touched);
    }

    /** list_empty */
    method IsEmpty(head: Addr, ghost items: seq<Addr>) returns (empty: bool)
      requires List(head, items)
      ensures empty <==> items == []
    {
      ghost var all := [head] + items;
      assert next[all[0]] == After(all, 0);
      empty := next[head] == head;
    }
  }

  lemma Apart(a: seq<Addr>, b: seq<Addr>)
    requires forall x :: x in a ==> x !in b
    ensures forall x :: x in b ==> x !in a
  {
  }

  lemma Ends(next: map<Addr, Addr>, prev: map<Addr, Addr>, head: Addr, items: seq<Addr>)
    requires Circle(next, prev, [head] + items)
    ensures head in next && head in prev
    ensures next[head] == After([head] + items, 0) == (if items == [] then head else items[0])
    ensures prev[head] == Before([head] + items, 0) == (if items == [] then head else items[|items| - 1])
  {
    var all := [head] + items;
    assert all[0] == head;
  }

  lemma InCircle(next: map<Addr, Addr>, prev: map<Addr, Addr>, all: seq<Addr>, i: nat)
    requires Circle(next, prev, all) && i < |all|
    ensures Before(all, i) in all && After(all, i) in all
    ensures forall j :: 0 <= j < |all| && j != i ==> all[j] != all[i]
  {
  }

  ghost predicate ItemOk(next: map<Addr, Addr>, prev: map<Addr, Addr>, head: Addr, items: seq<Addr>, i: nat)
    requires i < |items|
  {
    items[i] in next && items[i] in prev &&
    next[items[i]] == (if i + 1 < |items| then items[i + 1] else head) &&
    prev[items[i]] == (if i > 0 then items[i - 1] else head)
  }

  /** A list, item by item. */
  lemma ItemLinks(next: map<Addr, Addr>, prev: map<Addr, Addr>, head: Addr, items: seq<Addr>)
    requires Circle(next, prev, [head] + items)
    ensures head !in items && forall i, j :: 0 <= i < j < |items| ==> items[i] != items[j]
    ensures forall i :: 0 <= i < |items| ==> ItemOk(next, prev, head, items, i)
  {
    var all := [head] + items;
    forall i | 0 <= i < |items| ensures items[i] == all[i + 1] && items[i] != head {
      assert all[0] != all[i + 1];
    }
    forall i, j | 0 <= i < j < |items| ensures items[i] != items[j] { assert all[i + 1] != all[j + 1]; }
    forall i | 0 <= i < |items| ensures ItemOk(next, prev, head, items, i) {
      assert all[i + 1] == items[i];
    }
  }

  /** The other way round. */
  lemma ItemsAreList(next: map<Addr, Addr>, prev: map<Addr, Addr>, head: Addr, items: seq<Addr>)
    requires head in next && head in prev && head !in items
    requires next[head] == (if items == [] then head else items[0])
    requires prev[head] == (if items == [] then head else items[|items| - 1])
    requires forall i, j :: 0 <= i < j < |items| ==> items[i] != items[j]
    requires forall i :: 0 <= i < |items| ==> ItemOk(next, prev, head, items, i)
    ensures Circle(next, prev, [head] + items)
  {
    var all := [head] + items;
    forall i | 0 <= i < |all|
      ensures all[i] in next && all[i] in prev && next[all[i]] == After(all, i) && prev[all[i]] == Before(all, i)
    {
      if i > 0 { assert all[i] == items[i - 1] && ItemOk(next, prev, head, items, i - 1); }
      if i + 1 < |all| { assert all[i + 1] == items[i]; }
      if i > 1 { assert all[i - 1] == items[i - 2]; }
    }
  }

  lemma SpliceLinks(next: map<Addr, Addr>, prev: map<Addr, Addr>, list: Addr, head: Addr, xs: seq<Addr>, ys: seq<Addr>)
    requires Circle(next, prev, [list] + xs) && Circle(next, prev, [head] + ys) && xs != []
    requires list != head && list !in ys && head !in xs && forall x :: x in xs ==> x !in ys
    ensures var first, last, at := xs[0], xs[|xs| - 1], (if ys == [] then head else ys[0]);
            Circle(next[head := first][last := at], prev[first := head][at := last], [head] + (xs + ys))
  {
    hide Circle;
    var first, last, at := xs[0], xs[|xs| - 1], (if ys == [] then head else ys[0]);
    var n, p, r := next[head := first][last := at], prev[first := head][at := last], xs + ys;
    Ends(next, prev, head, ys);
    ItemLinks(next, prev, list, xs);
    ItemLinks(next, prev, head, ys);
    assert first in xs && last in xs && (at == head || at in ys);
    assert forall i :: 0 <= i < |xs| ==> xs[i] in xs && r[i] == xs[i];
    assert forall i :: 0 <= i < |ys| ==> ys[i] in ys && r[|xs| + i] == ys[i];
    forall i | 0 <= i < |r| ensures ItemOk(n, p, head, r, i) {
      if i < |xs| {
        assert ItemOk(next, prev, list, xs, i);
        assert xs[i] != at && (xs[i] == last <==> i == |xs| - 1) && (xs[i] == first <==> i == 0);
        assert i + 1 == |xs| && ys != [] ==> r[i + 1] == ys[0];
      } else {
        var k := i - |xs|;
        assert ItemOk(next, prev, head, ys, k) && r[i] == ys[k];
        assert ys[k] != last && ys[k] != first && (k > 0 ==> ys[k] != ys[0]);
        assert k + 1 < |ys| ==> r[i + 1] == ys[k + 1];
        assert k > 0 ==> r[i - 1] == ys[k - 1];
      }
    }
    forall i, j | 0 <= i < j < |r| ensures r[i] != r[j] {
      if i >= |xs| { assert r[i] == ys[i - |xs|]; }
      if j >= |xs| { assert r[j] == ys[j - |xs|]; }
    }
    ItemsAreList(n, p, head, r);
  }

  /** A circle read so that its j-th node comes last. */
  ghost function Turn(all: seq<Addr>, j: nat): seq<Addr> requires j < |all| { all[j + 1..] + all[..j + 1] }

  lemma TurnLinks(next: map<Addr, Addr>, prev: map<Addr, Addr>, all: seq<Addr>, j: nat)
    requires Circle(next, prev, all) && j < |all| && |all| > 1
    ensures Circle(next, prev, Turn(all, j)) && all[j] in next && all[j] in prev
    ensures next[all[j]] == Turn(all, j)[0] == After(all, j)
    ensures prev[all[j]] == Turn(all, j)[|all| - 2] == Before(all, j)
  {
    if j + 1 < |all| { Rotate(next, prev, all, j + 1); } else { assert Turn(all, j) == all; }
  }

  lemma TurnBack(head: Addr, items: seq<Addr>, k: nat)
    requires k < |items|
    ensures var rest := Turn([head] + items, k + 1)[..|items|];
            rest[|items| - (k + 1)..] + rest[..|items| - (k + 1)] == [head] + (items[..k] + items[k + 1..])
  {
    var all := [head] + items;
    assert Turn(all, k + 1)[..|items|] == all[k + 2..] + all[..k + 1];
    assert all[k + 2..] == items[k + 1..] && all[..k + 1] == [head] + items[..k];
  }
}
