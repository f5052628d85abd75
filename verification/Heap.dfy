/** The first-fit allocator of hw2/my_malloc.c. A block starts with a header of 32 bytes; free blocks are linked in a
    circular list through their headers. Addresses are offsets in the heap; the head of the list lies outside it. */
module Heap {
  import opened Arith
  import opened LinkedList

  const HEAP_SIZE: nat := 1048576
  const HEADER: nat := 32
  const END: nat := HEAP_SIZE - HEADER
  const FREE_LIST: Addr := -1

  /** The address my_malloc returns, and how my_free goes. */
  datatype Pointer = Null | At(addr: nat)
  datatype FreeResult = Done | DoubleFree

  /** The blocks lie one behind another from `from` to `end`, each with room for its header. */
  ghost predicate Tiled(size: map<nat, nat>, from: nat, blocks: seq<nat>, end: nat) decreases |blocks| {
    if blocks == [] then from == end
    else blocks[0] == from && from in size && size[from] >= HEADER && Tiled(size, from + size[from], blocks[1..], end)
  }

  /** Blocks do not overlap, and lie within the bounds. */
  lemma {:induction false} TiledApart(size: map<nat, nat>, from: nat, blocks: seq<nat>, end: nat)
    requires Tiled(size, from, blocks, end)
    ensures forall i :: 0 <= i < |blocks| ==>
              blocks[i] in size && size[blocks[i]] >= HEADER && from <= blocks[i] && blocks[i] + size[blocks[i]] <= end
    ensures forall i, j :: 0 <= i < j < |blocks| ==> blocks[i] + size[blocks[i]] <= blocks[j]
    ensures from <= end
    decreases |blocks|
  {
    if blocks != [] {
      var rest := blocks[1..];
      TiledApart(size, from + size[from], rest, end);
      forall i | 0 <= i < |blocks|
        ensures blocks[i] in size && size[blocks[i]] >= HEADER && from <= blocks[i]
        ensures blocks[i] + size[blocks[i]] <= end
      {
        if i > 0 { assert blocks[i] == rest[i - 1]; }
      }
      forall i, j | 0 <= i < j < |blocks| ensures blocks[i] + size[blocks[i]] <= blocks[j] {
        assert blocks[j] == rest[j - 1];
        if i > 0 { assert blocks[i] == rest[i - 1]; }
      }
    }
  }

  /** Every byte between the bounds is in one block. */
  lemma {:induction false} TiledCovers(size: map<nat, nat>, from: nat, blocks: seq<nat>, end: nat, byte: nat)
    requires Tiled(size, from, blocks, end) && from <= byte < end
    ensures exists b :: b in blocks && b in size && b <= byte < b + size[b]
    decreases |blocks|
  {
    var b := blocks[0];
    if byte >= b + size[b] {
      TiledCovers(size, b + size[b], blocks[1..], end, byte);
    } else {
      assert b in blocks;
    }
  }

  /** The blocks with one of them split in two. */
  ghost function Split(blocks: seq<nat>, b: nat, n: nat): (r: seq<nat>) decreases |blocks| {
    if blocks == [] then []
    else if blocks[0] == b then [b, b + n] + blocks[1..]
    else [blocks[0]] + Split(blocks[1..], b, n)
  }

  lemma {:induction false} SplitMembers(blocks: seq<nat>, b: nat, n: nat, x: nat)
    requires b in blocks
    ensures x in Split(blocks, b, n) <==> x in blocks || x == b + n
    decreases |blocks|
  {
    if blocks[0] == b {
      assert blocks == [b] + blocks[1..];
    } else {
      assert blocks == [blocks[0]] + blocks[1..];
      SplitMembers(blocks[1..], b, n, x);
    }
  }

  /** Splitting a block keeps the tiling. */
  lemma {:induction false} SplitTiled(size: map<nat, nat>, from: nat, blocks: seq<nat>, end: nat, b: nat, n: nat)
    requires Tiled(size, from, blocks, end) && b in blocks && b in size
    requires HEADER <= n && n + HEADER <= size[b]
    ensures Tiled(size[b + n := size[b] - n][b := n], from, Split(blocks, b, n), end)
    ensures b + n !in blocks
    decreases |blocks|
  {
    var size' := size[b + n := size[b] - n][b := n];
    var rest := blocks[1..];
    TiledApart(size, from, blocks, end);
    assert blocks == [from] + rest;
    if from == b {
      TiledElsewhere(size, size', from + size[from], rest, end, {b, b + n});
      var r := [b, b + n] + rest;
      assert r[1..] == [b + n] + rest && r[1..][1..] == rest;
      assert Tiled(size', b + n, r[1..], end);
      assert b + n !in rest;
    } else {
      assert b in rest;
      SplitTiled(size, from + size[from], rest, end, b, n);
      var r := Split(blocks, b, n);
      assert r[1..] == Split(rest, b, n);
      assert from < b;
    }
  }

  /** Sizes of other addresses do not matter to a tiling, addresses below it among them. */
  lemma {:induction false} TiledElsewhere(size: map<nat, nat>, size': map<nat, nat>, from: nat, blocks: seq<nat>,
                                          end: nat, changed: set<nat>)
    requires Tiled(size, from, blocks, end) && forall a :: a in changed ==> a < from
    requires size.Keys <= size'.Keys && forall a :: a in size && a !in changed ==> size'[a] == size[a]
    ensures Tiled(size', from, blocks, end)
    decreases |blocks|
  {
    if blocks != [] { TiledElsewhere(size, size', from + size[from], blocks[1..], end, changed); }
  }

  /** The total of the sizes is the heap less one header, however it is divided. */
  ghost function Total(size: map<nat, nat>, blocks: seq<nat>): nat
    requires forall b :: b in blocks ==> b in size
    decreases |blocks|
  {
    if blocks == [] then 0 else size[blocks[0]] + Total(size, blocks[1..])
  }

  lemma {:induction false} TiledTotal(size: map<nat, nat>, from: nat, blocks: seq<nat>, end: nat)
    requires Tiled(size, from, blocks, end)
    ensures forall b :: b in blocks ==> b in size
    ensures from + Total(size, blocks) == end
    decreases |blocks|
  {
    if blocks != [] {
      TiledTotal(size, from + size[from], blocks[1..], end);
      assert blocks == [blocks[0]] + blocks[1..];
    }
  }

  /** size + sizeof(BlockHeader), in size_t. */
  function NewSize(size: nat): nat { (size + HEADER) % W64 }

  ghost predicate Fits(size: map<nat, nat>, b: Addr, n: nat) { b >= 0 && b in size && size[b] >= n }

  /** The blocks tile the heap; the free ones are among them, and with SAFE they are exactly those marked free. */
  ghost predicate BlocksOk(size: map<nat, nat>, isFree: map<nat, bool>, blocks: seq<nat>, free: seq<Addr>, safe: bool) {
    Tiled(size, 0, blocks, END) &&
    (forall b :: b in size <==> b in blocks) &&
    (forall b :: b in blocks ==> b in isFree) &&
    (forall f :: f in free ==> f >= 0 && f in blocks) &&
    (safe ==> forall b :: b in blocks ==> (isFree[b] <==> b in free))
  }

  /** Taking a block keeps all that, if the part taken has room for a header. */
  lemma TakenOk(size: map<nat, nat>, isFree: map<nat, bool>, blocks: seq<nat>, free: seq<Addr>, safe: bool, k: nat,
                n: nat, size': map<nat, nat>, isFree': map<nat, bool>, blocks': seq<nat>, free': seq<Addr>)
    requires BlocksOk(size, isFree, blocks, free, safe) && (forall i, j :: 0 <= i < j < |free| ==> free[i] != free[j])
    requires Taken(size, isFree, blocks, free, k, n, size', isFree', blocks', free') && n >= HEADER
    ensures BlocksOk(size', isFree', blocks', free', safe)
  {
    hide Tiled, Split;
    var b: nat := free[k];
    var rest := free[..k] + free[k + 1..];
    assert free[k] in free && forall f :: f in rest ==> f in free && f != b;
    assert forall f :: f in free && f != b ==> f in rest;
    if size[b] >= n + HEADER + 16 {
      SplitTiled(size, 0, blocks, END, b, n);
      forall x ensures x in blocks' <==> x in blocks || x == b + n { SplitMembers(blocks, b, n, x); }
    }
  }

  class Heap {
    const list: Nodes
    const safe: bool
    var size: map<nat, nat>
    var isFree: map<nat, bool>
    ghost var blocks: seq<nat>
    ghost var free: seq<Addr>

    ghost predicate Valid() reads this, list {
      BlocksOk(size, isFree, blocks, free, safe) && list.List(FREE_LIST, free)
    }

    /** initHeap. `checked` says whether the program is compiled with SAFE. */
    constructor (checked: bool)
      ensures Valid() && safe == checked && fresh(list)
      ensures blocks == [0] && size == map[0 := 1048544] && free == [0]
    {
      list := new Nodes();
      safe := checked;
      size, isFree := map[0 := END], map[0 := true];
      blocks, free := [0], [0];
      new;
      list.Init(FREE_LIST);
      list.Add(0, FREE_LIST, []);
      assert [0] + [] == [0];
    }

    /** my_malloc: the first free block that fits, in list order, split when enough is left over. Null is returned
        iff no free block fits. The block has room for what was asked for unless size_t overflows, and then never. */
    method Malloc(request: nat) returns (result: Pointer, ghost k: nat)
      requires Valid() && request < W64
      modifies this, list
      ensures
        var n := (request + 32) % 0x1_0000_0000_0000_0000;
        && (result == Null <==> forall f :: f in old(free) ==> !Fits(old(size), f, n))
        && (result != Null ==>
              && k < |old(free)| && Fits(old(size), old(free)[k], n) && result == At(old(free)[k] + 32)
              && (forall j :: 0 <= j < k ==> !Fits(old(size), old(free)[j], n)))
      ensures result == Null ==> Valid() && size == old(size) && isFree == old(isFree) && free == old(free)
      ensures result == Null ==> blocks == old(blocks)
      ensures result != Null && request + 32 < 0x1_0000_0000_0000_0000 ==>
                Taken(old(size), old(isFree), old(blocks), old(free), k, request + 32, size, isFree, blocks, free)
      ensures request + 32 < 0x1_0000_0000_0000_0000 ==> Valid()
      ensures result != Null && request + 32 < 0x1_0000_0000_0000_0000 ==>
                result.addr - 32 in size && request + 32 <= size[result.addr - 32]
      ensures result != Null && request + 32 >= 0x1_0000_0000_0000_0000 ==> old(size)[result.addr - 32] < request
      ensures request + 32 < 0x1_0000_0000_0000_0000 ==> forall b :: b in old(blocks) ==> b in blocks
    {
      hide Circle, Tiled, BlocksOk, Taken;
      var newSize := NewSize(request);
      ghost var items := free;
      Ends(list.next, list.prev, FREE_LIST, items);
      ItemLinks(list.next, list.prev, FREE_LIST, items);
      k := 0;
      var pos := list.next[FREE_LIST];
      while pos != FREE_LIST
        modifies this, list
        invariant unchanged(this) && unchanged(list)
        invariant k <= |items| && pos == if k < |items| then items[k] else FREE_LIST
        invariant forall j :: 0 <= j < k ==> !Fits(size, items[j], newSize)
        decreases |items| - k
      {
        assert items[k] in items && ItemOk(list.next, list.prev, FREE_LIST, items, k);
        FreeAreBlocks(size, isFree, blocks, free, safe, k);
        if size[pos] >= newSize {
          Take(pos, k, newSize);
          assert Fits(old(size), old(free)[k], newSize) && old(free)[k] in old(free);
          return At(pos + HEADER), k;
        }
        pos := list.next[pos];
        k := k + 1;
      }
      result := Null;
    }

    /** The body of my_malloc's loop for a block that fits. */
    method Take(pos: nat, ghost k: nat, newSize: nat)
      requires Valid() && k < |free| && pos == free[k] && pos in size && size[pos] >= newSize
      modifies this, list
      ensures Taken(old(size), old(isFree), old(blocks), old(free), k, newSize, size, isFree, blocks, free)
      ensures newSize >= HEADER ==> Valid()
      ensures pos in size && size[pos] >= newSize
      ensures forall b :: b in old(blocks) ==> b in blocks
    {
      hide Circle, BlocksOk, Split, SameBut, ItemOk, Before, After, Tiled;
      ghost var was, marks, starts, items := size, isFree, blocks, free;
      ItemLinks(list.next, list.prev, FREE_LIST, free);
      FreeAreBlocks(size, isFree, blocks, free, safe, k);
      list.Del(pos, FREE_LIST, free, k);
      ghost var rest := free[..k] + free[k + 1..];
      assert forall f :: f in rest ==> f in free && f != pos;
      if size[pos] >= newSize + HEADER + 16 {
        var rem := pos + newSize;
        NotStart(size, blocks, pos, newSize);
        forall x ensures x in Split(blocks, pos, newSize) <==> x in blocks || x == rem {
          SplitMembers(blocks, pos, newSize, x);
        }
        blocks := Split(blocks, pos, newSize);
        size := size[rem := size[pos] - newSize][pos := newSize];
        isFree := isFree[rem := true];
        list.Add(rem, FREE_LIST, rest);
        free := [rem] + rest;
      } else {
        free := rest;
      }
      isFree := isFree[pos := false];
      if newSize >= HEADER { TakenOk(was, marks, starts, items, safe, k, newSize, size, isFree, blocks, free); }
    }

    /** my_free of a pointer that was returned by my_malloc. Compiled with SAFE, a block is refused iff it is free;
        otherwise the caller must not free twice. */
    method Free(ptr: Pointer) returns (result: FreeResult)
      requires Valid()
      requires ptr.At? ==> ptr.addr >= HEADER && ptr.addr - HEADER in blocks && (!safe ==> ptr.addr - HEADER !in free)
      modifies this`isFree, this`free, list
      ensures Valid()
      ensures result == DoubleFree <==> ptr.At? && ptr.addr - HEADER in old(free)
      ensures ptr == Null || result == DoubleFree ==> free == old(free) && isFree == old(isFree)
      ensures ptr.At? && result == Done ==>
                && free == [ptr.addr - HEADER] + old(free)
                && isFree == if safe then old(isFree)[ptr.addr - HEADER := true] else old(isFree)
    {
      hide Circle, Tiled;
      result := Done;
      if ptr.At? {
        var header := ptr.addr - HEADER;
        if safe {
          if isFree[header] { return DoubleFree; }
          isFree := isFree[header := true];
        }
        list.Add(header, FREE_LIST, free);
        free := [header] + free;
      }
    }
  }

  /** The heap after a free block is taken: what is left over of it, if enough, is a new free block before the
      others. */
  ghost predicate Taken(size: map<nat, nat>, isFree: map<nat, bool>, blocks: seq<nat>, free: seq<Addr>, k: nat, n: nat,
                        size': map<nat, nat>, isFree': map<nat, bool>, blocks': seq<nat>, free': seq<Addr>)
  {
    k < |free| && Fits(size, free[k], n) &&
    var b: nat := free[k];
    var rest := free[..k] + free[k + 1..];
    if size[b] >= n + 48 then
      size' == size[b + n := size[b] - n][b := n] && isFree' == isFree[b + n := true][b := false] &&
      blocks' == Split(blocks, b, n) && free' == [b + n] + rest
    else
      size' == size && isFree' == isFree[b := false] && blocks' == blocks && free' == rest
  }

  lemma FreeAreBlocks(size: map<nat, nat>, isFree: map<nat, bool>, blocks: seq<nat>, free: seq<Addr>, safe: bool,
                      k: nat)
    requires BlocksOk(size, isFree, blocks, free, safe) && k < |free|
    ensures Tiled(size, 0, blocks, END) && free[k] >= 0 && free[k] in blocks && free[k] in size
    ensures forall b :: b in size ==> size[b] <= END
    ensures forall f :: f in free ==> f in blocks
  {
    assert free[k] in free;
    TiledApart(size, 0, blocks, END);
    forall b | b in size ensures size[b] <= END {
      var i :| 0 <= i < |blocks| && blocks[i] == b;
    }
  }

  /** No block starts within another, so none starts where a part is split off. */
  lemma NotStart(size: map<nat, nat>, blocks: seq<nat>, b: nat, n: nat)
    requires Tiled(size, 0, blocks, END) && b in blocks && b in size && n < size[b]
    ensures n > 0 ==> b + n !in blocks
  {
    TiledApart(size, 0, blocks, END);
    var i :| 0 <= i < |blocks| && blocks[i] == b;
    assert forall j :: 0 <= j < |blocks| && j != i ==> blocks[j] + size[blocks[j]] <= b || b + size[b] <= blocks[j];
  }
}
