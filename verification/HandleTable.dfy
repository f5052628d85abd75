/** The handle table of src/handle.c: a direct-mapped, growable array that is to behave like a finite map from handle
    ids to references. */
module HandleTable {
  import opened Arith
  import opened Ring

  const INT_LIMIT: nat := 0x8000_0000
  const MINIMUM_SIZE: nat := 1024

  /** A reference of zero is the null pointer. */
  datatype Entry = Entry(id: nat, ref: nat)

  const EMPTY := Entry(0, 0)

  datatype Status = Ok | NoMemory | InvalidHandle | NotFound

  ghost predicate IsPowerOfTwo(n: nat) decreases n { n == 1 || (n > 1 && n % 2 == 0 && IsPowerOfTwo(n / 2)) }

  lemma {:induction false} SmallerPowerDivides(n: nat, m: nat)
    requires IsPowerOfTwo(n) && IsPowerOfTwo(m) && n <= m
    ensures m % n == 0
    decreases m
  {
    if n > 1 {
      SmallerPowerDivides(n / 2, m / 2);
      var q := (m / 2) / (n / 2);
      assert m == n * q;
      MultipleMod(q, n);
    }
  }

  /** Each slot is empty, or holds an id issued so far that belongs there. */
  ghost predicate SlotsOk(s: seq<Entry>, last: nat) {
    |s| > 0 && forall i :: 0 <= i < |s| ==> s[i] == EMPTY || SlotLive(s, i, last)
  }

  ghost predicate SlotLive(s: seq<Entry>, i: nat, last: nat) requires i < |s| {
    s[i].ref != 0 && 1 <= s[i].id <= last && At(s[i].id, |s|) == i
  }

  /** The finite map the table stands for. */
  ghost function Contents(s: seq<Entry>, last: nat): map<nat, nat> requires |s| > 0 {
    map id | 1 <= id <= last && s[At(id, |s|)].id == id :: s[At(id, |s|)].ref
  }

  /** As a relation: the live slots are the map, each once. */
  lemma ContentsAreLiveSlots(s: seq<Entry>, last: nat, id: nat, ref: nat)
    requires SlotsOk(s, last)
    ensures (id in Contents(s, last) && Contents(s, last)[id] == ref) <==>
            (ref != 0 && Entry(id, ref) in s)
    ensures forall i, j :: 0 <= i < |s| && 0 <= j < |s| && s[i].ref != 0 && s[j].ref != 0 && s[i].id == s[j].id ==>
              i == j
  {
    hide At;
    if ref != 0 && Entry(id, ref) in s {
      var i :| 0 <= i < |s| && s[i] == Entry(id, ref);
      assert SlotLive(s, i, last);
    }
    if id in Contents(s, last) {
      assert SlotLive(s, At(id, |s|), last);
      assert s[At(id, |s|)] == Entry(id, Contents(s, last)[id]);
    }
  }

  /** Fewer ids than slots leave an empty slot. */
  lemma {:induction false} SomeSlotEmpty(s: seq<Entry>, last: nat)
    requires SlotsOk(s, last) && |Contents(s, last)| < |s|
    ensures exists i :: 0 <= i < |s| && s[i] == EMPTY
  {
    if forall i :: 0 <= i < |s| ==> s[i] != EMPTY {
      IdsOfPrefix(s, last, |s|);
      var ids := set i | 0 <= i < |s| :: s[i].id;
      assert ids <= Contents(s, last).Keys;
      assert |Contents(s, last)| == |Contents(s, last).Keys|;
      SubsetSize(ids, Contents(s, last).Keys);
    }
  }

  lemma {:induction false} IdsOfPrefix(s: seq<Entry>, last: nat, n: nat)
    requires n <= |s| && forall i :: 0 <= i < |s| ==> SlotLive(s, i, last)
    ensures |set i | 0 <= i < n :: s[i].id| == n
  {
    hide At;
    if n > 0 {
      IdsOfPrefix(s, last, n - 1);
      var before := set i | 0 <= i < n - 1 :: s[i].id;
      assert SlotLive(s, n - 1, last);
      forall i | 0 <= i < n - 1 ensures s[i].id != s[n - 1].id { assert SlotLive(s, i, last); }
      assert s[n - 1].id !in before;
      assert (set i | 0 <= i < n :: s[i].id) == before + {s[n - 1].id};
    }
  }

  lemma FoundInSlot(s: seq<Entry>, last: nat, id: nat)
    requires SlotsOk(s, last)
    ensures id in Contents(s, last) <==> id != 0 && s[At(id, |s|)].id == id
    ensures At(0, |s|) == 0
  {
    hide At;
    DoublingKeepsApart(0, 0, |s|);
    assert s[At(id, |s|)] == EMPTY || SlotLive(s, At(id, |s|), last);
  }

  lemma SlotOfFound(s: seq<Entry>, last: nat, i: nat)
    requires SlotsOk(s, last) && i < |s| && s[i].ref != 0
    ensures s[i].id in Contents(s, last) && At(s[i].id, |s|) == i
  {
    assert SlotLive(s, i, last);
  }

  /** used-- on an unsigned word. */
  function Decremented(n: nat): nat { if n == 0 then W64 - 1 else n - 1 }

  // -------------------------------------------------------------------------------- growing

  /** The slot an id moves to when the table doubles leads back to the slot it had, so no two ids meet. */
  lemma DoublingKeepsApart(a: nat, b: nat, size: nat)
    requires size > 0
    ensures At(At(a, 2 * size), size) == At(a, size)
    ensures At(a, size) != At(b, size) ==> At(a, 2 * size) != At(b, 2 * size)
    ensures At(0, size) == 0 && At(0, 2 * size) == 0
  {
    ModMod(a, 2, size);
    ModMod(b, 2, size);
  }

  /** An empty slot other than the first, among the first n. */
  ghost predicate EmptyLater(s: seq<Entry>, n: nat) requires n <= |s| { exists m :: 0 < m < n && s[m].ref == 0 }

  /** Slot j of the doubled table after the first n old slots were copied. Copying an empty slot writes slot 0. */
  ghost function Placed(s: seq<Entry>, n: nat, j: nat): Entry requires 0 < |s| && n <= |s| {
    var k := At(j, |s|);
    if k < n && s[k].ref != 0 && At(s[k].id, 2 * |s|) == j && !(j == 0 && EmptyLater(s, n)) then s[k] else EMPTY
  }

  lemma PlacedNone(s: seq<Entry>)
    requires |s| > 0
    ensures forall j :: 0 <= j < 2 * |s| ==> Placed(s, 0, j) == EMPTY
  {
    hide At;
  }

  lemma PlacedStep(s: seq<Entry>, last: nat, n: nat, j: nat)
    requires SlotsOk(s, last) && n < |s| && j < 2 * |s|
    ensures Placed(s, n + 1, j) == if j == At(s[n].id, 2 * |s|) then s[n] else Placed(s, n, j)
  {
    hide At;
    var t := At(s[n].id, 2 * |s|);
    DoublingKeepsApart(s[n].id, 0, |s|);
    assert s[n] == EMPTY || SlotLive(s, n, last);
    if s[n].ref != 0 {
      assert At(t, |s|) == n;
      assert EmptyLater(s, n + 1) ==> EmptyLater(s, n);
      assert EmptyLater(s, n) ==> EmptyLater(s, n + 1);
      if t == 0 { assert n == 0; }
    } else {
      assert t == 0;
      assert EmptyLater(s, n) ==> EmptyLater(s, n + 1);
      if n > 0 { assert EmptyLater(s, n + 1); }
    }
  }

  /** The doubled table when the first `n` slots have been placed. */
  ghost predicate AllPlaced(s: seq<Entry>, n: nat, d: seq<Entry>) requires 0 < |s| && n <= |s| {
    |d| == 2 * |s| && forall j :: 0 <= j < |d| ==> d[j] == Placed(s, n, j)
  }

  lemma PlacedSteps(s: seq<Entry>, last: nat, n: nat, d: seq<Entry>, d': seq<Entry>)
    requires SlotsOk(s, last) && n < |s| && AllPlaced(s, n, d) && At(s[n].id, 2 * |s|) < |d|
    requires d' == d[At(s[n].id, 2 * |s|) := s[n]]
    ensures AllPlaced(s, n + 1, d')
  {
    hide At, Placed, SlotsOk;
    forall j | 0 <= j < 2 * |s|
      ensures d'[j] == Placed(s, n + 1, j)
    {
      PlacedStep(s, last, n, j);
    }
  }

  /** The ids lost by doubling: the one that moves to slot 0, if there is one and an empty slot is copied after it. */
  ghost function Lost(s: seq<Entry>): set<nat> requires |s| > 0 {
    if s[0].ref != 0 && At(s[0].id, 2 * |s|) == 0 && EmptyLater(s, |s|) then {s[0].id} else {}
  }

  lemma LostAreLive(s: seq<Entry>, last: nat)
    requires SlotsOk(s, last)
    ensures Lost(s) <= Contents(s, last).Keys
    ensures forall id :: id in Lost(s) ==> id <= last
  {
    if s[0].ref != 0 { SlotOfFound(s, last, 0); assert SlotLive(s, 0, last); }
  }

  ghost predicate Doubled(s: seq<Entry>, d: seq<Entry>) requires |s| > 0 {
    AllPlaced(s, |s|, d)
  }

  lemma DoubledContents(s: seq<Entry>, d: seq<Entry>, last: nat)
    requires SlotsOk(s, last) && Doubled(s, d)
    ensures SlotsOk(d, last)
    ensures Contents(d, last) == Contents(s, last) - Lost(s)
  {
    hide At;
    forall j | 0 <= j < |d| ensures d[j] == EMPTY || SlotLive(d, j, last) {
      assert d[j] == Placed(s, |s|, j);
      if d[j] != EMPTY { assert SlotLive(s, At(j, |s|), last); }
    }
    forall id | 1 <= id <= last
      ensures d[At(id, |d|)].id == id <==> s[At(id, |s|)].id == id && id !in Lost(s)
      ensures d[At(id, |d|)].id == id ==> d[At(id, |d|)] == s[At(id, |s|)]
    {
      DoublingKeepsApart(id, 0, |s|);
      var j := At(id, |d|);
      assert d[j] == Placed(s, |s|, j);
      assert s[At(j, |s|)] == EMPTY || SlotLive(s, At(j, |s|), last);
      if s[0].ref != 0 { assert SlotLive(s, 0, last); }
      if j == 0 { assert At(id, |s|) == 0; }
    }
  }

  /** Doubling keeps the map iff no live id is a multiple of the new size, or no slot after the first is empty. */
  lemma DoublingKeepsMapIff(s: seq<Entry>, last: nat)
    requires SlotsOk(s, last)
    ensures Contents(s, last) - Lost(s) == Contents(s, last) <==>
            (forall id :: id in Contents(s, last) ==> At(id, 2 * |s|) != 0) || !EmptyLater(s, |s|)
  {
    hide At;
    if Lost(s) != {} {
      assert SlotLive(s, 0, last);
      assert s[0].id in Contents(s, last);
      assert s[0].id !in Contents(s, last) - Lost(s);
    }
    forall id | id in Contents(s, last) && At(id, 2 * |s|) == 0
      ensures s[0].ref != 0 && At(s[0].id, 2 * |s|) == 0
    {
      DoublingKeepsApart(id, 0, |s|);
      assert At(id, |s|) == 0;
      assert SlotLive(s, 0, last);
    }
  }

  /** With empty slots passed over, the doubled table would always hold the same map. */
  lemma SkippingEmptyKeepsMap(s: seq<Entry>, d: seq<Entry>, last: nat)
    requires SlotsOk(s, last) && |d| == 2 * |s|
    requires forall i :: 0 <= i < |s| && s[i].ref != 0 ==> d[At(s[i].id, |d|)] == s[i]
    requires forall j :: 0 <= j < |d| ==> d[j] == EMPTY || d[j] in s
    ensures Contents(d, last) == Contents(s, last)
  {
    hide At;
    forall id | 1 <= id <= last
      ensures d[At(id, |d|)].id == id <==> s[At(id, |s|)].id == id
      ensures s[At(id, |s|)].id == id ==> d[At(id, |d|)] == s[At(id, |s|)]
    {
      if s[At(id, |s|)].id == id { assert SlotLive(s, At(id, |s|), last); }
      if d[At(id, |d|)].id == id {
        var i :| 0 <= i < |s| && s[i] == d[At(id, |d|)];
        assert SlotLive(s, i, last);
      }
    }
  }

  // -------------------------------------------------------------------------------- the abstract table

  /** What clients see: the live handles, and the last id issued. */
  datatype Table = Table(live: map<nat, nat>, last: nat)

  datatype Event =
    | Allocated(id: nat, ref: nat, lost: set<nat>)
    | Freed(id: nat)
    | Unchanged

  ghost predicate Step(t: Table, e: Event, t': Table) {
    match e
    case Allocated(id, ref, lost) => t.last < id && ref != 0 && t' == Table((t.live - lost)[id := ref], id)
    case Freed(id) => t' == Table(t.live - {id}, t.last)
    case Unchanged => t' == t
  }

  ghost predicate Run(ts: seq<Table>, es: seq<Event>) {
    |ts| == |es| + 1 && forall k {:trigger es[k]} :: 0 <= k < |es| ==> Step(ts[k], es[k], ts[k + 1])
  }

  /** An id below the last one issued that is not live never resolves again. */
  lemma {:induction false} FreedNeverAgain(ts: seq<Table>, es: seq<Event>, i: nat, j: nat, id: nat)
    requires Run(ts, es) && i <= j < |ts|
    requires id <= ts[i].last && id !in ts[i].live
    ensures id !in ts[j].live
    ensures ts[i].last <= ts[j].last
    decreases j - i
  {
    if i < j {
      assert Step(ts[i], es[i], ts[i + 1]);
      FreedNeverAgain(ts, es, i + 1, j, id);
    }
  }

  lemma {:induction false} LastGrows(ts: seq<Table>, es: seq<Event>, i: nat, j: nat)
    requires Run(ts, es) && i <= j < |ts|
    ensures ts[i].last <= ts[j].last
    decreases j - i
  {
    if i < j {
      assert Step(ts[i], es[i], ts[i + 1]);
      LastGrows(ts, es, i + 1, j);
    }
  }

  /** Ids are issued in strictly increasing order over any run. */
  lemma IssuedInOrder(ts: seq<Table>, es: seq<Event>, i: nat, j: nat)
    requires Run(ts, es) && i < j < |es| && es[i].Allocated? && es[j].Allocated?
    ensures es[i].id < es[j].id
  {
    assert Step(ts[i], es[i], ts[i + 1]);
    assert Step(ts[j], es[j], ts[j + 1]);
    LastGrows(ts, es, i + 1, j);
  }

  /** Between its allocation and its release a handle resolves to what it was allocated for, unless a growth loses
      it. */
  lemma {:induction false} ResolvesUntilFreed(ts: seq<Table>, es: seq<Event>, i: nat, j: nat)
    requires Run(ts, es) && i < j < |ts| && es[i].Allocated?
    requires forall k {:trigger es[k]} :: i < k < j ==>
              es[k] != Freed(es[i].id) && !(es[k].Allocated? && es[i].id in es[k].lost)
    ensures es[i].id in ts[j].live && ts[j].live[es[i].id] == es[i].ref
    decreases j
  {
    if j == i + 1 {
      assert Step(ts[i], es[i], ts[i + 1]);
    } else {
      ResolvesUntilFreed(ts, es, i, j - 1);
      assert Step(ts[j - 1], es[j - 1], ts[j]);
      if es[j - 1].Allocated? { IssuedInOrder(ts, es, i, j - 1); }
    }
  }

  // -------------------------------------------------------------------------------- the table itself

  class HandleTable {
    var lastAllocated: nat
    var used: nat
    var size: nat
    var entry: array<Entry>

    /** The count of used slots is at least the number of live handles and at most one more than half the size. */
    ghost predicate Valid() reads this, entry {
      entry.Length == size && IsPowerOfTwo(size) && MINIMUM_SIZE <= size <= W32 && lastAllocated < W64 &&
      SlotsOk(entry[..], lastAllocated) && |Live()| <= used <= size / 2 + 1
    }

    ghost function Live(): map<nat, nat> reads this, entry {
      if entry.Length > 0 then Contents(entry[..], lastAllocated) else map[]
    }

    ghost function Abs(): Table reads this, entry { Table(Live(), lastAllocated) }

    /** handleTableInit */
    constructor ()
      ensures Valid() && fresh(entry) && Abs() == Table(map[], 0) && used == 0 && size == MINIMUM_SIZE
    {
      lastAllocated, used, size := 0, 0, MINIMUM_SIZE;
      entry := new Entry[MINIMUM_SIZE](_ => EMPTY);
    }

    /** Lookup agrees with the map; an id of zero or beyond the last issued is told apart from one not live, and only
        then is the caller's variable left alone (None). */
    method GetReference(id: nat) returns (status: Status, reference: Option)
      requires Valid()
      ensures status == if id == 0 || id > lastAllocated then InvalidHandle
                        else if id in Live() then Ok else NotFound
      ensures reference == if status == InvalidHandle then Untouched
                           else Written(if id in Live() then Live()[id] else 0)
      ensures status == Ok <==> id in Live()
    {
      if id == 0 || id > lastAllocated { return InvalidHandle, Untouched; }
      if entry[At(id, size)].id == id { return Ok, Written(entry[At(id, size)].ref); }
      return NotFound, Written(0);
    }

    /** Frees exactly the live id. The id zero is found in an empty slot 0: nothing is freed and the count drops. */
    method Free(id: nat) returns (status: Status)
      requires Valid()
      modifies this`used, entry
      ensures status == Ok <==> id in old(Live()) || (id == 0 && old(entry[0]) == EMPTY)
      ensures status == Ok || status == InvalidHandle
      ensures Step(old(Abs()), if id in old(Live()) then Freed(id) else Unchanged, Abs())
      ensures status != Ok ==> used == old(used)
      ensures status == Ok ==> used == if old(used) == 0 then 0xFFFF_FFFF_FFFF_FFFF else old(used) - 1
      ensures Valid() <==> !(id == 0 && old(entry[0]) == EMPTY && old(used) == |old(Live())|)
    {
      hide IsPowerOfTwo, At, Contents, SlotsOk;
      FoundInSlot(entry[..], lastAllocated, id);
      if entry[At(id, size)].id == id {
        ghost var s := entry[..];
        entry[At(id, size)] := EMPTY;
        used := Decremented(used);
        ClearedSlot(s, lastAllocated, id);
        assert entry[..] == s[At(id, size) := EMPTY];
        MapSizes(old(Live()), id, 0);
        return Ok;
      }
      return InvalidHandle;
    }

    /** Doubles the table; xalloc gives no memory, or the memory asked for. The loop counter is an int. */
    method Grow(memory: bool) returns (status: Status)
      requires Valid() && (memory ==> size < INT_LIMIT)
      modifies this`size, this`entry
      ensures status == if memory then Ok else NoMemory
      ensures !memory ==> entry == old(entry) && size == old(size)
      ensures memory ==> fresh(entry) && size == 2 * old(size)
      ensures Valid()
      ensures Live() == old(Live()) - if memory then Lost(old(entry[..])) else {}
    {
      hide IsPowerOfTwo, At, Contents, SlotsOk, AllPlaced, Lost;
      if !memory { return NoMemory; }
      ghost var s := entry[..];
      var newStart := Rehash();
      DoubledContents(s, newStart[..], lastAllocated);
      DoubleIsPower(size);
      MapMinusSize(Live(), Lost(s));
      entry := newStart;
      size := 2 * size;
      return Ok;
    }

    /** The rehash loop: every slot, an empty one too, is copied to where its id belongs in a table twice the size. */
    method Rehash() returns (newStart: array<Entry>)
      requires Valid()
      ensures fresh(newStart) && newStart.Length == 2 * size && AllPlaced(entry[..], size, newStart[..])
    {
      hide IsPowerOfTwo, At, Contents, SlotsOk, Placed;
      newStart := new Entry[2 * size](_ => EMPTY);
      ghost var s := entry[..];
      PlacedNone(s);
      assert AllPlaced(s, 0, newStart[..]);
      for i := 0 to size
        modifies newStart
        invariant AllPlaced(s, i, newStart[..])
      {
        var t := At(entry[i].id, 2 * size);
        ghost var before := newStart[..];
        newStart[t] := entry[i];
        assert newStart[..] == before[t := s[i]];
        PlacedSteps(s, lastAllocated, i, before, newStart[..]);
      }
    }

    /** Issues the first id after the last one whose slot is free, within one turn of the table. What a growth loses is
        the event's; ids do not wrap (the source's own assumption about 64-bit ids). */
    method Allocate(reference: nat, memory: bool) returns (status: Status, id: nat, ghost lost: set<nat>)
      requires Valid() && reference != 0 && (memory ==> size < INT_LIMIT)
      requires lastAllocated + 2 * size < W64
      modifies this, entry
      ensures Valid() && (entry == old(entry) || fresh(entry))
      ensures status == if old(size) < 2 * old(used) && !memory then NoMemory else Ok
      ensures status == NoMemory ==> id == 0 && Abs() == old(Abs()) && used == old(used)
      ensures size == if status == Ok && old(size) < 2 * old(used) then 2 * old(size) else old(size)
      ensures !(status == Ok && old(size) < 2 * old(used)) ==> entry == old(entry)
      ensures status == Ok ==> Step(old(Abs()), Allocated(id, reference, lost), Abs()) && used == old(used) + 1
      ensures lost == if status == Ok && old(size) < 2 * old(used) then Lost(old(entry[..])) else {}
      ensures status == Ok ==> old(lastAllocated) < id <= old(lastAllocated) + size && id !in lost
      ensures status == Ok ==>
                forall x :: old(lastAllocated) < x < id ==> exists y :: y in old(Live()) && At(y, size) == At(x, size)
      ensures status == Ok && (forall y :: y in old(Live()) ==> At(y, size) != At(old(lastAllocated) + 1, size)) ==>
                id == old(lastAllocated) + 1
    {
      hide IsPowerOfTwo, At, Contents, SlotsOk, Lost;
      id, lost := 0, {};
      if size < 2 * used {
        lost := if memory then Lost(entry[..]) else {};
        LostAreLive(entry[..], lastAllocated);
        status := Grow(memory);
        if status != Ok { return; }
      }
      id := Issue(reference);
      status := Ok;
    }

    /** handleAllocate once there is room. */
    method Issue(reference: nat) returns (id: nat)
      requires Valid() && reference != 0 && used <= size / 2 && lastAllocated + size < W64
      modifies this`lastAllocated, this`used, entry
      ensures Valid() && used == old(used) + 1
      ensures old(lastAllocated) < id <= old(lastAllocated) + size
      ensures Abs() == Table(old(Live())[id := reference], id)
      ensures forall x :: old(lastAllocated) < x < id ==> exists y :: y in old(Live()) && At(y, size) == At(x, size)
    {
      hide IsPowerOfTwo, At, Contents, SlotsOk;
      ghost var s, was := entry[..], lastAllocated;
      id := Probe();
      entry[At(id, size)] := Entry(id, reference);
      used := used + 1;
      FilledSlot(s, was, id, reference);
      MapSizes(Contents(s, was), id, reference);
      assert entry[..] == s[At(id, size) := Entry(id, reference)];
    }

    /** The loop of handleAllocate: with an empty slot somewhere, it ends within one turn. */
    method Probe() returns (id: nat)
      requires entry.Length == size > 0 && SlotsOk(entry[..], lastAllocated) && |Live()| < size
      modifies this`lastAllocated
      ensures lastAllocated == id && old(lastAllocated) < id <= old(lastAllocated) + size
      ensures entry[At(id, size)].ref == 0
      ensures forall x :: old(lastAllocated) < x < id ==> exists y :: y in old(Live()) && At(y, size) == At(x, size)
    {
      hide At, Contents, SlotsOk;
      ghost var s, was := entry[..], lastAllocated;
      SomeSlotEmpty(s, was);
      ghost var free :| 0 <= free < size && s[free] == EMPTY;
      ghost var next := NextInSlot(was + 1, free, size);
      while true
        invariant was <= lastAllocated < next <= was + size && s[At(next, size)].ref == 0
        invariant forall x :: was < x <= lastAllocated ==> s[At(x, size)].ref != 0
        decreases next - lastAllocated
        modifies this`lastAllocated
      {
        lastAllocated := lastAllocated + 1;
        if entry[At(lastAllocated, size)].ref == 0 {
          id := lastAllocated;
          break;
        }
      }
      forall x | was < x < id ensures exists y :: y in old(Live()) && At(y, size) == At(x, size) {
        SlotOfFound(s, was, At(x, size));
      }
    }

    /** Resolves the low 32 bits of a live id to the id. Whatever is found is live and in the slot the short id
        names. */
    method ShortHandleToHandleId(short: nat) returns (status: Status, id: nat)
      requires Valid() && short < W32
      ensures status == Ok || status == NotFound
      ensures status == Ok ==> id in Live() && At(id, size) == At(short, size)
      ensures status == NotFound ==> forall x :: x in Live() ==> At(x, size) != At(short, size)
      ensures forall x :: x in Live() && x % W32 == short ==> status == Ok && id == x
    {
      hide IsPowerOfTwo, At;
      var s := entry[..];
      assert s[At(short, size)] == EMPTY || SlotLive(s, At(short, size), lastAllocated);
      forall x | x in Live() && x % W32 == short ensures At(x, size) == At(short, size) {
        ShortSlot(x, size);
      }
      if entry[At(short, size)].ref == 0 { return NotFound, 0; }
      return Ok, entry[At(short, size)].id;
    }
  }

  datatype Option = Untouched | Written(ref: nat)

  /** handleTableInit; xalloc gives memory or not. */
  method Init(memory: bool) returns (status: Status, table: HandleTable?)
    ensures status == if memory then Ok else NoMemory
    ensures table != null <==> memory
    ensures table != null ==>
              table.Valid() && fresh(table) && fresh(table.entry) && table.Abs() == Table(map[], 0) && table.used == 0
  {
    if !memory { return NoMemory, null; }
    table := new HandleTable();
    status := Ok;
  }

  /** A run that loses a live handle: handles are issued and freed until the last is 2047, then 513 are issued and kept,
      of which 2048 is the first. It resolves until the next is issued, for which the table grows. */
  method GrowthLosesHandle() returns (t: HandleTable, ghost live: map<nat, nat>, before: Status, after: Status)
    ensures fresh(t) && t.Valid() && 2048 in live && t.lastAllocated > 2048 && 2048 !in t.Live()
    ensures before == Ok && after == NotFound
  {
    t := new HandleTable();
    IssueAndFree(t);
    IssueAndKeep(t);
    ghost var s := t.entry[..];
    LosesFirst(s, t.lastAllocated);
    var r: Option;
    live := t.Live();
    before, r := t.GetReference(2048);
    var _, id, lost := t.Allocate(1, true);
    assert 2048 !in t.Live();
    after, r := t.GetReference(2048);
  }

  method IssueAndFree(t: HandleTable)
    requires t.Valid() && t.Abs() == Table(map[], 0) && t.used == 0 && t.size == MINIMUM_SIZE
    modifies t, t.entry
    ensures t.Valid() && t.Abs() == Table(map[], 2047) && t.used == 0 && t.size == MINIMUM_SIZE
    ensures t.entry == old(t.entry)
  {
    hide IsPowerOfTwo, At, Contents, SlotsOk, Lost;
    for i := 0 to 2047
      invariant t.Valid() && t.Abs() == Table(map[], i) && t.used == 0 && t.size == MINIMUM_SIZE
      invariant t.entry == old(t.entry)
    {
      var _, id, _ := t.Allocate(1, true);
      assert id == i + 1;
      var freed := t.Free(id);
      assert t.Live() == map[];
    }
  }

  /** The live handles are the n from 2048 on. */
  ghost predicate Kept(live: map<nat, nat>, n: nat) { forall x :: x in live <==> 2048 <= x < 2048 + n }

  method IssueAndKeep(t: HandleTable)
    requires t.Valid() && t.Abs() == Table(map[], 2047) && t.used == 0 && t.size == MINIMUM_SIZE
    modifies t, t.entry
    ensures t.Valid() && Kept(t.Live(), 513) && t.lastAllocated == 2560 && t.used == 513 && t.size == MINIMUM_SIZE
    ensures t.entry == old(t.entry)
  {
    hide IsPowerOfTwo, At, Contents, SlotsOk, Lost, Kept;
    KeptNone();
    for i := 0 to 513
      invariant t.Valid() && Kept(t.Live(), i) && t.lastAllocated == 2047 + i && t.used == i
      invariant t.size == MINIMUM_SIZE && t.entry == old(t.entry)
    {
      SlotIsFree(t.Live(), i);
      KeptMore(t.Live(), i);
      var _, id, _ := t.Allocate(1, true);
      assert id == 2048 + i;
    }
  }

  lemma KeptNone()
    ensures Kept(map[], 0)
  {
  }

  lemma KeptMore(live: map<nat, nat>, n: nat)
    requires Kept(live, n)
    ensures Kept((live - {})[2048 + n := 1], n + 1)
  {
  }

  lemma SlotIsFree(live: map<nat, nat>, n: nat)
    requires Kept(live, n) && n < MINIMUM_SIZE
    ensures forall y :: y in live ==> At(y, MINIMUM_SIZE) != At(2048 + n, MINIMUM_SIZE)
  {
    forall y | y in live ensures At(y, MINIMUM_SIZE) == y - 2048 {}
    assert At(2048 + n, MINIMUM_SIZE) == n;
  }

  lemma LosesFirst(s: seq<Entry>, last: nat)
    requires |s| == MINIMUM_SIZE && SlotsOk(s, last) && Kept(Contents(s, last), 513)
    ensures Lost(s) == {2048}
  {
    hide Contents, SlotsOk, At;
    FoundInSlot(s, last, 2048);
    KeptSlot(2048);
    LiveRef(s, last, 0);
    if s[600].ref != 0 {
      SlotOfFound(s, last, 600);
      KeptSlot(s[600].id);
    }
  }

  lemma KeptSlot(id: nat)
    requires 2048 <= id < 3072
    ensures At(id, MINIMUM_SIZE) == id - 2048 && (id == 2048 ==> At(id, 2 * MINIMUM_SIZE) == 0)
  {
  }

  lemma LiveRef(s: seq<Entry>, last: nat, i: nat)
    requires SlotsOk(s, last) && i < |s| && s[i].id != 0
    ensures s[i].ref != 0
  {
  }

  /** Two tables of one size whose slots of each id agree on it, except for one id, have maps that differ only there. */
  lemma ContentsAfter(s: seq<Entry>, d: seq<Entry>, last: nat, last': nat, id: nat, live: bool)
    requires |s| == |d| > 0 && last <= last' && id <= last'
    requires forall x :: 1 <= x <= last' && x != id && d[At(x, |s|)].id == x ==>
              x <= last && s[At(x, |s|)] == d[At(x, |s|)]
    requires forall x :: 1 <= x <= last && x != id && s[At(x, |s|)].id == x ==> s[At(x, |s|)] == d[At(x, |s|)]
    requires live ==> id != 0
    requires id != 0 ==> (d[At(id, |s|)].id == id <==> live)
    ensures Contents(d, last') == if live then Contents(s, last)[id := d[At(id, |s|)].ref] else Contents(s, last) - {id}
  {
    hide At;
  }

  lemma MapSizes(m: map<nat, nat>, id: nat, ref: nat)
    ensures |m - {id}| == |m| - if id in m then 1 else 0
    ensures |m[id := ref]| == |m| + if id in m then 0 else 1
  {
    assert (m - {id}).Keys == m.Keys - {id} && m[id := ref].Keys == m.Keys + {id};
    assert |m - {id}| == |(m - {id}).Keys| && |m| == |m.Keys| && |m[id := ref]| == |m[id := ref].Keys|;
  }

  lemma ClearedSlot(s: seq<Entry>, last: nat, id: nat)
    requires SlotsOk(s, last) && s[At(id, |s|)].id == id
    ensures id == 0 ==> At(id, |s|) == 0 && s[0] == EMPTY
    ensures SlotsOk(s[At(id, |s|) := EMPTY], last)
    ensures Contents(s[At(id, |s|) := EMPTY], last) == Contents(s, last) - {id}
    ensures id in Contents(s, last) <==> id != 0
  {
    hide At;
    DoublingKeepsApart(0, 0, |s|);
    var i, c := At(id, |s|), s[At(id, |s|) := EMPTY];
    assert s[i] == EMPTY || SlotLive(s, i, last);
    forall k | 0 <= k < |c| ensures c[k] == EMPTY || SlotLive(c, k, last) {
      assert s[k] == EMPTY || SlotLive(s, k, last);
    }
    ContentsAfter(s, c, last, last, id, false);
  }

  lemma FilledSlot(s: seq<Entry>, last: nat, id: nat, ref: nat)
    requires SlotsOk(s, last) && last < id && ref != 0 && s[At(id, |s|)].ref == 0
    ensures SlotsOk(s[At(id, |s|) := Entry(id, ref)], id)
    ensures Contents(s[At(id, |s|) := Entry(id, ref)], id) == Contents(s, last)[id := ref]
  {
    hide At;
    var d := s[At(id, |s|) := Entry(id, ref)];
    forall k | 0 <= k < |d| ensures d[k] == EMPTY || SlotLive(d, k, id) {
      assert s[k] == EMPTY || SlotLive(s, k, last);
    }
    forall x | last < x < id ensures d[At(x, |s|)].id != x {
      assert s[At(x, |s|)] == EMPTY || SlotLive(s, At(x, |s|), last);
    }
    assert s[At(id, |s|)] == EMPTY;
    ContentsAfter(s, d, last, id, id, true);
  }

  lemma MapMinusSize(m: map<nat, nat>, gone: set<nat>)
    ensures |m - gone| <= |m|
  {
    SubsetSize((m - gone).Keys, m.Keys);
    assert |m - gone| == |(m - gone).Keys| && |m| == |m.Keys|;
  }

  lemma DoubleIsPower(n: nat)
    requires IsPowerOfTwo(n)
    ensures IsPowerOfTwo(2 * n)
  {
    assert 2 * n / 2 == n;
  }

  lemma SizeDividesShort(size: nat) returns (q: nat)
    requires IsPowerOfTwo(size) && size <= W32
    ensures q > 0 && W32 == q * size
  {
    ShortIsPower();
    SmallerPowerDivides(size, W32);
    q := W32 / size;
  }

  /** A table size divides the range of short ids, so an id and its short form have the same slot. */
  lemma ShortSlot(id: nat, size: nat)
    requires IsPowerOfTwo(size) && size <= W32
    ensures At(id % W32, size) == At(id, size)
  {
    var q := SizeDividesShort(size);
    ModMod(id, q, size);
  }

  lemma {:induction false} PowerOfTwoIs(n: nat)
    ensures Pow2(n) > 0 && IsPowerOfTwo(Pow2(n))
  {
    if n > 0 {
      PowerOfTwoIs(n - 1);
      DoubleIsPower(Pow2(n - 1));
    }
  }

  lemma ShortIsPower()
    ensures IsPowerOfTwo(W32)
  {
    PowerOfTwoIs(32);
    assert Pow2(8) == 256;
    assert Pow2(16) == 65536;
    assert Pow2(24) == 0x100_0000;
    assert Pow2(32) == W32;
  }

  lemma NextInSlot(from: nat, slot: nat, size: nat) returns (next: nat)
    requires slot < size
    ensures from <= next < from + size && At(next, size) == slot
  {
    var d := (slot - from) % size;
    var q := (slot - from) / size;
    assert slot - from == size * q + d;
    next := from + d;
    assert next == size * -q + slot by { assert size * -q == -(size * q); }
    DivModUnique(next, size, -q, slot);
  }
}
