/** The grant table of xen/xenGrant.c: the free list threaded through an array, and the entries shared with the
    hypervisor, which acts on behalf of foreign domains between any two accesses of the guest.

    Flags and rules of the hypervisor follow Xen's public grant_table.h, version 1 entries. */
module Grant {
  import opened Arith

  const RESERVED: nat := 8
  const ENTRIES: nat := 8 * 4096 / 8

  /** The low two bits of an entry's flags. */
  datatype Type = Invalid | PermitAccess | AcceptTransfer | Other

  /** The 16 bits of an entry's flags. Bit 2 is GTF_readonly or GTF_transfer_committed, bit 3 GTF_reading or
      GTF_transfer_completed, by the type; bit 4 is GTF_writing. */
  datatype Flags = Flags(ty: Type, bit2: bool, bit3: bool, bit4: bool, rest: nat)

  const NONE := Flags(Invalid, false, false, false, 0)
  const ACCEPTING := Flags(AcceptTransfer, false, false, false, 0)
  const COMMITTED := ACCEPTING.(bit2 := true)
  const COMPLETED := COMMITTED.(bit3 := true)

  /** The bits of a 16-bit word. */
  function FlagsOf(word: nat): Flags {
    var ty := if word % 4 == 0 then Invalid else if word % 4 == 1 then PermitAccess
              else if word % 4 == 2 then AcceptTransfer else Other;
    Flags(ty, word / 4 % 2 == 1, word / 8 % 2 == 1, word / 16 % 2 == 1, word / 32)
  }

  /** The 16-bit word of the flags, as grant_table.h lays it out. */
  function WordOf(f: Flags): nat {
    (match f.ty case Invalid => 0 case PermitAccess => 1 case AcceptTransfer => 2 case Other => 3)
    + (if f.bit2 then 4 else 0) + (if f.bit3 then 8 else 0) + (if f.bit4 then 16 else 0) + 32 * f.rest
  }

  /** The flags are the bits of their word, and a word has one set of flags. */
  lemma FlagsAreBits(word: nat, f: Flags)
    ensures WordOf(FlagsOf(word)) == word && FlagsOf(WordOf(f)) == f
    ensures WordOf(NONE) == 0 && WordOf(ACCEPTING) == 2 && WordOf(COMMITTED) == 6 && WordOf(COMPLETED) == 14
  {
    hide FlagsOf;
    WordOfFlags(word);
    LowBits(f.rest, WordOf(f) - 32 * f.rest, WordOf(f));
    FlagsOfLow(WordOf(f), f.rest, WordOf(f) - 32 * f.rest);
    FlagsOfLow(WordOf(f) - 32 * f.rest, 0, WordOf(f) - 32 * f.rest);
    FlagsOfSmall(f.(rest := 0));
  }

  lemma WordOfFlags(word: nat)
    ensures WordOf(FlagsOf(word)) == word
  {
    hide FlagsOf;
    var q, r := word / 32, word % 32;
    FlagsOfLow(word, q, r);
    FlagsOfLow(r, 0, r);
    WordOfSmall(r);
  }

  /** The flags of a word are those of its low five bits, and the rest. */
  lemma FlagsOfLow(word: nat, q: nat, r: nat)
    requires word == 32 * q + r && r < 32
    ensures FlagsOf(word) == FlagsOf(r).(rest := q)
  {
    LowBits(q, r, word);
  }

  lemma LowBits(q: nat, r: nat, word: nat)
    requires word == 32 * q + r && r < 32
    ensures word % 4 == r % 4 && word / 4 % 2 == r / 4 % 2 && word / 8 % 2 == r / 8 % 2 && word / 16 % 2 == r / 16 % 2
    ensures word / 32 == q
  {
    Div4(q, r);
    Div8(q, r);
    Div16(q, r);
    Even(4 * q, r / 4);
    Even(2 * q, r / 8);
    Even(q, r / 16);
  }

  lemma Div4(q: nat, r: nat)
    ensures (32 * q + r) / 4 == 8 * q + r / 4 && (32 * q + r) % 4 == r % 4
  {
  }

  lemma Div8(q: nat, r: nat)
    ensures (32 * q + r) / 8 == 4 * q + r / 8
  {
  }

  lemma Div16(q: nat, r: nat)
    ensures (32 * q + r) / 16 == 2 * q + r / 16
  {
  }

  lemma Even(a: nat, b: nat)
    ensures (2 * a + b) % 2 == b % 2
  {
  }

  lemma WordOfSmall(r: nat)
    requires r < 32
    ensures WordOf(FlagsOf(r)) == r
  {
    assert r / 4 == 2 * (r / 8) + r / 4 % 2 && r / 8 == 2 * (r / 16) + r / 8 % 2;
  }

  lemma FlagsOfSmall(f: Flags)
    requires f.rest == 0
    ensures WordOf(f) < 32 && FlagsOf(WordOf(f)) == f
  {
    var ty := match f.ty case Invalid => 0 case PermitAccess => 1 case AcceptTransfer => 2 case Other => 3;
    var a := (if f.bit2 then 1 else 0) + (if f.bit3 then 2 else 0) + (if f.bit4 then 4 else 0);
    assert WordOf(f) == 4 * a + ty && WordOf(f) / 4 == a;
  }

  datatype Entry = Entry(flags: Flags, domid: nat, frame: nat)

  /** What the hypervisor is doing with an entry: mappings a foreign domain holds, or a page on its way. */
  datatype Use = Idle | Mapped(readers: nat, writers: nat) | Transferring

  /** An entry with what the hypervisor knows of it; `delivered` is the frame of the last completed transfer. */
  datatype Cell = Cell(entry: Entry, use: Use, delivered: nat)

  datatype Act = Map(write: bool) | Unmap(write: bool) | Commit | WriteFrame(frame: nat) | Complete

  datatype HvStep = HvStep(ref: nat, act: Act)

  function SetFlags(c: Cell, flags: Flags, use: Use): Cell { Cell(c.entry.(flags := flags), use, c.delivered) }

  /** One atomic step of the hypervisor; a step its rules do not allow changes nothing. */
  function Do(c: Cell, a: Act): Cell {
    var f := c.entry.flags;
    match a
    case Map(write) =>
      if f.ty != PermitAccess || (write && f.bit2) || c.use.Transferring? then c else
      var use := if c.use.Idle? then Mapped(0, 0) else c.use;
      if write then SetFlags(c, f.(bit3 := true, bit4 := true), use.(writers := use.writers + 1))
      else SetFlags(c, f.(bit3 := true), use.(readers := use.readers + 1))
    case Unmap(write) =>
      if !c.use.Mapped? || (if write then c.use.writers else c.use.readers) == 0 then c else
      var use := if write then c.use.(writers := c.use.writers - 1) else c.use.(readers := c.use.readers - 1);
      var g := if use.writers == 0 then f.(bit4 := false) else f;
      if use.readers == 0 && use.writers == 0 then SetFlags(c, g.(bit3 := false), Idle) else SetFlags(c, g, use)
    case Commit =>
      if f.ty != AcceptTransfer || f.bit2 || !c.use.Idle? then c else SetFlags(c, f.(bit2 := true), Transferring)
    case WriteFrame(frame) =>
      if !c.use.Transferring? then c else c.(entry := c.entry.(frame := frame))
    case Complete =>
      if !c.use.Transferring? then c else Cell(c.entry.(flags := f.(bit3 := true)), Idle, c.entry.frame)
  }

  /** An entry after a sequence of hypervisor steps on any entries. */
  function Acted(c: Cell, ref: nat, steps: seq<HvStep>): Cell decreases |steps| {
    if steps == [] then c
    else Acted(if steps[0].ref == ref then Do(c, steps[0].act) else c, ref, steps[1..])
  }

  lemma {:induction false} ActedAppend(c: Cell, ref: nat, a: seq<HvStep>, b: seq<HvStep>)
    ensures Acted(c, ref, a + b) == Acted(Acted(c, ref, a), ref, b)
    decreases |a|
  {
    hide Do;
    if a == [] {
      assert a + b == b;
    } else {
      assert (a + b)[1..] == a[1..] + b;
      ActedAppend(if a[0].ref == ref then Do(c, a[0].act) else c, ref, a[1..], b);
    }
  }

  /** The hypervisor steps of the first n rounds of a schedule. A round is what happens between two accesses of the
      guest; every finite prefix of a run of the two is a schedule. */
  function Rounds(sched: seq<seq<HvStep>>, n: nat): seq<HvStep> {
    if n == 0 then [] else Rounds(sched, n - 1) + if n <= |sched| then sched[n - 1] else []
  }

  /** What the guest has done with a reference. Taken: off the list, its entry not yet valid. */
  datatype Kind = Reserved | Free | Taken | Access | Transfer

  ghost predicate CellOk(c: Cell, k: Kind) {
    match k
    case Reserved => true
    case Free | Taken => c.use == Idle && c.entry.flags in {NONE, COMPLETED}
    case Access =>
      c.entry.flags.ty == PermitAccess &&
      match c.use {
        case Idle => true
        case Mapped(r, w) => r + w > 0 && c.entry.flags.bit3 && (w > 0 ==> c.entry.flags.bit4)
        case Transferring => false
      }
    case Transfer =>
      match c.use {
        case Idle => c.entry.flags == ACCEPTING || (c.entry.flags == COMPLETED && c.delivered == c.entry.frame)
        case Mapped(_, _) => false
        case Transferring => c.entry.flags == COMMITTED
      }
  }

  /** Entries the hypervisor leaves alone. */
  ghost predicate Settled(c: Cell, k: Kind) {
    k in {Free, Taken} || (k == Transfer && c.entry.flags.bit3)
  }

  /** A foreign domain has write access. */
  ghost predicate Written(c: Cell) { c.use.Mapped? && c.use.writers > 0 }

  /** A step of the hypervisor keeps what is known of every entry; it cannot touch one that is not granted, nor one
      whose transfer is complete; and foreign domains get write access only where it was granted. */
  lemma HypervisorKeeps(c: Cell, a: Act, k: Kind)
    requires CellOk(c, k) && k != Reserved
    ensures CellOk(Do(c, a), k)
    ensures Settled(c, k) ==> Do(c, a) == c
    ensures k == Transfer && c.entry.flags.bit2 ==> Do(c, a).entry.flags.bit2
    ensures k == Access && c.entry.flags.bit2 && !Written(c) ==> Do(c, a).entry.flags.bit2 && !Written(Do(c, a))
  {
  }

  /** The flags of an access grant say exactly which mappings foreign domains hold. */
  ghost predicate Shown(c: Cell) {
    && (c.use.Idle? ==> !c.entry.flags.bit3 && !c.entry.flags.bit4)
    && (c.use.Mapped? ==> c.use.readers + c.use.writers > 0 && c.entry.flags.bit3)
    && (c.use.Mapped? ==> (c.entry.flags.bit4 <==> c.use.writers > 0))
    && !c.use.Transferring?
  }

  /** Every step keeps that: a mapping counts one more reader or writer, and undoing it restores the entry. */
  lemma StepShows(c: Cell, a: Act)
    requires Shown(c) && c.entry.flags.ty == PermitAccess
    ensures Shown(Do(c, a)) && Do(c, a).entry.flags.ty == PermitAccess
    ensures a.Map? && !(a.write && c.entry.flags.bit2) ==> Do(Do(c, a), Unmap(a.write)) == c && Do(c, a) != c
  {
  }

  lemma {:induction false} RunShows(c: Cell, ref: nat, steps: seq<HvStep>)
    requires Shown(c) && c.entry.flags.ty == PermitAccess
    ensures Shown(Acted(c, ref, steps))
    decreases |steps|
  {
    hide Do, Shown;
    if steps != [] {
      StepShows(c, steps[0].act);
      RunShows(if steps[0].ref == ref then Do(c, steps[0].act) else c, ref, steps[1..]);
    }
  }

  /** Any run of hypervisor steps does the same. */
  lemma {:induction false} HypervisorRun(c: Cell, ref: nat, steps: seq<HvStep>, k: Kind)
    requires CellOk(c, k)
    ensures CellOk(Acted(c, ref, steps), k)
    ensures Settled(c, k) ==> Acted(c, ref, steps) == c
    ensures k == Transfer && c.entry.flags.bit2 ==> Acted(c, ref, steps).entry.flags.bit2
    ensures k == Access && c.entry.flags.bit2 && !Written(c) ==> !Written(Acted(c, ref, steps))
    decreases |steps|
  {
    hide Do, CellOk, Settled, Written;
    if steps != [] {
      var d := if steps[0].ref == ref then Do(c, steps[0].act) else c;
      if k == Reserved { ReservedOk(d); NeverSettled(c, k); } else { HypervisorKeeps(c, steps[0].act, k); }
      HypervisorRun(d, ref, steps[1..], k);
    }
  }

  lemma NeverSettled(c: Cell, k: Kind)
    requires k == Reserved
    ensures !Settled(c, k)
  {
  }

  lemma ReservedOk(c: Cell)
    ensures CellOk(c, Reserved)
  {
  }

  /** The chain of the list: from slot 0, each reference's slot holds the next, and 0 ends it. */
  ghost predicate Chain(list: seq<nat>, from: nat, free: seq<nat>) decreases |free| {
    from < |list| && (if free == [] then list[from] == 0 else list[from] == free[0] && Chain(list, free[0], free[1..]))
  }

  ghost predicate Distinct(s: seq<nat>) { forall i, j :: 0 <= i < j < |s| ==> s[i] != s[j] }

  /** The free list is a chain without repetition of exactly the references marked free: together with the references
      that are out they are all from RESERVED on, each once. */
  ghost predicate ListOk(list: seq<nat>, free: seq<nat>, kinds: seq<Kind>) {
    |list| == |kinds| == ENTRIES && Chain(list, 0, free) && Distinct(free) &&
    (forall r :: 0 <= r < ENTRIES ==> (r in free <==> kinds[r] == Free) && (kinds[r] == Reserved <==> r < RESERVED)) &&
    (forall r :: r in free ==> RESERVED <= r < ENTRIES)
  }

  /** Slots off the chain do not matter to it; `from` itself may be read at another place. */
  lemma {:induction false} ChainElsewhere(list: seq<nat>, list': seq<nat>, from: nat, from': nat, free: seq<nat>)
    requires Chain(list, from, free) && |list| == |list'| && from' < |list|
    requires list'[from'] == list[from] && forall r :: r in free && r < |list| ==> list'[r] == list[r]
    ensures Chain(list', from', free)
    decreases |free|
  {
    if free != [] { ChainElsewhere(list, list', free[0], free[0], free[1..]); }
  }

  /** Pushing a reference that is out keeps the list. */
  lemma PutKeeps(list: seq<nat>, free: seq<nat>, kinds: seq<Kind>, ref: nat)
    requires ListOk(list, free, kinds) && RESERVED <= ref < ENTRIES && kinds[ref] != Free
    ensures ListOk(list[ref := list[0]][0 := ref], [ref] + free, kinds[ref := Free])
  {
    var l := list[ref := list[0]][0 := ref];
    var f := [ref] + free;
    assert f[1..] == free;
    ChainElsewhere(list, l, 0, ref, free);
  }

  /** Popping gives the head; popping the empty list gives 0 and keeps it. */
  lemma GetKeeps(list: seq<nat>, free: seq<nat>, kinds: seq<Kind>)
    requires ListOk(list, free, kinds)
    ensures list[0] == if free == [] then 0 else free[0]
    ensures list[0] < |list|
    ensures free == [] ==> list[0 := list[list[0]]] == list
    ensures free != [] ==> ListOk(list[0 := list[list[0]]], free[1..], kinds[free[0] := Taken])
  {
    if free != [] {
      var first, rest := free[0], free[1..];
      assert first in free && forall r :: r in rest ==> r in free && r != first;
      ChainElsewhere(list, list[0 := list[first]], first, 0, rest);
    }
  }

  /** No run of the hypervisor touches, or has a use of, a reference on the free list: none is issued again while a
      foreign domain uses it. */
  lemma FreeIsUnused(list: seq<nat>, free: seq<nat>, kinds: seq<Kind>, cells: seq<Cell>, steps: seq<HvStep>, ref: nat)
    requires ListOk(list, free, kinds) && |cells| == ENTRIES && ref in free
    requires forall r :: 0 <= r < ENTRIES ==> CellOk(cells[r], kinds[r])
    ensures cells[ref].use == Idle && Acted(cells[ref], ref, steps) == cells[ref]
  {
    HypervisorRun(cells[ref], ref, steps, kinds[ref]);
  }

  /** Free references and outstanding ones account for every reference that is not reserved, each once. */
  lemma Partition(list: seq<nat>, free: seq<nat>, kinds: seq<Kind>, out: set<nat>)
    requires ListOk(list, free, kinds)
    requires out == set r: nat | RESERVED <= r < ENTRIES && kinds[r] != Free
    ensures |free| + |out| == ENTRIES - RESERVED
    ensures forall r :: RESERVED <= r < ENTRIES ==> (r in free) != (r in out)
  {
    hide Chain, Numbers;
    var frees := set r | r in free;
    DistinctSize(free, frees) by { assert Distinct(free); }
    var all := Numbers(RESERVED, ENTRIES - RESERVED);
    forall r ensures r in frees + out <==> r in all {}
    assert frees !! out && frees + out == all;
    assert |frees + out| == |frees| + |out|;
  }

  lemma {:induction false} DistinctSize(s: seq<nat>, t: set<nat>)
    requires Distinct(s) && t == set r | r in s
    ensures |t| == |s|
  {
    if s != [] {
      var rest := set r | r in s[1..];
      assert forall r :: r in s[1..] ==> r != s[0];
      assert t == rest + {s[0]};
      DistinctSize(s[1..], rest);
    }
  }

  /** A foreign domain holds a mapping of the frame, or its flags say so. */
  function InUse(c: Cell): bool { c.entry.flags.bit3 || c.entry.flags.bit4 }

  class GrantTable {
    const list: array<nat>
    const table: array<Cell>
    ghost var free: seq<nat>
    ghost var kinds: seq<Kind>

    ghost predicate Valid() reads this, list, table {
      list.Length == table.Length == |kinds| == ENTRIES && ListOk(list[..], free, kinds) &&
      forall r :: 0 <= r < ENTRIES ==> CellOk(table[r], kinds[r])
    }

    /** The free list as it is built by xenGrantInit over zeroed memory; nothing is granted. */
    constructor ()
      ensures Valid() && fresh(list) && fresh(table)
      ensures list.Length == 4096 && free == seq(4088, (i: nat) => 4095 - i)
      ensures forall r :: RESERVED <= r < ENTRIES ==> kinds[r] == Free
      ensures forall r :: 0 <= r < ENTRIES ==> table[r] == Cell(Entry(NONE, 0, 0), Idle, 0)
    {
      var l := new nat[ENTRIES](_ => 0);
      var t := new Cell[ENTRIES](_ => Cell(Entry(NONE, 0, 0), Idle, 0));
      list, table := l, t;
      free, kinds := [], seq(ENTRIES, (r: nat) => if r < RESERVED then Reserved else Taken);
      new;
      for i := RESERVED to ENTRIES
        invariant Valid() && fresh(list) && fresh(table)
        invariant free == seq(i - RESERVED, (k: nat) => i - 1 - k)
        invariant forall r :: RESERVED <= r < ENTRIES ==> kinds[r] == if r < i then Free else Taken
        invariant forall r :: 0 <= r < ENTRIES ==> table[r] == Cell(Entry(NONE, 0, 0), Idle, 0)
      {
        PutFree(i);
        assert free == seq(i + 1 - RESERVED, (k: nat) => i - k);
      }
    }

    /** _putFreeEntry, of an entry that is not in use. */
    method PutFree(ref: nat)
      requires Valid() && RESERVED <= ref < ENTRIES && kinds[ref] != Free && CellOk(table[ref], Free)
      modifies list, this
      ensures Valid() && free == [ref] + old(free) && kinds == old(kinds)[ref := Free]
    {
      hide CellOk;
      PutKeeps(list[..], free, kinds, ref);
      list[ref] := list[0];
      list[0] := ref;
      assert list[..] == old(list[..])[ref := old(list[0])][0 := ref];
      free, kinds := [ref] + free, kinds[ref := Free];
    }

    /** _getFreeEntry. It does not look whether the list is empty: it then returns the reserved reference 0. */
    method GetFree() returns (ref: nat)
      requires Valid()
      modifies list, this
      ensures Valid()
      ensures old(free) == [] ==> ref == 0 && free == [] && kinds == old(kinds)
      ensures ref < ENTRIES == |old(kinds)|
      ensures old(free) != [] ==> ref == old(free[0]) && free == old(free[1..]) && kinds == old(kinds)[ref := Taken]
      ensures old(free) != [] <==> ref >= RESERVED
    {
      hide CellOk;
      GetKeeps(list[..], free, kinds);
      ref := list[0];
      list[0] := list[ref];
      assert list[..] == old(list[..])[0 := old(list[list[0]])];
      if free != [] {
        assert free[0] in free;
        FreeIsTaken(table[ref]);
        free, kinds := free[1..], kinds[ref := Taken];
      }
    }

    /** One round of the hypervisor. */
    method Hypervisor(steps: seq<HvStep>)
      requires Valid()
      modifies table
      ensures Valid()
      ensures forall r :: 0 <= r < ENTRIES ==> table[r] == Acted(old(table[r]), r, steps)
    {
      hide Do, CellOk, ListOk;
      for i := 0 to |steps|
        invariant forall r :: 0 <= r < ENTRIES ==> Acted(table[r], r, steps[i..]) == Acted(old(table[r]), r, steps)
      {
        var s := steps[i];
        assert steps[i..][1..] == steps[i + 1..];
        if s.ref < ENTRIES { table[s.ref] := Do(table[s.ref], s.act); }
      }
      forall r | 0 <= r < ENTRIES ensures CellOk(table[r], kinds[r]) {
        HypervisorRun(old(table[r]), r, steps, kinds[r]);
      }
    }

    /** The n-th round of a schedule, if it has one. */
    method Between(sched: seq<seq<HvStep>>, n: nat, ghost start: seq<Cell>)
      requires Valid() && |start| == ENTRIES
      modifies table
      ensures Valid()
      ensures forall r :: 0 <= r < ENTRIES && old(table[r]) == Acted(start[r], r, Rounds(sched, n)) ==>
                table[r] == Acted(start[r], r, Rounds(sched, n + 1))
      ensures forall r :: 0 <= r < ENTRIES && Settled(old(table[r]), kinds[r]) ==> table[r] == old(table[r])
      ensures forall r :: 0 <= r < ENTRIES && kinds[r] == Transfer && old(table[r]).entry.flags.bit2 ==>
                table[r].entry.flags.bit2
      ensures n >= |sched| ==> table[..] == old(table[..])
    {
      hide Do, CellOk, ListOk, Settled;
      var steps := if n < |sched| then sched[n] else [];
      Hypervisor(steps);
      forall r | 0 <= r < ENTRIES
        ensures Acted(start[r], r, Rounds(sched, n + 1)) == Acted(Acted(start[r], r, Rounds(sched, n)), r, steps)
        ensures Settled(old(table[r]), kinds[r]) ==> table[r] == old(table[r])
        ensures kinds[r] == Transfer && old(table[r]).entry.flags.bit2 ==> table[r].entry.flags.bit2
      {
        ActedAppend(start[r], r, Rounds(sched, n), steps);
        HypervisorRun(old(table[r]), r, steps, kinds[r]);
      }
    }

    /** The part xenGrantAccess and xenGrantTransfer have in common: an entry is taken, its frame and domain are
        written while its flags still make it invalid, and then its flags. With a free entry the reference is the head
        of the list and its entry says what was asked; the others change only by the hypervisor's steps. Without one,
        reserved entry 0 is overwritten. */
    method Grant(domid: nat, frame: nat, flags: Flags, ghost kind: Kind, sched: seq<seq<HvStep>>) returns (ref: nat)
      requires Valid() && (kind == Access || kind == Transfer)
      requires forall f, d :: CellOk(Cell(Entry(flags, domid, f), Idle, d), kind)
      modifies list, table, this
      ensures Valid() && ref < ENTRIES == |old(kinds)|
      ensures ref == if old(free) == [] then 0 else old(free[0])
      ensures free == if old(free) == [] then [] else old(free[1..])
      ensures kinds == if old(free) == [] then old(kinds) else old(kinds)[ref := kind]
      ensures old(free) != [] ==> ref >= RESERVED
      ensures old(free) != [] ==> table[ref] == Cell(Entry(flags, domid, frame), Idle, old(table[ref].delivered))
      ensures old(free) == [] ==> table[ref].entry.flags == flags
      ensures forall r :: 0 <= r < ENTRIES && r != ref ==> table[r] == Acted(old(table[r]), r, Rounds(sched, 3))
    {
      hide Do, CellOk, ListOk, Settled, Acted, Rounds;
      ghost var start := table[..];
      NoRounds(start, sched);
      ref := GetFree();
      ghost var k := kinds[ref];
      KindIs(kinds, free, list[..], ref);
      TakenOk(table[ref], k);
      Between(sched, 0, start);
      SameFlagsOk(table[ref], k);
      table[ref] := table[ref].(entry := table[ref].entry.(frame := frame));
      TakenOk(table[ref], k);
      Between(sched, 1, start);
      SameFlagsOk(table[ref], k);
      table[ref] := table[ref].(entry := table[ref].entry.(domid := domid));
      TakenOk(table[ref], k);
      Between(sched, 2, start);
      TakenOk(table[ref], k);
      table[ref] := table[ref].(entry := table[ref].entry.(flags := flags));
      ReservedOk(table[ref]);
      if ref >= RESERVED {
        KindChanges(list[..], free, kinds, ref, kind);
        kinds := kinds[ref := kind];
      }
    }

    method GrantAccess(domid: nat, frame: nat, readonly: int, sched: seq<seq<HvStep>>) returns (ref: nat)
      requires Valid()
      modifies list, table, this
      ensures Valid() && ref < ENTRIES == |old(kinds)|
      ensures ref == if old(free) == [] then 0 else old(free[0])
      ensures free == if old(free) == [] then [] else old(free[1..])
      ensures kinds == if old(free) == [] then old(kinds) else old(kinds)[ref := Access]
      ensures old(free) != [] ==>
                table[ref] == Cell(Entry(AccessFlags(readonly), domid, frame), Idle, old(table[ref].delivered))
      ensures old(free) == [] ==> table[ref].entry.flags == AccessFlags(readonly)
      ensures WordOf(table[ref].entry.flags) == (1 + 4 * readonly) % 0x1_0000
      ensures old(free) != [] && 0 <= readonly <= 1 ==> Shown(table[ref])
      ensures forall r :: 0 <= r < ENTRIES && r != ref ==> table[r] == Acted(old(table[r]), r, Rounds(sched, 3))
    {
      AccessFlagsAre(readonly);
      FlagsAreBits((1 + 4 * readonly) % 0x1_0000, NONE);
      AccessFlagsExactly();
      ref := Grant(domid, frame, AccessFlags(readonly), Access, sched);
    }

    method GrantTransfer(domid: nat, pfn: nat, sched: seq<seq<HvStep>>) returns (ref: nat)
      requires Valid()
      modifies list, table, this
      ensures Valid() && ref < ENTRIES == |old(kinds)|
      ensures ref == if old(free) == [] then 0 else old(free[0])
      ensures free == if old(free) == [] then [] else old(free[1..])
      ensures kinds == if old(free) == [] then old(kinds) else old(kinds)[ref := Transfer]
      ensures old(free) != [] ==> table[ref] == Cell(Entry(ACCEPTING, domid, pfn), Idle, old(table[ref].delivered))
      ensures old(free) == [] ==> table[ref].entry.flags == ACCEPTING
      ensures WordOf(table[ref].entry.flags) == 2
      ensures forall r :: 0 <= r < ENTRIES && r != ref ==> table[r] == Acted(old(table[r]), r, Rounds(sched, 3))
    {
      ref := Grant(domid, pfn, ACCEPTING, Transfer, sched);
    }

    /** xenGrantEndAccess of an access grant. The call takes effect at one moment, after `at` rounds: then the flags are
        looked at, and either they say the entry is in use and nothing changes, or they are set to zero in the same step
        and the reference goes to the head of the free list. */
    method EndAccess(ref: nat, sched: seq<seq<HvStep>>) returns (ok: bool, ghost at: nat)
      requires Valid() && ref < ENTRIES && kinds[ref] == Access
      modifies list, table, this
      ensures Valid() && at <= |sched|
      ensures ok <==> !InUse(Acted(old(table[ref]), ref, Rounds(sched, at)))
      ensures old(Shown(table[ref])) ==> (ok <==> Acted(old(table[ref]), ref, Rounds(sched, at)).use == Idle)
      ensures forall r :: 0 <= r < ENTRIES && r != ref ==> table[r] == Acted(old(table[r]), r, Rounds(sched, at))
      ensures ok ==> table[ref] == Acted(old(table[ref]), ref, Rounds(sched, at)).(entry := table[ref].entry)
      ensures ok ==> table[ref].entry == Acted(old(table[ref]), ref, Rounds(sched, at)).entry.(flags := NONE)
      ensures ok ==> table[ref].use == Idle
      ensures !ok ==> table[ref] == Acted(old(table[ref]), ref, Rounds(sched, at))
      ensures ok ==> free == [ref] + old(free) && kinds == old(kinds)[ref := Free]
      ensures !ok ==> free == old(free) && kinds == old(kinds) && list[..] == old(list[..])
    {
      hide Do, CellOk, ListOk, Settled, Acted, Rounds, Shown;
      ghost var start := table[..];
      KindIs(kinds, free, list[..], ref);
      NoRounds(start, sched);
      if Shown(start[ref]) { ShownIsUse(start[ref], ref, sched); }
      var nflags := table[ref].entry.flags;
      at := 0;
      var k := 0;
      while true
        invariant k == at <= |sched| && kinds == old(kinds) && Valid() && nflags == table[ref].entry.flags
        invariant forall r :: 0 <= r < ENTRIES ==> table[r] == Acted(start[r], r, Rounds(sched, k))
        decreases |sched| - k
        modifies table, this`kinds
      {
        var flags := nflags;
        if flags.bit3 || flags.bit4 { return false, at; }
        Between(sched, k, start);
        if k < |sched| { k := k + 1; at := k; }
        nflags := table[ref].entry.flags;
        if nflags == flags {
          IdleUnlessInUse(table[ref]);
          table[ref] := table[ref].(entry := table[ref].entry.(flags := NONE));
          ClearedOk(table[ref]);
          KindChanges(list[..], free, kinds, ref, Taken);
          kinds := kinds[ref := Taken];
          break;
        }
      }
      PutFree(ref);
      ok := true;
    }

    /** xenGrantEndTransfer of a transfer grant. Either no domain had committed to the transfer at the moment the
        flags were set to zero, and 0 is returned; or the transfer was complete when the frame was read, and the
        frame the hypervisor delivered is returned. The call waits while a transfer is under way: `done` is false
        when the schedule ends before it is complete, and the reference is then still out. */
    method EndTransfer(ref: nat, sched: seq<seq<HvStep>>) returns (done: bool, frame: nat, ghost at: nat)
      requires Valid() && ref < ENTRIES && kinds[ref] == Transfer
      modifies list, table, this
      ensures Valid() && at <= |sched|
      ensures forall r :: 0 <= r < ENTRIES && r != ref ==> table[r] == Acted(old(table[r]), r, Rounds(sched, at))
      ensures done ==> free == [ref] + old(free) && kinds == old(kinds)[ref := Free] && table[ref].use == Idle
      ensures !done ==> free == old(free) && kinds == old(kinds) && list[..] == old(list[..])
      ensures !done ==> at == |sched| && table[ref] == Acted(old(table[ref]), ref, Rounds(sched, at))
      ensures !done ==> table[ref].use == Transferring
      ensures done ==> Ended(Acted(old(table[ref]), ref, Rounds(sched, at)), table[ref], frame)
    {
      hide Do, CellOk, ListOk, Settled, Acted, Rounds;
      ghost var start := table[..];
      KindIs(kinds, free, list[..], ref);
      NoRounds(start, sched);
      at := 0;
      var k := 0;
      var flags := table[ref].entry.flags;
      while !flags.bit2
        invariant k == at <= |sched| && kinds == old(kinds) && Valid() && flags == table[ref].entry.flags
        invariant forall r :: 0 <= r < ENTRIES ==> table[r] == Acted(start[r], r, Rounds(sched, k))
        decreases |sched| - k
        modifies list, table, this
        invariant free == old(free) && list[..] == old(list[..])
      {
        Between(sched, k, start);
        if k < |sched| { k := k + 1; at := k; }
        if table[ref].entry.flags == flags {
          UncommittedIsIdle(table[ref]);
          table[ref] := table[ref].(entry := table[ref].entry.(flags := NONE));
          ClearedOk(table[ref]);
          KindChanges(list[..], free, kinds, ref, Taken);
          kinds := kinds[ref := Taken];
          PutFree(ref);
          return true, 0, at;
        }
        flags := table[ref].entry.flags;
      }
      while !flags.bit3
        invariant k == at <= |sched| && kinds == old(kinds) && Valid() && flags == table[ref].entry.flags && flags.bit2
        invariant forall r :: 0 <= r < ENTRIES ==> table[r] == Acted(start[r], r, Rounds(sched, k))
        decreases |sched| - k
        modifies table
      {
        TransferringUntilCompleted(table[ref]);
        if k == |sched| { return false, 0, at; }
        Between(sched, k, start);
        k := k + 1;
        at := k;
        flags := table[ref].entry.flags;
      }
      TransferringUntilCompleted(table[ref]);
      Between(sched, k, start);
      if k < |sched| { k := k + 1; at := k; }
      frame := table[ref].entry.frame;
      PutFree(ref);
      done := true;
    }
  }

  /** A page is granted and access is ended. If the hypervisor takes no step on the reference in between, the end is
      granted at once, and the free list is what it was. */
  method AccessRun(g: GrantTable, domid: nat, frame: nat, readonly: bool, sched: seq<seq<HvStep>>,
                   quiet: seq<seq<HvStep>>)
    returns (ok: bool)
    requires g.Valid() && g.free != []
    requires forall steps :: steps in quiet ==> forall s :: s in steps ==> s.ref != g.free[0]
    modifies g, g.list, g.table
    ensures ok && g.free == old(g.free)
  {
    hide Acted, Rounds, Do, CellOk, ListOk, FlagsOf;
    var ref := g.GrantAccess(domid, frame, if readonly then 1 else 0, sched);
    AccessFlagsExactly();
    ghost var c, at := g.table[ref], 0;
    ok, at := g.EndAccess(ref, quiet);
    QuietRounds(c, ref, quiet, at);
  }

  lemma AccessFlagsExactly()
    ensures AccessFlags(0) == Flags(PermitAccess, false, false, false, 0)
    ensures AccessFlags(1) == Flags(PermitAccess, true, false, false, 0)
  {
  }

  lemma {:induction false} QuietRounds(c: Cell, ref: nat, sched: seq<seq<HvStep>>, n: nat)
    requires forall steps :: steps in sched ==> forall s :: s in steps ==> s.ref != ref
    ensures Acted(c, ref, Rounds(sched, n)) == c
  {
    if n > 0 {
      var round := if n <= |sched| then sched[n - 1] else [];
      QuietRounds(c, ref, sched, n - 1);
      ActedAppend(c, ref, Rounds(sched, n - 1), round);
      assert n <= |sched| ==> round in sched;
      QuietSteps(c, ref, round);
    }
  }

  lemma {:induction false} QuietSteps(c: Cell, ref: nat, steps: seq<HvStep>)
    requires forall s :: s in steps ==> s.ref != ref
    ensures Acted(c, ref, steps) == c
    decreases |steps|
  {
    if steps != [] { QuietSteps(c, ref, steps[1..]); }
  }

  /** What a transfer that ended gives, from the entry at that moment. */
  ghost predicate Ended(c: Cell, c': Cell, frame: nat) {
    if c.entry.flags.bit2 then c' == c && c.entry.flags == COMPLETED && frame == c.delivered
    else c' == SetFlags(c, NONE, Idle) && frame == 0
  }

  /** An entry that shows its use is in use iff a mapping is held. */
  lemma ShownIsUse(c: Cell, ref: nat, sched: seq<seq<HvStep>>)
    requires Shown(c) && CellOk(c, Access)
    ensures forall n: nat :: InUse(Acted(c, ref, Rounds(sched, n))) <==> Acted(c, ref, Rounds(sched, n)).use != Idle
  {
    hide Do;
    forall n: nat
      ensures InUse(Acted(c, ref, Rounds(sched, n))) <==> Acted(c, ref, Rounds(sched, n)).use != Idle
    {
      RunShows(c, ref, Rounds(sched, n));
    }
  }

  lemma TransferringUntilCompleted(c: Cell)
    requires CellOk(c, Transfer) && c.entry.flags.bit2
    ensures !c.entry.flags.bit3 ==> c.use == Transferring
    ensures c.entry.flags.bit3 ==> Settled(c, Transfer) && c.entry.flags == COMPLETED && c.delivered == c.entry.frame
    ensures c.entry.flags.bit3 ==> c.use == Idle
    ensures c.entry.flags.bit3 ==> CellOk(c, Free)
  {
  }

  lemma UncommittedIsIdle(c: Cell)
    requires CellOk(c, Transfer) && !c.entry.flags.bit2
    ensures c.use == Idle
  {
  }

  /** The flags of an access grant: the source multiplies its argument by GTF_readonly. */
  function AccessFlags(readonly: int): Flags { FlagsOf((1 + 4 * readonly) % 0x1_0000) }

  lemma AccessFlagsAre(readonly: int)
    ensures AccessFlags(readonly).ty == PermitAccess
    ensures AccessFlags(readonly).bit2 <==> readonly % 2 == 1
  {
    hide FlagsOf;
    var n := 1 + 4 * readonly;
    var word, wraps := n % 0x1_0000, n / 0x1_0000;
    var q := readonly - 2 * (8192 * wraps);
    assert n == 0x1_0000 * wraps + word;
    assert word == 4 * q + 1;
    SameParity(readonly, q, 8192 * wraps);
    FlagsOfPermit(word, q);
  }

  lemma SameParity(a: int, b: int, c: int)
    requires b == a - 2 * c
    ensures a % 2 == b % 2
  {
  }

  lemma FlagsOfPermit(word: nat, q: nat)
    requires word == 4 * q + 1
    ensures FlagsOf(word).ty == PermitAccess
    ensures FlagsOf(word).bit2 <==> q % 2 == 1
  {
    assert word % 4 == 1 && word / 4 == q;
  }

  /** No run of the hypervisor gives a foreign domain write access iff the argument is odd. */
  lemma ReadOnlyIffOdd(c: Cell, ref: nat, readonly: int)
    requires c.use == Idle && c.entry.flags == AccessFlags(readonly)
    ensures (forall steps :: !Written(Acted(c, ref, steps))) <==> readonly % 2 == 1
  {
    AccessFlagsAre(readonly);
    if readonly % 2 == 1 {
      forall steps ensures !Written(Acted(c, ref, steps)) { HypervisorRun(c, ref, steps, Access); }
    } else {
      var steps := [HvStep(ref, Map(true))];
      var d := Do(c, Map(true));
      assert steps[1..] == [] && Acted(d, ref, []) == d;
      assert Written(d);
      assert Acted(c, ref, steps) == d;
      assert Written(Acted(c, ref, steps));
    }
  }

  lemma NoRounds(cells: seq<Cell>, sched: seq<seq<HvStep>>)
    ensures forall r {:trigger cells[r]} :: 0 <= r < |cells| ==> Acted(cells[r], r, Rounds(sched, 0)) == cells[r]
  {
  }

  lemma KindIs(kinds: seq<Kind>, free: seq<nat>, list: seq<nat>, ref: nat)
    requires ListOk(list, free, kinds) && ref < ENTRIES
    ensures kinds[ref] == Reserved <==> ref < RESERVED
  {
  }

  lemma KindChanges(list: seq<nat>, free: seq<nat>, kinds: seq<Kind>, ref: nat, k: Kind)
    requires ListOk(list, free, kinds) && RESERVED <= ref < ENTRIES && kinds[ref] != Free
    requires k in {Taken, Access, Transfer}
    ensures ListOk(list, free, kinds[ref := k])
  {
  }

  lemma TakenOk(c: Cell, k: Kind)
    requires CellOk(c, k) && k in {Taken, Reserved}
    ensures k == Taken ==> Settled(c, k) && c.use == Idle
  {
  }

  lemma SameFlagsOk(c: Cell, k: Kind)
    requires CellOk(c, k) && k in {Taken, Reserved}
    ensures forall f :: CellOk(c.(entry := c.entry.(frame := f)), k)
    ensures forall d :: CellOk(c.(entry := c.entry.(domid := d)), k)
  {
  }

  lemma IdleUnlessInUse(c: Cell)
    requires CellOk(c, Access) && !InUse(c)
    ensures c.use == Idle
  {
  }

  lemma ClearedOk(c: Cell)
    requires c.use == Idle && c.entry.flags == NONE
    ensures CellOk(c, Free) && CellOk(c, Taken)
  {
  }

  lemma FreeIsTaken(c: Cell)
    requires CellOk(c, Free)
    ensures CellOk(c, Taken)
  {
  }
}
