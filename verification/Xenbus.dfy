/** Replies and watch events of XenStore, as xen/xenbus.c routes them: the event handler takes whole messages from the
    reply ring and gives each reply to the record whose handle the request carried.

    The daemon's bytes arrive in chunks of any size: a schedule says how many at each point where the guest looks at the
    ring, as far as there are some and the ring has room. */
module Xenbus {
  import opened Arith
  import opened Ring
  import opened XenStore
  import opened XenbusRequest
  import HT = HandleTable

  datatype Record = Pending | Received(reply: seq<byte>)

  /** A message is a reply for the record. */
  ghost predicate IsFor(m: Msg, live: map<nat, nat>, ref: nat) {
    !IsWatch(m) && m.req in live && live[m.req] == ref
  }

  /** The records after some messages: each reply is in the record of the handle it carries, whole. */
  ghost function Delivered(records: map<nat, Record>, live: map<nat, nat>, ms: seq<Msg>): map<nat, Record>
    requires AllOk(ms)
  {
    if ms == [] then records
    else
      Put(Delivered(records, live, ms[..|ms| - 1]), live, ms[|ms| - 1])
  }

  ghost function Put(records: map<nat, Record>, live: map<nat, nat>, m: Msg): map<nat, Record> requires MsgOk(m) {
    if !IsWatch(m) && m.req in live then records[live[m.req] := Received(Frame(m))] else records
  }

  /** A record no reply is for is left alone, by watch events too. */
  lemma {:induction false} OthersUntouched(records: map<nat, Record>, live: map<nat, nat>, ms: seq<Msg>, ref: nat)
    requires AllOk(ms) && forall m :: m in ms ==> !IsFor(m, live, ref)
    ensures ref in Delivered(records, live, ms) <==> ref in records
    ensures ref in records ==> Delivered(records, live, ms)[ref] == records[ref]
    decreases |ms|
  {
    if ms != [] {
      assert !IsFor(ms[|ms| - 1], live, ref);
      OthersUntouched(records, live, ms[..|ms| - 1], ref);
    }
  }

  /** A record holds the last reply that was for it. */
  lemma {:induction false} LastReply(records: map<nat, Record>, live: map<nat, nat>, ms: seq<Msg>, ref: nat, i: nat)
    requires AllOk(ms) && i < |ms| && IsFor(ms[i], live, ref)
    requires forall j :: i < j < |ms| ==> !IsFor(ms[j], live, ref)
    ensures ref in Delivered(records, live, ms) && Delivered(records, live, ms)[ref] == Received(Frame(ms[i]))
    decreases |ms|
  {
    if i < |ms| - 1 {
      assert !IsFor(ms[|ms| - 1], live, ref);
      LastReply(records, live, ms[..|ms| - 1], ref, i);
    }
  }

  /** A record that is no longer pending has a reply, and its handle was in it. */
  lemma {:induction false} SomeReply(records: map<nat, Record>, live: map<nat, nat>, ms: seq<Msg>, ref: nat)
    requires AllOk(ms) && ref in records
    requires ref in Delivered(records, live, ms) && Delivered(records, live, ms)[ref] != records[ref]
    ensures exists m :: m in ms && IsFor(m, live, ref) && Delivered(records, live, ms)[ref] == Received(Frame(m))
    decreases |ms|
  {
    if ms != [] {
      var m := ms[|ms| - 1];
      if IsFor(m, live, ref) {
        assert m in ms;
      } else {
        DeliveredIn(records, live, ms[..|ms| - 1], ref);
        SomeReply(records, live, ms[..|ms| - 1], ref);
      }
    }
  }

  lemma DeliveredIn(records: map<nat, Record>, live: map<nat, nat>, ms: seq<Msg>, ref: nat)
    requires AllOk(ms) && ref in records
    ensures ref in Delivered(records, live, ms)
    decreases |ms|
  {
    if ms != [] { DeliveredIn(records, live, ms[..|ms| - 1], ref); }
  }

  lemma {:induction false} DeliveredAppend(records: map<nat, Record>, live: map<nat, nat>, a: seq<Msg>, b: seq<Msg>)
    requires AllOk(a) && AllOk(b)
    ensures AllOk(a + b) && Delivered(records, live, a + b) == Delivered(Delivered(records, live, a), live, b)
    decreases |b|
  {
    if b == [] {
      assert a + b == a;
    } else {
      var n := |b| - 1;
      assert (a + b)[..|a + b| - 1] == a + b[..n];
      DeliveredAppend(records, live, a, b[..n]);
      assert AllOk(a + b);
    }
  }

  /** How many of the messages are replies, for each of which memory is asked. */
  ghost function Replies(ms: seq<Msg>): nat {
    if ms == [] then 0 else Replies(ms[..|ms| - 1]) + if IsWatch(ms[|ms| - 1]) then 0 else 1
  }

  lemma RepliesOne(ms: seq<Msg>, m: Msg)
    ensures Replies(ms + [m]) == Replies(ms) + if IsWatch(m) then 0 else 1
  {
    assert (ms + [m])[..|ms + [m]| - 1] == ms;
  }

  /** What the messages `ms` have done: each reply is in its record, for which memory was granted, and a watch event has
      been signalled if there was one. */
  ghost predicate Done(live: map<nat, nat>, records0: map<nat, Record>, signalled0: bool, memory0: nat, ms: seq<Msg>,
                       records: map<nat, Record>, signalled: bool, memory: nat)
  {
    && AllOk(ms) && records == Delivered(records0, live, ms)
    && (signalled <==> signalled0 || exists m :: m in ms && IsWatch(m))
    && (forall m :: m in ms && !IsWatch(m) ==> m.req in live)
    && memory + Replies(ms) == memory0
  }

  lemma DoneNone(live: map<nat, nat>, records: map<nat, Record>, signalled: bool, memory: nat)
    ensures Done(live, records, signalled, memory, [], records, signalled, memory)
  {
  }

  lemma DoneOne(live: map<nat, nat>, records0: map<nat, Record>, signalled0: bool, memory0: nat, ms: seq<Msg>,
                records: map<nat, Record>, signalled: bool, memory: nat, m: Msg, signalled': bool, memory': nat)
    requires Done(live, records0, signalled0, memory0, ms, records, signalled, memory) && MsgOk(m)
    requires !IsWatch(m) ==> m.req in live
    requires signalled' <==> signalled || IsWatch(m)
    requires memory == memory' + if IsWatch(m) then 0 else 1
    ensures Done(live, records0, signalled0, memory0, ms + [m], Put(records, live, m), signalled', memory')
  {
    hide Put;
    DeliveredOne(records0, live, ms, m);
    RepliesOne(ms, m);
  }

  lemma DoneIs(live: map<nat, nat>, records0: map<nat, Record>, signalled0: bool, memory0: nat, ms: seq<Msg>,
               records: map<nat, Record>, signalled: bool, memory: nat)
    requires Done(live, records0, signalled0, memory0, ms, records, signalled, memory)
    ensures AllOk(ms) && records == Delivered(records0, live, ms)
    ensures signalled <==> signalled0 || exists m :: m in ms && IsWatch(m)
    ensures forall m :: m in ms && !IsWatch(m) ==> m.req in live
    ensures memory + Replies(ms) == memory0
  {
  }

  /** Whatever the chunks, the messages handled are the first of those sent, and all of them once all bytes are here. */
  lemma HandledAreSent(handled: seq<Msg>, ring: seq<byte>, unsent: seq<byte>, sent: seq<Msg>)
    requires AllOk(handled) && AllOk(sent) && Frames(handled) + ring + unsent == Frames(sent)
    ensures handled <= sent
    ensures unsent == [] && !Complete(ring) ==> handled == sent && ring == []
  {
    Regroup(Frames(handled), ring, unsent);
    FramesPrefix(handled, ring + unsent, sent);
    if unsent == [] && !Complete(ring) {
      assert !Complete([]);
      ParseFrames(handled, ring);
      ParseFrames(sent, []);
      assert Frames(sent) + [] == Frames(sent);
      assert Frames(handled) + ring + [] == Frames(handled) + ring;
    }
  }

  // -------------------------------------------------------------------------------- requests and their replies

  /** Stopped: a bug check stopped the kernel. StillWaiting: the schedules ended first. */
  datatype Outcome = Replied | Stopped | StillWaiting

  /** The low 32 bits of a handle, which is what a request carries. */
  function Short(id: nat): (s: nat) ensures s < W32 { Word(id, W32) }

  /** The bytes are a reply with the handle. */
  ghost predicate IsReply(m: Msg, id: nat, reply: seq<byte>) {
    !IsWatch(m) && m.req == id && MsgOk(m) && reply == Frame(m)
  }

  lemma InTail(a: seq<Msg>, first: seq<Msg>, news: seq<Msg>)
    requires a <= first
    ensures forall m :: m in news ==> m in (first + news)[|a|..]
  {
    assert (first + news)[|a|..] == first[|a|..] + news;
  }

  /** The handle is where the request's was. */
  lemma ReplyCarries(m: Msg, id: nat, reply: seq<byte>)
    requires IsReply(m, id, reply)
    ensures id < W32 && |reply| >= HEADER && Word4(reply[4..8]) == id
  {
    FrameIsFirst(m, []);
    assert reply + [] == reply;
  }

  lemma ShortIs(id: nat)
    ensures Short(id) == id <==> id < W32
  {
  }

  class ReplyRing {
    const rsp: array<byte>
    const table: HT.HandleTable
    var rspCons: nat
    var rspProd: nat
    var records: map<nat, Record>
    var signalled: bool
    /** The daemon: what it has yet to send, and how much of it at each turn. */
    var unsent: seq<byte>
    var schedule: seq<nat>
    /** How many requests for memory will be granted before one is refused: the kernel stops at the first refusal. */
    var memory: nat
    ghost var cons: nat
    ghost var prod: nat
    ghost var handled: seq<Msg>

    constructor (ring: array<byte>, handles: HT.HandleTable, bytes: seq<byte>, turns: seq<nat>, grants: nat)
      requires ring.Length == RING
      ensures Valid() && rsp == ring && table == handles && Said() == bytes && schedule == turns
      ensures records == map[] && !signalled && handled == [] && memory == grants
    {
      rsp, table, rspCons, rspProd, records, signalled := ring, handles, 0, 0, map[], false;
      memory := grants;
      unsent, schedule, cons, prod, handled := bytes, turns, 0, 0, [];
    }

    ghost predicate Valid() reads this {
      rsp.Length == RING && cons <= prod <= cons + RING && rspCons == Word(cons, W32) && rspProd == Word(prod, W32) &&
      AllOk(handled)
    }

    ghost function InRing(): (s: seq<byte>) reads this, rsp requires Valid() ensures |s| == prod - cons {
      Window(rsp[..], cons, prod - cons)
    }

    /** All the daemon has to say, from the first message on. */
    ghost function Said(): seq<byte> reads this, rsp requires Valid() { Frames(handled) + InRing() + unsent }

    /** The daemon's next turn. It never writes over bytes that are not yet read. */
    method Daemon()
      requires Valid()
      modifies rsp, this`rspProd, this`prod, this`unsent, this`schedule
      ensures Valid() && Said() == old(Said()) && old(InRing()) <= InRing()
      ensures prod + |unsent| == old(prod + |unsent|)
      ensures schedule == if old(schedule) == [] then [] else old(schedule[1..])
    {
      hide Word, At, Add, Sub, Frames, Window;
      if schedule != [] {
        SubWord(prod, cons, W32);
        var n := Least(schedule[0], Least(|unsent|, RING - Sub(rspProd, rspCons, W32)));
        ghost var start := InRing();
        for i := 0 to n
          modifies rsp
          invariant Window(rsp[..], cons, prod - cons + i) == start + unsent[..i]
        {
          WindowPut(rsp[..], cons, prod - cons + i, unsent[i]);
          WordAt(prod + i, W32 / RING, RING);
          AddWord(prod, i, W32);
          ghost var was := rsp[..];
          rsp[At(Add(rspProd, i, W32), RING)] := unsent[i];
          assert rsp[..] == was[At(prod + i, RING) := unsent[i]];
          assert unsent[..i + 1] == unsent[..i] + [unsent[i]];
          Regroup(start, unsent[..i], [unsent[i]]);
        }
        assert unsent == unsent[..n] + unsent[n..];
        AddWord(prod, n, W32);
        rspProd := Add(rspProd, n, W32);
        prod := prod + n;
        assert InRing() == start + unsent[..n];
        Regroup(Frames(handled), start, unsent[..n]);
        Regroup(Frames(handled) + start, unsent[..n], unsent[n..]);
        unsent := unsent[n..];
        schedule := schedule[1..];
      }
    }

    /** The message at the front of the ring leaves it. */
    method Advance(n: nat)
      requires Valid() && Complete(InRing()) && n == HEADER + LenOf(InRing())
      modifies this`rspCons, this`cons, this`handled
      ensures Valid() && Said() == old(Said()) && handled == old(handled) + [old(FirstMsg(InRing()))]
      ensures InRing() == old(InRing()[n..]) && cons == old(cons) + n
    {
      hide Word, At, Add, Frames, FirstMsg, Frame, Complete, Window;
      ghost var s := InRing();
      FrontOfRing(s, n);
      FirstIsFrame(s);
      ghost var m := FirstMsg(s);
      WindowSplit(rsp[..], cons, n, prod - cons - n);
      FramesAppend(handled, [m]);
      OneFrame(m);
      AddWord(cons, n, W32);
      rspCons := Add(rspCons, n, W32);
      cons := cons + n;
      Regroup(Frames(handled), Frame(m), InRing());
      handled := handled + [m];
      assert s[..n] + s[n..] == s;
    }

    /** xenbus_event. Whole messages are taken as long as there is one, in order; what is incomplete stays. The kernel
        stops at a reply for which there is no live handle, or no memory. */
    method Event() returns (halted: bool, ghost news: seq<Msg>)
      requires Valid() && table.Valid()
      modifies rsp, this`rspProd, this`prod, this`unsent, this`schedule, this`rspCons, this`cons, this`handled,
               this`records, this`signalled, this`memory
      ensures Valid() && Said() == old(Said()) && AllOk(news) && handled == old(handled) + news
      ensures records == Delivered(old(records), table.Live(), news)
      ensures signalled <==> old(signalled) || exists m :: m in news && IsWatch(m)
      ensures forall m :: m in news && !IsWatch(m) ==> m.req in table.Live()
      ensures memory == old(memory) - Replies(news)
      ensures halted ==> StopsAt()
      ensures !halted ==> !Complete(InRing())
      ensures |schedule| <= |old(schedule)| && (old(schedule) != [] ==> |schedule| < |old(schedule)|)
    {
      hide Word, At, Add, Sub, Frames, FirstMsg, Window, Frame, Put, Delivered, Word4, MsgOk, HT.SlotsOk, HT.Contents,
           HT.IsPowerOfTwo, Done, AllOk, Replies;
      news := [];
      ghost var live := table.Live();
      DoneNone(live, records, signalled, memory);
      assert handled + [] == handled;
      while true
        invariant Valid() && Said() == old(Said()) && handled == old(handled) + news
        invariant Done(live, old(records), old(signalled), old(memory), news, records, signalled, memory)
        invariant |schedule| <= |old(schedule)| && table.Valid() && table.Live() == live
        decreases |unsent| + prod - cons
      {
        DoneIs(live, old(records), old(signalled), old(memory), news, records, signalled, memory);
        var whole, msg, len := Look();
        if !whole { return false, news; }
        ghost var m, was := FirstMsg(InRing()), (records, signalled, memory);
        var stop := Take(msg, len, m);
        if stop { return true, news; }
        DoneOne(live, old(records), old(signalled), old(memory), news, was.0, was.1, was.2, m, signalled, memory);
        Regroup(old(handled), news, [m]);
        news := news + [m];
      }
    }

    /** The two checks of the loop, the header being copied between them. */
    method Look() returns (whole: bool, msg: seq<byte>, len: nat)
      requires Valid()
      modifies rsp, this`rspProd, this`prod, this`unsent, this`schedule
      ensures Valid() && Said() == old(Said()) && prod + |unsent| == old(prod + |unsent|)
      ensures |schedule| <= |old(schedule)| && (old(schedule) != [] ==> |schedule| < |old(schedule)|)
      ensures whole <==> Complete(InRing())
      ensures whole ==> msg == InRing()[..HEADER] && len == LenOf(InRing()) && MsgOk(FirstMsg(InRing()))
    {
      hide Word, At, Add, Sub, Frames, FirstMsg, Window, Frame, Word4, MsgOk;
      whole, msg, len := false, [], 0;
      Daemon();
      SubWord(prod, cons, W32);
      if Sub(rspProd, rspCons, W32) < HEADER { return; }
      msg := Copy(HEADER);
      len := Word4(msg[12..16]);
      Daemon();
      SubWord(prod, cons, W32);
      assert InRing()[..HEADER] == msg;
      assert InRing()[12..16] == msg[12..16];
      if Sub(rspProd, rspCons, W32) < HEADER + len { return; }
      FirstIsFrame(InRing());
      whole := true;
    }

    /** What the loop does with the whole message `m`, the header of which was copied. */
    method Take(msg: seq<byte>, len: nat, ghost m: Msg) returns (halted: bool)
      requires Valid() && table.Valid() && Complete(InRing()) && msg == InRing()[..HEADER] && len == LenOf(InRing())
      requires m == FirstMsg(InRing()) && MsgOk(m)
      modifies this`rspCons, this`cons, this`handled, this`records, this`signalled, this`memory
      ensures Valid() && Said() == old(Said())
      ensures halted <==> !IsWatch(m) && (m.req !in table.Live() || old(memory) == 0)
      ensures halted ==> InRing() == old(InRing()) && handled == old(handled) && records == old(records)
      ensures halted ==> signalled == old(signalled) && memory == old(memory)
      ensures !halted ==> handled == old(handled) + [m] && records == Put(old(records), table.Live(), m)
      ensures !halted ==> (signalled <==> old(signalled) || IsWatch(m)) && cons == old(cons) + HEADER + len
      ensures !halted ==> old(memory) == memory + if IsWatch(m) then 0 else 1
    {
      hide Word, At, Add, Sub, Frames, FirstMsg, Window, Word4, Frame, LenOf, MsgOk, HT.SlotsOk, HT.Contents,
           HT.IsPowerOfTwo;
      ReadFirst(InRing(), msg);
      if Word4(msg[..4]) == WATCH_EVENT {
        Advance(len + HEADER);
        signalled := true;
      } else {
        var status, ref := table.GetReference(Word4(msg[4..8]));
        if status != HT.Ok || memory == 0 { return true; }
        memory := memory - 1;
        var reply := Copy(HEADER + len);
        records := records[ref.ref := Received(reply)];
        Advance(len + HEADER);
      }
      halted := false;
    }

    /** The wait of xenbus_msg_reply for its record, the only one of its handle. */
    method WaitForReply(record: nat, ghost id: nat) returns (outcome: Outcome, reply: seq<byte>)
      requires Valid() && table.Valid() && record in records && records[record] == Pending
      requires forall x :: x in table.Live() && table.Live()[x] == record ==> x == id
      modifies rsp, this`rspProd, this`prod, this`unsent, this`schedule, this`rspCons, this`cons, this`handled,
               this`records, this`signalled, this`memory
      ensures Valid() && Said() == old(Said()) && |old(handled)| <= |handled|
      ensures outcome == Replied ==> id < W32 && exists m :: m in handled[|old(handled)|..] && IsReply(m, id, reply)
      ensures outcome == Stopped ==> StopsAt()
      ensures outcome == StillWaiting ==> schedule == [] && !Complete(InRing())
    {
      hide Delivered, Frames, Window, Word, At, Add, Sub, Frame, HT.SlotsOk, HT.Contents, HT.IsPowerOfTwo;
      while records[record] == Pending
        invariant Valid() && table.Valid() && table.Live() == old(table.Live()) && Said() == old(Said())
        invariant record in records && old(handled) <= handled
        invariant records[record] != Pending ==>
                    exists m :: m in handled[|old(handled)|..] && MsgOk(m) && IsFor(m, table.Live(), record) &&
                                records[record] == Received(Frame(m))
        decreases if record in records && records[record] == Pending then |schedule| + 1 else 0
      {
        var turns := |schedule|;
        ghost var before, first := records, handled;
        var halted, news := Event();
        if halted { return Stopped, []; }
        DeliveredIn(before, table.Live(), news, record);
        if records[record] != Pending {
          SomeReply(before, table.Live(), news, record);
          InTail(old(handled), first, news);
        } else if turns == 0 {
          return StillWaiting, [];
        }
      }
      outcome, reply := Replied, records[record].reply;
    }

    /** At the front of the ring is a reply for which there is no live handle or no memory. */
    ghost predicate StopsAt() reads this, rsp, table, table.entry requires Valid() {
      && Complete(InRing()) && !IsWatch(FirstMsg(InRing()))
      && (FirstMsg(InRing()).req !in table.Live() || memory == 0)
    }

    /** A copy of the next bytes of the ring in memory of its own. */
    method Copy(n: nat) returns (d: seq<byte>)
      requires Valid() && n <= prod - cons
      ensures d == InRing()[..n]
    {
      hide Word, At, Window;
      var dest := new byte[n];
      WordAt(cons, W32 / RING, RING);
      CopyFromRing(rsp, dest, At(rspCons, RING), n);
      WindowAtSlot(rsp[..], cons, n);
      WindowSplit(rsp[..], cons, n, prod - cons - n);
      d := dest[..];
      assert d == dest[..n];
    }
  }

  lemma DeliveredOne(records: map<nat, Record>, live: map<nat, nat>, ms: seq<Msg>, m: Msg)
    requires AllOk(ms) && MsgOk(m)
    ensures AllOk(ms + [m]) && Delivered(records, live, ms + [m]) == Put(Delivered(records, live, ms), live, m)
  {
    assert (ms + [m])[..|ms + [m]| - 1] == ms;
  }

  lemma FrontOfRing(s: seq<byte>, n: nat)
    requires Complete(s) && n == HEADER + LenOf(s)
    ensures HEADER <= n <= |s|
  {
  }

  lemma OneFrame(m: Msg)
    requires MsgOk(m)
    ensures AllOk([m]) && Frames([m]) == Frame(m)
  {
    assert [m][1..] == [];
  }

  /** The header that was copied first is the one of the message at the front. */
  lemma ReadFirst(s: seq<byte>, msg: seq<byte>)
    requires Complete(s) && msg == s[..HEADER]
    ensures FirstMsg(s).ty == Word4(msg[..4]) && FirstMsg(s).req == Word4(msg[4..8])
    ensures Frame(FirstMsg(s)) == s[..HEADER + LenOf(s)] && MsgOk(FirstMsg(s))
  {
    FirstIsFrame(s);
    assert msg[..4] == s[..4] && msg[4..8] == s[4..8];
  }

  /** Reading from a counter or from its slot is the same. */
  lemma WindowAtSlot(ring: seq<byte>, from: nat, n: nat)
    requires |ring| == RING
    ensures Window(ring, At(from, RING), n) == Window(ring, from, n)
  {
    var a, b := Window(ring, At(from, RING), n), Window(ring, from, n);
    forall i | 0 <= i < n ensures a[i] == b[i] {
      var q := from / RING;
      assert from == RING * q + from % RING;
      AddMultiple(from % RING + i, RING, q);
      assert At(At(from, RING) + i, RING) == At(from + i, RING);
    }
  }

  /** handleAllocate for a record that has no handle. */
  method NewHandle(table: HT.HandleTable, record: nat, memory: bool) returns (ok: bool, id: nat)
    requires table.Valid() && record != 0 && record !in table.Live().Values
    requires (memory ==> table.size < HT.INT_LIMIT) && table.lastAllocated + 2 * table.size < W64
    modifies table, table.entry
    ensures table.Valid() && (table.entry == old(table.entry) || fresh(table.entry))
    ensures ok <==> old(table.size < 2 * table.used) ==> memory
    ensures OnlyNew(old(table.Live()), table.Live(), id)
    ensures ok ==> old(table.lastAllocated) < id == table.lastAllocated
    ensures ok ==> id in table.Live() && Alone(table.Live(), id, record)
  {
    hide HT.SlotsOk, HT.Contents, HT.IsPowerOfTwo, HT.Lost, At, OnlyNew, Alone;
    ghost var live := table.Live();
    var status, handle, lost := table.Allocate(record, memory);
    ok, id := status == HT.Ok, handle;
    if !ok {
      NothingNew(live, id);
      return;
    }
    AloneAfter(live, lost, id, record);
    assert table.Live() == (live - lost)[id := record];
  }

  class Bus {
    const replies: ReplyRing
    const requests: RequestRing
    const table: HT.HandleTable

    ghost predicate Valid() reads this, replies, requests, table, table.entry {
      replies.Valid() && requests.Valid() && table.Valid() && replies.table == table && replies.rsp != requests.req
    }

    constructor (r: ReplyRing, q: RequestRing)
      requires r.Valid() && q.Valid() && r.table.Valid() && r.rsp != q.req
      ensures Valid() && replies == r && requests == q && table == r.table
    {
      replies, requests, table := r, q, r.table;
    }

    /** Why a request stops the kernel: no memory for the handle table, a message beyond the ring, or the check on the
        ring's index. */
    ghost predicate RequestStops(size: nat, used: nat, memory: nat, data: seq<seq<byte>>) reads requests {
      || (size < 2 * used && memory == 0)
      || HEADER + |Flatten(data)| > RING
      || Crosses(requests.cons, requests.prod + HEADER + |Flatten(data)|)
    }

    /** The daemon takes no more and the message does not fit. */
    ghost predicate NoRoom(data: seq<seq<byte>>) reads requests {
      requests.schedule == [] && requests.prod - requests.cons + HEADER + |Flatten(data)| > RING
    }

    /** A record that waits, and a handle for it, for which the table may have to grow. */
    method Register(record: nat) returns (ok: bool, id: nat)
      requires Valid() && record != 0 && record !in table.Live().Values
      requires (replies.memory > 0 ==> table.size < HT.INT_LIMIT) && table.lastAllocated + 2 * table.size < W64
      modifies replies`records, replies`memory, table, table.entry
      ensures Valid() && (table.entry == old(table.entry) || fresh(table.entry))
      ensures replies.Said() == old(replies.Said()) && OnlyNew(old(table.Live()), table.Live(), id)
      ensures
        var grows := old(table.size < 2 * table.used);
        && (ok <==> grows ==> old(replies.memory) > 0)
        && old(replies.memory) == replies.memory + if ok && grows then 1 else 0
      ensures ok ==> old(table.lastAllocated) < id == table.lastAllocated
      ensures ok ==> id in table.Live() && Alone(table.Live(), id, record)
      ensures ok ==> replies.records == old(replies.records)[record := Pending]
    {
      hide Frames, Window, Word, At, HT.SlotsOk, HT.Contents, HT.IsPowerOfTwo, HT.Lost, OnlyNew, Alone, AllOk;
      replies.records := replies.records[record := Pending];
      var grows := table.size < 2 * table.used;
      ok, id := NewHandle(table, record, replies.memory > 0);
      if ok && grows { replies.memory := replies.memory - 1; }
    }

    /** The first part of xenbus_msg_reply: the record with its handle, and the request that carries the low 32 bits of
        the handle. */
    method Request(ty: nat, trans: nat, data: seq<seq<byte>>, record: nat) returns (outcome: Outcome, id: nat)
      requires Valid() && ty < W32 && trans < W32 && HEADER + |Flatten(data)| < W32 / 2
      requires record != 0 && record !in table.Live().Values
      requires (replies.memory > 0 ==> table.size < HT.INT_LIMIT) && table.lastAllocated + 2 * table.size < W64
      modifies replies`records, replies`memory, requests, requests.req, table, table.entry
      ensures table.entry == old(table.entry) || fresh(table.entry)
      ensures Valid() && replies.Said() == old(replies.Said()) && OnlyNew(old(table.Live()), table.Live(), id)
      ensures outcome == Replied ==> old(table.lastAllocated) < id == table.lastAllocated
      ensures outcome == Replied ==> id in table.Live() && Alone(table.Live(), id, record)
      ensures outcome == Replied ==> replies.records == old(replies.records)[record := Pending]
      ensures outcome == Stopped ==> RequestStops(old(table.size), old(table.used), old(replies.memory), data)
      ensures outcome == StillWaiting ==> NoRoom(data)
      ensures outcome == Replied ==>
                requests.Requests() == old(requests.Requests()) + Frame(Msg(ty, Short(id), trans, Flatten(data)))
    {
      hide Frame, Frames, Window, Word, At, Short, Flatten, HT.SlotsOk, HT.Contents, HT.IsPowerOfTwo, HT.Lost, OnlyNew,
           Alone;
      var ok, handle := Register(record);
      id := handle;
      if !ok { return Stopped, id; }
      var written := requests.WriteRing(ty, Short(handle), trans, data);
      outcome := match written
        case Written => Replied
        case Waiting => StillWaiting
        case TooLong | BugCheck => Stopped;
    }

    /** xenbus_msg_reply. `record` is the address of the record on the caller's stack. A call returns only with the
        reply that carries the handle of its request, and only if that handle has 32 bits; it then holds no handle any
        more. The check on the handle in the reply cannot fail. */
    method MsgReply(ty: nat, trans: nat, data: seq<seq<byte>>, record: nat)
      returns (outcome: Outcome, reply: seq<byte>, ghost id: nat)
      requires Valid() && ty < W32 && trans < W32 && HEADER + |Flatten(data)| < W32 / 2
      requires record != 0 && record !in table.Live().Values
      requires (replies.memory > 0 ==> table.size < HT.INT_LIMIT) && table.lastAllocated + 2 * table.size < W64
      modifies replies, replies.rsp, requests, requests.req, table, table.entry
      ensures Valid() && replies.Said() == old(replies.Said()) && OnlyNew(old(table.Live()), table.Live(), id)
      ensures outcome == Replied ==> old(table.lastAllocated) < id < W32 && id !in table.Live()
      ensures outcome == Replied ==>
                requests.Requests() == old(requests.Requests()) + Frame(Msg(ty, id, trans, Flatten(data)))
      ensures outcome == Replied ==>
                |old(replies.handled)| <= |replies.handled| &&
                exists m :: m in replies.handled[|old(replies.handled)|..] && IsReply(m, id, reply)
      ensures outcome == Stopped ==>
                RequestStops(old(table.size), old(table.used), old(replies.memory), data) || replies.StopsAt()
      ensures outcome == StillWaiting ==> NoRoom(data) || (replies.schedule == [] && !Complete(replies.InRing()))
    {
      hide Alone, OnlyNew, RequestStops, NoRoom, Complete, Crosses, Word4, IsReply, Frames, Frame, Window, Word, At,
           Short, Flatten, HT.SlotsOk, HT.Contents, HT.IsPowerOfTwo, HT.Lost;
      ghost var live := table.Live();
      var handle;
      outcome, handle := Request(ty, trans, data, record);
      reply, id := [], handle;
      if outcome != Replied { return; }
      ghost var with := table.Live();
      AloneIs(with, id, record);
      outcome, reply := replies.WaitForReply(record, id);
      if outcome != Replied { return; }
      ghost var m :| m in replies.handled[|old(replies.handled)|..] && IsReply(m, id, reply);
      ReplyCarries(m, id, reply);
      ShortIs(id);
      assert Word4(reply[4..8]) == Short(handle);
      var freed := table.Free(Short(handle));
      NewGone(live, with, id);
    }
  }

  /** No handle but the new one was added. */
  ghost predicate OnlyNew(live: map<nat, nat>, live': map<nat, nat>, id: nat) {
    forall x :: x in live' && x != id ==> x in live && live'[x] == live[x]
  }

  /** A record has one handle. */
  ghost predicate Alone(live: map<nat, nat>, id: nat, record: nat) {
    forall x :: x in live && live[x] == record ==> x == id
  }

  lemma AloneIs(live: map<nat, nat>, id: nat, record: nat)
    requires Alone(live, id, record)
    ensures forall x :: x in live && live[x] == record ==> x == id
  {
  }

  lemma AloneAfter(live: map<nat, nat>, lost: set<nat>, id: nat, record: nat)
    requires record !in live.Values
    ensures Alone((live - lost)[id := record], id, record)
    ensures OnlyNew(live, (live - lost)[id := record], id)
  {
  }

  lemma NothingNew(live: map<nat, nat>, id: nat)
    ensures OnlyNew(live, live, id)
  {
  }

  lemma NewGone(live: map<nat, nat>, live': map<nat, nat>, id: nat)
    requires OnlyNew(live, live', id)
    ensures OnlyNew(live, live' - {id}, id)
  {
  }
}
