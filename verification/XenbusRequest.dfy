/** The request ring of xen/xenbus.c: requests go to the XenStore daemon as one stream of bytes.

    The daemon takes bytes at any moment: a schedule says how many at each point where the guest looks at or writes the
    ring; every finite prefix of a run is a schedule. */
module XenbusRequest {
  import opened Arith
  import opened Ring
  import opened XenStore

  const RING: nat := 1024

  /** Waiting: the schedule ended with no room for the message. The two failures are the kernel's bug checks. */
  datatype Outcome = Written | Waiting | TooLong | BugCheck

  ghost function Flatten(segs: seq<seq<byte>>): seq<byte> {
    if segs == [] then [] else segs[0] + Flatten(segs[1..])
  }

  lemma {:induction false} FlattenSplit(segs: seq<seq<byte>>, k: nat)
    requires k <= |segs|
    ensures Flatten(segs) == Flatten(segs[..k]) + Flatten(segs[k..])
  {
    if k == 0 {
      assert segs[..0] == [] && segs[0..] == segs;
    } else {
      FlattenSplit(segs[1..], k - 1);
      assert segs[1..][..k - 1] == segs[..k][1..] && segs[1..][k - 1..] == segs[k..];
    }
  }

  /** Where a part of a segment lies in the whole. */
  lemma FlattenAt(segs: seq<seq<byte>>, k: nat, off: nat, n: nat)
    requires k < |segs| && off + n <= |segs[k]|
    ensures |Flatten(segs[..k])| + |segs[k]| <= |Flatten(segs)|
    ensures Flatten(segs)[|Flatten(segs[..k])| + off..|Flatten(segs[..k])| + off + n] == segs[k][off..off + n]
    ensures |Flatten(segs[..k + 1])| == |Flatten(segs[..k])| + |segs[k]|
  {
    var a := Flatten(segs[..k]);
    FlattenSplit(segs, k);
    FlattenSplit(segs[..k + 1], k);
    assert segs[..k + 1][..k] == segs[..k] && segs[..k + 1][k..] == [segs[k]];
    FlattenHeader(segs[k], []);
    assert [segs[k]] + [] == [segs[k]];
    var b := Flatten(segs[k + 1..]);
    assert segs[k..][1..] == segs[k + 1..];
    assert Flatten(segs) == a + (segs[k] + b);
  }

  /** memcpy_from_ring: a copy out of the ring in two pieces is the window of the ring; the bound is the one beyond
      which the second piece would leave the ring. */
  method CopyFromRing(ring: array<byte>, dest: array<byte>, off: nat, len: nat)
    requires ring.Length == RING && ring != dest && off < RING && off + len <= 2 * RING && len <= dest.Length
    modifies dest
    ensures dest[..len] == Window(ring[..], off, len) && dest[len..] == old(dest[len..])
  {
    hide Window;
    var c1 := Least(len, RING - off);
    var c2 := len - c1;
    forall i | 0 <= i < c1 { dest[i] := ring[off + i]; }
    forall i | 0 <= i < c2 { dest[c1 + i] := ring[i]; }
    TwoPieces(ring[..], off, c1, c2);
    assert dest[..len] == ring[off..off + c1] + ring[..c2];
  }

  lemma TwoPieces(ring: seq<byte>, off: nat, c1: nat, c2: nat)
    requires |ring| == RING && off < RING && off + c1 <= RING && c2 <= RING && (c2 > 0 ==> off + c1 == RING)
    ensures Window(ring, off, c1 + c2) == ring[off..off + c1] + ring[..c2]
  {
    WindowFront(ring, off, c1, c1 + c2);
    if c2 > 0 {
      WindowSlice(ring, off + c1, c2);
    } else {
      assert Window(ring, off + c1, 0) == [];
    }
  }

  /** The check that the end of the message is within the ring compares words: it fails exactly when the limit wraps and
      the end does not. */
  ghost predicate Crosses(cons: nat, end: nat) { Word(cons, W32) + RING >= W32 && end / W32 == cons / W32 }

  lemma CheckFailsIff(cons: nat, end: nat)
    requires cons <= end <= cons + RING
    ensures Word(end, W32) > Add(Word(cons, W32), RING, W32) <==> Crosses(cons, end)
  {
  }

  class RequestRing {
    const req: array<byte>
    var reqCons: nat
    var reqProd: nat
    var schedule: seq<nat>
    /** The counters behind the words, and what the daemon has taken. */
    ghost var cons: nat
    ghost var prod: nat
    ghost var taken: seq<byte>

    ghost predicate Valid() reads this {
      req.Length == RING && cons <= prod <= cons + RING && reqCons == Word(cons, W32) && reqProd == Word(prod, W32)
    }

    /** The stream of requests: those the daemon has taken and those in the ring. */
    ghost function Requests(): seq<byte> reads this, req requires Valid() {
      taken + Window(req[..], cons, prod - cons)
    }

    constructor (ring: array<byte>, turns: seq<nat>)
      requires ring.Length == RING
      ensures Valid() && req == ring && Requests() == [] && schedule == turns
      ensures cons == 0 && prod == 0
    {
      req, reqCons, reqProd, schedule := ring, 0, 0, turns;
      cons, prod, taken := 0, 0, [];
    }

    /** The daemon's next turn. */
    method Daemon()
      requires Valid()
      modifies this`reqCons, this`cons, this`taken, this`schedule
      ensures Valid() && Requests() == old(Requests())
      ensures old(cons) <= cons && taken == old(taken) + Window(req[..], old(cons), cons - old(cons))
      ensures schedule == if old(schedule) == [] then [] else old(schedule[1..])
      ensures cons == old(cons) + if old(schedule) == [] then 0 else Least(old(schedule[0]), prod - old(cons))
    {
      hide Word, At;
      if schedule != [] {
        ghost var n := Least(schedule[0], prod - cons);
        WindowSplit(req[..], cons, n, prod - cons - n);
        AddWord(cons, n, W32);
        SubWord(prod, cons, W32);
        reqCons := Add(reqCons, Least(schedule[0], Sub(reqProd, reqCons, W32)), W32);
        taken := taken + Window(req[..], cons, n);
        cons := cons + n;
        schedule := schedule[1..];
      } else {
        assert Window(req[..], cons, 0) == [];
      }
    }

    /** One chunk of the copying loop: a part of a segment up to the end of the ring, behind `total` bytes that are not
        published yet. The daemon takes its turn first. */
    method CopyChunk(d: seq<byte>, p: nat, ghost total: nat) returns (n: nat, q: nat)
      requires Valid() && p == Word(prod + total, W32) && prod - cons + total + |d| <= RING
      modifies req, this`reqCons, this`cons, this`taken, this`schedule
      ensures Valid() && n <= |d| && q == Word(prod + total + n, W32) && old(cons) <= cons
      ensures d != [] ==> n > 0
      ensures old(schedule) == [] ==> schedule == [] && cons == old(cons)
      ensures taken + Window(req[..], cons, prod - cons + total + n) ==
              old(taken + Window(req[..], cons, prod - cons + total)) + d[..n]
    {
      hide Word, At, Add, Window, Replaced;
      ghost var c, t := cons, taken;
      Daemon();
      ghost var m := prod - cons + total;
      WindowSplit(req[..], c, cons - c, m);
      Regroup(t, Window(req[..], c, cons - c), Window(req[..], cons, m));
      WordAt(prod + total, W32 / RING, RING);
      var pos := At(p, RING);
      n := Least(|d|, RING - pos);
      ghost var was := req[..];
      Store(d[..n], pos);
      WindowBlit(was, cons, m, d[..n]);
      Regroup(taken, Window(was, cons, m), d[..n]);
      AddWord(prod + total, n, W32);
      q := Add(p, n, W32);
    }

    /** The copy of one chunk into the ring. */
    method Store(d: seq<byte>, pos: nat)
      requires pos + |d| <= req.Length
      modifies req
      ensures req[..] == Replaced(old(req[..]), pos, d)
    {
      forall i | 0 <= i < |d| { req[pos + i] := d[i]; }
    }

    /** The copying loop over the header and the segments, empty ones among them. */
    method CopyAll(segs: seq<seq<byte>>, len: nat) returns (p: nat)
      requires Valid() && len == |Flatten(segs)| && prod - cons + len <= RING
      modifies req, this`reqCons, this`cons, this`taken, this`schedule
      ensures Valid() && p == Word(prod + len, W32) && old(cons) <= cons
      ensures old(schedule) == [] ==> schedule == [] && cons == old(cons)
      ensures taken + Window(req[..], cons, prod - cons + len) == old(Requests()) + Flatten(segs)
    {
      hide Word, At, Add, Window, Flatten;
      var k, off, total := 0, 0, 0;
      p := reqProd;
      ghost var base, all := Requests(), Flatten(segs);
      assert Flatten(segs[..0]) == [] by { FlattenNone(segs); }
      assert all[..0] == [];
      while total < len
        invariant Valid() && old(cons) <= cons && total <= len && p == Word(prod + total, W32)
        invariant k <= |segs| && total == |Flatten(segs[..k])| + off && (off > 0 ==> k < |segs| && off < |segs[k]|)
        invariant taken + Window(req[..], cons, prod - cons + total) == base + all[..total]
        invariant old(schedule) == [] ==> schedule == [] && cons == old(cons)
        decreases len - total, |segs| - k
      {
        assert segs[..|segs|] == segs;
        assert k < |segs|;
        var d := segs[k][off..];
        FlattenAt(segs, k, off, |d|);
        var n, q := CopyChunk(d, p, total);
        FlattenAt(segs, k, off, n);
        assert d[..n] == segs[k][off..off + n];
        assert all[..total + n] == all[..total] + all[total..total + n];
        Regroup(base, all[..total], d[..n]);
        p, off, total := q, off + n, total + n;
        if off == |segs[k]| { off, k := 0, k + 1; }
      }
      if off > 0 { FlattenAt(segs, k, off, 0); }
      assert off == 0 && total == len;
      assert all[..len] == all;
    }

    /** xenbus_write_ring. A message that fits the ring is appended to the stream of requests whole: header, then the
        segments in order. The bug checks after the copying loop on the two offsets cannot fire; the one on the index
        fires exactly when the limit wraps and the end of the message does not. Nothing is published then. */
    method WriteRing(ty: nat, reqId: nat, trans: nat, data: seq<seq<byte>>) returns (outcome: Outcome)
      requires Valid() && ty < W32 && reqId < W32 && trans < W32 && HEADER + |Flatten(data)| < W32 / 2
      modifies this, req
      ensures Valid()
      ensures outcome == TooLong <==> HEADER + |Flatten(data)| > RING
      ensures outcome == Written ==> prod == old(prod) + HEADER + |Flatten(data)|
      ensures old(schedule) == [] ==> schedule == [] && cons == old(cons)
      ensures outcome == Written ==> Requests() == old(Requests()) + Frame(Msg(ty, reqId, trans, Flatten(data)))
      ensures outcome != Written ==> Requests() == old(Requests()) && prod == old(prod)
      ensures outcome == Waiting ==> schedule == [] && prod - cons + HEADER + |Flatten(data)| > RING
      ensures outcome in {Written, BugCheck} ==>
                (outcome == BugCheck <==> Crosses(cons, old(prod) + HEADER + |Flatten(data)|))
    {
      hide Word, At, Add, Sub, Window, Flatten, Frame, Crosses;
      var len := 0;
      FlattenNone(data);
      for r := 0 to |data|
        modifies {}
        invariant len == |Flatten(data[..r])|
      {
        FlattenAt(data, r, 0, 0);
        len := len + |data[r]|;
      }
      assert data[..|data|] == data;
      var header := Header(ty, reqId, trans, len);
      len := len + HEADER;
      if len > RING { return TooLong; }
      outcome := WaitForRoom(len);
      if outcome == Waiting { return; }
      FlattenHeader(header, data);
      FrameIs(ty, reqId, trans, Flatten(data));
      ghost var base := Requests();
      var p := CopyAll([header] + data, len);
      CheckFailsIff(cons, prod + len);
      if p > Add(reqCons, RING, W32) {
        WindowSplit(req[..], cons, prod - cons, len);
        Unpublished(taken, Window(req[..], cons, prod - cons), Window(req[..], prod, len), base,
                    Flatten([header] + data));
        return BugCheck;
      }
      AddWord(prod, len, W32);
      reqProd := Add(reqProd, len, W32);
      prod := prod + len;
      outcome := Written;
    }

    /** The wait for room for the whole message. */
    method WaitForRoom(len: nat) returns (outcome: Outcome)
      requires Valid() && len <= RING
      modifies this`reqCons, this`cons, this`taken, this`schedule
      ensures Valid() && Requests() == old(Requests())
      ensures outcome == if prod - cons + len <= RING then Written else Waiting
      ensures outcome == Waiting ==> schedule == []
      ensures old(schedule) == [] ==> schedule == [] && cons == old(cons)
    {
      hide Word, At, Add, Sub, Window;
      SpaceWord(prod, cons, len);
      while Sub(Add(reqProd, len, W32), reqCons, W32) > RING
        invariant Valid() && Requests() == old(Requests())
        invariant Sub(Add(reqProd, len, W32), reqCons, W32) == prod - cons + len
        invariant old(schedule) == [] ==> schedule == [] && cons == old(cons)
        decreases |schedule|
      {
        if schedule == [] { return Waiting; }
        Daemon();
        SpaceWord(prod, cons, len);
      }
      outcome := Written;
    }
  }

  /** A run that stops the kernel: 2^22 - 1 messages of 1024 bytes, each taken by the daemon before the next one is
      sent, and then a message without a body. The ring is empty when it is sent. */
  method RunToWrap() returns (outcome: Outcome, ghost empty: bool)
    ensures outcome == BugCheck && empty
  {
    hide Word, At, Window, Flatten, Frame, Crosses;
    var ring := new byte[RING];
    var r := new RequestRing(ring, []);
    var body: seq<byte> := seq(1008, _ => 0);
    LengthOfOne(body);
    for i := 0 to 0x3F_FFFF
      invariant r.Valid() && r.cons == r.prod == 1024 * i && r.schedule == [] && fresh(r) && r.req == ring
    {
      BeforeWrap(1024 * i);
      outcome := r.WriteRing(0, 0, 0, [body]);
      r.schedule := [1024];
      r.Daemon();
    }
    empty := r.cons == r.prod;
    AtWrap();
    outcome := r.WriteRing(0, 0, 0, []);
  }

  lemma LengthOfOne(d: seq<byte>)
    ensures |Flatten([d])| == |d| && |Flatten([])| == 0
  {
    assert [d][1..] == [];
  }

  lemma BeforeWrap(cons: nat)
    requires cons < W32 - RING
    ensures !Crosses(cons, cons + RING)
  {
  }

  lemma AtWrap()
    ensures Crosses(W32 - RING, W32 - RING + HEADER)
  {
  }

  lemma SpaceWord(prod: nat, cons: nat, len: nat)
    requires cons <= prod <= cons + RING && len <= RING
    ensures Sub(Add(Word(prod, W32), len, W32), Word(cons, W32), W32) == prod - cons + len
  {
    AddWord(prod, len, W32);
    SubWord(prod + len, cons, W32);
  }

  lemma Unpublished(t: seq<byte>, w: seq<byte>, u: seq<byte>, base: seq<byte>, all: seq<byte>)
    requires t + (w + u) == base + all && |u| == |all|
    ensures t + w == base
  {
    assert (t + (w + u))[..|base|] == base;
    assert (t + (w + u))[..|base|] == t + w;
  }

  lemma FlattenNone(segs: seq<seq<byte>>)
    ensures Flatten(segs[..0]) == []
  {
  }

  lemma FlattenHeader(h: seq<byte>, segs: seq<seq<byte>>)
    ensures Flatten([h] + segs) == h + Flatten(segs)
  {
    assert ([h] + segs)[1..] == segs;
  }

  lemma FrameIs(ty: nat, req: nat, tx: nat, body: seq<byte>)
    requires ty < W32 && req < W32 && tx < W32 && |body| < W32
    ensures Frame(Msg(ty, req, tx, body)) == Header(ty, req, tx, |body|) + body
  {
  }
}
