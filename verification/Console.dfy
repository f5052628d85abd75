/** The console output path: src/console.c's circular buffer, drained into the ring of src/xencons_ring.c that the
    backend empties. The whole is one first-in first-out stream of bytes.

    The backend takes bytes at any moment. A schedule says how many it takes at each point where the guest looks at
    or writes the ring; every finite prefix of a run is a schedule, and a call that would still be waiting when the
    schedule ends returns saying how far it got. */
module Console {
  import opened Arith
  import opened Ring

  const RING: nat := 2048
  const BUFFER: nat := 16384

  lemma BufferWords(first: nat, last: nat)
    requires first <= last <= first + BUFFER
    ensures Sub(Word(last, W64), Word(first, W64), W64) == last - first
    ensures At(Word(first, W64), BUFFER) == At(first, BUFFER) && At(Word(last, W64), BUFFER) == At(last, BUFFER)
  {
    SubWord(last, first, W64);
    WordAt(first, W64 / BUFFER, BUFFER);
    WordAt(last, W64 / BUFFER, BUFFER);
  }

  lemma SameWord(p: nat, q: nat)
    requires p <= q < p + W64 && Word(p, W64) == Word(q, W64)
    ensures p == q
  {
    SubWord(q, p, W64);
  }

  lemma PrefixTrans<T>(a: seq<T>, b: seq<T>, c: seq<T>)
    requires a <= b && b <= c
    ensures a <= c
  {
  }

  class Console {
    const out: array<char>
    var outCons: nat
    var outProd: nat
    var data: array?<char>
    var head: nat
    var tail: nat
    var schedule: seq<nat>
    /** The counters behind the words above, and what the backend has taken. */
    ghost var cons: nat
    ghost var prod: nat
    ghost var first: nat
    ghost var last: nat
    ghost var consumed: seq<char>

    ghost predicate RingOk() reads this {
      out.Length == 2048 && cons <= prod <= cons + RING && outCons == Word(cons, W32) && outProd == Word(prod, W32)
    }

    ghost predicate BufferOk() reads this {
      data != null ==>
        data != out && data.Length == 16384 && first <= last <= first + BUFFER &&
        head == Word(first, W64) && tail == Word(last, W64)
    }

    ghost predicate Valid() reads this { RingOk() && BufferOk() }

    ghost function Sent(): seq<char> reads this, out requires RingOk() {
      consumed + Window(out[..], cons, prod - cons)
    }

    ghost function Buffered(): seq<char> reads this, data requires BufferOk() {
      if data == null then [] else Window(data[..], first, last - first)
    }

    /** Everything that was printed, whoever has it now. */
    ghost function Stream(): seq<char> reads this, out, data requires Valid() { Sent() + Buffered() }

    ghost predicate RingFull() reads this { prod - cons == 2048 }

    ghost predicate BufferFull() reads this { data != null && last - first == 16384 }

    /** The ring as the guest finds it, before consoleBufferInit. */
    constructor (ring: array<char>, ghost c: nat, ghost p: nat, wordC: nat, wordP: nat, turns: seq<nat>)
      requires ring.Length == RING && c <= p <= c + RING && wordC == Word(c, W32) && wordP == Word(p, W32)
      ensures Valid() && out == ring && data == null && schedule == turns
      ensures consumed == [] && Stream() == Window(ring[..], c, p - c)
    {
      out, outCons, outProd, data, head, tail, schedule := ring, wordC, wordP, null, 0, 0, turns;
      cons, prod, first, last, consumed := c, p, 0, 0, [];
    }

    /** consoleBufferInit: from here on what is printed goes through the buffer. */
    method BufferInit(memory: bool)
      requires Valid() && data == null
      modifies this`data, this`head, this`tail, this`first, this`last
      ensures Valid() && (data != null <==> memory) && (data != null ==> fresh(data)) && Stream() == old(Stream())
    {
      if !memory { return; }
      data := new char[BUFFER];
      head, tail := 0, 0;
      first, last := 0, 0;
      assert Buffered() == [];
    }

    /** The backend's next turn. */
    method Backend()
      requires RingOk()
      modifies this`outCons, this`cons, this`consumed, this`schedule
      ensures RingOk() && Sent() == old(Sent())
      ensures old(cons) <= cons && consumed == old(consumed) + Window(out[..], old(cons), cons - old(cons))
      ensures schedule == if old(schedule) == [] then [] else old(schedule[1..])
      ensures old(schedule) == [] ==> cons == old(cons)
    {
      hide Word, At;
      if schedule != [] {
        ghost var n := Least(schedule[0], prod - cons);
        WindowSplit(out[..], cons, n, prod - cons - n);
        AddWord(cons, n, W32);
        SubWord(prod, cons, W32);
        outCons := Add(outCons, Least(schedule[0], Sub(outProd, outCons, W32)), W32);
        consumed := consumed + Window(out[..], cons, n);
        cons := cons + n;
        schedule := schedule[1..];
      } else {
        assert Window(out[..], cons, 0) == [];
      }
    }

    /** The inner loop of xencons_ring_send and the publication of its bytes; the backend may take bytes, never these,
        between any two writes. */
    method PutBytes(d: seq<char>)
      requires RingOk() && |d| <= RING - (prod - cons)
      modifies out, this`outCons, this`cons, this`consumed, this`schedule, this`outProd, this`prod
      ensures RingOk() && Sent() == old(Sent()) + d
      ensures prod == old(prod) + |d| && cons >= old(cons)
      ensures |schedule| <= |old(schedule)|
      ensures old(schedule) == [] ==> cons == old(cons)
    {
      hide Word, At, Add, Window;
      var p := outProd;
      assert d[..0] == [];
      AddZero(prod, W32);
      for i := 0 to |d|
        invariant RingOk() && prod == old(prod) && cons >= old(cons) && p == Word(prod + i, W32)
        invariant consumed + Window(out[..], cons, prod - cons + i) == old(Sent()) + d[..i]
        invariant |schedule| <= |old(schedule)| && (old(schedule) == [] ==> schedule == [] && cons == old(cons))
      {
        ghost var c, taken := cons, consumed;
        Backend();
        ghost var n := prod - cons + i;
        WindowSplit(out[..], c, cons - c, n);
        Regroup(taken, Window(out[..], c, cons - c), Window(out[..], cons, n));
        WordAt(prod + i, W32 / RING, RING);
        WindowPut(out[..], cons, n, d[i]);
        Regroup(consumed, Window(out[..], cons, n), [d[i]]);
        AddWord(prod + i, 1, W32);
        ghost var was := out[..];
        out[At(p, RING)] := d[i];
        assert out[..] == was[At(cons + n, RING) := d[i]];
        assert Window(out[..], cons, n + 1) == Window(was, cons, n) + [d[i]];
        p := Add(p, 1, W32);
        assert d[..i + 1] == d[..i] + [d[i]];
        Regroup(old(Sent()), d[..i], [d[i]]);
      }
      outProd := p;
      prod := prod + |d|;
      assert d[..|d|] == d;
    }

    /** xencons_ring_send. Everything is sent, once there is room for it; what is sent goes to the end of the stream. */
    method RingSend(d: seq<char>) returns (sent: nat)
      requires RingOk() && |d| <= RING
      modifies out, this`outCons, this`cons, this`consumed, this`schedule, this`outProd, this`prod
      ensures RingOk() && sent <= |d| && Sent() == old(Sent()) + d[..sent]
      ensures sent < |d| ==> schedule == [] && RingFull()
      ensures |d| <= old(RING - (prod - cons)) ==> sent == |d|
      ensures |schedule| <= |old(schedule)| && prod == old(prod) + sent
      ensures old(schedule) == [] ==> cons == old(cons)
    {
      hide Word, At;
      sent := 0;
      assert d[..0] == [];
      while sent != |d|
        invariant RingOk() && sent <= |d| && Sent() == old(Sent()) + d[..sent]
        invariant |d| <= old(RING - (prod - cons)) ==> |d| - sent <= RING - (prod - cons)
        invariant |schedule| <= |old(schedule)| && prod == old(prod) + sent
        invariant old(schedule) == [] ==> cons == old(cons)
        decreases |d| - sent, |schedule|
      {
        var turns := |schedule|;
        Backend();
        SubWord(prod, cons, W32);
        var space := RING - Sub(outProd, outCons, W32);
        if space > 0 {
          var count := Least(space, |d| - sent);
          assert d[..sent + count] == d[..sent] + d[sent..sent + count];
          PutBytes(d[sent..sent + count]);
          sent := sent + count;
        } else if turns == 0 {
          return;
        }
      }
    }

    /** xencons_flush: waits until the backend has taken everything in the ring. */
    method RingFlush() returns (done: bool)
      requires RingOk()
      modifies this`outCons, this`cons, this`consumed, this`schedule
      ensures RingOk() && Sent() == old(Sent())
      ensures done ==> consumed == Sent()
      ensures !done ==> schedule == [] && cons < prod
    {
      hide At;
      while true
        invariant RingOk() && Sent() == old(Sent())
        decreases |schedule|
      {
        var turns := |schedule|;
        Backend();
        SubWord(prod, cons, W32);
        if outCons == outProd {
          assert Sub(outProd, outCons, W32) == 0;
          return true;
        }
        if turns == 0 { return false; }
      }
    }

    /** The call in consoleDoAll that moves the front of the buffer, for which the ring has room. */
    method Send(pos: nat, space: nat)
      requires Valid() && data != null && space <= RING - (prod - cons)
      requires pos == At(head, BUFFER) && pos + space <= BUFFER && space <= last - first
      modifies out, this`outCons, this`cons, this`consumed, this`schedule
      modifies this`outProd, this`prod, this`head, this`first
      ensures Valid() && Stream() == old(Stream()) && first == old(first) + space
      ensures |schedule| <= |old(schedule)| && prod == old(prod) + space
      ensures old(schedule) == [] ==> cons == old(cons)
    {
      hide Word, At, Sub, Add, Window;
      BufferWords(first, last);
      ghost var rest := Window(data[..], first + space, last - first - space);
      WindowFront(data[..], first, space, last - first);
      Regroup(Sent(), data[pos..pos + space], rest);
      assert data[pos..pos + space][..space] == data[pos..pos + space] == data[..][pos..pos + space];
      AddWord(first, space, W64);
      var sent := RingSend(data[pos..pos + space]);
      head := Add(head, sent, W64);
      first := first + sent;
      assert Buffered() == rest;
    }

    /** consoleDoAll: moves what fits of the buffer, up to its end, to the ring. */
    method DoAll()
      requires Valid()
      modifies out, this`outCons, this`cons, this`consumed, this`schedule
      modifies this`outProd, this`prod, this`head, this`first
      ensures Valid() && Stream() == old(Stream())
      ensures |schedule| <= |old(schedule)| && first >= old(first)
      ensures data != null && last > old(first) ==>
                |schedule| < |old(schedule)| || first > old(first) ||
                (schedule == [] && RingFull() && first == old(first))
    {
      hide Word, At, Sub, Add, Window;
      if data == null { return; }
      var pos, diff := At(head, BUFFER), Sub(tail, head, W64);
      BufferWords(first, last);
      if pos + diff > BUFFER { diff := BUFFER - pos; }
      if diff != 0 {
        var turns := |schedule|;
        Backend();
        SubWord(prod, cons, W32);
        var space := Least(RING - Sub(outProd, outCons, W32), diff);
        Send(pos, space);
      }
    }

    /** One pass of console_buffer_send: what fits is copied behind the tail, up to the end of the buffer. */
    method CopyIn(d: seq<char>) returns (n: nat)
      requires Valid() && data != null && d != [] && last - first < BUFFER
      modifies data, this`tail, this`last
      ensures Valid() && 0 < n <= |d| && Stream() == old(Stream()) + d[..n] && last == old(last) + n
    {
      hide Word, At, Sub, Add, Window, Replaced;
      BufferWords(first, last);
      var end := Least(|d|, BUFFER - Sub(tail, head, W64));
      var pos := At(tail, BUFFER);
      if pos + end > BUFFER { end := BUFFER - pos; }
      ghost var was := data[..];
      Store(d[..end], pos);
      WindowBlit(was, first, last - first, d[..end]);
      Regroup(Sent(), Window(was, first, last - first), d[..end]);
      AddWord(last, end, W64);
      tail := Add(tail, end, W64);
      last := last + end;
      n := end;
    }

    /** The copy of one chunk into the buffer. */
    method Store(d: seq<char>, pos: nat)
      requires data != null && pos + |d| <= data.Length
      modifies data
      ensures data[..] == Replaced(old(data[..]), pos, d)
    {
      forall i | 0 <= i < |d| { data[pos + i] := d[i]; }
    }

    /** console_buffer_send: everything goes to the end of the buffer, the front of which is moved on when it is
        full. */
    method BufferSend(d: seq<char>) returns (sent: nat)
      requires Valid() && data != null
      modifies out, data, this`outCons, this`cons, this`consumed, this`schedule, this`outProd, this`prod, this`head,
               this`first, this`tail, this`last
      ensures Valid() && sent <= |d| && Stream() == old(Stream()) + d[..sent]
      ensures sent < |d| ==> schedule == [] && RingFull() && BufferFull()
    {
      hide Word, At, Sub, Add, Window;
      sent := 0;
      assert d[..0] == [];
      while sent < |d|
        invariant Valid() && sent <= |d| && Stream() == old(Stream()) + d[..sent]
        decreases |d| - sent, |schedule|, last - first
      {
        BufferWords(first, last);
        if BUFFER - Sub(tail, head, W64) == 0 {
          var turns, before := |schedule|, head;
          ghost var f := first;
          DoAll();
          if turns == 0 && head == before {
            SameWord(f, first);
            return;
          }
        } else {
          var n := CopyIn(d[sent..]);
          assert d[..sent + n] == d[..sent] + d[sent..][..n];
          Regroup(old(Stream()), d[..sent], d[sent..][..n]);
          sent := sent + n;
        }
      }
    }

    /** consoleFlush: waits until the backend has received everything that was printed. */
    method Flush() returns (done: bool)
      requires Valid()
      modifies out, this`outCons, this`cons, this`consumed, this`schedule
      modifies this`outProd, this`prod, this`head, this`first
      ensures Valid() && Stream() == old(Stream())
      ensures done ==> consumed == Stream()
      ensures !done ==> schedule == [] && |consumed| < |Stream()|
    {
      hide Word, At, Sub, Add, Window;
      if data != null {
        BufferWords(first, last);
        while Sub(tail, head, W64) != 0
          invariant Valid() && Stream() == old(Stream()) && Sub(tail, head, W64) == last - first
          decreases |schedule|, last - first
        {
          var turns, before := |schedule|, head;
          ghost var f := first;
          DoAll();
          BufferWords(first, last);
          if turns == 0 && head == before {
            SameWord(f, first);
            return false;
          }
        }
      }
      assert Buffered() == [];
      done := RingFlush();
    }

    /** consolePrintDestination. Without a buffer the ring takes at most its own size at a time. */
    method PrintDestination(d: seq<char>) returns (sent: nat)
      requires Valid() && (data == null ==> |d| <= RING)
      modifies out, data, this`outCons, this`cons, this`consumed, this`schedule, this`outProd, this`prod, this`head,
               this`first, this`tail, this`last
      ensures Valid() && sent <= |d| && Stream() == old(Stream()) + d[..sent]
      ensures sent < |d| ==> Stalled()
    {
      hide Word, At, Sub, Add, Window;
      if data != null {
        sent := BufferSend(d);
      } else {
        sent := RingSend(d);
      }
    }

    /** Nothing can move until the backend takes something. */
    ghost predicate Stalled() reads this { schedule == [] && RingFull() && (data != null ==> BufferFull()) }

    /** One piece of a text, of which `sent` went before, onto a stream that was `base` then. */
    method Piece(d: seq<char>, ghost base: seq<char>, ghost sent: seq<char>) returns (ok: bool, ghost now: seq<char>)
      requires Valid() && (data == null ==> |d| <= RING) && Stream() == base + sent
      modifies out, data, this`outCons, this`cons, this`consumed, this`schedule, this`outProd, this`prod, this`head,
               this`first, this`tail, this`last
      ensures Valid() && now <= sent + d && Stream() == base + now
      ensures if ok then now == sent + d else Stalled()
    {
      hide Word, At, Sub, Add, Window;
      var n := PrintDestination(d);
      ok, now := n == |d|, sent + d[..n];
      assert d[..|d|] == d;
      Regroup(base, sent, d[..n]);
    }

    /** consolePrint: what is printed goes to the end of the stream with each newline preceded by a carriage return. If
        the schedule ends while the call waits, a part of it has. */
    method Print(d: seq<char>) returns (done: bool, ghost sent: seq<char>)
      requires Valid() && (data == null ==> RunsFit(d))
      modifies out, data, this`outCons, this`cons, this`consumed, this`schedule, this`outProd, this`prod, this`head,
               this`first, this`tail, this`last
      ensures Valid() && Stream() == old(Stream()) + sent && sent <= Crlf(d)
      ensures done ==> sent == Crlf(d)
      ensures !done ==> Stalled()
    {
      hide Crlf, Word, At, Sub, Add, Window;
      sent := [];
      CrlfNone();
      ghost var base := Stream();
      var restart := 0;
      for i := 0 to |d|
        invariant Valid() && restart <= i && Stream() == base + sent && sent == Crlf(d[..restart])
        invariant '\n' !in d[restart..i]
      {
        if d[i] == '\n' {
          CrlfRun(d, restart, i);
          if i - restart != 0 {
            done, sent := Piece(d[restart..i], base, sent);
            if !done {
              PrefixTrans(sent, Crlf(d[..i]), Crlf(d));
              return;
            }
          }
          CrlfNewline(d, i);
          done, sent := Piece(['\r', '\n'], base, sent);
          if !done {
            PrefixTrans(sent, Crlf(d[..i + 1]), Crlf(d));
            return;
          }
          restart := i + 1;
        }
      }
      CrlfRun(d, restart, |d|);
      assert d[..|d|] == d;
      if restart < |d| {
        done, sent := Piece(d[restart..|d|], base, sent);
        if !done { return; }
      }
      done := true;
    }
  }

  /** The bytes printed for a text. */
  function Crlf(d: seq<char>): seq<char> {
    if d == [] then [] else (if d[0] == '\n' then ['\r', '\n'] else [d[0]]) + Crlf(d[1..])
  }

  /** Takes the carriage return before each newline away. */
  function Strip(d: seq<char>): seq<char> {
    if d == [] then []
    else if d[0] == '\r' && |d| > 1 && d[1] == '\n' then ['\n'] + Strip(d[2..])
    else [d[0]] + Strip(d[1..])
  }

  /** No text is lost or confused with another on the way: the text is what is printed less the added bytes. */
  lemma {:induction false} StripCrlf(d: seq<char>)
    ensures Strip(Crlf(d)) == d
  {
    if d != [] {
      StripCrlf(d[1..]);
      var c := Crlf(d);
      var rest := Crlf(d[1..]);
      if d[0] == '\n' {
        assert c[2..] == rest;
      } else {
        assert c[1..] == rest;
        if |d| > 1 { assert rest[0] == if d[1] == '\n' then '\r' else d[1]; }
        assert d[0] == '\r' ==> |c| == 1 || c[1] != '\n';
      }
    }
  }

  lemma {:induction false} CrlfAppend(a: seq<char>, b: seq<char>)
    ensures Crlf(a + b) == Crlf(a) + Crlf(b)
  {
    if a == [] {
      assert a + b == b;
    } else {
      assert (a + b)[1..] == a[1..] + b;
      CrlfAppend(a[1..], b);
    }
  }

  lemma {:induction false} CrlfPlain(d: seq<char>)
    requires '\n' !in d
    ensures Crlf(d) == d
  {
    if d != [] { CrlfPlain(d[1..]); }
  }

  lemma CrlfNone()
    ensures forall d: seq<char> :: Crlf(d[..0]) == []
  {
  }

  /** Printing goes on from one run without newline to the next. */
  lemma CrlfRun(d: seq<char>, from: nat, to: nat)
    requires from <= to <= |d| && '\n' !in d[from..to]
    ensures Crlf(d[..to]) == Crlf(d[..from]) + d[from..to]
    ensures Crlf(d[..to]) <= Crlf(d)
  {
    hide Crlf;
    Pieces(d, from, to);
    CrlfAppend(d[..from], d[from..to]);
    CrlfPlain(d[from..to]);
    CrlfAppend(d[..to], d[to..]);
  }

  lemma Pieces(d: seq<char>, from: nat, to: nat)
    requires from <= to <= |d|
    ensures d[..to] == d[..from] + d[from..to] && d == d[..to] + d[to..]
  {
  }

  lemma CrlfOne()
    ensures Crlf(['\n']) == ['\r', '\n']
  {
    assert ['\n'][1..] == [];
  }

  lemma CrlfNewline(d: seq<char>, i: nat)
    requires i < |d| && d[i] == '\n'
    ensures Crlf(d[..i + 1]) == Crlf(d[..i]) + ['\r', '\n']
    ensures Crlf(d[..i + 1]) <= Crlf(d)
  {
    hide Crlf;
    var a, b := d[..i], d[i + 1..];
    CrlfOne();
    CrlfAppend(a, ['\n']);
    CrlfAppend(d[..i + 1], b);
    assert d[..i + 1] == a + ['\n'];
    assert d == d[..i + 1] + b;
  }

  /** Every run without newline fits the ring. */
  ghost predicate RunsFit(d: seq<char>) {
    forall i, j :: 0 <= i <= j <= |d| && '\n' !in d[i..j] ==> j - i <= RING
  }
}
