/** The messages of XenStore as they lie in the rings of xen/xenbus.c: a header of four little-endian 32-bit words, the
    last of which is the length of the bytes that follow. */
module XenStore {
  import opened Arith

  type byte = x: int | 0 <= x < 256

  const HEADER: nat := 16
  const WATCH_EVENT: nat := 15

  datatype Msg = Msg(ty: nat, req: nat, tx: nat, body: seq<byte>)

  /** The message is a watch event, XS_WATCH_EVENT. */
  predicate IsWatch(m: Msg) { m.ty == 15 }

  ghost predicate MsgOk(m: Msg) { m.ty < W32 && m.req < W32 && m.tx < W32 && |m.body| < W32 }

  function Bytes4(n: nat): (b: seq<byte>)
    requires n < W32
    ensures |b| == 4
  {
    [n % 256, n / 256 % 256, n / 0x1_0000 % 256, n / 0x100_0000]
  }

  function Word4(b: seq<byte>): (n: nat)
    requires |b| == 4
    ensures n < W32
  {
    b[0] as int + 256 * (b[1] as int) + 0x1_0000 * (b[2] as int) + 0x100_0000 * (b[3] as int)
  }

  lemma WordOfBytes(n: nat)
    requires n < W32
    ensures Word4(Bytes4(n)) == n
  {
    var a := n / 256;
    var b := n / 0x1_0000;
    var c := n / 0x100_0000;
    assert n == 256 * a + n % 256;
    assert b == a / 256 && a == 256 * b + a % 256;
    assert c == b / 256 && b == 256 * c + b % 256;
  }

  function Header(ty: nat, req: nat, tx: nat, len: nat): (h: seq<byte>)
    requires ty < W32 && req < W32 && tx < W32 && len < W32
    ensures |h| == HEADER
  {
    Bytes4(ty) + Bytes4(req) + Bytes4(tx) + Bytes4(len)
  }

  function Frame(m: Msg): seq<byte> requires MsgOk(m) { Header(m.ty, m.req, m.tx, |m.body|) + m.body }

  ghost predicate AllOk(ms: seq<Msg>) { forall m :: m in ms ==> MsgOk(m) }

  ghost function Frames(ms: seq<Msg>): seq<byte> requires AllOk(ms) {
    if ms == [] then [] else Frame(ms[0]) + Frames(ms[1..])
  }

  function LenOf(s: seq<byte>): (n: nat) requires |s| >= HEADER { Word4(s[12..16]) }

  /** A whole message lies at the front. */
  predicate Complete(s: seq<byte>) { |s| >= HEADER && |s| >= HEADER + LenOf(s) }

  function FirstMsg(s: seq<byte>): (m: Msg)
    requires Complete(s)
  {
    Msg(Word4(s[..4]), Word4(s[4..8]), Word4(s[8..12]), s[HEADER..HEADER + LenOf(s)])
  }

  /** The message read is the one whose frame lies at the front. */
  lemma FirstIsFrame(s: seq<byte>)
    requires Complete(s)
    ensures MsgOk(FirstMsg(s)) && s[..HEADER + LenOf(s)] == Frame(FirstMsg(s))
  {
    BytesOfWord(s[..4]);
    BytesOfWord(s[4..8]);
    BytesOfWord(s[8..12]);
    BytesOfWord(s[12..16]);
  }

  lemma BytesOfWord(b: seq<byte>)
    requires |b| == 4
    ensures Bytes4(Word4(b)) == b
  {
    var n := Word4(b);
    var x: int := b[1] as int + 256 * (b[2] as int) + 0x1_0000 * (b[3] as int);
    var y: int := b[2] as int + 256 * (b[3] as int);
    assert n == 256 * x + b[0] && x == 256 * y + b[1];
    assert n % 256 == b[0] && n / 256 == x && x % 256 == b[1];
    assert n / 0x1_0000 == x / 256 == y && y % 256 == b[2];
    assert n / 0x100_0000 == y / 256 == b[3];
  }

  lemma FrameIsFirst(m: Msg, rest: seq<byte>)
    requires MsgOk(m)
    ensures |Frame(m)| == HEADER + |m.body|
    ensures Complete(Frame(m) + rest) && FirstMsg(Frame(m) + rest) == m && HEADER + LenOf(Frame(m) + rest) == |Frame(m)|
    ensures (Frame(m) + rest)[|Frame(m)|..] == rest
  {
    hide Bytes4, Word4;
    var s := Frame(m) + rest;
    WordOfBytes(m.ty);
    WordOfBytes(m.req);
    WordOfBytes(m.tx);
    WordOfBytes(|m.body|);
    assert s[..4] == Bytes4(m.ty) && s[4..8] == Bytes4(m.req);
    assert s[8..12] == Bytes4(m.tx) && s[12..16] == Bytes4(|m.body|);
  }

  /** The whole messages in a run of bytes, and what is left. */
  ghost function Parse(s: seq<byte>): (p: (seq<Msg>, seq<byte>))
    ensures AllOk(p.0)
    decreases |s|
  {
    if !Complete(s) then ([], s)
    else
      FirstIsFrame(s);
      var p := Parse(s[HEADER + LenOf(s)..]);
      ([FirstMsg(s)] + p.0, p.1)
  }

  /** Nothing is lost: the messages' frames and the rest are the bytes. */
  lemma {:induction false} ParseIsAll(s: seq<byte>)
    ensures Frames(Parse(s).0) + Parse(s).1 == s && !Complete(Parse(s).1)
    decreases |s|
  {
    hide FirstMsg, LenOf, Frame, Complete;
    if Complete(s) {
      FirstIsFrame(s);
      var n := NextAt(s);
      ParseIsAll(s[n..]);
      assert s == s[..n] + s[n..];
      var p := Parse(s[n..]);
      assert ([FirstMsg(s)] + p.0)[1..] == p.0;
    }
  }

  function NextAt(s: seq<byte>): (n: nat)
    requires Complete(s)
    ensures HEADER <= n <= |s| && n == HEADER + LenOf(s)
  {
    HEADER + LenOf(s)
  }

  /** Messages sent are the messages read, whatever incomplete bytes follow them. */
  lemma {:induction false} ParseFrames(ms: seq<Msg>, rest: seq<byte>)
    requires AllOk(ms) && !Complete(rest)
    ensures Parse(Frames(ms) + rest) == (ms, rest)
    decreases |ms|
  {
    hide FirstMsg, LenOf, Frame, Complete;
    if ms == [] {
      assert Frames(ms) + rest == rest;
    } else {
      var tail := Frames(ms[1..]) + rest;
      assert Frames(ms) + rest == Frame(ms[0]) + tail;
      FrameIsFirst(ms[0], tail);
      ParseFrames(ms[1..], rest);
      assert [ms[0]] + ms[1..] == ms;
    }
  }

  /** Reading in two goes, with what was left before the new bytes, reads what one go over all of them reads. */
  lemma {:induction false} ParseChunks(a: seq<byte>, b: seq<byte>)
    ensures Parse(a + b) == (Parse(a).0 + Parse(Parse(a).1 + b).0, Parse(Parse(a).1 + b).1)
    decreases |a|
  {
    hide FirstMsg, LenOf, Complete;
    if Complete(a) {
      var n := NextAt(a);
      FrontComplete(a, b);
      assert (a + b)[n..] == a[n..] + b;
      ParseChunks(a[n..], b);
      var q := Parse(Parse(a).1 + b);
      assert [FirstMsg(a)] + (Parse(a[n..]).0 + q.0) == ([FirstMsg(a)] + Parse(a[n..]).0) + q.0;
    } else {
      assert [] + Parse(a + b).0 == Parse(a + b).0;
    }
  }

  lemma FrontComplete(a: seq<byte>, b: seq<byte>)
    requires Complete(a)
    ensures Complete(a + b) && LenOf(a + b) == LenOf(a) && FirstMsg(a + b) == FirstMsg(a)
  {
    assert (a + b)[..4] == a[..4] && (a + b)[4..8] == a[4..8];
    assert (a + b)[8..12] == a[8..12] && (a + b)[12..16] == a[12..16];
    assert (a + b)[HEADER..HEADER + LenOf(a)] == a[HEADER..HEADER + LenOf(a)];
  }

  lemma {:induction false} FramesAppend(a: seq<Msg>, b: seq<Msg>)
    requires AllOk(a) && AllOk(b)
    ensures AllOk(a + b) && Frames(a + b) == Frames(a) + Frames(b)
  {
    hide Frame;
    if a == [] {
      assert a + b == b;
    } else {
      assert (a + b)[1..] == a[1..] + b && (a + b)[0] == a[0];
      FramesAppend(a[1..], b);
      assert AllOk(a + b);
    }
  }

  /** Bytes of some messages that start with the frames of others start with those messages. */
  lemma {:induction false} FramesPrefix(a: seq<Msg>, rest: seq<byte>, b: seq<Msg>)
    requires AllOk(a) && AllOk(b) && Frames(a) + rest == Frames(b)
    ensures a <= b
  {
    hide Frame, FirstMsg, Complete, LenOf;
    if a != [] {
      assert Frames(a) + rest == Frame(a[0]) + (Frames(a[1..]) + rest);
      FrameIsFirst(a[0], Frames(a[1..]) + rest);
      assert |Frames(b)| > 0;
      FrameIsFirst(b[0], Frames(b[1..]));
      FramesPrefix(a[1..], rest, b[1..]);
      assert a == [a[0]] + a[1..] && b == [b[0]] + b[1..];
    }
  }
}
