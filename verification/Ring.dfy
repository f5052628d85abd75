/** Circular buffers addressed by free-running counters, and the machine words that hold the counters. */
module Ring {
  import opened Arith

  /** The slot of a counter in a buffer of `size` slots. */
  function At(p: nat, size: nat): (i: nat)
    requires size > 0
    ensures i < size
  {
    p % size
  }

  /** The counter and its slot differ by whole turns of the buffer. */
  lemma SlotIs(q: nat, i: nat, size: nat)
    requires i < size
    ensures At(size * q + i, size) == i
  {
    DivModUnique(size * q + i, size, q, i);
  }

  /** The word that holds a counter, and words added and subtracted. */
  function Word(p: nat, w: nat): (x: nat)
    requires w > 0
    ensures x < w
  {
    p % w
  }

  /** The counter and its word differ by whole ranges of words. */
  lemma WordIs(q: nat, x: nat, w: nat)
    requires x < w
    ensures Word(w * q + x, w) == x
  {
    DivModUnique(w * q + x, w, q, x);
  }

  function Add(x: nat, n: nat, w: nat): (y: nat)
    requires w > 0
    ensures y < w
  {
    (x + n) % w
  }

  function Sub(x: nat, y: nat, w: nat): (d: nat)
    requires w > 0
    ensures d < w
  {
    (x - y) % w
  }

  lemma AddWord(p: nat, n: nat, w: nat)
    requires w > 0
    ensures Add(Word(p, w), n, w) == Word(p + n, w)
  {
    AddMultiple(p % w + n, w, p / w);
    assert p + n == p % w + n + w * (p / w);
  }

  lemma AddZero(p: nat, w: nat)
    requires w > 0
    ensures Word(p + 0, w) == Word(p, w)
  {
  }

  /** The difference of two words is the distance of their counters, if that is less than the range of words. */
  lemma SubWord(p: nat, c: nat, w: nat)
    requires w > 0 && c <= p < c + w
    ensures Sub(Word(p, w), Word(c, w), w) == p - c
  {
    var x, y := p % w, c % w;
    var a, b := p / w, c / w;
    assert p == w * a + x && c == w * b + y;
    assert w * (b - a) == w * b - w * a;
    DivModUnique(x - y, w, b - a, p - c);
  }

  /** A word gives the slot of its counter when the size divides the range of words. */
  lemma WordAt(p: nat, k: nat, size: nat)
    requires k > 0 && size > 0
    ensures k * size > 0 && At(Word(p, k * size), size) == At(p, size)
  {
    ModMod(p, k, size);
  }

  /** Slots of counters less than a turn apart are different. */
  lemma AtApart(p: nat, q: nat, size: nat)
    requires size > 0 && p < q < p + size
    ensures At(p, size) != At(q, size)
  {
    if p % size == q % size {
      assert p == size * (p / size) + p % size && q == size * (q / size) + q % size;
      assert q - p == size * (q / size - p / size) by {
        assert size * (q / size - p / size) == size * (q / size) - size * (p / size);
      }
      SmallMultiple(size, q / size - p / size);
    }
  }

  /** Within the run up to the end of the buffer slots follow one another. */
  lemma AtNext(p: nat, n: nat, size: nat)
    requires size > 0 && At(p, size) + n < size
    ensures At(p + n, size) == At(p, size) + n
  {
    assert p + n == size * (p / size) + (p % size + n);
    DivModUnique(p + n, size, p / size, p % size + n);
  }

  function Least(a: nat, b: nat): nat { if a <= b then a else b }

  lemma Regroup<T>(a: seq<T>, b: seq<T>, c: seq<T>)
    ensures a + (b + c) == (a + b) + c
  {
  }

  /** The n items from counter `from` on. */
  ghost function Window<T>(buf: seq<T>, from: nat, n: nat): (w: seq<T>)
    requires |buf| > 0
    ensures |w| == n
  {
    seq(n, (i: nat) => buf[At(from + i, |buf|)])
  }

  lemma WindowSplit<T>(buf: seq<T>, from: nat, m: nat, n: nat)
    requires |buf| > 0
    ensures Window(buf, from, m + n) == Window(buf, from, m) + Window(buf, from + m, n)
  {
    hide At;
  }

  /** One item written behind a window that is not full. */
  lemma WindowPut<T>(buf: seq<T>, from: nat, n: nat, x: T)
    requires |buf| > 0 && n < |buf|
    ensures Window(buf[At(from + n, |buf|) := x], from, n + 1) == Window(buf, from, n) + [x]
  {
    hide At;
    var w := Window(buf[At(from + n, |buf|) := x], from, n + 1);
    forall i | 0 <= i < n + 1 ensures w[i] == (Window(buf, from, n) + [x])[i] {
      if i < n { AtApart(from + i, from + n, |buf|); }
    }
  }

  /** A window that does not pass the end of the buffer is a slice of it. */
  lemma WindowSlice<T>(buf: seq<T>, from: nat, n: nat)
    requires |buf| > 0 && At(from, |buf|) + n <= |buf|
    ensures Window(buf, from, n) == buf[At(from, |buf|)..At(from, |buf|) + n]
  {
    hide At;
    forall i | 0 <= i < n ensures Window(buf, from, n)[i] == buf[At(from, |buf|)..At(from, |buf|) + n][i] {
      AtNext(from, i, |buf|);
    }
  }

  lemma WindowFront<T>(buf: seq<T>, from: nat, n: nat, m: nat)
    requires |buf| > 0 && At(from, |buf|) + n <= |buf| && n <= m
    ensures Window(buf, from, m) == buf[At(from, |buf|)..At(from, |buf|) + n] + Window(buf, from + n, m - n)
  {
    WindowSlice(buf, from, n);
    WindowSplit(buf, from, n, m - n);
  }

  /** A buffer with a slice replaced. */
  ghost function Replaced<T>(buf: seq<T>, at: nat, d: seq<T>): (r: seq<T>)
    requires at + |d| <= |buf|
    ensures |r| == |buf|
    ensures forall i :: 0 <= i < |buf| ==> r[i] == if at <= i < at + |d| then d[i - at] else buf[i]
  {
    buf[..at] + d + buf[at + |d|..]
  }

  /** A chunk copied behind a window, in one piece, where there is room for it. */
  lemma WindowBlit<T>(buf: seq<T>, from: nat, n: nat, d: seq<T>)
    requires |buf| > 0 && n + |d| <= |buf| && At(from + n, |buf|) + |d| <= |buf|
    ensures Window(Replaced(buf, At(from + n, |buf|), d), from, n + |d|) == Window(buf, from, n) + d
  {
    hide At, Replaced;
    var r := Replaced(buf, At(from + n, |buf|), d);
    var w := Window(r, from, n + |d|);
    forall i | 0 <= i < n + |d| ensures w[i] == (Window(buf, from, n) + d)[i] {
      if i < n { BlitMisses(from, n, i, |d|, |buf|); } else { AtNext(from + n, i - n, |buf|); }
    }
  }

  lemma BlitMisses(from: nat, n: nat, i: nat, len: nat, size: nat)
    requires i < n && n + len <= size && At(from + n, size) + len <= size
    ensures !(At(from + n, size) <= At(from + i, size) < At(from + n, size) + len)
  {
    hide At;
    var j := At(from + i, size) - At(from + n, size);
    if 0 <= j < len {
      AtNext(from + n, j, size);
      AtApart(from + i, from + n + j, size);
    }
  }
}
