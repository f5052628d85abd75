/** The monotonic clock of arch/x86_64/time.c: the time stamp counter, scaled, on top of the last snapshot that the
    hypervisor published. A snapshot is the counter, the system time, the multiplier and the shift. */
module Clock {
  import opened Arith
  import opened SeqLock

  function U64(x: int): (r: nat) ensures r < W64 { x % W64 }

  function U32(x: int): (r: nat) ensures r < W32 { x % W32 }

  /** _scaleDelta, in 64 bits: the shift loses bits off either end, the product has 128 bits and loses its lowest 32. */
  function ScaleDelta(delta: nat, mul: nat, shift: int): nat {
    var d := if shift < 0 then Quotient(delta, Pow2(-shift)) else U64(delta * Pow2(shift));
    U64(d * mul / W32)
  }

  /** What it stands for. */
  function Scaled(delta: nat, mul: nat, shift: int): nat { Shifted(delta, shift) * mul / W32 }

  function Shifted(delta: nat, shift: int): nat {
    if shift < 0 then Quotient(delta, Pow2(-shift)) else delta * Pow2(shift)
  }

  function Quotient(a: nat, n: nat): nat requires n > 0 { a / n }

  /** A shift to the right divides by the k-fold double of 1 and drops the rest, a shift to the left multiplies by it;
      what is scaled is the product by a fraction of 2^32, without its rest. */
  lemma ScaledIs(delta: nat, mul: nat, shift: int)
    ensures
      var d, n := Shifted(delta, shift), Scaled(delta, mul, shift);
      && (shift < 0 ==> Pow2(-shift) * d <= delta < Pow2(-shift) * (d + 1))
      && (shift >= 0 ==> d == delta * Pow2(shift))
      && 0x1_0000_0000 * n <= d * mul < 0x1_0000_0000 * (n + 1)
  {
    hide Pow2;
    if shift < 0 { QuotientIs(delta, Pow2(-shift)); }
    QuotientIs(Shifted(delta, shift) * mul, W32);
  }

  lemma QuotientIs(a: nat, n: nat)
    requires n > 0
    ensures n * Quotient(a, n) <= a < n * (Quotient(a, n) + 1)
  {
    var q := a / n;
    assert a == n * q + a % n;
    assert n * (q + 1) == n * q + n;
  }

  /** When the shift to the left does lose bits, they are those from 2^64 on; the product has room in any case. */
  lemma ScaleLosesHighBits(delta: nat, mul: nat, shift: int)
    requires delta < 0x1_0000_0000_0000_0000 && mul < 0x1_0000_0000 && shift >= 0
    ensures
      var d := delta * Pow2(shift) % 0x1_0000_0000_0000_0000;
      var n := ScaleDelta(delta, mul, shift);
      0x1_0000_0000 * n <= d * mul < 0x1_0000_0000 * (n + 1)
  {
    hide Pow2;
    var d := U64(delta * Pow2(shift));
    ProductBound(d, mul);
    QuotientIs(d * mul, W32);
  }

  /** The product never overflows; the scaled value is exact unless the shift to the left loses bits. */
  lemma ScaleExact(delta: nat, mul: nat, shift: int)
    requires delta < W64 && mul < W32 && Shifted(delta, shift) < W64
    ensures ScaleDelta(delta, mul, shift) == Scaled(delta, mul, shift)
  {
    hide Pow2;
    var d := Shifted(delta, shift);
    ProductBound(d, mul);
    assert U64(d) == d;
  }

  lemma ProductBound(d: nat, mul: nat)
    requires d < W64 && mul < W32
    ensures d * mul / W32 < W64
  {
    assert d * mul <= d * W32 by { MulMono(mul, W32, d); }
    assert d * W32 < W64 * W32;
  }

  lemma MulMono(a: nat, b: nat, m: nat)
    requires a <= b
    ensures a * m <= b * m && m * a <= m * b
  {
  }

  lemma DivMono(a: nat, b: nat, n: nat)
    requires a <= b && n > 0
    ensures a / n <= b / n
  {
    var q, p := a / n, b / n;
    assert a == n * q + a % n && b == n * p + b % n;
    assert n * (p + 1) == n * p + n;
    if q > p { MulMono(p + 1, q, n); }
  }

  lemma ScaledMonotone(a: nat, b: nat, mul: nat, shift: int)
    requires a <= b
    ensures Scaled(a, mul, shift) <= Scaled(b, mul, shift)
  {
    hide Pow2;
    if shift < 0 { DivMono(a, b, Pow2(-shift)); } else { MulMono(a, b, Pow2(shift)); }
    MulMono(Shifted(a, shift), Shifted(b, shift), mul);
    DivMono(Shifted(a, shift) * mul, Shifted(b, shift) * mul, W32);
  }

  ghost predicate SnapOk(s: seq<int>) {
    |s| == 4 && 0 <= s[0] < W64 && 0 <= s[1] < W64 && 0 <= s[2] < W32 && -64 < s[3] < 64
  }

  /** What timeMonotonic computes from a snapshot and a reading of the counter, as a signed 64-bit number. */
  function TimeFrom(s: seq<int>, tsc: nat): int requires |s| == 4 {
    var sum := U64(s[1] + ScaleDelta(U64(tsc - s[0]), U32(s[2]), s[3]));
    if sum < W64 / 2 then sum else sum - W64
  }

  /** It is the signed 64-bit number that the sum of the snapshot's time and the scaled difference wraps to; the
      difference of the counters wraps too. */
  lemma TimeWraps(s: seq<int>, tsc: nat)
    requires SnapOk(s)
    ensures
      var t := TimeFrom(s, tsc);
      && -0x8000_0000_0000_0000 <= t < 0x8000_0000_0000_0000
      && (s[1] + ScaleDelta((tsc - s[0]) % 0x1_0000_0000_0000_0000, s[2], s[3]) - t) % 0x1_0000_0000_0000_0000 == 0
  {
    hide ScaleDelta;
    var sum := s[1] + ScaleDelta(U64(tsc - s[0]), s[2], s[3]);
    SubtractWrapped(sum, W64);
    AddMultiple(sum - U64(sum), W64, 1);
  }

  lemma SubtractWrapped(x: int, n: int)
    requires n > 0
    ensures (x - x % n) % n == 0
  {
    DivModUnique(x - x % n, n, x / n, 0);
  }

  /** The snapshot's time carried on to a later counter. */
  function Extrapolated(s: seq<int>, tsc: nat): int requires |s| == 4 && s[0] <= tsc && s[2] >= 0 {
    s[1] + Scaled(tsc - s[0], s[2], s[3])
  }

  /** Nothing overflows on the way. */
  ghost predicate Fits(s: seq<int>, tsc: nat) {
    SnapOk(s) && s[0] <= tsc < W64 && Shifted(tsc - s[0], s[3]) < W64 && Extrapolated(s, tsc) < W64 / 2
  }

  lemma TimeIsExtrapolated(s: seq<int>, tsc: nat)
    requires Fits(s, tsc)
    ensures TimeFrom(s, tsc) == Extrapolated(s, tsc)
  {
    hide Shifted, Scaled, ScaleDelta;
    ScaleExact(tsc - s[0], s[2], s[3]);
  }

  /** A reading: which snapshot was used, and the counter. */
  datatype Reading = Reading(k: nat, tsc: nat)

  /** The counter was read between the stamps of the snapshot and of the next one. */
  ghost predicate ReadingOk(l: Lock, r: Reading) {
    r.k < |l.hist| && |l.hist[r.k]| > 0 && l.hist[r.k][0] <= r.tsc <= l.clock &&
    (r.k + 1 < |l.hist| ==> |l.hist[r.k + 1]| > 0 && r.tsc <= l.hist[r.k + 1][0])
  }

  ghost predicate InOrder(l: Lock, rs: seq<Reading>) {
    (forall r :: r in rs ==> ReadingOk(l, r)) &&
    (forall i, j :: 0 <= i < j < |rs| ==> rs[i].k <= rs[j].k && rs[i].tsc <= rs[j].tsc)
  }

  /** Readings stay what they are while the hypervisor goes on. */
  lemma ReadingsKept(l: Lock, l': Lock, rs: seq<Reading>)
    requires Later(l, l') && l.timed && InOrder(l, rs)
    ensures InOrder(l', rs)
  {
    forall r | r in rs ensures ReadingOk(l', r) {
      assert ReadingOk(l, r);
      assert l'.hist[r.k] == l.hist[r.k];
      if r.k + 1 < |l.hist| { assert l'.hist[r.k + 1] == l.hist[r.k + 1]; }
    }
  }

  /** Each snapshot starts at or after the time the one before it is carried on to. */
  ghost predicate Continuous(hist: seq<seq<int>>) {
    (forall k :: 0 <= k < |hist| ==> SnapOk(hist[k])) &&
    (forall k :: 0 < k < |hist| ==> hist[k - 1][0] <= hist[k][0] && Extrapolated(hist[k - 1], hist[k][0]) <= hist[k][1])
  }

  /** So system times of later snapshots are beyond whatever was read off earlier ones. */
  lemma {:induction false} LaterSnapshots(hist: seq<seq<int>>, k: nat, m: nat, tsc: nat)
    requires Continuous(hist) && k < m < |hist| && hist[k][0] <= tsc <= hist[k + 1][0]
    ensures Extrapolated(hist[k], tsc) <= hist[m][1]
    decreases m
  {
    hide Scaled;
    var s := hist[k];
    assert hist[k + 1 - 1] == s;
    ScaledMonotone(tsc - s[0], hist[k + 1][0] - s[0], s[2], s[3]);
    if m > k + 1 {
      LaterSnapshots(hist, k, m - 1, tsc);
      assert Extrapolated(hist[m - 1], hist[m][0]) <= hist[m][1];
    }
  }

  /** Of two readings the later gives a time not before the earlier's, if nothing overflows in either. */
  lemma TimeNeverDecreases(l: Lock, rs: seq<Reading>, i: nat, j: nat)
    requires Continuous(l.hist) && InOrder(l, rs) && i < j < |rs|
    requires rs[i].k < |l.hist| && rs[j].k < |l.hist|
    requires Fits(l.hist[rs[i].k], rs[i].tsc) && Fits(l.hist[rs[j].k], rs[j].tsc)
    ensures TimeFrom(l.hist[rs[i].k], rs[i].tsc) <= TimeFrom(l.hist[rs[j].k], rs[j].tsc)
  {
    hide Scaled, Shifted, ScaleDelta;
    var a, b := rs[i], rs[j];
    assert ReadingOk(l, a) && ReadingOk(l, b);
    var s, u := l.hist[a.k], l.hist[b.k];
    TimeIsExtrapolated(s, a.tsc);
    TimeIsExtrapolated(u, b.tsc);
    if a.k == b.k {
      ScaledMonotone(a.tsc - s[0], b.tsc - s[0], s[2], s[3]);
    } else {
      LaterSnapshots(l.hist, a.k, b.k, a.tsc);
    }
  }

  class Clock {
    const time: SeqLock
    const wall: SeqLock
    /** The number of the snapshot the guest has, and what timeMonotonic returned so far. */
    ghost var current: nat
    ghost var readings: seq<Reading>
    /** The number of the wall clock's snapshot the guest has. */
    ghost var wallCurrent: nat

    ghost predicate Valid() reads this, time, wall {
      Parts() && HasCopy() && time.lock.ver < 2 * current + 0x4000_0000 &&
      HasWall() && wall.lock.ver < 2 * wallCurrent + 0x4000_0000 &&
      InOrder(time.lock, readings) && (forall r :: r in readings ==> r.k <= current)
    }

    ghost predicate Parts() reads this, time, wall {
      time != wall && time.Valid() && wall.Valid() && time.lock.timed && |time.lock.fields| == 4
    }

    /** The guest's copy is a snapshot that was published whole. */
    ghost predicate HasCopy() reads this, time {
      current < |time.lock.hist| && time.shadow == time.lock.hist[current] && |time.shadow| == 4 &&
      time.shadowVersion == Word(2 * current) && 2 * current <= time.lock.ver
    }

    /** So is the guest's copy of the wall clock. */
    ghost predicate HasWall() reads this, wall {
      wallCurrent < |wall.lock.hist| && wall.shadow == wall.lock.hist[wallCurrent] &&
      wall.shadowVersion == Word(2 * wallCurrent) && 2 * wallCurrent <= wall.lock.ver
    }

    /** Before the first update the page and the copy are both zero. */
    constructor (t: SeqLock, w: SeqLock, tsc: nat)
      requires t != w && t.Valid() && w.Valid() && t.lock == Lock(0, [0, 0, 0, 0], [[0, 0, 0, 0]], tsc, true)
      requires t.shadow == [0, 0, 0, 0] && t.shadowVersion == 0
      requires w.lock.ver == 0 && w.lock.hist == [w.shadow] && w.shadowVersion == 0
      ensures Valid() && time == t && wall == w && readings == []
    {
      time, wall, current, readings, wallCurrent := t, w, 0, [], 0;
    }

    /** The schedule ends within an update. */
    ghost predicate Updating(l: SeqLock) reads l { l.schedule == [] && !Quiet(l.lock) }

    /** _timeUpdate: a copy whose version is not the page's is renewed, of the time and then of the wall clock. */
    method TimeUpdate() returns (done: bool)
      requires Parts() && HasCopy() && time.lock.ver + Steps(time.schedule) < 2 * current + 0x8000_0000
      requires HasWall() && wall.lock.ver + Steps(wall.schedule) < 2 * wallCurrent + 0x8000_0000
      modifies time, wall, this`current, this`wallCurrent
      ensures Parts() && Later(old(time.lock), time.lock)
      ensures time.lock.ver + Steps(time.schedule) <= old(time.lock.ver) + Steps(old(time.schedule))
      ensures done ==> HasCopy() && time.lock.ver == 2 * current && |time.lock.hist| == current + 1
      ensures done ==> current >= old(current)
      ensures done && current == old(current) ==> time.shadowVersion == old(time.shadowVersion)
      ensures done ==> HasWall() && wall.lock.ver == 2 * wallCurrent && |wall.lock.hist| == wallCurrent + 1
      ensures done ==> wallCurrent >= old(wallCurrent)
      ensures wall.lock.ver + Steps(wall.schedule) <= old(wall.lock.ver) + Steps(old(wall.schedule))
      ensures |time.schedule| <= |old(time.schedule)|
      ensures (old(time.schedule) != [] ==> |time.schedule| < |old(time.schedule)|)
      ensures old(time.schedule) == [] ==> time.lock == old(time.lock)
      ensures !done ==> Updating(time) || Updating(wall)
    {
      hide LockOk, Later, Quiet, Current, Steps, Word;
      time.Turn();
      LaterFields(old(time.lock), time.lock);
      done := true;
      WordEqual(2 * current, time.lock.ver);
      if time.shadowVersion != Word(time.lock.ver) {
        ghost var before := time.lock;
        done := time.Update();
        LaterTrans(old(time.lock), before, time.lock);
        LaterFields(before, time.lock);
        if done { current := Current(time.lock); }
      }
      QuietVersion(time.lock);
      if done {
        QuietCopy(time.lock, current);
        done := WallUpdate();
      }
    }

    method WallUpdate() returns (done: bool)
      requires Parts() && HasWall() && wall.lock.ver + Steps(wall.schedule) < 2 * wallCurrent + 0x8000_0000
      modifies wall, this`wallCurrent
      ensures Parts()
      ensures wall.lock.ver + Steps(wall.schedule) <= old(wall.lock.ver) + Steps(old(wall.schedule))
      ensures done ==> HasWall() && wall.lock.ver == 2 * wallCurrent && |wall.lock.hist| == wallCurrent + 1
      ensures done ==> wallCurrent >= old(wallCurrent)
      ensures !done ==> Updating(wall)
    {
      hide LockOk, Later, Quiet, Current, Steps, Word;
      wall.Turn();
      LaterFields(old(wall.lock), wall.lock);
      done := true;
      WordEqual(2 * wallCurrent, wall.lock.ver);
      if wall.shadowVersion != Word(wall.lock.ver) {
        ghost var before := wall.lock;
        done := wall.Update();
        LaterFields(before, wall.lock);
        if done { wallCurrent := Current(wall.lock); }
      }
      QuietVersion(wall.lock);
      if done { QuietCopy(wall.lock, wallCurrent); }
    }

    /** timeMonotonic. The value is taken from the counter and a snapshot that was still the current one when it was
        compared with the page, after the counter was read. */
    method Monotonic(turns: seq<seq<Step>>, wallTurns: seq<seq<Step>>)
      returns (done: bool, value: int, ghost r: Reading)
      requires Valid() && Paced(turns) && Paced(wallTurns)
      modifies this, time, wall
      ensures Parts() && Later(old(time.lock), time.lock)
      ensures done ==> Valid() && readings == old(readings) + [r] && ReadingOk(time.lock, r)
      ensures done ==> |time.lock.hist[r.k]| == 4
      ensures done ==> r.tsc >= old(time.lock.clock) && value == TimeFrom(time.lock.hist[r.k], r.tsc)
      ensures done && Fits(time.lock.hist[r.k], r.tsc) ==> value == Extrapolated(time.lock.hist[r.k], r.tsc)
      ensures !done ==> readings == old(readings) && (Updating(time) || Updating(wall))
    {
      hide LockOk, Later, Word, Quiet, Current, Steps, TimeFrom, Stamped, Extrapolated, Fits;
      time.schedule, wall.schedule := turns, wallTurns;
      LaterSelf(time.lock);
      r := Reading(0, 0);
      while true
        invariant Parts() && HasCopy() && Later(old(time.lock), time.lock) && readings == old(readings)
        invariant current >= old(current)
        invariant time.lock.ver + Steps(time.schedule) < 2 * current + 0x8000_0000
        invariant HasWall() && wall.lock.ver + Steps(wall.schedule) < 2 * wallCurrent + 0x8000_0000
        decreases |time.schedule|, if time.lock.ver == 2 * current then 0 else 1
      {
        ghost var l0, k := time.lock, current;
        var version := time.shadowVersion;
        var tsc := time.lock.clock;
        value := TimeFrom(time.shadow, tsc);
        r := Reading(k, tsc);
        StampBefore(l0, k);
        done := TimeUpdate();
        LaterTrans(old(time.lock), l0, time.lock);
        if !done { return; }
        WordEqual(2 * k, 2 * current);
        if version == time.shadowVersion {
          LaterFields(old(time.lock), l0);
          LaterFields(l0, time.lock);
          assert current == k && time.lock.hist[k] == l0.hist[k];
          assert ReadingOk(time.lock, r);
          break;
        }
      }
      AddReading(old(time.lock), time.lock, readings, r);
      readings := readings + [r];
      ghost var l1 := time.lock;
      time.Turn();
      LaterFields(l1, time.lock);
      LaterTrans(old(time.lock), l1, time.lock);
      ReadingsKept(l1, time.lock, readings);
      assert r in readings;
      if Fits(time.lock.hist[r.k], r.tsc) { TimeIsExtrapolated(time.lock.hist[r.k], r.tsc); }
    }
  }

  lemma AddReading(l: Lock, l': Lock, rs: seq<Reading>, r: Reading)
    requires Later(l, l') && l.timed && InOrder(l, rs) && ReadingOk(l', r)
    requires r.tsc >= l.clock && forall x :: x in rs ==> x.k <= r.k
    ensures InOrder(l', rs + [r])
  {
    ReadingsKept(l, l', rs);
    forall x | x in rs ensures x.tsc <= r.tsc { assert ReadingOk(l, x); }
  }

  lemma LaterFields(l: Lock, l': Lock)
    requires Later(l, l')
    ensures |l.fields| == |l'.fields| && l.timed == l'.timed && l.ver <= l'.ver && l.hist <= l'.hist
    ensures l.clock <= l'.clock
  {
  }

  lemma QuietVersion(l: Lock)
    requires LockOk(l)
    ensures Quiet(l) ==> l.ver == 2 * Current(l)
  {
  }

  lemma QuietCopy(l: Lock, k: nat)
    requires LockOk(l) && l.ver == 2 * k
    ensures |l.hist| == k + 1 && |l.hist[k]| == |l.fields|
  {
  }

  lemma StampBefore(l: Lock, k: nat)
    requires LockOk(l) && l.timed && k < |l.hist|
    ensures |l.hist[k]| > 0 && l.hist[k][0] <= l.clock
  {
  }
}
