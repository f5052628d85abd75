/** The versioned snapshots of arch/x86_64/time.c. The hypervisor makes the version odd, writes the fields one by one
    and makes it even again; the guest copies the fields between two looks at the version, and tries again if it
    must.

    The hypervisor steps at any moment: a schedule gives its steps between any two reads of the guest; every finite
    prefix of a run is a schedule, and a call that is still trying when the schedule ends says so. */
module SeqLock {
  import opened Arith

  /** The shared page. `hist` has every snapshot published or being written, `clock` is the time stamp counter, and the
      version in the page is the low 32 bits of `ver`. The writer of a timed lock stamps field 0 when it starts. */
  datatype Lock = Lock(ver: nat, fields: seq<int>, hist: seq<seq<int>>, clock: nat, timed: bool)

  datatype Step = Begin(fields: seq<int>) | Write(i: nat) | End | Tick(n: nat)

  /** One atomic step of the hypervisor; one that is not its turn changes nothing. */
  function Do(l: Lock, s: Step): Lock {
    if l.hist == [] then l else
    var next := l.hist[|l.hist| - 1];
    match s
    case Begin(f) =>
      if Quiet(l) && |f| == |l.fields| && (l.timed ==> f != [] && f[0] == l.clock)
      then l.(ver := l.ver + 1, hist := l.hist + [f]) else l
    case Write(i) => if !Quiet(l) && i < |l.fields| && i < |next| then l.(fields := l.fields[i := next[i]]) else l
    case End => if !Quiet(l) && l.fields == next then l.(ver := l.ver + 1) else l
    case Tick(n) => l.(clock := l.clock + n)
  }

  function DoAll(l: Lock, steps: seq<Step>): Lock decreases |steps| {
    if steps == [] then l else DoAll(Do(l, steps[0]), steps[1..])
  }

  /** No update is under way; the number of the last snapshot published. */
  predicate Quiet(l: Lock) { l.ver % 2 == 0 }

  function Current(l: Lock): nat { l.ver / 2 }

  /** Between updates the fields are the last snapshot published. */
  ghost predicate LockOk(l: Lock) {
    |l.hist| == Current(l) + (if Quiet(l) then 1 else 2) && |l.fields| > 0 &&
    (forall k :: 0 <= k < |l.hist| ==> |l.hist[k]| == |l.fields|) &&
    (Quiet(l) ==> l.fields == l.hist[Current(l)]) &&
    (l.timed ==> Stamped(l.hist, l.clock))
  }

  /** Time stamps are in order, and none is in the future. */
  ghost predicate Stamped(hist: seq<seq<int>>, clock: nat) {
    (forall k :: 0 <= k < |hist| ==> |hist[k]| > 0 && hist[k][0] <= clock) &&
    (forall j, k :: 0 <= j < k < |hist| ==> |hist[j]| > 0 && |hist[k]| > 0 && hist[j][0] <= hist[k][0])
  }

  /** What a later state of the lock keeps of an earlier one. */
  ghost predicate Later(l: Lock, l': Lock) {
    l.ver <= l'.ver && l.hist <= l'.hist && l.clock <= l'.clock && l.timed == l'.timed && |l.fields| == |l'.fields| &&
    (l'.ver == l.ver && Quiet(l) ==> l'.fields == l.fields && l'.hist == l.hist) &&
    (l.timed ==> forall k :: |l.hist| <= k < |l'.hist| ==> |l'.hist[k]| > 0 && l'.hist[k][0] >= l.clock)
  }

  lemma WriterStep(l: Lock, s: Step)
    requires LockOk(l)
    ensures LockOk(Do(l, s)) && Later(l, Do(l, s)) && Do(l, s).ver <= l.ver + 1
  {
    var d := Do(l, s);
    if s.Begin? && d != l {
      assert d.hist[|l.hist|] == s.fields;
    }
  }

  lemma LaterTrans(a: Lock, b: Lock, c: Lock)
    requires Later(a, b) && Later(b, c)
    ensures Later(a, c)
  {
    if a.timed {
      forall k | |a.hist| <= k < |c.hist| ensures |c.hist[k]| > 0 && c.hist[k][0] >= a.clock {
        if k < |b.hist| { assert c.hist[k] == b.hist[k]; }
      }
    }
  }

  lemma {:induction false} WriterRun(l: Lock, steps: seq<Step>)
    requires LockOk(l)
    ensures LockOk(DoAll(l, steps)) && Later(l, DoAll(l, steps)) && DoAll(l, steps).ver <= l.ver + |steps|
    decreases |steps|
  {
    hide Do, LockOk, Later;
    if steps != [] {
      WriterStep(l, steps[0]);
      WriterRun(Do(l, steps[0]), steps[1..]);
      LaterTrans(l, Do(l, steps[0]), DoAll(l, steps));
    } else {
      LaterSelf(l);
    }
  }

  lemma LaterSelf(l: Lock)
    ensures Later(l, l)
  {
  }

  function Word(v: nat): nat { v % W32 }

  /** The loop condition is false: the parity of one look, equality with the version copied before the fields of
      another. */
  predicate Passes(copied: nat, parity: nat, equal: nat) { parity % 2 == 0 && copied == equal }

  /** With the parity looked at first, as written, the loop ends exactly when no update was or came under way since the
      version was copied. */
  lemma ParityFirst(a: nat, b: nat, c: nat)
    requires a <= b <= c < a + W32
    ensures Passes(Word(a), Word(b), Word(c)) <==> a == b == c && a % 2 == 0
  {
    hide Word;
    WordEqual(a, c);
    WordParity(b);
  }

  /** With equality looked at first, which C allows, it also ends when an update was under way all the time and ends
      between the two looks. */
  lemma EqualityFirst(a: nat, c: nat, b: nat)
    requires a <= c <= b < a + W32
    ensures Passes(Word(a), Word(b), Word(c)) <==> a == c && b % 2 == 0
    ensures a % 2 == 1 ==> Passes(Word(a), Word(a + 1), Word(a))
  {
    hide Word;
    WordEqual(a, c);
    WordParity(b);
    WordParity(a + 1);
  }

  lemma WordParity(v: nat)
    ensures Word(v) % 2 == v % 2
  {
  }

  lemma WordEqual(a: nat, c: nat)
    requires a <= c < a + W32
    ensures Word(a) == Word(c) <==> a == c
  {
  }

  /** A run in which the reader that looks at equality first leaves with fields of two snapshots: it copies the
      version and field 0 after the writer wrote field 0 and field 1 before, and the update ends between the two
      looks. */
  lemma TornSnapshot(l: Lock)
    requires l == Lock(0, [1, 1], [[1, 1]], 0, false)
    ensures var l1 := DoAll(l, [Begin([2, 2]), Write(0)]);
            var l2 := DoAll(l1, [Write(1), End]);
            Passes(Word(l1.ver), Word(l2.ver), Word(l1.ver)) && [l1.fields[0], l1.fields[1]] !in l2.hist
  {
    var a := Do(l, Begin([2, 2]));
    assert a == Lock(1, [1, 1], [[1, 1], [2, 2]], 0, false);
    var b := Do(a, Write(0));
    assert b == Lock(1, [2, 1], [[1, 1], [2, 2]], 0, false);
    var s1 := [Begin([2, 2]), Write(0)];
    assert s1[1..] == [Write(0)] && s1[1..][1..] == [];
    assert DoAll(l, s1) == b;
    var c := Do(b, Write(1));
    assert c == Lock(1, [2, 2], [[1, 1], [2, 2]], 0, false);
    var d := Do(c, End);
    var s2 := [Write(1), End];
    assert s2[1..] == [End] && s2[1..][1..] == [];
    assert DoAll(b, s2) == d;
    assert d.ver == 2 && d.hist == [[1, 1], [2, 2]];
  }

  /** The number of steps the hypervisor takes in a schedule. A call of the guest sees fewer than 2^30 of them, so
      that a version does not come round within it. */
  ghost function Steps(schedule: seq<seq<Step>>): nat {
    if schedule == [] then 0 else |schedule[0]| + Steps(schedule[1..])
  }

  ghost predicate Paced(schedule: seq<seq<Step>>) { Steps(schedule) < 0x4000_0000 }

  class SeqLock {
    var lock: Lock
    var schedule: seq<seq<Step>>
    /** The guest's copy. */
    var shadow: seq<int>
    var shadowVersion: nat

    ghost predicate Valid() reads this { LockOk(lock) && Paced(schedule) }

    constructor (first: seq<int>, clock: nat, timed: bool, turns: seq<seq<Step>>)
      requires 0 < |first| && Paced(turns) && (timed ==> first[0] <= clock)
      ensures Valid() && lock == Lock(0, first, [first], clock, timed) && schedule == turns && shadow == first
      ensures shadowVersion == 0
    {
      lock, schedule, shadow, shadowVersion := Lock(0, first, [first], clock, timed), turns, first, 0;
    }

    /** The hypervisor's next turn. */
    method Turn()
      requires Valid()
      modifies this`lock, this`schedule
      ensures Valid() && Later(old(lock), lock) && lock.ver + Steps(schedule) <= old(lock.ver) + Steps(old(schedule))
      ensures |schedule| == if old(schedule) == [] then 0 else |old(schedule)| - 1
      ensures old(schedule) == [] ==> lock == old(lock)
    {
      hide Do, LockOk, Later;
      if schedule != [] {
        var turn := schedule[0];
        WriterRun(lock, turn);
        LaterSize(lock, DoAll(lock, turn));
        lock := DoAll(lock, turn);
        schedule := schedule[1..];
      } else {
        LaterSelf(lock);
      }
    }

    /** One attempt: the version is copied, when it is `from`, then field after field, then the version is looked at
        twice. It succeeds iff no update was or came under way in between. */
    method Attempt() returns (ok: bool, ghost from: nat)
      requires Valid()
      modifies this
      ensures Valid() && Later(old(lock), lock) && lock.ver + Steps(schedule) <= old(lock.ver) + Steps(old(schedule))
      ensures old(lock.ver) <= from <= lock.ver && shadowVersion == Word(from)
      ensures ok <==> from == lock.ver && Quiet(lock)
      ensures ok ==> Current(lock) < |lock.hist| && shadow == lock.hist[Current(lock)]
      ensures |schedule| <= |old(schedule)| && (old(schedule) != [] ==> |schedule| < |old(schedule)|)
      ensures !ok && old(schedule) == [] ==> schedule == [] && !Quiet(lock)
      ensures old(schedule) == [] ==> lock == old(lock)
    {
      hide Do, LockOk, Later, Word, Quiet, Current, Steps;
      Turn();
      shadowVersion := Word(lock.ver);
      ghost var start := lock;
      from := lock.ver;
      LaterSize(old(lock), lock);
      CopyFields();
      ghost var copied := lock;
      Turn();
      Between(start, copied, lock);
      var parity := Word(lock.ver);
      ghost var middle := lock;
      Turn();
      Between(start, middle, lock);
      var equal := Word(lock.ver);
      ok := Passes(shadowVersion, parity, equal);
      ParityFirst(start.ver, middle.ver, lock.ver);
      QuietIs(start);
      QuietIs(lock);
      LaterTrans(old(lock), start, lock);
      EvenFields(lock);
    }

    /** _updateTimeFromXen and _updateWallclock: attempts until one succeeds. The copy left is a snapshot that was
        published whole, and it is the current one when the call ends. If the schedule ends first, it ends within an
        update of the hypervisor. */
    method Update() returns (done: bool)
      requires Valid()
      modifies this
      ensures Valid() && Later(old(lock), lock) && lock.ver + Steps(schedule) <= old(lock.ver) + Steps(old(schedule))
      ensures done ==> Quiet(lock) && shadowVersion == Word(lock.ver) && Current(lock) < |lock.hist|
      ensures done ==> shadow == lock.hist[Current(lock)]
      ensures !done ==> schedule == [] && !Quiet(lock)
      ensures |schedule| <= |old(schedule)| && (old(schedule) == [] ==> lock == old(lock))
    {
      hide Do, LockOk, Later, Word, Quiet, Current, Steps;
      LaterSelf(lock);
      while true
        invariant Valid() && Later(old(lock), lock)
        invariant lock.ver + Steps(schedule) <= old(lock.ver) + Steps(old(schedule))
        invariant |schedule| <= |old(schedule)| && (old(schedule) == [] ==> lock == old(lock))
        decreases |schedule|
      {
        ghost var before := lock;
        var turns := |schedule|;
        ghost var from;
        done, from := Attempt();
        LaterTrans(old(lock), before, lock);
        if done || turns == 0 { return; }
      }
    }

    /** The reads of the fields, one by one. */
    method CopyFields()
      requires Valid()
      modifies this`lock, this`schedule, this`shadow
      ensures Valid() && Later(old(lock), lock) && lock.ver + Steps(schedule) <= old(lock.ver) + Steps(old(schedule))
      ensures old(lock.ver) == lock.ver && Quiet(lock) ==> shadow == lock.fields
      ensures |schedule| <= |old(schedule)| && (old(schedule) == [] ==> lock == old(lock))
    {
      hide Do, LockOk, Later, Quiet, Steps;
      ghost var start := lock;
      LaterSelf(start);
      shadow := [];
      var n := |lock.fields|;
      for i := 0 to n
        invariant Valid() && |lock.fields| == n && |shadow| == i
        invariant Later(start, lock) && lock.ver + Steps(schedule) <= start.ver + Steps(old(schedule))
        invariant start.ver == lock.ver && Quiet(lock) ==> shadow == lock.fields[..i]
        invariant |schedule| <= |old(schedule)| && (old(schedule) == [] ==> lock == start)
      {
        ghost var before := lock;
        Turn();
        Between(start, before, lock);
        shadow := shadow + [lock.fields[i]];
        assert lock.fields[..i + 1] == lock.fields[..i] + [lock.fields[i]];
      }
      assert lock.fields[..n] == lock.fields;
    }
  }

  lemma LaterSize(l: Lock, l': Lock)
    requires Later(l, l')
    ensures |l.fields| == |l'.fields| && l.ver <= l'.ver
  {
  }

  /** A version that is the same and even at both ends was so in between, with the same fields. */
  lemma Between(a: Lock, b: Lock, c: Lock)
    requires Later(a, b) && Later(b, c)
    ensures Later(a, c) && a.ver <= b.ver <= c.ver && |a.fields| == |c.fields|
    ensures a.ver == c.ver && Quiet(c) ==> b.fields == c.fields && b.ver == a.ver && Quiet(b) && Quiet(a)
  {
    LaterTrans(a, b, c);
  }

  lemma QuietIs(l: Lock)
    ensures Quiet(l) <==> l.ver % 2 == 0
  {
  }

  lemma EvenFields(l: Lock)
    requires LockOk(l)
    ensures Quiet(l) ==> Current(l) < |l.hist| && l.fields == l.hist[Current(l)]
  {
  }
}
