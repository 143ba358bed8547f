/**
 Where the buffer as written departs from what it evidently means to do: each
 departure is shown by a lemma about the `CycleBuffer` model, and next to it is a
 corrected operation with the intended property proved.

 - Growth with `0 < head <= tail` rotates the wrong bytes to the front, and with
   `0 < head < tail` its second copy reaches past the end of the storage.
 - Growth moves the unread bytes but leaves `lockedTail` where it was, so the boundary
   then marks a different byte.
 - A locked append that has to grow forgets its lock.
 - `lockedTail` is compared as a plain index, not as a position on the ring.
 - The handle is kept after its lock is released, so a later caller's handle is ignored.
 */
module CycleBufferFixes {
  import opened CycleBuffer
  import opened CycleBufferProperties

  /** The distance from the read cursor to the write cursor is the number of unread bytes. */
  lemma DistHeadTail(b: Buffer)
    requires Valid(b)
    ensures Dist(b.head, b.tail, b.capacity) == Count(b)
  {
  }

  // Growth with 0 < head <= tail

  /**
   When the unread bytes do not wrap but `head > 0`, growth sets `tail` to
   `capacity - head + tail`, so the buffer then claims exactly one old capacity more
   unread bytes than it had; an empty buffer claims a full one.
   */
  lemma GrowMiscounts(b: Buffer)
    requires Valid(b) && 0 < b.head <= b.tail
    ensures Grow(b).head == 0
    ensures Count(Grow(b)) == Count(b) + b.capacity
    ensures b.head == b.tail ==> Count(b) == 0 && Count(Grow(b)) == b.capacity
  {
  }

  /**
   The second copy of growth writes `storage[..tail]` at `capacity - head`; it fits in
   storage of `capacity` bytes only when `tail <= head`.
   */
  predicate GrowCopyFits(b: Buffer) {
    b.head == 0 || b.capacity - b.head + b.tail <= |b.storage|
  }

  /**
   An ordinary call sequence reaches growth with `0 < head < tail`: capacity 4, append 2
   bytes, read 1, append 3. The second copy would then end past the storage.
   */
  lemma GrowCopyOverruns(d1: seq<Byte>, d2: seq<Byte>, flags: Flags)
    requires |d1| == 2 && |d2| == 3
    ensures var b := MarkAsRead(Append(Init(4), d1, None), 1, flags).0;
      b.head == 1 && b.tail == 2 && !Fits(b, d2) && !GrowCopyFits(b)
  {
    var a := Append(Init(4), d1, None);
    assert Fits(Init(4), d1);
    assert a.head == 0 && a.tail == 2;
  }

  /** An empty buffer of capacity 4 holding the bytes `s`, with both cursors at 2. */
  function EmptyAtTwo(s: seq<Byte>): (r: Buffer)
    requires |s| == 4
    ensures Valid(r) && Count(r) == 0
  {
    Buffer(s, 4, 2, 2, None, NoLock)
  }

  /** Growing `EmptyAtTwo(s)` rotates all four stale bytes into view. */
  lemma StaleGrowth(s: seq<Byte>)
    requires |s| == 4
    ensures Unread(Grow(EmptyAtTwo(s))) == [s[2], s[3], s[0], s[1]]
  {
    var g := Grow(EmptyAtTwo(s));
    assert g.tail == 4 && Count(g) == 4;
    assert g.storage[0] == s[2] && g.storage[1] == s[3] && g.storage[2] == s[0] && g.storage[3] == s[1];
    assert Slot(g, 0) == 0 && Slot(g, 1) == 1 && Slot(g, 2) == 2 && Slot(g, 3) == 3;
  }

  /**
   `EmptyAtTwo(s)` receives at least 4 bytes: it grows, and the reader is then offered the
   4 stale bytes before the ones it was given.
   */
  lemma GrowExposesStaleBytes(s: seq<Byte>, data: seq<Byte>)
    requires |s| == 4 && |data| >= 4
    ensures |Unread(Append(EmptyAtTwo(s), data, None))| == 4 + |data|
    ensures Unread(Append(EmptyAtTwo(s), data, None))[..4] == [s[2], s[3], s[0], s[1]]
    ensures Unread(Append(EmptyAtTwo(s), data, None))[4..] == data
  {
    var b := EmptyAtTwo(s);
    var g := Grow(b);
    StaleGrowth(s);
    assert g.head == 0 && !Fits(b, data);
    assert Append(b, data, None) == Extend(b, data) == Append(g, data, None);
    assert Unread(Append(b, data, None)) == [s[2], s[3], s[0], s[1]] + data;
  }

  /** The lock boundary is cleared, or lies among the unread bytes (at most at `tail`). */
  predicate LockInv(b: Buffer)
    requires Valid(b)
  {
    b.lockedTail == NoLock ||
    (0 <= b.lockedTail < b.capacity && Dist(b.head, b.lockedTail, b.capacity) <= Count(b))
  }

  /** How many unread bytes still lie before the lock boundary. */
  function Pending(b: Buffer): (r: int)
    requires Valid(b) && LockInv(b) && b.lockedTail != NoLock
    ensures 0 <= r <= Count(b)
  {
    Dist(b.head, b.lockedTail, b.capacity)
  }

  /** The growth step for a run that does not wrap: move `storage[head..tail]` to the front. */
  function RunToFront(b: Buffer): (r: Buffer)
    requires Valid(b) && 0 < b.head <= b.tail
    ensures Valid(r) && r.capacity == 2 * b.capacity && r.head == 0 && r.tail == Count(b)
    ensures Unread(r) == Unread(b)
    ensures r.locked == b.locked && r.lockedTail == b.lockedTail
  {
    var r := b.(storage := Overwrite(b.storage + Zeros(b.capacity), 0, b.storage[b.head..b.tail]),
                capacity := 2 * b.capacity, head := 0, tail := b.tail - b.head);
    assert Unread(r) == Unread(b) by {
      forall k | 0 <= k < Count(b)
        ensures Unread(r)[k] == Unread(b)[k]
      {
        assert Slot(r, k) == k && Slot(b, k) == b.head + k;
      }
    }
    r
  }

  /**
   Corrected growth: a run that does not wrap is moved as `storage[head..tail]`, and the
   lock boundary moves with the bytes it marks.
   */
  function GrowFixed(b: Buffer): (r: Buffer)
    requires Valid(b) && LockInv(b)
    ensures Valid(r) && LockInv(r)
    ensures r.capacity == 2 * b.capacity && r.head == 0 && r.tail == Count(b)
    ensures Unread(r) == Unread(b)
    ensures r.locked == b.locked
    ensures b.lockedTail == NoLock <==> r.lockedTail == NoLock
    ensures b.lockedTail != NoLock ==> Pending(r) == Pending(b)
  {
    var moved :=
      if 0 < b.head <= b.tail then RunToFront(b)
      else (GrowLinearizes(b); Grow(b));
    var r := moved.(lockedTail := if b.lockedTail == NoLock then NoLock else Dist(b.head, b.lockedTail, b.capacity));
    UnreadFromCursors(moved, r);
    r
  }

  // Lock boundary left behind by growth

  /**
   With `head == 0` growth moves no byte, so the unchanged `lockedTail` still marks the
   same byte: it agrees with the corrected growth.
   */
  lemma GrowAtZeroKeepsBoundary(b: Buffer)
    requires Valid(b) && LockInv(b) && b.head == 0
    ensures Grow(b).lockedTail == GrowFixed(b).lockedTail
    ensures Valid(Grow(b)) && LockInv(Grow(b))
    ensures b.lockedTail != NoLock ==> Pending(Grow(b)) == Pending(b)
  {
    GrowLinearizes(b);
  }

  /**
   A reachable state: capacity 8, read cursor at 5, a locked span of 2 bytes ending at
   `lockedTail == 7`, then 2 unlocked bytes that wrap `tail` to 1.
   */
  lemma LockedThenWrapped(d1: seq<Byte>, d2: seq<Byte>, d3: seq<Byte>, p: Handle, flags: Flags)
    requires |d1| == 5 && |d2| == 2 && |d3| == 2
    ensures var b0 := MarkAsRead(Append(Init(8), d1, None), 5, flags).0;
      var b := Append(Append(b0, d2, Some(p)), d3, None);
      b.capacity == 8 && b.head == 5 && b.tail == 1 && b.locked == Some(p) && b.lockedTail == 7 &&
      Unread(b) == d2 + d3
  {
    var a := Append(Init(8), d1, None);
    assert Fits(Init(8), d1);
    assert a.head == 0 && a.tail == 5 && Count(a) == 5;
    var b0 := MarkAsRead(a, 5, flags).0;
    assert b0.head == 5 && b0.tail == 5 && Count(b0) == 0 && b0.locked == None && b0.lockedTail == NoLock;
    assert Fits(b0, d2);
    var b1 := Append(b0, d2, Some(p));
    assert b1.head == 5 && b1.tail == 7 && Count(b1) == 2 && Unread(b1) == d2;
    assert Fits(b1, d3);
  }

  /**
   In the state of `LockedThenWrapped`, an unlocked append of 4 bytes grows the buffer:
   the locked span moves to [0, 2) but `lockedTail` stays 7. Reading those 2 bytes leaves
   the flag set; only the read that brings `head` to 7 releases it.
   */
  lemma GrowStrandsLockBoundary(s: seq<Byte>, data: seq<Byte>, p: Handle, flags: Flags)
    requires |s| == 8 && |data| == 4
    ensures var b := Buffer(s, 8, 5, 1, Some(p), 7);
      var g := Append(b, data, None);
      g.head == 0 && g.tail == 8 && g.lockedTail == 7 &&
      Unread(g)[..2] == Unread(b)[..2] &&
      MarkAsRead(g, 2, flags).1 == flags && MarkAsRead(g, 2, flags).0.lockedTail == 7 &&
      MarkAsRead(g, 7, flags).0.lockedTail == NoLock
  {
    var b := Buffer(s, 8, 5, 1, Some(p), 7);
    assert Count(b) == 4 && !Fits(b, data);
    GrowingAppendLayout(b, data, None);
    var g := Append(b, data, None);
    assert Count(g) == 8;
  }

  // Locked append that grows

  /**
   A locked append that has to grow records no lock: the handle stays unset, so no later
   read can ever clear the caller's flag.
   */
  lemma GrowingAppendDropsLock(b: Buffer, data: seq<Byte>, p: Handle, n: int, flags: Flags)
    requires Valid(b) && b.locked.None? && !Fits(b, data)
    requires 0 <= n <= Count(Append(b, data, Some(p)))
    ensures Append(b, data, Some(p)).locked == None
    ensures MarkAsRead(Append(b, data, Some(p)), n, flags).1 == flags
  {
  }

  /** `Write` keeps the lock boundary among the unread bytes, and puts a new one at `tail`. */
  lemma WriteKeepsLockInv(b: Buffer, data: seq<Byte>, lock: Option<Handle>)
    requires Valid(b) && LockInv(b) && Fits(b, data)
    ensures LockInv(Write(b, data, lock))
    ensures lock.Some? ==> Pending(Write(b, data, lock)) == Count(Write(b, data, lock))
    ensures lock.None? && b.lockedTail != NoLock ==> Pending(Write(b, data, lock)) == Pending(b)
  {
    var r := Write(b, data, lock);
    WriteContent(b, data, lock);
    DistHeadTail(r);
  }

  /**
   Corrected append: growth keeps the bytes in order in every case and the retry passes
   the lock on, so a locked append always records its boundary at the new `tail`.
   */
  function AppendFixed(b: Buffer, data: seq<Byte>, lock: Option<Handle>): (r: Buffer)
    requires Valid(b) && LockInv(b)
    ensures Valid(r) && LockInv(r) && r.capacity >= b.capacity
    ensures Unread(r) == Unread(b) + data
    ensures r.locked == if b.locked.None? then lock else b.locked
    ensures lock.Some? ==> r.lockedTail == r.tail && Pending(r) == Count(r)
    ensures lock.None? ==> (b.lockedTail == NoLock <==> r.lockedTail == NoLock)
    ensures lock.None? && b.lockedTail != NoLock ==> Pending(r) == Pending(b)
    decreases Debt(b, data)
  {
    if Fits(b, data) then
      WriteContent(b, data, lock);
      WriteKeepsLockInv(b, data, lock);
      Write(b, data, lock)
    else
      AppendFixed(GrowFixed(b), data, lock)
  }

  // Lock boundary compared as a plain index

  /**
   Five bytes appended under lock at position 5 of 8 wrap, so `lockedTail` is 2. The
   very next read, even of nothing, already sees `2 <= head` and clears the flag while
   all five locked bytes (or four of them) are still unread.
   */
  lemma EarlyRelease()
    ensures var a := Append(Buffer(Zeros(8), 8, 5, 5, None, NoLock), [1, 2, 3, 4, 5], Some(7));
      a.tail == 2 && a.lockedTail == 2 && a.locked == Some(7) &&
      MarkAsRead(a, 0, map[7 := 1]).1[7] == 0 && Count(MarkAsRead(a, 0, map[7 := 1]).0) == 5 &&
      MarkAsRead(a, 1, map[7 := 1]).1[7] == 0 && Count(MarkAsRead(a, 1, map[7 := 1]).0) == 4
  {
    var b := Buffer(Zeros(8), 8, 5, 5, None, NoLock);
    assert Fits(b, [1, 2, 3, 4, 5]);
  }

  /**
   The plain comparison also releases late: a 2-byte locked append at position 4 of 8
   sets `lockedTail` to 6; 3 more bytes wrap `tail` to 1. Reading all 5 leaves `head` at 1,
   so `6 <= 1` fails and the flag stays set although its bytes are all read.
   */
  lemma LateRelease(s: seq<Byte>, d1: seq<Byte>, d2: seq<Byte>, p: Handle, flags: Flags)
    requires |s| == 8 && |d1| == 2 && |d2| == 3
    ensures var a := Append(Append(Buffer(s, 8, 4, 4, None, NoLock), d1, Some(p)), d2, None);
      var (r, f) := MarkAsRead(a, 5, flags);
      a.locked == Some(p) && a.lockedTail == 6 && Count(a) == 5 &&
      Count(r) == 0 && r.head == 1 && r.lockedTail == 6 && f == flags
  {
    var b := Buffer(s, 8, 4, 4, None, NoLock);
    assert Fits(b, d1);
    var a1 := Append(b, d1, Some(p));
    assert a1.tail == 6 && a1.lockedTail == 6 && Count(a1) == 2 && Fits(a1, d2);
  }

  /** Reading short of the lock boundary keeps it among the unread bytes, `n` bytes nearer. */
  lemma ReadShortOfBoundary(b: Buffer, n: int)
    requires Valid(b) && LockInv(b) && b.lockedTail != NoLock && 0 <= n < Pending(b)
    ensures Valid(b.(head := Slot(b, n)))
    ensures LockInv(b.(head := Slot(b, n)))
    ensures Pending(b.(head := Slot(b, n))) == Pending(b) - n
  {
    var moved := b.(head := Slot(b, n));
    assert Count(moved) == Count(b) - n;
    assert Dist(moved.head, b.lockedTail, b.capacity) == Pending(b) - n;
  }

  /**
   Corrected read: the lock is released when the read reaches the boundary measured
   forward from `head` around the ring, and releasing also drops the handle.
   */
  function MarkAsReadFixed(b: Buffer, n: int, flags: Flags): (r: (Buffer, Flags))
    requires Valid(b) && LockInv(b) && 0 <= n <= Count(b)
    ensures Valid(r.0) && LockInv(r.0)
    ensures r.0.storage == b.storage && r.0.capacity == b.capacity && r.0.tail == b.tail
    ensures r.0.head == (b.head + n) % b.capacity
    ensures Unread(r.0) == Unread(b)[n..]
    ensures b.lockedTail != NoLock && Pending(b) <= n ==>
      r.0.lockedTail == NoLock && r.0.locked == None &&
      (b.locked.Some? ==> b.locked.value in r.1 && r.1[b.locked.value] == 0 &&
                          r.1.Keys == flags.Keys + {b.locked.value}) &&
      (b.locked.None? ==> r.1 == flags) &&
      forall h :: h in flags && b.locked != Some(h) ==> h in r.1 && r.1[h] == flags[h]
    ensures b.lockedTail == NoLock ==> r.0.lockedTail == NoLock && r.0.locked == b.locked && r.1 == flags
    ensures b.lockedTail != NoLock && n < Pending(b) ==>
      r.0.locked == b.locked && r.1 == flags &&
      r.0.lockedTail != NoLock && Pending(r.0) == Pending(b) - n
  {
    var moved := b.(head := Slot(b, n));
    AdvanceHead(b, n);
    if b.lockedTail != NoLock && Dist(b.head, b.lockedTail, b.capacity) <= n then
      var r := moved.(locked := None, lockedTail := NoLock);
      UnreadFromCursors(moved, r);
      (r, if b.locked.Some? then flags[b.locked.value := 0] else flags)
    else if b.lockedTail != NoLock then
      ReadShortOfBoundary(b, n);
      (moved, flags)
    else
      (moved, flags)
  }

  /**
   With the corrected operations, a locked append is released by exactly the read that
   drains it, whether or not it wrapped or grew the buffer.
   */
  lemma FixedReleaseAtBoundary(b: Buffer, data: seq<Byte>, p: Handle, k: int, flags: Flags)
    requires Valid(b) && LockInv(b) && b.locked.None?
    requires 0 <= k <= Count(AppendFixed(b, data, Some(p)))
    ensures var (r, f) := MarkAsReadFixed(AppendFixed(b, data, Some(p)), k, flags);
      (r.lockedTail == NoLock <==> k == Count(b) + |data|) &&
      (k == Count(b) + |data| ==> p in f && f[p] == 0 && r.locked == None) &&
      (k < Count(b) + |data| ==> f == flags && r.locked == Some(p))
  {
  }

  // Handle kept after release

  /**
   After a release the old handle `p` stays stored, so a later locked append by another
   caller `q` keeps `p`: no read of that append can clear `q`'s flag.
   */
  lemma KeptHandleShadowsNextLock(b: Buffer, n: int, data: seq<Byte>, q: Handle, m: int, flags: Flags)
    requires Valid(b) && 0 <= n <= Count(b)
    requires Releases(b, MarkAsRead(b, n, flags).0.head) && b.locked != Some(q)
    requires Fits(MarkAsRead(b, n, flags).0, data)
    requires 0 <= m <= Count(Append(MarkAsRead(b, n, flags).0, data, Some(q)))
    ensures var (r, f) := MarkAsRead(b, n, flags);
      var a := Append(r, data, Some(q));
      a.locked == b.locked && a.lockedTail == a.tail &&
      (q in f ==> q in MarkAsRead(a, m, f).1 && MarkAsRead(a, m, f).1[q] == f[q])
  {
  }

  /** With the corrected read, the released handle is dropped and the next locked append adopts its own. */
  lemma FixedReleaseAdoptsNextLock(b: Buffer, n: int, data: seq<Byte>, q: Handle, flags: Flags)
    requires Valid(b) && LockInv(b) && 0 <= n <= Count(b)
    requires b.lockedTail != NoLock && Pending(b) <= n
    ensures AppendFixed(MarkAsReadFixed(b, n, flags).0, data, Some(q)).locked == Some(q)
  {
  }
}
