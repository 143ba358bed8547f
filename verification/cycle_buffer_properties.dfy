/**
 Properties of the `CycleBuffer` model that relate several operations: round trips,
 no-ops, the lock protocol over a sequence of calls, and the behaviour of `clear`
 and of a zero capacity.
 */
module CycleBufferProperties {
  import opened CycleBuffer

  /** An empty append without a lock changes nothing at all. */
  lemma EmptyAppendChangesNothing(b: Buffer)
    requires Valid(b)
    ensures Append(b, [], None) == b
  {
    var r := Append(b, [], None);
    WriteContent(b, [], None);
    assert r.storage == b.storage;
  }

  /** Appending `data` and then reading everything that was already unread leaves exactly `data`. */
  lemma AppendThenDrain(b: Buffer, data: seq<Byte>, lock: Option<Handle>, flags: Flags)
    requires Valid(b) && (Fits(b, data) || b.head == 0 || b.tail < b.head)
    ensures Count(b) <= Count(Append(b, data, lock))
    ensures Unread(MarkAsRead(Append(b, data, lock), Count(b), flags).0) == data
  {
    var a := Append(b, data, lock);
    MarkAsReadConsumes(a, Count(b), flags);
    assert Unread(a)[Count(b)..] == data;
  }

  /** Reading `m` bytes and then `n` more moves the read cursor as reading `m + n` at once does. */
  lemma {:induction false} MarkAsReadComposes(b: Buffer, m: int, n: int, flags: Flags)
    requires Valid(b) && 0 <= m && 0 <= n && m + n <= Count(b)
    ensures n <= Count(MarkAsRead(b, m, flags).0)
    ensures MarkAsRead(MarkAsRead(b, m, flags).0, n, flags).0.head == MarkAsRead(b, m + n, flags).0.head
    ensures Unread(MarkAsRead(MarkAsRead(b, m, flags).0, n, flags).0) == Unread(MarkAsRead(b, m + n, flags).0)
  {
    var once := MarkAsRead(b, m, flags).0;
    var twice := MarkAsRead(once, n, flags).0;
    var whole := MarkAsRead(b, m + n, flags).0;
    MarkAsReadConsumes(b, m, flags);
    WrapTwice(b.head, m, n, b.capacity);
    assert twice.head == whole.head;
    UnreadFromCursors(twice, whole);
  }

  /** An append that fits is the in-place write. */
  lemma AppendWrites(b: Buffer, data: seq<Byte>, lock: Option<Handle>)
    requires Valid(b) && Fits(b, data)
    ensures Append(b, data, lock) == Write(b, data, lock)
  {
  }

  /** An append that does not fit is the unlocked append on the grown buffer. */
  lemma AppendGrows(b: Buffer, data: seq<Byte>, lock: Option<Handle>)
    requires Valid(b) && !Fits(b, data)
    ensures Append(b, data, lock) == Append(Grow(b), data, None)
  {
  }

  /**
   Whatever growth leaves unread stays in front of `data`: an append that grows yields the
   unread bytes of the grown buffer followed by `data`, in every case.
   */
  lemma GrowingAppendContent(b: Buffer, data: seq<Byte>, lock: Option<Handle>)
    requires Valid(b) && !Fits(b, data)
    ensures Valid(Grow(b))
    ensures Unread(Append(b, data, lock)) == Unread(Grow(b)) + data
  {
    AppendGrows(b, data, lock);
    assert Grow(b).head == 0;
  }

  /**
   An append that grows always ends with `head == 0`; when it grows from `head == 0` or
   from unread bytes that wrap, `tail` ends right after the old unread bytes and `data`.
   */
  lemma {:induction false} GrowingAppendLayout(b: Buffer, data: seq<Byte>, lock: Option<Handle>)
    requires Valid(b) && !Fits(b, data)
    ensures Append(b, data, lock).head == 0
    ensures b.head == 0 || b.tail < b.head ==> Append(b, data, lock).tail == Count(b) + |data|
    decreases if b.head > 0 then 1 else 0, Debt(b, data)
  {
    var g := Grow(b);
    AppendGrows(b, data, lock);
    if b.head == 0 || b.tail < b.head {
      GrowLinearizes(b);
    }
    if Fits(g, data) {
      AppendWrites(g, data, None);
      if b.head == 0 || b.tail < b.head {
        ModInRange(Count(b) + |data|, g.capacity);
      }
    } else {
      GrowingAppendLayout(g, data, None);
    }
  }

  /**
   An append that grows from `head == 0`, or from unread bytes that wrap, ends with every
   unread byte in one contiguous run from index 0: `maxLength` equals `count`.
   */
  lemma GrowingAppendIsContiguous(b: Buffer, data: seq<Byte>, lock: Option<Handle>)
    requires Valid(b) && !Fits(b, data) && (b.head == 0 || b.tail < b.head)
    ensures var r := Append(b, data, lock);
      r.head == 0 && r.tail == Count(b) + |data| &&
      Count(r) == Count(b) + |data| && MaxLength(r) == Count(r) &&
      r.storage[..Count(r)] == Unread(b) + data
  {
    var r := Append(b, data, lock);
    GrowingAppendLayout(b, data, lock);
    MaxLengthIsRun(r);
  }

  /**
   Lock adoption over two locked appends that both fit: the first handle is kept
   (first wins) while `lockedTail` follows the latest append (last wins).
   */
  lemma LockFirstWinsTailLastWins(b: Buffer, d1: seq<Byte>, d2: seq<Byte>, p: Handle, q: Handle)
    requires Valid(b) && b.locked.None?
    requires |d1| + |d2| + Count(b) < b.capacity
    ensures Append(Append(b, d1, Some(p)), d2, Some(q)).locked == Some(p)
    ensures Append(Append(b, d1, Some(p)), d2, Some(q)).lockedTail ==
            Append(Append(b, d1, Some(p)), d2, Some(q)).tail
    ensures Unread(Append(Append(b, d1, Some(p)), d2, Some(q))) == Unread(b) + d1 + d2
  {
    var a := Append(b, d1, Some(p));
    assert Count(a) == Count(b) + |d1|;
  }

  /**
   When the locked append does not wrap, the lock is released by exactly the read that
   reaches the end of that append, and every earlier read leaves the flags alone.
   */
  lemma DrainToBoundaryReleases(b: Buffer, data: seq<Byte>, p: Handle, k: int, flags: Flags)
    requires Valid(b) && b.locked.None? && Fits(b, data)
    requires b.head <= b.tail && b.tail + |data| < b.capacity
    requires 0 <= k <= Count(Append(b, data, Some(p)))
    ensures var (r, f) := MarkAsRead(Append(b, data, Some(p)), k, flags);
      (r.lockedTail == NoLock <==> k == Count(b) + |data|) &&
      (k == Count(b) + |data| ==> p in f && f[p] == 0) &&
      (k < Count(b) + |data| ==> f == flags)
  {
    var a := Append(b, data, Some(p));
    assert a.tail == b.tail + |data|;
    assert Count(a) == Count(b) + |data|;
  }

  /** Once the lock is released, later reads neither release again nor touch any flag. */
  lemma ReleaseAtMostOnce(b: Buffer, n: int, m: int, flags: Flags)
    requires Valid(b) && 0 <= n <= Count(b)
    requires Releases(b, MarkAsRead(b, n, flags).0.head)
    requires 0 <= m <= Count(MarkAsRead(b, n, flags).0)
    ensures var (r, f) := MarkAsRead(b, n, flags);
      MarkAsRead(r, m, f).1 == f && MarkAsRead(r, m, f).0.lockedTail == NoLock
  {
  }

  /** Two buffers that differ at most in their bytes and in `lockedTail`. */
  predicate SameCursors(x: Buffer, y: Buffer) {
    x.capacity == y.capacity && x.head == y.head && x.tail == y.tail && x.locked == y.locked
  }

  /** A write that fits moves the cursors and the lock fields the same way whatever bytes the storage holds. */
  lemma WriteIgnoresStorage(x: Buffer, y: Buffer, data: seq<Byte>, lock: Option<Handle>)
    requires Valid(x) && Valid(y) && SameCursors(x, y) && Fits(x, data)
    ensures SameCursors(Append(x, data, lock), Append(y, data, lock))
    ensures x.lockedTail == y.lockedTail ==> Append(x, data, lock).lockedTail == Append(y, data, lock).lockedTail
  {
    assert Count(x) == Count(y);
    AppendWrites(x, data, lock);
    AppendWrites(y, data, lock);
  }

  /** `Append` moves the cursors and the lock fields the same way whatever bytes the storage holds. */
  lemma {:induction false} AppendIgnoresStorage(x: Buffer, y: Buffer, data: seq<Byte>, lock: Option<Handle>)
    requires Valid(x) && Valid(y) && SameCursors(x, y)
    ensures SameCursors(Append(x, data, lock), Append(y, data, lock))
    ensures x.lockedTail == y.lockedTail ==> Append(x, data, lock).lockedTail == Append(y, data, lock).lockedTail
    decreases if x.head > 0 then 1 else 0, Debt(x, data)
  {
    if Fits(x, data) {
      WriteIgnoresStorage(x, y, data, lock);
    } else {
      assert SameCursors(Grow(x), Grow(y));
      AppendIgnoresStorage(Grow(x), Grow(y), data, None);
    }
  }

  /**
   After `clear`, an append behaves as on a fresh buffer of the same capacity: same cursors,
   same unread bytes, same handle, and the same `lockedTail` whenever a handle is held.
   The `lockedTail` of 0 that `clear` leaves (where `init` has -1) is never consulted.
   */
  lemma ClearThenAppendLikeInit(b: Buffer, data: seq<Byte>, lock: Option<Handle>)
    requires Valid(b)
    ensures var x := Append(Clear(b), data, lock);
      var y := Append(Init(b.capacity), data, lock);
      x.head == y.head && x.tail == y.tail && x.capacity == y.capacity &&
      Unread(x) == data && Unread(y) == data &&
      x.locked == y.locked && (x.locked.Some? ==> x.lockedTail == y.lockedTail)
  {
    AppendIgnoresStorage(Clear(b), Init(b.capacity), data, lock);
  }

  /**
   With capacity 0 the append guard never holds and growing changes nothing, so
   `append` and `extend` would call each other forever: a usable buffer needs capacity > 0.
   */
  lemma ZeroCapacityNeverFits(data: seq<Byte>)
    ensures !Fits(Init(0), data)
    ensures Grow(Init(0)) == Init(0)
  {
    assert Grow(Init(0)).storage == [];
  }

  /**
   Capacity 4: "AB" fits; "CD" does not (2 + 2 is not below 4), so the buffer grows to 8
   first; "EF" then fits. The unread bytes are "ABCDEF", all of them contiguous.
   */
  lemma GrowthScenario()
    ensures var b := Append(Append(Append(Init(4), [0x41, 0x42], None), [0x43, 0x44], None), [0x45, 0x46], None);
      b.capacity == 8 && b.head == 0 && b.tail == 6 &&
      Unread(b) == [0x41, 0x42, 0x43, 0x44, 0x45, 0x46] && MaxLength(b) == 6
  {
    var b0 := Init(4);
    var b1 := Append(b0, [0x41, 0x42], None);
    assert Fits(b0, [0x41, 0x42]);
    assert b1.head == 0 && b1.tail == 2 && b1.capacity == 4 && Unread(b1) == [0x41, 0x42];
    assert !Fits(b1, [0x43, 0x44]);
    var g := Grow(b1);
    assert g.capacity == 8 && g.head == 0 && g.tail == 2;
    assert Fits(g, [0x43, 0x44]);
    var b2 := Append(b1, [0x43, 0x44], None);
    assert b2 == Extend(b1, [0x43, 0x44]);
    assert b2 == Append(g, [0x43, 0x44], None);
    assert b2.capacity == 8 && b2.head == 0 && b2.tail == 4;
    assert Unread(b2) == [0x41, 0x42, 0x43, 0x44];
    assert Fits(b2, [0x45, 0x46]);
  }

  /**
   Capacity 8 with both cursors at 6: five appended bytes split 2 + 3 across the physical
   end, and `MaxLength` exposes the first 2.
   */
  lemma WrappingAppend(s: seq<Byte>, data: seq<Byte>)
    requires |s| == 8 && |data| == 5
    ensures var a := Append(Buffer(s, 8, 6, 6, None, NoLock), data, None);
      a.head == 6 && a.tail == 3 && Unread(a) == data && MaxLength(a) == 2 &&
      a.storage[6..] == data[..2] && a.storage[..3] == data[2..]
  {
    var b := Buffer(s, 8, 6, 6, None, NoLock);
    assert Count(b) == 0 && Fits(b, data);
    var a := Append(b, data, None);
    assert a.tail == 3 && a.head == 6 && Count(a) == 5;
    var u := Unread(a);
    assert u == data;
    assert MaxLength(a) == 2;
    MaxLengthIsRun(a);
    assert u[..2] == a.storage[6..8] == a.storage[6..];
    assert u[2..] == a.storage[..3];
  }

  /** Reading the five bytes of `WrappingAppend` back empties the buffer with `head` at 3. */
  lemma WrappingRoundTrip(s: seq<Byte>, data: seq<Byte>, flags: Flags)
    requires |s| == 8 && |data| == 5
    ensures var a := Append(Buffer(s, 8, 6, 6, None, NoLock), data, None);
      Count(a) == 5 && Unread(MarkAsRead(a, 5, flags).0) == [] && MarkAsRead(a, 5, flags).0.head == 3
  {
    WrappingAppend(s, data);
  }
}
