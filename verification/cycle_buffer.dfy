/**
 A model of `NetSocket.CycleBuffer`: a growable circular byte buffer with a read
 cursor `head`, a write cursor `tail`, and a one-slot lock protocol through which
 a caller learns that the bytes it appended "under lock" have all been read.

 The buffer is an immutable `Buffer` value; every mutating operation of
 `NetSocket.CycleBuffer` is a pure function from the old value to the new one. The caller-owned
 `UInt32` flags that the buffer may point to are a `Flags` map passed to and
 returned from `MarkAsRead`, the only operation that writes one.
 */
module CycleBuffer {

  type Byte = bv8

  /** Identity of a caller-owned `UInt32` flag the buffer may hold a pointer to. */
  type Handle = nat

  /** The caller-owned flags, by handle. */
  type Flags = map<Handle, bv32>

  datatype Option<T> = None | Some(value: T)

  /** Value of `lockedTail` while no locked span is outstanding. */
  const NoLock: int := -1

  datatype Buffer = Buffer(
    storage: seq<Byte>,
    capacity: int,
    head: int,
    tail: int,
    locked: Option<Handle>,
    lockedTail: int)

  /** The cursor bounds every operation keeps. */
  predicate Valid(b: Buffer) {
    0 < b.capacity && |b.storage| == b.capacity &&
    0 <= b.head < b.capacity && 0 <= b.tail < b.capacity
  }

  /** The weaker shape a freshly initialised buffer of any capacity has. */
  predicate Shaped(b: Buffer) {
    0 <= b.capacity && |b.storage| == b.capacity &&
    0 <= b.head <= b.capacity && 0 <= b.tail <= b.capacity
  }

  function Min(a: int, b: int): int {
    if a < b then a else b
  }

  function Zeros(n: nat): (r: seq<Byte>)
    ensures |r| == n
    ensures forall i :: 0 <= i < n ==> r[i] == 0
  {
    seq(n, _ => 0)
  }

  /** `x % m` for an `x` at most one lap past `m`, computed as the source does: by one subtraction. */
  function Wrap(x: int, m: int): (r: int)
    requires 0 < m && 0 <= x < 2 * m
    ensures 0 <= r < m
    ensures r == x % m
  {
    if x < m then x else
      ModOneLap(x, m);
      x - m
  }

  lemma ModOneLap(x: int, m: int)
    requires 0 < m <= x < 2 * m
    ensures x % m == x - m
  {
  }

  lemma ModInRange(x: int, m: int)
    requires 0 <= x < m
    ensures x % m == x
  {
  }

  lemma ModNegativeLap(x: int, m: int)
    requires 0 < m && -m <= x < 0
    ensures x % m == x + m
  {
  }

  /** Distance forward from position `from` to position `to` around a ring of size `m`. */
  function Dist(from: int, to: int, m: int): (r: int)
    requires 0 < m && 0 <= from < m && 0 <= to < m
    ensures 0 <= r < m
    ensures (from + r) % m == to
  {
    if from <= to then
      ModInRange(to, m);
      to - from
    else
      ModOneLap(to + m, m);
      to - from + m
  }

  /** `s` with `d` written over it starting at index `at`. */
  function Overwrite(s: seq<Byte>, at: int, d: seq<Byte>): (r: seq<Byte>)
    requires 0 <= at && at + |d| <= |s|
    ensures |r| == |s|
    ensures forall i :: 0 <= i < |s| ==> r[i] == if at <= i < at + |d| then d[i - at] else s[i]
  {
    s[..at] + d + s[at + |d|..]
  }

  /** The source's one-sided correction of a negative difference is the mathematical modulus. */
  lemma CorrectedDifference(t: int, h: int, m: int)
    requires 0 < m && 0 <= t < m && 0 <= h < m
    ensures (if t - h < 0 then t - h + m else t - h) == (t - h) % m
  {
    if t - h < 0 {
      ModNegativeLap(t - h, m);
    } else {
      ModInRange(t - h, m);
    }
  }

  /** `count`: the number of unread bytes. */
  function Count(b: Buffer): (r: int)
    ensures Valid(b) ==> 0 <= r < b.capacity
    ensures Valid(b) ==> r == (b.tail - b.head) % b.capacity
    ensures Valid(b) ==> (r == 0 <==> b.head == b.tail)
  {
    var value := b.tail - b.head;
    if Valid(b) then
      CorrectedDifference(b.tail, b.head, b.capacity);
      if value < 0 then value + b.capacity else value
    else
      if value < 0 then value + b.capacity else value
  }

  /** Physical index of the `i`-th unread byte. */
  function Slot(b: Buffer, i: int): (r: int)
    requires Valid(b) && 0 <= i < b.capacity
    ensures 0 <= r < b.capacity
    ensures r == (b.head + i) % b.capacity
  {
    Wrap(b.head + i, b.capacity)
  }

  /** Advancing a cursor by `m` and then by `n` wraps as advancing it by `m + n` does. */
  lemma WrapTwice(h: int, m: int, n: int, c: int)
    requires 0 <= h < c && 0 <= m && 0 <= n && m + n < c
    ensures Wrap(Wrap(h + m, c) + n, c) == Wrap(h + m + n, c)
  {
  }

  /** The abstraction function: the unread bytes in the order they will be read. */
  function Unread(b: Buffer): (r: seq<Byte>)
    requires Valid(b)
    ensures |r| == Count(b)
  {
    seq(Count(b), i requires 0 <= i < Count(b) => b.storage[Slot(b, i)])
  }

  /** The unread bytes depend on the storage and the cursors only, not on the lock fields. */
  lemma UnreadFromCursors(x: Buffer, y: Buffer)
    requires Valid(x) && Valid(y)
    requires x.storage == y.storage && x.capacity == y.capacity && x.head == y.head && x.tail == y.tail
    ensures Unread(x) == Unread(y)
  {
    assert Count(x) == Count(y);
    forall k | 0 <= k < Count(x)
      ensures Unread(x)[k] == Unread(y)[k]
    {
      assert Slot(x, k) == Slot(y, k);
    }
  }

  /** `maxLength`: how many unread bytes lie contiguously from `head` before the physical end. */
  function MaxLength(b: Buffer): (r: int)
    requires Valid(b)
    ensures 0 <= r <= Count(b) && b.head + r <= b.capacity
    ensures r < Count(b) <==> b.head + Count(b) > b.capacity
    ensures r < Count(b) ==> b.head + r == b.capacity
  {
    Min(Count(b), b.capacity - b.head)
  }

  /**
   The contiguous run is the first `MaxLength` unread bytes, read in place from `head`;
   the rest of the unread bytes start at index 0.
   */
  lemma MaxLengthIsRun(b: Buffer)
    requires Valid(b)
    ensures Unread(b)[..MaxLength(b)] == b.storage[b.head..b.head + MaxLength(b)]
    ensures Unread(b)[MaxLength(b)..] == b.storage[..Count(b) - MaxLength(b)]
  {
    var r := MaxLength(b);
    assert Unread(b)[..r] == b.storage[b.head..b.head + r];
    assert Unread(b)[r..] == b.storage[..Count(b) - r] by {
      forall i | 0 <= i < Count(b) - r
        ensures Unread(b)[r + i] == b.storage[i]
      {
        assert Slot(b, r + i) == i;
      }
    }
  }

  /** `init(capacity:)`: zero-filled storage, both cursors at 0, no lock. */
  function Init(capacity: int): (r: Buffer)
    requires 0 <= capacity
    ensures Shaped(r) && r.capacity == capacity
    ensures r.head == 0 && r.tail == 0
    ensures 0 < capacity ==> Valid(r) && Unread(r) == []
    ensures r.locked == None && r.lockedTail == NoLock
    ensures forall i :: 0 <= i < capacity ==> r.storage[i] == 0
  {
    Buffer(Zeros(capacity), capacity, 0, 0, None, NoLock)
  }

  /** The guard of `append`: the bytes fit without growing (one slot always stays free). */
  predicate Fits(b: Buffer, data: seq<Byte>) {
    |data| + Count(b) < b.capacity
  }

  /** How far an append overflows the buffer; growth strictly reduces it while `head == 0`. */
  function Debt(b: Buffer, data: seq<Byte>): nat {
    if Fits(b, data) then 0 else |data| + Count(b) + 1 - b.capacity
  }

  /** Where `head + k` lands relative to `tail`: the written range begins `Count` bytes past `head`. */
  lemma DistOfSlot(b: Buffer, k: int)
    requires Valid(b) && 0 <= k < b.capacity
    ensures Dist(b.tail, Slot(b, k), b.capacity) ==
            if k < Count(b) then b.capacity - Count(b) + k else k - Count(b)
  {
  }

  /**
   The non-growing path of `append`: copy the bytes in at `tail` (the part that does not
   fit before the physical end goes to index 0), advance `tail`, then record the lock:
   the handle only if none is held, `lockedTail` whenever a lock is passed.
   */
  function Write(b: Buffer, data: seq<Byte>, lock: Option<Handle>): (r: Buffer)
    requires Valid(b) && Fits(b, data)
    ensures Valid(r)
    ensures r.capacity == b.capacity && r.head == b.head
    ensures r.tail == (b.tail + |data|) % b.capacity
    ensures r.locked == if b.locked.None? then lock else b.locked
    ensures r.lockedTail == if lock.Some? then r.tail else b.lockedTail
  {
    var n := |data|;
    var length := Min(n, b.capacity - b.tail);
    var s1 := Overwrite(b.storage, b.tail, data[..length]);
    var s2 := if length < n then Overwrite(s1, 0, data[length..]) else s1;
    var t := if length < n then n - length else b.tail + n;
    var t' := if b.capacity == t then 0 else t;
    assert t' == Wrap(b.tail + n, b.capacity);
    b.(storage := s2, tail := t',
       locked := if b.locked.None? then lock else b.locked,
       lockedTail := if lock.Some? then t' else b.lockedTail)
  }

  /** What `Write` stores: `data[k]` lands `k` slots past the old `tail`, and every other slot keeps its byte. */
  lemma WriteLayout(b: Buffer, data: seq<Byte>, lock: Option<Handle>)
    requires Valid(b) && Fits(b, data)
    ensures forall i :: 0 <= i < b.capacity ==>
      Write(b, data, lock).storage[i] ==
        if Dist(b.tail, i, b.capacity) < |data| then data[Dist(b.tail, i, b.capacity)] else b.storage[i]
  {
    var r := Write(b, data, lock);
    var c := b.capacity;
    forall i | 0 <= i < c
      ensures r.storage[i] == if Dist(b.tail, i, c) < |data| then data[Dist(b.tail, i, c)] else b.storage[i]
    {
    }
  }

  /** What `Write` means: the unread bytes become the old unread bytes followed by `data`. */
  lemma WriteContent(b: Buffer, data: seq<Byte>, lock: Option<Handle>)
    requires Valid(b) && Fits(b, data)
    ensures Unread(Write(b, data, lock)) == Unread(b) + data
  {
    var r := Write(b, data, lock);
    WriteLayout(b, data, lock);
    assert Count(r) == Count(b) + |data|;
    forall k | 0 <= k < Count(r)
      ensures Unread(r)[k] == (Unread(b) + data)[k]
    {
      DistOfSlot(b, k);
      assert Slot(r, k) == Slot(b, k);
    }
  }

  /**
   The rotation of `extend` on storage already grown to `2 * |s|` bytes: `s[head..]` goes
   to the front and the old `s[..tail]` right after it; the rest keeps the grown bytes.
   */
  function Rotate(s: seq<Byte>, head: int, tail: int): (r: seq<Byte>)
    requires 0 < head <= |s| && 0 <= tail <= |s|
    ensures |r| == 2 * |s|
    ensures forall i :: 0 <= i < |s| - head ==> r[i] == s[head + i]
    ensures forall i :: 0 <= i < tail ==> r[|s| - head + i] == s[i]
  {
    var grown := s + Zeros(|s|);
    var s1 := Overwrite(grown, 0, s[head..]);
    Overwrite(s1, |s| - head, s[..tail])
  }

  /**
   The growth step of `extend`: when `head > 0`, move `storage[head..]` to the front and
   the old `storage[..tail]` after it and set `tail` past them; then add `capacity` zero
   bytes, put `head` at 0 and double `capacity`.
   */
  function Grow(b: Buffer): (r: Buffer)
    requires Shaped(b)
    ensures Shaped(r)
    ensures r.capacity == 2 * b.capacity && r.head == 0
    ensures r.locked == b.locked && r.lockedTail == b.lockedTail
    ensures b.head == 0 ==> r.tail == b.tail && r.storage[..b.capacity] == b.storage
    ensures 0 < b.head ==> r.tail == b.capacity - b.head + b.tail
    ensures Valid(b) ==> Valid(r)
  {
    var c := b.capacity;
    if 0 < b.head then
      b.(storage := Rotate(b.storage, b.head, b.tail), capacity := 2 * c, head := 0, tail := c - b.head + b.tail)
    else
      b.(storage := b.storage + Zeros(c), capacity := 2 * c, head := 0)
  }

  /**
   The rotation of `Grow` is a linearisation when nothing is rotated (`head == 0`) or the
   unread bytes wrap past the physical end (`tail < head`): the unread bytes are kept, in
   order, now at `[0, Count)`.
   */
  lemma GrowLinearizes(b: Buffer)
    requires Valid(b) && (b.head == 0 || b.tail < b.head)
    ensures Grow(b).tail == Count(b)
    ensures Unread(Grow(b)) == Unread(b)
  {
    var r := Grow(b);
    var c := b.capacity;
    assert Count(r) == Count(b);
    forall k | 0 <= k < Count(b)
      ensures Unread(r)[k] == Unread(b)[k]
    {
      assert Slot(r, k) == k;
      if b.head == 0 {
        assert Slot(b, k) == k;
      } else if k < c - b.head {
        assert Slot(b, k) == b.head + k;
      } else {
        assert Slot(b, k) == k - (c - b.head);
      }
    }
  }

  /**
   `append(_:locked:)`. If the bytes fit they are written in place; otherwise the buffer
   grows and the append is retried WITHOUT the lock argument, so a locked append that
   grows records neither handle nor `lockedTail`.
   */
  function Append(b: Buffer, data: seq<Byte>, lock: Option<Handle>): (r: Buffer)
    requires Valid(b)
    ensures Valid(r) && r.capacity >= b.capacity
    ensures Fits(b, data) ==>
      r.capacity == b.capacity && r.head == b.head && r.tail == (b.tail + |data|) % b.capacity
    ensures Fits(b, data) || b.head == 0 || b.tail < b.head ==> Unread(r) == Unread(b) + data
    ensures Fits(b, data) ==>
      r.locked == (if b.locked.None? then lock else b.locked) &&
      r.lockedTail == (if lock.Some? then r.tail else b.lockedTail)
    ensures !Fits(b, data) ==> r.capacity > b.capacity && r.locked == b.locked && r.lockedTail == b.lockedTail
    decreases if b.head > 0 then 1 else 0, Debt(b, data), 1
  {
    if Fits(b, data) then
      WriteContent(b, data, lock);
      Write(b, data, lock)
    else
      Extend(b, data)
  }

  /** `extend(_:)`: grow, then retry the append with no lock. */
  function Extend(b: Buffer, data: seq<Byte>): (r: Buffer)
    requires Valid(b) && !Fits(b, data)
    ensures Valid(r) && r.capacity > b.capacity
    ensures r.locked == b.locked && r.lockedTail == b.lockedTail
    ensures b.head == 0 || b.tail < b.head ==> Unread(r) == Unread(b) + data
    decreases if b.head > 0 then 1 else 0, Debt(b, data), 0
  {
    if b.head == 0 || b.tail < b.head then
      GrowLinearizes(b);
      Append(Grow(b), data, None)
    else
      Append(Grow(b), data, None)
  }

  /** The lock test of `markAsRead`: a handle is held and the plain integer `lockedTail` is at most the new head. */
  predicate Releases(b: Buffer, newHead: int) {
    b.locked.Some? && NoLock < b.lockedTail && b.lockedTail <= newHead
  }

  /**
   `markAsRead(_:)`: advance `head` by `n`, wrapping once, then release the lock if the
   new head has reached `lockedTail`. Releasing zeroes the held flag and resets
   `lockedTail`, but keeps the handle.
   */
  function MarkAsRead(b: Buffer, n: int, flags: Flags): (r: (Buffer, Flags))
    requires Valid(b) && 0 <= n <= Count(b)
    ensures Valid(r.0)
    ensures r.0.head == Slot(b, n) && r.0.head == (b.head + n) % b.capacity
    ensures r.0.storage == b.storage && r.0.capacity == b.capacity && r.0.tail == b.tail
    ensures r.0.locked == b.locked
    ensures Releases(b, r.0.head) ==>
      r.0.lockedTail == NoLock && b.locked.value in r.1 && r.1[b.locked.value] == 0 &&
      r.1.Keys == flags.Keys + {b.locked.value} &&
      forall h :: h in flags && h != b.locked.value ==> h in r.1 && r.1[h] == flags[h]
    ensures !Releases(b, r.0.head) ==> r.0.lockedTail == b.lockedTail && r.1 == flags
  {
    var length := Min(n, b.capacity - b.head);
    var h := if length < n then n - length else b.head + n;
    var h' := if b.capacity == h then 0 else h;
    assert h' == Slot(b, n);
    if Releases(b, h') then
      (b.(head := h', lockedTail := NoLock), flags[b.locked.value := 0])
    else
      (b.(head := h'), flags)
  }

  /** Reading `n` bytes drops exactly the first `n` unread bytes. */
  lemma MarkAsReadConsumes(b: Buffer, n: int, flags: Flags)
    requires Valid(b) && 0 <= n <= Count(b)
    ensures Unread(MarkAsRead(b, n, flags).0) == Unread(b)[n..]
  {
    AdvanceHead(b, n);
    UnreadFromCursors(MarkAsRead(b, n, flags).0, b.(head := Slot(b, n)));
  }

  /** Moving `head` forward by `n <= count` slots drops exactly the first `n` unread bytes. */
  lemma AdvanceHead(b: Buffer, n: int)
    requires Valid(b) && 0 <= n <= Count(b)
    ensures Valid(b.(head := Slot(b, n)))
    ensures Count(b.(head := Slot(b, n))) == Count(b) - n
    ensures Unread(b.(head := Slot(b, n))) == Unread(b)[n..]
  {
    var r := b.(head := Slot(b, n));
    assert Count(r) == Count(b) - n;
    forall k | 0 <= k < Count(r)
      ensures Unread(r)[k] == Unread(b)[n + k]
    {
      assert Slot(r, k) == Slot(b, n + k);
    }
  }

  /** `clear()`: both cursors to 0 and the handle dropped; `lockedTail` becomes 0, not `NoLock`. */
  function Clear(b: Buffer): (r: Buffer)
    requires Valid(b)
    ensures Valid(r) && r.head == 0 && r.tail == 0
    ensures Count(r) == 0 && MaxLength(r) == 0 && Unread(r) == []
    ensures r.storage == b.storage && r.capacity == b.capacity
    ensures r.locked == None && r.lockedTail == 0
  {
    b.(head := 0, tail := 0, locked := None, lockedTail := 0)
  }
}
