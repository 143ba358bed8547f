# CycleBuffer model

A Dafny model of `NetSocket.CycleBuffer`, the growable circular byte buffer that
HaishinKit's socket layer uses between the code that queues outgoing bytes and the
code that hands them to the stream. The model covers:

- the read cursor `head`, the write cursor `tail`, `count` and `maxLength`;
- `append(_:locked:)` with its wrap-around write, and its growth path `extend(_:)`,
  which rotates the unread bytes to the front, adds `capacity` bytes and retries;
- `markAsRead(_:)` with its wrap-around cursor advance and its lock release;
- `clear()` and `init(capacity:)`;
- the one-slot lock protocol: a locked append records a caller's flag (`locked`) and
  the `tail` it ended at (`lockedTail`), and the read that reaches that position clears
  the flag to 0.

The buffer is an immutable `Buffer` value (`storage`, `capacity`, `head`, `tail`,
`locked`, `lockedTail`). Each mutating method is a pure function from the old value to
the new one. The pointer `bytes` is represented by the index `head`. The caller's
`UInt32` flags are a map from an opaque `Handle` to a `bv32`. `MarkAsRead` takes this map
and returns it updated, and clearing a flag is `flags[h := 0]`. The meaning of the buffer
is the abstraction function `Unread(b)`: the `Count(b)` bytes at
`storage[(head + i) % capacity]`, in the order they will be read.

Files:

- `cycle_buffer.dfy`, module `CycleBuffer`: the data model and every operation, as the
  code is written.
- `cycle_buffer_properties.dfy`, module `CycleBufferProperties`: properties that relate
  several calls.
- `cycle_buffer_fixes.dfy`, module `CycleBufferFixes`: lemmas that exhibit the defects
  listed under Findings, and corrected operations with the intended properties proved.

The main model (`CycleBuffer`) follows the code as written. The corrected operations are
kept apart in `CycleBufferFixes`, so the as-written behaviour stays available for
comparison.

Where the evident intent and the code part ways, the model follows the code:

- A release is evidently meant to free the lock slot, and `clear` to restore the initial
  `lockedTail` of -1. The code keeps the handle (lines 71-74), and `clear` sets
  `lockedTail` to 0 (line 81). `ClearThenAppendLikeInit` shows the 0 is never consulted.
- One would expect "CD" to fit into a buffer of capacity 4 that holds "AB". The guard
  `data.count + count < capacity` always keeps one slot free: 2 + 2 is not below 4, so
  "CD" grows the buffer first. `GrowthScenario` proves the actual run. It ends with the
  unread bytes "ABCDEF" as one contiguous run of length 6.
- Growth is evidently meant to keep the unread bytes in order. It does so only when
  `head == 0` or the unread bytes wrap. When the unread bytes wrap, it keeps the bytes but
  not the lock boundary (see Findings); with `head == 0` nothing moves and the boundary
  stays right (`GrowAtZeroKeepsBoundary`).

## Model

| member | source | states |
|---|---|---|
| CycleBuffer.Count | Sources/Net/NetSocket.CycleBuffer.swift:16-19 | the one-sided correction of `tail - head` equals `(tail - head) mod capacity`; it lies in [0, capacity), and it is 0 exactly when `head == tail` |
| CycleBuffer.MaxLength | Sources/Net/NetSocket.CycleBuffer.swift:10-12 | the contiguous run is at most `count` and ends by the physical end; it is shorter than `count` exactly when the unread bytes wrap, and then it reaches exactly to the physical end |
| CycleBuffer.MaxLengthIsRun | Sources/Net/NetSocket.CycleBuffer.swift:10-12 | the contiguous run is the first `maxLength` unread bytes, read in place from `head`, and the remaining unread bytes are `storage[..count - maxLength]` |
| CycleBuffer.Init | Sources/Net/NetSocket.CycleBuffer.swift:26-34 | zero-filled storage of the given size, both cursors at 0, no unread bytes, no handle, `lockedTail` -1; valid when capacity > 0 |
| CycleBuffer.Write | Sources/Net/NetSocket.CycleBuffer.swift:41-58 | the non-growing append keeps `head` and `capacity`, sets `tail` to `(tail + n) mod capacity`, adopts the handle only if none is held, and sets `lockedTail` to the new `tail` whenever a lock is passed |
| CycleBuffer.WriteLayout | Sources/Net/NetSocket.CycleBuffer.swift:45-52 | `data[k]` lands `k` slots past the old `tail`, wrapping at the physical end; every other slot keeps its byte |
| CycleBuffer.WriteContent | Sources/Net/NetSocket.CycleBuffer.swift:45-55 | the non-growing append makes the unread bytes the old unread bytes followed by `data` |
| CycleBuffer.Rotate | Sources/Net/NetSocket.CycleBuffer.swift:86-88 | on storage grown to twice its size, `storage[head..]` lands at the front and the old `storage[..tail]` right after it |
| CycleBuffer.Grow | Sources/Net/NetSocket.CycleBuffer.swift:84-93 | growth doubles `capacity`, puts `head` at 0, keeps the lock fields, keeps `tail` when `head` was 0 and otherwise sets it to `capacity - head + tail`, and preserves the cursor bounds |
| CycleBuffer.GrowLinearizes | Sources/Net/NetSocket.CycleBuffer.swift:85-93 | when `head == 0` or `tail < head`, growth keeps the unread bytes in order and moves them to [0, count) |
| CycleBuffer.Append | Sources/Net/NetSocket.CycleBuffer.swift:36-59 | keeps the cursor bounds and never shrinks `capacity`; on the non-growing path, cursors and lock fields behave as `Write` states; a growing append keeps the old lock fields, so a lock passed to it is dropped; the unread bytes become old ++ data on the non-growing path, and also when growing with `head == 0` or `tail < head` |
| CycleBuffer.Extend | Sources/Net/NetSocket.CycleBuffer.swift:84-95 | growing and retrying terminates, strictly increases `capacity`, keeps the lock fields, and, when `head == 0` or `tail < head`, ends with old unread ++ data (its final cursors are stated by `GrowingAppendLayout`) |
| CycleBuffer.MarkAsRead | Sources/Net/NetSocket.CycleBuffer.swift:61-75 | `head` becomes `(head + n) mod capacity`; storage, `tail`, `capacity` and the handle are unchanged; if a handle is held and `-1 < lockedTail <= new head`, that flag becomes 0, no other flag changes or appears, and `lockedTail` becomes -1; otherwise flags and `lockedTail` are unchanged |
| CycleBuffer.MarkAsReadConsumes | Sources/Net/NetSocket.CycleBuffer.swift:61-70 | reading `n <= count` bytes removes exactly the first `n` unread bytes |
| CycleBuffer.Clear | Sources/Net/NetSocket.CycleBuffer.swift:77-82 | both cursors become 0, `count`, `maxLength` and the unread bytes become empty, the handle is dropped, `lockedTail` becomes 0, and storage and `capacity` are unchanged |
| CycleBufferProperties.EmptyAppendChangesNothing | Sources/Net/NetSocket.CycleBuffer.swift:36-59 | an empty append without a lock leaves the buffer identical |
| CycleBufferProperties.AppendThenDrain | Sources/Net/NetSocket.CycleBuffer.swift:36-70 | appending `data` and then reading the bytes that were already unread leaves exactly `data`, including across the physical end and through growth with `head == 0` or `tail < head` |
| CycleBufferProperties.MarkAsReadComposes | Sources/Net/NetSocket.CycleBuffer.swift:61-70 | reading `m` and then `n` bytes leaves the same `head` and unread bytes as reading `m + n` at once |
| CycleBufferProperties.GrowingAppendContent | Sources/Net/NetSocket.CycleBuffer.swift:84-95 | in every case, an append that grows yields the unread bytes of the grown buffer followed by `data` |
| CycleBufferProperties.GrowingAppendLayout | Sources/Net/NetSocket.CycleBuffer.swift:84-95 | an append that grows always ends with `head == 0` (line 92); when it grows from `head == 0` or from wrapped unread bytes, `tail` ends at `count + data.count` |
| CycleBufferProperties.GrowingAppendIsContiguous | Sources/Net/NetSocket.CycleBuffer.swift:84-95 | an append that grows from `head == 0` or from wrapped unread bytes ends with `head == 0`, `tail == count + data.count`, `maxLength == count`, and the old unread bytes followed by `data` in `storage[..count]` |
| CycleBufferProperties.LockFirstWinsTailLastWins | Sources/Net/NetSocket.CycleBuffer.swift:42-58 | over two fitting locked appends, the first handle is kept and `lockedTail` is the `tail` after the second |
| CycleBufferProperties.DrainToBoundaryReleases | Sources/Net/NetSocket.CycleBuffer.swift:56-74 | for a locked append that does not wrap, a read releases the lock (flag 0, `lockedTail` -1) exactly when it reaches the end of that append; earlier reads leave the flags alone |
| CycleBufferProperties.ReleaseAtMostOnce | Sources/Net/NetSocket.CycleBuffer.swift:71-74 | after a release, a later read neither touches the flags nor sets `lockedTail` again |
| CycleBufferProperties.AppendIgnoresStorage | Sources/Net/NetSocket.CycleBuffer.swift:36-95 | the cursors and lock fields after an append, including its growth rounds, do not depend on the stored bytes |
| CycleBufferProperties.ClearThenAppendLikeInit | Sources/Net/NetSocket.CycleBuffer.swift:77-82 | an append after `clear` yields the same cursors, capacity, unread bytes and handle as on a fresh buffer, and the same `lockedTail` whenever a handle is held |
| CycleBufferProperties.ZeroCapacityNeverFits | Sources/Net/NetSocket.CycleBuffer.swift:31-40 | with capacity 0 the append guard never holds and growing returns the same buffer, so `append` and `extend` would recurse forever |
| CycleBufferProperties.GrowthScenario | Sources/Net/NetSocket.CycleBuffer.swift:36-95 | capacity 4 with "AB", "CD", "EF" appended grows once to 8 and holds "ABCDEF" as one contiguous run |
| CycleBufferProperties.WrappingAppend | Sources/Net/NetSocket.CycleBuffer.swift:45-55 | with capacity 8 and both cursors at 6, five appended bytes become the unread bytes, split 2 + 3 across the physical end, and `maxLength` is 2 |
| CycleBufferProperties.WrappingRoundTrip | Sources/Net/NetSocket.CycleBuffer.swift:61-70 | reading those five bytes back empties the buffer with `head` at 3 |
| CycleBufferFixes.GrowMiscounts | Sources/Net/NetSocket.CycleBuffer.swift:85-89 | for modelled growth with `0 < head <= tail`, the count grows by exactly one old `capacity`; with `head == tail` (the case where the source's copies stay in bounds) an empty buffer claims `capacity` unread bytes |
| CycleBufferFixes.GrowCopyOverruns | Sources/Net/NetSocket.CycleBuffer.swift:31-95 | capacity 4, append 2 bytes, read 1, append 3 reaches growth with `head == 1`, `tail == 2`, where the copy of `storage[..tail]` at `capacity - head` would end past the storage |
| CycleBufferFixes.StaleGrowth | Sources/Net/NetSocket.CycleBuffer.swift:85-93 | growing an empty buffer of capacity 4 whose cursors both sit at 2 yields 4 unread bytes, the stale stored bytes at indices 2, 3, 0 and 1 |
| CycleBufferFixes.GrowExposesStaleBytes | Sources/Net/NetSocket.CycleBuffer.swift:84-94 | appending at least 4 bytes to that empty buffer grows it, and the reader is offered the 4 stale bytes ahead of the appended ones |
| CycleBufferFixes.RunToFront | Sources/Net/NetSocket.CycleBuffer.swift:85-89 | moving `storage[head..tail]` to the front keeps the unread bytes in order at [0, count) |
| CycleBufferFixes.GrowFixed | Sources/Net/NetSocket.CycleBuffer.swift:84-93 | corrected growth doubles `capacity` and keeps the unread bytes in every case, and the lock boundary keeps its distance from `head` |
| CycleBufferFixes.GrowAtZeroKeepsBoundary | Sources/Net/NetSocket.CycleBuffer.swift:84-93 | growth from `head == 0` moves no byte, and the unchanged `lockedTail` equals the corrected one and keeps its distance from `head` |
| CycleBufferFixes.LockedThenWrapped | Sources/Net/NetSocket.CycleBuffer.swift:31-75 | from `init(8)`: append 5, read 5, a locked append of 2, an unlocked append of 2 reach `head == 5`, `tail == 1`, `lockedTail == 7` with the handle held |
| CycleBufferFixes.GrowStrandsLockBoundary | Sources/Net/NetSocket.CycleBuffer.swift:84-93 | from that state, an unlocked 4-byte append grows the buffer and moves the locked bytes to [0, 2) while `lockedTail` stays 7: reading those 2 bytes leaves the flag set, and only a read to `head == 7` releases it |
| CycleBufferFixes.GrowingAppendDropsLock | Sources/Net/NetSocket.CycleBuffer.swift:94 | a locked append that grows records no handle, so no later read clears the caller's flag |
| CycleBufferFixes.WriteKeepsLockInv | Sources/Net/NetSocket.CycleBuffer.swift:56-58 | a non-growing append keeps the lock boundary among the unread bytes and places a new boundary at the end of the unread bytes |
| CycleBufferFixes.AppendFixed | Sources/Net/NetSocket.CycleBuffer.swift:36-95 | the corrected append always ends with old unread ++ data and, when locked, always records its boundary at the new `tail` |
| CycleBufferFixes.EarlyRelease | Sources/Net/NetSocket.CycleBuffer.swift:71 | a locked append that wraps is released by the next read, even a read of 0 bytes, while its bytes are still unread |
| CycleBufferFixes.LateRelease | Sources/Net/NetSocket.CycleBuffer.swift:71 | a locked span followed by bytes that wrap `tail` is never released by the read that drains it: the flag and `lockedTail` stay set |
| CycleBufferFixes.MarkAsReadFixed | Sources/Net/NetSocket.CycleBuffer.swift:61-75 | the corrected read releases exactly when `n` reaches the distance from `head` to the boundary; releasing zeroes the held flag, adds no other flag, and drops the handle; otherwise the remaining distance shrinks by `n` |
| CycleBufferFixes.FixedReleaseAtBoundary | Sources/Net/NetSocket.CycleBuffer.swift:71-74 | with the corrected operations, a locked append, wrapping or growing, is released by exactly the read that drains it |
| CycleBufferFixes.KeptHandleShadowsNextLock | Sources/Net/NetSocket.CycleBuffer.swift:42-44 | after a release the old handle stays stored, so another caller's locked append keeps it and no read can clear the new caller's flag |
| CycleBufferFixes.FixedReleaseAdoptsNextLock | Sources/Net/NetSocket.CycleBuffer.swift:71-74 | after a corrected release, the next locked append adopts its own handle |

## Left out

- The pointer `bytes` (lines 5-9) is represented by the index `head`. The `withUnsafeBytes` and pointer arithmetic are not modelled.
- `OSAtomicAnd32Barrier` (line 72) is modelled only by its effect, flag := 0. Its memory barrier and cross-thread visibility are concurrency concerns outside a sequential model.
- Foundation `Data` resizing is not modelled. At line 46 a wrapping write replaces a range of `length` bytes with all `count` bytes. That lengthens the `Data`; the model writes only `data[..length]` in place. Storage is always exactly `capacity` bytes, and growth yields `2 * capacity`. In the source, line 93 sets `capacity` to the length of the `Data`, so after any wrapping write the capacity after growth exceeds twice the old one; the model's exact doubling is a simplification.
- CycleBuffer.Grow: when `0 < head < tail` and the `Data` holds exactly `capacity` bytes, the range at line 88 ends past `endIndex`, and Foundation's `replaceSubrange` traps on that precondition. The model does not trap: it extends the storage to `2 * capacity` first, so that copy lands in the new bytes (as it does in the source only when earlier wrapping writes have lengthened the `Data`). `GrowCopyOverruns` shows the case is reachable. When `head == tail` every range is in bounds and the model is exact; the stale-bytes counterexample uses that case.
- Logging in the `capacity` observer (lines 21-25) and `debugDescription` (lines 13-15) are not modelled.
- CycleBuffer.MarkAsRead: requires `0 <= n <= count`. The source does not check this; larger `n` leaves garbage cursors.
- CycleBuffer.Append: the unread bytes are stated as old ++ data only on the non-growing path, or when growing from `head == 0` or `tail < head`. In the other growth case, `GrowingAppendContent` states them as `Unread(Grow(b)) + data`, and `GrowMiscounts` and `StaleGrowth` show what `Unread(Grow(b))` then holds (see Findings).
- The enclosing `NetSocket` transport, which decides when to append and when to mark bytes read, is not part of this model.

## Findings

| source | as written | input that shows it | evidently intended | confidence | as-written member | corrected member |
|---|---|---|---|---|---|---|
| Sources/Net/NetSocket.CycleBuffer.swift:85-89 | when `0 < head == tail` (empty), growth still moves `storage[head..]` and then `storage[..tail]` to the front and sets `tail = capacity`, so the whole old storage becomes unread | capacity 4, `head == tail == 2`, append 4 or more bytes: the reader sees 4 stale bytes before the new ones | when the run does not wrap, move `storage[head..tail]` and set `tail = tail - head` | high (not executed) | CycleBufferFixes.GrowExposesStaleBytes | CycleBufferFixes.GrowFixed |
| Sources/Net/NetSocket.CycleBuffer.swift:88 | when `0 < head < tail`, the copy of `storage[..tail]` to index `capacity - head` onwards ends at `capacity - head + tail`, past a `Data` of `capacity` bytes, and `replaceSubrange` traps | `init(4)`, append 2 bytes, `markAsRead(1)`, append 3 bytes | move only `storage[head..tail]`, which stays in bounds | high (not executed) | CycleBufferFixes.GrowCopyOverruns | CycleBufferFixes.GrowFixed |
| Sources/Net/NetSocket.CycleBuffer.swift:85-92 | growth moves the unread bytes to the front but leaves `lockedTail` unchanged | `init(8)`, append 5 bytes, `markAsRead(5)`, locked append of 2 (`lockedTail` 7), append 2 (`tail` wraps to 1), append 4 (grows): the locked bytes sit at [0, 2), yet `markAsRead(2)` leaves the flag set | move `lockedTail` with the bytes, to its distance from `head` | high (not executed) | CycleBufferFixes.GrowStrandsLockBoundary | CycleBufferFixes.GrowFixed |
| Sources/Net/NetSocket.CycleBuffer.swift:94 | the retry after growth calls `append(data)` without the lock | a locked append that does not fit: no handle and no `lockedTail` are recorded, so the caller's flag is never cleared | retry with the same lock | medium (not executed) | CycleBufferFixes.GrowingAppendDropsLock | CycleBufferFixes.AppendFixed |
| Sources/Net/NetSocket.CycleBuffer.swift:71 | release when `lockedTail <= head` as plain integers | capacity 8, both cursors at 5, locked append of 5 bytes: `lockedTail` is 2 and `markAsRead(0)` already clears the flag; and too late (`LateRelease`): both cursors at 4, a locked append of 2 bytes then 3 unlocked, read 5: `head` is 1 and the flag stays set | release when the read covers the distance from `head` to `lockedTail` around the ring | high (not executed) | CycleBufferFixes.EarlyRelease | CycleBufferFixes.MarkAsReadFixed |
| Sources/Net/NetSocket.CycleBuffer.swift:71-74 | releasing keeps the stored handle | handle `p` released, then a locked append with handle `q`: `p` is kept and `q`'s flag is never cleared | drop the handle on release | low (not executed; callers may always pass the same flag) | CycleBufferFixes.KeptHandleShadowsNextLock | CycleBufferFixes.FixedReleaseAdoptsNextLock |
