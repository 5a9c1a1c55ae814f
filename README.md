# RingBuffer: a verified model of a fixed-capacity circular byte queue

This project models the `RingBuffer` class of a USB serial terminal for small
microcontrollers, declared in `ringbuffer.h` and implemented in `ringbuffer.cpp`.
The interrupt handler writes received bytes into the queue, and the foreground
loop drains them one at a time into the command interpreter.

The class is modelled as the Dafny class `RingBuffers.RingBuffer` in `ringbuffer.dfy`:

- The storage array `data`, its capacity `size` and the cached `maxindex` are
  `const` fields. They are set only by the constructors, so the capacity is
  fixed for the object's lifetime by construction.
- The cursors `readpos` and `writepos` and the sticky `bufferFullError` flag are
  mutable fields.
- A ghost field `Contents` holds the queued bytes, oldest first.
- `Valid()` ties `Contents` to the array read cyclically from `readpos`
  (`Queued`). It also keeps both cursors below `size` and `maxindex == size - 1`.
- One slot is always kept free. Equal cursors mean "empty", and at most
  `size - 1` bytes are ever queued.

Every operation of the class is modelled:

- `CanRead`, `CanWrite`, `GetRxCountInBuffer` and `GetFullError` are functions.
  They keep the source's branches on cursor order.
- `TryRead` and `WriteUnchecked` are methods with the source's byte-by-byte
  `while` loops. Their cursor step is "increment, then go back to 0 once past
  `maxindex`".
- `Write`, `ClearFullError` and `Reset` are methods that change the fields.

Cursor arithmetic is written without `%` (`Slot`, `Occupied`). The lemmas
`SlotIsModulo` and `OccupiedIsModulo` connect it to arithmetic modulo the
capacity.

`clients.dfy` (module `Clients`) holds callers of the class:

- the overflow policy of the USB receive callback in `main.cpp`;
- the drain loop of `main.cpp`;
- runs on freshly built buffers: a round trip over any sequence of writes and
  reads, in-order delivery through the callback and drain loop, and two concrete
  scenarios.

The rest of `main.cpp` is not modelled.

Three points about the code shape the model:

- The code accepts a zero capacity, and `maxindex` then underflows. The model requires `buflen >= 1`; see "Left out".
- The count query subtracts the raw cursors instead of computing the occupied count. It is modelled as written, and the corrected query sits beside it; see "Findings".
- `writeUnchecked` is public, so it is modelled as an operation of its own.

## Model

| member | source | states |
|---|---|---|
| RingBuffers.RingBuffer.constructor | ringbuffer.cpp:13-20 | a buffer of `buflen` slots over fresh storage, `maxindex == size - 1`, both cursors 0, flag clear, nothing queued |
| RingBuffers.RingBuffer.Default | ringbuffer.cpp:4-11 | the same with capacity 256 |
| RingBuffers.SlotIsModulo | ringbuffer.cpp:54-57 | stepping a cursor k times with the wrap past `maxindex` lands on `(p + k) mod size` |
| RingBuffers.OccupiedIsModulo | ringbuffer.cpp:31-49 | the queued count used by both branches of canRead/canWrite is `(writepos - readpos) mod size`, whichever cursor is ahead |
| RingBuffers.RingBuffer.OccupiedCount | ringbuffer.cpp:27-29 | corrected count query: `(writepos - readpos) mod size` equals the number of queued bytes and is at most `size - 1` |
| RingBuffers.RingBuffer.GetRxCountInBuffer | ringbuffer.cpp:27-29 | the uint16_t result is below 65536 and is `(writepos - readpos) mod 65536`; it equals the queued count when `readpos <= writepos` (capacity at most 65536) and is strictly larger than it when the write cursor has wrapped behind the read cursor (capacity below 65536) |
| RingBuffers.ReadStep | ringbuffer.cpp:54-56 | one iteration of tryRead's loop: with the cursors apart, the byte under `readpos` is the oldest queued byte, and stepping `readpos` with the wrap past `maxindex` leaves exactly the rest of the queue stored from the new cursor |
| RingBuffers.WriteStep | ringbuffer.cpp:73-75 | one iteration of writeUnchecked's loop: while a free slot remains, storing a byte under `writepos` and stepping it with the wrap appends that byte and leaves every queued byte intact |
| RingBuffers.RingBuffer.CanRead | ringbuffer.cpp:31-39 | true iff `length` is at most the occupied count (`Occupied`, which `OccupiedIsModulo` equates with `(writepos - readpos) mod size`), i.e. at least `length` bytes are queued, in both the wrapped and unwrapped branches; reads only |
| RingBuffers.RingBuffer.CanWrite | ringbuffer.cpp:41-49 | true iff occupied count plus `length` is below `size`, so at most `size - 1` bytes can be queued; reads only |
| RingBuffers.RingBuffer.TryRead | ringbuffer.cpp:51-60 | returns `min(length, queued)` (0 when empty, never more than `length`), copies that many oldest bytes into `buf` in FIFO order, leaves the rest of `buf` alone, pops them from the queue, moves `readpos` on by the count with the wrap past `maxindex` (by `SlotIsModulo`, `(readpos + count) mod size`), and leaves `writepos`, the flag and the storage unchanged |
| RingBuffers.RingBuffer.Write | ringbuffer.cpp:62-70 | all or nothing: returns the old `canWrite(length)`; on failure sets the flag and leaves cursors, queue and storage unchanged; on success appends all `length` bytes in order, moves `writepos` on by `length` with the wrap (`(writepos + length) mod size`), keeps the flag, never lands `writepos` on `readpos` for a non-empty write; `readpos` and the caller's bytes are never changed |
| RingBuffers.RingBuffer.WriteUnchecked | ringbuffer.cpp:72-77 | when the bytes fit, appends them in order behind the queued bytes (which stay intact), moves `writepos` on by `length` with the wrap (`(writepos + length) mod size`), and leaves `readpos`, the flag and the caller's bytes unchanged |
| RingBuffers.RingBuffer.GetFullError | ringbuffer.cpp:79-81 | reports the sticky overflow flag; reads only |
| RingBuffers.RingBuffer.ClearFullError | ringbuffer.cpp:83-85 | the flag is false afterwards, and cursors and queue are unchanged, so a second call changes nothing |
| RingBuffers.RingBuffer.Reset | ringbuffer.cpp:87-91 | both cursors 0, flag clear, queue empty with storage untouched; afterwards `canRead(1)` is false and `canWrite(size - 1)` is true |
| Clients.SerialCb | main.cpp:85-94 | a byte that fits is appended and the flag kept; a byte that does not fit empties the queue by `reset()`, which also clears the flag the failed write set |
| Clients.DrainLoop | main.cpp:162-170 | the loop delivers exactly the queued bytes in order and empties the queue; `tryRead(&tc, 1)` after `canRead(1)` always returns 1, so the failed-read branch is unreachable |
| Clients.DeliveredInOrder | main.cpp:85-94 | bytes arriving through the receive callback, drained after each burst shorter than the capacity, reach the consumer complete and in arrival order, across any number of cursor wraps |
| Clients.Perform | ringbuffer.cpp:51-70 | one write or read: a write is rejected exactly when the old `canWrite(payload length)` fails, and a rejected write leaves the queue alone and only sets the flag; a read takes `min(count, queued)` bytes and is never rejected; the flag ends set exactly when it was set or the write was rejected; unless rejected, bytes read followed by bytes still queued equal the old queue followed by bytes written |
| Clients.Run | ringbuffer.cpp:51-77 | a sequence of writes and reads on one buffer: no write is rejected exactly when the run keeps to the capacity discipline `Fits` (every payload finds room with one slot free, every read takes what it can); the flag ends set exactly when it was set before or some write was rejected; with no rejection, the bytes read followed by the bytes still queued equal the old queue followed by every payload in call order |
| Clients.RoundTrip | ringbuffer.cpp:51-77 | on a fresh buffer of any capacity of at least 1, a run has no rejected write exactly when it never exceeds the capacity (`Fits` from an empty queue), and then the bytes read and drained, concatenated in call order, are exactly the payloads written, with no loss or duplication |
| Clients.FillCapacity4 | ringbuffer.cpp:41-70 | capacity 4: single-byte writes of A, B and C succeed, the fourth write is rejected, the flag is set and the queue holds A, B, C |
| Clients.Capacity4Scenario | ringbuffer.cpp:41-91 | capacity 4: writes of A, B, C succeed; D is rejected, sets the flag and leaves 3 bytes queued; reading 3 yields A, B, C and empties the buffer, with the flag still set; two clears leave it clear; D then fits |
| Clients.WrappedCountScenario | ringbuffer.cpp:27-29 | capacity 4 with `readpos` 3 and `writepos` 1: 2 bytes are queued but the count query reports 65534 |

## Left out

- RingBuffers.RingBuffer.WriteUnchecked: requires `CanWrite(length)`. The code does not check this. A call without room overwrites unread bytes, and that corruption is not modelled.
- RingBuffers.RingBuffer.CanRead: `length` is an unbounded natural. The `size_t` sum `readpos + length` that wraps for huge lengths in the code is not modelled.
- RingBuffers.RingBuffer.CanWrite: the same `size_t` wrap of `writepos + length` is not modelled.
- RingBuffers.RingBuffer.constructor: requires `buflen >= 1`. The code accepts 0, and `maxindex` then underflows. Such a buffer is unusable, so it is not modelled.
- Caller buffers: the `uint8_t*` arguments are Dafny arrays. The model requires `length` within the array's bounds, which is undefined behaviour in the code otherwise. It also requires the array to be distinct from the private storage.
- `maxindex` is a `uint32_t` and `size` a `size_t`. Both are 32 bits on the target, and the model uses naturals. `GetRxCountInBuffer` wraps the subtraction at 2^32 and then truncates to 16 bits. The result is the same for any `size_t` width that is a multiple of 16.
- Concurrency between the receive interrupt and the main loop is not modelled. This covers torn reads of the cursors and memory ordering, such as `tryRead` re-reading `writepos` on each iteration. The model is sequential.
- The destructor is not modelled. It frees the storage with `delete` instead of `delete[]`, and Dafny has no deallocation.
- The rest of `main.cpp` is hardware and library glue and is not modelled. This includes USB enumeration, the tinysh interpreter (the drained bytes are returned instead of passed to `tinysh_char_in`), the LED, delays, clock reads and the printed diagnostic after a reset.

## Findings

| source | as written | input that shows it | evidently intended | confidence | as-written member | corrected member |
|---|---|---|---|---|---|---|
| ringbuffer.cpp:27-29 | the count is `writepos - readpos` in `size_t`, truncated to `uint16_t` | capacity 4; write 3 bytes, read 3, write 2 (`readpos` 3, `writepos` 1): 2 bytes queued, count 65534 | the number of queued bytes, `(writepos - readpos) mod size` | high; not executed | RingBuffers.RingBuffer.GetRxCountInBuffer (exhibited by Clients.WrappedCountScenario) | RingBuffers.RingBuffer.OccupiedCount |
