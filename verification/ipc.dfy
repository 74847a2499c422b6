/**
 The shared-memory message queues (PlatformQueueIPC and its low-latency
 twin): a byte ring of `capacity` bytes with a write position, a read
 position and a count of bytes held, carrying messages framed by a 4-byte
 length header. The processes, the shared mapping and the inter-process
 locks are not modelled; one ring value stands for the shared header and
 buffer between two calls.
 */
module RingQueues {
  import opened ObjectBuffers

  /** sizeof(PlatformBufferHeader): one 32-bit length. */
  const HeaderBytes: nat := 4

  /** The range of a uint32_t. */
  const Word: nat := 0x1_0000_0000

  /**
   The largest ring whose positions the model follows: at most 2^31 bytes, so
   that a position plus a count of at most the capacity stays below 2^32.
   */
  const MaxCapacity: nat := 0x8000_0000

  /** The constructor defaults: 64 messages of at most 1024 bytes. */
  const DefaultQueueSize: nat := 64
  const DefaultBufferSize: nat := 1024

  /** The shared queue header (positions, count, capacity) together with the buffer it describes. */
  datatype Ring = Ring(buffer: seq<uint8>, capacity: nat, writePos: nat, readPos: nat, size: nat)

  /** What a call does: returns its boolean with the state after it, waits for the other process, or aborts. */
  datatype Step<T> = Returned(ok: bool, value: T) | Waits | Aborted

  /** A position past the end of the ring wrapped once. */
  function Slot(x: nat, cap: nat): (p: nat)
    requires x < 2 * cap
    ensures p < cap && (x < cap ==> p == x) && (x >= cap ==> p + cap == x)
  {
    if x < cap then x else x - cap
  }

  /** The source's `% capacity` on a position advanced by at most one capacity is a single wrap. */
  lemma ModSlot(x: nat, cap: nat)
    requires x < 2 * cap
    ensures x % cap == Slot(x, cap)
  {
    if x < cap {
      assert x == 0 * cap + x;
    } else {
      assert x == 1 * cap + (x - cap);
    }
  }

  /**
   A position moved `n` bytes on, as write_buffer and read_buffer compute it:
   the uint32 sum, then modulo the capacity.
   */
  function Advance(p: nat, n: nat, cap: nat): (q: nat)
    requires cap > 0
    ensures q < cap
  {
    ((p + n) % Word) % cap
  }

  /** In a ring of at most 2^31 bytes the uint32 sum cannot wrap, so advancing wraps once at the capacity. */
  lemma AdvanceIsSlot(p: nat, n: nat, cap: nat)
    requires 0 < cap <= MaxCapacity && p + n < 2 * cap
    ensures Advance(p, n, cap) == Slot(p + n, cap)
  {
    assert (p + n) % Word == p + n;
    ModSlot(p + n, cap);
  }

  /**
   Above 2^31 bytes the uint32 sum wraps: in a ring of 0xC000_0000 bytes,
   advancing 0x6000_0000 bytes from 0xB000_0000 lands on 0x1000_0000, while
   the byte after the last one written is at 0x5000_0000.
   */
  lemma AdvanceWrapsAboveMax()
    ensures Advance(0xB000_0000, 0x6000_0000, 0xC000_0000) == 0x1000_0000
    ensures Slot(0xB000_0000 + 0x6000_0000, 0xC000_0000) == 0x5000_0000
  {
    assert (0xB000_0000 + 0x6000_0000) % Word == 0x1000_0000;
  }

  /**
   A consistent ring: at most 2^31 bytes, the buffer has `capacity` bytes, the
   positions lie inside it, and the write position is `size` bytes after the
   read position.
   */
  predicate Valid(r: Ring) {
    0 < r.capacity <= MaxCapacity && |r.buffer| == r.capacity &&
    r.readPos < r.capacity && r.size <= r.capacity &&
    r.writePos == Slot(r.readPos + r.size, r.capacity)
  }

  /** The bytes the ring holds, from the read position on, in order. */
  function Contents(r: Ring): (c: seq<uint8>)
    requires Valid(r)
    ensures |c| == r.size
  {
    seq(r.size, i requires 0 <= i < r.size => r.buffer[Slot(r.readPos + i, r.capacity)])
  }

  /**
   The header initialisation: empty ring, slots of the payload size plus the
   header, and a capacity of one slot per message, all in 32-bit arithmetic.
   */
  function Init(queueSize: nat, bufferSize: nat, zeroes: seq<uint8>): (r: Ring)
    requires queueSize < Word && bufferSize < Word
    requires |zeroes| == ((bufferSize + HeaderBytes) % Word * queueSize) % Word
    ensures r.size == 0 && r.readPos == 0 && r.writePos == 0
    ensures 0 < queueSize && bufferSize + HeaderBytes < Word && (bufferSize + HeaderBytes) * queueSize < Word ==>
      r.capacity == (bufferSize + HeaderBytes) * queueSize
    ensures 0 < r.capacity <= MaxCapacity ==> Valid(r) && Contents(r) == []
  {
    var slot := (bufferSize + HeaderBytes) % Word;
    UnwrappedProduct(bufferSize + HeaderBytes, queueSize);
    Ring(zeroes, (slot * queueSize) % Word, 0, 0, 0)
  }

  /** A 32-bit product whose factors and result fit in 32 bits does not wrap. */
  lemma UnwrappedProduct(x: nat, q: nat)
    ensures x < Word && x * q < Word ==> (x % Word * q) % Word == x * q
  {
    if x < Word && x * q < Word {
      assert x % Word == x;
      assert (x * q) % Word == x * q;
    }
  }

  // ---------------------------------------------------------------------------
  // write_buffer / read_buffer

  /** Where write_buffer puts `n` bytes from position `w`: up to the end, then from the start. */
  predicate Covered(p: nat, w: nat, n: nat, cap: nat) {
    (w <= p < w + n) || p + cap < w + n
  }

  /** The ring after write_buffer's one or two copies, when the data fits. */
  function Written(r: Ring, data: seq<uint8>): (r': Ring)
    requires Valid(r) && |data| <= r.capacity - r.size
    ensures |r'.buffer| == r.capacity
  {
    var rem := r.capacity - r.writePos;
    var buf := if rem < |data| then data[rem..] + r.buffer[|data| - rem .. r.writePos] + data[..rem]
               else r.buffer[..r.writePos] + data + r.buffer[r.writePos + |data|..];
    Ring(buf, r.capacity, Advance(r.writePos, |data|, r.capacity), r.readPos, r.size + |data|)
  }

  /** Pointwise, the copies put `data` at the covered positions and leave the others alone. */
  lemma WrittenBytes(r: Ring, data: seq<uint8>, p: nat)
    requires Valid(r) && |data| <= r.capacity - r.size && p < r.capacity
    ensures Covered(p, r.writePos, |data|, r.capacity) ==>
      Written(r, data).buffer[p] == data[if p >= r.writePos then p - r.writePos else p + r.capacity - r.writePos]
    ensures !Covered(p, r.writePos, |data|, r.capacity) ==> Written(r, data).buffer[p] == r.buffer[p]
  {
  }

  /** After write_buffer the ring is consistent again, `|data|` bytes fuller. */
  lemma WrittenValid(r: Ring, data: seq<uint8>)
    requires Valid(r) && |data| <= r.capacity - r.size
    ensures Valid(Written(r, data))
  {
    AdvanceIsSlot(r.writePos, |data|, r.capacity);
  }

  /** The held byte at index `k` after write_buffer: an old byte below the old count, `data` above. */
  lemma WrittenHeldByte(r: Ring, data: seq<uint8>, k: nat)
    requires Valid(r) && |data| <= r.capacity - r.size && k < r.size + |data|
    ensures Valid(Written(r, data))
    ensures Contents(Written(r, data))[k] == if k < r.size then Contents(r)[k] else data[k - r.size]
  {
    WrittenValid(r, data);
    var p := Slot(r.readPos + k, r.capacity);
    WrittenBytes(r, data, p);
  }

  /** write_buffer appends `data` to the bytes the ring holds and keeps it consistent. */
  lemma WrittenAppends(r: Ring, data: seq<uint8>)
    requires Valid(r) && |data| <= r.capacity - r.size
    ensures Valid(Written(r, data))
    ensures Contents(Written(r, data)) == Contents(r) + data
  {
    WrittenValid(r, data);
    forall k | 0 <= k < r.size + |data|
      ensures Contents(Written(r, data))[k] == (Contents(r) + data)[k]
    {
      WrittenHeldByte(r, data, k);
    }
  }

  /** write_buffer: aborts when the data does not fit in the free space. */
  function WriteBuffer(r: Ring, data: seq<uint8>): (o: Step<Ring>)
    requires Valid(r)
    ensures o.Aborted? <==> |data| > r.capacity - r.size
    ensures o.Returned? ==> Valid(o.value) && Contents(o.value) == Contents(r) + data
  {
    if |data| > r.capacity - r.size then Aborted
    else
      WrittenAppends(r, data);
      Returned(true, Written(r, data))
  }

  /** The bytes read_buffer copies out, and the ring after it, when `n` bytes are held. */
  function Taken(r: Ring, n: nat): (t: (seq<uint8>, Ring))
    requires Valid(r) && n <= r.size
    ensures |t.0| == n
  {
    var rem := r.capacity - r.readPos;
    var data := if rem < n then r.buffer[r.readPos..] + r.buffer[..n - rem]
                else r.buffer[r.readPos .. r.readPos + n];
    (data, r.(readPos := Advance(r.readPos, n, r.capacity), size := r.size - n))
  }

  /** After read_buffer the ring is consistent again, `n` bytes emptier. */
  lemma TakenValid(r: Ring, n: nat)
    requires Valid(r) && n <= r.size
    ensures Valid(Taken(r, n).1)
  {
    AdvanceIsSlot(r.readPos, n, r.capacity);
  }

  /** The byte read_buffer copies to index `k` is the `k`-th held byte. */
  lemma TakenByte(r: Ring, n: nat, k: nat)
    requires Valid(r) && n <= r.size && k < n
    ensures Taken(r, n).0[k] == Contents(r)[k]
  {
    var rem := r.capacity - r.readPos;
    var c := Contents(r);
    assert c[k] == r.buffer[Slot(r.readPos + k, r.capacity)];
    if rem < n {
      var data := r.buffer[r.readPos..] + r.buffer[..n - rem];
      assert Taken(r, n).0 == data;
      if k < rem {
        assert data[k] == r.buffer[r.readPos..][k];
      } else {
        assert data[k] == r.buffer[..n - rem][k - rem];
      }
    } else {
      var data := r.buffer[r.readPos .. r.readPos + n];
      assert Taken(r, n).0 == data;
      assert data[k] == r.buffer[r.readPos + k];
    }
  }

  /** The byte held at index `k` after read_buffer is the one held `n` places later before it. */
  lemma TakenHeldByte(r: Ring, n: nat, k: nat)
    requires Valid(r) && n <= r.size && k < r.size - n
    ensures Valid(Taken(r, n).1)
    ensures Contents(Taken(r, n).1)[k] == Contents(r)[n + k]
  {
    TakenValid(r, n);
    AdvanceIsSlot(r.readPos, n, r.capacity);
    var start := Slot(r.readPos + n, r.capacity);
    assert Contents(Taken(r, n).1)[k] == r.buffer[Slot(start + k, r.capacity)];
    assert Slot(start + k, r.capacity) == Slot(r.readPos + n + k, r.capacity);
  }

  /** read_buffer takes the first `n` held bytes and keeps the rest, in order. */
  lemma TakenSplits(r: Ring, n: nat)
    requires Valid(r) && n <= r.size
    ensures Valid(Taken(r, n).1)
    ensures Taken(r, n).0 == Contents(r)[..n]
    ensures Contents(Taken(r, n).1) == Contents(r)[n..]
  {
    TakenValid(r, n);
    forall k | 0 <= k < n
      ensures Taken(r, n).0[k] == Contents(r)[k]
    {
      TakenByte(r, n, k);
    }
    forall k | 0 <= k < r.size - n
      ensures Contents(Taken(r, n).1)[k] == Contents(r)[n + k]
    {
      TakenHeldByte(r, n, k);
    }
  }

  /** read_buffer: aborts when fewer than `n` bytes are held. */
  function ReadBuffer(r: Ring, n: nat): (o: Step<(seq<uint8>, Ring)>)
    requires Valid(r)
    ensures o.Aborted? <==> n > r.size
    ensures o.Returned? ==> Valid(o.value.1) && o.value.0 == Contents(r)[..n] && Contents(o.value.1) == Contents(r)[n..]
  {
    if n > r.size then Aborted
    else
      TakenSplits(r, n);
      Returned(true, Taken(r, n))
  }

  /** Writing `data` and then reading as many bytes gives `data` back when the ring held nothing else. */
  lemma WriteThenReadBuffer(r: Ring, data: seq<uint8>)
    requires Valid(r) && r.size == 0 && |data| <= r.capacity
    ensures WriteBuffer(r, data).Returned?
    ensures ReadBuffer(WriteBuffer(r, data).value, |data|).Returned?
    ensures ReadBuffer(WriteBuffer(r, data).value, |data|).value.0 == data
  {
  }

  // ---------------------------------------------------------------------------
  // The message header

  /** The header's length as the bytes memcpy stores (little-endian). */
  function EncodeHeader(n: nat): (b: seq<uint8>)
    requires n < Word
    ensures |b| == HeaderBytes
  {
    [(n % 0x100) as uint8, (n / 0x100 % 0x100) as uint8, (n / 0x1_0000 % 0x100) as uint8, (n / 0x100_0000) as uint8]
  }

  /** The length a 4-byte header holds. */
  function DecodeHeader(b: seq<uint8>): (n: nat)
    requires |b| == HeaderBytes
    ensures n < Word
  {
    b[0] as nat + 0x100 * (b[1] as nat) + 0x1_0000 * (b[2] as nat) + 0x100_0000 * (b[3] as nat)
  }

  /** Decoding an encoded header gives the length back. */
  lemma HeaderRoundTrip(n: nat)
    requires n < Word
    ensures DecodeHeader(EncodeHeader(n)) == n
  {
    var b := EncodeHeader(n);
    var q1 := n / 0x100;
    var q2 := q1 / 0x100;
    var q3 := q2 / 0x100;
    DivDiv(n);
    assert n == n % 0x100 + 0x100 * q1;
    assert q1 == q1 % 0x100 + 0x100 * q2;
    assert q2 == q2 % 0x100 + 0x100 * q3;
    assert b[0] as nat == n % 0x100 && b[1] as nat == q1 % 0x100;
    assert b[2] as nat == q2 % 0x100 && b[3] as nat == q3;
  }

  /** Dropping the low bytes of a number one byte at a time. */
  lemma DivDiv(n: nat)
    ensures n / 0x100 / 0x100 == n / 0x1_0000
    ensures n / 0x1_0000 / 0x100 == n / 0x100_0000
  {
  }

  /** Splitting a number into its low byte and the rest. */
  lemma SplitByte(lo: nat, hi: nat)
    requires lo < 0x100
    ensures (lo + 0x100 * hi) % 0x100 == lo && (lo + 0x100 * hi) / 0x100 == hi
  {
  }

  /** Encoding a decoded header gives the bytes back: every 4-byte header is some length's. */
  lemma HeaderBytesRoundTrip(b: seq<uint8>)
    requires |b| == HeaderBytes
    ensures EncodeHeader(DecodeHeader(b)) == b
  {
    var n := DecodeHeader(b);
    var x0, x1, x2, x3 := b[0] as nat, b[1] as nat, b[2] as nat, b[3] as nat;
    var n1, n2 := x1 + 0x100 * (x2 + 0x100 * x3), x2 + 0x100 * x3;
    assert n == x0 + 0x100 * n1;
    SplitByte(x0, n1);
    SplitByte(x1, n2);
    SplitByte(x2, x3);
    assert n / 0x1_0000 == n1 / 0x100;
    assert n / 0x100_0000 == n2 / 0x100;
    var e := EncodeHeader(n);
    assert e[0] == b[0] && e[1] == b[1] && e[2] == b[2] && e[3] == b[3];
  }

  // ---------------------------------------------------------------------------
  // Framed messages

  predicate Fits(m: seq<uint8>) {
    |m| < Word
  }

  /** One message as it lies in the ring: its length header, then its bytes. */
  function Frame(m: seq<uint8>): (f: seq<uint8>)
    requires Fits(m)
    ensures |f| == HeaderBytes + |m|
  {
    EncodeHeader(|m|) + m
  }

  /** The byte stream of a sequence of messages. */
  function Frames(ms: seq<seq<uint8>>): (f: seq<uint8>)
    requires forall i :: 0 <= i < |ms| ==> Fits(ms[i])
    ensures ms != [] ==> |f| >= HeaderBytes + |ms[0]|
  {
    if ms == [] then [] else Frame(ms[0]) + Frames(ms[1..])
  }

  lemma {:induction false} FramesSnoc(ms: seq<seq<uint8>>, m: seq<uint8>)
    requires forall i :: 0 <= i < |ms| ==> Fits(ms[i])
    requires Fits(m)
    ensures Frames(ms + [m]) == Frames(ms) + Frame(m)
  {
    if ms == [] {
      assert Frames([m]) == Frame(m) + Frames([]);
    } else {
      assert (ms + [m])[1..] == ms[1..] + [m];
      FramesSnoc(ms[1..], m);
    }
  }

  /** The ring holds exactly the messages `ms`, framed, in order. */
  predicate Holds(r: Ring, ms: seq<seq<uint8>>) {
    Valid(r) && (forall i :: 0 <= i < |ms| ==> Fits(ms[i])) && Contents(r) == Frames(ms)
  }

  /** The two copies of a framed write: the header, then the payload. */
  function WriteFrame(r: Ring, data: seq<uint8>): (o: Step<Ring>)
    requires Valid(r) && Fits(data)
    ensures o.Returned? ==> o.ok && Valid(o.value) && Contents(o.value) == Contents(r) + Frame(data)
    ensures !o.Waits?
    ensures o.Aborted? <==> HeaderBytes + |data| > r.capacity - r.size
  {
    var header := WriteBuffer(r, EncodeHeader(|data|));
    if !header.Returned? then Aborted
    else
      var payload := WriteBuffer(header.value, data);
      if !payload.Returned? then Aborted
      else
        AppendTwice(Contents(r), EncodeHeader(|data|), data);
        Returned(true, payload.value)
  }

  /** Appending two pieces one after the other appends their concatenation. */
  lemma AppendTwice(c: seq<uint8>, h: seq<uint8>, d: seq<uint8>)
    ensures c + h + d == c + (h + d)
  {
  }

  /** The two copies of a framed read: the header, then as many bytes as it says. */
  function ReadFrame(r: Ring): (o: Step<(seq<uint8>, Ring)>)
    requires Valid(r)
    ensures o.Returned? ==> o.ok && Valid(o.value.1)
  {
    match ReadBuffer(r, HeaderBytes)
    case Aborted => Aborted
    case Waits => Aborted
    case Returned(_, t) =>
      var n := DecodeHeader(t.0);
      match ReadBuffer(t.1, n)
      case Aborted => Aborted
      case Waits => Aborted
      case Returned(_, u) => Returned(true, u)
  }

  /** Writing a message onto a ring of messages appends it. */
  lemma WriteFrameAppends(r: Ring, ms: seq<seq<uint8>>, data: seq<uint8>)
    requires Holds(r, ms) && Fits(data) && HeaderBytes + |data| <= r.capacity - r.size
    ensures WriteFrame(r, data).Returned? && Holds(WriteFrame(r, data).value, ms + [data])
  {
    FramesSnoc(ms, data);
  }

  /** Reading from a ring of messages takes the first one out whole. */
  lemma ReadFrameTakesFirst(r: Ring, ms: seq<seq<uint8>>)
    requires Holds(r, ms) && ms != []
    ensures ReadFrame(r).Returned?
    ensures ReadFrame(r).value.0 == ms[0] && Holds(ReadFrame(r).value.1, ms[1..])
  {
    var c := Contents(r);
    assert c == EncodeHeader(|ms[0]|) + (ms[0] + Frames(ms[1..]));
    assert c[..HeaderBytes] == EncodeHeader(|ms[0]|);
    HeaderRoundTrip(|ms[0]|);
    assert c[HeaderBytes..] == ms[0] + Frames(ms[1..]);
    var t := ReadBuffer(r, HeaderBytes).value;
    assert Contents(t.1) == ms[0] + Frames(ms[1..]);
    assert (ms[0] + Frames(ms[1..]))[..|ms[0]|] == ms[0];
    assert (ms[0] + Frames(ms[1..]))[|ms[0]|..] == Frames(ms[1..]);
  }

  // ---------------------------------------------------------------------------
  // PlatformQueueIPC

  /** The queue as one process sees it: the shared ring and whether its semaphore is open. */
  datatype QueueIPC = QueueIPC(ring: Ring, open: bool)

  /** The header-plus-payload request in 32-bit arithmetic. */
  function Request(size: nat): nat {
    (size + HeaderBytes) % Word
  }

  /**
   writeHasEnoughSpace: false without a semaphore; aborts when the request is
   larger than the whole ring; otherwise whether it fits in the free space.
   */
  function WriteHasEnoughSpace(q: QueueIPC, size: nat): (o: Step<bool>)
    requires Valid(q.ring) && size < Word
    ensures o.Aborted? <==> q.open && Request(size) > q.ring.capacity
    ensures o.Returned? && q.open && size + HeaderBytes < Word ==>
      (o.ok <==> size + HeaderBytes <= q.ring.capacity - q.ring.size)
  {
    if !q.open then Returned(false, false)
    else if Request(size) > q.ring.capacity then Aborted
    else
      var ok := Request(size) <= q.ring.capacity - q.ring.size;
      Returned(ok, ok)
  }

  /**
   write: false without a semaphore; aborts on a request larger than the
   ring; when the message does not fit (and the caller did not lock first),
   false without blocking, a wait with it; otherwise the framed message is
   written and the call returns true.
   */
  function Write(q: QueueIPC, data: seq<uint8>, blocking: bool, ignoreFirstLock: bool): (o: Step<Ring>)
    requires Valid(q.ring) && Fits(data)
    ensures o.Returned? && !o.ok ==> o.value == q.ring
    ensures o.Returned? && o.ok ==> q.open && Valid(o.value) && Contents(o.value) == Contents(q.ring) + Frame(data)
    ensures o.Waits? ==> blocking && !ignoreFirstLock
  {
    if !q.open then Returned(false, q.ring)
    else if Request(|data|) > q.ring.capacity then Aborted
    else if !ignoreFirstLock && Request(|data|) > q.ring.capacity - q.ring.size then
      if blocking then Waits else Returned(false, q.ring)
    else WriteFrame(q.ring, data)
  }

  /**
   read: false without a semaphore; on an empty ring (when the caller did not
   lock first) false without blocking, a wait with it; otherwise one framed
   message is read. A false return leaves `out` and the ring alone.
   */
  function Read(q: QueueIPC, out: seq<uint8>, blocking: bool, ignoreFirstLock: bool): (o: Step<(seq<uint8>, Ring)>)
    requires Valid(q.ring)
    ensures o.Returned? && !o.ok ==> o.value == (out, q.ring)
    ensures o.Returned? && o.ok ==> q.open && Valid(o.value.1)
    ensures o.Waits? ==> blocking && !ignoreFirstLock && q.ring.size == 0
  {
    if !q.open then Returned(false, (out, q.ring))
    else if !ignoreFirstLock && q.ring.size == 0 then
      if blocking then Waits else Returned(false, (out, q.ring))
    else ReadFrame(q.ring)
  }

  /**
   A queue carries messages first-in first-out: a message that fits is
   written and a non-blocking read then returns the oldest message, leaving
   the rest, with the new one at the back.
   */
  lemma QueueFifo(q: QueueIPC, ms: seq<seq<uint8>>, data: seq<uint8>, out: seq<uint8>)
    requires q.open && Holds(q.ring, ms) && Fits(data) && HeaderBytes + |data| <= q.ring.capacity - q.ring.size
    ensures Write(q, data, false, false).Returned? && Write(q, data, false, false).ok
    ensures Holds(Write(q, data, false, false).value, ms + [data])
    ensures Read(q.(ring := Write(q, data, false, false).value), out, false, false).Returned?
    ensures Read(q.(ring := Write(q, data, false, false).value), out, false, false).value.0 == (ms + [data])[0]
    ensures Holds(Read(q.(ring := Write(q, data, false, false).value), out, false, false).value.1, (ms + [data])[1..])
  {
    assert Request(|data|) == |data| + HeaderBytes;
    WriteFrameAppends(q.ring, ms, data);
    var r := Write(q, data, false, false).value;
    assert r.size > 0;
    ReadFrameTakesFirst(r, ms + [data]);
  }

  /**
   writeHasEnoughSpace with the request computed without 32-bit wrap-around:
   a message whose header and bytes exceed the whole ring aborts as too big.
   */
  function WriteHasEnoughSpaceChecked(q: QueueIPC, size: nat): (o: Step<bool>)
    requires Valid(q.ring) && size < Word
    ensures o.Aborted? <==> q.open && size + HeaderBytes > q.ring.capacity
    ensures o.Returned? ==> (o.ok <==> q.open && size + HeaderBytes <= q.ring.capacity - q.ring.size)
  {
    if !q.open then Returned(false, false)
    else if size + HeaderBytes > q.ring.capacity then Aborted
    else
      var ok := size + HeaderBytes <= q.ring.capacity - q.ring.size;
      Returned(ok, ok)
  }

  /** When the checked space test says yes, the write that follows succeeds, whatever its mode. */
  lemma EnoughSpaceMeansWrite(q: QueueIPC, data: seq<uint8>, blocking: bool, ignoreFirstLock: bool)
    requires Valid(q.ring) && Fits(data)
    requires WriteHasEnoughSpaceChecked(q, |data|).Returned? && WriteHasEnoughSpaceChecked(q, |data|).ok
    ensures Write(q, data, blocking, ignoreFirstLock).Returned? && Write(q, data, blocking, ignoreFirstLock).ok
  {
    assert Request(|data|) == |data| + HeaderBytes;
  }

  /** The two space tests agree on every message shorter than 2^32 - 4 bytes. */
  lemma SpaceTestsAgreeBelowWrap(q: QueueIPC, size: nat)
    requires Valid(q.ring) && size + HeaderBytes < Word
    ensures WriteHasEnoughSpace(q, size) == WriteHasEnoughSpaceChecked(q, size)
  {
    assert Request(size) == size + HeaderBytes;
  }

  /**
   As written, the 32-bit request wraps for a message of 2^32 - 2 bytes: on an
   empty 8-byte ring writeHasEnoughSpace answers yes, yet the write that
   follows aborts; the checked test reports the message as too big.
   */
  lemma WrappedRequestSaysYes(data: seq<uint8>)
    requires |data| == Word - 2
    ensures var q := QueueIPC(Ring(seq(8, i => 0), 8, 0, 0, 0), true);
      Valid(q.ring) && WriteHasEnoughSpace(q, |data|) == Returned(true, true) &&
      Write(q, data, false, false).Aborted? && WriteHasEnoughSpaceChecked(q, |data|).Aborted?
  {
    var q := QueueIPC(Ring(seq(8, i => 0), 8, 0, 0, 0), true);
    assert Request(|data|) == 2;
  }

  // ---------------------------------------------------------------------------
  // PlatformLowLatencyQueueIPC

  /** writeHasEnoughSpace of the low-latency queue: as above, with no semaphore check. */
  function WriteHasEnoughSpaceLowLatency(r: Ring, size: nat): (o: Step<bool>)
    requires Valid(r) && size < Word
    ensures o == WriteHasEnoughSpace(QueueIPC(r, true), size)
  {
    if Request(size) > r.capacity then Aborted
    else
      var ok := Request(size) <= r.capacity - r.size;
      Returned(ok, ok)
  }

  /** write of the low-latency queue: the same steps with no semaphore check. */
  function WriteLowLatency(r: Ring, data: seq<uint8>, blocking: bool, ignoreFirstLock: bool): (o: Step<Ring>)
    requires Valid(r) && Fits(data)
    ensures o == Write(QueueIPC(r, true), data, blocking, ignoreFirstLock)
  {
    if Request(|data|) > r.capacity then Aborted
    else if !ignoreFirstLock && Request(|data|) > r.capacity - r.size then
      if blocking then Waits else Returned(false, r)
    else WriteFrame(r, data)
  }

  /**
   read of the low-latency queue: never waits on the ring; on an empty ring it
   reports an error and returns false, otherwise it reads one framed message.
   */
  function ReadLowLatency(r: Ring, out: seq<uint8>): (o: Step<(seq<uint8>, Ring)>)
    requires Valid(r)
    ensures !o.Waits?
    ensures o.Returned? && !o.ok ==> o.value == (out, r) && r.size == 0
    ensures r.size > 0 ==> o == Read(QueueIPC(r, true), out, true, false)
  {
    if r.size == 0 then Returned(false, (out, r))
    else ReadFrame(r)
  }

  /** The low-latency queue delivers the messages it holds in order, and nothing from an empty ring. */
  lemma LowLatencyReadsInOrder(r: Ring, ms: seq<seq<uint8>>, out: seq<uint8>)
    requires Holds(r, ms)
    ensures ms == [] ==> ReadLowLatency(r, out) == Returned(false, (out, r))
    ensures ms != [] ==>
      (ReadLowLatency(r, out).Returned? && ReadLowLatency(r, out).value.0 == ms[0] &&
       Holds(ReadLowLatency(r, out).value.1, ms[1..]))
  {
    if ms != [] {
      ReadFrameTakesFirst(r, ms);
    }
  }
}
