# Teensy 4.1 ADInstruments firmware: ring buffer and packet writers

This project models two parts of the Teensy 4.1 sampling firmware:

- **`RingBufferSized<T, Size>`** is the single-producer, single-consumer circular FIFO between the ADC interrupt and the USB sender. It has a fixed array of `Size` slots, an input cursor `mIn` that only the producer touches, and an output cursor `mOut` that only the consumer touches. One slot is always left empty, so the element count follows from the cursors alone and never exceeds `Size - 1`. The model is a class over an `array`. A ghost sequence `Contents` holds the stored elements, oldest first. The invariant `Valid()` ties `Contents` to the array slots from `mOut` on, and ties its length to the cursor distance. Each operation is proved to keep `Valid()` and to change `Contents` as a queue would: append, drop the front, or nothing. There are two exceptions. `Clear` empties `Contents`. `GetNextUnchecked` on an empty buffer runs the output cursor past the input cursor, and `Contents` becomes the `Size - 1` stale slots that the cursors then span.
- **The ADInstruments packets** are the data, time, first-sample-time and latest-USB-frame-time packets. Each one writes the magic bytes `'P', 0xA0`, a type tag, and a sequence number from a counter shared by all packet kinds, then its payload. The packet classes write into a `Stream` object, which records the bytes written, and stamp packets from a `PacketBase` object that holds the shared counter.
  - The datatype `Frame` says what a packet means.
  - `Encode` gives the bytes a write emits for a `Frame`.
  - `DecodeFrame` and `Parse` form the receiver: they split a byte stream back into frames.
  - Each writer is proved to emit exactly `Encode` of its frame. Encoding and decoding are proved to be inverses in both directions. The shared counter is proved to number a session of packets consecutively modulo 256. `TimeReplySession` shows this on a run of time replies written one after another through the real `Write` method. It is a caller of the firmware's classes, not firmware code.

`int16_t`, `uint16_t` and `int32_t` fields are sent as their in-memory images. On the little-endian Cortex-M7 target that image is the two's-complement value with the least significant byte first, and the `Bytes` module writes it out explicitly.

Files:

| file | module | contents |
|---|---|---|
| `bytes.dfy` | `Bytes` | fixed-width integer types; little-endian images and their inverses |
| `wire.dfy` | `AdiWire` | constants, `Frame`, `Encode`, the receiver (`DecodeFrame`, `Parse`), sequence numbering |
| `adi_packets.dfy` | `AdiPackets` | `Stream`, `PacketBase`, and the four packet classes with their `Write` methods |
| `ring_buffer.dfy` | `RingBuffers` | `RingBufferSized` and the cursor arithmetic |

Overloads in the C++ get distinct names in the model:

| C++ | model |
|---|---|
| `Push(const T*, n)` | `PushBulk` |
| `bool Get(T*)` | `Get` |
| `const T& Get()` | `Peek` |
| `const T& GetNext()` | `GetNextUnchecked` |
| `bool GetNext(T*)` | `GetNext` |

A `T*` out-argument becomes a returned value. The extra `prior` parameter stands for the value the caller's variable held, which the source leaves untouched on failure.

## Model

| member | source | states |
|---|---|---|
| RingBuffers.SlotIsModular | examples/firmware/Teensy_4_1/src/RingBufferSized.h:43-45 | advancing a cursor by "increment, then subtract `Size` once past the end" is addition modulo `Size` |
| RingBuffers.SlotInjective | examples/firmware/Teensy_4_1/src/RingBufferSized.h:131-133 | within one lap, distinct offsets from a cursor are distinct slots, so no stored element overwrites another |
| RingBuffers.CursorCount | examples/firmware/Teensy_4_1/src/RingBufferSized.h:18-24 | the count computed from `mIn - mOut` (plus `Size` if negative) is in `[0, Size)` and is a distance that leads from `mOut` to `mIn` |
| RingBuffers.CursorCountUnique | examples/firmware/Teensy_4_1/src/RingBufferSized.h:18-24 | that count is the only distance below `Size` that leads from `mOut` to `mIn` |
| RingBuffers.RingBufferSized.constructor | examples/firmware/Teensy_4_1/src/RingBufferSized.h:9-11 | both cursors start at 0 and the buffer is empty |
| RingBuffers.RingBufferSized.Clear | examples/firmware/Teensy_4_1/src/RingBufferSized.h:13-16 | moving `mOut` to `mIn` empties the buffer and keeps the invariant |
| RingBuffers.RingBufferSized.GetCount | examples/firmware/Teensy_4_1/src/RingBufferSized.h:18-24 | the count is the number of stored elements and at most `Size - 1` |
| RingBuffers.RingBufferSized.GetSpace | examples/firmware/Teensy_4_1/src/RingBufferSized.h:26-29 | space plus count is always `Size - 1`: one slot stays free |
| RingBuffers.RingBufferSized.Push | examples/firmware/Teensy_4_1/src/RingBufferSized.h:39-49 | succeeds exactly when the buffer is not full; it then appends `val` at the back; otherwise the contents, the storage and `mIn` are unchanged |
| RingBuffers.RingBufferSized.CopyIn | examples/firmware/Teensy_4_1/src/RingBufferSized.h:67 | the `memcpy` overwrites exactly slots `to .. to+len-1` with `src[from ..]` and leaves every other slot as it was |
| RingBuffers.RingBufferSized.CopyAndAdvance | examples/firmware/Teensy_4_1/src/RingBufferSized.h:62-79 | the two-segment copy (up to the end of the storage, then from slot 0) writes element `j` of `val` to the slot `j` places after the input cursor for every `j < n`, leaves the other slots alone, and moves `mIn` `n` places on around the ring |
| RingBuffers.RingBufferSized.PushBulk | examples/firmware/Teensy_4_1/src/RingBufferSized.h:52-81 | returns `min(nToPushIn, space)` and appends exactly that many leading elements of `val` at the back, in order, keeping the invariant |
| RingBuffers.RingBufferSized.Get | examples/firmware/Teensy_4_1/src/RingBufferSized.h:83-91 | succeeds exactly when the buffer is not empty and then yields the oldest element; otherwise the caller's value is kept; the buffer is not changed |
| RingBuffers.RingBufferSized.Peek | examples/firmware/Teensy_4_1/src/RingBufferSized.h:93-96 | on a non-empty buffer the slot at `mOut` is the oldest element |
| RingBuffers.RingBufferSized.GetNextUnchecked | examples/firmware/Teensy_4_1/src/RingBufferSized.h:98-104 | on a non-empty buffer, removes and returns the oldest element; on an empty one, returns the stale slot and leaves the buffer reading as full (`Size - 1` stale elements); the invariant holds either way |
| RingBuffers.RingBufferSized.GetNext | examples/firmware/Teensy_4_1/src/RingBufferSized.h:106-116 | succeeds exactly when the buffer is not empty, then removes and returns the oldest element; otherwise the caller's value, the contents and `mOut` are unchanged |
| RingBuffers.RingBufferSized.NextOut | examples/firmware/Teensy_4_1/src/RingBufferSized.h:118-128 | succeeds exactly when the buffer is not empty and then drops the oldest element; otherwise nothing changes |
| RingBuffers.WraparoundScenario | examples/firmware/Teensy_4_1/src/RingBufferSized.h:39-104 | a 4-slot buffer takes three elements and refuses a fourth; after one pop and one push it yields all four in FIFO order across the wrap of the storage |
| Bytes.Int16Bytes | examples/firmware/Teensy_4_1/src/ADIPackets.h:58 | an `int16_t` sample's memory image is 2 bytes; `Int16RoundTrip` and `Int16BytesOf` show it is the two's-complement image, in one-to-one correspondence with the value |
| Bytes.Uint16Bytes | examples/firmware/Teensy_4_1/src/ADIPackets.h:139 | the frame number's image is 2 bytes; `Uint16RoundTrip` and `Uint16BytesOf` show it is invertible |
| Bytes.Int32Bytes | examples/firmware/Teensy_4_1/src/ADIPackets.h:82 | a 32-bit tick's image is 4 bytes; `Int32RoundTrip` and `Int32BytesOf` show it is invertible |
| Bytes.LittleEndianRoundTrip | examples/firmware/Teensy_4_1/src/ADIPackets.h:82 | reading back the little-endian bytes of an unsigned value gives the value |
| Bytes.LittleEndianOfValue | examples/firmware/Teensy_4_1/src/ADIPackets.h:82 | every byte string is the little-endian image of the value it denotes |
| Bytes.Int16RoundTrip | examples/firmware/Teensy_4_1/src/ADIPackets.h:58 | decoding a sample's image gives back the sample |
| Bytes.Int16BytesOf | examples/firmware/Teensy_4_1/src/ADIPackets.h:58 | every 2 bytes are the image of the `int16_t` they decode to |
| Bytes.Uint16RoundTrip | examples/firmware/Teensy_4_1/src/ADIPackets.h:139 | decoding the frame number's image gives back the frame number |
| Bytes.Uint16BytesOf | examples/firmware/Teensy_4_1/src/ADIPackets.h:139 | every 2 bytes are the image of the `uint16_t` they decode to |
| Bytes.Int32RoundTrip | examples/firmware/Teensy_4_1/src/ADIPackets.h:114 | decoding a tick's image gives back the tick |
| Bytes.Int32BytesOf | examples/firmware/Teensy_4_1/src/ADIPackets.h:140 | every 4 bytes are the image of the `int32_t` they decode to |
| AdiWire.SampleBytes | examples/firmware/Teensy_4_1/src/ADIPackets.h:58 | the sample block is two bytes per sample |
| AdiWire.SamplesRoundTrip | examples/firmware/Teensy_4_1/src/ADIPackets.h:58 | the receiver reads the written samples back unchanged and in order |
| AdiWire.SampleBytesOf | examples/firmware/Teensy_4_1/src/ADIPackets.h:58 | every even-length byte block is the image of the samples read from it |
| AdiWire.Encode | examples/firmware/Teensy_4_1/src/ADIPackets.h:20-24 | every packet starts with `'P', 0xA0`, its tag and its sequence number; data packets are `4 + 2n` bytes for `n` samples with tag 'D' for 2 samples and 'M' otherwise; time packets are 9 bytes, first-sample packets 8 and latest-USB-frame packets 15 |
| AdiWire.TimeLayout | examples/firmware/Teensy_4_1/src/ADIPackets.h:87-92 | a time packet is its 3-byte header followed by exactly what `writeData` emits |
| AdiWire.LatestUSBFrameLayout | examples/firmware/Teensy_4_1/src/ADIPackets.h:135-142 | an 'L' packet is its own 3-byte header, then exactly the time packet's `writeData` output, then the frame number and frame time images |
| AdiWire.FrameOfPayload | examples/firmware/Teensy_4_1/src/ADIPackets.h:22-24 | the tag of a well-formed packet announces exactly the length of its payload, and the frame is read back from that payload |
| AdiWire.PayloadOfFrame | examples/firmware/Teensy_4_1/src/ADIPackets.h:22-24 | a frame read from a tag, sequence number and payload is well formed and re-encodes to that tag, number and payload |
| AdiWire.DecodeEncoded | examples/firmware/Teensy_4_1/src/ADIPackets.h:22-24 | a receiver configured with the writer's points-per-packet reads every well-formed packet back from its bytes, whatever follows them |
| AdiWire.DecodeSound | examples/firmware/Teensy_4_1/src/ADIPackets.h:22-24 | whatever the receiver reads is well formed, and the bytes it consumed are exactly that frame's encoding |
| AdiWire.ParseCons | examples/firmware/Teensy_4_1/src/ADIPackets.h:22-24 | a well-formed packet in front of a stream the receiver accepts is read first, followed by the same frames as before |
| AdiWire.ParseConcat | examples/firmware/Teensy_4_1/src/ADIPackets.h:22-24 | packets written back to back are split by the receiver into exactly those packets |
| AdiWire.ParseStep | examples/firmware/Teensy_4_1/src/ADIPackets.h:22-24 | an accepted non-empty stream begins with one whole well-formed packet, and the rest of it is an accepted stream |
| AdiWire.ParseSound | examples/firmware/Teensy_4_1/src/ADIPackets.h:22-24 | an accepted stream is exactly the concatenation of the packets read from it |
| AdiWire.ParseWellFormed | examples/firmware/Teensy_4_1/src/ADIPackets.h:22-24 | every frame read from an accepted stream is well formed |
| AdiWire.SessionStep | examples/firmware/Teensy_4_1/src/ADIPackets.h:57 | writing one more packet stamped with the next counter value keeps the session consecutively numbered modulo 256 and appends exactly its bytes |
| AdiWire.ConsecutiveStep | examples/firmware/Teensy_4_1/src/ADIPackets.h:15 | numbering the next packet `first + count` modulo 256 extends a consecutive run |
| AdiWire.GapDetected | examples/firmware/Teensy_4_1/src/ADIPackets.h:15 | dropping any packet but the last from a consecutively numbered run breaks the numbering, so the receiver can see the loss |
| AdiPackets.Stream.Write | examples/firmware/Teensy_4_1/src/ADIPackets.h:54 | the stream appends the given bytes and reports their number |
| AdiPackets.PacketBase.constructor | examples/firmware/Teensy_4_1/src/ADIPackets.h:15 | the shared counter starts at 0, as static storage does |
| AdiPackets.PacketBase.PostIncrement | examples/firmware/Teensy_4_1/src/ADIPackets.h:57 | `sPacketCount++` yields the current value and advances the counter modulo 256 |
| AdiPackets.Packet.constructor | examples/firmware/Teensy_4_1/src/ADIPackets.h:33-35 | a new packet starts at point 0 and owns 10 x 2 sample storage |
| AdiPackets.Packet.ResetPacketCount | examples/firmware/Teensy_4_1/src/ADIPackets.h:28-31 | the shared counter is set to 0 |
| AdiPackets.Packet.AddSample | examples/firmware/Teensy_4_1/src/ADIPackets.h:37-44 | succeeds exactly when the current point is below the configured points per packet; it then stores the sample at the current point and channel and changes no other sample |
| AdiPackets.Packet.NextPoint | examples/firmware/Teensy_4_1/src/ADIPackets.h:46-49 | advances the current point by one |
| AdiPackets.Packet.Memory | examples/firmware/Teensy_4_1/src/ADIPackets.h:64 | the first `points` rows of `mData` as laid out in memory: sample `c` of point `i` is at position `2i + c` |
| AdiPackets.Packet.Write | examples/firmware/Teensy_4_1/src/ADIPackets.h:52-60 | appends exactly the encoding of a data frame that holds the configured number of points as they lie in memory, stamped with the counter's old value. The tag is 'D' when the firmware sends one point per packet and 'M' otherwise. It advances the counter and returns `4 + 4·points` |
| AdiPackets.TimePacket.constructor | examples/firmware/Teensy_4_1/src/ADIPackets.h:73-76 | stores the tick and the request number |
| AdiPackets.TimePacket.WriteData | examples/firmware/Teensy_4_1/src/ADIPackets.h:78-84 | appends the sequence number, the request number and the tick's 4-byte image, advances the counter and returns 6 |
| AdiPackets.TimePacket.Write | examples/firmware/Teensy_4_1/src/ADIPackets.h:87-92 | appends exactly the encoding of the time frame stamped with the counter's old value, advances the counter and returns 9 |
| AdiPackets.FirstSampleTimePacket.constructor | examples/firmware/Teensy_4_1/src/ADIPackets.h:104-107 | stores the tick |
| AdiPackets.FirstSampleTimePacket.Write | examples/firmware/Teensy_4_1/src/ADIPackets.h:110-116 | appends exactly the encoding of the first-sample-time frame, advances the counter and returns 8 |
| AdiPackets.LatestUSBFrameTimePacket.constructor | examples/firmware/Teensy_4_1/src/ADIPackets.h:128-132 | builds the time-packet part from the tick and request number and stores the frame number and frame time |
| AdiPackets.LatestUSBFrameTimePacket.Write | examples/firmware/Teensy_4_1/src/ADIPackets.h:135-142 | appends exactly the encoding of the latest-USB-frame-time frame, reusing the time packet's data writer, advances the counter and returns 15 |
| AdiPackets.SinglePointScenario | examples/firmware/Teensy_4_1/src/ADIPackets.h:28-60 | after a counter reset, a one-point packet holding samples 100 and -50 goes out as `'P' A0 'D' 00 64 00 CE FF` |
| AdiPackets.SinglePointBytes | examples/firmware/Teensy_4_1/src/ADIPackets.h:52-60 | the exact bytes of that one-point data frame |
| AdiPackets.MixedKindsScenario | examples/firmware/Teensy_4_1/src/ADIPackets.h:68-142 | after a reset, a time packet, a first-sample-time packet and a latest-USB-frame packet carry the numbers 0, 1, 2 from the shared counter, and the receiver reads back exactly those three frames |
| AdiPackets.ThreeFrames | examples/firmware/Teensy_4_1/src/ADIPackets.h:22-24 | three well-formed packets written back to back are read back as those three |
| AdiPackets.TimeReplySession | examples/firmware/Teensy_4_1/src/ADIPackets.h:73-92 | writing one time reply per tick through `TimePacket.Write` appends exactly the encodings of those replies, numbered on from the counter's value on entry modulo 256; the counter ends `|ticks|` steps further on |
| AdiPackets.TimeRepliesConsecutive | examples/firmware/Teensy_4_1/src/ADIPackets.h:80 | the replies of such a session are numbered consecutively |
| AdiPackets.SessionExtend | examples/firmware/Teensy_4_1/src/ADIPackets.h:80 | one more reply, stamped with the next counter value, keeps the session consecutive and appends exactly its packet's bytes |
| AdiPackets.TimeRepliesParse | examples/firmware/Teensy_4_1/src/ADIPackets.h:22-24 | a receiver reads the bytes of such a session back as exactly its replies |

## Left out

- The `volatile` cursors and the interrupt/main-loop concurrency they serve are not modelled. Each operation is atomic in the model, so the claim that the buffer is safe because each side writes only its own cursor is not proved.
- Arduino's `Stream` is not part of this model. The model's `Stream` accepts every byte, so the short writes a real stream may make, and their effect on the returned counts, are left out.
- `memcpy` and `reinterpret_cast` are modelled by element-wise copies and by an explicit little-endian encoder. Padding, alignment and big-endian targets are out of scope.
- AdiPackets.Packet.AddSample: requires `0 <= chan < 2` and `gADCPointsPerPacket <= 10`. The source checks neither. With another channel, or with more than 10 points per packet, it stores outside `mData`. Zero or negative counts are allowed, and then every call is refused, as in the source. `gADCPointsPerPacket` is a global defined elsewhere in the firmware; here it is an explicit parameter.
- AdiPackets.Packet.Write: requires `0 <= gADCPointsPerPacket <= 10`. Above 10 the source reads past `mData`. Below 0 the byte count it passes to the stream is negative, and converting it to `size_t` makes it huge. With 0 it sends the 4-byte 'M' header and no samples, and the model does the same.
- AdiPackets.Packet.constructor: does not state the initial sample values, which the source leaves uninitialised. The model starts the array at Dafny's default, and no contract depends on it.
- AdiPackets.Packet.NextPoint: `mPoint` is an unbounded integer, so the overflow of a C `int` after 2^31 calls is not modelled. `AddSample` refuses all points past the configured count anyway.
- RingBuffers.RingBufferSized.PushBulk: requires `0 <= nToPushIn`, and that `val` holds the elements that will actually be copied: either `nToPushIn <= |val|`, or the free space is at most `|val|`. A negative count makes the source call `memcpy` with a negative length, which is undefined behaviour. The source reads only `min(nToPushIn, space)` elements, so a longer `nToPushIn` is fine as long as those are there.
- RingBuffers.RingBufferSized.constructor: requires `Size >= 1`, the smallest array C++ allows. The source's template argument has no other bound.
- `GetNextUnchecked` and `Peek` return a reference to a slot in the source. The model returns the value, so later writes through that reference (or into that slot) are not tracked.
- `Get` and `GetNext` take a `T*` in the source. The model returns the value and takes the caller's previous value as `prior`, so aliasing between that argument and the buffer is not modelled.
- The receiver (`DecodeFrame`, `Parse`) does not exist in this firmware. It is the host-side reader the header comment of `Packet` describes, and it is written here as the inverse against which the writers are proved. It accepts a data packet only when the tag matches the configured points per packet ('D' for one, 'M' for more).
- `kPointsPerPacket` (declared but unused) and the per-object copies of the header bytes (`sHeader`, `sHeaderAndPacketType`) have no counterpart beyond the constants `kMagic0`, `kMagic1` and the tags. The stale header comment is not modelled: it speaks of "5 nibbles" and a type nibble 0x04, while the code writes a full tag byte 'D' or 'M'.
- The static `sPacketCount`, shared by all packet classes, is one `PacketBase` object passed to every write. The model does not capture that the C++ counter is a single global reached through any packet.
