/**
  The wire format of the ADInstruments packets.

  Every packet is the two magic bytes 'P', 0xA0, a one-byte type tag, the
  one-byte shared sequence number and a payload whose layout the tag selects:

    'D' / 'M'  interleaved int16 samples, point-major, channel-minor
               ('D' when one point is sent per packet, 'M' otherwise)
    'N'        time-request number, 32-bit tick
    'F'        32-bit tick
    'L'        time-request number, 32-bit tick, 16-bit USB frame number,
               32-bit USB frame time

  `Frame` is what one packet means, `Encode` is the byte sequence a packet
  write emits, and `DecodeFrame` / `Parse` are the receiver's side: the inverse
  the writers are proved against.
 */
module AdiWire {
  import opened Bytes

  datatype Option<T> = None | Some(value: T)

  const kPointsPerMediumSizePacket := 10
  const kADCChannels := 2

  const kMagic0: byte := 'P' as int
  const kMagic1: byte := 0xA0
  const kTagSingle: byte := 'D' as int
  const kTagMulti: byte := 'M' as int
  const kTagTime: byte := 'N' as int
  const kTagFirstSample: byte := 'F' as int
  const kTagLatestUSBFrame: byte := 'L' as int

  /** The meaning of one packet on the wire. */
  datatype Frame =
    | Samples(seqNo: byte, samples: seq<int16>)
    | Time(seqNo: byte, request: byte, tick: int32)
    | FirstSampleTime(seqNo: byte, tick: int32)
    | LatestUSBFrameTime(seqNo: byte, request: byte, tick: int32, frameNumber: uint16, frameTime: int32)

  /** The configured number of points per data packet fits the packet's storage. */
  predicate ValidPointsPerPacket(pointsPerPacket: int)
  {
    1 <= pointsPerPacket <= kPointsPerMediumSizePacket
  }

  /** A data frame carries one sample per channel for each configured point. */
  predicate WellFormed(f: Frame, pointsPerPacket: int)
  {
    f.Samples? ==> |f.samples| == kADCChannels * pointsPerPacket
  }

  /** The samples as laid out in memory: each one's int16 image, in order. */
  function SampleBytes(samples: seq<int16>): (r: seq<byte>)
    ensures |r| == 2 * |samples|
  {
    if samples == [] then [] else Int16Bytes(samples[0]) + SampleBytes(samples[1..])
  }

  /** The int16 samples whose memory image is `bs`. */
  function Int16s(bs: seq<byte>): (samples: seq<int16>)
    requires |bs| % 2 == 0
    ensures 2 * |samples| == |bs|
  {
    if bs == [] then [] else [Int16Of(bs[..2])] + Int16s(bs[2..])
  }

  lemma {:induction false} SamplesRoundTrip(samples: seq<int16>)
    ensures Int16s(SampleBytes(samples)) == samples
  {
    if samples != [] {
      var bs := SampleBytes(samples);
      assert bs[..2] == Int16Bytes(samples[0]);
      assert bs[2..] == SampleBytes(samples[1..]);
      Int16RoundTrip(samples[0]);
      SamplesRoundTrip(samples[1..]);
      assert samples == [samples[0]] + samples[1..];
    }
  }

  lemma {:induction false} SampleBytesOf(bs: seq<byte>)
    requires |bs| % 2 == 0
    ensures SampleBytes(Int16s(bs)) == bs
  {
    if bs != [] {
      var samples := Int16s(bs);
      assert samples[0] == Int16Of(bs[..2]);
      assert samples[1..] == Int16s(bs[2..]);
      Int16BytesOf(bs[..2]);
      SampleBytesOf(bs[2..]);
      assert bs == bs[..2] + bs[2..];
    }
  }

  /** The data tag: 'D' for a single point, 'M' for several. */
  function SampleTag(sampleCount: int): byte
  {
    if sampleCount == kADCChannels then kTagSingle else kTagMulti
  }

  /** The sequence number, request number and tick, as the time packets write them. */
  function TimeData(seqNo: byte, request: byte, tick: int32): (r: seq<byte>)
    ensures |r| == 6
  {
    [seqNo, request] + Int32Bytes(tick)
  }

  /** The type tag of a frame. */
  function Tag(f: Frame): byte
  {
    match f
    case Samples(_, samples) => SampleTag(|samples|)
    case Time(_, _, _) => kTagTime
    case FirstSampleTime(_, _) => kTagFirstSample
    case LatestUSBFrameTime(_, _, _, _, _) => kTagLatestUSBFrame
  }

  /** The bytes after the sequence number. */
  function Payload(f: Frame): seq<byte>
  {
    match f
    case Samples(_, samples) => SampleBytes(samples)
    case Time(_, request, tick) => [request] + Int32Bytes(tick)
    case FirstSampleTime(_, tick) => Int32Bytes(tick)
    case LatestUSBFrameTime(_, request, tick, frameNumber, frameTime) =>
      [request] + Int32Bytes(tick) + Uint16Bytes(frameNumber) + Int32Bytes(frameTime)
  }

  /** The bytes a packet write emits for `f`. */
  function Encode(f: Frame): (r: seq<byte>)
    ensures |r| >= 4 && r[0] == kMagic0 && r[1] == kMagic1 && r[3] == f.seqNo
    ensures f.Samples? ==> |r| == 4 + 2 * |f.samples| && r[2] == SampleTag(|f.samples|)
    ensures f.Time? ==> |r| == 9 && r[2] == kTagTime
    ensures f.FirstSampleTime? ==> |r| == 8 && r[2] == kTagFirstSample
    ensures f.LatestUSBFrameTime? ==> |r| == 15 && r[2] == kTagLatestUSBFrame
  {
    [kMagic0, kMagic1, Tag(f), f.seqNo] + Payload(f)
  }

  /** The time packet's tag followed by the fields its data writer emits. */
  lemma TimeLayout(seqNo: byte, request: byte, tick: int32)
    ensures Encode(Time(seqNo, request, tick)) == [kMagic0, kMagic1, kTagTime] + TimeData(seqNo, request, tick)
  {
    assert [kMagic0, kMagic1, kTagTime, seqNo] + ([request] + Int32Bytes(tick))
      == [kMagic0, kMagic1, kTagTime] + ([seqNo, request] + Int32Bytes(tick));
  }

  /**
    The 'L' packet: its own tag, then exactly the fields the time packet's data
    writer emits, then the frame number and the frame time.
   */
  lemma LatestUSBFrameLayout(seqNo: byte, request: byte, tick: int32, frameNumber: uint16, frameTime: int32)
    ensures Encode(LatestUSBFrameTime(seqNo, request, tick, frameNumber, frameTime))
      == [kMagic0, kMagic1, kTagLatestUSBFrame] + TimeData(seqNo, request, tick)
        + Uint16Bytes(frameNumber) + Int32Bytes(frameTime)
  {
    var h: seq<byte> := [kMagic0, kMagic1, kTagLatestUSBFrame];
    assert h + [seqNo] == [kMagic0, kMagic1, kTagLatestUSBFrame, seqNo];
    Regroup(h, seqNo, request, Int32Bytes(tick), Uint16Bytes(frameNumber), Int32Bytes(frameTime));
  }

  lemma Regroup<T>(h: seq<T>, x: T, y: T, a: seq<T>, b: seq<T>, c: seq<T>)
    ensures (h + [x]) + ([y] + a + b + c) == h + ([x, y] + a) + b + c
  {
    assert [x, y] == [x] + [y];
  }

  /**
    The payload length a receiver configured with `pointsPerPacket` expects
    after `tag`; None for a tag it does not accept. A data packet must carry
    the tag a writer so configured sends ('D' for one point, 'M' for more).
   */
  function PayloadSize(tag: byte, pointsPerPacket: int): Option<nat>
    requires ValidPointsPerPacket(pointsPerPacket)
  {
    if tag == SampleTag(kADCChannels * pointsPerPacket) then Some(2 * kADCChannels * pointsPerPacket)
    else if tag == kTagTime then Some(5)
    else if tag == kTagFirstSample then Some(4)
    else if tag == kTagLatestUSBFrame then Some(11)
    else None
  }

  /** The frame a receiver reads from a tag, a sequence number and a payload of the expected size. */
  function FrameOf(tag: byte, seqNo: byte, p: seq<byte>, pointsPerPacket: int): Frame
    requires ValidPointsPerPacket(pointsPerPacket) && PayloadSize(tag, pointsPerPacket) == Some(|p|)
  {
    if tag == SampleTag(kADCChannels * pointsPerPacket) then Samples(seqNo, Int16s(p))
    else if tag == kTagTime then Time(seqNo, p[0], Int32Of(p[1..5]))
    else if tag == kTagFirstSample then FirstSampleTime(seqNo, Int32Of(p))
    else LatestUSBFrameTime(seqNo, p[0], Int32Of(p[1..5]), Uint16Of(p[5..7]), Int32Of(p[7..11]))
  }

  /** The receiver's view: the packet at the start of `bs`, if there is a complete one. */
  function DecodeFrame(bs: seq<byte>, pointsPerPacket: int): Option<Frame>
    requires ValidPointsPerPacket(pointsPerPacket)
  {
    if |bs| < 4 || bs[0] != kMagic0 || bs[1] != kMagic1 then None
    else
      match PayloadSize(bs[2], pointsPerPacket)
      case None => None
      case Some(len) =>
        if |bs| < 4 + len then None else Some(FrameOf(bs[2], bs[3], bs[4..4 + len], pointsPerPacket))
  }

  /** A well-formed frame's tag announces exactly its payload, from which it is read back. */
  lemma FrameOfPayload(f: Frame, pointsPerPacket: int)
    requires ValidPointsPerPacket(pointsPerPacket) && WellFormed(f, pointsPerPacket)
    ensures PayloadSize(Tag(f), pointsPerPacket) == Some(|Payload(f)|)
    ensures FrameOf(Tag(f), f.seqNo, Payload(f), pointsPerPacket) == f
  {
    var p := Payload(f);
    match f
    case Samples(seqNo, samples) =>
      SamplesRoundTrip(samples);
    case Time(seqNo, request, tick) =>
      assert p[1..5] == Int32Bytes(tick);
      Int32RoundTrip(tick);
    case FirstSampleTime(seqNo, tick) =>
      Int32RoundTrip(tick);
    case LatestUSBFrameTime(seqNo, request, tick, frameNumber, frameTime) =>
      var a, b, c := Int32Bytes(tick), Uint16Bytes(frameNumber), Int32Bytes(frameTime);
      assert p == [request] + a + b + c;
      assert p[1..5] == a;
      assert p[5..7] == b;
      assert p[7..11] == c by {
        forall i | 0 <= i < 4 ensures p[7 + i] == c[i] {
          assert p[7 + i] == ([request] + a + b + c)[7 + i];
        }
      }
      Int32RoundTrip(tick);
      Uint16RoundTrip(frameNumber);
      Int32RoundTrip(frameTime);
  }

  /** A frame read from a payload carries the tag, number and payload it was read from. */
  lemma PayloadOfFrame(tag: byte, seqNo: byte, p: seq<byte>, pointsPerPacket: int)
    requires ValidPointsPerPacket(pointsPerPacket) && PayloadSize(tag, pointsPerPacket) == Some(|p|)
    ensures var f := FrameOf(tag, seqNo, p, pointsPerPacket);
      WellFormed(f, pointsPerPacket) && Tag(f) == tag && f.seqNo == seqNo && Payload(f) == p
  {
    if tag == SampleTag(kADCChannels * pointsPerPacket) {
      SampleBytesOf(p);
    } else if tag == kTagTime {
      Int32BytesOf(p[1..5]);
      assert p == [p[0]] + p[1..5];
    } else if tag == kTagFirstSample {
      Int32BytesOf(p);
    } else {
      Int32BytesOf(p[1..5]);
      Uint16BytesOf(p[5..7]);
      Int32BytesOf(p[7..11]);
      SplitLatest(p);
    }
  }

  lemma SplitLatest<T>(p: seq<T>)
    requires |p| == 11
    ensures p == [p[0]] + p[1..5] + p[5..7] + p[7..11]
  {
  }

  /** Every well-formed frame is read back from its own bytes, whatever follows them. */
  lemma DecodeEncoded(f: Frame, rest: seq<byte>, pointsPerPacket: int)
    requires ValidPointsPerPacket(pointsPerPacket) && WellFormed(f, pointsPerPacket)
    ensures DecodeFrame(Encode(f) + rest, pointsPerPacket) == Some(f)
  {
    var bs := Encode(f) + rest;
    var p := Payload(f);
    FrameOfPayload(f, pointsPerPacket);
    assert bs[2] == Tag(f) && bs[3] == f.seqNo;
    assert bs[4..4 + |p|] == p;
  }

  /** Whatever the receiver reads is exactly what a writer would have sent for it. */
  lemma DecodeSound(bs: seq<byte>, pointsPerPacket: int)
    requires ValidPointsPerPacket(pointsPerPacket) && DecodeFrame(bs, pointsPerPacket).Some?
    ensures var f := DecodeFrame(bs, pointsPerPacket).value;
      WellFormed(f, pointsPerPacket) && |Encode(f)| <= |bs| && bs[..|Encode(f)|] == Encode(f)
  {
    var len := PayloadSize(bs[2], pointsPerPacket).value;
    var p := bs[4..4 + len];
    var f := FrameOf(bs[2], bs[3], p, pointsPerPacket);
    assert DecodeFrame(bs, pointsPerPacket) == Some(f);
    PayloadOfFrame(bs[2], bs[3], p, pointsPerPacket);
    assert Encode(f) == [bs[0], bs[1], bs[2], bs[3]] + p;
    HeaderSplit(bs, len);
  }

  lemma HeaderSplit(bs: seq<byte>, len: nat)
    requires 4 + len <= |bs|
    ensures bs[..4 + len] == [bs[0], bs[1], bs[2], bs[3]] + bs[4..4 + len]
  {
  }

  /** The bytes of several packets written one after another. */
  function Concat(fs: seq<Frame>): seq<byte>
  {
    if fs == [] then [] else Encode(fs[0]) + Concat(fs[1..])
  }

  lemma {:induction false} ConcatAppend(fs: seq<Frame>, f: Frame)
    ensures Concat(fs + [f]) == Concat(fs) + Encode(f)
  {
    if fs == [] {
      assert [f][1..] == [];
    } else {
      assert (fs + [f])[0] == fs[0];
      assert (fs + [f])[1..] == fs[1..] + [f];
      ConcatAppend(fs[1..], f);
    }
  }

  /** The receiver's view of a whole byte stream: the packets it splits into. */
  function Parse(bs: seq<byte>, pointsPerPacket: int): Option<seq<Frame>>
    requires ValidPointsPerPacket(pointsPerPacket)
    decreases |bs|
  {
    if bs == [] then Some([])
    else
      match DecodeFrame(bs, pointsPerPacket)
      case None => None
      case Some(f) =>
        DecodeSound(bs, pointsPerPacket);
        match Parse(bs[|Encode(f)|..], pointsPerPacket)
        case None => None
        case Some(fs) => Some([f] + fs)
  }

  /** A stream of well-formed packets is split back into exactly those packets. */
  lemma {:induction false} ParseConcat(fs: seq<Frame>, pointsPerPacket: int)
    requires ValidPointsPerPacket(pointsPerPacket)
    requires forall i :: 0 <= i < |fs| ==> WellFormed(fs[i], pointsPerPacket)
    ensures Parse(Concat(fs), pointsPerPacket) == Some(fs)
  {
    if fs != [] {
      ParseConcat(fs[1..], pointsPerPacket);
      ParseCons(fs[0], Concat(fs[1..]), fs[1..], pointsPerPacket);
      assert fs == [fs[0]] + fs[1..];
    }
  }

  /** A well-formed packet in front of an accepted stream is read first, then the rest as before. */
  lemma ParseCons(f: Frame, bs: seq<byte>, fs: seq<Frame>, pointsPerPacket: int)
    requires ValidPointsPerPacket(pointsPerPacket) && WellFormed(f, pointsPerPacket)
    requires Parse(bs, pointsPerPacket) == Some(fs)
    ensures Parse(Encode(f) + bs, pointsPerPacket) == Some([f] + fs)
  {
    var all := Encode(f) + bs;
    DecodeEncoded(f, bs, pointsPerPacket);
    assert all[|Encode(f)|..] == bs;
  }

  lemma ConcatCons(f: Frame, rest: seq<Frame>)
    ensures Concat([f] + rest) == Encode(f) + Concat(rest)
  {
    assert ([f] + rest)[1..] == rest;
  }

  /** A non-empty stream the receiver accepts starts with one whole packet, followed by a stream it accepts. */
  lemma ParseStep(bs: seq<byte>, pointsPerPacket: int)
    requires ValidPointsPerPacket(pointsPerPacket) && bs != [] && Parse(bs, pointsPerPacket).Some?
    ensures DecodeFrame(bs, pointsPerPacket).Some?
    ensures var f := DecodeFrame(bs, pointsPerPacket).value;
      && WellFormed(f, pointsPerPacket) && |Encode(f)| <= |bs| && bs[..|Encode(f)|] == Encode(f)
      && Parse(bs[|Encode(f)|..], pointsPerPacket).Some?
      && Parse(bs, pointsPerPacket).value == [f] + Parse(bs[|Encode(f)|..], pointsPerPacket).value
  {
    DecodeSound(bs, pointsPerPacket);
  }

  /** A stream the receiver accepts is exactly the concatenation of what it read. */
  lemma {:induction false} ParseSound(bs: seq<byte>, pointsPerPacket: int)
    requires ValidPointsPerPacket(pointsPerPacket) && Parse(bs, pointsPerPacket).Some?
    ensures Concat(Parse(bs, pointsPerPacket).value) == bs
    decreases |bs|
  {
    if bs != [] {
      ParseStep(bs, pointsPerPacket);
      var f := DecodeFrame(bs, pointsPerPacket).value;
      var e := Encode(f);
      var tail := bs[|e|..];
      var rest := Parse(tail, pointsPerPacket).value;
      ParseSound(tail, pointsPerPacket);
      ConcatCons(f, rest);
      SplitAt(bs, |e|);
    }
  }

  lemma SplitAt<T>(s: seq<T>, n: int)
    requires 0 <= n <= |s|
    ensures s[..n] + s[n..] == s
  {
  }

  /** Every packet the receiver reads from a stream is well formed. */
  lemma {:induction false} ParseWellFormed(bs: seq<byte>, pointsPerPacket: int)
    requires ValidPointsPerPacket(pointsPerPacket) && Parse(bs, pointsPerPacket).Some?
    ensures var fs := Parse(bs, pointsPerPacket).value;
      forall i :: 0 <= i < |fs| ==> WellFormed(fs[i], pointsPerPacket)
    decreases |bs|
  {
    if bs != [] {
      ParseStep(bs, pointsPerPacket);
      var f := DecodeFrame(bs, pointsPerPacket).value;
      var tail := bs[|Encode(f)|..];
      var rest := Parse(tail, pointsPerPacket).value;
      var fs := [f] + rest;
      ParseWellFormed(tail, pointsPerPacket);
      forall i | 0 <= i < |fs|
        ensures WellFormed(fs[i], pointsPerPacket)
      {
        if i > 0 {
          assert fs[i] == rest[i - 1];
        }
      }
    }
  }

  /** Frames `fs` carry the sequence numbers first, first + 1, ... modulo 256. */
  predicate Consecutive(fs: seq<Frame>, first: byte)
  {
    forall i :: 0 <= i < |fs| ==> fs[i].seqNo == (first + i) % 0x100
  }

  /**
    Writing one more packet stamped with the next counter value keeps the
    numbering consecutive and appends exactly that packet's bytes.
   */
  lemma SessionStep(fs: seq<Frame>, first: byte, f: Frame)
    requires Consecutive(fs, first) && f.seqNo == (first + |fs|) % 0x100
    ensures Consecutive(fs + [f], first)
    ensures Concat(fs + [f]) == Concat(fs) + Encode(f)
  {
    ConcatAppend(fs, f);
    ConsecutiveStep(fs, first, f);
  }

  lemma ConsecutiveStep(fs: seq<Frame>, first: byte, f: Frame)
    requires Consecutive(fs, first) && f.seqNo == (first + |fs|) % 0x100
    ensures Consecutive(fs + [f], first)
  {
    var all := fs + [f];
    forall i | 0 <= i < |all|
      ensures all[i].seqNo == (first + i) % 0x100
    {
      if i < |fs| {
        assert all[i] == fs[i];
      }
    }
  }

  /**
    Losing any packet but the last from a consecutively numbered run leaves a
    gap the receiver sees: the numbering is no longer consecutive.
   */
  lemma GapDetected(fs: seq<Frame>, first: byte, i: int)
    requires Consecutive(fs, first) && 0 <= i < |fs| - 1
    ensures !Consecutive(fs[..i] + fs[i + 1..], first)
  {
    var kept := fs[..i] + fs[i + 1..];
    assert kept[i] == fs[i + 1];
    assert fs[i + 1].seqNo == (first + i + 1) % 0x100;
  }
}
