/**
  The packet writers of the Teensy 4.1 firmware.

  Every packet kind writes its header, then the current value of one sequence
  counter shared by all kinds, post-incrementing it, then its payload. The
  counter (a static `uint8_t` in the firmware) is one `PacketBase` object here,
  passed to every write; the Arduino `Stream` is an append-only byte sink.
  Each write is specified by the `Frame` it puts on the wire (module AdiWire).
 */
module AdiPackets {
  import opened Bytes
  import opened AdiWire

  /** The byte stream packets are written to: it accepts every byte it is given. */
  class Stream {
    var written: seq<byte>

    constructor()
      ensures written == []
    {
      written := [];
    }

    method Write(bs: seq<byte>) returns (n: int)
      modifies this
      ensures written == old(written) + bs && n == |bs|
    {
      written := written + bs;
      n := |bs|;
    }
  }

  /** The packet counter shared by every packet kind. */
  class PacketBase {
    var sPacketCount: byte

    /** Static storage starts zeroed. */
    constructor()
      ensures sPacketCount == 0
    {
      sPacketCount := 0;
    }

    /** `sPacketCount++` on a `uint8_t`: yields the current value, then advances it modulo 256. */
    method PostIncrement() returns (sent: byte)
      modifies this
      ensures sent == old(sPacketCount)
      ensures sPacketCount == (old(sPacketCount) + 1) % 0x100
    {
      sent := sPacketCount;
      sPacketCount := (sPacketCount + 1) % 0x100;
    }
  }

  /** A data packet: up to `kPointsPerMediumSizePacket` points of `kADCChannels` samples each. */
  class Packet {
    var mPoint: int
    const mData: array2<int16>

    ghost predicate Valid()
      reads this
    {
      mData.Length0 == kPointsPerMediumSizePacket && mData.Length1 == kADCChannels && mPoint >= 0
    }

    constructor()
      ensures Valid() && fresh(mData) && mPoint == 0
    {
      mPoint := 0;
      mData := new int16[kPointsPerMediumSizePacket, kADCChannels];
    }

    static method ResetPacketCount(counter: PacketBase)
      modifies counter
      ensures counter.sPacketCount == 0
    {
      counter.sPacketCount := 0;
    }

    /**
      Stores `sample` for channel `chan` of the current point, unless the
      configured number of points is already filled.
     */
    method AddSample(chan: int, sample: int16, gADCPointsPerPacket: int) returns (added: bool)
      requires Valid() && gADCPointsPerPacket <= kPointsPerMediumSizePacket
      requires 0 <= chan < kADCChannels
      modifies mData
      ensures added == (mPoint < gADCPointsPerPacket)
      ensures forall i, c :: 0 <= i < mData.Length0 && 0 <= c < mData.Length1 ==>
        mData[i, c] == if added && i == mPoint && c == chan then sample else old(mData[i, c])
    {
      if mPoint >= gADCPointsPerPacket {
        return false;
      }
      mData[mPoint, chan] := sample;
      return true;
    }

    /** Moves on to the next point; the samples stay as they are. */
    method NextPoint()
      requires Valid()
      modifies this`mPoint
      ensures Valid() && mPoint == old(mPoint) + 1
    {
      mPoint := mPoint + 1;
    }

    /** The first `points` points of `mData` as they lie in memory: point-major, channel-minor. */
    function Memory(points: int): (samples: seq<int16>)
      reads this, mData
      requires Valid() && 0 <= points <= kPointsPerMediumSizePacket
      ensures |samples| == kADCChannels * points
      ensures forall i, c :: 0 <= i < points && 0 <= c < kADCChannels ==>
        samples[kADCChannels * i + c] == mData[i, c]
    {
      seq(kADCChannels * points, k requires 0 <= k < kADCChannels * points reads mData =>
        mData[k / kADCChannels, k % kADCChannels])
    }

    /**
      Writes the packet with the configured number of points and advances the
      shared counter; the packet itself is left as it was.
     */
    method Write(stream: Stream, counter: PacketBase, gADCPointsPerPacket: int) returns (n: int)
      requires Valid() && 0 <= gADCPointsPerPacket <= kPointsPerMediumSizePacket
      modifies stream, counter
      ensures stream.written ==
        old(stream.written) + Encode(Samples(old(counter.sPacketCount), Memory(gADCPointsPerPacket)))
      ensures stream.written[|old(stream.written)| + 2] ==
        if gADCPointsPerPacket == 1 then kTagSingle else kTagMulti
      ensures counter.sPacketCount == (old(counter.sPacketCount) + 1) % 0x100
      ensures n == 4 + 2 * kADCChannels * gADCPointsPerPacket
    {
      ghost var before := stream.written;
      var tag: byte := if gADCPointsPerPacket == 1 then kTagSingle else kTagMulti;
      n := stream.Write([kMagic0, kMagic1]);
      var m := stream.Write([tag]);
      n := n + m;
      var seqNo := counter.PostIncrement();
      m := stream.Write([seqNo]);
      n := n + m;
      var samples := Memory(gADCPointsPerPacket);
      m := stream.Write(SampleBytes(samples));
      n := n + m;
      assert tag == SampleTag(|samples|);
      assert stream.written == before + ([kMagic0, kMagic1, tag, seqNo] + SampleBytes(samples));
    }
  }

  /** A reply to a time request: the request's number and the current tick. */
  class TimePacket {
    const mData: int32
    const mTimeRequestNumber: byte

    constructor(tick32us: int32, timeRequestNumber: byte)
      ensures mData == tick32us && mTimeRequestNumber == timeRequestNumber
    {
      mData := tick32us;
      mTimeRequestNumber := timeRequestNumber;
    }

    /** The part after the tag, shared with `LatestUSBFrameTimePacket`. */
    method WriteData(stream: Stream, counter: PacketBase) returns (n: int)
      modifies stream, counter
      ensures stream.written ==
        old(stream.written) + TimeData(old(counter.sPacketCount), mTimeRequestNumber, mData)
      ensures counter.sPacketCount == (old(counter.sPacketCount) + 1) % 0x100
      ensures n == 6
    {
      var seqNo := counter.PostIncrement();
      n := stream.Write([seqNo]);
      var m := stream.Write([mTimeRequestNumber]);
      n := n + m;
      m := stream.Write(Int32Bytes(mData));
      n := n + m;
    }

    method Write(stream: Stream, counter: PacketBase) returns (n: int)
      modifies stream, counter
      ensures stream.written ==
        old(stream.written) + Encode(Time(old(counter.sPacketCount), mTimeRequestNumber, mData))
      ensures counter.sPacketCount == (old(counter.sPacketCount) + 1) % 0x100
      ensures n == 9
    {
      ghost var before := stream.written;
      TimeLayout(counter.sPacketCount, mTimeRequestNumber, mData);
      n := stream.Write([kMagic0, kMagic1, kTagTime]);
      var m := WriteData(stream, counter);
      n := n + m;
      AppendTwo(before, [kMagic0, kMagic1, kTagTime], TimeData(old(counter.sPacketCount), mTimeRequestNumber, mData));
    }
  }

  /** The tick at which the first sample was taken. */
  class FirstSampleTimePacket {
    const mData: int32

    constructor(tick32us: int32)
      ensures mData == tick32us
    {
      mData := tick32us;
    }

    method Write(stream: Stream, counter: PacketBase) returns (n: int)
      modifies stream, counter
      ensures stream.written ==
        old(stream.written) + Encode(FirstSampleTime(old(counter.sPacketCount), mData))
      ensures counter.sPacketCount == (old(counter.sPacketCount) + 1) % 0x100
      ensures n == 8
    {
      n := stream.Write([kMagic0, kMagic1, kTagFirstSample]);
      var seqNo := counter.PostIncrement();
      var m := stream.Write([seqNo]);
      n := n + m;
      m := stream.Write(Int32Bytes(mData));
      n := n + m;
    }
  }

  /**
    A time reply that also carries the latest USB start-of-frame number and
    time. It is a time packet extended by two fields: `time` holds the time
    packet part, whose `WriteData` it reuses under its own tag.
   */
  class LatestUSBFrameTimePacket {
    const time: TimePacket
    const mFrameNumber: uint16
    const mFrameTimeus: int32

    constructor(tick32us: int32, timeRequestNumber: byte, frameNumber: uint16, latestFrameus: int32)
      ensures fresh(time)
      ensures time.mData == tick32us && time.mTimeRequestNumber == timeRequestNumber
      ensures mFrameNumber == frameNumber && mFrameTimeus == latestFrameus
    {
      time := new TimePacket(tick32us, timeRequestNumber);
      mFrameNumber := frameNumber;
      mFrameTimeus := latestFrameus;
    }

    method Write(stream: Stream, counter: PacketBase) returns (n: int)
      modifies stream, counter
      ensures stream.written == old(stream.written) + Encode(LatestUSBFrameTime(
        old(counter.sPacketCount), time.mTimeRequestNumber, time.mData, mFrameNumber, mFrameTimeus))
      ensures counter.sPacketCount == (old(counter.sPacketCount) + 1) % 0x100
      ensures n == 15
    {
      ghost var before := stream.written;
      LatestUSBFrameLayout(counter.sPacketCount, time.mTimeRequestNumber, time.mData, mFrameNumber, mFrameTimeus);
      n := stream.Write([kMagic0, kMagic1, kTagLatestUSBFrame]);
      var m := time.WriteData(stream, counter);
      n := n + m;
      m := stream.Write(Uint16Bytes(mFrameNumber));
      n := n + m;
      m := stream.Write(Int32Bytes(mFrameTimeus));
      n := n + m;
      AppendFour(before, [kMagic0, kMagic1, kTagLatestUSBFrame],
        TimeData(old(counter.sPacketCount), time.mTimeRequestNumber, time.mData),
        Uint16Bytes(mFrameNumber), Int32Bytes(mFrameTimeus));
    }
  }

  /** Appending two pieces one after another appends their concatenation. */
  lemma AppendTwo(s: seq<byte>, a: seq<byte>, b: seq<byte>)
    ensures s + a + b == s + (a + b)
  {
  }

  /** Appending four pieces one after another appends their concatenation. */
  lemma AppendFour(s: seq<byte>, a: seq<byte>, b: seq<byte>, c: seq<byte>, d: seq<byte>)
    ensures s + a + b + c + d == s + (a + b + c + d)
  {
  }

  /**
    One point of two channels, 100 and -50, written as a single-point packet
    right after a counter reset.
   */
  method SinglePointScenario() returns (sent: seq<byte>)
    ensures sent == [kMagic0, kMagic1, kTagSingle, 0, 100, 0, 0xCE, 0xFF]
  {
    var stream := new Stream();
    var counter := new PacketBase();
    counter.sPacketCount := 7;
    Packet.ResetPacketCount(counter);
    var p := new Packet();
    var added := p.AddSample(0, 100, 1);
    added := p.AddSample(1, -50, 1);
    var n := p.Write(stream, counter, 1);
    assert p.Memory(1) == [100, -50];
    SinglePointBytes();
    sent := stream.written;
  }

  /** The bytes of a one-point data packet numbered 0 holding the samples 100 and -50. */
  lemma SinglePointBytes()
    ensures Encode(Samples(0, [100, -50])) == [kMagic0, kMagic1, kTagSingle, 0, 100, 0, 0xCE, 0xFF]
  {
    assert Int16Bytes(100) == [100, 0] by {
      assert LittleEndian(100, 2) == [100] + LittleEndian(0, 1);
      assert LittleEndian(0, 1) == [0] + LittleEndian(0, 0);
    }
    assert Int16Bytes(-50) == [0xCE, 0xFF] by {
      assert LittleEndian(0xFFCE, 2) == [0xCE] + LittleEndian(0xFF, 1);
      assert LittleEndian(0xFF, 1) == [0xFF] + LittleEndian(0, 0);
    }
    assert SampleBytes([100, -50]) == [100, 0, 0xCE, 0xFF];
  }

  /**
    Packets of different kinds written one after another after a counter
    reset carry the sequence numbers 0, 1, 2, and a receiver reads back
    exactly those packets.
   */
  method MixedKindsScenario(tick: int32, request: byte, firstTick: int32, frameNumber: uint16, frameTime: int32)
    returns (sent: seq<byte>)
    ensures Parse(sent, kPointsPerMediumSizePacket) == Some([
      Time(0, request, tick),
      FirstSampleTime(1, firstTick),
      LatestUSBFrameTime(2, request, tick, frameNumber, frameTime)])
  {
    var stream := new Stream();
    var counter := new PacketBase();
    Packet.ResetPacketCount(counter);
    var t := new TimePacket(tick, request);
    var f := new FirstSampleTimePacket(firstTick);
    var l := new LatestUSBFrameTimePacket(tick, request, frameNumber, frameTime);
    ghost var a, b, c := Time(0, request, tick), FirstSampleTime(1, firstTick),
      LatestUSBFrameTime(2, request, tick, frameNumber, frameTime);
    var n := t.Write(stream, counter);
    assert stream.written == Encode(a) && counter.sPacketCount == 1;
    n := f.Write(stream, counter);
    assert stream.written == Encode(a) + Encode(b) && counter.sPacketCount == 2;
    n := l.Write(stream, counter);
    assert stream.written == Encode(a) + Encode(b) + Encode(c);
    ThreeFrames(a, b, c, kPointsPerMediumSizePacket);
    sent := stream.written;
  }

  /** Three well-formed packets written back to back are read back as those three. */
  lemma ThreeFrames(a: Frame, b: Frame, c: Frame, pointsPerPacket: int)
    requires ValidPointsPerPacket(pointsPerPacket)
    requires WellFormed(a, pointsPerPacket) && WellFormed(b, pointsPerPacket) && WellFormed(c, pointsPerPacket)
    ensures Parse(Encode(a) + Encode(b) + Encode(c), pointsPerPacket) == Some([a, b, c])
  {
    var ea, eb, ec := Encode(a), Encode(b), Encode(c);
    assert [a] + [b, c] == [a, b, c] && [b] + [c] == [b, c] && [c] + [] == [c];
    ConcatCons(c, []);
    ConcatCons(b, [c]);
    ConcatCons(a, [b, c]);
    assert Concat([a, b, c]) == ea + (eb + (ec + []));
    assert ea + (eb + (ec + [])) == ea + eb + ec;
    ParseConcat([a, b, c], pointsPerPacket);
  }

  /** The time replies to `request` for the first `n` ticks, numbered on from `first` modulo 256. */
  function TimeReplies(first: byte, request: byte, ticks: seq<int32>, n: int): (fs: seq<Frame>)
    requires 0 <= n <= |ticks|
    ensures |fs| == n
  {
    seq(n, i requires 0 <= i < n => Time((first + i) % 0x100, request, ticks[i]))
  }

  /**
    Answers one time request per tick through the shared counter: the stream
    gains exactly those replies, numbered consecutively from the counter's
    value on entry, and the counter ends that many steps further on.
   */
  method TimeReplySession(stream: Stream, counter: PacketBase, request: byte, ticks: seq<int32>)
    modifies stream, counter
    ensures stream.written ==
      old(stream.written) + Concat(TimeReplies(old(counter.sPacketCount), request, ticks, |ticks|))
    ensures counter.sPacketCount == (old(counter.sPacketCount) + |ticks|) % 0x100
  {
    ghost var w0, first := stream.written, counter.sPacketCount;
    var i := 0;
    while i < |ticks|
      invariant 0 <= i <= |ticks|
      invariant stream.written == w0 + Concat(TimeReplies(first, request, ticks, i))
      invariant counter.sPacketCount == (first + i) % 0x100
    {
      ghost var before, f := stream.written, Time((first + i) % 0x100, request, ticks[i]);
      var t := new TimePacket(ticks[i], request);
      var n := t.Write(stream, counter);
      assert stream.written == before + Encode(f);
      SessionExtend(first, request, ticks, i);
      AppendTwo(w0, Concat(TimeReplies(first, request, ticks, i)), Encode(f));
      NextCount(first, i);
      i := i + 1;
    }
  }

  /** Stepping a counter that stands `i` steps on from `first` leaves it `i + 1` steps on. */
  lemma NextCount(first: byte, i: nat)
    ensures ((first + i) % 0x100 + 1) % 0x100 == (first + i + 1) % 0x100
  {
  }

  /** The replies are numbered consecutively from `first`. */
  lemma TimeRepliesConsecutive(first: byte, request: byte, ticks: seq<int32>, n: int)
    requires 0 <= n <= |ticks|
    ensures Consecutive(TimeReplies(first, request, ticks, n), first)
  {
    var fs := TimeReplies(first, request, ticks, n);
    forall k | 0 <= k < n
      ensures fs[k].seqNo == (first + k) % 0x100
    {
    }
  }

  /**
    One more reply extends the session: the reply to tick `i`, stamped `i`
    steps on from `first`, keeps the numbering consecutive and appends exactly
    its packet's bytes.
   */
  lemma SessionExtend(first: byte, request: byte, ticks: seq<int32>, i: int)
    requires 0 <= i < |ticks|
    ensures var fs, f := TimeReplies(first, request, ticks, i), Time((first + i) % 0x100, request, ticks[i]);
      && TimeReplies(first, request, ticks, i + 1) == fs + [f]
      && Consecutive(fs + [f], first)
      && Concat(TimeReplies(first, request, ticks, i + 1)) == Concat(fs) + Encode(f)
  {
    var fs, f := TimeReplies(first, request, ticks, i), Time((first + i) % 0x100, request, ticks[i]);
    TimeRepliesConsecutive(first, request, ticks, i);
    SessionStep(fs, first, f);
    var next := TimeReplies(first, request, ticks, i + 1);
    assert |next| == |fs + [f]|;
    forall k | 0 <= k <= i
      ensures next[k] == (fs + [f])[k]
    {
    }
  }

  /** A receiver reads the bytes of a session of time replies back as exactly those replies. */
  lemma TimeRepliesParse(first: byte, request: byte, ticks: seq<int32>)
    ensures Parse(Concat(TimeReplies(first, request, ticks, |ticks|)), kPointsPerMediumSizePacket)
      == Some(TimeReplies(first, request, ticks, |ticks|))
  {
    var fs := TimeReplies(first, request, ticks, |ticks|);
    forall i | 0 <= i < |fs|
      ensures WellFormed(fs[i], kPointsPerMediumSizePacket)
    {
    }
    ParseConcat(fs, kPointsPerMediumSizePacket);
  }
}
