/** Concrete runs of the playback model that pin down behaviour the general
    lemmas leave implicit. */
module Scenarios {

  import opened Wrappers
  import opened SampleFormats
  import opened Pipeline
  import opened Decoding
  import opened Playback

  /** A decoder answering every call with one fully written frame of `n` samples, then EAGAIN. */
  function SteadyDecoder(n: nat): nat -> CallOracle {
    k => CallOracle(0, DecoderReply([FrameOracle(n, 0, n, 0)], AVERROR_EAGAIN))
  }

  /** The counter is reduced by one sample rate per packet at most, so a packet worth
      3.5 seconds leaves it at 2.5 seconds' worth, above the sample rate. */
  lemma CounterIsNotBoundedBySampleRate()
    ensures ReadLoop([Packet(0, [])], 0, 100, SteadyDecoder(350), 0, 0).outcome == Done(LoopState(250, 1))
  {
    var call := SteadyDecoder(350)(0);
    DecodeCompletesExactly(Some(Packet(0, [])), call);
    DecodeReturnsRequestedSamples(Some(Packet(0, [])), call);
    assert TotalSamples(call.reply.frames) == 350;
  }

  /** Three one-frame packets of 100 samples each, and a flush that yields nothing. */
  function ThreePacketDecoder(k: nat): CallOracle {
    if k < 3 then CallOracle(0, DecoderReply([FrameOracle(100, 0, 100, 0)], AVERROR_EAGAIN))
    else CallOracle(0, DecoderReply([], AVERROR_EOF))
  }

  /** Each of the four decode calls of that run completes; the first three return 100 samples. */
  lemma ThreePacketDecodes(p: Option<Packet>, k: nat)
    ensures DecodeSpec(p, ThreePacketDecoder(k)).outcome.Done?
    ensures k < 3 ==> DecodeSpec(p, ThreePacketDecoder(k)).outcome.value == 100
  {
    var call := ThreePacketDecoder(k);
    DecodeCompletesExactly(p, call);
    DecodeReturnsRequestedSamples(p, call);
    if k < 3 {
      assert TotalSamples(call.reply.frames) == 100;
    }
  }

  /** A mono, 8-bit unsigned, 8 kHz stream of three packets, each decoding to one
      100-sample frame: the device is opened as U8 on either host, the decoder is fed
      the three packets and then the end-of-stream marker, 300 samples are counted and
      no progress dot is printed. */
  lemma ThreePacketU8Playback(host: Endianness)
    ensures var packets := [Packet(0, [1]), Packet(0, [2]), Packet(0, [3])];
      var r := PlaySpec(StreamInfo(0, AvU8, 8000, 1), host, SetupOracle(0, 0, 0, 0, 0), packets, ThreePacketDecoder);
      && r.outcome == Done(300)
      && Sends(r.trace) == [Some(packets[0]), Some(packets[1]), Some(packets[2]), None]
      && r.trace[0] == ConfigureDevice(SndU8, 1, 8000, LatencyUs)
      && Count(r.trace, IsDot) == 0
  {
    var packets := [Packet(0, [1]), Packet(0, [2]), Packet(0, [3])];
    var stream := StreamInfo(0, AvU8, 8000, 1);
    var setup := SetupOracle(0, 0, 0, 0, 0);
    SetUpSucceedsExactly(stream, host, setup);
    LookupU8(host);
    LookupIsMatchingDeviceFormat(AvU8, host, SndU8);
    forall p: Option<Packet>, k: nat | k < 4
      ensures DecodeSpec(p, ThreePacketDecoder(k)).outcome.Done?
      ensures k < 3 ==> DecodeSpec(p, ThreePacketDecoder(k)).outcome.value == 100
    {
      ThreePacketDecodes(p, k);
    }
    AllSelected(packets, 0);
    PlayFeedsSelectedPacketsThenFlushes(stream, host, setup, packets, ThreePacketDecoder);
    PlayProgressAccounting(stream, host, setup, packets, ThreePacketDecoder);
  }

  /** The same run asks the device for three writes of 100 samples each, 300 in all. */
  lemma ThreePacketU8PlaybackWrites(host: Endianness)
    ensures var packets := [Packet(0, [1]), Packet(0, [2]), Packet(0, [3])];
      var r := PlaySpec(StreamInfo(0, AvU8, 8000, 1), host, SetupOracle(0, 0, 0, 0, 0), packets, ThreePacketDecoder);
      && Writes(r.trace) == [Write(100, 100), Write(100, 100), Write(100, 100)]
      && Requested(Writes(r.trace)) == 300
  {
    var packets := [Packet(0, [1]), Packet(0, [2]), Packet(0, [3])];
    var r := PlaySpec(StreamInfo(0, AvU8, 8000, 1), host, SetupOracle(0, 0, 0, 0, 0), packets, ThreePacketDecoder);
    assert r.outcome.Done? by {
      ThreePacketU8Playback(host);
    }
    assert Writes(r.trace) == CallWrites(ThreePacketDecoder, 0, 4) by {
      AllSelected(packets, 0);
      PlayWritesEveryFrame(StreamInfo(0, AvU8, 8000, 1), host, SetupOracle(0, 0, 0, 0, 0), packets, ThreePacketDecoder);
    }
    ThreePacketWrites();
  }

  /** A container holding only packets of the selected stream is kept whole. */
  lemma {:induction false} AllSelected(packets: seq<Packet>, index: int)
    requires forall k :: 0 <= k < |packets| ==> packets[k].streamIndex == index
    ensures Selected(packets, index) == packets
  {
    if packets != [] {
      AllSelected(packets[1..], index);
    }
  }

  /** The four decode calls of the three-packet run ask for three full 100-sample writes. */
  lemma ThreePacketWrites()
    ensures CallWrites(ThreePacketDecoder, 0, 4) == [Write(100, 100), Write(100, 100), Write(100, 100)]
    ensures Requested(CallWrites(ThreePacketDecoder, 0, 4)) == 300
  {
    var one := FrameWrites(ThreePacketDecoder(0).reply.frames);
    assert one == [Write(100, 100)];
    assert CallWrites(ThreePacketDecoder, 3, 4) == [] by {
      assert FrameWrites(ThreePacketDecoder(3).reply.frames) == [];
    }
    assert CallWrites(ThreePacketDecoder, 0, 4) == one + (one + (one + []));
    assert Requested(one) == 100;
    RequestedAppend(one, one + one);
    RequestedAppend(one, one);
  }
}
