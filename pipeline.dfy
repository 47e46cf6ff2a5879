/** Values shared by the decode step and the playback loop of main.c: packets,
    the answers the FFmpeg and ALSA libraries give (as oracles), the calls that
    can end the process, and the observable trace of library calls and
    diagnostics. */
module Pipeline {

  import opened Wrappers
  import opened SampleFormats

  /** AVERROR(EAGAIN) on Linux: the decoder has no frame ready yet. */
  const AVERROR_EAGAIN: int := -11
  /** AVERROR_EOF, -MKTAG('E','O','F',' '): the decoder is fully drained. */
  const AVERROR_EOF: int := -0x2046_4F45

  /** A negative return code of a library call. */
  type ErrorCode = c: int | c < 0 witness -1

  /** One demultiplexed, still encoded packet, tagged with the stream it belongs to. */
  datatype Packet = Packet(streamIndex: int, payload: seq<int>)

  /** One decoded frame, together with what the libraries answer while it is
      converted and written: the swr_convert result, the snd_pcm_writei result and
      the snd_pcm_recover result (consulted only after a negative write). */
  datatype FrameOracle = FrameOracle(nbSamples: nat, convertRet: int, writeRet: int, recoverRet: int)

  /** What avcodec_receive_frame answers after one send: some frames, then a negative code. */
  datatype DecoderReply = DecoderReply(frames: seq<FrameOracle>, stop: ErrorCode)

  /** The library's answers during one call of decode: the avcodec_send_packet result and the reply. */
  datatype CallOracle = CallOracle(sendRet: int, reply: DecoderReply)

  /** The library calls whose negative result makes the process exit. */
  datatype Call =
    | AvcodecParametersToContext
    | AvcodecOpen2
    | SndFormatLookup
    | SndPcmOpen
    | SndPcmSetParams
    | SwrInit
    | AvcodecSendPacket
    | AvcodecReceiveFrame
    | SwrConvert
    | SndPcmWritei

  /** A fatal exit: the call that failed and the code it was given. */
  datatype Fatal = Fatal(call: Call, code: int)

  /** Either the process carries on with a value, or it has exited. */
  datatype Outcome<T> = Done(value: T) | Aborted(fatal: Fatal)

  /** The observable effects: library calls with side effects and stderr diagnostics. */
  datatype Event =
    | SendPacket(packet: Option<Packet>)
    | Convert(nbSamples: nat)
    | Write(requested: nat, result: int)
    | Recover(err: int)
    | ShortWrite(expected: nat, wrote: int)
    | ProgressDot
    | ConfigureDevice(format: SndPcmFormat, channels: int, rate: int, latencyUs: int)
    | ConfigureConverter(inFormat: AvSampleFormat, outFormat: AvSampleFormat, rate: int)

  /** An outcome together with the events that led to it. */
  datatype Run<T> = Run(outcome: Outcome<T>, trace: seq<Event>)

  /** enprintf, eaprintf and esprintf: return with no effect when `err` is not
      negative, exit reporting the failed call and its code otherwise. */
  function ExitOnError(call: Call, err: int): (r: Outcome<()>)
    ensures r.Aborted? <==> err < 0
    ensures r.Aborted? ==> r.fatal == Fatal(call, err)
  {
    if err < 0 then Aborted(Fatal(call, err)) else Done(())
  }

  predicate IsSend(e: Event) { e.SendPacket? }
  predicate IsConvert(e: Event) { e.Convert? }
  predicate IsWrite(e: Event) { e.Write? }
  predicate IsFailedWrite(e: Event) { e.Write? && e.result < 0 }
  predicate IsRecover(e: Event) { e.Recover? }
  predicate IsShortWrite(e: Event) { e.ShortWrite? }
  predicate IsDot(e: Event) { e.ProgressDot? }

  /** How many elements of `s` satisfy `p`. */
  function Count<T>(s: seq<T>, p: T -> bool): (n: nat)
    ensures n <= |s|
  {
    if s == [] then 0 else (if p(s[0]) then 1 else 0) + Count(s[1..], p)
  }

  lemma {:induction false} CountAppend<T>(a: seq<T>, b: seq<T>, p: T -> bool)
    ensures Count(a + b, p) == Count(a, p) + Count(b, p)
  {
    if a != [] {
      assert (a + b)[1..] == a[1..] + b;
      CountAppend(a[1..], b, p);
    } else {
      assert a + b == b;
    }
  }

  /** The packets (or end-of-stream markers) handed to avcodec_send_packet, in order. */
  function Sends(trace: seq<Event>): (r: seq<Option<Packet>>)
    ensures |r| == Count(trace, IsSend)
  {
    if trace == [] then []
    else (if trace[0].SendPacket? then [trace[0].packet] else []) + Sends(trace[1..])
  }

  lemma {:induction false} SendsAppend(a: seq<Event>, b: seq<Event>)
    ensures Sends(a + b) == Sends(a) + Sends(b)
  {
    if a != [] {
      assert (a + b)[1..] == a[1..] + b;
      SendsAppend(a[1..], b);
    } else {
      assert a + b == b;
    }
  }

  /** The snd_pcm_writei calls, in order, each with the sample count it asked for and its result. */
  function Writes(trace: seq<Event>): (r: seq<Event>)
    ensures |r| == Count(trace, IsWrite)
    ensures forall k :: 0 <= k < |r| ==> r[k].Write?
  {
    if trace == [] then []
    else (if trace[0].Write? then [trace[0]] else []) + Writes(trace[1..])
  }

  lemma {:induction false} WritesAppend(a: seq<Event>, b: seq<Event>)
    ensures Writes(a + b) == Writes(a) + Writes(b)
  {
    if a != [] {
      assert (a + b)[1..] == a[1..] + b;
      WritesAppend(a[1..], b);
    } else {
      assert a + b == b;
    }
  }

  /** The number of samples a sequence of writes asked the device to take. */
  function Requested(writes: seq<Event>): int {
    if writes == [] then 0
    else (if writes[0].Write? then writes[0].requested else 0) + Requested(writes[1..])
  }

  lemma {:induction false} RequestedAppend(a: seq<Event>, b: seq<Event>)
    ensures Requested(a + b) == Requested(a) + Requested(b)
  {
    if a != [] {
      assert (a + b)[1..] == a[1..] + b;
      RequestedAppend(a[1..], b);
    } else {
      assert a + b == b;
    }
  }

  function Indicator(b: bool): nat {
    if b then 1 else 0
  }

  lemma CountUnit<T>(s: seq<T>, p: T -> bool)
    requires |s| <= 1
    ensures Count(s, p) == Indicator(|s| == 1 && p(s[0]))
  {
    if |s| == 1 {
      assert s[1..] == [];
    }
  }

  /** Count over four pieces of at most one element each. */
  lemma CountPieces<T>(a: seq<T>, b: seq<T>, c: seq<T>, d: seq<T>, p: T -> bool)
    requires |a| <= 1 && |b| <= 1 && |c| <= 1 && |d| <= 1
    ensures Count(a + b + c + d, p) == Indicator(|a| == 1 && p(a[0])) + Indicator(|b| == 1 && p(b[0]))
                                       + Indicator(|c| == 1 && p(c[0])) + Indicator(|d| == 1 && p(d[0]))
  {
    CountAppend(a, b, p);
    CountAppend(a + b, c, p);
    CountAppend(a + b + c, d, p);
    CountUnit(a, p);
    CountUnit(b, p);
    CountUnit(c, p);
    CountUnit(d, p);
  }

  lemma SendsUnit(t: seq<Event>)
    requires |t| <= 1
    ensures Sends(t) == if |t| == 1 && t[0].SendPacket? then [t[0].packet] else []
  {
    if |t| == 1 {
      assert t[1..] == [];
    }
  }

  lemma WritesUnit(t: seq<Event>)
    requires |t| <= 1
    ensures Writes(t) == if |t| == 1 && t[0].Write? then t else []
  {
    if |t| == 1 {
      assert t[1..] == [];
    }
  }

  /** Writes over four consecutive pieces. */
  lemma WritesPieces(a: seq<Event>, b: seq<Event>, c: seq<Event>, d: seq<Event>)
    ensures Writes(a + b + c + d) == Writes(a) + Writes(b) + Writes(c) + Writes(d)
  {
    WritesAppend(a, b);
    WritesAppend(a + b, c);
    WritesAppend(a + b + c, d);
  }

  /** Device and converter configuration: no packet sent, nothing written, no dot. */
  lemma {:induction false} ConfigurationOnly(t: seq<Event>)
    requires forall k :: 0 <= k < |t| ==> t[k].ConfigureDevice? || t[k].ConfigureConverter?
    ensures Sends(t) == [] && Writes(t) == [] && Count(t, IsDot) == 0
  {
    if t != [] {
      ConfigurationOnly(t[1..]);
    }
  }

  /** Sends over four pieces holding no packet send. */
  lemma SendsPieces(a: seq<Event>, b: seq<Event>, c: seq<Event>, d: seq<Event>)
    requires |a| <= 1 && |b| <= 1 && |c| <= 1 && |d| <= 1
    requires forall e :: e in a + b + c + d ==> !e.SendPacket?
    ensures Sends(a + b + c + d) == []
  {
    SendsAppend(a, b);
    SendsAppend(a + b, c);
    SendsAppend(a + b + c, d);
    SendsUnit(a);
    SendsUnit(b);
    SendsUnit(c);
    SendsUnit(d);
  }
}
