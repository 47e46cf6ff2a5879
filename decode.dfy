/** The per-packet step `decode` (main.c:87-144): send one packet, or the
    end-of-stream marker, to the decoder; pull frames until the decoder answers
    EAGAIN or EOF; convert each frame and write it to the device, recovering
    once from a failed write; return the number of samples the frames held. */
module Decoding {

  import opened Wrappers
  import opened Pipeline

  /** The two receive codes that end the pull loop normally (main.c:110-111). */
  predicate NormalStop(code: int) {
    code == AVERROR_EAGAIN || code == AVERROR_EOF
  }

  /** The device's answer for a frame after at most one recovery attempt (main.c:125-127). */
  function Settled(f: FrameOracle): int {
    if f.writeRet < 0 then f.recoverRet else f.writeRet
  }

  /** A frame whose conversion or write (after recovery) ends the process. */
  predicate FrameFails(f: FrameOracle) {
    f.convertRet < 0 || Settled(f) < 0
  }

  predicate WriteFailed(f: FrameOracle) {
    f.writeRet < 0
  }

  /** The device took some, but not all, of the frame's samples. */
  predicate ShortWritten(f: FrameOracle) {
    0 < Settled(f) < f.nbSamples
  }

  /** The sum of the sample counts the frames asked to have written. */
  function TotalSamples(frames: seq<FrameOracle>): nat {
    if frames == [] then 0 else frames[0].nbSamples + TotalSamples(frames[1..])
  }

  /** The write each frame asks for: all of its samples, answered with its writeRet. */
  function FrameWrites(frames: seq<FrameOracle>): (r: seq<Event>)
    ensures |r| == |frames|
    ensures forall k :: 0 <= k < |frames| ==> r[k] == Write(frames[k].nbSamples, frames[k].writeRet)
  {
    if frames == [] then [] else [Write(frames[0].nbSamples, frames[0].writeRet)] + FrameWrites(frames[1..])
  }

  /** Writing every frame in full asks the device for all the samples the frames hold. */
  lemma {:induction false} FrameWritesRequestAllSamples(frames: seq<FrameOracle>)
    ensures Requested(FrameWrites(frames)) == TotalSamples(frames)
  {
    if frames != [] {
      FrameWritesRequestAllSamples(frames[1..]);
      assert FrameWrites(frames)[1..] == FrameWrites(frames[1..]);
    }
  }

  /** Converting and writing one received frame (main.c:117-136). */
  function PlayFrame(f: FrameOracle): Run<()> {
    var converted := [Convert(f.nbSamples)];
    match ExitOnError(SwrConvert, f.convertRet)
    case Aborted(e) => Run(Aborted(e), converted)
    case Done(_) =>
      var written := converted + [Write(f.nbSamples, f.writeRet)]
                     + (if f.writeRet < 0 then [Recover(f.writeRet)] else []);
      match ExitOnError(SndPcmWritei, Settled(f))
      case Aborted(e) => Run(Aborted(e), written)
      case Done(_) =>
        Run(Done(()), written + (if ShortWritten(f) then [ShortWrite(f.nbSamples, Settled(f))] else []))
  }

  /** Converting and writing one frame, step by step as main.c:117-136 writes it. */
  method WriteFrame(frame: FrameOracle) returns (outcome: Outcome<()>, trace: seq<Event>)
    ensures Run(outcome, trace) == PlayFrame(frame)
  {
    trace := [Convert(frame.nbSamples)];
    var guard := ExitOnError(SwrConvert, frame.convertRet);
    if guard.Aborted? {
      return Aborted(guard.fatal), trace;
    }
    var samples := frame.writeRet;
    trace := trace + [Write(frame.nbSamples, samples)];
    if samples < 0 {
      trace := trace + [Recover(samples)];
      samples := frame.recoverRet;
    }
    guard := ExitOnError(SndPcmWritei, samples);
    if guard.Aborted? {
      return Aborted(guard.fatal), trace;
    }
    if 0 < samples < frame.nbSamples {
      trace := trace + [ShortWrite(frame.nbSamples, samples)];
    }
    outcome := Done(());
  }

  /** `t` followed by run `r`, with `n` samples added to what `r` counts. */
  function Then(n: int, t: seq<Event>, r: Run<int>): Run<int> {
    Run(if r.outcome.Done? then Done(n + r.outcome.value) else r.outcome, t + r.trace)
  }

  lemma ThenThen(a: int, t: seq<Event>, b: int, u: seq<Event>, r: Run<int>)
    ensures Then(a, t, Then(b, u, r)) == Then(a + b, t + u, r)
  {
    assert t + (u + r.trace) == (t + u) + r.trace;
  }

  /** The receive loop (main.c:103-141) from the `i`-th received frame on. */
  function DrainFrom(reply: DecoderReply, i: nat): Run<int>
    requires i <= |reply.frames|
    decreases |reply.frames| - i
  {
    if i == |reply.frames| then
      if NormalStop(reply.stop) then Run(Done(0), [])
      else Run(Aborted(Fatal(AvcodecReceiveFrame, reply.stop)), [])
    else
      var f := reply.frames[i];
      var w := PlayFrame(f);
      if w.outcome.Aborted? then Run(Aborted(w.outcome.fatal), w.trace)
      else Then(f.nbSamples, w.trace, DrainFrom(reply, i + 1))
  }

  /** One call of decode: what it returns, or the fatal exit, and what it does on the way. */
  function DecodeSpec(packet: Option<Packet>, call: CallOracle): Run<int> {
    var sent := [SendPacket(packet)];
    match ExitOnError(AvcodecSendPacket, call.sendRet)
    case Aborted(e) => Run(Aborted(e), sent)
    case Done(_) => Then(0, sent, DrainFrom(call.reply, 0))
  }

  /** decode, step by step as main.c writes it; `packet` None is the NULL end-of-stream marker. */
  method Decode(packet: Option<Packet>, call: CallOracle) returns (outcome: Outcome<int>, trace: seq<Event>)
    ensures Run(outcome, trace) == DecodeSpec(packet, call)
  {
    trace := [SendPacket(packet)];
    var guard := ExitOnError(AvcodecSendPacket, call.sendRet);
    if guard.Aborted? {
      return Aborted(guard.fatal), trace;
    }
    var frames, stop := call.reply.frames, call.reply.stop;
    var readSamples := 0;
    var i := 0;
    while true
      invariant 0 <= i <= |frames|
      invariant Then(readSamples, trace, DrainFrom(call.reply, i)) == DecodeSpec(packet, call)
      decreases |frames| - i
    {
      var ret := if i < |frames| then 0 else stop;
      if ret == AVERROR_EAGAIN || ret == AVERROR_EOF {
        break;
      }
      guard := ExitOnError(AvcodecReceiveFrame, ret);
      if guard.Aborted? {
        return Aborted(guard.fatal), trace;
      }
      var frame := frames[i];
      var played, events := WriteFrame(frame);
      ghost var before := trace;
      trace := trace + events;
      if played.Aborted? {
        return Aborted(played.fatal), trace;
      }
      assert DrainFrom(call.reply, i) == Then(frame.nbSamples, events, DrainFrom(call.reply, i + 1));
      ThenThen(readSamples, before, frame.nbSamples, events, DrainFrom(call.reply, i + 1));
      readSamples := readSamples + frame.nbSamples;
      i := i + 1;
    }
    outcome := Done(readSamples);
  }

  /** The fatal exit a failing frame causes: its conversion, or else its write once recovery failed too. */
  function FrameFatal(f: FrameOracle): Fatal {
    if f.convertRet < 0 then Fatal(SwrConvert, f.convertRet) else Fatal(SndPcmWritei, Settled(f))
  }

  lemma PlayFrameOutcome(f: FrameOracle)
    ensures PlayFrame(f).outcome.Done? <==> !FrameFails(f)
    ensures PlayFrame(f).outcome.Aborted? ==> PlayFrame(f).outcome.fatal == FrameFatal(f)
  {
  }

  /** The events of one frame, in four pieces of at most one event each: the conversion,
      the write, the recovery and the short-write warning. */
  lemma PlayFramePieces(f: FrameOracle) returns (a: seq<Event>, b: seq<Event>, c: seq<Event>, d: seq<Event>)
    ensures PlayFrame(f).trace == a + b + c + d
    ensures a == [Convert(f.nbSamples)]
    ensures b == if f.convertRet < 0 then [] else [Write(f.nbSamples, f.writeRet)]
    ensures c == if f.convertRet < 0 || f.writeRet >= 0 then [] else [Recover(f.writeRet)]
    ensures d == if PlayFrame(f).outcome.Done? && ShortWritten(f) then [ShortWrite(f.nbSamples, Settled(f))] else []
  {
    a := [Convert(f.nbSamples)];
    b := if f.convertRet < 0 then [] else [Write(f.nbSamples, f.writeRet)];
    c := if f.convertRet < 0 || f.writeRet >= 0 then [] else [Recover(f.writeRet)];
    d := if PlayFrame(f).outcome.Done? && ShortWritten(f) then [ShortWrite(f.nbSamples, Settled(f))] else [];
  }

  lemma PlayFrameEvents(f: FrameOracle)
    ensures Sends(PlayFrame(f).trace) == [] && Count(PlayFrame(f).trace, IsDot) == 0
    ensures Count(PlayFrame(f).trace, IsRecover) == Count(PlayFrame(f).trace, IsFailedWrite)
    ensures Count(PlayFrame(f).trace, IsWrite) == (if f.convertRet < 0 then 0 else 1)
    ensures Count(PlayFrame(f).trace, IsConvert) == 1
  {
    var a, b, c, d := PlayFramePieces(f);
    CountPieces(a, b, c, d, IsConvert);
    SendsPieces(a, b, c, d);
    CountPieces(a, b, c, d, IsDot);
    CountPieces(a, b, c, d, IsRecover);
    CountPieces(a, b, c, d, IsFailedWrite);
    CountPieces(a, b, c, d, IsWrite);
  }

  /** A converted frame is written once, for all of its samples. */
  lemma PlayFrameWrites(f: FrameOracle)
    ensures Writes(PlayFrame(f).trace) == (if f.convertRet < 0 then [] else [Write(f.nbSamples, f.writeRet)])
  {
    var a, b, c, d := PlayFramePieces(f);
    WritesPieces(a, b, c, d);
    WritesUnit(a);
    WritesUnit(b);
    WritesUnit(c);
    WritesUnit(d);
  }

  lemma PlayFrameCompletedEvents(f: FrameOracle)
    ensures PlayFrame(f).outcome.Done? ==>
      && Count(PlayFrame(f).trace, IsRecover) == (if WriteFailed(f) then 1 else 0)
      && Count(PlayFrame(f).trace, IsShortWrite) == (if ShortWritten(f) then 1 else 0)
  {
    var a, b, c, d := PlayFramePieces(f);
    CountPieces(a, b, c, d, IsRecover);
    CountPieces(a, b, c, d, IsShortWrite);
  }

  lemma {:induction false} DrainOutcome(reply: DecoderReply, i: nat)
    requires i <= |reply.frames|
    ensures DrainFrom(reply, i).outcome.Done? <==>
      NormalStop(reply.stop) && forall k :: i <= k < |reply.frames| ==> !FrameFails(reply.frames[k])
    ensures DrainFrom(reply, i).outcome.Done? ==> DrainFrom(reply, i).outcome.value == TotalSamples(reply.frames[i..])
    ensures DrainFrom(reply, i).outcome.Aborted? ==>
      var e := DrainFrom(reply, i).outcome.fatal;
      || (e == Fatal(AvcodecReceiveFrame, reply.stop) && !NormalStop(reply.stop)
          && forall k :: i <= k < |reply.frames| ==> !FrameFails(reply.frames[k]))
      || (exists k :: i <= k < |reply.frames| && FrameFails(reply.frames[k]) && e == FrameFatal(reply.frames[k])
                      && (forall j :: i <= j < k ==> !FrameFails(reply.frames[j])))
    decreases |reply.frames| - i
  {
    if i < |reply.frames| {
      var f := reply.frames[i];
      PlayFrameOutcome(f);
      DrainOutcome(reply, i + 1);
      assert reply.frames[i..][1..] == reply.frames[i + 1..];
    }
  }

  /** The `i`-th frame, when it does not fail, contributes its own events ahead of the rest. */
  lemma DrainStep(reply: DecoderReply, i: nat)
    requires i < |reply.frames| && PlayFrame(reply.frames[i]).outcome.Done?
    ensures DrainFrom(reply, i).trace == PlayFrame(reply.frames[i]).trace + DrainFrom(reply, i + 1).trace
    ensures DrainFrom(reply, i).outcome.Done? == DrainFrom(reply, i + 1).outcome.Done?
    ensures reply.frames[i..] == [reply.frames[i]] + reply.frames[i + 1..]
  {
  }

  lemma {:induction false} DrainSendsNothing(reply: DecoderReply, i: nat)
    requires i <= |reply.frames|
    ensures Sends(DrainFrom(reply, i).trace) == [] && Count(DrainFrom(reply, i).trace, IsDot) == 0
    decreases |reply.frames| - i
  {
    if i < |reply.frames| {
      var w := PlayFrame(reply.frames[i]);
      PlayFrameEvents(reply.frames[i]);
      if w.outcome.Done? {
        DrainStep(reply, i);
        DrainSendsNothing(reply, i + 1);
        SendsAppend(w.trace, DrainFrom(reply, i + 1).trace);
        CountAppend(w.trace, DrainFrom(reply, i + 1).trace, IsDot);
      }
    }
  }

  lemma {:induction false} DrainRecoversOncePerFailedWrite(reply: DecoderReply, i: nat)
    requires i <= |reply.frames|
    ensures Count(DrainFrom(reply, i).trace, IsRecover) == Count(DrainFrom(reply, i).trace, IsFailedWrite)
    decreases |reply.frames| - i
  {
    if i < |reply.frames| {
      var w := PlayFrame(reply.frames[i]);
      PlayFrameEvents(reply.frames[i]);
      if w.outcome.Done? {
        DrainStep(reply, i);
        DrainRecoversOncePerFailedWrite(reply, i + 1);
        CountAppend(w.trace, DrainFrom(reply, i + 1).trace, IsRecover);
        CountAppend(w.trace, DrainFrom(reply, i + 1).trace, IsFailedWrite);
      }
    }
  }

  lemma {:induction false} DrainWritesEachFrameOnce(reply: DecoderReply, i: nat)
    requires i <= |reply.frames|
    ensures DrainFrom(reply, i).outcome.Done? ==>
      && Count(DrainFrom(reply, i).trace, IsConvert) == |reply.frames| - i
      && Count(DrainFrom(reply, i).trace, IsRecover) == Count(reply.frames[i..], WriteFailed)
      && Count(DrainFrom(reply, i).trace, IsShortWrite) == Count(reply.frames[i..], ShortWritten)
    decreases |reply.frames| - i
  {
    if i < |reply.frames| {
      var f := reply.frames[i];
      var w := PlayFrame(f);
      PlayFrameOutcome(f);
      if w.outcome.Done? {
        PlayFrameEvents(f);
        PlayFrameCompletedEvents(f);
        DrainStep(reply, i);
        DrainWritesEachFrameOnce(reply, i + 1);
        var rest := DrainFrom(reply, i + 1).trace;
        CountAppend(w.trace, rest, IsConvert);
        CountAppend(w.trace, rest, IsRecover);
        CountAppend(w.trace, rest, IsShortWrite);
      }
    }
  }

  lemma {:induction false} DrainWritesEveryFrame(reply: DecoderReply, i: nat)
    requires i <= |reply.frames|
    ensures DrainFrom(reply, i).outcome.Done? ==> Writes(DrainFrom(reply, i).trace) == FrameWrites(reply.frames[i..])
    decreases |reply.frames| - i
  {
    if i < |reply.frames| {
      var f := reply.frames[i];
      var w := PlayFrame(f);
      PlayFrameOutcome(f);
      if w.outcome.Done? {
        PlayFrameWrites(f);
        DrainStep(reply, i);
        DrainWritesEveryFrame(reply, i + 1);
        WritesAppend(w.trace, DrainFrom(reply, i + 1).trace);
        assert FrameWrites(reply.frames[i..])[1..] == FrameWrites(reply.frames[i + 1..]);
      }
    } else {
      assert reply.frames[i..] == [];
    }
  }

  /** decode returns normally exactly when the send succeeds, no frame's conversion
      or write (after its one recovery) fails, and the decoder ends the pulls with
      EAGAIN or EOF; every other negative code ends the process. */
  lemma DecodeCompletesExactly(packet: Option<Packet>, call: CallOracle)
    ensures DecodeSpec(packet, call).outcome.Done? <==>
      && call.sendRet >= 0
      && NormalStop(call.reply.stop)
      && forall k :: 0 <= k < |call.reply.frames| ==> !FrameFails(call.reply.frames[k])
  {
    DrainOutcome(call.reply, 0);
  }

  /** The value decode returns is the sum of nb_samples over all frames received,
      whatever the device actually accepted of each. */
  lemma DecodeReturnsRequestedSamples(packet: Option<Packet>, call: CallOracle)
    ensures DecodeSpec(packet, call).outcome.Done? ==>
      DecodeSpec(packet, call).outcome.value == TotalSamples(call.reply.frames)
  {
    DrainOutcome(call.reply, 0);
    assert call.reply.frames[0..] == call.reply.frames;
  }

  /** Why decode ends the process: a failed send; or, all frames fine, a receive code
      other than EAGAIN and EOF; or the first failing frame, whose conversion failed or
      whose write failed and then whose recovery failed as well. The code is negative. */
  lemma DecodeAbortCauses(packet: Option<Packet>, call: CallOracle)
    ensures DecodeSpec(packet, call).outcome.Aborted? ==>
      var e := DecodeSpec(packet, call).outcome.fatal;
      var frames := call.reply.frames;
      && e.code < 0
      && (|| (e == Fatal(AvcodecSendPacket, call.sendRet))
          || (call.sendRet >= 0 && e == Fatal(AvcodecReceiveFrame, call.reply.stop) && !NormalStop(call.reply.stop)
              && forall k :: 0 <= k < |frames| ==> !FrameFails(frames[k]))
          || (call.sendRet >= 0
              && exists k :: 0 <= k < |frames| && (forall j :: 0 <= j < k ==> !FrameFails(frames[j]))
                             && ((frames[k].convertRet < 0 && e == Fatal(SwrConvert, frames[k].convertRet))
                                 || (frames[k].convertRet >= 0 && frames[k].writeRet < 0 && frames[k].recoverRet < 0
                                     && e == Fatal(SndPcmWritei, frames[k].recoverRet)))))
  {
    DrainOutcome(call.reply, 0);
  }

  /** Each negative snd_pcm_writei result is followed by exactly one snd_pcm_recover
      call, and no recovery happens otherwise, whatever the outcome. */
  lemma DecodeRecoversOncePerFailedWrite(packet: Option<Packet>, call: CallOracle)
    ensures Count(DecodeSpec(packet, call).trace, IsRecover) == Count(DecodeSpec(packet, call).trace, IsFailedWrite)
  {
    var t := DecodeSpec(packet, call).trace;
    if call.sendRet >= 0 {
      DrainRecoversOncePerFailedWrite(call.reply, 0);
      CountAppend([SendPacket(packet)], DrainFrom(call.reply, 0).trace, IsRecover);
      CountAppend([SendPacket(packet)], DrainFrom(call.reply, 0).trace, IsFailedWrite);
    }
  }

  /** On a normal return every received frame was converted once and written once (a
      short write is never resubmitted), with one recovery per failed write and one
      warning per short write. */
  lemma DecodeWritesEachFrameOnce(packet: Option<Packet>, call: CallOracle)
    ensures DecodeSpec(packet, call).outcome.Done? ==>
      var t := DecodeSpec(packet, call).trace;
      && Count(t, IsWrite) == |call.reply.frames|
      && Count(t, IsConvert) == |call.reply.frames|
      && Count(t, IsRecover) == Count(call.reply.frames, WriteFailed)
      && Count(t, IsShortWrite) == Count(call.reply.frames, ShortWritten)
  {
    if call.sendRet >= 0 {
      DrainWritesEachFrameOnce(call.reply, 0);
      DrainWritesEveryFrame(call.reply, 0);
      var d := DrainFrom(call.reply, 0).trace;
      CountAppend([SendPacket(packet)], d, IsWrite);
      CountAppend([SendPacket(packet)], d, IsConvert);
      CountAppend([SendPacket(packet)], d, IsRecover);
      CountAppend([SendPacket(packet)], d, IsShortWrite);
      assert call.reply.frames[0..] == call.reply.frames;
    }
  }

  /** On a normal return the device was asked, in order, for one write per received frame,
      each for all of the frame's samples, so for exactly the samples the frames hold. */
  lemma DecodeWritesEveryFrame(packet: Option<Packet>, call: CallOracle)
    ensures DecodeSpec(packet, call).outcome.Done? ==>
      var t := DecodeSpec(packet, call).trace;
      && Writes(t) == FrameWrites(call.reply.frames)
      && Requested(Writes(t)) == TotalSamples(call.reply.frames)
  {
    if call.sendRet >= 0 {
      DrainWritesEveryFrame(call.reply, 0);
      WritesAppend([SendPacket(packet)], DrainFrom(call.reply, 0).trace);
      assert Writes([SendPacket(packet)]) == [];
      assert call.reply.frames[0..] == call.reply.frames;
      FrameWritesRequestAllSamples(call.reply.frames);
    }
  }

  /** decode hands the decoder its one packet (or the end-of-stream marker) and nothing
      else, and prints no progress mark. */
  lemma DecodeSendsItsPacketOnly(packet: Option<Packet>, call: CallOracle)
    ensures Sends(DecodeSpec(packet, call).trace) == [packet]
    ensures Count(DecodeSpec(packet, call).trace, IsDot) == 0
  {
    if call.sendRet >= 0 {
      DrainSendsNothing(call.reply, 0);
      SendsAppend([SendPacket(packet)], DrainFrom(call.reply, 0).trace);
      CountAppend([SendPacket(packet)], DrainFrom(call.reply, 0).trace, IsDot);
    }
  }
}
