/** Playback of one file, `play` (main.c:146-270): set up the decoder, the
    device and the converter, feed the decoder every packet of the selected
    stream in container order, keep the one-second progress counter, and flush
    the decoder once with the end-of-stream marker. */
module Playback {

  import opened Wrappers
  import opened SampleFormats
  import opened Pipeline
  import opened Decoding

  /** The target latency handed to snd_pcm_set_params, in microseconds (main.c:201). */
  const LatencyUs: int := 500000

  /** The stream av_find_best_stream chose, with the codec parameters play reads from it. */
  datatype StreamInfo = StreamInfo(index: nat, sampleFormat: AvSampleFormat, sampleRate: int, channels: int)

  /** Return codes of the guarded setup calls: avcodec_parameters_to_context,
      avcodec_open2, snd_pcm_open, snd_pcm_set_params and swr_init. */
  datatype SetupOracle = SetupOracle(paramsRet: int, codecOpenRet: int, pcmOpenRet: int, setParamsRet: int, swrInitRet: int)

  /** The setup of main.c:169-221: the device format on success, the fatal exit otherwise. */
  function SetUpSpec(stream: StreamInfo, host: Endianness, setup: SetupOracle): Run<SndPcmFormat> {
    var packed := AvGetPackedSampleFmt(stream.sampleFormat);
    if setup.paramsRet < 0 then Run(Aborted(Fatal(AvcodecParametersToContext, setup.paramsRet)), [])
    else if setup.codecOpenRet < 0 then Run(Aborted(Fatal(AvcodecOpen2, setup.codecOpenRet)), [])
    else match Lookup(packed, host)
      case None => Run(Aborted(Fatal(SndFormatLookup, -1)), [])
      case Some(format) =>
        if setup.pcmOpenRet < 0 then Run(Aborted(Fatal(SndPcmOpen, setup.pcmOpenRet)), [])
        else
          var device := [ConfigureDevice(format, stream.channels, stream.sampleRate, LatencyUs)];
          if setup.setParamsRet < 0 then Run(Aborted(Fatal(SndPcmSetParams, setup.setParamsRet)), device)
          else
            var converter := device + [ConfigureConverter(stream.sampleFormat, packed, stream.sampleRate)];
            if setup.swrInitRet < 0 then Run(Aborted(Fatal(SwrInit, setup.swrInitRet)), converter)
            else Run(Done(format), converter)
  }

  /** The progress counter after one decoded packet, and the dot printed, if any. */
  datatype Tick = Tick(counter: int, dots: seq<Event>)

  /** main.c:248-252: add what decode returned; past one second's worth of samples,
      take off exactly one second's worth and print one dot. */
  function Progress(counter: int, ret: int, rate: int): (t: Tick)
    ensures t.counter + rate * |t.dots| == counter + ret
    ensures |t.dots| == (if counter + ret > rate then 1 else 0)
    ensures forall k :: 0 <= k < |t.dots| ==> t.dots[k] == ProgressDot
  {
    if counter + ret > rate then Tick(counter + ret - rate, [ProgressDot]) else Tick(counter + ret, [])
  }

  /** Where the packet loop stands: the progress counter and how many decode calls it made. */
  datatype LoopState = LoopState(counter: int, calls: nat)

  /** The packet loop of main.c:242-256 over the packets still in the container;
      `calls(n)` is what the libraries answer during the n-th decode call. */
  function ReadLoop(packets: seq<Packet>, index: nat, rate: int, calls: nat -> CallOracle,
                    callNo: nat, counter: int): Run<LoopState>
    decreases |packets|
  {
    if packets == [] then Run(Done(LoopState(counter, callNo)), [])
    else if packets[0].streamIndex != index then ReadLoop(packets[1..], index, rate, calls, callNo, counter)
    else
      var d := DecodeSpec(Some(packets[0]), calls(callNo));
      if d.outcome.Aborted? then Run(Aborted(d.outcome.fatal), d.trace)
      else
        var tick := Progress(counter, d.outcome.value, rate);
        var rest := ReadLoop(packets[1..], index, rate, calls, callNo + 1, tick.counter);
        After(d.trace + tick.dots, rest)
  }

  /** What follows the packet loop (main.c:258-269): one decode with the NULL packet
      unless the loop ended the process. The flush's return value is discarded; the
      value reported is the progress counter's final value (play itself returns 0). */
  function AfterLoop(prefix: seq<Event>, loop: Run<LoopState>, calls: nat -> CallOracle): Run<int> {
    if loop.outcome.Aborted? then Run(Aborted(loop.outcome.fatal), prefix + loop.trace)
    else
      var flush := DecodeSpec(None, calls(loop.outcome.value.calls));
      Run(if flush.outcome.Aborted? then Aborted(flush.outcome.fatal) else Done(loop.outcome.value.counter),
          prefix + loop.trace + flush.trace)
  }

  /** One call of play, from stream selection on. */
  function PlaySpec(stream: StreamInfo, host: Endianness, setup: SetupOracle, packets: seq<Packet>,
                    calls: nat -> CallOracle): Run<int>
  {
    var s := SetUpSpec(stream, host, setup);
    if s.outcome.Aborted? then Run(Aborted(s.outcome.fatal), s.trace)
    else AfterLoop(s.trace, ReadLoop(packets, stream.index, stream.sampleRate, calls, 0, 0), calls)
  }

  /** The guarded setup calls of play, in source order. */
  method SetUp(stream: StreamInfo, host: Endianness, setup: SetupOracle)
    returns (outcome: Outcome<SndPcmFormat>, trace: seq<Event>)
    ensures Run(outcome, trace) == SetUpSpec(stream, host, setup)
  {
    trace := [];
    var guard := ExitOnError(AvcodecParametersToContext, setup.paramsRet);
    if guard.Aborted? {
      return Aborted(guard.fatal), trace;
    }
    guard := ExitOnError(AvcodecOpen2, setup.codecOpenRet);
    if guard.Aborted? {
      return Aborted(guard.fatal), trace;
    }
    var avFormat := AvGetPackedSampleFmt(stream.sampleFormat);
    // snd_format is uninitialised in main.c; any prior value will do, since a failed lookup exits.
    var ret, sndFormat := GetSndFormatFromAvFormat(avFormat, host, SndU8);
    guard := ExitOnError(SndFormatLookup, ret);
    if guard.Aborted? {
      return Aborted(guard.fatal), trace;
    }
    guard := ExitOnError(SndPcmOpen, setup.pcmOpenRet);
    if guard.Aborted? {
      return Aborted(guard.fatal), trace;
    }
    trace := trace + [ConfigureDevice(sndFormat, stream.channels, stream.sampleRate, LatencyUs)];
    guard := ExitOnError(SndPcmSetParams, setup.setParamsRet);
    if guard.Aborted? {
      return Aborted(guard.fatal), trace;
    }
    trace := trace + [ConfigureConverter(stream.sampleFormat, avFormat, stream.sampleRate)];
    guard := ExitOnError(SwrInit, setup.swrInitRet);
    if guard.Aborted? {
      return Aborted(guard.fatal), trace;
    }
    outcome := Done(sndFormat);
  }

  /** One step of the packet loop: a packet of another stream is skipped; a selected
      one is decoded and, unless that ends the process, counted. */
  lemma ReadLoopUnfold(packets: seq<Packet>, index: nat, rate: int, calls: nat -> CallOracle, callNo: nat, counter: int)
    requires packets != []
    ensures packets[0].streamIndex != index ==>
      ReadLoop(packets, index, rate, calls, callNo, counter) == ReadLoop(packets[1..], index, rate, calls, callNo, counter)
    ensures packets[0].streamIndex == index ==>
      var d := DecodeSpec(Some(packets[0]), calls(callNo));
      && (d.outcome.Aborted? ==> ReadLoop(packets, index, rate, calls, callNo, counter) == Run(Aborted(d.outcome.fatal), d.trace))
      && (d.outcome.Done? ==>
            var tick := Progress(counter, d.outcome.value, rate);
            var rest := ReadLoop(packets[1..], index, rate, calls, callNo + 1, tick.counter);
            ReadLoop(packets, index, rate, calls, callNo, counter) == After(d.trace + tick.dots, rest))
  {
  }

  /** Events `t` followed by run `r`. */
  function After<T>(t: seq<Event>, r: Run<T>): Run<T> {
    Run(r.outcome, t + r.trace)
  }

  lemma AfterAfter<T>(t: seq<Event>, u: seq<Event>, r: Run<T>)
    ensures After(t, After(u, r)) == After(t + u, r)
  {
    assert t + (u + r.trace) == t + u + r.trace;
  }

  /** The packet loop of play (main.c:238-256), step by step. */
  method ReadPackets(packets: seq<Packet>, index: nat, rate: int, calls: nat -> CallOracle)
    returns (outcome: Outcome<LoopState>, trace: seq<Event>)
    ensures Run(outcome, trace) == ReadLoop(packets, index, rate, calls, 0, 0)
  {
    trace := [];
    var readSamples := 0;
    var callNo := 0;
    var j := 0;
    while j < |packets|
      invariant 0 <= j <= |packets|
      invariant After(trace, ReadLoop(packets[j..], index, rate, calls, callNo, readSamples))
                == ReadLoop(packets, index, rate, calls, 0, 0)
    {
      var packet := packets[j];
      ReadLoopUnfold(packets[j..], index, rate, calls, callNo, readSamples);
      assert packets[j..][1..] == packets[j + 1..];
      j := j + 1;
      if packet.streamIndex != index {
        continue;
      }
      var decoded, events := Decode(Some(packet), calls(callNo));
      ghost var before := trace;
      trace := trace + events;
      if decoded.Aborted? {
        return Aborted(decoded.fatal), trace;
      }
      ghost var tick := Progress(readSamples, decoded.value, rate);
      ghost var rest := ReadLoop(packets[j..], index, rate, calls, callNo + 1, tick.counter);
      callNo := callNo + 1;
      readSamples := readSamples + decoded.value;
      if readSamples > rate {
        readSamples := readSamples - rate;
        trace := trace + [ProgressDot];
      }
      assert trace == before + (events + tick.dots);
      AfterAfter(before, events + tick.dots, rest);
    }
    assert packets[j..] == [];
    outcome := Done(LoopState(readSamples, callNo));
  }

  /** play, step by step as main.c writes it. */
  method Play(stream: StreamInfo, host: Endianness, setup: SetupOracle, packets: seq<Packet>,
              calls: nat -> CallOracle)
    returns (outcome: Outcome<int>, trace: seq<Event>)
    ensures Run(outcome, trace) == PlaySpec(stream, host, setup, packets, calls)
  {
    var configured;
    configured, trace := SetUp(stream, host, setup);
    if configured.Aborted? {
      return Aborted(configured.fatal), trace;
    }
    var looped, events := ReadPackets(packets, stream.index, stream.sampleRate, calls);
    trace := trace + events;
    if looped.Aborted? {
      return Aborted(looped.fatal), trace;
    }
    var flushed;
    flushed, events := Decode(None, calls(looped.value.calls));
    trace := trace + events;
    if flushed.Aborted? {
      return Aborted(flushed.fatal), trace;
    }
    outcome := Done(looped.value.counter);
  }

  /** The packets of the container that belong to stream `index`, in container order. */
  function Selected(packets: seq<Packet>, index: int): (r: seq<Packet>)
    ensures |r| <= |packets|
    ensures forall k :: 0 <= k < |r| ==> r[k].streamIndex == index
    ensures forall p :: p in r <==> p in packets && p.streamIndex == index
  {
    if packets == [] then []
    else (if packets[0].streamIndex == index then [packets[0]] else []) + Selected(packets[1..], index)
  }

  /** Selection keeps container order: the selected packets of two stretches of the
      container are those of the first followed by those of the second. */
  lemma {:induction false} SelectedAppend(a: seq<Packet>, b: seq<Packet>, index: int)
    ensures Selected(a + b, index) == Selected(a, index) + Selected(b, index)
  {
    if a != [] {
      assert (a + b)[1..] == a[1..] + b;
      SelectedAppend(a[1..], b, index);
    } else {
      assert a + b == b;
    }
  }

  /** Packets as decoder inputs (never the NULL end-of-stream marker). */
  function AsInputs(packets: seq<Packet>): (r: seq<Option<Packet>>)
    ensures |r| == |packets| && forall k :: 0 <= k < |packets| ==> r[k] == Some(packets[k])
  {
    seq(|packets|, k requires 0 <= k < |packets| => Some(packets[k]))
  }

  /** What decode calls number `from` up to `to` (exclusive) return: the sample counts of their frames. */
  function FedSamples(calls: nat -> CallOracle, from: nat, to: nat): int
    decreases to - from
  {
    if to <= from then 0 else TotalSamples(calls(from).reply.frames) + FedSamples(calls, from + 1, to)
  }

  /** The device writes of decode calls number `from` up to `to` (exclusive), as their frames ask for them. */
  function CallWrites(calls: nat -> CallOracle, from: nat, to: nat): seq<Event>
    decreases to - from
  {
    if to <= from then [] else FrameWrites(calls(from).reply.frames) + CallWrites(calls, from + 1, to)
  }

  lemma {:induction false} CallWritesExtend(calls: nat -> CallOracle, from: nat, until: nat)
    requires from <= until
    ensures CallWrites(calls, from, until + 1) == CallWrites(calls, from, until) + FrameWrites(calls(until).reply.frames)
    decreases until - from
  {
    if from < until {
      CallWritesExtend(calls, from + 1, until);
    }
  }

  /** The writes of a run of decode calls ask for all the samples those calls decoded. */
  lemma {:induction false} CallWritesRequestFedSamples(calls: nat -> CallOracle, from: nat, until: nat)
    ensures Requested(CallWrites(calls, from, until)) == FedSamples(calls, from, until)
    decreases until - from
  {
    if from < until {
      CallWritesRequestFedSamples(calls, from + 1, until);
      RequestedAppend(FrameWrites(calls(from).reply.frames), CallWrites(calls, from + 1, until));
      FrameWritesRequestAllSamples(calls(from).reply.frames);
    }
  }

  lemma TickEvents(t: Tick)
    requires t.dots == [] || t.dots == [ProgressDot]
    ensures Sends(t.dots) == [] && Writes(t.dots) == [] && Count(t.dots, IsDot) == |t.dots|
  {
    CountUnit(t.dots, IsDot);
    SendsUnit(t.dots);
    WritesUnit(t.dots);
  }

  /** The selected packets of a non-empty container: its head, if selected, then those of the rest. */
  lemma SelectedStep(packets: seq<Packet>, index: int)
    requires packets != []
    ensures packets[0].streamIndex != index ==> Selected(packets, index) == Selected(packets[1..], index)
    ensures packets[0].streamIndex == index ==>
      AsInputs(Selected(packets, index)) == [Some(packets[0])] + AsInputs(Selected(packets[1..], index))
  {
  }

  lemma {:induction false} ReadLoopFeeds(packets: seq<Packet>, index: nat, rate: int, calls: nat -> CallOracle,
                                         callNo: nat, counter: int)
    ensures Sends(ReadLoop(packets, index, rate, calls, callNo, counter).trace) <= AsInputs(Selected(packets, index))
    ensures ReadLoop(packets, index, rate, calls, callNo, counter).outcome.Done? ==>
      && Sends(ReadLoop(packets, index, rate, calls, callNo, counter).trace) == AsInputs(Selected(packets, index))
      && ReadLoop(packets, index, rate, calls, callNo, counter).outcome.value.calls == callNo + |Selected(packets, index)|
    decreases |packets|
  {
    if packets != [] {
      ReadLoopUnfold(packets, index, rate, calls, callNo, counter);
      SelectedStep(packets, index);
      if packets[0].streamIndex != index {
        ReadLoopFeeds(packets[1..], index, rate, calls, callNo, counter);
      } else {
        var d := DecodeSpec(Some(packets[0]), calls(callNo));
        DecodeSendsItsPacketOnly(Some(packets[0]), calls(callNo));
        if d.outcome.Done? {
          var tick := Progress(counter, d.outcome.value, rate);
          var rest := ReadLoop(packets[1..], index, rate, calls, callNo + 1, tick.counter);
          ReadLoopFeeds(packets[1..], index, rate, calls, callNo + 1, tick.counter);
          TickEvents(tick);
          SendsAppend(d.trace, tick.dots);
          SendsAppend(d.trace + tick.dots, rest.trace);
          assert Sends(ReadLoop(packets, index, rate, calls, callNo, counter).trace) == [Some(packets[0])] + Sends(rest.trace);
        }
      }
    }
  }

  /** Two progress steps compose: what one sample rate per dot accounts for adds up. */
  lemma AccountingStep(rate: int, c0: int, c1: int, c2: int, dots: int, moreDots: int, samples: int, moreSamples: int)
    requires c1 + rate * dots == c0 + samples
    requires c2 + rate * moreDots == c1 + moreSamples
    ensures c2 + rate * (dots + moreDots) == c0 + (samples + moreSamples)
  {
    assert rate * (dots + moreDots) == rate * dots + rate * moreDots;
  }

  lemma {:induction false} ReadLoopProgress(packets: seq<Packet>, index: nat, rate: int, calls: nat -> CallOracle,
                                            callNo: nat, counter: int)
    ensures ReadLoop(packets, index, rate, calls, callNo, counter).outcome.Done? ==>
      var r := ReadLoop(packets, index, rate, calls, callNo, counter);
      && r.outcome.value.calls >= callNo
      && r.outcome.value.counter + rate * Count(r.trace, IsDot) == counter + FedSamples(calls, callNo, r.outcome.value.calls)
      && Count(r.trace, IsDot) <= r.outcome.value.calls - callNo
    decreases |packets|
  {
    if packets != [] {
      ReadLoopUnfold(packets, index, rate, calls, callNo, counter);
      if packets[0].streamIndex != index {
        ReadLoopProgress(packets[1..], index, rate, calls, callNo, counter);
      } else {
        var d := DecodeSpec(Some(packets[0]), calls(callNo));
        if d.outcome.Done? {
          var tick := Progress(counter, d.outcome.value, rate);
          var rest := ReadLoop(packets[1..], index, rate, calls, callNo + 1, tick.counter);
          if rest.outcome.Done? {
            ReadLoopProgress(packets[1..], index, rate, calls, callNo + 1, tick.counter);
            ProgressStep(Some(packets[0]), calls, callNo, counter, rate, rest);
            var final := rest.outcome.value;
            AccountingStep(rate, counter, tick.counter, final.counter, |tick.dots|, Count(rest.trace, IsDot),
                           d.outcome.value, FedSamples(calls, callNo + 1, final.calls));
          }
        }
      }
    }
  }

  /** What one decoded packet contributes to the accounting: only its tick's dot, and
      its frames' samples ahead of the later calls'. */
  lemma ProgressStep(packet: Option<Packet>, calls: nat -> CallOracle, callNo: nat, counter: int, rate: int,
                     rest: Run<LoopState>)
    requires DecodeSpec(packet, calls(callNo)).outcome.Done?
    requires rest.outcome.Done? && rest.outcome.value.calls > callNo
    ensures var d := DecodeSpec(packet, calls(callNo));
      var tick := Progress(counter, d.outcome.value, rate);
      && Count(d.trace + tick.dots + rest.trace, IsDot) == |tick.dots| + Count(rest.trace, IsDot)
      && FedSamples(calls, callNo, rest.outcome.value.calls)
         == d.outcome.value + FedSamples(calls, callNo + 1, rest.outcome.value.calls)
  {
    var d := DecodeSpec(packet, calls(callNo));
    var tick := Progress(counter, d.outcome.value, rate);
    DecodeSendsItsPacketOnly(packet, calls(callNo));
    DecodeReturnsRequestedSamples(packet, calls(callNo));
    TickEvents(tick);
    CountAppend(d.trace, tick.dots, IsDot);
    CountAppend(d.trace + tick.dots, rest.trace, IsDot);
  }

  /** What one decoded packet contributes to the device writes: its frames' writes, ahead
      of those of the later calls. */
  lemma WritesStep(calls: nat -> CallOracle, callNo: nat, until: nat,
                   decoded: seq<Event>, dots: seq<Event>, rest: seq<Event>)
    requires callNo < until
    requires Writes(decoded) == FrameWrites(calls(callNo).reply.frames)
    requires dots == [] || dots == [ProgressDot]
    requires Writes(rest) == CallWrites(calls, callNo + 1, until)
    ensures Writes(decoded + dots + rest) == CallWrites(calls, callNo, until)
  {
    WritesUnit(dots);
    WritesAppend(decoded, dots);
    WritesAppend(decoded + dots, rest);
    assert Writes(decoded) + Writes(dots) == Writes(decoded);
  }

  /** On a normal end of the packet loop, the device was asked, in order, for the writes
      of every frame of every decode call the loop made. */
  lemma {:induction false} ReadLoopWrites(packets: seq<Packet>, index: nat, rate: int, calls: nat -> CallOracle,
                                          callNo: nat, counter: int)
    ensures ReadLoop(packets, index, rate, calls, callNo, counter).outcome.Done? ==>
      var r := ReadLoop(packets, index, rate, calls, callNo, counter);
      Writes(r.trace) == CallWrites(calls, callNo, r.outcome.value.calls)
    decreases |packets|
  {
    if packets != [] {
      ReadLoopUnfold(packets, index, rate, calls, callNo, counter);
      if packets[0].streamIndex != index {
        ReadLoopWrites(packets[1..], index, rate, calls, callNo, counter);
      } else {
        var d := DecodeSpec(Some(packets[0]), calls(callNo));
        if d.outcome.Done? {
          var tick := Progress(counter, d.outcome.value, rate);
          var rest := ReadLoop(packets[1..], index, rate, calls, callNo + 1, tick.counter);
          if rest.outcome.Done? {
            ReadLoopProgress(packets[1..], index, rate, calls, callNo + 1, tick.counter);
            ReadLoopWrites(packets[1..], index, rate, calls, callNo + 1, tick.counter);
            DecodeWritesEveryFrame(Some(packets[0]), calls(callNo));
            WritesStep(calls, callNo, rest.outcome.value.calls, d.trace, tick.dots, rest.trace);
          }
        }
      }
    }
  }

  lemma {:induction false} ReadLoopAbortsOnNegativeCode(packets: seq<Packet>, index: nat, rate: int,
                                                        calls: nat -> CallOracle, callNo: nat, counter: int)
    ensures ReadLoop(packets, index, rate, calls, callNo, counter).outcome.Aborted? ==>
      ReadLoop(packets, index, rate, calls, callNo, counter).outcome.fatal.code < 0
    decreases |packets|
  {
    if packets != [] {
      if packets[0].streamIndex != index {
        ReadLoopAbortsOnNegativeCode(packets[1..], index, rate, calls, callNo, counter);
      } else {
        var d := DecodeSpec(Some(packets[0]), calls(callNo));
        DecodeAbortCauses(Some(packets[0]), calls(callNo));
        if d.outcome.Done? {
          var tick := Progress(counter, d.outcome.value, rate);
          ReadLoopAbortsOnNegativeCode(packets[1..], index, rate, calls, callNo + 1, tick.counter);
        }
      }
    }
  }

  /** Setup gets past its guards exactly when every guarded call succeeds and the packed
      codec format is one of the five the table knows; the device is then configured,
      once, with the matching ALSA format, the stream's channel count
      and rate and the 500 ms latency, and the converter from the codec format to its
      packed form at the same rate. */
  lemma SetUpSucceedsExactly(stream: StreamInfo, host: Endianness, setup: SetupOracle)
    ensures var r := SetUpSpec(stream, host, setup);
      var packed := AvGetPackedSampleFmt(stream.sampleFormat);
      && (r.outcome.Done? <==>
          && setup.paramsRet >= 0 && setup.codecOpenRet >= 0 && Supported(packed)
          && setup.pcmOpenRet >= 0 && setup.setParamsRet >= 0 && setup.swrInitRet >= 0)
      && (r.outcome.Done? ==>
          && Matches(packed, r.outcome.value, host)
          && r.trace == [ConfigureDevice(r.outcome.value, stream.channels, stream.sampleRate, LatencyUs),
                         ConfigureConverter(stream.sampleFormat, packed, stream.sampleRate)])
      && (r.outcome.Aborted? ==> r.outcome.fatal.code < 0)
  {
    var packed := AvGetPackedSampleFmt(stream.sampleFormat);
    LookupDefinedExactlyOnSupported(packed, host);
    match Lookup(packed, host)
    case Some(format) =>
      LookupIsMatchingDeviceFormat(packed, host, format);
    case None =>
  }

  lemma SetUpEvents(stream: StreamInfo, host: Endianness, setup: SetupOracle)
    ensures Sends(SetUpSpec(stream, host, setup).trace) == []
    ensures Writes(SetUpSpec(stream, host, setup).trace) == []
    ensures Count(SetUpSpec(stream, host, setup).trace, IsDot) == 0
  {
    ConfigurationOnly(SetUpSpec(stream, host, setup).trace);
  }

  /** The decoder is fed exactly the packets of the selected stream, in container order,
      and then the end-of-stream marker once; if the process exits on the way, it has
      been fed a prefix of that. */
  lemma PlayFeedsSelectedPacketsThenFlushes(stream: StreamInfo, host: Endianness, setup: SetupOracle,
                                            packets: seq<Packet>, calls: nat -> CallOracle)
    ensures var r := PlaySpec(stream, host, setup, packets, calls);
      var fed := AsInputs(Selected(packets, stream.index)) + [None];
      && Sends(r.trace) <= fed
      && (r.outcome.Done? ==> Sends(r.trace) == fed)
  {
    var s := SetUpSpec(stream, host, setup);
    SetUpEvents(stream, host, setup);
    if s.outcome.Done? {
      var loop := ReadLoop(packets, stream.index, stream.sampleRate, calls, 0, 0);
      ReadLoopFeeds(packets, stream.index, stream.sampleRate, calls, 0, 0);
      SendsAppend(s.trace, loop.trace);
      if loop.outcome.Done? {
        var flush := DecodeSpec(None, calls(loop.outcome.value.calls));
        DecodeSendsItsPacketOnly(None, calls(loop.outcome.value.calls));
        SendsAppend(s.trace + loop.trace, flush.trace);
      }
    }
  }

  /** Progress accounting: on a normal end, the counter plus one sample rate per dot
      printed equals all samples the selected packets decoded to (the flush is not
      counted), and at most one dot was printed per packet. */
  lemma PlayProgressAccounting(stream: StreamInfo, host: Endianness, setup: SetupOracle,
                               packets: seq<Packet>, calls: nat -> CallOracle)
    ensures var r := PlaySpec(stream, host, setup, packets, calls);
      var n := |Selected(packets, stream.index)|;
      r.outcome.Done? ==>
        && r.outcome.value + stream.sampleRate * Count(r.trace, IsDot) == FedSamples(calls, 0, n)
        && Count(r.trace, IsDot) <= n
  {
    var s := SetUpSpec(stream, host, setup);
    SetUpEvents(stream, host, setup);
    if s.outcome.Done? {
      var loop := ReadLoop(packets, stream.index, stream.sampleRate, calls, 0, 0);
      ReadLoopFeeds(packets, stream.index, stream.sampleRate, calls, 0, 0);
      ReadLoopProgress(packets, stream.index, stream.sampleRate, calls, 0, 0);
      if loop.outcome.Done? {
        var flush := DecodeSpec(None, calls(loop.outcome.value.calls));
        DecodeSendsItsPacketOnly(None, calls(loop.outcome.value.calls));
        CountAppend(s.trace, loop.trace, IsDot);
        CountAppend(s.trace + loop.trace, flush.trace, IsDot);
        assert PlaySpec(stream, host, setup, packets, calls).trace == s.trace + loop.trace + flush.trace;
        assert Count(PlaySpec(stream, host, setup, packets, calls).trace, IsDot) == Count(loop.trace, IsDot);
      }
    }
  }

  /** The writes of the loop's calls followed by the flush's are the writes of calls 0 to n. */
  lemma FlushWritesComplete(calls: nat -> CallOracle, n: nat, loopWrites: seq<Event>, flushWrites: seq<Event>)
    requires loopWrites == CallWrites(calls, 0, n)
    requires flushWrites == FrameWrites(calls(n).reply.frames)
    ensures loopWrites + flushWrites == CallWrites(calls, 0, n + 1)
    ensures Requested(loopWrites + flushWrites) == FedSamples(calls, 0, n + 1)
  {
    CallWritesExtend(calls, 0, n);
    CallWritesRequestFedSamples(calls, 0, n + 1);
  }

  /** A normal end of play is a normal setup, a normal packet loop and a normal flush, in that order. */
  lemma PlayParts(stream: StreamInfo, host: Endianness, setup: SetupOracle, packets: seq<Packet>,
                  calls: nat -> CallOracle)
    returns (s: Run<SndPcmFormat>, loop: Run<LoopState>, flush: Run<int>)
    requires PlaySpec(stream, host, setup, packets, calls).outcome.Done?
    ensures s == SetUpSpec(stream, host, setup) && s.outcome.Done?
    ensures loop == ReadLoop(packets, stream.index, stream.sampleRate, calls, 0, 0) && loop.outcome.Done?
    ensures flush == DecodeSpec(None, calls(loop.outcome.value.calls)) && flush.outcome.Done?
    ensures PlaySpec(stream, host, setup, packets, calls).trace == s.trace + loop.trace + flush.trace
  {
    s := SetUpSpec(stream, host, setup);
    loop := ReadLoop(packets, stream.index, stream.sampleRate, calls, 0, 0);
    flush := DecodeSpec(None, calls(loop.outcome.value.calls));
  }

  /** No frame is dropped and none is duplicated: on a normal end the device was asked, in
      order, for every frame of every decode call, the selected packets' and then the
      flush's (call number n), each in full, so for exactly the samples those calls decoded. */
  lemma PlayWritesEveryFrame(stream: StreamInfo, host: Endianness, setup: SetupOracle,
                             packets: seq<Packet>, calls: nat -> CallOracle)
    ensures var r := PlaySpec(stream, host, setup, packets, calls);
      var n := |Selected(packets, stream.index)|;
      r.outcome.Done? ==>
        && Writes(r.trace) == CallWrites(calls, 0, n + 1)
        && Requested(Writes(r.trace)) == FedSamples(calls, 0, n + 1)
  {
    if PlaySpec(stream, host, setup, packets, calls).outcome.Done? {
      var s, loop, flush := PlayParts(stream, host, setup, packets, calls);
      var n := loop.outcome.value.calls;
      SetUpEvents(stream, host, setup);
      ReadLoopFeeds(packets, stream.index, stream.sampleRate, calls, 0, 0);
      ReadLoopWrites(packets, stream.index, stream.sampleRate, calls, 0, 0);
      DecodeWritesEveryFrame(None, calls(n));
      WritesAppend(s.trace, loop.trace);
      WritesAppend(s.trace + loop.trace, flush.trace);
      assert Writes(s.trace) + Writes(loop.trace) == Writes(loop.trace);
      FlushWritesComplete(calls, n, Writes(loop.trace), Writes(flush.trace));
    }
  }

  /** play only ever ends the process on a negative code (the lookup's -1 included). */
  lemma PlayAbortsOnlyOnNegativeCodes(stream: StreamInfo, host: Endianness, setup: SetupOracle,
                                      packets: seq<Packet>, calls: nat -> CallOracle)
    ensures PlaySpec(stream, host, setup, packets, calls).outcome.Aborted? ==>
      PlaySpec(stream, host, setup, packets, calls).outcome.fatal.code < 0
  {
    SetUpSucceedsExactly(stream, host, setup);
    ReadLoopAbortsOnNegativeCode(packets, stream.index, stream.sampleRate, calls, 0, 0);
    var loop := ReadLoop(packets, stream.index, stream.sampleRate, calls, 0, 0);
    if loop.outcome.Done? {
      DecodeAbortCauses(None, calls(loop.outcome.value.calls));
    }
  }
}
