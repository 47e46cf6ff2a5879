# aud2 playback core, modelled in Dafny

aud2 is a minimal command-line audio player (`main.c`). For each file it opens
the container with FFmpeg, picks the best audio stream, opens the decoder, maps
the decoder's packed sample format to an ALSA PCM format, opens and configures
the ALSA device and an swresample converter, then plays the file. Playback
reads packets, skips those of other streams, and decodes each one. Decoding a
packet sends it to the decoder and pulls frames until the decoder answers
EAGAIN or EOF. Each frame is converted and written to the device. A failed
write gets one recovery attempt. A short write gets one warning. After the last
packet the decoder is flushed once with a NULL packet. A negative result
passed to the error helpers `enprintf`/`eaprintf`/`esprintf` ends the process.
Not every negative result reaches them:
- a negative `av_read_frame` result ends the packet loop normally;
- EAGAIN and EOF from `avcodec_receive_frame` only end the pulls;
- a negative `snd_pcm_writei` result is first given to `snd_pcm_recover`;
- the result of `av_samples_alloc_array_and_samples` is ignored.

This project models that core:

- `SampleFormats` (`sample_formats.dfy`): the five-row format table, the `AV_NE`
  byte-order choice, `av_get_packed_sample_fmt`, and the table scan as a method.
- `Pipeline` (`pipeline.dfy`): packets, the library answers as oracle values,
  the calls that can end the process (`Fatal`), the guard shared by
  `enprintf`/`eaprintf`/`esprintf`, and the trace of observable events.
- `Decoding` (`decode.dfy`): `decode` as an imperative method proved equal to
  the specification function `DecodeSpec`, with lemmas about `DecodeSpec`.
- `Playback` (`play.dfy`): the setup calls and the packet loop of `play` as
  methods proved equal to `SetUpSpec` and `PlaySpec`, with lemmas about them.
- `Scenarios` (`scenarios.dfy`): two concrete runs.

The libraries are oracles. One decode call is described by a `CallOracle`:
the `avcodec_send_packet` result and a `DecoderReply`. A reply is the frames
`avcodec_receive_frame` delivers, followed by the negative code that ends the
pulls. Each frame carries its `nb_samples` and the `swr_convert`,
`snd_pcm_writei` and `snd_pcm_recover` results. `play` gets a function from
call number to `CallOracle`. The container is a finite sequence of packets
tagged with their stream index. A fatal exit is `Aborted(Fatal(call, code))`.
What the program does on the way is a trace of `Event`s: packets sent, frames
converted, writes with their results, recoveries, short-write warnings,
progress dots, and device and converter configuration.

Three behaviours of the code that a reader might not expect, which the model
keeps:

- The progress counter adds each frame's requested `nb_samples` (main.c:135),
  not the number of samples the device accepted.
- The flush's return value is discarded (main.c:259). Samples from trailing
  frames are written but never counted.
- A successful recovery leaves the write result at the recovery's value (0 from
  ALSA). The frame still counts in full and nothing is resubmitted.

## Model

| member | source | states |
|---|---|---|
| `SampleFormats.AvGetPackedSampleFmt` | main.c:178 | the packed format has the input's sample representation and is not planar; a packed input is returned unchanged |
| `SampleFormats.FindEntry` | main.c:76-82 | a returned row is in the table and holds the requested format; no row is returned only when no row holds it |
| `SampleFormats.FindEntryFirst` | main.c:76-81 | the scan answers with the first row holding the format |
| `SampleFormats.LookupDefinedExactlyOnSupported` | main.c:67-84 | the lookup succeeds for U8, S16, S32, FLT and DBL and for no other format, on either host |
| `SampleFormats.LookupColumns` | main.c:67-79 | each row yields its `_BE` column on a big-endian host and its `_LE` column on a little-endian host |
| `SampleFormats.LookupU8` | main.c:68 | U8 maps to SND_PCM_FORMAT_U8 on both hosts |
| `SampleFormats.RowMatches` | main.c:67-79 | every row's `AV_NE` column has its FFmpeg format's representation and the host's byte order |
| `SampleFormats.MatchedFormatIsSupported` | main.c:67-73 | only the five table formats have a matching device format |
| `SampleFormats.LookupIsMatchingDeviceFormat` | main.c:63-84 | the lookup yields `s` exactly when the format is packed, `s` has the same bit width and integer/float encoding, and `s` is in host byte order or has none |
| `SampleFormats.GetSndFormatFromAvFormat` | main.c:58-85 | returns 0 or -1; 0 exactly for the five supported formats, with the matching device format written; on -1 the out-parameter keeps its prior value |
| `Pipeline.ExitOnError` | main.c:10-56 | the error helpers return with no effect when the code is not negative and end the process, reporting the call and code, when it is |
| `Decoding.Decode` | main.c:87-144 | the send/receive/convert/write/recover loop returns and traces exactly what `DecodeSpec` prescribes |
| `Decoding.WriteFrame` | main.c:117-136 | the convert/write/recover/warn steps for one frame return and trace exactly what `PlayFrame` prescribes |
| `Decoding.PlayFrameOutcome` | main.c:117-128 | one frame ends the process exactly when its conversion fails, or its write fails and the recovery fails too, with that call and code |
| `Decoding.PlayFrameEvents` | main.c:117-128 | one frame is converted once, sends nothing, prints no dot, is written once exactly when its conversion succeeded, and is recovered once per failed write |
| `Decoding.PlayFrameWrites` | main.c:118-125 | a converted frame's one write asks for all `nb_samples` of the frame; a frame whose conversion failed is not written |
| `Decoding.PlayFrameCompletedEvents` | main.c:123-132 | a frame that completes was recovered once exactly when its write failed and warned about once exactly when the device took part of it |
| `Decoding.DrainOutcome` | main.c:103-141 | the pull loop ends normally exactly on EAGAIN/EOF after fault-free frames, then returning their sample sum; otherwise the first failing frame or the stop code explains the exit |
| `Decoding.DrainSendsNothing` | main.c:103-141 | the pull loop feeds the decoder nothing and prints no progress dot |
| `Decoding.DrainRecoversOncePerFailedWrite` | main.c:103-141 | through the pull loop, recoveries and failed writes are equal in number, whatever the outcome |
| `Decoding.DrainWritesEachFrameOnce` | main.c:103-141 | on a normal end of the pull loop, each remaining frame was converted once, with one recovery per failed write and one warning per short write |
| `Decoding.DrainWritesEveryFrame` | main.c:103-141 | on a normal end of the pull loop, the writes are exactly one per remaining frame, in order, each for that frame's `nb_samples` |
| `Decoding.FrameWritesRequestAllSamples` | main.c:125-135 | writing each frame in full asks the device for the same samples the decode counter adds up |
| `Decoding.DecodeCompletesExactly` | main.c:100-128 | decode returns exactly when the send succeeds, no frame's conversion or post-recovery write fails, and the pulls end with EAGAIN or EOF |
| `Decoding.DecodeReturnsRequestedSamples` | main.c:96-143 | the value returned is the sum of `nb_samples` over all frames received, whatever the device wrote of each |
| `Decoding.DecodeAbortCauses` | main.c:100-128 | every exit carries a negative code, and comes from a failed send, a receive code other than EAGAIN/EOF, a failed conversion, or a failed write whose one recovery also failed |
| `Decoding.DecodeRecoversOncePerFailedWrite` | main.c:124-128 | there are exactly as many `snd_pcm_recover` calls as negative `snd_pcm_writei` results |
| `Decoding.DecodeWritesEachFrameOnce` | main.c:117-136 | on a normal return each frame was converted once and written once (short writes are not resubmitted), with one recovery per failed write and one warning per short write |
| `Decoding.DecodeWritesEveryFrame` | main.c:103-136 | on a normal return the device writes are, in order, one per received frame asking for its `nb_samples`, so they ask for exactly the samples decode returns |
| `Decoding.DecodeSendsItsPacketOnly` | main.c:100-101 | one decode call feeds the decoder its own packet (or the NULL marker) once and prints no progress dot |
| `Playback.Progress` | main.c:248-252 | the new counter plus one sample rate per dot equals the old counter plus the decoded samples; one dot exactly when the sum exceeds the sample rate |
| `Playback.Selected` | main.c:242-244 | a packet is kept exactly when it is in the container and belongs to the selected stream |
| `Playback.SelectedAppend` | main.c:242-244 | selection keeps container order: the selection of two stretches of packets is the selection of the first followed by that of the second |
| `Playback.SetUp` | main.c:169-221 | the guarded setup calls and the format lookup behave exactly as `SetUpSpec` prescribes |
| `Playback.ReadPackets` | main.c:238-256 | the packet loop, with its skip of other streams, its decode calls and its progress counter, returns and traces exactly what `ReadLoop` prescribes |
| `Playback.Play` | main.c:146-270 | setup, the packet loop and the final flush behave exactly as `PlaySpec` prescribes |
| `Playback.SetUpSucceedsExactly` | main.c:169-221 | setup succeeds exactly when every guarded call succeeds and the packed codec format is supported; the device then gets the matching format, the stream's channels and rate and 500 ms latency; every exit has a negative code |
| `Playback.ReadLoopFeeds` | main.c:242-256 | the packet loop feeds the decoder a prefix of the selected stream's packets in order, all of them on a normal end, one decode call each |
| `Playback.ReadLoopProgress` | main.c:246-252 | through the packet loop, counter plus one sample rate per dot equals the start value plus all decoded samples, with at most one dot per decoded packet |
| `Playback.ReadLoopWrites` | main.c:242-256 | on a normal end of the packet loop, the device writes are, in order, those of every frame of every decode call the loop made |
| `Playback.CallWritesRequestFedSamples` | main.c:135-143 | the writes of a run of decode calls ask for exactly the samples those calls returned |
| `Playback.ReadLoopAbortsOnNegativeCode` | main.c:242-256 | the packet loop ends the process only on a negative code |
| `Playback.PlayFeedsSelectedPacketsThenFlushes` | main.c:242-259 | the decoder sees exactly the selected stream's packets in container order and then one NULL packet; on an exit, a prefix of that |
| `Playback.PlayProgressAccounting` | main.c:238-252 | on a normal end, final counter plus one sample rate per dot equals all samples decoded from the selected packets, with at most one dot per packet |
| `Playback.PlayWritesEveryFrame` | main.c:242-259 | on a normal end no frame is dropped or duplicated: the writes are those of every frame of the selected packets' calls and then the flush's, each in full, totalling all samples those calls decoded |
| `Playback.PlayAbortsOnlyOnNegativeCodes` | main.c:169-259 | play ends the process only on a negative code, the lookup's -1 included |
| `Scenarios.CounterIsNotBoundedBySampleRate` | main.c:248-252 | a 350-sample packet at rate 100 leaves the counter at 250: it is reduced once per packet, so it is not bounded by the sample rate |
| `Scenarios.ThreePacketU8Playback` | main.c:146-270 | three 100-sample U8 packets at 8 kHz open the device as U8, feed three packets and one NULL, count 300 samples and print no dot |
| `Scenarios.ThreePacketU8PlaybackWrites` | main.c:117-136 | the same run asks the device for three writes of 100 samples, 300 in all |

## Left out

- Container probing and stream choice (`avformat_open_input`, `avformat_find_stream_info`, `av_find_best_stream`, main.c:155-164) are library heuristics; the chosen index and codec parameters are inputs (`StreamInfo`).
- The two `assert` checks (main.c:158, main.c:167) are taken as passing; they are not `err < 0` guards.
- Real decoding and `swr_convert` arithmetic, buffer sizing (main.c:117-118), and ALSA's blocking and real-time behaviour are oracles; only their return codes are modelled.
- `av_read_frame` failing with an I/O error is not distinguished from the end of the container: both end the packet loop, which the finite packet sequence models.
- Allocation and freeing, packet unref/reinit, the `av_freep(output)` leak, and resource release on exit (main.c:140, 254-255, 261-267) have no functional content here.
- Diagnostic text on stderr is left out: the messages, `av_strerror`/`snd_strerror`, the receive-code print when the packet is NULL (main.c:105-109) and the final newline. Short writes and progress dots appear as events; a fatal exit is the `Aborted` outcome.
- `snd_pcm_set_params`'s constant arguments (interleaved read/write access, no software resampling; main.c:197-200) are not recorded in the `ConfigureDevice` event, which carries the format, channels, rate and latency.
- The channel layout given to `swr_alloc_set_opts` (main.c:210, main.c:214) is not recorded in the `ConfigureConverter` event. It is the codec's layout for both input and output, so the converter never changes it.
- `main`'s argument loop (main.c:272-282) only calls `play` once per path.
- `av_get_packed_sample_fmt` is library code; it is modelled from FFmpeg's documented planar-to-packed mapping.
- Playback.Progress: does not model the 32-bit `int` overflow of `read_samples`; counters are unbounded integers. The same holds for the sample sum `Decoding.Decode` returns.
- Playback.Play: reports the final progress counter as its value; `play` itself always returns 0.
