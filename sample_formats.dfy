/** Sample-format negotiation: the fixed table that maps the decoder's packed
    FFmpeg sample format to the ALSA PCM format the device is opened with
    (main.c:58-85), and the FFmpeg helper that turns a planar format into its
    packed counterpart (used at main.c:178 and main.c:211). */
module SampleFormats {

  import opened Wrappers

  /** Host byte order, the condition FFmpeg's AV_NE(be, le) macro selects on. */
  datatype Endianness = Little | Big

  /** FFmpeg's enum AVSampleFormat, in declaration order (NONE is -1). */
  datatype AvSampleFormat =
    | AvNone
    | AvU8 | AvS16 | AvS32 | AvFlt | AvDbl
    | AvU8P | AvS16P | AvS32P | AvFltP | AvDblP
    | AvS64 | AvS64P

  /** The ALSA snd_pcm_format_t values the lookup table can produce. */
  datatype SndPcmFormat =
    | SndU8
    | SndS16Le | SndS16Be
    | SndS32Le | SndS32Be
    | SndFloatLe | SndFloatBe
    | SndFloat64Le | SndFloat64Be

  /** How one sample is represented, independent of byte order and channel layout. */
  datatype Encoding = Unsigned | Signed | Float
  datatype Representation = Representation(bits: nat, encoding: Encoding)

  predicate IsPlanar(f: AvSampleFormat) {
    f.AvU8P? || f.AvS16P? || f.AvS32P? || f.AvFltP? || f.AvDblP? || f.AvS64P?
  }

  /** The sample representation an FFmpeg format stands for; NONE has none. */
  function AvRepresentation(f: AvSampleFormat): Option<Representation> {
    match f
    case AvNone => None
    case AvU8 | AvU8P => Some(Representation(8, Unsigned))
    case AvS16 | AvS16P => Some(Representation(16, Signed))
    case AvS32 | AvS32P => Some(Representation(32, Signed))
    case AvFlt | AvFltP => Some(Representation(32, Float))
    case AvDbl | AvDblP => Some(Representation(64, Float))
    case AvS64 | AvS64P => Some(Representation(64, Signed))
  }

  function SndRepresentation(s: SndPcmFormat): Representation {
    match s
    case SndU8 => Representation(8, Unsigned)
    case SndS16Le | SndS16Be => Representation(16, Signed)
    case SndS32Le | SndS32Be => Representation(32, Signed)
    case SndFloatLe | SndFloatBe => Representation(32, Float)
    case SndFloat64Le | SndFloat64Be => Representation(64, Float)
  }

  /** The byte order of an ALSA format; single-byte U8 has none. */
  function SndByteOrder(s: SndPcmFormat): Option<Endianness> {
    match s
    case SndU8 => None
    case SndS16Le | SndS32Le | SndFloatLe | SndFloat64Le => Some(Little)
    case SndS16Be | SndS32Be | SndFloatBe | SndFloat64Be => Some(Big)
  }

  /** av_get_packed_sample_fmt: the packed format with the same sample representation. */
  function AvGetPackedSampleFmt(f: AvSampleFormat): (r: AvSampleFormat)
    ensures !IsPlanar(r)
    ensures AvRepresentation(r) == AvRepresentation(f)
    ensures !IsPlanar(f) ==> r == f
  {
    match f
    case AvU8P => AvU8
    case AvS16P => AvS16
    case AvS32P => AvS32
    case AvFltP => AvFlt
    case AvDblP => AvDbl
    case AvS64P => AvS64
    case _ => f
  }

  /** One row of sample_format_table: the FFmpeg format and its little- and big-endian ALSA formats. */
  datatype Entry = Entry(avFormat: AvSampleFormat, sndLe: SndPcmFormat, sndBe: SndPcmFormat)

  const SampleFormatTable: seq<Entry> := [
    Entry(AvU8, SndU8, SndU8),
    Entry(AvS16, SndS16Le, SndS16Be),
    Entry(AvS32, SndS32Le, SndS32Be),
    Entry(AvFlt, SndFloatLe, SndFloatBe),
    Entry(AvDbl, SndFloat64Le, SndFloat64Be)
  ]

  /** AV_NE(be, le): the big-endian argument on a big-endian host, the other one otherwise. */
  function AvNe<T>(be: T, le: T, host: Endianness): T {
    if host == Big then be else le
  }

  /** The first row of `table` whose FFmpeg format is `f`, if any. */
  function FindEntry(table: seq<Entry>, f: AvSampleFormat): (r: Option<Entry>)
    ensures r.Some? ==> r.value in table && r.value.avFormat == f
    ensures r.None? ==> forall k :: 0 <= k < |table| ==> table[k].avFormat != f
  {
    if table == [] then None
    else if table[0].avFormat == f then Some(table[0])
    else FindEntry(table[1..], f)
  }

  lemma {:induction false} FindEntryFirst(table: seq<Entry>, k: nat, f: AvSampleFormat)
    requires k < |table| && table[k].avFormat == f
    requires forall j :: 0 <= j < k ==> table[j].avFormat != f
    ensures FindEntry(table, f) == Some(table[k])
  {
    if k > 0 {
      FindEntryFirst(table[1..], k - 1, f);
    }
  }

  /** What get_snd_format_from_av_format stores through its out-parameter, or None when it returns -1. */
  function Lookup(f: AvSampleFormat, host: Endianness): Option<SndPcmFormat> {
    match FindEntry(SampleFormatTable, f)
    case None => None
    case Some(e) => Some(AvNe(e.sndBe, e.sndLe, host))
  }

  /** The five packed formats the player accepts. */
  predicate Supported(f: AvSampleFormat) {
    f == AvU8 || f == AvS16 || f == AvS32 || f == AvFlt || f == AvDbl
  }

  /** The row of the table that holds a supported format. */
  function RowOf(f: AvSampleFormat): (k: nat)
    requires Supported(f)
    ensures k < |SampleFormatTable| && SampleFormatTable[k].avFormat == f
  {
    match f
    case AvU8 => 0
    case AvS16 => 1
    case AvS32 => 2
    case AvFlt => 3
    case AvDbl => 4
  }

  /** The lookup succeeds exactly for U8, S16, S32, FLT and DBL, whatever the host byte order. */
  lemma LookupDefinedExactlyOnSupported(f: AvSampleFormat, host: Endianness)
    ensures Lookup(f, host).Some? <==> Supported(f)
  {
    if Supported(f) {
      FindEntryFirst(SampleFormatTable, RowOf(f), f);
    }
  }

  /** Each row answers for its own FFmpeg format: the big-endian column on a
      big-endian host and the little-endian column on a little-endian one. */
  lemma LookupColumns(k: nat, host: Endianness)
    requires k < |SampleFormatTable|
    ensures host == Big ==> Lookup(SampleFormatTable[k].avFormat, host) == Some(SampleFormatTable[k].sndBe)
    ensures host == Little ==> Lookup(SampleFormatTable[k].avFormat, host) == Some(SampleFormatTable[k].sndLe)
  {
    FindEntryFirst(SampleFormatTable, k, SampleFormatTable[k].avFormat);
  }

  /** U8 has no byte-order variant: it maps to SND_PCM_FORMAT_U8 on both hosts. */
  lemma LookupU8(host: Endianness)
    ensures Lookup(AvU8, host) == Some(SndU8)
  {
    FindEntryFirst(SampleFormatTable, 0, AvU8);
  }

  /** A device format is right for a decoder format when the decoder format is packed,
      both represent samples the same way, and the device format is in host byte order
      (or has no byte order). */
  predicate Matches(f: AvSampleFormat, s: SndPcmFormat, host: Endianness) {
    && !IsPlanar(f)
    && AvRepresentation(f) == Some(SndRepresentation(s))
    && (SndByteOrder(s) == None || SndByteOrder(s) == Some(host))
  }

  /** Representation and host byte order leave at most one device format. */
  lemma MatchingDeviceFormatIsUnique(f: AvSampleFormat, s: SndPcmFormat, t: SndPcmFormat, host: Endianness)
    requires Matches(f, s, host) && Matches(f, t, host)
    ensures s == t
  {
    match s
    case SndU8 =>
    case SndS16Le | SndS16Be =>
    case SndS32Le | SndS32Be =>
    case SndFloatLe | SndFloatBe =>
    case SndFloat64Le | SndFloat64Be =>
  }

  /** Only the five table formats have a device format with their representation. */
  lemma MatchedFormatIsSupported(f: AvSampleFormat, s: SndPcmFormat, host: Endianness)
    requires Matches(f, s, host)
    ensures Supported(f)
  {
    match s
    case SndU8 =>
    case SndS16Le | SndS16Be =>
    case SndS32Le | SndS32Be =>
    case SndFloatLe | SndFloatBe =>
    case SndFloat64Le | SndFloat64Be =>
  }

  /** Every row's `AV_NE` column matches its FFmpeg format. */
  lemma RowMatches(k: nat, host: Endianness)
    requires k < |SampleFormatTable|
    ensures Matches(SampleFormatTable[k].avFormat, AvNe(SampleFormatTable[k].sndBe, SampleFormatTable[k].sndLe, host), host)
  {
    if k == 0 {
    } else if k == 1 {
    } else if k == 2 {
    } else if k == 3 {
    } else {
    }
  }

  /** A supported format is looked up in its own row, whose answer matches it. */
  lemma LookupRow(f: AvSampleFormat, host: Endianness) returns (s: SndPcmFormat)
    requires Supported(f)
    ensures Lookup(f, host) == Some(s) && Matches(f, s, host)
  {
    var row := SampleFormatTable[RowOf(f)];
    FindEntryFirst(SampleFormatTable, RowOf(f), f);
    RowMatches(RowOf(f), host);
    s := AvNe(row.sndBe, row.sndLe, host);
  }

  /** The table is exactly the matching relation: the lookup yields `s` if and only if
      `s` is a device format with the same representation in host byte order. */
  lemma LookupIsMatchingDeviceFormat(f: AvSampleFormat, host: Endianness, s: SndPcmFormat)
    ensures Lookup(f, host) == Some(s) <==> Matches(f, s, host)
  {
    LookupDefinedExactlyOnSupported(f, host);
    if Supported(f) {
      var t := LookupRow(f, host);
      if Matches(f, s, host) {
        MatchingDeviceFormatIsUnique(f, s, t, host);
      }
    } else if Matches(f, s, host) {
      MatchedFormatIsSupported(f, s, host);
      assert false;
    }
  }

  /** get_snd_format_from_av_format: a scan of the table; on a hit the AV_NE column
      is written through the out-parameter and 0 returned, otherwise -1 is returned
      and the out-parameter keeps whatever `prior` value it held. */
  method GetSndFormatFromAvFormat(avFormat: AvSampleFormat, host: Endianness, prior: SndPcmFormat)
    returns (ret: int, sndFormat: SndPcmFormat)
    ensures ret == 0 || ret == -1
    ensures ret == 0 <==> Supported(avFormat)
    ensures ret == 0 ==> Matches(avFormat, sndFormat, host)
    ensures ret == 0 ==> Lookup(avFormat, host) == Some(sndFormat)
    ensures ret == -1 ==> sndFormat == prior && Lookup(avFormat, host) == None
  {
    sndFormat := prior;
    for i := 0 to |SampleFormatTable|
      invariant forall j :: 0 <= j < i ==> SampleFormatTable[j].avFormat != avFormat
    {
      var entry := SampleFormatTable[i];
      if avFormat == entry.avFormat {
        sndFormat := AvNe(entry.sndBe, entry.sndLe, host);
        FindEntryFirst(SampleFormatTable, i, avFormat);
        LookupIsMatchingDeviceFormat(avFormat, host, sndFormat);
        MatchedFormatIsSupported(avFormat, sndFormat, host);
        return 0, sndFormat;
      }
    }
    assert FindEntry(SampleFormatTable, avFormat) == None;
    LookupDefinedExactlyOnSupported(avFormat, host);
    return -1, sndFormat;
  }
}
