/** The IIR equalizer configuration blob (`struct sof_eq_iir_config`): three
    32-bit header words followed by int32 words holding the channel assignment
    vector and, for every response, a `sof_eq_iir_header_df2t` with its
    cascade of `sof_eq_iir_biquad_df2t` sections. */
module SofEqIir {
  import opened SofEqTypes
  import opened SofEqBlocks

  /** Largest coefficient data, in bytes. */
  const IIR_MAX_SIZE: int := 1024
  /** Largest number of responses in one blob. */
  const IIR_MAX_RESPONSES: int := 8
  /** Largest number of biquads in one response. */
  const IIR_DF2T_BIQUADS_MAX: int := 11
  /** Words `num_sections` and `num_sections_in_series` in front of every cascade. */
  const IIR_NHEADER_DF2T: int := 2
  /** Words of one biquad (the literal 7 in the size arithmetic below). */
  const IIR_NBIQUAD_DF2T: int := 7
  /** `u32 size`, `u32 channels_in_config`, `u32 number_of_responses`. */
  const IIR_HEADER_BYTES: int := 12
  /** Assignment entry of a channel left unequalized. */
  const IIR_UNASSIGNED: int := -1

  /** One direct form II transposed section: Q2.30 coefficients, a right shift
      (negative shifts left) and a Q2.14 gain. */
  datatype Biquad = Biquad(a2: i32, a1: i32, b2: i32, b1: i32, b0: i32, outputShift: i32, outputGain: i32)

  /** The sections of one response; their count is stored in the uint32
      `num_sections` word. */
  type IirCascade = s: seq<Biquad> | |s| <= U32_MAX

  /** One response: `num_sections` is `|biquads|`. */
  datatype IirResponse = IirResponse(numSectionsInSeries: u32, biquads: IirCascade)

  /** The typed configuration: `channels_in_config` is `|assign|`,
      `number_of_responses` is `|responses|`. */
  datatype IirConfig = IirConfig(assign: seq<i32>, responses: seq<IirResponse>)

  /** The blob as laid out by `struct sof_eq_iir_config`. */
  datatype IirBlob = IirBlob(size: u32, channelsInConfig: u32, numberOfResponses: u32, data: seq<i32>)

  /** Bytes needed to store a blob whose `data[]` holds `nwords` int32 words:
      the header, then 4 bytes per word. */
  function IirBlobBytes(nwords: nat): (n: nat)
    ensures IIR_HEADER_BYTES <= n
    ensures nwords <= n - IIR_HEADER_BYTES
  {
    IIR_HEADER_BYTES + 4 * nwords
  }

  /** The byte count of a blob is the header and a whole number of words, so it
      gives the word count back, and distinct word counts give distinct sizes. */
  lemma IirBlobBytesWords(nwords: nat, m: nat)
    ensures (IirBlobBytes(nwords) - IIR_HEADER_BYTES) % 4 == 0
    ensures (IirBlobBytes(nwords) - IIR_HEADER_BYTES) / 4 == nwords
    ensures IirBlobBytes(nwords) == IirBlobBytes(m) <==> nwords == m
  {
  }

  predicate ValidIirResponse(r: IirResponse)
  {
    |r.biquads| <= IIR_DF2T_BIQUADS_MAX
  }

  predicate AllValidIirResponses(rs: seq<IirResponse>)
  {
    forall i | 0 <= i < |rs| :: ValidIirResponse(rs[i])
  }

  /** Words of coefficient data taken by the responses: each takes its two
      header words plus seven words per biquad. */
  function IirResponseWords(rs: seq<IirResponse>): nat
  {
    if rs == [] then 0
    else IIR_NHEADER_DF2T + 7 * |rs[0].biquads| + IirResponseWords(rs[1..])
  }

  /** Every assignment entry is `-1` (unequalized) or selects an existing response. */
  predicate IirAssignInRange(assign: seq<i32>, nresp: int)
  {
    forall ch | 0 <= ch < |assign| :: assign[ch] == IIR_UNASSIGNED || 0 <= assign[ch] < nresp
  }

  /** The documented constraints of an IIR configuration; the last one says that
      the blob's byte count fits its `u32 size` field, so the channel and
      response counts fit their uint32 header fields too. */
  predicate ValidIir(c: IirConfig): (ok: bool)
    ensures ok ==> |c.assign| <= U32_MAX && |c.responses| <= U32_MAX
  {
    && |c.responses| <= IIR_MAX_RESPONSES
    && IirAssignInRange(c.assign, |c.responses|)
    && AllValidIirResponses(c.responses)
    && 4 * IirResponseWords(c.responses) <= IIR_MAX_SIZE
    && IirBlobBytes(|c.assign| + IirResponseWords(c.responses)) <= U32_MAX
  }

  // ---------------------------------------------------------------------------
  // Biquads

  /** The seven words of a section, in the order a2, a1, b2, b1, b0, shift, gain. */
  function EncodeBiquad(q: Biquad): (w: seq<i32>)
    ensures |w| == IIR_NBIQUAD_DF2T
  {
    [q.a2, q.a1, q.b2, q.b1, q.b0, q.outputShift, q.outputGain]
  }

  /** Reads a section back from its seven words. */
  function DecodeBiquad(w: seq<i32>): (q: Biquad)
    requires |w| == IIR_NBIQUAD_DF2T
    ensures EncodeBiquad(q) == w
  {
    Biquad(w[0], w[1], w[2], w[3], w[4], w[5], w[6])
  }

  lemma BiquadRoundTrip(q: Biquad)
    ensures DecodeBiquad(EncodeBiquad(q)) == q
  {
  }

  /** A cascade: its sections one after another. */
  function EncodeBiquads(qs: seq<Biquad>): (w: seq<i32>)
    ensures |w| == 7 * |qs|
  {
    BiquadsLength(qs);
    FlatMap(EncodeBiquad, qs)
  }

  lemma {:induction false} BiquadsLength(qs: seq<Biquad>)
    ensures |FlatMap(EncodeBiquad, qs)| == 7 * |qs|
  {
    if qs != [] {
      BiquadsLength(qs[1..]);
    }
  }

  /** Reads `n` consecutive sections starting at word `off`; encoding them again
      gives back exactly the words read. */
  function DecodeBiquads(data: seq<i32>, off: nat, n: nat): (qs: seq<Biquad>)
    requires off + 7 * n <= |data|
    ensures |qs| == n
    ensures EncodeBiquads(qs) == data[off .. off + 7 * n]
    decreases n
  {
    if n == 0 then []
    else
      var next := off + IIR_NBIQUAD_DF2T;
      var q := DecodeBiquad(data[off .. next]);
      var rest := DecodeBiquads(data, next, n - 1);
      var qs := [q] + rest;
      assert qs[0] == q && qs[1..] == rest;
      assert data[off .. off + 7 * n] == data[off .. next] + data[next .. off + 7 * n];
      qs
  }

  /** Reading back the encoding of a cascade gives the cascade. */
  lemma {:induction false} DecodeEncodeBiquads(data: seq<i32>, off: nat, qs: seq<Biquad>)
    requires off + 7 * |qs| <= |data|
    requires data[off .. off + 7 * |qs|] == EncodeBiquads(qs)
    ensures DecodeBiquads(data, off, |qs|) == qs
    decreases |qs|
  {
    if qs != [] {
      var e := EncodeBiquad(qs[0]);
      var rest := EncodeBiquads(qs[1..]);
      assert EncodeBiquads(qs) == e + rest;
      SliceOfConcat(data, off, off + 7 * |qs|, e, rest);
      BiquadRoundTrip(qs[0]);
      DecodeEncodeBiquads(data, off + IIR_NBIQUAD_DF2T, qs[1..]);
      assert [qs[0]] + qs[1..] == qs;
    }
  }

  // ---------------------------------------------------------------------------
  // Encoding

  /** A response block: `num_sections`, `num_sections_in_series` (both
      `uint32_t` overlaid on the int32 data), then its biquads. */
  function EncodeIirResponse(r: IirResponse): (w: seq<i32>)
    ensures |w| == IIR_NHEADER_DF2T + 7 * |r.biquads|
  {
    [AsI32(|r.biquads|), AsI32(r.numSectionsInSeries)] + EncodeBiquads(r.biquads)
  }

  /** The coefficient data: every response block, in order. */
  function EncodeIirResponses(rs: seq<IirResponse>): (w: seq<i32>)
    ensures |w| == IirResponseWords(rs)
  {
    IirResponsesLength(rs);
    FlatMap(EncodeIirResponse, rs)
  }

  lemma {:induction false} IirResponsesLength(rs: seq<IirResponse>)
    ensures |FlatMap(EncodeIirResponse, rs)| == IirResponseWords(rs)
  {
    if rs != [] {
      IirResponsesLength(rs[1..]);
    }
  }

  /** Builds the blob: header, assignment vector, then the responses in order. */
  function EncodeIir(c: IirConfig): (b: IirBlob)
    requires ValidIir(c)
    ensures b.channelsInConfig == |c.assign| && b.numberOfResponses == |c.responses|
    ensures |b.data| == |c.assign| + IirResponseWords(c.responses)
    ensures b.size == IirBlobBytes(|c.assign| + IirResponseWords(c.responses))
    ensures b.data[..|c.assign|] == c.assign
  {
    var data := c.assign + EncodeIirResponses(c.responses);
    IirBlob(IirBlobBytes(|data|), |c.assign|, |c.responses|, data)
  }

  // ---------------------------------------------------------------------------
  // Decoding

  /** Reads the response block starting at word `off`; on success gives the
      response and the offset just past its last biquad. */
  function DecodeIirResponse(data: seq<i32>, off: nat): (r: Result<(IirResponse, nat)>)
    ensures r.Ok? ==> ValidIirResponse(r.value.0)
    ensures r.Ok? ==> r.value.1 == off + IIR_NHEADER_DF2T + 7 * |r.value.0.biquads| <= |data|
    ensures r.Ok? ==> data[off .. r.value.1] == EncodeIirResponse(r.value.0)
  {
    if |data| < off + IIR_NHEADER_DF2T then Err(TruncatedInput)
    else
      var sections := AsU32(data[off]);
      if sections > IIR_DF2T_BIQUADS_MAX then Err(InvalidCascadeShape)
      else if |data| < off + IIR_NHEADER_DF2T + 7 * sections then Err(TruncatedInput)
      else
        var next := off + IIR_NHEADER_DF2T + 7 * sections;
        var series := AsU32(data[off + 1]);
        var resp := IirResponse(series, DecodeBiquads(data, off + IIR_NHEADER_DF2T, sections));
        ReinterpretBijection(sections, data[off]);
        ReinterpretBijection(series, data[off + 1]);
        assert data[off .. next] == [data[off], data[off + 1]] + data[off + IIR_NHEADER_DF2T .. next];
        Ok((resp, next))
  }

  /** Parses and validates a blob. */
  function DecodeIir(b: IirBlob): (r: Result<IirConfig>)
    ensures b.numberOfResponses > IIR_MAX_RESPONSES ==> r.Err?
    ensures b.size != IirBlobBytes(|b.data|) ==> r == Err(SizeMismatch)
  {
    var ch := b.channelsInConfig;
    if b.size != IirBlobBytes(|b.data|) then Err(SizeMismatch)
    else if b.numberOfResponses > IIR_MAX_RESPONSES then Err(TooManyResponses)
    else if |b.data| < ch then Err(TruncatedInput)
    else if 4 * (|b.data| - ch) > IIR_MAX_SIZE then Err(BlobTooLarge)
    else if !IirAssignInRange(b.data[..ch], b.numberOfResponses) then Err(InvalidResponseIndex)
    else
      match DecodeBlocks(DecodeIirResponse, b.data, ch, b.numberOfResponses)
      case Err(e) => Err(e)
      case Ok((rs, end)) =>
        if end != |b.data| then Err(TrailingData) else Ok(IirConfig(b.data[..ch], rs))
  }

  // ---------------------------------------------------------------------------
  // Round trip

  /** A window holding a response block holds its section count, its series
      count and its biquads. */
  lemma IirResponseFields(d: seq<i32>, o: nat, next: nat, r: IirResponse)
    requires ValidIirResponse(r)
    requires next == o + IIR_NHEADER_DF2T + 7 * |r.biquads| <= |d|
    requires d[o .. next] == EncodeIirResponse(r)
    ensures d[o] == |r.biquads| && AsU32(d[o + 1]) == r.numSectionsInSeries
    ensures d[o + IIR_NHEADER_DF2T .. next] == EncodeBiquads(r.biquads)
  {
    var head := [AsI32(|r.biquads|), AsI32(r.numSectionsInSeries)];
    SliceOfConcat(d, o, next, head, EncodeBiquads(r.biquads));
    assert d[o .. o + IIR_NHEADER_DF2T][0] == d[o];
    assert d[o .. o + IIR_NHEADER_DF2T][1] == d[o + 1];
  }

  /** Reading a valid response block back, wherever it sits, gives the response
      and the offset just past it. */
  lemma DecodeEncodeIirResponse(data: seq<i32>, off: nat, next: nat, r: IirResponse)
    requires ValidIirResponse(r)
    requires next == off + IIR_NHEADER_DF2T + 7 * |r.biquads| <= |data|
    requires data[off .. next] == EncodeIirResponse(r)
    ensures DecodeIirResponse(data, off) == Ok((r, next))
  {
    IirResponseFields(data, off, next, r);
    DecodeEncodeBiquads(data, off + IIR_NHEADER_DF2T, r.biquads);
    var sections := AsU32(data[off]);
    assert sections == |r.biquads|;
    assert DecodeBiquads(data, off + IIR_NHEADER_DF2T, sections) == r.biquads;
    assert IirResponse(AsU32(data[off + 1]), r.biquads) == r;
  }

  /** The response reader accepts only valid responses, and only where their
      encoding is stored. */
  lemma IirResponseReaderSound()
    ensures ReadsOnlyEncoding(DecodeIirResponse, EncodeIirResponse, ValidIirResponse)
  {
    forall d: seq<i32>, o: nat | DecodeIirResponse(d, o).Ok?
      ensures var (r, next) := DecodeIirResponse(d, o).value;
        && ValidIirResponse(r)
        && o + |EncodeIirResponse(r)| == next <= |d|
        && d[o .. next] == EncodeIirResponse(r)
    {
    }
  }

  /** The response reader accepts every valid response wherever its encoding is stored. */
  lemma IirResponseReaderComplete()
    ensures ReadsEveryEncoding(DecodeIirResponse, EncodeIirResponse, ValidIirResponse)
  {
    forall d: seq<i32>, o: nat, next: nat, r: IirResponse
      | ValidIirResponse(r) && next == o + |EncodeIirResponse(r)| <= |d| && d[o .. next] == EncodeIirResponse(r)
      ensures DecodeIirResponse(d, o) == Ok((r, next))
    {
      DecodeEncodeIirResponse(d, o, next, r);
    }
  }

  /** Parsing what was built gives back the configuration. */
  lemma IirRoundTrip(c: IirConfig)
    requires ValidIir(c)
    ensures DecodeIir(EncodeIir(c)) == Ok(c)
  {
    var b := EncodeIir(c);
    var ch := |c.assign|;
    var w := EncodeIirResponses(c.responses);
    assert b.data[ch .. |b.data|] == w;
    assert |b.data| - ch == IirResponseWords(c.responses);
    IirResponseReaderComplete();
    DecodeBlocksComplete(DecodeIirResponse, EncodeIirResponse, ValidIirResponse, b.data, ch, |b.data|, c.responses);
    DecodeIirAccepts(b, c.responses);
  }

  /** A blob that passes the header checks and whose responses read back to `rs`,
      ending exactly at the end of `data[]`, parses to its assignment vector and `rs`. */
  lemma DecodeIirAccepts(b: IirBlob, rs: seq<IirResponse>)
    requires b.size == IirBlobBytes(|b.data|) && b.numberOfResponses <= IIR_MAX_RESPONSES
    requires b.channelsInConfig <= |b.data| && 4 * (|b.data| - b.channelsInConfig) <= IIR_MAX_SIZE
    requires IirAssignInRange(b.data[..b.channelsInConfig], b.numberOfResponses)
    requires DecodeBlocks(DecodeIirResponse, b.data, b.channelsInConfig, b.numberOfResponses) == Ok((rs, |b.data|))
    ensures DecodeIir(b) == Ok(IirConfig(b.data[..b.channelsInConfig], rs))
  {
  }

  /** What a successful parse has checked, and what it returns: the assignment
      vector and valid responses whose encodings fill the rest of `data[]`. */
  lemma IirDecodeAccepted(b: IirBlob)
    requires DecodeIir(b).Ok?
    ensures var ch := b.channelsInConfig;
      var c := DecodeIir(b).value;
      && b.size == IirBlobBytes(|b.data|)
      && b.numberOfResponses <= IIR_MAX_RESPONSES && ch <= |b.data|
      && 4 * (|b.data| - ch) <= IIR_MAX_SIZE
      && c.assign == b.data[..ch]
      && IirAssignInRange(c.assign, b.numberOfResponses)
      && |c.responses| == b.numberOfResponses
      && AllValidIirResponses(c.responses)
      && |b.data| == ch + IirResponseWords(c.responses)
      && b.data[ch ..] == EncodeIirResponses(c.responses)
  {
    var ch := b.channelsInConfig;
    var walk := DecodeBlocks(DecodeIirResponse, b.data, ch, b.numberOfResponses);
    assert ch <= |b.data| && walk.Ok? && walk.value.1 == |b.data|;
    var rs := walk.value.0;
    assert DecodeIir(b).value == IirConfig(b.data[..ch], rs);
    IirResponseReaderSound();
    DecodeBlocksSound(DecodeIirResponse, EncodeIirResponse, ValidIirResponse, b.data, ch, b.numberOfResponses);
    IirResponsesLength(rs);
  }

  /** A blob parses only if it is exactly the encoding of a valid configuration. */
  lemma IirDecodeSound(b: IirBlob)
    requires DecodeIir(b).Ok?
    ensures ValidIir(DecodeIir(b).value) && EncodeIir(DecodeIir(b).value) == b
  {
    var c := DecodeIir(b).value;
    var ch := b.channelsInConfig;
    IirDecodeAccepted(b);
    assert 4 * IirResponseWords(c.responses) <= IIR_MAX_SIZE;
    assert ValidIir(c);
    var e := EncodeIir(c);
    assert b.data == b.data[..ch] + b.data[ch..];
    assert e.data == b.data;
    assert e.size == b.size;
  }

  /** Parsing and building are inverse: a blob parses to `c` exactly when `c` is
      valid and builds to that blob. */
  lemma IirDecodeIff(b: IirBlob, c: IirConfig)
    ensures DecodeIir(b) == Ok(c) <==> ValidIir(c) && EncodeIir(c) == b
  {
    if DecodeIir(b) == Ok(c) {
      IirDecodeSound(b);
    }
    if ValidIir(c) && EncodeIir(c) == b {
      IirRoundTrip(c);
    }
  }

  // ---------------------------------------------------------------------------
  // Layout: where each response and each biquad sits in `data[]`

  /** Word index in `data[]` where response `i` begins: after the assignment
      vector and the `2 + 7 * num_sections` words of every earlier response. */
  function IirResponseOffset(c: IirConfig, i: nat): (o: nat)
    requires i <= |c.responses|
    ensures i == 0 ==> o == |c.assign|
    ensures |c.assign| + 2 * i <= o
  {
    assert c.responses[..0] == [];
    IirResponseWordsAtLeast(c.responses[..i]);
    |c.assign| + IirResponseWords(c.responses[..i])
  }

  /** Every response takes at least its two header words. */
  lemma {:induction false} IirResponseWordsAtLeast(rs: seq<IirResponse>)
    ensures 2 * |rs| <= IirResponseWords(rs)
  {
    if rs != [] {
      IirResponseWordsAtLeast(rs[1..]);
    }
  }

  /** The built blob holds the assignment vector, then the coefficient data up to its end. */
  lemma IirDataWindow(c: IirConfig)
    requires ValidIir(c)
    ensures var d := EncodeIir(c).data;
      && |c.assign| + |FlatMap(EncodeIirResponse, c.responses)| == |d|
      && d[|c.assign| .. |c.assign| + |FlatMap(EncodeIirResponse, c.responses)|] == FlatMap(EncodeIirResponse, c.responses)
  {
    var d := EncodeIir(c).data;
    assert d[|c.assign| .. |d|] == EncodeIirResponses(c.responses);
  }

  /** The responses up to `i` take the words of those before `i` plus the
      words of response `i`. */
  lemma IirPrefixWordsStep(rs: seq<IirResponse>, i: nat)
    requires i < |rs|
    ensures IirResponseWords(rs[..i + 1]) == IirResponseWords(rs[..i]) + IIR_NHEADER_DF2T + 7 * |rs[i].biquads|
    ensures IirResponseWords(rs[..i + 1]) <= IirResponseWords(rs)
  {
    FlatMapPrefixStep(EncodeIirResponse, rs, i);
    FlatMapSplit(EncodeIirResponse, rs, i);
    IirResponsesLength(rs);
    IirResponsesLength(rs[..i]);
    IirResponsesLength(rs[..i + 1]);
  }

  /** In a window of `d` from `lo` holding the encodings of `rs`, response `i`
      sits after the words of the responses before it. */
  lemma IirResponseInWindow(d: seq<i32>, lo: nat, rs: seq<IirResponse>, i: nat)
    requires lo + |FlatMap(EncodeIirResponse, rs)| <= |d|
    requires d[lo .. lo + |FlatMap(EncodeIirResponse, rs)|] == FlatMap(EncodeIirResponse, rs)
    requires i < |rs|
    ensures lo + IirResponseWords(rs[..i + 1]) == lo + IirResponseWords(rs[..i]) + IIR_NHEADER_DF2T + 7 * |rs[i].biquads| <= |d|
    ensures d[lo + IirResponseWords(rs[..i]) .. lo + IirResponseWords(rs[..i + 1])] == EncodeIirResponse(rs[i])
  {
    IirPrefixWordsStep(rs, i);
    IirResponsesLength(rs[..i]);
    assert |EncodeIirResponse(rs[i])| == IIR_NHEADER_DF2T + 7 * |rs[i].biquads|;
    FlatMapBlockAt(d, lo, EncodeIirResponse, rs, i, lo + IirResponseWords(rs[..i]), lo + IirResponseWords(rs[..i + 1]));
  }

  /** Response `i` occupies the words from `IirResponseOffset(c, i)` up to
      `IirResponseOffset(c, i + 1)`, which hold its encoding. */
  lemma IirResponseBlock(c: IirConfig, i: nat)
    requires ValidIir(c) && i < |c.responses|
    ensures var d := EncodeIir(c).data;
      && IirResponseOffset(c, i + 1) == IirResponseOffset(c, i) + IIR_NHEADER_DF2T + 7 * |c.responses[i].biquads| <= |d|
      && d[IirResponseOffset(c, i) .. IirResponseOffset(c, i + 1)] == EncodeIirResponse(c.responses[i])
  {
    var d := EncodeIir(c).data;
    var o := IirResponseOffset(c, i);
    var next := IirResponseOffset(c, i + 1);
    assert o == |c.assign| + IirResponseWords(c.responses[..i]);
    assert next == |c.assign| + IirResponseWords(c.responses[..i + 1]);
    IirDataWindow(c);
    IirResponseInWindow(d, |c.assign|, c.responses, i);
  }

  /** Response `i` is stored at `IirResponseOffset(c, i)` as its section count,
      its series count and its biquads, and the next response starts right after it. */
  lemma IirResponseLayout(c: IirConfig, i: nat)
    requires ValidIir(c) && i < |c.responses|
    ensures var d := EncodeIir(c).data;
      var o := IirResponseOffset(c, i);
      var r := c.responses[i];
      var n := IIR_NHEADER_DF2T + 7 * |r.biquads|;
      && IirResponseOffset(c, i + 1) == o + n <= |d|
      && d[o] == |r.biquads|
      && AsU32(d[o + 1]) == r.numSectionsInSeries
      && d[o + IIR_NHEADER_DF2T .. o + n] == EncodeBiquads(r.biquads)
  {
    IirResponseBlock(c, i);
    IirResponseFields(EncodeIir(c).data, IirResponseOffset(c, i), IirResponseOffset(c, i + 1), c.responses[i]);
  }

  /** Biquad `k` of response `i` sits `2 + 7k` words into the response, its
      words in the order a2, a1, b2, b1, b0, output_shift, output_gain. */
  lemma IirBiquadLayout(c: IirConfig, i: nat, k: nat)
    requires ValidIir(c) && i < |c.responses| && k < |c.responses[i].biquads|
    ensures var d := EncodeIir(c).data;
      var o := IirResponseOffset(c, i) + IIR_NHEADER_DF2T + 7 * k;
      var q := c.responses[i].biquads[k];
      && o + IIR_NBIQUAD_DF2T <= |d|
      && d[o .. o + IIR_NBIQUAD_DF2T] == [q.a2, q.a1, q.b2, q.b1, q.b0, q.outputShift, q.outputGain]
  {
    var r := c.responses[i];
    IirResponseLayout(c, i);
    var d := EncodeIir(c).data;
    var base := IirResponseOffset(c, i) + IIR_NHEADER_DF2T;
    BiquadsLength(r.biquads[..k]);
    FlatMapBlockAt(d, base, EncodeBiquad, r.biquads, k, base + 7 * k, base + 7 * k + IIR_NBIQUAD_DF2T);
  }

  /** In a parsed blob, assignment entry `-1` leaves the channel unequalized and
      any other entry `k` selects the response stored at `IirResponseOffset(c, k)`. */
  lemma IirChannelSelectsResponse(b: IirBlob, c: IirConfig, ch: nat)
    requires DecodeIir(b) == Ok(c) && ch < b.channelsInConfig
    ensures var k := b.data[ch];
      && ch < |c.assign| && c.assign[ch] == k
      && (k == IIR_UNASSIGNED || 0 <= k < |c.responses|)
      && (0 <= k < |c.responses| ==>
            && IirResponseOffset(c, k) + IIR_NHEADER_DF2T <= |b.data|
            && b.data[IirResponseOffset(c, k)] == |c.responses[k].biquads|)
  {
    IirDecodeSound(b);
    var k := b.data[ch];
    if 0 <= k < |c.responses| {
      IirResponseLayout(c, k);
    }
  }

  // ---------------------------------------------------------------------------
  // The flat-response section

  /** The section documented as flat: b0 = 1.0 and gain = 1.0, the rest 0, with
      the gain word as the documentation writes it. */
  function DocumentedFlatBiquad(): Biquad
  {
    Biquad(0, 0, 0, 0, 1073741824, 0, 16484)
  }

  /** The flat section as intended: 1.0 in Q2.14 is 2^14 = 16384. */
  function FlatBiquad(): Biquad
  {
    Biquad(0, 0, 0, 0, 1073741824, 0, 16384)
  }

  /** The documented gain word is about 1.0061, not 1.0. */
  lemma DocumentedFlatGainIsNotUnity()
    ensures Q2_30(DocumentedFlatBiquad().b0) == 1.0
    ensures Q2_14(DocumentedFlatBiquad().outputGain) != 1.0
    ensures Q2_14(DocumentedFlatBiquad().outputGain) > 1.0
  {
  }

  /** The corrected section has b0 = 1.0, gain = 1.0 and every other term 0. */
  lemma FlatBiquadIsUnity()
    ensures var q := FlatBiquad();
      && Q2_30(q.b0) == 1.0 && Q2_14(q.outputGain) == 1.0
      && Q2_30(q.a2) == 0.0 && Q2_30(q.a1) == 0.0 && Q2_30(q.b2) == 0.0 && Q2_30(q.b1) == 0.0
      && q.outputShift == 0
  {
  }

  /** A response made of flat sections, selected by every channel, is a valid
      one-response blob for any number of sections up to the limit and any
      channel count whose blob size fits the `size` field. */
  lemma FlatResponseIsValid(sections: nat, channels: nat)
    requires sections <= IIR_DF2T_BIQUADS_MAX
    requires IirBlobBytes(channels + IIR_NHEADER_DF2T + 7 * sections) <= U32_MAX
    ensures var c := IirConfig(seq(channels, _ => 0), [IirResponse(sections, seq(sections, _ => FlatBiquad()))]);
      ValidIir(c) && DecodeIir(EncodeIir(c)) == Ok(c)
  {
    var c := IirConfig(seq(channels, _ => 0), [IirResponse(sections, seq(sections, _ => FlatBiquad()))]);
    assert c.responses[1..] == [];
    IirRoundTrip(c);
  }
}
