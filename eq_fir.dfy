/** The FIR equalizer configuration blob (`struct sof_eq_fir_config`): an 8-byte
    header followed by int16 words holding the channel assignment vector and,
    for every response, `{length, out_shift, coef[length]}`. */
module SofEqFir {
  import opened SofEqTypes
  import opened SofEqBlocks

  /** Largest coefficient data, in bytes. */
  const FIR_MAX_SIZE: int := 4096
  /** Largest number of taps of one response. */
  const FIR_MAX_LENGTH: int := 192
  /** Words `length` and `out_shift` in front of every coefficient array. */
  const FIR_COEF_NHEADER: int := 2
  /** `u32 size`, `u16 channels_in_config`, `u16 number_of_responses`. */
  const FIR_HEADER_BYTES: int := 8

  /** The taps of one response; their count is stored in the int16 `length`
      word, so there are never more than 0x7FFF of them. */
  type FirTaps = s: seq<i16> | |s| <= 0x7FFF

  /** One response: the right shift applied at the output and the Q1.15 taps.
      The `length` word of the blob is `|coef|`. */
  datatype FirResponse = FirResponse(outShift: i16, coef: FirTaps)

  /** The typed configuration: `channels_in_config` is `|assign|`,
      `number_of_responses` is `|responses|`. */
  datatype FirConfig = FirConfig(assign: seq<i16>, responses: seq<FirResponse>)

  /** The blob as laid out by `struct sof_eq_fir_config`. */
  datatype FirBlob = FirBlob(size: u32, channelsInConfig: u16, numberOfResponses: u16, data: seq<i16>)

  /** Bytes needed to store a blob whose `data[]` holds `nwords` int16 words:
      the header, then 2 bytes per word. */
  function FirBlobBytes(nwords: nat): (n: nat)
    ensures FIR_HEADER_BYTES <= n
    ensures nwords <= n - FIR_HEADER_BYTES
  {
    FIR_HEADER_BYTES + 2 * nwords
  }

  /** The byte count of a blob is the header and a whole number of words, so it
      gives the word count back, and distinct word counts give distinct sizes. */
  lemma FirBlobBytesWords(nwords: nat, m: nat)
    ensures (FirBlobBytes(nwords) - FIR_HEADER_BYTES) % 2 == 0
    ensures (FirBlobBytes(nwords) - FIR_HEADER_BYTES) / 2 == nwords
    ensures FirBlobBytes(nwords) == FirBlobBytes(m) <==> nwords == m
  {
  }

  /** A filter length must be a multiple of four and at most `FIR_MAX_LENGTH`. */
  predicate ValidFirLength(len: int)
  {
    0 <= len <= FIR_MAX_LENGTH && len % 4 == 0
  }

  predicate ValidFirResponse(r: FirResponse)
  {
    ValidFirLength(|r.coef|)
  }

  predicate AllValidFirResponses(rs: seq<FirResponse>)
  {
    forall i | 0 <= i < |rs| :: ValidFirResponse(rs[i])
  }

  /** Words of coefficient data taken by the responses: each takes its two
      header words plus its taps. */
  function FirResponseWords(rs: seq<FirResponse>): nat
  {
    if rs == [] then 0 else FIR_COEF_NHEADER + |rs[0].coef| + FirResponseWords(rs[1..])
  }

  /** Every assignment entry selects an existing response by position. */
  predicate FirAssignInRange(assign: seq<i16>, nresp: int)
  {
    forall ch | 0 <= ch < |assign| :: 0 <= assign[ch] < nresp
  }

  /** The documented constraints of a FIR configuration; a configuration that
      meets them has a byte count that fits the uint32 `size` field. */
  predicate ValidFir(c: FirConfig): (ok: bool)
    ensures ok ==> FirBlobBytes(|c.assign| + FirResponseWords(c.responses)) <= U32_MAX
  {
    && |c.assign| <= U16_MAX
    && |c.responses| <= U16_MAX
    && |c.assign| % 2 == 0
    && FirAssignInRange(c.assign, |c.responses|)
    && AllValidFirResponses(c.responses)
    && 2 * FirResponseWords(c.responses) <= FIR_MAX_SIZE
  }

  // ---------------------------------------------------------------------------
  // Encoding

  /** One response block: `length`, `out_shift`, then the taps. */
  function EncodeFirResponse(r: FirResponse): (w: seq<i16>)
    ensures |w| == FIR_COEF_NHEADER + |r.coef|
    ensures w[0] == |r.coef| && w[1] == r.outShift && w[FIR_COEF_NHEADER..] == r.coef
  {
    [|r.coef|, r.outShift] + r.coef
  }

  /** The coefficient data: every response block, in order. */
  function EncodeFirResponses(rs: seq<FirResponse>): (w: seq<i16>)
    ensures |w| == FirResponseWords(rs)
  {
    FirResponsesLength(rs);
    FlatMap(EncodeFirResponse, rs)
  }

  lemma {:induction false} FirResponsesLength(rs: seq<FirResponse>)
    ensures |FlatMap(EncodeFirResponse, rs)| == FirResponseWords(rs)
  {
    if rs != [] {
      FirResponsesLength(rs[1..]);
    }
  }

  /** Builds the blob: header, assignment vector, then the responses in order. */
  function EncodeFir(c: FirConfig): (b: FirBlob)
    requires ValidFir(c)
    ensures b.channelsInConfig == |c.assign| && b.numberOfResponses == |c.responses|
    ensures |b.data| == |c.assign| + FirResponseWords(c.responses)
    ensures b.size == FirBlobBytes(|c.assign| + FirResponseWords(c.responses))
    ensures b.data[..|c.assign|] == c.assign
  {
    var data := c.assign + EncodeFirResponses(c.responses);
    FirBlob(FirBlobBytes(|data|), |c.assign|, |c.responses|, data)
  }

  // ---------------------------------------------------------------------------
  // Decoding

  /** Reads the response block starting at word `off`; on success gives the
      response and the offset just past its taps. */
  function DecodeFirResponse(data: seq<i16>, off: nat): (r: Result<(FirResponse, nat)>)
    ensures r.Ok? ==> ValidFirResponse(r.value.0)
    ensures r.Ok? ==> r.value.1 == off + FIR_COEF_NHEADER + |r.value.0.coef| <= |data|
    ensures r.Ok? ==> data[off .. r.value.1] == EncodeFirResponse(r.value.0)
  {
    if |data| < off + FIR_COEF_NHEADER then Err(TruncatedInput)
    else
      var len := data[off];
      if !ValidFirLength(len) then Err(InvalidFilterLength)
      else if |data| < off + FIR_COEF_NHEADER + len then Err(TruncatedInput)
      else
        var next := off + FIR_COEF_NHEADER + len;
        var resp := FirResponse(data[off + 1], data[off + FIR_COEF_NHEADER .. next]);
        assert data[off .. next] == [data[off], data[off + 1]] + data[off + FIR_COEF_NHEADER .. next];
        Ok((resp, next))
  }

  /** Parses and validates a blob. */
  function DecodeFir(b: FirBlob): (r: Result<FirConfig>)
    ensures b.channelsInConfig % 2 == 1 ==> r.Err?
    ensures b.size != FirBlobBytes(|b.data|) ==> r == Err(SizeMismatch)
  {
    var ch := b.channelsInConfig;
    if b.size != FirBlobBytes(|b.data|) then Err(SizeMismatch)
    else if ch % 2 != 0 then Err(InvalidChannelCount)
    else if |b.data| < ch then Err(TruncatedInput)
    else if 2 * (|b.data| - ch) > FIR_MAX_SIZE then Err(BlobTooLarge)
    else if !FirAssignInRange(b.data[..ch], b.numberOfResponses) then Err(InvalidResponseIndex)
    else
      match DecodeBlocks(DecodeFirResponse, b.data, ch, b.numberOfResponses)
      case Err(e) => Err(e)
      case Ok((rs, end)) =>
        if end != |b.data| then Err(TrailingData) else Ok(FirConfig(b.data[..ch], rs))
  }

  // ---------------------------------------------------------------------------
  // Round trip

  /** Reading a valid response block back, wherever it sits, gives the response
      and the offset just past it. */
  lemma DecodeEncodeFirResponse(data: seq<i16>, off: nat, next: nat, r: FirResponse)
    requires ValidFirResponse(r)
    requires next == off + FIR_COEF_NHEADER + |r.coef| <= |data|
    requires data[off .. next] == EncodeFirResponse(r)
    ensures DecodeFirResponse(data, off) == Ok((r, next))
  {
    FirResponseFields(data, off, next, r);
  }

  /** The response reader accepts only valid responses, and only where their
      encoding is stored. */
  lemma FirResponseReaderSound()
    ensures ReadsOnlyEncoding(DecodeFirResponse, EncodeFirResponse, ValidFirResponse)
  {
    forall d: seq<i16>, o: nat | DecodeFirResponse(d, o).Ok?
      ensures var (r, next) := DecodeFirResponse(d, o).value;
        && ValidFirResponse(r)
        && o + |EncodeFirResponse(r)| == next <= |d|
        && d[o .. next] == EncodeFirResponse(r)
    {
    }
  }

  /** The response reader accepts every valid response wherever its encoding is stored. */
  lemma FirResponseReaderComplete()
    ensures ReadsEveryEncoding(DecodeFirResponse, EncodeFirResponse, ValidFirResponse)
  {
    forall d: seq<i16>, o: nat, next: nat, r: FirResponse
      | ValidFirResponse(r) && next == o + |EncodeFirResponse(r)| <= |d| && d[o .. next] == EncodeFirResponse(r)
      ensures DecodeFirResponse(d, o) == Ok((r, next))
    {
      DecodeEncodeFirResponse(d, o, next, r);
    }
  }

  /** Parsing what was built gives back the configuration. */
  lemma FirRoundTrip(c: FirConfig)
    requires ValidFir(c)
    ensures DecodeFir(EncodeFir(c)) == Ok(c)
  {
    var b := EncodeFir(c);
    var ch := |c.assign|;
    var w := EncodeFirResponses(c.responses);
    assert b.data[ch .. |b.data|] == w;
    assert |b.data| - ch == FirResponseWords(c.responses);
    FirResponseReaderComplete();
    DecodeBlocksComplete(DecodeFirResponse, EncodeFirResponse, ValidFirResponse, b.data, ch, |b.data|, c.responses);
    DecodeFirAccepts(b, c.responses);
  }

  /** A blob that passes the header checks and whose responses read back to `rs`,
      ending exactly at the end of `data[]`, parses to its assignment vector and `rs`. */
  lemma DecodeFirAccepts(b: FirBlob, rs: seq<FirResponse>)
    requires b.size == FirBlobBytes(|b.data|) && b.channelsInConfig % 2 == 0
    requires b.channelsInConfig <= |b.data| && 2 * (|b.data| - b.channelsInConfig) <= FIR_MAX_SIZE
    requires FirAssignInRange(b.data[..b.channelsInConfig], b.numberOfResponses)
    requires DecodeBlocks(DecodeFirResponse, b.data, b.channelsInConfig, b.numberOfResponses) == Ok((rs, |b.data|))
    ensures DecodeFir(b) == Ok(FirConfig(b.data[..b.channelsInConfig], rs))
  {
  }

  /** What a successful parse has checked, and what it returns: the assignment
      vector and valid responses whose encodings fill the rest of `data[]`. */
  lemma FirDecodeAccepted(b: FirBlob)
    requires DecodeFir(b).Ok?
    ensures var ch := b.channelsInConfig;
      var c := DecodeFir(b).value;
      && b.size == FirBlobBytes(|b.data|)
      && ch % 2 == 0 && ch <= |b.data|
      && 2 * (|b.data| - ch) <= FIR_MAX_SIZE
      && c.assign == b.data[..ch]
      && FirAssignInRange(c.assign, b.numberOfResponses)
      && |c.responses| == b.numberOfResponses
      && AllValidFirResponses(c.responses)
      && |b.data| == ch + FirResponseWords(c.responses)
      && b.data[ch ..] == EncodeFirResponses(c.responses)
  {
    var ch := b.channelsInConfig;
    var walk := DecodeBlocks(DecodeFirResponse, b.data, ch, b.numberOfResponses);
    assert ch <= |b.data| && walk.Ok? && walk.value.1 == |b.data|;
    var rs := walk.value.0;
    assert DecodeFir(b).value == FirConfig(b.data[..ch], rs);
    FirResponseReaderSound();
    DecodeBlocksSound(DecodeFirResponse, EncodeFirResponse, ValidFirResponse, b.data, ch, b.numberOfResponses);
    FirResponsesLength(rs);
  }

  /** A blob parses only if it is exactly the encoding of a valid configuration. */
  lemma FirDecodeSound(b: FirBlob)
    requires DecodeFir(b).Ok?
    ensures ValidFir(DecodeFir(b).value) && EncodeFir(DecodeFir(b).value) == b
  {
    var c := DecodeFir(b).value;
    var ch := b.channelsInConfig;
    FirDecodeAccepted(b);
    assert 2 * FirResponseWords(c.responses) <= FIR_MAX_SIZE;
    assert ValidFir(c);
    var e := EncodeFir(c);
    assert b.data == b.data[..ch] + b.data[ch..];
    assert e.data == b.data;
    assert e.size == b.size;
  }

  /** Parsing and building are inverse: a blob parses to `c` exactly when `c` is
      valid and builds to that blob. */
  lemma FirDecodeIff(b: FirBlob, c: FirConfig)
    ensures DecodeFir(b) == Ok(c) <==> ValidFir(c) && EncodeFir(c) == b
  {
    if DecodeFir(b) == Ok(c) {
      FirDecodeSound(b);
    }
    if ValidFir(c) && EncodeFir(c) == b {
      FirRoundTrip(c);
    }
  }

  // ---------------------------------------------------------------------------
  // Layout: where each response sits in `data[]`

  /** Word index in `data[]` where response `i` begins: after the assignment
      vector and the `FIR_COEF_NHEADER + length` words of every earlier response. */
  function FirResponseOffset(c: FirConfig, i: nat): (o: nat)
    requires i <= |c.responses|
    ensures i == 0 ==> o == |c.assign|
    ensures |c.assign| + 2 * i <= o
  {
    assert c.responses[..0] == [];
    FirResponseWordsAtLeast(c.responses[..i]);
    |c.assign| + FirResponseWords(c.responses[..i])
  }

  /** Every response takes at least its two header words. */
  lemma {:induction false} FirResponseWordsAtLeast(rs: seq<FirResponse>)
    ensures 2 * |rs| <= FirResponseWords(rs)
  {
    if rs != [] {
      FirResponseWordsAtLeast(rs[1..]);
    }
  }

  /** Byte offset of response `i` from the start of the blob. */
  function FirResponseByteOffset(c: FirConfig, i: nat): nat
    requires i <= |c.responses|
  {
    FIR_HEADER_BYTES + 2 * FirResponseOffset(c, i)
  }

  /** A window holding a response block holds its length, its shift and its taps. */
  lemma FirResponseFields(d: seq<i16>, o: nat, next: nat, r: FirResponse)
    requires next == o + FIR_COEF_NHEADER + |r.coef| <= |d|
    requires d[o .. next] == EncodeFirResponse(r)
    ensures d[o] == |r.coef| && d[o + 1] == r.outShift
    ensures d[o + FIR_COEF_NHEADER .. next] == r.coef
  {
    SliceOfConcat(d, o, next, [|r.coef|, r.outShift], r.coef);
    assert d[o .. o + FIR_COEF_NHEADER][0] == d[o];
    assert d[o .. o + FIR_COEF_NHEADER][1] == d[o + 1];
  }

  /** The built blob holds the assignment vector, then the coefficient data up to its end. */
  lemma FirDataWindow(c: FirConfig)
    requires ValidFir(c)
    ensures var d := EncodeFir(c).data;
      && |c.assign| + |FlatMap(EncodeFirResponse, c.responses)| == |d|
      && d[|c.assign| .. |c.assign| + |FlatMap(EncodeFirResponse, c.responses)|] == FlatMap(EncodeFirResponse, c.responses)
  {
    var d := EncodeFir(c).data;
    assert d[|c.assign| .. |d|] == EncodeFirResponses(c.responses);
  }

  /** The responses up to `i` take the words of those before `i` plus the
      words of response `i`. */
  lemma FirPrefixWordsStep(rs: seq<FirResponse>, i: nat)
    requires i < |rs|
    ensures FirResponseWords(rs[..i + 1]) == FirResponseWords(rs[..i]) + FIR_COEF_NHEADER + |rs[i].coef|
    ensures FirResponseWords(rs[..i + 1]) <= FirResponseWords(rs)
  {
    FlatMapPrefixStep(EncodeFirResponse, rs, i);
    FlatMapSplit(EncodeFirResponse, rs, i);
    FirResponsesLength(rs);
    FirResponsesLength(rs[..i]);
    FirResponsesLength(rs[..i + 1]);
  }

  /** In a window of `d` from `lo` holding the encodings of `rs`, response `i`
      sits after the words of the responses before it. */
  lemma FirResponseInWindow(d: seq<i16>, lo: nat, rs: seq<FirResponse>, i: nat)
    requires lo + |FlatMap(EncodeFirResponse, rs)| <= |d|
    requires d[lo .. lo + |FlatMap(EncodeFirResponse, rs)|] == FlatMap(EncodeFirResponse, rs)
    requires i < |rs|
    ensures lo + FirResponseWords(rs[..i + 1]) == lo + FirResponseWords(rs[..i]) + FIR_COEF_NHEADER + |rs[i].coef| <= |d|
    ensures d[lo + FirResponseWords(rs[..i]) .. lo + FirResponseWords(rs[..i + 1])] == EncodeFirResponse(rs[i])
  {
    FirPrefixWordsStep(rs, i);
    FirResponsesLength(rs[..i]);
    FlatMapBlockAt(d, lo, EncodeFirResponse, rs, i, lo + FirResponseWords(rs[..i]), lo + FirResponseWords(rs[..i + 1]));
  }

  /** Response `i` occupies the words from `FirResponseOffset(c, i)` up to
      `FirResponseOffset(c, i + 1)`, which hold its encoding. */
  lemma FirResponseBlock(c: FirConfig, i: nat)
    requires ValidFir(c) && i < |c.responses|
    ensures var d := EncodeFir(c).data;
      && FirResponseOffset(c, i + 1) == FirResponseOffset(c, i) + FIR_COEF_NHEADER + |c.responses[i].coef| <= |d|
      && d[FirResponseOffset(c, i) .. FirResponseOffset(c, i + 1)] == EncodeFirResponse(c.responses[i])
  {
    var d := EncodeFir(c).data;
    var o := FirResponseOffset(c, i);
    var next := FirResponseOffset(c, i + 1);
    assert o == |c.assign| + FirResponseWords(c.responses[..i]);
    assert next == |c.assign| + FirResponseWords(c.responses[..i + 1]);
    FirDataWindow(c);
    FirResponseInWindow(d, |c.assign|, c.responses, i);
  }

  /** Response `i` is stored at `FirResponseOffset(c, i)` as its length, its
      shift and its taps, and the next response starts right after it. */
  lemma FirResponseLayout(c: FirConfig, i: nat)
    requires ValidFir(c) && i < |c.responses|
    ensures var d := EncodeFir(c).data;
      var o := FirResponseOffset(c, i);
      var r := c.responses[i];
      && FirResponseOffset(c, i + 1) == o + FIR_COEF_NHEADER + |r.coef| <= |d|
      && d[o] == |r.coef|
      && d[o + 1] == r.outShift
      && d[o + FIR_COEF_NHEADER .. o + FIR_COEF_NHEADER + |r.coef|] == r.coef
  {
    FirResponseBlock(c, i);
    FirResponseFields(EncodeFir(c).data, FirResponseOffset(c, i), FirResponseOffset(c, i + 1), c.responses[i]);
  }

  /** The last response ends exactly at the end of `data[]`. */
  lemma FirResponsesFillData(c: FirConfig)
    requires ValidFir(c)
    ensures FirResponseOffset(c, |c.responses|) == |EncodeFir(c).data|
  {
    assert c.responses[..|c.responses|] == c.responses;
  }

  /** Entry `k` of the assignment vector of a parsed blob selects the response
      stored at `FirResponseOffset(c, k)`. */
  lemma FirChannelSelectsResponse(b: FirBlob, c: FirConfig, ch: nat)
    requires DecodeFir(b) == Ok(c) && ch < b.channelsInConfig
    ensures var k := b.data[ch];
      && ch < |c.assign| && c.assign[ch] == k
      && 0 <= k < |c.responses|
      && FirResponseOffset(c, k) + FIR_COEF_NHEADER <= |b.data|
      && b.data[FirResponseOffset(c, k)] == |c.responses[k].coef|
      && b.data[FirResponseOffset(c, k) + 1] == c.responses[k].outShift
  {
    FirDecodeSound(b);
    FirResponseLayout(c, b.data[ch]);
  }

  // ---------------------------------------------------------------------------
  // Alignment

  /** The coefficient data begins on a 32-bit boundary exactly when the channel
      count is even. */
  lemma FirCoefDataAlignment(channels: nat)
    ensures (FIR_HEADER_BYTES + 2 * channels) % 4 == 0 <==> channels % 2 == 0
  {
  }

  lemma {:induction false} FirResponseWordsEven(rs: seq<FirResponse>)
    requires forall i | 0 <= i < |rs| :: |rs[i].coef| % 4 == 0
    ensures FirResponseWords(rs) % 2 == 0
  {
    if rs != [] {
      FirResponseWordsEven(rs[1..]);
      var k := |rs[0].coef| / 4;
      var m := FirResponseWords(rs[1..]) / 2;
      assert |rs[0].coef| == 4 * k;
      assert FirResponseWords(rs[1..]) == 2 * m;
      assert FirResponseWords(rs) == 2 * (1 + 2 * k + m);
    }
  }

  /** The responses before `i` take an even number of words. */
  lemma FirPrefixWordsEven(rs: seq<FirResponse>, i: nat)
    requires forall j | 0 <= j < |rs| :: |rs[j].coef| % 4 == 0
    requires i <= |rs|
    ensures FirResponseWords(rs[..i]) % 2 == 0
  {
    var pre := rs[..i];
    forall j | 0 <= j < |pre|
      ensures |pre[j].coef| % 4 == 0
    {
      assert pre[j] == rs[j];
    }
    FirResponseWordsEven(pre);
  }

  /** With an even channel count and every length a multiple of four, every
      response and its taps start on a 32-bit boundary of the blob. */
  lemma FirResponsesAligned(c: FirConfig, i: nat)
    requires |c.assign| % 2 == 0
    requires forall j | 0 <= j < |c.responses| :: |c.responses[j].coef| % 4 == 0
    requires i <= |c.responses|
    ensures FirResponseByteOffset(c, i) % 4 == 0
    ensures (FirResponseByteOffset(c, i) + 2 * FIR_COEF_NHEADER) % 4 == 0
  {
    FirPrefixWordsEven(c.responses, i);
    var a := |c.assign| / 2;
    var w := FirResponseWords(c.responses[..i]) / 2;
    assert |c.assign| == 2 * a;
    assert FirResponseWords(c.responses[..i]) == 2 * w;
    assert FirResponseOffset(c, i) == 2 * (a + w);
    assert FirResponseByteOffset(c, i) == 4 * (2 + a + w);
    assert FirResponseByteOffset(c, i) + 2 * FIR_COEF_NHEADER == 4 * (3 + a + w);
  }

  // ---------------------------------------------------------------------------
  // Example

  /** Two channels sharing one 4-tap response whose third tap is 0.5 in Q1.15. */
  lemma FirExample()
    ensures var c := FirConfig([0, 0], [FirResponse(0, [0, 0, 16384, 0])]);
      && ValidFir(c)
      && EncodeFir(c) == FirBlob(24, 2, 1, [0, 0, 4, 0, 0, 0, 16384, 0])
      && DecodeFir(FirBlob(24, 2, 1, [0, 0, 4, 0, 0, 0, 16384, 0])) == Ok(c)
  {
    var c := FirConfig([0, 0], [FirResponse(0, [0, 0, 16384, 0])]);
    assert EncodeFir(c).data == [0, 0] + ([4, 0] + [0, 0, 16384, 0]);
    FirRoundTrip(c);
  }
}
