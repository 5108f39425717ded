# Sound Open Firmware EQ configuration blobs

A Dafny model of the two equalizer configuration blobs that
`include/uapi/sound/sof-eq.h` declares for Sound Open Firmware.

- **FIR blob.** `struct sof_eq_fir_config` holds `size`, `channels_in_config`,
  `number_of_responses` and an `int16_t data[]`. The data starts with the
  channel assignment vector. Then one `sof_eq_fir_coef_data` block
  `{length, out_shift, coef[length]}` follows per response.
- **IIR blob.** `struct sof_eq_iir_config` holds three 32-bit header words and
  an `int32_t data[]`. The data starts with the assignment vector, where `-1`
  leaves a channel unequalized. Then one `sof_eq_iir_header_df2t` follows per
  response, with its cascade of `sof_eq_iir_biquad_df2t` sections.

The header contains no code. It fixes a layout, its limits and the rules its
comments state. The model turns that layout into:

- typed configurations (`FirConfig`, `IirConfig`), and the blobs at struct
  level (`FirBlob`, `IirBlob`): the header fields plus the `data[]` words;
- `Valid*` predicates that state the documented rules;
- `Encode*` functions that lay a valid configuration out as a blob;
- `Decode*` functions that check a blob and walk its responses by offset,
  giving a typed error (`EqError`) when a rule is broken.

The main results:

- **Round trip:** decoding after encoding gives back the configuration.
- **Soundness:** a blob decodes only if it is exactly the encoding of a valid
  configuration. Together with the round trip this is an if-and-only-if.
- **Layout:** the word offset of every response is the channel count plus
  the sizes of the responses before it. Every field and every biquad sits
  where the header says.
- **Alignment:** the FIR coefficient data is 32-bit aligned.
- **Fixed-point constants:** the documented Q-format values are exact, with
  one exception, recorded under Findings.

Files:
- `eq_types.dfy` (`SofEqTypes`): C integer widths, the `uint32_t`/`int32_t`
  reinterpretation, Q formats and the error type.
- `eq_blocks.dfy` (`SofEqBlocks`): blocks of varying length laid end to end.
  It holds the walk that reads them back, with its soundness and completeness.
  Both blob kinds use it for their coefficient data.
- `eq_fir.dfy` (`SofEqFir`) and `eq_iir.dfy` (`SofEqIir`): the two blob kinds.

Readings chosen where the header leaves room:

- **`size`:** only the FIR comment describes it (sof-eq.h:29-31): "the
  number of bytes need to store the received EQ configuration". The model
  reads it as the whole struct's byte count, header included:
  8 + 2·|data| for FIR. The IIR comment does not list `size` at all; the
  field appears only in `struct sof_eq_iir_config` (sof-eq.h:125), and the
  model reads it the same way by analogy: 12 + 4·|data|. Measuring it from
  the first data word instead would shift the value by the header width and
  change nothing else in the model.
- **`SOF_EQ_*_MAX_SIZE`:** the header calls these the "max size allowed for
  coef data in bytes". The model applies them to the words after the
  assignment vector, not to the whole blob.
- **IIR assignment entries:** the comment types the IIR assignment vector as
  `uint32_t`, but the struct stores it in `int32_t data[]`. The model follows
  the struct, so an entry is `-1` or a response index.
- **FIR assignment entries:** the header documents no sentinel value. Every
  entry must name an existing response.

## Model

| member | source | states |
|---|---|---|
| SofEqTypes.AsU32 | include/uapi/sound/sof-eq.h:131-133 | a `uint32_t` header field overlaid on an `int32_t` data word reads as the same value when non-negative, and as 2^31 or more when negative |
| SofEqTypes.AsI32 | include/uapi/sound/sof-eq.h:131-133 | storing a `uint32_t` field in an `int32_t` word and reading it back gives the field; values below 2^31 are stored unchanged |
| SofEqTypes.ReinterpretBijection | include/uapi/sound/sof-eq.h:131-133 | the two views of a 32-bit word correspond one to one, in both directions |
| SofEqTypes.Q1_15 | include/uapi/sound/sof-eq.h:46-47 | a Q1.15 tap is a fraction in [-1, 1), and it is 0.5 exactly when the word is 16384 |
| SofEqTypes.Q2_30 | include/uapi/sound/sof-eq.h:108-112 | a Q2.30 coefficient lies in [-2, 2), and it is 1.0 exactly when the word is 1073741824 (2^30) |
| SofEqTypes.Q2_14 | include/uapi/sound/sof-eq.h:144 | a Q2.14 gain is 1.0 exactly when the word is 16384 (2^14), and a non-negative word gives a non-negative gain |
| SofEqBlocks.DecodeBlocks | include/uapi/sound/sof-eq.h:42-45 | walking `count` repeated blocks that succeeds yields exactly `count` records |
| SofEqBlocks.DecodeBlocksSound | include/uapi/sound/sof-eq.h:42-45 | a successful walk read only valid records, and the words it consumed are their encodings laid end to end |
| SofEqBlocks.DecodeBlocksComplete | include/uapi/sound/sof-eq.h:42-45 | walking the end-to-end encodings of valid records gives the records back, with the offset just past the last one |
| SofEqBlocks.FlatMapBlockAt | include/uapi/sound/sof-eq.h:42-45 | in a window holding blocks laid end to end, block `i` starts where the blocks before it end and holds its own encoding |
| SofEqFir.FirBlobBytes | include/uapi/sound/sof-eq.h:29-31 | the byte count of a FIR blob is at least its 8-byte header, and at least one byte more per `data[]` word |
| SofEqFir.FirBlobBytesWords | include/uapi/sound/sof-eq.h:29-31 | past the header, the byte count is a whole number of int16 words and gives the word count back; distinct word counts give distinct sizes |
| SofEqFir.ValidFir | include/uapi/sound/sof-eq.h:23-55 | a configuration meeting the documented rules (even channel count, lengths a multiple of four and at most 192, entries naming existing responses, at most 4096 bytes of coefficient data) has a byte count that fits the `uint32_t size` field |
| SofEqFir.EncodeFirResponse | include/uapi/sound/sof-eq.h:65-74 | a response block is `2 + length` words: `length`, then `out_shift`, then the taps |
| SofEqFir.FirResponsesLength | include/uapi/sound/sof-eq.h:42-46 | the coefficient data takes `2 + length` words per response |
| SofEqFir.EncodeFirResponses | include/uapi/sound/sof-eq.h:42-46 | the coefficient data is as long as the sum of `2 + length` over all responses |
| SofEqFir.EncodeFir | include/uapi/sound/sof-eq.h:27-41 | the built blob records the channel and response counts and its byte size, and begins `data[]` with the assignment vector |
| SofEqFir.DecodeFirResponse | include/uapi/sound/sof-eq.h:25 | a response it reads has a length that is a multiple of four and at most 192, and it ends `2 + length` words later, within the data, whose words are its encoding |
| SofEqFir.DecodeFir | include/uapi/sound/sof-eq.h:49-52 | an odd `channels_in_config` is rejected, and so is a `size` that is not the blob's byte count |
| SofEqFir.FirResponseFields | include/uapi/sound/sof-eq.h:65-69 | the words of a stored response block hold its `length`, then its `out_shift`, then its taps |
| SofEqFir.DecodeEncodeFirResponse | include/uapi/sound/sof-eq.h:71-74 | a valid response block is read back as that response wherever it is stored, with the offset just past its taps |
| SofEqFir.FirResponseReaderSound | include/uapi/sound/sof-eq.h:71-74 | the response reader accepts only valid responses, and only where their encoding is stored |
| SofEqFir.FirResponseReaderComplete | include/uapi/sound/sof-eq.h:71-74 | the response reader accepts every valid response wherever its encoding is stored |
| SofEqFir.FirRoundTrip | include/uapi/sound/sof-eq.h:27-74 | decoding the blob built from a valid configuration gives that configuration back |
| SofEqFir.FirDecodeAccepted | include/uapi/sound/sof-eq.h:23-55 | a blob that decodes has the right `size`, an even channel count, coefficient data of at most 4096 bytes, assignment entries that name existing responses, and valid responses whose encodings fill the rest of `data[]` |
| SofEqFir.FirDecodeSound | include/uapi/sound/sof-eq.h:27-74 | a blob decodes only to a valid configuration whose encoding is that very blob |
| SofEqFir.FirDecodeIff | include/uapi/sound/sof-eq.h:27-74 | a blob decodes to `c` if and only if `c` is valid and encodes to that blob |
| SofEqFir.FirResponseOffset | include/uapi/sound/sof-eq.h:42-46 | the first response starts right after the `channels_in_config` assignment entries, and response `i` starts at least two words per earlier response past them |
| SofEqFir.FirResponseWordsAtLeast | include/uapi/sound/sof-eq.h:42-46 | every response takes at least its two words `filter_length` and `output_shift` |
| SofEqFir.FirPrefixWordsStep | include/uapi/sound/sof-eq.h:42-46 | the responses up to `i` take the words of those before `i` plus `2 + length_i`, and no more than all responses |
| SofEqFir.FirResponseInWindow | include/uapi/sound/sof-eq.h:42-46 | in any window holding the coefficient data, response `i` lies after the `2 + length_j` words of every earlier response and holds its encoding |
| SofEqFir.FirResponseBlock | include/uapi/sound/sof-eq.h:42-46 | response `i` occupies the words from `channels + sum_{j<i}(2 + length_j)` to the next response's offset, and they hold its encoding |
| SofEqFir.FirResponseLayout | include/uapi/sound/sof-eq.h:65-74 | at the offset of response `i` the blob holds its `length`, its `out_shift` and its taps, and the next response starts right after |
| SofEqFir.FirResponsesFillData | include/uapi/sound/sof-eq.h:42-46 | the offset one past the last response is the end of `data[]` |
| SofEqFir.FirChannelSelectsResponse | include/uapi/sound/sof-eq.h:38-41 | in a decoded blob, assignment entry `k` of a channel names the `k`-th response, whose `length` and `out_shift` sit at that response's offset |
| SofEqFir.FirCoefDataAlignment | include/uapi/sound/sof-eq.h:49-52 | the coefficient data starts on a 32-bit boundary if and only if the channel count is even |
| SofEqFir.FirResponseWordsEven | include/uapi/sound/sof-eq.h:54-55 | with every length a multiple of four, the responses take an even number of words |
| SofEqFir.FirPrefixWordsEven | include/uapi/sound/sof-eq.h:54-55 | with every length a multiple of four, the responses before any `i` take an even number of words |
| SofEqFir.FirResponsesAligned | include/uapi/sound/sof-eq.h:49-55 | with an even channel count and every length a multiple of four, every response and its taps start on a 32-bit boundary of the blob |
| SofEqFir.FirExample | include/uapi/sound/sof-eq.h:38-47 | a two-channel blob with one 4-tap response holding 0.5 in Q1.15 is valid, has these exact 24 bytes of fields, and decodes back |
| SofEqIir.IirBlobBytes | include/uapi/sound/sof-eq.h:124-128 | the byte count of an IIR blob is at least its 12-byte header, and at least one byte more per `data[]` word |
| SofEqIir.IirBlobBytesWords | include/uapi/sound/sof-eq.h:124-128 | past the header, the byte count is a whole number of int32 words and gives the word count back; distinct word counts give distinct sizes |
| SofEqIir.ValidIir | include/uapi/sound/sof-eq.h:85-128 | a configuration meeting the documented rules (at most 8 responses of at most 11 biquads, entries `-1` or naming existing responses, at most 1024 bytes of coefficient data, a byte count that fits `size`) has channel and response counts that fit their `uint32_t` header fields |
| SofEqIir.EncodeBiquad | include/uapi/sound/sof-eq.h:137-145 | a biquad takes `SOF_EQ_IIR_NBIQUAD_DF2T` = 7 words |
| SofEqIir.DecodeBiquad | include/uapi/sound/sof-eq.h:137-145 | the section read from seven words encodes back to exactly those words, in the order a2, a1, b2, b1, b0, output_shift, output_gain |
| SofEqIir.BiquadRoundTrip | include/uapi/sound/sof-eq.h:137-145 | reading back an encoded section gives the section |
| SofEqIir.BiquadsLength | include/uapi/sound/sof-eq.h:152-156 | a cascade of `n` sections takes `7n` words |
| SofEqIir.EncodeBiquads | include/uapi/sound/sof-eq.h:152-156 | a cascade of `n` sections takes `7n` words |
| SofEqIir.DecodeBiquads | include/uapi/sound/sof-eq.h:104-116 | reading `n` sections yields `n` sections whose encoding is exactly the `7n` words read |
| SofEqIir.DecodeEncodeBiquads | include/uapi/sound/sof-eq.h:104-116 | reading back the words of a stored cascade gives the cascade |
| SofEqIir.EncodeIirResponse | include/uapi/sound/sof-eq.h:131-135 | a response block takes `SOF_EQ_IIR_NHEADER_DF2T + 7 * num_sections` words |
| SofEqIir.IirResponsesLength | include/uapi/sound/sof-eq.h:152-156 | the coefficient data takes `2 + 7 * num_sections` words per response |
| SofEqIir.EncodeIirResponses | include/uapi/sound/sof-eq.h:103-117 | the coefficient data is as long as the sum of `2 + 7 * num_sections` over all responses |
| SofEqIir.EncodeIir | include/uapi/sound/sof-eq.h:124-129 | the built blob records the channel and response counts and its byte size, and begins `data[]` with the assignment vector |
| SofEqIir.DecodeIirResponse | include/uapi/sound/sof-eq.h:147-150 | a response it reads has at most 11 sections, and it ends `2 + 7 * num_sections` words later, within the data, whose words are its encoding |
| SofEqIir.DecodeIir | include/uapi/sound/sof-eq.h:87 | more than 8 responses are rejected, and so is a `size` that is not the blob's byte count |
| SofEqIir.IirResponseFields | include/uapi/sound/sof-eq.h:131-135 | the words of a stored response block hold `num_sections`, then `num_sections_in_series` (both `uint32_t`), then the biquads |
| SofEqIir.DecodeEncodeIirResponse | include/uapi/sound/sof-eq.h:131-135 | a valid response block is read back as that response wherever it is stored, with the offset just past its last biquad |
| SofEqIir.IirResponseReaderSound | include/uapi/sound/sof-eq.h:131-135 | the response reader accepts only valid responses, and only where their encoding is stored |
| SofEqIir.IirResponseReaderComplete | include/uapi/sound/sof-eq.h:131-135 | the response reader accepts every valid response wherever its encoding is stored |
| SofEqIir.IirRoundTrip | include/uapi/sound/sof-eq.h:89-156 | decoding the blob built from a valid configuration gives that configuration back |
| SofEqIir.IirDecodeAccepted | include/uapi/sound/sof-eq.h:85-102 | a blob that decodes has the right `size`, at most 8 responses, coefficient data of at most 1024 bytes, assignment entries that are `-1` or name existing responses, and valid responses whose encodings fill the rest of `data[]` |
| SofEqIir.IirDecodeSound | include/uapi/sound/sof-eq.h:89-156 | a blob decodes only to a valid configuration whose encoding is that very blob |
| SofEqIir.IirDecodeIff | include/uapi/sound/sof-eq.h:89-156 | a blob decodes to `c` if and only if `c` is valid and encodes to that blob |
| SofEqIir.IirResponseOffset | include/uapi/sound/sof-eq.h:103-117 | the first response starts right after the `channels_in_config` assignment entries, and response `i` starts at least two words per earlier response past them |
| SofEqIir.IirResponseWordsAtLeast | include/uapi/sound/sof-eq.h:103-106 | every response takes at least its two words `num_biquads` and `num_biquads_in_series` |
| SofEqIir.IirPrefixWordsStep | include/uapi/sound/sof-eq.h:152-156 | the responses up to `i` take the words of those before `i` plus `2 + 7 * num_sections_i`, and no more than all responses |
| SofEqIir.IirResponseInWindow | include/uapi/sound/sof-eq.h:103-117 | in any window holding the coefficient data, response `i` lies after the words of every earlier response and holds its encoding |
| SofEqIir.IirResponseBlock | include/uapi/sound/sof-eq.h:103-117 | response `i` occupies the words from `channels + sum_{j<i}(2 + 7 * num_sections_j)` to the next response's offset, and they hold its encoding |
| SofEqIir.IirResponseLayout | include/uapi/sound/sof-eq.h:103-117 | at the offset of response `i` the blob holds `num_sections`, `num_sections_in_series` and the biquads, and the next response starts right after |
| SofEqIir.IirBiquadLayout | include/uapi/sound/sof-eq.h:104-116 | biquad `k` of response `i` is the seven words `2 + 7k` into the response, in the order a2, a1, b2, b1, b0, output_shift, output_gain |
| SofEqIir.IirChannelSelectsResponse | include/uapi/sound/sof-eq.h:99-102 | in a decoded blob, each assignment entry is `-1` (unequalized) or names the `k`-th response, whose `num_sections` sits at that response's offset |
| SofEqIir.DocumentedFlatGainIsNotUnity | include/uapi/sound/sof-eq.h:119-121 | the documented flat section has b0 = 1.0 in Q2.30, but its gain word 16484 is above 1.0 in Q2.14 |
| SofEqIir.FlatBiquadIsUnity | include/uapi/sound/sof-eq.h:119-121 | the corrected flat section has b0 = 1.0 and gain = 1.0, and every other term is 0 |
| SofEqIir.FlatResponseIsValid | include/uapi/sound/sof-eq.h:119-121 | a response of up to 11 flat sections, selected by every channel, is valid and decodes back from its blob, for every channel count whose blob size fits the `uint32_t size` field |

## Left out

- The FIR convolution and the IIR biquad sample processing: fixed-point DSP in
  firmware that is not part of this model. Q formats only give the words
  their real values.
- `SOF_EQ_*_ABI_VERSION` and `SOF_EQ_*_IDX_SWITCH`: checked by the control
  protocol layer, not by the blob layout.
- Byte order and the raw byte image: blobs are modelled at struct level. The
  header fields are integers and `data[]` is a sequence of 16- or 32-bit
  words, in native order.
- Rules the header does not state, none of which is enforced:
  - a non-zero channel count;
  - a non-zero FIR `length`;
  - at least one biquad per IIR response;
  - `num_sections_in_series` at most `num_sections`.
- Building a blob from an invalid configuration: the header defines no
  builder. `EncodeFir` and `EncodeIir` take only valid configurations.
  `FirDecodeIff` and `IirDecodeIff` say which blobs are their outputs.
- The order in which `DecodeFir` and `DecodeIir` check the rules: the header
  gives none. When a blob breaks several rules, only one of them is reported.
- SofEqFir.DecodeFir: its own contract names only two rejections. The full
  description of acceptance is `FirDecodeAccepted` together with
  `FirDecodeIff`.
- SofEqIir.DecodeIir: its own contract names only two rejections. The full
  description of acceptance is `IirDecodeAccepted` together with
  `IirDecodeIff`.

## Findings

| source | as written | input that shows it | evidently intended | confidence | as-written member | corrected member |
|---|---|---|---|---|---|---|
| include/uapi/sound/sof-eq.h:119-121 | the flat section's `output_gain` is written as 16484 and described as gain = 1.0 | `{0, 0, 0, 0, 1073741824, 0, 16484}`: 16484 / 2^14 is about 1.0061 in Q2.14 | 16384 = 2^14, which is exactly 1.0 in Q2.14 | not executed | SofEqIir.DocumentedFlatGainIsNotUnity | SofEqIir.FlatBiquadIsUnity |
