/** Fixed-width integers, fixed-point formats and the error taxonomy shared by
    the FIR and IIR equalizer configuration blobs of Sound Open Firmware. */
module SofEqTypes {

  /** The C integer types of the blob fields. */
  type i16 = x: int | -0x8000 <= x < 0x8000
  type u16 = x: int | 0 <= x < 0x1_0000
  type i32 = x: int | -0x8000_0000 <= x < 0x8000_0000
  type u32 = x: int | 0 <= x < 0x1_0000_0000

  const U16_MAX: int := 0xFFFF
  const U32_MAX: int := 0xFFFF_FFFF

  /** Reads an `int32_t` data word as the `uint32_t` a header struct overlays on it
      (two's complement reinterpretation of the same 32 bits). */
  function AsU32(w: i32): (v: u32)
    ensures 0 <= w ==> v == w
    ensures w < 0 ==> 0x8000_0000 <= v
  {
    if w < 0 then w + 0x1_0000_0000 else w
  }

  /** Stores a `uint32_t` field into an `int32_t` data word; reading it back gives the field. */
  function AsI32(v: u32): (w: i32)
    ensures AsU32(w) == v
    ensures v < 0x8000_0000 ==> w == v
  {
    if v < 0x8000_0000 then v else v - 0x1_0000_0000
  }

  /** Both directions of the reinterpretation: the two views of a word are in bijection. */
  lemma ReinterpretBijection(v: u32, w: i32)
    ensures AsU32(w) == v <==> AsI32(v) == w
  {
  }

  /** Real value of a Q1.15 word (15 fractional bits): a fraction in [-1, 1),
      where 16384 stands for 0.5. */
  function Q1_15(x: i16): (v: real)
    ensures -1.0 <= v < 1.0
    ensures v == 0.5 <==> x == 16384
  {
    x as real / 32768.0
  }

  /** Real value of a Q2.30 word (30 fractional bits): a value in [-2, 2),
      where 0x4000_0000 stands for unity. */
  function Q2_30(x: i32): (v: real)
    ensures -2.0 <= v < 2.0
    ensures v == 1.0 <==> x == 0x4000_0000
  {
    x as real / 1073741824.0
  }

  /** Real value of a Q2.14 word (14 fractional bits): 16384 stands for unity. */
  function Q2_14(x: i32): (v: real)
    ensures v == 1.0 <==> x == 16384
    ensures 0 <= x ==> 0.0 <= v
  {
    x as real / 16384.0
  }

  /** Why a parse fails; the blob is rejected as a whole. */
  datatype EqError =
    | SizeMismatch          // the `size` field disagrees with the blob's byte count
    | BlobTooLarge          // coefficient data exceeds the kind's byte budget
    | InvalidChannelCount   // odd FIR channel count
    | InvalidResponseIndex  // an assignment entry selects no response
    | InvalidFilterLength   // FIR length not a multiple of four or above the maximum
    | InvalidCascadeShape   // IIR response with more biquads than allowed
    | TooManyResponses      // IIR response count above the maximum
    | TrailingData          // words left over after the last response
    | TruncatedInput        // the data ends inside a field or a coefficient array

  datatype Result<+T> = Ok(value: T) | Err(error: EqError)
}
