/** Shared vocabulary of the receive-path model: optional values, results,
    bytes and the H.264 NAL header field the gates key on. */
module Common {

  datatype Option<+T> = None | Some(value: T)

  datatype Result<+T, +E> = Ok(value: T) | Err(error: E)

  /** One octet, the element type of every byte buffer in the model. */
  type byte = x: int | 0 <= x < 256

  /** `header & 0x1F`: the nal_unit_type field of an H.264 NAL unit header
      (ITU-T H.264 section 7.3.1). On an octet the mask keeps the low five bits. */
  function NalUnitType(header: byte): int {
    header % 32
  }

  /** The field is five bits wide and is what the mask leaves of the header:
      the two differ by a multiple of 32, so only the low five bits count. */
  lemma NalUnitTypeIsLowBits(header: byte)
    ensures 0 <= NalUnitType(header) < 32
    ensures (header - NalUnitType(header)) % 32 == 0
    ensures header < 32 ==> NalUnitType(header) == header
  {
  }

  const NAL_TYPE_IDR: int := 5
  const NAL_TYPE_SPS: int := 7
  const NAL_TYPE_PPS: int := 8

  /** `[0, 0, 0, 1]`, the four-byte Annex B start code (ITU-T H.264 Annex B). */
  const START_CODE: seq<byte> := [0, 0, 0, 1]

  /** Sequence concatenation is associative; stated once so that proofs about
      growing logs can use it without the solver rediscovering it. */
  lemma AppendAssoc<T>(a: seq<T>, b: seq<T>, c: seq<T>)
    ensures a + (b + c) == (a + b) + c
  {
  }
}
