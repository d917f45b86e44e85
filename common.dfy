/** Machine integer widths, failure-carrying wrappers and the byte-order codecs
    shared by the sequence-file reader and the packet serialiser. */
module Common {

  const U16_LIMIT: int := 0x1_0000
  const U32_LIMIT: int := 0x1_0000_0000
  /** usize, taken to be 64 bits wide */
  const USIZE_LIMIT: int := 0x1_0000_0000_0000_0000

  type byte = x: int | 0 <= x < 256
  type u16 = x: int | 0 <= x < U16_LIMIT
  type u32 = x: int | 0 <= x < U32_LIMIT
  type i32 = x: int | -0x8000_0000 <= x < 0x8000_0000

  datatype Option<+T> = None | Some(value: T)

  datatype Result<+T, +E> = Ok(value: T) | Err(error: E) {

    predicate IsFailure() {
      Err?
    }

    function PropagateFailure<U>(): Result<U, E>
      requires Err?
    {
      Err(error)
    }

    function Extract(): T
      requires Ok?
    {
      value
    }
  }

  /** u32::from_le_bytes over a 4-byte slice */
  function LeU32(s: seq<byte>): (r: u32)
    requires |s| == 4
  {
    (s[0] as int) + 0x100 * (s[1] as int) + 0x1_0000 * (s[2] as int) + 0x100_0000 * (s[3] as int)
  }

  /** u32::to_be_bytes */
  function BeBytesU32(x: u32): (s: seq<byte>)
    ensures |s| == 4
  {
    [x / 0x100_0000, (x / 0x1_0000) % 256, (x / 0x100) % 256, x % 256]
  }

  /** u16::to_be_bytes */
  function BeBytesU16(x: u16): (s: seq<byte>)
    ensures |s| == 2
  {
    [x / 0x100, x % 256]
  }

  /** u32::from_be_bytes */
  function BeU32(s: seq<byte>): (r: u32)
    requires |s| == 4
  {
    0x100_0000 * (s[0] as int) + 0x1_0000 * (s[1] as int) + 0x100 * (s[2] as int) + s[3]
  }

  /** u16::from_be_bytes */
  function BeU16(s: seq<byte>): (r: u16)
    requires |s| == 2
  {
    0x100 * (s[0] as int) + s[1]
  }

  /** Reading big-endian bytes back gives the number that was written. */
  lemma BeU32RoundTrip(x: u32)
    ensures BeU32(BeBytesU32(x)) == x
  {
    var s := BeBytesU32(x);
    assert x == 0x100_0000 * (s[0] as int) + 0x1_0000 * ((x / 0x1_0000) % 256) + x % 0x1_0000;
    assert x % 0x1_0000 == 0x100 * (s[2] as int) + s[3];
  }

  lemma BeU16RoundTrip(x: u16)
    ensures BeU16(BeBytesU16(x)) == x
  {
  }

  /** Every 4 bytes are the big-endian encoding of the number they decode to. */
  lemma BeBytesU32OfDecode(s: seq<byte>)
    requires |s| == 4
    ensures BeBytesU32(BeU32(s)) == s
  {
    var x := BeU32(s);
    assert x / 0x1_0000 == 0x100 * (s[0] as int) + s[1];
    assert x / 0x100 == 0x1_0000 * (s[0] as int) + 0x100 * (s[1] as int) + s[2];
  }

  lemma BeBytesU16OfDecode(s: seq<byte>)
    requires |s| == 2
    ensures BeBytesU16(BeU16(s)) == s
  {
  }
}
