/** The DDP packet serialiser: a 10-byte header (fixed flags, id and status bytes, a
    big-endian 32-bit sequence number and a big-endian 16-bit length) followed by the
    pixel data. */
module Ddp {
  import opened Common

  const DDP_PORT: u16 := 4048

  /** Flags (type 1, version 1), source id, status, and the fixed fourth byte. */
  const HEADER_PREFIX: seq<byte> := [0x41, 0x01, 0x00, 0x01]
  const HEADER_SIZE: nat := 10

  /** What a packet carries. The length field is written as given: nothing ties it to
      the size of the pixel data. */
  datatype DdpPacket = DdpPacket(sequenceNum: u32, length: u16, pixelData: seq<byte>)

  /** The bytes of a packet. */
  function Serialize(p: DdpPacket): (bytes: seq<byte>)
    ensures |bytes| == HEADER_SIZE + |p.pixelData|
    ensures bytes[..4] == HEADER_PREFIX && bytes[HEADER_SIZE..] == p.pixelData
  {
    HEADER_PREFIX + BeBytesU32(p.sequenceNum) + BeBytesU16(p.length) + p.pixelData
  }

  /** Reads a packet back: present exactly when the bytes hold a full header that starts
      with the fixed prefix. */
  function Deserialize(bytes: seq<byte>): (r: Option<DdpPacket>)
    ensures r.Some? <==> |bytes| >= HEADER_SIZE && bytes[..4] == HEADER_PREFIX
    ensures r.Some? ==> r.value.pixelData == bytes[HEADER_SIZE..]
  {
    if |bytes| >= HEADER_SIZE && bytes[..4] == HEADER_PREFIX then
      Some(DdpPacket(BeU32(bytes[4..8]), BeU16(bytes[8..10]), bytes[HEADER_SIZE..]))
    else None
  }

  /** Reading a serialised packet gives back its sequence number, length and data. */
  lemma DeserializeSerialize(p: DdpPacket)
    ensures Deserialize(Serialize(p)) == Some(p)
  {
    var bytes := Serialize(p);
    assert bytes[4..8] == BeBytesU32(p.sequenceNum);
    assert bytes[8..10] == BeBytesU16(p.length);
    BeU32RoundTrip(p.sequenceNum);
    BeU16RoundTrip(p.length);
  }

  /** Every well-formed packet is the serialisation of what it reads as. */
  lemma SerializeDeserialize(bytes: seq<byte>)
    requires Deserialize(bytes).Some?
    ensures Serialize(Deserialize(bytes).value) == bytes
  {
    BeBytesU32OfDecode(bytes[4..8]);
    BeBytesU16OfDecode(bytes[8..10]);
    assert bytes == bytes[..4] + bytes[4..8] + bytes[8..10] + bytes[HEADER_SIZE..];
  }

  /** create_ddp_packet: the header bytes, then the sequence number and length in
      big-endian order, then the pixel data, each appended to one buffer. */
  method CreateDdpPacket(sequenceNum: u32, length: u16, pixelData: seq<byte>) returns (header: seq<byte>)
    ensures header == Serialize(DdpPacket(sequenceNum, length, pixelData))
  {
    header := [0x41, 0x01, 0x00, 0x01];
    header := header + BeBytesU32(sequenceNum);
    header := header + BeBytesU16(length);
    header := header + pixelData;
  }

  /** Sequence number 1, length 3, three bytes of pixel data. */
  lemma CreateExample()
    ensures Serialize(DdpPacket(1, 3, [0xFF, 0x00, 0x80]))
         == [0x41, 0x01, 0x00, 0x01, 0, 0, 0, 1, 0, 3, 0xFF, 0x00, 0x80]
  {
  }
}
