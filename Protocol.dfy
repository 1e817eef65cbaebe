/**
  The wire protocol of the NexusCore server: the packed 8-byte packet header, its
  little-endian byte layout, the message identifiers, the error codes carried in
  response payloads and the server's size and port constants.
 */
module Protocol {

  import opened Wrappers

  type uint8 = x: int | 0 <= x < 0x100
  type uint16 = x: int | 0 <= x < 0x1_0000
  type uint32 = x: int | 0 <= x < 0x1_0000_0000
  type uint64 = x: int | 0 <= x < 0x1_0000_0000_0000_0000
  type int32 = x: int | -0x8000_0000 <= x < 0x8000_0000

  // ---------------------------------------------------------------------------
  // Packet header
  // ---------------------------------------------------------------------------

  /** The packed header that precedes every payload on the wire. */
  datatype PacketHeader = PacketHeader(packetId: uint16, payloadLength: uint16, crc32: uint32)

  /** Size of the packed header: two 16-bit fields and one 32-bit field, no padding. */
  const HEADER_SIZE: nat := 8

  /** The default constructor: every field is zero. */
  function DefaultHeader(): (h: PacketHeader)
    ensures h.packetId == 0 && h.payloadLength == 0 && h.crc32 == 0
  {
    PacketHeader(0, 0, 0)
  }

  /** The two- or three-argument constructor; the checksum defaults to zero. */
  function NewHeader(id: uint16, len: uint16, checksum: uint32 := 0): (h: PacketHeader)
    ensures h.packetId == id && h.payloadLength == len && h.crc32 == checksum
  {
    PacketHeader(id, len, checksum)
  }

  lemma NewHeaderWithoutChecksum(id: uint16, len: uint16)
    ensures NewHeader(id, len).crc32 == 0
    ensures NewHeader(id, len) == NewHeader(id, len, 0)
    ensures NewHeader(0, 0) == DefaultHeader()
  {
  }

  // ---------------------------------------------------------------------------
  // Little-endian byte layout
  // ---------------------------------------------------------------------------

  function U16ToBytes(x: uint16): (r: seq<uint8>)
    ensures |r| == 2
  {
    [x % 0x100, x / 0x100]
  }

  function U16FromBytes(lo: uint8, hi: uint8): uint16
  {
    lo + 0x100 * hi
  }

  function U32ToBytes(x: uint32): (r: seq<uint8>)
    ensures |r| == 4
  {
    U16ToBytes(x % 0x1_0000) + U16ToBytes(x / 0x1_0000)
  }

  function U32FromBytes(b0: uint8, b1: uint8, b2: uint8, b3: uint8): uint32
  {
    U16FromBytes(b0, b1) + 0x1_0000 * U16FromBytes(b2, b3)
  }

  /** The in-memory image of the packed header on a little-endian target. */
  function Encode(h: PacketHeader): (r: seq<uint8>)
    ensures |r| == HEADER_SIZE
    ensures r[0..2] == U16ToBytes(h.packetId)
    ensures r[2..4] == U16ToBytes(h.payloadLength)
    ensures r[4..8] == U32ToBytes(h.crc32)
  {
    U16ToBytes(h.packetId) + U16ToBytes(h.payloadLength) + U32ToBytes(h.crc32)
  }

  /** Reads a header from the front of a byte buffer; a buffer shorter than a header yields None. */
  function Decode(b: seq<uint8>): (r: Option<PacketHeader>)
    ensures r.Some? <==> |b| >= HEADER_SIZE
  {
    if |b| < HEADER_SIZE then None
    else Some(PacketHeader(U16FromBytes(b[0], b[1]),
                           U16FromBytes(b[2], b[3]),
                           U32FromBytes(b[4], b[5], b[6], b[7])))
  }

  lemma U16FromToBytes(x: uint16)
    ensures U16FromBytes(U16ToBytes(x)[0], U16ToBytes(x)[1]) == x
  {
  }

  lemma {:induction false} U16ToFromBytes(lo: uint8, hi: uint8)
    ensures U16ToBytes(U16FromBytes(lo, hi)) == [lo, hi]
  {
    DivModByteUnique(lo + 0x100 * hi, hi, lo);
  }

  lemma {:induction false} U32FromToBytes(x: uint32)
    ensures var b := U32ToBytes(x); U32FromBytes(b[0], b[1], b[2], b[3]) == x
  {
    U16FromToBytes(x % 0x1_0000);
    U16FromToBytes(x / 0x1_0000);
  }

  lemma {:induction false} U32ToFromBytes(b0: uint8, b1: uint8, b2: uint8, b3: uint8)
    ensures U32ToBytes(U32FromBytes(b0, b1, b2, b3)) == [b0, b1, b2, b3]
  {
    var lo := U16FromBytes(b0, b1);
    var hi := U16FromBytes(b2, b3);
    var x := U32FromBytes(b0, b1, b2, b3);
    DivModHalfWordUnique(x, hi, lo);
    assert x % 0x1_0000 == lo && x / 0x1_0000 == hi;
    U16ToFromBytes(b0, b1);
    U16ToFromBytes(b2, b3);
    assert U32ToBytes(x) == U16ToBytes(lo) + U16ToBytes(hi);
  }

  /** Division by 256 has a unique quotient and remainder. */
  lemma DivModByteUnique(x: int, q: int, r: int)
    requires 0 <= r < 0x100 && x == q * 0x100 + r
    ensures x / 0x100 == q && x % 0x100 == r
  {
  }

  /** Division by 65536 has a unique quotient and remainder. */
  lemma DivModHalfWordUnique(x: int, q: int, r: int)
    requires 0 <= r < 0x1_0000 && x == q * 0x1_0000 + r
    ensures x / 0x1_0000 == q && x % 0x1_0000 == r
  {
  }

  /** Decoding the header image recovers the header, whatever payload follows it. */
  lemma {:induction false} DecodeEncode(h: PacketHeader, payload: seq<uint8>)
    ensures Decode(Encode(h) + payload) == Some(h)
  {
    var b := Encode(h) + payload;
    assert b[0..8] == Encode(h);
    var id := U16ToBytes(h.packetId);
    var len := U16ToBytes(h.payloadLength);
    var crc := U32ToBytes(h.crc32);
    assert b[0] == id[0] && b[1] == id[1];
    assert b[2] == len[0] && b[3] == len[1];
    assert b[4] == crc[0] && b[5] == crc[1] && b[6] == crc[2] && b[7] == crc[3];
    U16FromToBytes(h.packetId);
    U16FromToBytes(h.payloadLength);
    U32FromToBytes(h.crc32);
  }

  /** Every 8-byte image is the image of the header decoded from it: the layout has no unused bits. */
  lemma {:induction false} EncodeDecode(b: seq<uint8>)
    requires |b| >= HEADER_SIZE
    ensures Decode(b).Some? && Encode(Decode(b).value) == b[..HEADER_SIZE]
  {
    U16ToFromBytes(b[0], b[1]);
    U16ToFromBytes(b[2], b[3]);
    U32ToFromBytes(b[4], b[5], b[6], b[7]);
  }

  /** Distinct headers have distinct images. */
  lemma {:induction false} EncodeInjective(h1: PacketHeader, h2: PacketHeader)
    requires Encode(h1) == Encode(h2)
    ensures h1 == h2
  {
    DecodeEncode(h1, []);
    DecodeEncode(h2, []);
    assert Encode(h1) + [] == Encode(h2) + [];
  }

  // ---------------------------------------------------------------------------
  // Message identifiers
  // ---------------------------------------------------------------------------

  const LOGIN_REQ: uint16 := 1001
  const LOGIN_RES: uint16 := 1002
  const LOGOUT_REQ: uint16 := 1003
  const LOGOUT_RES: uint16 := 1004
  const HEARTBEAT_REQ: uint16 := 1005
  const HEARTBEAT_RES: uint16 := 1006

  const ENTER_ROOM_REQ: uint16 := 2001
  const ENTER_ROOM_RES: uint16 := 2002
  const NEW_USER_IN_ROOM_NTF: uint16 := 2003
  const LEAVE_ROOM_REQ: uint16 := 2004
  const USER_LEFT_ROOM_NTF: uint16 := 2005
  const ROOM_CHAT_REQ: uint16 := 2006
  const ROOM_CHAT_NTF: uint16 := 2007

  const FILE_UPLOAD_REQ: uint16 := 3001
  const FILE_UPLOAD_RES: uint16 := 3002
  const FILE_CHUNK_SEND: uint16 := 3003
  const FILE_UPLOAD_COMPLETE_NTF: uint16 := 3004

  const ADMIN_USER_LIST_REQ: uint16 := 9001
  const ADMIN_USER_LIST_RES: uint16 := 9002
  const KICK_USER_REQ: uint16 := 9003
  const KICK_USER_RES: uint16 := 9004

  /** Every message identifier the protocol defines, in declaration order. */
  const PACKET_IDS: seq<uint16> :=
    [LOGIN_REQ, LOGIN_RES, LOGOUT_REQ, LOGOUT_RES, HEARTBEAT_REQ, HEARTBEAT_RES,
     ENTER_ROOM_REQ, ENTER_ROOM_RES, NEW_USER_IN_ROOM_NTF, LEAVE_ROOM_REQ,
     USER_LEFT_ROOM_NTF, ROOM_CHAT_REQ, ROOM_CHAT_NTF,
     FILE_UPLOAD_REQ, FILE_UPLOAD_RES, FILE_CHUNK_SEND, FILE_UPLOAD_COMPLETE_NTF,
     ADMIN_USER_LIST_REQ, ADMIN_USER_LIST_RES, KICK_USER_REQ, KICK_USER_RES]

  /** The request messages that are answered by a response message, paired with that response. */
  const REQUEST_RESPONSE_PAIRS: seq<(uint16, uint16)> :=
    [(LOGIN_REQ, LOGIN_RES), (LOGOUT_REQ, LOGOUT_RES), (HEARTBEAT_REQ, HEARTBEAT_RES),
     (ENTER_ROOM_REQ, ENTER_ROOM_RES), (FILE_UPLOAD_REQ, FILE_UPLOAD_RES),
     (ADMIN_USER_LIST_REQ, ADMIN_USER_LIST_RES), (KICK_USER_REQ, KICK_USER_RES)]

  lemma PacketIdsDistinct()
    ensures |PACKET_IDS| == 21 && Distinct(PACKET_IDS)
  {
  }

  /** Each response identifier is its request identifier plus one. */
  lemma ResponseFollowsRequest()
    ensures forall i :: 0 <= i < |REQUEST_RESPONSE_PAIRS| ==>
      REQUEST_RESPONSE_PAIRS[i].1 == REQUEST_RESPONSE_PAIRS[i].0 + 1
    ensures forall i :: 0 <= i < |REQUEST_RESPONSE_PAIRS| ==>
      REQUEST_RESPONSE_PAIRS[i].0 in PACKET_IDS && REQUEST_RESPONSE_PAIRS[i].1 in PACKET_IDS
  {
  }

  // ---------------------------------------------------------------------------
  // Error codes
  // ---------------------------------------------------------------------------

  const SUCCESS: int32 := 0
  const INVALID_USER_ID: int32 := 1001
  const INVALID_PASSWORD: int32 := 1002
  const USER_ALREADY_LOGGED_IN: int32 := 1003
  const ROOM_NOT_FOUND: int32 := 2001
  const ROOM_FULL: int32 := 2002
  const INVALID_ROOM_PASSWORD: int32 := 2003
  const FILE_TOO_LARGE: int32 := 3001
  const INVALID_FILE_FORMAT: int32 := 3002
  const INSUFFICIENT_PERMISSION: int32 := 9001

  const ERROR_CODES: seq<int32> :=
    [SUCCESS, INVALID_USER_ID, INVALID_PASSWORD, USER_ALREADY_LOGGED_IN,
     ROOM_NOT_FOUND, ROOM_FULL, INVALID_ROOM_PASSWORD,
     FILE_TOO_LARGE, INVALID_FILE_FORMAT, INSUFFICIENT_PERMISSION]

  lemma ErrorCodesDistinct()
    ensures |ERROR_CODES| == 10 && Distinct(ERROR_CODES)
    ensures forall i :: 1 <= i < |ERROR_CODES| ==> ERROR_CODES[i] != SUCCESS
  {
  }

  // ---------------------------------------------------------------------------
  // Server configuration constants
  // ---------------------------------------------------------------------------

  const SERVER_PORT: uint16 := 9000
  const ADMIN_PORT: uint16 := 9001
  const MAX_PACKET_SIZE: uint64 := 65536
  const RECV_BUFFER_SIZE: uint64 := 4096
  const SEND_BUFFER_SIZE: uint64 := 4096
  const MAX_CLIENTS: int32 := 1000
  const MAX_ROOMS: int32 := 100
  const MAX_FILE_SIZE: uint64 := 100 * 1024 * 1024

  /** The largest payload that fits beside a header in a maximum-size packet. */
  const MAX_PAYLOAD_LENGTH: nat := MAX_PACKET_SIZE - HEADER_SIZE

  /** Bytes on the wire for a frame with this header: header plus the announced payload. */
  function FrameLength(h: PacketHeader): nat
  {
    HEADER_SIZE + h.payloadLength
  }

  predicate FitsInMaxPacket(h: PacketHeader)
  {
    FrameLength(h) <= MAX_PACKET_SIZE
  }

  /** A frame fits exactly when the announced payload is at most 65528 bytes. */
  lemma FitsInMaxPacketIff(h: PacketHeader)
    ensures FitsInMaxPacket(h) <==> h.payloadLength <= MAX_PAYLOAD_LENGTH
    ensures MAX_PAYLOAD_LENGTH == 65528
  {
  }

  /** The 16-bit length field can announce payloads that no maximum-size packet holds. */
  lemma LengthFieldExceedsMaxPayload()
    ensures forall len: uint16 :: len > MAX_PAYLOAD_LENGTH ==> !FitsInMaxPacket(NewHeader(0, len))
    ensures !FitsInMaxPacket(NewHeader(0, 0xFFFF))
  {
  }

  lemma ConfigBounds()
    ensures RECV_BUFFER_SIZE <= MAX_PACKET_SIZE && SEND_BUFFER_SIZE <= MAX_PACKET_SIZE
    ensures HEADER_SIZE < RECV_BUFFER_SIZE && HEADER_SIZE < SEND_BUFFER_SIZE
    ensures MAX_FILE_SIZE == 104857600
    ensures SERVER_PORT != ADMIN_PORT
  {
  }
}
