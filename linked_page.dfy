/**
  The 24-byte header shared by the linked pages of the store
  (GTWAOFPage+GTWAOFLinkedPage.h):

    bytes  0..4   structure cookie, e.g. "RDCT"
    bytes  4..8   padding
    bytes  8..16  timestamp, seconds since the epoch, big-endian
    bytes 16..24  id of the previous page of the chain, big-endian

  The payload of a linked page starts right after the header.
*/
module LinkedPage {
  import opened Bytes

  const LINKED_PAGE_HEADER_SIZE: nat := 24

  /** Two of the cookies in use, for the dictionary and the raw values. */
  const DICTIONARY_COOKIE: seq<byte> := [0x52, 0x44, 0x43, 0x54]  // "RDCT"
  const RAW_VALUE_COOKIE: seq<byte> := [0x52, 0x56, 0x41, 0x4C]   // "RVAL"

  /** previousPageID is an NSInteger: a signed 64-bit value. */
  const I64_MIN: int := -0x8000_0000_0000_0000
  const I64_LIMIT: int := 0x8000_0000_0000_0000

  /** The NSUInteger the codec returns, reinterpreted as an NSInteger. */
  function ToSigned(u: nat): (r: int)
    requires u < U64_LIMIT
    ensures I64_MIN <= r < I64_LIMIT
    ensures r % U64_LIMIT == u
  {
    if u < I64_LIMIT then u else u - U64_LIMIT
  }

  /** The two's-complement bit pattern of a signed 64-bit value. */
  function ToUnsigned(i: int): (r: nat)
    requires I64_MIN <= i < I64_LIMIT
    ensures r < U64_LIMIT
    ensures ToSigned(r) == i
  {
    if i >= 0 then i else i + U64_LIMIT
  }

  /** The decoded view of a linked-page header. */
  datatype LinkedHeader = LinkedHeader(cookie: seq<byte>, lastModified: nat, previousPageID: int)

  predicate ValidHeader(h: LinkedHeader)
  {
    |h.cookie| == 4 && h.lastModified < U64_LIMIT && I64_MIN <= h.previousPageID < I64_LIMIT
  }

  /** The header bytes a writer puts at the start of a linked page. */
  function EncodeHeader(h: LinkedHeader): (r: seq<byte>)
    requires ValidHeader(h)
    ensures |r| == LINKED_PAGE_HEADER_SIZE
    ensures r[..4] == h.cookie
    ensures r[4..8] == [0, 0, 0, 0]
  {
    h.cookie + [0, 0, 0, 0] + BigLongLongData(h.lastModified) + BigLongLongData(ToUnsigned(h.previousPageID))
  }

  /** The structure cookie, bytes 0 to 3. */
  function Cookie(data: seq<byte>): (r: seq<byte>)
    requires |data| >= LINKED_PAGE_HEADER_SIZE
    ensures |r| == 4 && r + data[4..] == data
  {
    data[..4]
  }

  /** lastModified: the 8-byte timestamp at bytes 8 to 15. */
  function LastModified(data: seq<byte>): (r: nat)
    requires |data| >= LINKED_PAGE_HEADER_SIZE
    ensures r < U64_LIMIT && BigLongLongData(r) == data[8..16]
  {
    var field := data[8..16];
    assert data[8..][..8] == field == field[..8];
    assert IntegerFromBigLongLong(data[8..]) == IntegerFromBigLongLong(field);
    BytesRoundTrip(field);
    IntegerFromBigLongLongRange(data, Range(8, 8))
  }

  /** previousPageID: the 8-byte integer at bytes 16 to 23, as an NSInteger. */
  function PreviousPageID(data: seq<byte>): (r: int)
    requires |data| >= LINKED_PAGE_HEADER_SIZE
    ensures I64_MIN <= r < I64_LIMIT && BigLongLongData(ToUnsigned(r)) == data[16..24]
  {
    var field := data[16..24];
    assert data[16..][..8] == field == field[..8];
    assert IntegerFromBigLongLong(data[16..]) == IntegerFromBigLongLong(field);
    BytesRoundTrip(field);
    ToSigned(IntegerFromBigLongLongRange(data, Range(16, 8)))
  }

  /** Reading back a written header gives every field back, whatever the payload. */
  lemma HeaderRoundTrip(h: LinkedHeader, payload: seq<byte>)
    requires ValidHeader(h)
    ensures Cookie(EncodeHeader(h) + payload) == h.cookie
    ensures LastModified(EncodeHeader(h) + payload) == h.lastModified
    ensures PreviousPageID(EncodeHeader(h) + payload) == h.previousPageID
    ensures (EncodeHeader(h) + payload)[LINKED_PAGE_HEADER_SIZE..] == payload
  {
    var data := EncodeHeader(h) + payload;
    var ts := BigLongLongData(h.lastModified);
    var prev := BigLongLongData(ToUnsigned(h.previousPageID));
    assert data[8..][..8] == ts == ts[..8];
    assert data[16..][..8] == prev == prev[..8];
    IntegerRoundTrip(h.lastModified);
    IntegerRoundTrip(ToUnsigned(h.previousPageID));
    assert IntegerFromBigLongLong(data[8..]) == IntegerFromBigLongLong(ts);
    assert IntegerFromBigLongLong(data[16..]) == IntegerFromBigLongLong(prev);
  }

  /**
    The decoders read nothing past the header and nothing of the padding:
    two pages that agree on the cookie, timestamp and previous-id bytes
    decode to the same fields.
  */
  lemma DecodersReadOnlyHeaderFields(data: seq<byte>, other: seq<byte>)
    requires |data| >= LINKED_PAGE_HEADER_SIZE && |other| >= LINKED_PAGE_HEADER_SIZE
    requires data[..4] == other[..4] && data[8..24] == other[8..24]
    ensures Cookie(data) == Cookie(other)
    ensures LastModified(data) == LastModified(other)
    ensures PreviousPageID(data) == PreviousPageID(other)
  {
    assert data[8..16] == data[8..24][..8] == other[8..24][..8] == other[8..16];
    assert data[16..24] == data[8..24][8..] == other[8..24][8..] == other[16..24];
  }
}
