/**
  The on-disk record format of the store (src/lib.rs): a fixed 12-byte
  `Header` of three little-endian `u32` fields, and a `KeyValue` record made
  of a header, the key's bytes and the value's bytes.
 */
module Codec {
  import opened Bytes
  import opened Utf8

  /** A Rust `String`: bytes that are well-formed UTF-8. */
  type Str = s: seq<Byte> | ValidUtf8(s) witness []

  /** What went wrong while decoding; the text of the source's messages is not modelled. */
  datatype DecodeFailure =
    | WrongHeaderSize(got: nat)                 // the header slice is not 12 bytes; `got` is its length
    | NotEnoughData                             // the buffer is too short to hold a header
    | BadKey                                    // the key bytes are not well-formed UTF-8
    | WrongValueSize(got: nat, expected: U32)   // the bytes after the key are `got` long, not the header's value size
    | BadValue                                  // the value bytes are not well-formed UTF-8

  datatype Error = DecodeError(failure: DecodeFailure) | KeyTooLong | ValueTooLong

  datatype Result<T> = Ok(value: T) | Err(error: Error)

  /**
    How a call ends: it returns a `Result`, or it panics (an out-of-bounds
    slice in the source), which is neither success nor a returned error.
   */
  datatype Outcome<T> = Returns(result: Result<T>) | Panics

  const HEADER_SIZE: nat := 12

  datatype Header = Header(timestamp: U32, keySize: U32, valueSize: U32)

  datatype KeyValue = KeyValue(timestamp: U32, key: Str, value: Str)

  /** The byte lengths of key and value fit the header's `u32` size fields. */
  predicate Representable(kv: KeyValue) {
    |kv.key| <= U32_MAX && |kv.value| <= U32_MAX
  }

  // ---------------------------------------------------------------- Header

  /** The 12 bytes of a header on disk: its three fields, each as 4 little-endian bytes. */
  function HeaderBytes(h: Header): (r: seq<Byte>)
    ensures |r| == HEADER_SIZE
  {
    U32ToLeBytes(h.timestamp) + U32ToLeBytes(h.keySize) + U32ToLeBytes(h.valueSize)
  }

  /** `Header::encode`: the buffer is filled field by field. */
  method EncodeHeader(h: Header) returns (buf: seq<Byte>)
    ensures buf == HeaderBytes(h)
    ensures |buf| == HEADER_SIZE
    ensures buf[0..4] == U32ToLeBytes(h.timestamp)
    ensures buf[4..8] == U32ToLeBytes(h.keySize)
    ensures buf[8..12] == U32ToLeBytes(h.valueSize)
    ensures DecodeHeader(buf) == Ok(h)
  {
    buf := [];
    buf := buf + U32ToLeBytes(h.timestamp);
    buf := buf + U32ToLeBytes(h.keySize);
    buf := buf + U32ToLeBytes(h.valueSize);
    HeaderRoundTrip(h);
  }

  /** `Header::decode`: any buffer of exactly 12 bytes is accepted, with no check of the sizes. */
  function DecodeHeader(buf: seq<Byte>): (r: Result<Header>)
    ensures r.Err? <==> |buf| != HEADER_SIZE
    ensures r.Err? ==> r.error == DecodeError(WrongHeaderSize(|buf|))
  {
    if |buf| != HEADER_SIZE then
      Err(DecodeError(WrongHeaderSize(|buf|)))
    else
      Ok(Header(U32FromLeBytes(buf[..4]), U32FromLeBytes(buf[4..8]), U32FromLeBytes(buf[8..])))
  }

  /** Decoding an encoded header gives it back. */
  lemma HeaderRoundTrip(h: Header)
    ensures DecodeHeader(HeaderBytes(h)) == Ok(h)
  {
    var buf := HeaderBytes(h);
    assert buf[..4] == U32ToLeBytes(h.timestamp);
    assert buf[4..8] == U32ToLeBytes(h.keySize);
    assert buf[8..] == U32ToLeBytes(h.valueSize);
    U32RoundTrip(h.timestamp);
    U32RoundTrip(h.keySize);
    U32RoundTrip(h.valueSize);
  }

  /** Every 12-byte buffer decodes, and is the encoding of the header it decodes to. */
  lemma DecodeHeaderInverse(buf: seq<Byte>)
    requires |buf| == HEADER_SIZE
    ensures DecodeHeader(buf).Ok?
    ensures HeaderBytes(DecodeHeader(buf).value) == buf
  {
  }

  /** The wire layout on one header: 10000 = 0x2710, then 1, then 0x01020304, each least significant byte first. */
  lemma HeaderBytesExample()
    ensures HeaderBytes(Header(10000, 1, 0x0102_0304))
         == [0x10, 0x27, 0, 0, 1, 0, 0, 0, 4, 3, 2, 1]
  {
  }

  // -------------------------------------------------------------- KeyValue

  /** `KeyValue::new`: the key is checked before the value; a record that passes is kept as given. */
  function NewKeyValue(timestamp: U32, key: Str, value: Str): (r: Result<KeyValue>)
    ensures r == Err(KeyTooLong) <==> |key| > U32_MAX
    ensures r == Err(ValueTooLong) <==> |key| <= U32_MAX < |value|
    ensures r.Ok? <==> |key| <= U32_MAX && |value| <= U32_MAX
    ensures r.Ok? ==> r.value == KeyValue(timestamp, key, value) && Representable(r.value)
  {
    if |key| > U32_MAX then Err(KeyTooLong)
    else if |value| > U32_MAX then Err(ValueTooLong)
    else Ok(KeyValue(timestamp, key, value))
  }

  /** The header a record is written with: its timestamp and the byte lengths of key and value. */
  function HeaderFor(kv: KeyValue): (h: Header)
    requires Representable(kv)
    ensures h.timestamp == kv.timestamp
    ensures h.keySize == |kv.key| && h.valueSize == |kv.value|
  {
    Header(kv.timestamp, |kv.key|, |kv.value|)
  }

  /** The bytes of a record on disk: header, then key, then value. */
  function RecordBytes(kv: KeyValue): (r: seq<Byte>)
    requires Representable(kv)
    ensures |r| == HEADER_SIZE + |kv.key| + |kv.value|
  {
    HeaderBytes(HeaderFor(kv)) + kv.key + kv.value
  }

  /**
    `KeyValue::encode`: the header's bytes, then the key's, then the value's,
    appended to one buffer. The source unwraps a `u32` conversion of each
    length, so a record that was not built by `KeyValue::new` and does not
    fit would panic; callers must pass a representable record.
   */
  method EncodeKeyValue(kv: KeyValue) returns (buf: seq<Byte>)
    requires Representable(kv)
    ensures buf == RecordBytes(kv)
    ensures |buf| == HEADER_SIZE + |kv.key| + |kv.value|
    ensures buf[..HEADER_SIZE] == HeaderBytes(Header(kv.timestamp, |kv.key|, |kv.value|))
    ensures buf[HEADER_SIZE..HEADER_SIZE + |kv.key|] == kv.key
    ensures buf[HEADER_SIZE + |kv.key|..] == kv.value
    ensures DecodeKeyValue(buf) == Returns(Ok(kv))
  {
    var header := Header(kv.timestamp, |kv.key|, |kv.value|);
    buf := EncodeHeader(header);
    buf := buf + kv.key;
    buf := buf + kv.value;
    RecordRoundTrip(kv);
  }

  /** The header at the front of a buffer of at least 12 bytes. */
  function HeaderOf(buf: seq<Byte>): Header
    requires |buf| >= HEADER_SIZE
  {
    DecodeHeader(buf[..HEADER_SIZE]).value
  }

  /**
    `KeyValue::decode`. The checks run in the source's order: enough bytes
    for a header, then the key slice (not bounds-checked: it panics when the
    buffer ends before the key does), then the key's UTF-8, then the length
    of what follows the key, then the value's UTF-8.
   */
  function DecodeKeyValue(buf: seq<Byte>): (r: Outcome<KeyValue>)
    ensures r.Returns? && r.result.Ok? ==> Representable(r.result.value)
  {
    if |buf| < HEADER_SIZE then
      Returns(Err(DecodeError(NotEnoughData)))
    else
      match DecodeHeader(buf[..HEADER_SIZE])
      case Err(e) => Returns(Err(e))
      case Ok(header) =>
        var offsetKey := HEADER_SIZE;
        var offsetValue := offsetKey + header.keySize;
        if offsetValue > |buf| then
          Panics
        else
          var key := buf[offsetKey..offsetValue];
          if !ValidUtf8(key) then
            Returns(Err(DecodeError(BadKey)))
          else
            var value := buf[offsetValue..];
            if |value| != header.valueSize then
              Returns(Err(DecodeError(WrongValueSize(|value|, header.valueSize))))
            else if !ValidUtf8(value) then
              Returns(Err(DecodeError(BadValue)))
            else
              Returns(Ok(KeyValue(header.timestamp, key, value)))
  }

  /** Decoding an encoded representable record gives it back. */
  lemma RecordRoundTrip(kv: KeyValue)
    requires Representable(kv)
    ensures DecodeKeyValue(RecordBytes(kv)) == Returns(Ok(kv))
  {
    var buf := RecordBytes(kv);
    var n := HEADER_SIZE + |kv.key|;
    assert buf[..HEADER_SIZE] == HeaderBytes(HeaderFor(kv));
    HeaderRoundTrip(HeaderFor(kv));
    assert buf[HEADER_SIZE..n] == kv.key;
    assert buf[n..] == kv.value;
  }

  /** Decoding succeeds only on the exact encoding of the record it returns. */
  lemma DecodeKeyValueSound(buf: seq<Byte>)
    requires DecodeKeyValue(buf).Returns? && DecodeKeyValue(buf).result.Ok?
    ensures RecordBytes(DecodeKeyValue(buf).result.value) == buf
  {
  }

  /** The buffers that decode to a record are exactly the encodings of representable records. */
  lemma DecodeAcceptsExactlyEncodings(buf: seq<Byte>)
    ensures (DecodeKeyValue(buf).Returns? && DecodeKeyValue(buf).result.Ok?)
        <==> exists kv :: Representable(kv) && RecordBytes(kv) == buf
  {
    if DecodeKeyValue(buf).Returns? && DecodeKeyValue(buf).result.Ok? {
      DecodeKeyValueSound(buf);
    }
    if exists kv :: Representable(kv) && RecordBytes(kv) == buf {
      var kv :| Representable(kv) && RecordBytes(kv) == buf;
      RecordRoundTrip(kv);
    }
  }

  /**
    The error kinds keep to their operations: decoding only ever fails with
    `DecodeError`, and `KeyValue::new` never does.
   */
  lemma ErrorKindsByOperation(buf: seq<Byte>, timestamp: U32, key: Str, value: Str)
    ensures DecodeHeader(buf).Err? ==> DecodeHeader(buf).error.DecodeError?
    ensures DecodeKeyValue(buf).Returns? && DecodeKeyValue(buf).result.Err?
        ==> DecodeKeyValue(buf).result.error.DecodeError?
    ensures NewKeyValue(timestamp, key, value).Err?
        ==> !NewKeyValue(timestamp, key, value).error.DecodeError?
  {
  }

  /** A buffer too short to hold a header is a decode error. */
  lemma DecodeRejectsShortBuffer(buf: seq<Byte>)
    requires |buf| < HEADER_SIZE
    ensures DecodeKeyValue(buf) == Returns(Err(DecodeError(NotEnoughData)))
  {
  }

  /** Decoding panics exactly when the header's key size runs past the end of the buffer. */
  lemma DecodePanicsIffKeyOverruns(buf: seq<Byte>)
    ensures DecodeKeyValue(buf).Panics?
        <==> |buf| >= HEADER_SIZE && HEADER_SIZE + HeaderOf(buf).keySize > |buf|
  {
  }

  /** A header alone that announces a one-byte key makes decoding panic rather than fail. */
  lemma DecodePanicExample()
    ensures DecodeKeyValue([0, 0, 0, 0, 1, 0, 0, 0, 0, 0, 0, 0]).Panics?
  {
    var zero: seq<Byte>, one: seq<Byte> := [0, 0, 0, 0], [1, 0, 0, 0];
    var buf := zero + one + zero;
    assert buf == [0, 0, 0, 0, 1, 0, 0, 0, 0, 0, 0, 0];
    assert buf[..HEADER_SIZE] == buf && buf[4..8] == one;
    assert LeValue(one) == 1;
  }

  /**
    Once the key is in bounds and well-formed, a buffer whose length is not
    12 + key size + value size is a decode error naming the value size.
   */
  lemma DecodeRejectsWrongLength(buf: seq<Byte>)
    requires |buf| >= HEADER_SIZE
    requires HEADER_SIZE + HeaderOf(buf).keySize <= |buf|
    requires ValidUtf8(buf[HEADER_SIZE..HEADER_SIZE + HeaderOf(buf).keySize])
    requires |buf| != HEADER_SIZE + HeaderOf(buf).keySize + HeaderOf(buf).valueSize
    ensures DecodeKeyValue(buf) == Returns(Err(DecodeError(WrongValueSize(
      |buf| - HEADER_SIZE - HeaderOf(buf).keySize, HeaderOf(buf).valueSize))))
  {
  }

  /** A malformed key is reported before the value size is looked at. */
  lemma DecodeRejectsBadKey(buf: seq<Byte>)
    requires |buf| >= HEADER_SIZE
    requires HEADER_SIZE + HeaderOf(buf).keySize <= |buf|
    requires !ValidUtf8(buf[HEADER_SIZE..HEADER_SIZE + HeaderOf(buf).keySize])
    ensures DecodeKeyValue(buf) == Returns(Err(DecodeError(BadKey)))
  {
  }

  /** A malformed value in a buffer of the right length is a decode error. */
  lemma DecodeRejectsBadValue(buf: seq<Byte>)
    requires |buf| >= HEADER_SIZE
    requires |buf| == HEADER_SIZE + HeaderOf(buf).keySize + HeaderOf(buf).valueSize
    requires ValidUtf8(buf[HEADER_SIZE..HEADER_SIZE + HeaderOf(buf).keySize])
    requires !ValidUtf8(buf[HEADER_SIZE + HeaderOf(buf).keySize..])
    ensures DecodeKeyValue(buf) == Returns(Err(DecodeError(BadValue)))
  {
  }
}
