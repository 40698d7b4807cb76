# mydb record codec, in Dafny

This project models the binary record format of `mydb`, a log-structured
key-value store. The model covers the codec in `src/lib.rs`:

- a `Header` is 12 bytes: `timestamp`, `key_size` and `value_size`, each a
  little-endian `u32`, in that order;
- a `KeyValue` record is a header, then the key's bytes, then the value's
  bytes. Key and value are Rust `String`s, so both are well-formed UTF-8;
- `KeyValue::new` rejects a key or value whose byte length does not fit a
  `u32`. The key is checked first;
- `Header::encode`/`decode` and `KeyValue::encode`/`decode` write and parse
  these bytes. The error kinds are `DecodeError`, `KeyTooLong` and
  `ValueTooLong`.

Files:

- `bytes.dfy` (module `Bytes`): bytes, `u32` and the little-endian encoding
  behind `to_le_bytes` and `from_le_bytes`. Both directions of the round
  trip are proved, so the encoding is a bijection.
- `utf8.dfy` (module `Utf8`): well-formed UTF-8 as the byte syntax of
  RFC 3629 section 4 (`ValidUtf8`). It is proved equal to the set of
  encodings of scalar-value sequences, using the table in RFC 3629
  section 3. A Rust `String` is a byte sequence of this kind. `str::from_utf8`
  accepts exactly such bytes.
- `codec.dfy` (module `Codec`): the error type, `Header`, `KeyValue`, and the
  five operations with their properties.

`Header::encode` and `KeyValue::encode` build a local `Vec` one
`extend_from_slice` at a time. They are modelled as methods that extend a
local sequence the same way. Each method's `ensures` ties its result to a
specification function (`HeaderBytes`, `RecordBytes`), and the round-trip
lemmas are stated about those functions. The decoders and `KeyValue::new`
have no loops or mutation, so they are functions.

`KeyValue::decode` keeps the source's order of checks:

1. at least 12 bytes;
2. the header;
3. the key slice;
4. the key's UTF-8;
5. the length of what follows the key;
6. the value's UTF-8.

The key slice `buf[12..12 + key_size]` (src/lib.rs:97) is not bounds-checked.
When the buffer ends before the key does, Rust panics. The model gives this
its own outcome, `Panics`, next to `Returns(result)`. It is not treated as a
`DecodeError`.

Two behaviours of `KeyValue::decode` are worth noting:

- A buffer that ends inside the key panics. It does not fail with a decode
  error.
- A key that is not valid UTF-8 is reported as such, even when the total
  length is also wrong, because the key check comes first.

The types follow src/lib.rs:

- `Codec.Error` is the `Error` enum (src/lib.rs:1-6). Its `DecodeError`
  carries a `DecodeFailure` in place of the message text: which check
  failed, and the lengths that the message reports.
- `Codec.Result` is the `Result` alias (src/lib.rs:8).
- `Codec.Header` and `Codec.KeyValue` are the two structs (src/lib.rs:15-20,
  50-55). `Codec.Str` stands for `String`.
- `Codec.Outcome` adds the one panic that `KeyValue::decode` can reach
  (src/lib.rs:97) beside a returned `Result`.

## Model

| member | source | states |
|---|---|---|
| `Bytes.U32ToLeBytes` | src/lib.rs:27-29 | `to_le_bytes` of any `u32` is exactly 4 bytes |
| `Bytes.U32FromLeBytes` | src/lib.rs:43-45 | `from_le_bytes` accepts every 4-byte input, and `to_le_bytes` of its result gives that input back |
| `Bytes.U32RoundTrip` | src/lib.rs:27-29 | `from_le_bytes(to_le_bytes(x)) == x` for every `u32` |
| `Bytes.LeValue` | src/lib.rs:43-45 | the little-endian value of `n` bytes is below 256^n, so 4 bytes always give a `u32` |
| `Bytes.LeValueOfLeBytes` | src/lib.rs:27-29 | decoding the `n` little-endian bytes of any `x < 256^n` gives `x` back |
| `Bytes.LeBytesOfLeValue` | src/lib.rs:43-45 | re-encoding the value of any byte sequence gives the same bytes back (the encoding is injective) |
| `Utf8.ValidUtf8` | src/lib.rs:98-101 | the bytes `str::from_utf8` accepts and every `String` holds: they never start with a continuation byte and never end in the middle of a character |
| `Utf8.CharLength` | src/lib.rs:98-101 | a character recognised at the front is 1 to 4 bytes long, lies within the input, and never starts with a continuation byte, %xC0-C1 or %xF5-FF |
| `Utf8.EncodedScalarsAreValid` | src/lib.rs:53-54 | the UTF-8 encoding of any sequence of scalar values (the bytes of any Rust `String`) is well-formed |
| `Utf8.DecodeCharIsInverse` | src/lib.rs:98-101 | each well-formed character carries a scalar value (no surrogate, at most U+10FFFF), and is exactly that value's encoding |
| `Utf8.DecodeScalars` | src/lib.rs:98-101 | every well-formed byte sequence is the encoding of a sequence of scalar values |
| `Utf8.ValidIffEncoding` | src/lib.rs:112-115 | bytes pass the UTF-8 check if and only if they are the encoding of some sequence of scalar values |
| `Utf8.AsciiIsValid` | src/lib.rs:195-199 | byte sequences in the ASCII range, such as the alphanumeric keys and values of the random tests, are well-formed |
| `Codec.HeaderBytes` | src/lib.rs:22-30 | an encoded header is always exactly `HEADER_SIZE` = 12 bytes, whatever its fields |
| `Codec.EncodeHeader` | src/lib.rs:25-31 | the buffer is 12 bytes: bytes 0-3 are `timestamp`, 4-7 `key_size`, 8-11 `value_size`, each little-endian; decoding it gives the header back |
| `Codec.HeaderBytesExample` | src/lib.rs:27-29 | on one concrete header, each field's least significant byte comes first, fields in declaration order |
| `Codec.DecodeHeader` | src/lib.rs:33-47 | fails, with a decode error reporting the observed length, exactly when the input is not 12 bytes long |
| `Codec.DecodeHeaderInverse` | src/lib.rs:42-46 | every 12-byte buffer decodes, with no check of the sizes, and is the encoding of the header it decodes to |
| `Codec.HeaderRoundTrip` | src/lib.rs:131-135 | `Header::decode(Header::encode(h)) == Ok(h)` for every triple of `u32` |
| `Codec.NewKeyValue` | src/lib.rs:58-70 | `KeyTooLong` iff the key is longer than `u32::MAX`, whatever the value; `ValueTooLong` iff only the value is; `Ok` iff both fit, and then the record is returned unchanged and its lengths fit the header |
| `Codec.HeaderFor` | src/lib.rs:75-79 | the header written for a record carries its timestamp and the byte lengths of its key and value |
| `Codec.ErrorKindsByOperation` | src/lib.rs:1-6 | the decoders only ever fail with `DecodeError`, and `KeyValue::new` only with `KeyTooLong` or `ValueTooLong` |
| `Codec.RecordBytes` | src/lib.rs:74-83 | an encoded record is 12 + key length + value length bytes long |
| `Codec.EncodeKeyValue` | src/lib.rs:74-84 | the buffer is the header of (`timestamp`, key length, value length), then the key bytes, then the value bytes; decoding it gives the record back |
| `Codec.DecodeKeyValue` | src/lib.rs:86-122 | every record it returns has a key and a value whose lengths fit a `u32` |
| `Codec.RecordRoundTrip` | src/lib.rs:137-141 | `KeyValue::decode(kv.encode()) == Ok(kv)` for every record whose key and value fit a `u32` |
| `Codec.DecodeKeyValueSound` | src/lib.rs:86-122 | decoding succeeds only on the exact encoding of the record it returns |
| `Codec.DecodeAcceptsExactlyEncodings` | src/lib.rs:86-122 | a buffer decodes to a record if and only if it is the encoding of some representable record |
| `Codec.DecodeRejectsShortBuffer` | src/lib.rs:87-91 | a buffer shorter than 12 bytes is a decode error ("not enough data") |
| `Codec.DecodePanicsIffKeyOverruns` | src/lib.rs:93-97 | decoding panics if and only if the buffer holds a header but ends before `12 + key_size` |
| `Codec.DecodePanicExample` | src/lib.rs:97 | a lone 12-byte header announcing a 1-byte key panics |
| `Codec.DecodeRejectsBadKey` | src/lib.rs:97-101 | once the key is in bounds, a key that is not UTF-8 is a decode error, whatever the buffer's length |
| `Codec.DecodeRejectsWrongLength` | src/lib.rs:103-110 | with a well-formed key, a total length other than 12 + `key_size` + `value_size` is a decode error carrying the observed and expected value sizes |
| `Codec.DecodeRejectsBadValue` | src/lib.rs:112-115 | with the right length and a well-formed key, a value that is not UTF-8 is a decode error |

## Left out

- The store engine (`MyDB`, the keydir rebuild scan, `get`, `set`, the
  next-write offset) is not defined in `src/lib.rs`. `tests/mydb.rs` only
  drives it through files, so it is not part of this model.
- File handles, wall-clock timestamps, flush and sync are operating-system
  interaction and are not modelled.
- The text of `DecodeError` messages, including the embedded `Utf8Error`
  text, is not modelled. `DecodeFailure` records which check failed and the
  numbers the message reports.
- The random test-data generation of the unit tests is test scaffolding.
  Its fixed cases are covered by `Codec.HeaderRoundTrip` and
  `Codec.RecordRoundTrip` for all inputs.
- The `Encodable` trait is not modelled as a type. Each of its two
  implementations is a pair of members of `Codec`.
- `Codec.EncodeKeyValue`: the `u32::try_from(..).unwrap()` panic of
  `KeyValue::encode` on a record that does not fit is modelled as a
  precondition (`Representable`), not as a panic outcome. Records built by
  `KeyValue::new` always meet it (`Codec.NewKeyValue` ensures this).
- `Codec.DecodeKeyValue`: `usize` is taken to be 64 bits wide, so
  `12 + key_size` never overflows. On a 32-bit target it overflows only when
  `key_size` is above 2^32 - 13. A debug build then panics on the addition,
  and a release build panics on the slice `buf[12..wrapped]`, whose start is
  past its end. Either way the source panics, and the model also gives
  `Panics`, because `12 + key_size` exceeds the buffer's length there.
- `Vec::with_capacity` only pre-allocates memory and has no observable
  effect, so it is not modelled.
