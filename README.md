# serde_bytes_base64 in Dafny

`serde_bytes_base64` wraps a `Vec<u8>` in a struct `Bytes` whose serde
representation is one string: the standard, padded base64 encoding of the
bytes (alphabet `A-Z a-z 0-9 + /`, `=` padding; section 4 of RFC 4648).
`Bytes` dereferences to its bytes. It converts to and from `Vec<u8>`. It
has a default value, and two `Bytes` are equal when their bytes are.

The project has three modules:

- `Results` (`results.dfy`) defines the `Result` datatype.
- `Base64` (`base64.dfy`) specifies the encoding that the crate gets from
  `base64::encode` and `base64::decode`. Encoding has two steps:
  - `EncodeIndices` splits every group of three bytes into four 6-bit
    values. A final group of one or two bytes is filled with zero bits.
    These values are indices into Table 1 of the RFC, with index 64
    standing for the pad.
  - `Render` looks each index up as a character.

  `Decode` runs the two steps backwards, through `Parse` and then
  `DecodeIndices`. It is strict: only whole four-character groups are
  accepted, `=` may end only the last group, and a padded last group must
  carry zero in its unused bits. The main theorem is
  `Decode(t) == Ok(b) <==> t == Encode(b)`: decoding inverts encoding,
  and nothing but the encoding decodes.
- `SerdeBytes` (`bytes.dfy`) defines:
  - the `Bytes` datatype;
  - `Deref`, the two `From` conversions and `Default`;
  - the serde boundary, reduced to what the type sees of it. The
    serializer is handed one string. The deserializer offers one of three
    things: a string it can lend from its input, a string it cannot lend
    (one it had to build, for instance to resolve an escape), or a value
    that is not a string. `Deserialize` asks for a `&str`, so only the
    lent string gets as far as decoding. An error carries its cause: the
    framework's type error, or the decoder's error passed through
    `Error::custom`.

## Model

| member | source | states |
|---|---|---|
| SerdeBytes.Default | src/lib.rs:39-42 | the derived default wraps no bytes |
| SerdeBytes.Deref | src/lib.rs:44-47 | the view has the wrapped buffer's length and the same byte at every position |
| SerdeBytes.FromVec | src/lib.rs:49-51 | wrapping a vector gives a value that dereferences to exactly that vector |
| SerdeBytes.IntoVec | src/lib.rs:53-55 | unwrapping gives exactly the bytes `Deref` shows |
| SerdeBytes.ConversionRoundTrip | src/lib.rs:49-55 | `Vec<u8>` to `Bytes` and back, and `Bytes` to `Vec<u8>` and back, are both the identity |
| SerdeBytes.EqualityIsByteEquality | src/lib.rs:39-42 | derived equality holds exactly when the wrapped bytes are equal (both directions) |
| SerdeBytes.Serialize | src/lib.rs:57-63 | serializing always succeeds and emits one string, and that string decodes back to the wrapped bytes |
| SerdeBytes.Deserialize | src/lib.rs:65-73 | a non-string, or a string the deserializer cannot lend, fails with the framework's type error. For a lent string, the result is `Ok` exactly when the string decodes, and the wrapped bytes are then the decoded bytes. Otherwise the error is the decoder's error, wrapped. Anything accepted is the lent string that `Serialize` emits for the result |
| SerdeBytes.SerializeShape | src/lib.rs:60-61 | the emitted string has `4 * ceil(n / 3)` characters for `n` bytes. These are alphabet characters followed by exactly `PadLength(n)` (at most two) `=`. The string is empty exactly when there are no bytes |
| SerdeBytes.SerdeRoundTrip | src/lib.rs:57-73 | deserializing what `Serialize` emitted, lent back by the deserializer, gives back the same `Bytes` |
| SerdeBytes.DeserializeOnlyCanonical | src/lib.rs:65-73 | `Deserialize(input) == Ok(b)` holds exactly when `input` is the lent string `Serialize(b)` |
| SerdeBytes.DeserializeRejectsTransient | src/lib.rs:68 | the encoding of any `Bytes` is refused with the type error when the deserializer cannot lend it, and accepted when it can |
| SerdeBytes.DeserializeRejectsChar | src/lib.rs:68-70 | a character that is neither in the alphabet nor `=` makes deserialization fail with a base64 error |
| SerdeBytes.DeserializeRejectsLength | src/lib.rs:68-70 | a string whose length is not a multiple of four makes deserialization fail with a base64 error |
| SerdeBytes.DeserializeRejectsInnerPad | src/lib.rs:68-70 | an `=` before the last two characters makes deserialization fail with a base64 error |
| SerdeBytes.SerializeVector | src/lib.rs:83-87 | `[1, 2, 3]` serializes to the string `"AQID"` |
| SerdeBytes.DeserializeVector | src/lib.rs:89-93 | the string `"AQID"`, lent by the deserializer as `serde_json::from_str` lends an unescaped string, deserializes to `[1, 2, 3]` |
| SerdeBytes.DocExampleVector | src/lib.rs:27-31 | the twelve bytes of the crate documentation serialize to `"helloWorldBase64"` |
| SerdeBytes.EmptyVector | src/lib.rs:57-73 | the default value serializes to `""`, and a lent `""` deserializes to the default value |
| SerdeBytes.NotBase64Vector | src/lib.rs:68-70 | a lent `"not base64!"` fails to deserialize with the decoder's invalid-byte error |
| Base64.SextetChar | src/lib.rs:60 | every 6-bit value maps to an alphabet character |
| Base64.CharSextet | src/lib.rs:69 | every alphabet character maps to the value whose character it is |
| Base64.AlphabetTable | src/lib.rs:60 | the character of value `x` is entry `x` of the 64-character Table 1 string |
| Base64.AlphabetMembership | src/lib.rs:60 | the alphabet test accepts exactly the characters of Table 1 |
| Base64.SextetRoundTrip | src/lib.rs:60 | each value is recovered from its character, so no character is repeated |
| Base64.IndexChar | src/lib.rs:60 | an index maps to `=` exactly when it is the pad index |
| Base64.CharIndex | src/lib.rs:69 | a character has an index exactly when it is an alphabet character or `=`, and the index maps back to it |
| Base64.Render | src/lib.rs:60 | the text has one character per index, each the character of that index |
| Base64.Parse | src/lib.rs:69 | parsing succeeds exactly when every character has an index; the result has one index per character |
| Base64.ParseRender | src/lib.rs:60-69 | parsing a rendered index sequence gives it back |
| Base64.RenderParse | src/lib.rs:60-69 | a text that parses is the rendering of its indices |
| Base64.GroupIndices | src/lib.rs:60 | three bytes split into four 6-bit values, most significant first: read as one 24-bit number, the four values and the three bytes are the same number |
| Base64.GroupBytes | src/lib.rs:69 | four 6-bit values join into three bytes that, read as one 24-bit number, are the same number |
| Base64.GroupRoundTrip | src/lib.rs:60-69 | the four values of three bytes reassemble to those bytes |
| Base64.GroupCanonical | src/lib.rs:60-69 | the three bytes of four 6-bit values split back into those values |
| Base64.PadLength | src/lib.rs:60 | at most two pads, and none exactly when the byte count is a multiple of three |
| Base64.EncodeIndices | src/lib.rs:60 | `n` bytes give `4 * ceil(n / 3)` Table 1 indices; their values are pinned by `DecodeIsInverse`, `EncodeIndicesShape` and the vectors |
| Base64.EncodeIndicesShape | src/lib.rs:60 | the indices for `n` bytes are 6-bit values followed by exactly `PadLength(n)` pads, in whole groups of four |
| Base64.Encode | src/lib.rs:60 | standard padded base64 of section 4 of RFC 4648, with `4 * ceil(n / 3)` characters for `n` bytes; pinned by `DecodeIsInverse`, `EncodeShape` and the vectors |
| Base64.EncodeShape | src/lib.rs:60 | the encoding of `n` bytes has `4 * ceil(n / 3)` characters: alphabet characters, then `PadLength(n)` characters `=` |
| Base64.DecodeLastGroup | src/lib.rs:69 | a decoded last group holds one to three bytes |
| Base64.DecodeIndices | src/lib.rs:69 | indices decode only in whole groups of four, each group giving three bytes except the last, which gives one to three |
| Base64.Decode | src/lib.rs:69 | strict canonical decoding: a text decodes only in whole groups of four characters, to three bytes per group less at most two; `Ok(b)` exactly on `Encode(b)` (`DecodeIsInverse`) |
| Base64.DecodeEncodeIndices | src/lib.rs:60-69 | decoding the indices of the encoding of `b` gives `b` |
| Base64.DecodeEncode | src/lib.rs:60-69 | `Decode(Encode(b)) == Ok(b)` for every byte sequence |
| Base64.LastGroupCanonical | src/lib.rs:69 | a last group that decodes is the encoding of what it decodes to |
| Base64.EncodeDecodeIndices | src/lib.rs:69 | index sequences that decode are the encoding of their result |
| Base64.EncodeDecode | src/lib.rs:69 | a text that decodes is the encoding of its result |
| Base64.DecodeIsInverse | src/lib.rs:60-69 | `Decode(t) == Ok(b)` holds exactly when `t == Encode(b)` |
| Base64.DecodeRejectsLength | src/lib.rs:69 | a text whose length is not a multiple of four does not decode |
| Base64.DecodeRejectsChar | src/lib.rs:69 | a character outside the alphabet that is not `=` gives the invalid-byte error |
| Base64.DecodeRejectsInnerPad | src/lib.rs:69 | an `=` before the last two positions makes decoding fail |
| Base64.EncodeOneGroup | src/lib.rs:83-87 | `[1, 2, 3]` encodes to `"AQID"` |
| Base64.EncodeOneByte | src/lib.rs:60 | `[102]` (`"f"`) encodes to `"Zg=="`, the two-pad vector of section 10 of RFC 4648 |
| Base64.EncodeTwoBytes | src/lib.rs:60 | `[102, 111]` (`"fo"`) encodes to `"Zm8="`, the one-pad vector of section 10 of RFC 4648 |
| Base64.DecodePaddedVectors | src/lib.rs:69 | `"Zg=="` and `"Zm8="` decode to `[102]` and `[102, 111]` |
| Base64.EncodeDocExample | src/lib.rs:27-31 | the documentation's twelve bytes encode to `"helloWorldBase64"` |

## Left out

- The serde traits themselves (`Serializer`, `Deserializer`, visitors) are not modelled. The serializer is modelled as receiving one string. The deserializer is modelled as holding a string or a non-string.
- An error raised by the serializer itself is not modelled (`serialize_str` at src/lib.rs:61). The model's `Serialize` always succeeds.
- The JSON embedding used in the crate's tests and documentation is not modelled (the `{"val": ...}` record and `serde_json`). The vectors state the string value of the field.
- The derived `Debug` and `Clone` impls are left out: they print or copy and state nothing about the encoding.
- The `base64` crate's error values and their human-readable text are not modelled. `InvalidByte`, `InvalidLength` and `InvalidLastSymbol` are the model's own classification of why a text does not decode. The model also reads the text as characters, while the crate decodes the UTF-8 bytes of the `&str`. So a text with a non-ASCII character, such as `"éAAA"`, may get a different kind from the crate (four characters here, five bytes there). Whether a text decodes at all is the same either way, because the alphabet and `=` are ASCII.
- Base64.Decode: the `base64` crate's decoder is not part of this model. `Decode` is the strict canonical padded decoding of RFC 4648. When a text has several faults, the model does not claim to report the same one the crate reports first.
- SerdeBytes.DeserializeRejectsLength, SerdeBytes.DeserializeRejectsInnerPad, Base64.DecodeRejectsLength and Base64.DecodeRejectsInnerPad follow from choosing strict decoding, as does the failure direction of `SerdeBytes.Deserialize`'s "`Ok` exactly when the string decodes". src/lib.rs:68-70 does not show them. A decoder that treats padding as optional would accept `"AQ"` as `[1]`, where the model fails.
- SerdeBytes.Deserialize: `BorrowedStr` stands for a string the deserializer can lend, including lent bytes that are valid UTF-8. A string it has to copy, such as a JSON string with an escape or any input under `serde_json::from_value`, is a `TransientStr` and fails at src/lib.rs:68 with the type error. Lent bytes that are not valid UTF-8, which serde rejects with an invalid-value error, are not modelled.
- Ownership is not modelled (`&self`, the lifetime of the `&str` lent from the input, the moves in the `From` impls). Whether the input can lend the string at all is modelled, since it decides success (`BorrowedStr` and `TransientStr`).
- Encoding determinism needs no lemma: `Encode` is a function, so equal bytes always give equal strings.
