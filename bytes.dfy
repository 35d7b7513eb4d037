/**
 * The `Bytes` wrapper around a byte buffer and its serde representation:
 * the buffer travels as one string holding its standard base64 encoding.
 * The serde framework is reduced to what this type sees of it: the
 * serializer takes one string, and the deserializer offers a string that it
 * can lend from its input, a string it cannot lend (one it has to build, for
 * instance to resolve an escape), or a value that is not a string.
 */
module SerdeBytes {
  import opened Results
  import opened Base64

  /** `Bytes { val: Vec<u8> }`; equality is equality of the wrapped bytes. */
  datatype Bytes = Bytes(val: seq<byte>)

  /** What the deserializer offers at the field's position. `Deserialize`
      asks for a `&str`, so only a string borrowed from the input is accepted. */
  datatype Value =
    | BorrowedStr(s: string)  // a string lent from the input, or lent bytes that are valid UTF-8
    | TransientStr(s: string) // a string the deserializer had to build and cannot lend
    | NonString               // a number, a map, a sequence, ...: anything else

  /** Why deserialization failed. */
  datatype Cause =
    | InvalidType                        // the framework's own type error from `<&str>::deserialize`
    | InvalidBase64(reason: DecodeError) // the base64 decoder's error, passed on through `Error::custom`

  /** The deserializer's error type: one error carrying its cause. */
  datatype Error = Error(cause: Cause)

  /** `Default`: the wrapper around no bytes. */
  function Default(): (d: Bytes)
    ensures |d.val| == 0
  {
    Bytes([])
  }

  /** `Deref` to a read-only view of the bytes. */
  function Deref(b: Bytes): (view: seq<byte>)
    ensures |view| == |b.val|
    ensures forall i :: 0 <= i < |view| ==> view[i] == b.val[i]
  {
    b.val
  }

  /** `From<Vec<u8>> for Bytes`: wraps the buffer as it is. */
  function FromVec(v: seq<byte>): (b: Bytes)
    ensures Deref(b) == v
  {
    Bytes(v)
  }

  /** `From<Bytes> for Vec<u8>`: unwraps the buffer. */
  function IntoVec(b: Bytes): (v: seq<byte>)
    ensures v == Deref(b)
  {
    b.val
  }

  /** `Serialize`: the one string handed to `serialize_str`, which decodes
      back to the wrapped bytes. */
  function Serialize(b: Bytes): (out: string)
    ensures Decode(out) == Ok(b.val)
  {
    DecodeEncode(b.val);
    Encode(b.val)
  }

  /** `Deserialize`: borrows a string, decodes it and wraps the bytes; any
      other input, or a text that does not decode, is an error. */
  function Deserialize(input: Value): (r: Result<Bytes, Error>)
    ensures !input.BorrowedStr? ==> r == Err(Error(InvalidType))
    ensures input.BorrowedStr? ==> (r.Ok? <==> Decode(input.s).Ok?)
    ensures input.BorrowedStr? && r.Ok? ==> Decode(input.s) == Ok(r.value.val)
    ensures input.BorrowedStr? && r.Err? ==> r.error.cause == InvalidBase64(Decode(input.s).error)
    ensures r.Ok? ==> input == BorrowedStr(Serialize(r.value))
  {
    match input
    case NonString => Err(Error(InvalidType))
    case TransientStr(_) => Err(Error(InvalidType))
    case BorrowedStr(s) =>
      match Decode(s)
      case Err(e) => Err(Error(InvalidBase64(e)))
      case Ok(v) =>
        EncodeDecode(s);
        Ok(FromVec(v))
  }

  // ---------------------------------------------------------------------
  // The wrapper

  /** Converting to `Bytes` and back, in either order, changes nothing. */
  lemma ConversionRoundTrip(v: seq<byte>, b: Bytes)
    ensures IntoVec(FromVec(v)) == v
    ensures FromVec(IntoVec(b)) == b
  {
  }

  /** Two wrappers are equal exactly when their bytes are. */
  lemma EqualityIsByteEquality(a: Bytes, b: Bytes)
    ensures a == b <==> Deref(a) == Deref(b)
  {
  }

  // ---------------------------------------------------------------------
  // The serde representation

  /** The emitted string has `4 * ceil(n / 3)` characters for `n` bytes: alphabet
      characters followed by `PadLength(n)` (at most two) characters `=`. */
  lemma SerializeShape(b: Bytes)
    ensures |Serialize(b)| == 4 * ((|b.val| + 2) / 3)
    ensures forall i :: 0 <= i < |Serialize(b)| - PadLength(|b.val|) ==> IsAlphabetChar(Serialize(b)[i])
    ensures forall i :: |Serialize(b)| - PadLength(|b.val|) <= i < |Serialize(b)| ==> Serialize(b)[i] == Pad
    ensures |b.val| == 0 <==> Serialize(b) == ""
  {
    EncodeShape(b.val);
  }

  /** Deserializing what `Serialize` emitted, lent back by the deserializer,
      gives back the same bytes. */
  lemma {:induction false} SerdeRoundTrip(b: Bytes)
    ensures Deserialize(BorrowedStr(Serialize(b))) == Ok(b)
  {
    DecodeEncode(b.val);
  }

  /** `Deserialize` yields `b` exactly from the string `Serialize` emits for `b`, lent. */
  lemma {:induction false} DeserializeOnlyCanonical(input: Value, b: Bytes)
    ensures Deserialize(input) == Ok(b) <==> input == BorrowedStr(Serialize(b))
  {
    if input.BorrowedStr? {
      DecodeIsInverse(input.s, b.val);
    }
  }

  /** A character outside the alphabet that is not `=` makes `Deserialize` fail. */
  lemma DeserializeRejectsChar(s: string, k: nat)
    requires k < |s| && !IsAlphabetChar(s[k]) && s[k] != Pad
    ensures Deserialize(BorrowedStr(s)).Err?
    ensures Deserialize(BorrowedStr(s)).error.cause.InvalidBase64?
  {
    DecodeRejectsChar(s, k);
  }

  /** A string that is not whole groups of four characters makes `Deserialize` fail. */
  lemma DeserializeRejectsLength(s: string)
    requires |s| % 4 != 0
    ensures Deserialize(BorrowedStr(s)).Err?
    ensures Deserialize(BorrowedStr(s)).error.cause.InvalidBase64?
  {
    DecodeRejectsLength(s);
  }

  /** `=` anywhere but the last two positions makes `Deserialize` fail. */
  lemma DeserializeRejectsInnerPad(s: string, k: nat)
    requires k + 2 < |s| && s[k] == Pad
    ensures Deserialize(BorrowedStr(s)).Err?
    ensures Deserialize(BorrowedStr(s)).error.cause.InvalidBase64?
  {
    DecodeRejectsInnerPad(s, k);
  }

  /** A string the deserializer cannot lend is refused with the type error,
      even when it is a valid encoding. */
  lemma DeserializeRejectsTransient(b: Bytes)
    ensures Deserialize(TransientStr(Serialize(b))) == Err(Error(InvalidType))
    ensures Deserialize(BorrowedStr(Serialize(b))) == Ok(b)
  {
    SerdeRoundTrip(b);
  }

  // ---------------------------------------------------------------------
  // The crate's test and documentation vectors

  /** `[1, 2, 3]` serializes to `"AQID"`. */
  lemma SerializeVector()
    ensures Serialize(FromVec([1, 2, 3])) == "AQID"
  {
    EncodeOneGroup();
  }

  /** `"AQID"` deserializes to `[1, 2, 3]`. */
  lemma DeserializeVector()
    ensures Deserialize(BorrowedStr("AQID")) == Ok(FromVec([1, 2, 3]))
  {
    SerializeVector();
    DeserializeOnlyCanonical(BorrowedStr("AQID"), FromVec([1, 2, 3]));
  }

  /** The twelve bytes of the documentation example serialize to `"helloWorldBase64"`. */
  lemma DocExampleVector()
    ensures Serialize(FromVec([133, 233, 101, 161, 106, 43, 149, 208, 90, 177, 238, 184]))
         == "helloWorldBase64"
  {
    EncodeDocExample();
  }

  /** No bytes serialize to the empty string, and the empty string deserializes to no bytes. */
  lemma EmptyVector()
    ensures Serialize(Default()) == ""
    ensures Deserialize(BorrowedStr("")) == Ok(Default())
  {
  }

  /** `"not base64!"` does not deserialize: its fourth character, a space, is not in the alphabet. */
  lemma NotBase64Vector()
    ensures Deserialize(BorrowedStr("not base64!")) == Err(Error(InvalidBase64(InvalidByte)))
  {
  }
}
