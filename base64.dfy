/**
 * The "base64" encoding of section 4 of RFC 4648: the standard alphabet
 * `A-Z a-z 0-9 + /` and `=` padding. The crate delegates to `base64::encode`
 * and `base64::decode`; this module gives the specification those calls are
 * expected to meet.
 *
 * Encoding works on groups of three bytes (24 bits), each of which becomes
 * four 6-bit values, and each value is an index into Table 1 of the RFC. A
 * final group of one or two bytes is filled with zero bits and ends in two or
 * one pad symbols. The model keeps the two steps apart: `EncodeIndices` does
 * the arithmetic on Table 1 indices (64 standing for the pad `=`), and
 * `Render` looks each index up as a character. Decoding runs the steps
 * backwards: `Parse` turns characters into indices, `DecodeIndices` turns
 * groups of indices into bytes.
 */
module Base64 {
  import opened Results

  /** An octet, the element type of `Vec<u8>`. */
  type byte = x: int | 0 <= x < 256

  /** A 6-bit value, the index of one character of the alphabet. */
  type sextet = x: int | 0 <= x < 64

  /** An entry of Table 1: a 6-bit value, or `PadIndex` for the pad `=`. */
  type index = x: int | 0 <= x <= 64

  const PadIndex: index := 64
  const Pad: char := '='

  /** Why a text is not a canonical padded base64 encoding. */
  datatype DecodeError =
    | InvalidByte       // a character outside the alphabet, or a pad where it cannot stand
    | InvalidLength     // the text does not consist of whole four-character groups
    | InvalidLastSymbol // the final group carries non-zero bits that no byte fills

  // ---------------------------------------------------------------------
  // Table 1: indices and characters

  const Upper: string := "ABCDEFGHIJKLMNOPQRSTUVWXYZ"
  const Lower: string := "abcdefghijklmnopqrstuvwxyz"
  const Digits: string := "0123456789"

  /** Table 1 of RFC 4648: the character for each value 0..63. */
  const Alphabet: string := Upper + Lower + Digits + "+/"

  /** Whether `c` is one of the 64 characters of the alphabet. */
  predicate IsAlphabetChar(c: char) {
    'A' <= c <= 'Z' || 'a' <= c <= 'z' || '0' <= c <= '9' || c == '+' || c == '/'
  }

  /** The character of `x`: the ranges `A-Z`, `a-z`, `0-9`, then `+` and `/`. */
  function SextetChar(x: sextet): (c: char)
    ensures IsAlphabetChar(c)
  {
    if x < 26 then ('A' as int + x) as char
    else if x < 52 then ('a' as int + (x - 26)) as char
    else if x < 62 then ('0' as int + (x - 52)) as char
    else if x == 62 then '+'
    else '/'
  }

  /** The value of a character of the alphabet; the inverse of `SextetChar`. */
  function CharSextet(c: char): (x: sextet)
    requires IsAlphabetChar(c)
    ensures SextetChar(x) == c
  {
    if 'A' <= c <= 'Z' then c as int - 'A' as int
    else if 'a' <= c <= 'z' then c as int - 'a' as int + 26
    else if '0' <= c <= '9' then c as int - '0' as int + 52
    else if c == '+' then 62
    else 63
  }

  /** `SextetChar` is the lookup in Table 1. */
  lemma AlphabetTable()
    ensures |Alphabet| == 64
    ensures forall x: sextet :: Alphabet[x] == SextetChar(x)
  {
    assert forall x :: 0 <= x < 26 ==> Upper[x] == ('A' as int + x) as char;
    assert forall x :: 0 <= x < 26 ==> Lower[x] == ('a' as int + x) as char;
    assert forall x :: 0 <= x < 10 ==> Digits[x] == ('0' as int + x) as char;
  }

  /** The membership test and the table agree: `c` passes it exactly when Table 1 lists `c`. */
  lemma AlphabetMembership(c: char)
    ensures IsAlphabetChar(c) <==> c in Alphabet
  {
    AlphabetTable();
    if IsAlphabetChar(c) {
      assert Alphabet[CharSextet(c)] == c;
    }
  }

  /** Every value is recovered from its character, so Table 1 has no repeated character. */
  lemma SextetRoundTrip(x: sextet)
    ensures CharSextet(SextetChar(x)) == x
  {
  }

  /** The character of a Table 1 entry. */
  function IndexChar(x: index): (c: char)
    ensures c == Pad <==> x == PadIndex
  {
    if x == PadIndex then Pad else SextetChar(x)
  }

  /** The Table 1 entry of a character, if it has one. */
  function CharIndex(c: char): (r: Result<index, DecodeError>)
    ensures r.Ok? <==> IsAlphabetChar(c) || c == Pad
    ensures r.Ok? ==> IndexChar(r.value) == c
  {
    if c == Pad then Ok(PadIndex)
    else if IsAlphabetChar(c) then Ok(CharSextet(c))
    else Err(InvalidByte)
  }

  /** Each index is recovered from its character. */
  lemma IndexRoundTrip(x: index)
    ensures CharIndex(IndexChar(x)) == Ok(x)
  {
    if x < 64 {
      SextetRoundTrip(x);
    }
  }

  /** The text of a sequence of Table 1 entries. */
  function Render(ix: seq<index>): (t: string)
    ensures |t| == |ix|
    ensures forall i :: 0 <= i < |ix| ==> t[i] == IndexChar(ix[i])
  {
    seq(|ix|, i requires 0 <= i < |ix| => IndexChar(ix[i]))
  }

  /** The Table 1 entries of a text; fails on a character that has none. */
  function Parse(t: string): (r: Result<seq<index>, DecodeError>)
    ensures r.Ok? <==> forall i :: 0 <= i < |t| ==> CharIndex(t[i]).Ok?
    ensures r.Ok? ==> |r.value| == |t| && forall i :: 0 <= i < |t| ==> r.value[i] == CharIndex(t[i]).value
  {
    if forall i :: 0 <= i < |t| ==> CharIndex(t[i]).Ok? then
      Ok(seq(|t|, i requires 0 <= i < |t| => CharIndex(t[i]).value))
    else Err(InvalidByte)
  }

  /** Parsing a rendered sequence gives the sequence back. */
  lemma ParseRender(ix: seq<index>)
    ensures Parse(Render(ix)) == Ok(ix)
  {
    var t := Render(ix);
    forall i | 0 <= i < |ix| ensures CharIndex(t[i]) == Ok(ix[i]) {
      IndexRoundTrip(ix[i]);
    }
    assert Parse(t).Ok?;
    assert Parse(t).value == ix;
  }

  /** The text of two sequences of entries side by side. */
  lemma RenderAppend(a: seq<index>, b: seq<index>)
    ensures Render(a + b) == Render(a) + Render(b)
  {
  }

  /** A text that parses is the rendering of what it parses to. */
  lemma RenderParse(t: string)
    requires Parse(t).Ok?
    ensures Render(Parse(t).value) == t
  {
  }

  // ---------------------------------------------------------------------
  // Groups of 24 bits, on indices

  /** The four 6-bit values of the 24 bits `b0 b1 b2`, most significant first. */
  function GroupIndices(b0: byte, b1: byte, b2: byte): (q: seq<index>)
    ensures |q| == 4 && forall i :: 0 <= i < 4 ==> q[i] < 64
    ensures (q[0] as int) * 262144 + (q[1] as int) * 4096 + (q[2] as int) * 64 + (q[3] as int)
         == (b0 as int) * 65536 + (b1 as int) * 256 + (b2 as int)
  {
    [b0 / 4, (b0 % 4) * 16 + b1 / 16, (b1 % 16) * 4 + b2 / 64, b2 % 64]
  }

  /** The three bytes that four 6-bit values carry. */
  function GroupBytes(x0: sextet, x1: sextet, x2: sextet, x3: sextet): (g: seq<byte>)
    ensures |g| == 3
    ensures (g[0] as int) * 65536 + (g[1] as int) * 256 + (g[2] as int)
         == (x0 as int) * 262144 + (x1 as int) * 4096 + (x2 as int) * 64 + (x3 as int)
  {
    [x0 * 4 + x1 / 16, (x1 % 16) * 16 + x2 / 4, (x2 % 4) * 64 + x3]
  }

  /** The four values of three bytes carry back those bytes. */
  lemma GroupRoundTrip(b0: byte, b1: byte, b2: byte)
    ensures var q := GroupIndices(b0, b1, b2); GroupBytes(q[0], q[1], q[2], q[3]) == [b0, b1, b2]
  {
    assert (b0 / 4) * 4 + ((b0 % 4) * 16 + b1 / 16) / 16 == b0;
    assert (((b0 % 4) * 16 + b1 / 16) % 16) * 16 + ((b1 % 16) * 4 + b2 / 64) / 4 == b1;
    assert (((b1 % 16) * 4 + b2 / 64) % 4) * 64 + b2 % 64 == b2;
  }

  /** The three bytes of four values split back into those values. */
  lemma GroupCanonical(x0: sextet, x1: sextet, x2: sextet, x3: sextet)
    ensures var g := GroupBytes(x0, x1, x2, x3); GroupIndices(g[0], g[1], g[2]) == [x0, x1, x2, x3]
  {
    var b0, b1, b2 := x0 * 4 + x1 / 16, (x1 % 16) * 16 + x2 / 4, (x2 % 4) * 64 + x3;
    assert b0 / 4 == x0 && b0 % 4 == x1 / 16;
    assert b1 / 16 == x1 % 16 && b1 % 16 == x2 / 4;
    assert b2 / 64 == x2 % 4 && b2 % 64 == x3;
  }

  // ---------------------------------------------------------------------
  // Encoding

  /** The number of pad symbols that end the encoding of `n` bytes. */
  function PadLength(n: nat): (p: nat)
    ensures p <= 2 && (n % 3 == 0 <==> p == 0)
  {
    (3 - n % 3) % 3
  }

  /** The Table 1 entries of the encoding of `b`, group by group. */
  function EncodeIndices(b: seq<byte>): (ix: seq<index>)
    ensures |ix| == 4 * ((|b| + 2) / 3)
    decreases |b|
  {
    if |b| == 0 then []
    else if |b| == 1 then GroupIndices(b[0], 0, 0)[..2] + [PadIndex, PadIndex]
    else if |b| == 2 then GroupIndices(b[0], b[1], 0)[..3] + [PadIndex]
    else GroupIndices(b[0], b[1], b[2]) + EncodeIndices(b[3..])
  }

  /** The base64 encoding of `b` (section 4 of RFC 4648). */
  function Encode(b: seq<byte>): (r: string)
    ensures |r| == 4 * ((|b| + 2) / 3)
  {
    Render(EncodeIndices(b))
  }

  /** `ix` is 6-bit values followed by exactly `pad` pad symbols. */
  predicate PaddedIndices(ix: seq<index>, pad: nat) {
    pad <= |ix| &&
    (forall i :: 0 <= i < |ix| - pad ==> ix[i] < 64) &&
    (forall i :: |ix| - pad <= i < |ix| ==> ix[i] == PadIndex)
  }

  /** A group of 6-bit values in front keeps the pads at the end. */
  lemma PaddedAppend(q: seq<index>, rest: seq<index>, pad: nat)
    requires |q| == 4 && forall i :: 0 <= i < 4 ==> q[i] < 64
    requires PaddedIndices(rest, pad)
    ensures PaddedIndices(q + rest, pad)
  {
    var ix := q + rest;
    forall i | 0 <= i < |ix| - pad ensures ix[i] < 64 {
      if i >= 4 {
        assert ix[i] == rest[i - 4];
      }
    }
    forall i | |ix| - pad <= i < |ix| ensures ix[i] == PadIndex {
      assert ix[i] == rest[i - 4];
    }
  }

  /** Of the entries that encode `n` bytes, the last `PadLength(n)` are pad
      symbols and the others 6-bit values. */
  lemma {:induction false} EncodeIndicesShape(b: seq<byte>)
    ensures |EncodeIndices(b)| % 4 == 0
    ensures PaddedIndices(EncodeIndices(b), PadLength(|b|))
    decreases |b|
  {
    if |b| == 1 || |b| == 2 {
      LastGroupShape(b);
    } else if |b| >= 3 {
      var q, rest := GroupIndices(b[0], b[1], b[2]), EncodeIndices(b[3..]);
      assert EncodeIndices(b) == q + rest;
      EncodeIndicesShape(b[3..]);
      GroupCount(|b[3..]|);
      PaddedAppend(q, rest, PadLength(|b|));
    }
  }

  /** A last group of one or two bytes is four entries ending in two or one pads. */
  lemma LastGroupShape(b: seq<byte>)
    requires |b| == 1 || |b| == 2
    ensures |EncodeIndices(b)| == 4
    ensures PaddedIndices(EncodeIndices(b), PadLength(|b|))
  {
    if |b| == 1 {
      assert PadLength(|b|) == 2;
      LastOneShape(b);
    } else {
      assert PadLength(|b|) == 1;
      LastTwoShape(b);
    }
  }

  /** One byte: two 6-bit values and two pads. */
  lemma LastOneShape(b: seq<byte>)
    requires |b| == 1
    ensures |EncodeIndices(b)| == 4
    ensures PaddedIndices(EncodeIndices(b), 2)
  {
    var q := GroupIndices(b[0], 0, 0);
    var ix := EncodeIndices(b);
    assert ix == q[..2] + [PadIndex, PadIndex];
    assert ix == [q[0], q[1], PadIndex, PadIndex];
  }

  /** Two bytes: three 6-bit values and one pad. */
  lemma LastTwoShape(b: seq<byte>)
    requires |b| == 2
    ensures |EncodeIndices(b)| == 4
    ensures PaddedIndices(EncodeIndices(b), 1)
  {
    var q := GroupIndices(b[0], b[1], 0);
    var ix := EncodeIndices(b);
    assert ix == q[..3] + [PadIndex];
    assert ix == [q[0], q[1], q[2], PadIndex];
  }

  /** Three more bytes make one more group and keep the padding. */
  lemma GroupCount(n: nat)
    ensures (n + 3 + 2) / 3 == (n + 2) / 3 + 1
    ensures PadLength(n + 3) == PadLength(n)
  {
  }

  /** The encoding has `4 * ceil(n / 3)` characters for `n` bytes: characters of
      the alphabet, then `PadLength(n)` (at most two) characters `=`. */
  lemma EncodeShape(b: seq<byte>)
    ensures |Encode(b)| == 4 * ((|b| + 2) / 3)
    ensures |Encode(b)| % 4 == 0
    ensures forall i :: 0 <= i < |Encode(b)| - PadLength(|b|) ==> IsAlphabetChar(Encode(b)[i])
    ensures forall i :: |Encode(b)| - PadLength(|b|) <= i < |Encode(b)| ==> Encode(b)[i] == Pad
  {
    EncodeIndicesShape(b);
  }

  // ---------------------------------------------------------------------
  // Decoding

  /** Decodes the last group of four entries, which may end in one or two pads. */
  function DecodeLastGroup(q: seq<index>): (r: Result<seq<byte>, DecodeError>)
    requires |q| == 4
    ensures r.Ok? ==> 1 <= |r.value| <= 3
  {
    if q[0] < 64 && q[1] < 64 && q[2] < 64 && q[3] < 64 then
      Ok(GroupBytes(q[0], q[1], q[2], q[3]))
    else if q[0] < 64 && q[1] < 64 && q[2] < 64 && q[3] == PadIndex then
      if q[2] % 4 != 0 then Err(InvalidLastSymbol)
      else Ok(GroupBytes(q[0], q[1], q[2], 0)[..2])
    else if q[0] < 64 && q[1] < 64 && q[2] == PadIndex && q[3] == PadIndex then
      if q[1] % 16 != 0 then Err(InvalidLastSymbol)
      else Ok(GroupBytes(q[0], q[1], 0, 0)[..1])
    else Err(InvalidByte)
  }

  /** Strict decoding of Table 1 entries in groups of four: only the last
      group may hold pads, and only at its end. */
  function DecodeIndices(ix: seq<index>): (r: Result<seq<byte>, DecodeError>)
    ensures r.Ok? ==> |ix| % 4 == 0 && 3 * (|ix| / 4) - 2 <= |r.value| <= 3 * (|ix| / 4)
    decreases |ix|
  {
    if |ix| == 0 then Ok([])
    else if |ix| < 4 then Err(InvalidLength)
    else if |ix| == 4 then DecodeLastGroup(ix)
    else if ix[0] < 64 && ix[1] < 64 && ix[2] < 64 && ix[3] < 64 then
      match DecodeIndices(ix[4..])
      case Err(e) => Err(e)
      case Ok(rest) => Ok(GroupBytes(ix[0], ix[1], ix[2], ix[3]) + rest)
    else Err(InvalidByte)
  }

  /** Strict decoding of canonical padded base64. */
  function Decode(t: string): (r: Result<seq<byte>, DecodeError>)
    ensures r.Ok? ==> |t| % 4 == 0 && 3 * (|t| / 4) - 2 <= |r.value| <= 3 * (|t| / 4)
  {
    match Parse(t)
    case Err(e) => Err(e)
    case Ok(ix) => DecodeIndices(ix)
  }

  // ---------------------------------------------------------------------
  // Decoding inverts encoding

  /** A final group of one byte, padded twice, decodes to that byte. */
  lemma LastOneRoundTrip(b0: byte)
    ensures DecodeLastGroup(EncodeIndices([b0])) == Ok([b0])
  {
    var q := GroupIndices(b0, 0, 0);
    GroupRoundTrip(b0, 0, 0);
    var ix := EncodeIndices([b0]);
    assert ix == q[..2] + [PadIndex, PadIndex];
    assert ix[0] == q[0] && ix[1] == q[1] && ix[2] == PadIndex && ix[3] == PadIndex;
    assert q[2] == 0 && q[3] == 0;
    var g := GroupBytes(q[0], q[1], 0, 0);
    assert g == [b0, 0, 0];
    assert g[..1] == [b0];
  }

  /** A final group of two bytes, padded once, decodes to those bytes. */
  lemma LastTwoRoundTrip(b0: byte, b1: byte)
    ensures DecodeLastGroup(EncodeIndices([b0, b1])) == Ok([b0, b1])
  {
    var q := GroupIndices(b0, b1, 0);
    GroupRoundTrip(b0, b1, 0);
    var ix := EncodeIndices([b0, b1]);
    assert ix == q[..3] + [PadIndex];
    assert ix[0] == q[0] && ix[1] == q[1] && ix[2] == q[2] && ix[3] == PadIndex;
    assert q[2] % 4 == 0 && q[3] == 0;
    var g := GroupBytes(q[0], q[1], q[2], 0);
    assert g == [b0, b1, 0];
    assert g[..2] == [b0, b1];
  }

  /** Decoding a full group of 6-bit values followed by more entries. */
  lemma DecodeLeadingGroup(q: seq<index>, rest: seq<index>)
    requires |q| == 4 && q[0] < 64 && q[1] < 64 && q[2] < 64 && q[3] < 64 && |rest| > 0
    ensures DecodeIndices(q + rest) ==
      match DecodeIndices(rest)
      case Err(e) => Err(e)
      case Ok(tail) => Ok(GroupBytes(q[0], q[1], q[2], q[3]) + tail)
  {
    var ix := q + rest;
    assert ix[..4] == q && ix[4..] == rest;
  }

  /** Decoding the entries of the encoding of `b` gives back `b`. */
  lemma {:induction false} DecodeEncodeIndices(b: seq<byte>)
    ensures DecodeIndices(EncodeIndices(b)) == Ok(b)
    decreases |b|
  {
    if |b| == 1 {
      assert b == [b[0]];
      LastOneRoundTrip(b[0]);
    } else if |b| == 2 {
      assert b == [b[0], b[1]];
      LastTwoRoundTrip(b[0], b[1]);
    } else if |b| == 3 {
      assert b[3..] == [] && b == [b[0], b[1], b[2]];
      assert EncodeIndices(b) == GroupIndices(b[0], b[1], b[2]);
      GroupRoundTrip(b[0], b[1], b[2]);
    } else if |b| > 3 {
      var q, rest := GroupIndices(b[0], b[1], b[2]), EncodeIndices(b[3..]);
      assert b == [b[0], b[1], b[2]] + b[3..];
      assert EncodeIndices(b) == q + rest;
      EncodeIndicesShape(b[3..]);
      DecodeEncodeIndices(b[3..]);
      GroupRoundTrip(b[0], b[1], b[2]);
      DecodeLeadingGroup(q, rest);
    }
  }

  /** Decoding the encoding of `b` gives back `b`. */
  lemma DecodeEncode(b: seq<byte>)
    ensures Decode(Encode(b)) == Ok(b)
  {
    ParseRender(EncodeIndices(b));
    DecodeEncodeIndices(b);
  }

  // ---------------------------------------------------------------------
  // Only canonical encodings decode

  /** A group of three bytes encodes on its own in front of the rest. */
  lemma EncodeLeadingGroup(b0: byte, b1: byte, b2: byte, rest: seq<byte>)
    ensures EncodeIndices([b0, b1, b2] + rest) == GroupIndices(b0, b1, b2) + EncodeIndices(rest)
  {
    var b := [b0, b1, b2] + rest;
    assert b[0] == b0 && b[1] == b1 && b[2] == b2 && b[3..] == rest;
  }

  /** A last group that decodes holds the entries of the encoding of what it decodes to. */
  lemma LastGroupCanonical(q: seq<index>)
    requires |q| == 4 && DecodeLastGroup(q).Ok?
    ensures EncodeIndices(DecodeLastGroup(q).value) == q
  {
    var b := DecodeLastGroup(q).value;
    if q[0] < 64 && q[1] < 64 && q[2] < 64 && q[3] < 64 {
      GroupCanonical(q[0], q[1], q[2], q[3]);
      EncodeLeadingGroup(b[0], b[1], b[2], []);
      assert b == [b[0], b[1], b[2]] + [];
      assert q == [q[0], q[1], q[2], q[3]];
    } else if q[3] == PadIndex && q[2] < 64 {
      GroupCanonical(q[0], q[1], q[2], 0);
      var g := GroupBytes(q[0], q[1], q[2], 0);
      assert b == [g[0], g[1]];
      assert GroupIndices(g[0], g[1], 0)[..3] == q[..3];
      assert q == q[..3] + [PadIndex];
    } else {
      GroupCanonical(q[0], q[1], 0, 0);
      var g := GroupBytes(q[0], q[1], 0, 0);
      assert b == [g[0]];
      assert GroupIndices(g[0], 0, 0)[..2] == q[..2];
      assert q == q[..2] + [PadIndex, PadIndex];
    }
  }

  /** Entries that decode are the entries of the encoding of their result. */
  lemma {:induction false} EncodeDecodeIndices(ix: seq<index>)
    requires DecodeIndices(ix).Ok?
    ensures EncodeIndices(DecodeIndices(ix).value) == ix
    decreases |ix|
  {
    if |ix| == 4 {
      LastGroupCanonical(ix);
    } else if |ix| > 4 {
      var q, rest := ix[..4], ix[4..];
      assert ix == q + rest;
      DecodeLeadingGroup(q, rest);
      EncodeDecodeIndices(rest);
      GroupCanonical(q[0], q[1], q[2], q[3]);
      var g, tail := GroupBytes(q[0], q[1], q[2], q[3]), DecodeIndices(rest).value;
      assert DecodeIndices(ix).value == [g[0], g[1], g[2]] + tail;
      EncodeLeadingGroup(g[0], g[1], g[2], tail);
      assert q == [q[0], q[1], q[2], q[3]];
    }
  }

  /** Whatever decodes is the encoding of its result: decoding accepts no
      text but the canonical padded encoding. */
  lemma EncodeDecode(t: string)
    requires Decode(t).Ok?
    ensures Encode(Decode(t).value) == t
  {
    RenderParse(t);
    EncodeDecodeIndices(Parse(t).value);
  }

  /** Decoding succeeds with `b` exactly when the text is the encoding of `b`. */
  lemma DecodeIsInverse(t: string, b: seq<byte>)
    ensures Decode(t) == Ok(b) <==> t == Encode(b)
  {
    if Decode(t) == Ok(b) {
      EncodeDecode(t);
    }
    if t == Encode(b) {
      DecodeEncode(b);
    }
  }

  /** A text that is not whole groups of four characters does not decode. */
  lemma DecodeRejectsLength(t: string)
    requires |t| % 4 != 0
    ensures Decode(t).Err?
  {
    // The length clause of `Decode`'s own contract.
  }

  /** A character that is neither in the alphabet nor `=` makes decoding fail. */
  lemma DecodeRejectsChar(t: string, k: nat)
    requires k < |t| && !IsAlphabetChar(t[k]) && t[k] != Pad
    ensures Decode(t) == Err(InvalidByte)
  {
  }

  /** `=` anywhere but the last two positions makes decoding fail. */
  lemma DecodeRejectsInnerPad(t: string, k: nat)
    requires k + 2 < |t| && t[k] == Pad
    ensures Decode(t).Err?
  {
    if Decode(t).Ok? {
      EncodeDecode(t);
      EncodeShape(Decode(t).value);
    }
  }

  // ---------------------------------------------------------------------
  // Known encodings

  /** `[1, 2, 3]` encodes to `"AQID"`. */
  lemma EncodeOneGroup()
    ensures Encode([1, 2, 3]) == "AQID"
  {
    var b: seq<byte> := [1, 2, 3];
    assert b[3..] == [];
    assert EncodeIndices(b) == [0, 16, 8, 3];
  }

  /** The 6-bit values of the four groups of the documentation example. */
  lemma DocExampleGroupIndices()
    ensures GroupIndices(133, 233, 101) == [33, 30, 37, 37]
    ensures GroupIndices(161, 106, 43) == [40, 22, 40, 43]
    ensures GroupIndices(149, 208, 90) == [37, 29, 1, 26]
    ensures GroupIndices(177, 238, 184) == [44, 30, 58, 56]
  {
  }

  /** The Table 1 entries of the twelve bytes of the documentation example. */
  lemma DocExampleIndices()
    ensures EncodeIndices([133, 233, 101, 161, 106, 43, 149, 208, 90, 177, 238, 184])
         == [33, 30, 37, 37, 40, 22, 40, 43, 37, 29, 1, 26, 44, 30, 58, 56]
  {
    DocExampleGroupIndices();
    DocExampleSplit();
    EncodeLeadingGroup(177, 238, 184, []);
    EncodeLeadingGroup(149, 208, 90, [177, 238, 184]);
    EncodeLeadingGroup(161, 106, 43, [149, 208, 90, 177, 238, 184]);
    EncodeLeadingGroup(133, 233, 101, [161, 106, 43, 149, 208, 90, 177, 238, 184]);
  }

  /** One byte: the vector of section 10 of RFC 4648 with two pads. */
  lemma EncodeOneByte()
    ensures Encode([102]) == "Zg=="
  {
    assert EncodeIndices([102]) == [25, 32, 64, 64];
  }

  /** Two bytes: the vector of section 10 of RFC 4648 with one pad. */
  lemma EncodeTwoBytes()
    ensures Encode([102, 111]) == "Zm8="
  {
    assert EncodeIndices([102, 111]) == [25, 38, 60, 64];
  }

  /** The padded vectors of section 10 of RFC 4648 decode back to their bytes. */
  lemma DecodePaddedVectors()
    ensures Decode("Zg==") == Ok([102])
    ensures Decode("Zm8=") == Ok([102, 111])
  {
    EncodeOneByte();
    DecodeIsInverse("Zg==", [102]);
    EncodeTwoBytes();
    DecodeIsInverse("Zm8=", [102, 111]);
  }

  /** A proof step for `DocExampleIndices`, not a property of the encoding: the
      literal concatenations it needs, kept apart so the solver proves them alone. */
  lemma DocExampleSplit()
    ensures [177, 238, 184] + [] == [177, 238, 184]
    ensures [149, 208, 90] + [177, 238, 184] == [149, 208, 90, 177, 238, 184]
    ensures [161, 106, 43] + [149, 208, 90, 177, 238, 184] == [161, 106, 43, 149, 208, 90, 177, 238, 184]
    ensures [133, 233, 101] + [161, 106, 43, 149, 208, 90, 177, 238, 184]
         == [133, 233, 101, 161, 106, 43, 149, 208, 90, 177, 238, 184]
    ensures [33, 30, 37, 37] + ([40, 22, 40, 43] + ([37, 29, 1, 26] + ([44, 30, 58, 56] + [])))
         == [33, 30, 37, 37, 40, 22, 40, 43, 37, 29, 1, 26, 44, 30, 58, 56]
  {
  }

  /** The characters of the four groups of the documentation example. */
  lemma DocExampleGroups()
    ensures Render([33, 30, 37, 37]) == "hell"
    ensures Render([40, 22, 40, 43]) == "oWor"
    ensures Render([37, 29, 1, 26]) == "ldBa"
    ensures Render([44, 30, 58, 56]) == "se64"
  {
  }

  /** The text of four groups side by side. */
  lemma RenderGroups(g0: seq<index>, g1: seq<index>, g2: seq<index>, g3: seq<index>)
    ensures Render(g0 + g1 + g2 + g3) == Render(g0) + Render(g1) + Render(g2) + Render(g3)
  {
    RenderAppend(g0 + g1 + g2, g3);
    RenderAppend(g0 + g1, g2);
    RenderAppend(g0, g1);
  }

  /** A proof step for `DocExampleRender`, not a property of the encoding: the
      literal concatenations it needs, kept apart so the solver proves them alone. */
  lemma DocExampleJoin()
    ensures [33, 30, 37, 37] + [40, 22, 40, 43] + [37, 29, 1, 26] + [44, 30, 58, 56]
         == [33, 30, 37, 37, 40, 22, 40, 43, 37, 29, 1, 26, 44, 30, 58, 56]
    ensures "hell" + "oWor" + "ldBa" + "se64" == "helloWorldBase64"
  {
  }

  /** The characters of the sixteen entries of the documentation example. */
  lemma DocExampleRender()
    ensures Render([33, 30, 37, 37, 40, 22, 40, 43, 37, 29, 1, 26, 44, 30, 58, 56]) == "helloWorldBase64"
  {
    DocExampleGroups();
    DocExampleJoin();
    RenderGroups([33, 30, 37, 37], [40, 22, 40, 43], [37, 29, 1, 26], [44, 30, 58, 56]);
  }

  /** Twelve bytes that encode to sixteen letters and digits, with no padding. */
  lemma EncodeDocExample()
    ensures Encode([133, 233, 101, 161, 106, 43, 149, 208, 90, 177, 238, 184]) == "helloWorldBase64"
  {
    DocExampleIndices();
    DocExampleRender();
  }
}
