/** Text as characters: what `std::str::from_utf8` accepts is what encodes some (section 3 of RFC 3629). */
module Utf8 {
  import opened Bytes
  import opened Strings

  /** A character number that is no surrogate. */
  predicate Scalar(c: nat) {
    c < 0xD800 || 0xE000 <= c < 0x11_0000
  }

  /** Seven bits in one byte, else six bits in each byte but the first, which tells how many there are. */
  function EncodeChar(c: nat): (b: seq<byte>)
    requires Scalar(c)
    ensures 1 <= |b| <= 4
  {
    if c < 0x80 then [c]
    else if c < 0x800 then [0xC0 + c / 64, 0x80 + c % 64]
    else if c < 0x1_0000 then [0xE0 + c / 4096, 0x80 + c / 64 % 64, 0x80 + c % 64]
    else [0xF0 + c / 0x4_0000, 0x80 + c / 4096 % 64, 0x80 + c / 64 % 64, 0x80 + c % 64]
  }

  ghost predicate Scalars(cs: seq<nat>) {
    forall c <- cs :: Scalar(c)
  }

  function EncodeText(cs: seq<nat>): seq<byte>
    requires Scalars(cs)
  {
    if cs == [] then [] else EncodeChar(cs[0]) + EncodeText(cs[1..])
  }

  lemma CharOfTwo(b: seq<byte>) returns (c: nat)
    requires CharLen(b) == 2
    ensures Scalar(c) && EncodeChar(c) == b[..2]
  {
    c := 64 * (b[0] - 0xC0) as int + (b[1] - 0x80);
    assert c / 64 == b[0] - 0xC0 && c % 64 == b[1] - 0x80;
  }

  lemma CharOfThree(b: seq<byte>) returns (c: nat)
    requires CharLen(b) == 3
    ensures Scalar(c) && EncodeChar(c) == b[..3]
  {
    var x := 64 * (b[0] - 0xE0) as int + (b[1] - 0x80);
    c := 64 * x + (b[2] - 0x80);
    assert c / 64 == x && c % 64 == b[2] - 0x80 && x / 64 == b[0] - 0xE0 && x % 64 == b[1] - 0x80;
    assert c / 4096 == x / 64;
  }

  lemma CharOfFour(b: seq<byte>) returns (c: nat)
    requires CharLen(b) == 4
    ensures Scalar(c) && EncodeChar(c) == b[..4]
  {
    var x := 64 * (b[0] - 0xF0) as int + (b[1] - 0x80);
    var y := 64 * x + (b[2] - 0x80);
    c := 64 * y + (b[3] - 0x80);
    assert c / 64 == y && c % 64 == b[3] - 0x80 && y / 64 == x && y % 64 == b[2] - 0x80;
    assert x / 64 == b[0] - 0xF0 && x % 64 == b[1] - 0x80;
    assert c / 4096 == y / 64 && c / 0x4_0000 == x / 64;
  }

  /** The character at the front of the bytes, where the reader sees one. */
  lemma CharOf(b: seq<byte>) returns (c: nat)
    requires CharLen(b) > 0
    ensures Scalar(c) && EncodeChar(c) == b[..CharLen(b)]
  {
    if CharLen(b) == 1 {
      c := b[0];
    } else if CharLen(b) == 2 {
      c := CharOfTwo(b);
    } else if CharLen(b) == 3 {
      c := CharOfThree(b);
    } else {
      c := CharOfFour(b);
    }
  }

  /** And where an encoded character stands, the reader sees it. */
  lemma CharIsSeen(c: nat, rest: seq<byte>)
    requires Scalar(c)
    ensures CharLen(EncodeChar(c) + rest) == |EncodeChar(c)|
  {
  }

  lemma {:induction false} Decoded(b: seq<byte>) returns (cs: seq<nat>)
    requires ValidUtf8(b)
    ensures Scalars(cs) && EncodeText(cs) == b
    decreases |b|
  {
    hide CharLen, EncodeChar, Scalar;
    cs := [];
    if b != [] {
      var c := CharOf(b);
      var rest := Decoded(b[CharLen(b)..]);
      cs := [c] + rest;
      assert cs[1..] == rest && b == b[..CharLen(b)] + b[CharLen(b)..];
    }
  }

  lemma {:induction false} EncodedIsValid(cs: seq<nat>)
    requires Scalars(cs)
    ensures ValidUtf8(EncodeText(cs))
  {
    hide CharLen, EncodeChar, Scalar;
    if cs != [] {
      assert cs[0] in cs;
      var b := EncodeChar(cs[0]) + EncodeText(cs[1..]);
      CharIsSeen(cs[0], EncodeText(cs[1..]));
      assert b[CharLen(b)..] == EncodeText(cs[1..]);
      EncodedIsValid(cs[1..]);
    }
  }

  /** Bytes are accepted as text if and only if they are the encoding of some characters. */
  lemma {:induction false} ValidIsEncoded(b: seq<byte>)
    ensures ValidUtf8(b) <==> exists cs: seq<nat> :: Scalars(cs) && EncodeText(cs) == b
  {
    hide CharLen, EncodeChar, Scalar, ValidUtf8;
    if ValidUtf8(b) {
      var cs := Decoded(b);
    }
    forall cs: seq<nat> | Scalars(cs) && EncodeText(cs) == b
      ensures ValidUtf8(b)
    {
      EncodedIsValid(cs);
    }
  }
}
