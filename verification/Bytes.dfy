/** Bytes, big-endian integers and positions inside a buffer. */
module Bytes {

  type byte = x: int | 0 <= x < 256

  type u16 = x: int | 0 <= x < 0x1_0000

  /** An IPv4 address. */
  datatype Ip4 = Ip4(a: byte, b: byte, c: byte, d: byte)

  /** A `String` of the source, as its UTF-8 bytes. */
  type Text = seq<byte>

  datatype Option<+T> = None | Some(value: T)

  /** `u16::from_be_bytes`. */
  function U16(hi: byte, lo: byte): (n: nat)
    ensures n < 0x1_0000
  {
    hi * 256 + lo
  }

  /** `u16::to_be_bytes`. */
  function Be16(n: nat): (b: seq<byte>)
    requires n < 0x1_0000
    ensures |b| == 2 && U16(b[0], b[1]) == n
  {
    [n / 256, n % 256]
  }

  lemma Be16OfU16(hi: byte, lo: byte)
    ensures Be16(U16(hi, lo)) == [hi, lo]
  {
  }

  /** The cast `as u16`, which keeps the low sixteen bits. */
  function Low16(n: nat): (r: nat)
    ensures r < 0x1_0000
    ensures n < 0x1_0000 ==> r == n
  {
    n % 0x1_0000
  }

  /** The cast `as u8`. */
  function Low8(n: nat): (r: byte)
    ensures n < 256 ==> r == n
  {
    n % 256
  }

  /** `u32::from_be_bytes`. */
  function U32(a: byte, b: byte, c: byte, d: byte): (n: nat)
    ensures n < 0x1_0000_0000
  {
    U16(a, b) * 0x1_0000 + U16(c, d)
  }

  /** Each byte stands for its own eight bits, the first for the highest. */
  lemma U32Bytes(a: byte, b: byte, c: byte, d: byte)
    ensures U32(a, b, c, d) == 0x100_0000 * a + 0x1_0000 * b + 0x100 * c + d
  {
  }

  /** So do two bytes. */
  lemma U16Bytes(hi: byte, lo: byte)
    ensures U16(hi, lo) / 256 == hi && U16(hi, lo) % 256 == lo
  {
  }

  /** The casts forget multiples of their size only. */
  lemma CastsForget(n: nat)
    ensures exists k: nat :: n == Low16(n) + k * 0x1_0000
    ensures exists k: nat :: n == Low8(n) + k * 256
  {
    assert n == Low16(n) + n / 0x1_0000 * 0x1_0000;
    assert n == Low8(n) + n / 256 * 256;
  }

  /** `x` is what `buf` holds from `pos` on, and it lies inside `buf`. */
  ghost predicate At(buf: seq<byte>, pos: nat, x: seq<byte>) {
    pos + |x| <= |buf| && buf[pos..pos + |x|] == x
  }

  lemma AtSplit(buf: seq<byte>, pos: nat, x: seq<byte>, y: seq<byte>)
    ensures At(buf, pos, x + y) <==> At(buf, pos, x) && At(buf, pos + |x|, y)
  {
    if At(buf, pos, x + y) {
      assert x == (x + y)[..|x|] == buf[pos..pos + |x|];
      assert y == (x + y)[|x|..] == buf[pos + |x|..pos + |x| + |y|];
    }
    if At(buf, pos, x) && At(buf, pos + |x|, y) {
      assert buf[pos..pos + |x + y|] == buf[pos..pos + |x|] + buf[pos + |x|..pos + |x| + |y|];
    }
  }

  lemma AtEnd(buf: seq<byte>, pos: nat, x: seq<byte>)
    requires At(buf, pos, x)
    ensures pos + |x| <= |buf| && buf[pos..pos + |x|] == x
  {
  }

  lemma AtSlice(buf: seq<byte>, pos: nat, end: nat)
    requires pos <= end <= |buf|
    ensures At(buf, pos, buf[pos..end])
  {
  }

  lemma AtAppend(h: seq<byte>, x: seq<byte>, rest: seq<byte>)
    ensures At(h + x + rest, |h|, x)
  {
    assert (h + x + rest)[|h|..|h| + |x|] == x;
  }

  lemma AtByte(buf: seq<byte>, pos: nat, x: seq<byte>, i: nat)
    requires At(buf, pos, x) && i < |x|
    ensures pos + i < |buf| && buf[pos + i] == x[i]
  {
    assert buf[pos..pos + |x|][i] == x[i];
  }
}
