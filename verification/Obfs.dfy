/** The obfuscated framing, over any authenticated cipher that keeps its laws. */
module Obfs {
  import opened Bytes

  const NONCE_LEN: nat := 12
  const LEN_PREFIX: nat := 2
  const TAG_LEN: nat := 16
  const PAD_MIN: nat := 32
  const PAD_MAX: nat := 192
  const PAYLOAD_BUF_SIZE: nat := 1024
  const OBFS_PAYLOAD_BUF_SIZE: nat := PAYLOAD_BUF_SIZE + NONCE_LEN + TAG_LEN + LEN_PREFIX + PAD_MAX + 64
  const PROXY_PAYLOAD_BUF_SIZE: nat := 4096

  /** A cipher under one key. */
  datatype Key = Key(seal: (seq<byte>, seq<byte>) -> seq<byte>, unseal: (seq<byte>, seq<byte>) -> Option<seq<byte>>)

  /** Unsealing undoes sealing, a tag is added, and only what was sealed unseals. */
  ghost predicate Lawful(key: Key) {
    && (forall nonce, p :: |nonce| == NONCE_LEN ==>
        |key.seal(nonce, p)| == |p| + TAG_LEN && key.unseal(nonce, key.seal(nonce, p)) == Some(p))
    && (forall nonce, c :: |nonce| == NONCE_LEN && key.unseal(nonce, c).Some? ==>
        key.seal(nonce, key.unseal(nonce, c).value) == c)
  }

  /** What a call of `encode` draws at random. */
  datatype Draw = Draw(size: u16, noise: nat -> byte, nonce: seq<byte>)

  function PadLen(draw: Draw): (n: nat)
    ensures PAD_MIN <= n <= PAD_MAX
  {
    PAD_MIN + draw.size % (PAD_MAX - PAD_MIN + 1)
  }

  /** The datagram with this padding. */
  ghost function Framed(key: Key, nonce: seq<byte>, query: seq<byte>, padding: seq<byte>): seq<byte> {
    nonce + key.seal(nonce, Be16(Low16(|query|)) + query + padding)
  }

  ghost function Padding(draw: Draw): (padding: seq<byte>)
    ensures |padding| == PadLen(draw)
  {
    Noise(PadLen(draw), draw.noise)
  }

  ghost function Noise(len: nat, noise: nat -> byte): (padding: seq<byte>)
    ensures |padding| == len && forall i: nat :: i < len ==> padding[i] == noise(i)
  {
    seq(len, i requires 0 <= i < len => noise(i))
  }

  ghost function Encoded(key: Key, query: seq<byte>, draw: Draw): seq<byte> {
    Framed(key, draw.nonce, query, Padding(draw))
  }

  method RandomPadding(len: nat, noise: nat -> byte) returns (padding: seq<byte>)
    ensures padding == Noise(len, noise)
  {
    padding := [];
    for i := 0 to len
      invariant padding == Noise(i, noise)
    {
      padding := padding + [noise(i)];
    }
  }

  method Encode(key: Key, query: seq<byte>, draw: Draw) returns (out: seq<byte>)
    requires |draw.nonce| == NONCE_LEN
    ensures out == Encoded(key, query, draw)
    ensures Lawful(key) ==> |query| + 62 <= |out| <= |query| + 222
  {
    var plaintext := Be16(Low16(|query|));
    plaintext := plaintext + query;
    var padding := RandomPadding(PadLen(draw), draw.noise);
    plaintext := plaintext + padding;
    var ciphertext := key.seal(draw.nonce, plaintext);
    out := draw.nonce;
    out := out + ciphertext;
  }

  function Decode(key: Key, datagram: seq<byte>): Option<seq<byte>> {
    if |datagram| < NONCE_LEN + TAG_LEN + LEN_PREFIX then None
    else
      match key.unseal(datagram[..NONCE_LEN], datagram[NONCE_LEN..])
      case None => None
      case Some(plaintext) =>
        if |plaintext| < LEN_PREFIX then None
        else
          var len := U16(plaintext[0], plaintext[1]);
          if LEN_PREFIX + len > |plaintext| then None
          else Some(plaintext[LEN_PREFIX..LEN_PREFIX + len])
  }

  lemma FramedLength(key: Key, nonce: seq<byte>, query: seq<byte>, padding: seq<byte>)
    requires Lawful(key) && |nonce| == NONCE_LEN
    ensures |Framed(key, nonce, query, padding)| == NONCE_LEN + LEN_PREFIX + |query| + |padding| + TAG_LEN
  {
  }

  /**
   * The datagram starts with the drawn nonce, and under it unseals to the length in two bytes, the query, and as
   * much of the drawn noise as the drawn size tells: 32 to 192 bytes.
   */
  lemma {:induction false} EncodedIs(key: Key, query: seq<byte>, draw: Draw, padding: seq<byte>)
    requires Lawful(key) && |draw.nonce| == 12 && |query| < 0x1_0000
    requires |padding| == 32 + draw.size % 161 && forall i: nat :: i < |padding| ==> padding[i] == draw.noise(i)
    ensures var datagram := Encoded(key, query, draw);
            && |datagram| > 12 && datagram[..12] == draw.nonce
            && key.unseal(draw.nonce, datagram[12..]) == Some([|query| / 256, |query| % 256] + query + padding)
  {
    assert Padding(draw) == padding;
    FramedLength(key, draw.nonce, query, padding);
    var plaintext := Be16(|query|) + query + padding;
    assert Encoded(key, query, draw)[12..] == key.seal(draw.nonce, plaintext);
  }

  /** A framing is read back as the query's bytes up to its length modulo 65536. */
  lemma DecodeFramed(key: Key, nonce: seq<byte>, query: seq<byte>, padding: seq<byte>)
    requires Lawful(key) && |nonce| == NONCE_LEN
    ensures Decode(key, Framed(key, nonce, query, padding)) == Some(query[..|query| % 0x1_0000])
  {
    var plaintext := Be16(Low16(|query|)) + query + padding;
    var datagram := Framed(key, nonce, query, padding);
    FramedLength(key, nonce, query, padding);
    assert datagram[..NONCE_LEN] == nonce && datagram[NONCE_LEN..] == key.seal(nonce, plaintext);
    var len := |query| % 0x1_0000;
    assert U16(plaintext[0], plaintext[1]) == len;
    assert plaintext[LEN_PREFIX..LEN_PREFIX + len] == query[..len];
  }

  /** The round trip holds just for the messages whose length fits the prefix, whatever was drawn. */
  lemma {:induction false} RoundTrip(key: Key, query: seq<byte>, draw: Draw)
    requires Lawful(key) && |draw.nonce| == NONCE_LEN
    ensures Decode(key, Encoded(key, query, draw)) == Some(query) <==> |query| < 0x1_0000
    ensures |query| + 62 <= |Encoded(key, query, draw)| <= |query| + 222
  {
    DecodeFramed(key, draw.nonce, query, Padding(draw));
    FramedLength(key, draw.nonce, query, Padding(draw));
    if |query| < 0x1_0000 {
      assert query[..|query|] == query;
    }
  }

  ghost predicate IsFraming(key: Key, datagram: seq<byte>, query: seq<byte>, nonce: seq<byte>, padding: seq<byte>) {
    |nonce| == NONCE_LEN && datagram == Framed(key, nonce, query, padding)
  }

  /** Nothing but a framing of the query, with some padding, is read as that query. */
  lemma {:induction false} DecodesOnlyFramings(key: Key, datagram: seq<byte>, query: seq<byte>)
    requires Lawful(key)
    ensures Decode(key, datagram) == Some(query)
            <==> |query| < 0x1_0000 && exists nonce, padding :: IsFraming(key, datagram, query, nonce, padding)
  {
    if Decode(key, datagram) == Some(query) {
      var nonce := datagram[..NONCE_LEN];
      var plaintext := key.unseal(nonce, datagram[NONCE_LEN..]).value;
      var padding := plaintext[LEN_PREFIX + |query|..];
      Be16OfU16(plaintext[0], plaintext[1]);
      assert plaintext == Be16(|query|) + query + padding;
      assert datagram == nonce + datagram[NONCE_LEN..];
      assert IsFraming(key, datagram, query, nonce, padding);
    }
    if |query| < 0x1_0000 && exists nonce, padding :: IsFraming(key, datagram, query, nonce, padding) {
      var nonce, padding :| IsFraming(key, datagram, query, nonce, padding);
      DecodeFramed(key, nonce, query, padding);
      assert query[..|query|] == query;
    }
  }

  /** What a socket hands over when the datagram is longer than the buffer. */
  function Received(datagram: seq<byte>, size: nat): seq<byte> {
    if |datagram| <= size then datagram else datagram[..size]
  }

  function Widest(nonce: seq<byte>): Draw {
    Draw(PAD_MAX - PAD_MIN, i => 0, nonce)
  }

  /** A buffer holds a message's datagram whatever padding is drawn just when it has 222 bytes to spare. */
  lemma {:induction false} AlwaysFits(key: Key, query: seq<byte>, size: nat)
    requires Lawful(key)
    ensures (forall draw: Draw :: |draw.nonce| == NONCE_LEN ==> |Encoded(key, query, draw)| <= size)
            <==> |query| + 222 <= size
  {
    hide Encoded;
    forall draw: Draw | |draw.nonce| == NONCE_LEN
      ensures |query| + 62 <= |Encoded(key, query, draw)| <= |query| + 222
    {
      RoundTrip(key, query, draw);
    }
    WidestLength(key, query, seq(NONCE_LEN, i => 0));
  }

  lemma WidestLength(key: Key, query: seq<byte>, nonce: seq<byte>)
    requires Lawful(key) && |nonce| == NONCE_LEN
    ensures |Encoded(key, query, Widest(nonce))| == |query| + 222
  {
    hide Be16, Low16;
    FramedLength(key, nonce, query, Padding(Widest(nonce)));
  }

  // ---- The relay's listener, which has several keys

  ghost predicate Opens(keys: seq<Key>, k: nat, datagram: seq<byte>) {
    k < |keys| && Decode(keys[k], datagram).Some? && forall i :: 0 <= i < k ==> Decode(keys[i], datagram).None?
  }

  /** The first key that decodes the datagram, and the query it gives. */
  method FirstKey(keys: seq<Key>, datagram: seq<byte>) returns (found: Option<(nat, seq<byte>)>)
    ensures found.None? <==> forall i :: 0 <= i < |keys| ==> Decode(keys[i], datagram).None?
    ensures found.Some? ==>
              var (k, query) := found.value;
              Opens(keys, k, datagram) && Decode(keys[k], datagram) == Some(query)
  {
    for i := 0 to |keys|
      invariant forall j :: 0 <= j < i ==> Decode(keys[j], datagram).None?
    {
      var query := Decode(keys[i], datagram);
      if query.Some? {
        return Some((i, query.value));
      }
    }
    return None;
  }

  /** `other` opens nothing that `key` has sealed. */
  ghost predicate Apart(other: Key, key: Key) {
    forall nonce, p :: |nonce| == NONCE_LEN ==> other.unseal(nonce, key.seal(nonce, p)).None?
  }

  lemma ForeignIsRefused(other: Key, key: Key, nonce: seq<byte>, query: seq<byte>, padding: seq<byte>)
    requires Apart(other, key) && |nonce| == NONCE_LEN
    ensures Decode(other, Framed(key, nonce, query, padding)).None?
  {
    var datagram := Framed(key, nonce, query, padding);
    assert datagram[..NONCE_LEN] == nonce
        && datagram[NONCE_LEN..] == key.seal(nonce, Be16(Low16(|query|)) + query + padding);
  }

  /** A query of the proxy and the relay's reply both arrive whole, under the same key, whatever either side draws. */
  lemma {:induction false} Exchange(keys: seq<Key>, k: nat, query: seq<byte>, reply: seq<byte>, there: Draw, back: Draw)
    requires k < |keys| && Lawful(keys[k]) && |there.nonce| == |back.nonce| == NONCE_LEN
    requires forall i :: 0 <= i < k ==> Apart(keys[i], keys[k])
    requires |query| <= PAYLOAD_BUF_SIZE
    ensures var sent := Received(Encoded(keys[k], query, there), OBFS_PAYLOAD_BUF_SIZE);
            Decode(keys[k], sent) == Some(query) && Opens(keys, k, sent)
    ensures |reply| + 222 <= PROXY_PAYLOAD_BUF_SIZE ==>
              Decode(keys[k], Received(Encoded(keys[k], reply, back), PROXY_PAYLOAD_BUF_SIZE)) == Some(reply)
  {
    hide Decode, Lawful, Apart;
    RoundTrip(keys[k], query, there);
    RoundTrip(keys[k], reply, back);
    forall i | 0 <= i < k
      ensures Decode(keys[i], Encoded(keys[k], query, there)).None?
    {
      ForeignIsRefused(keys[i], keys[k], there.nonce, query, Padding(there));
    }
  }
}
