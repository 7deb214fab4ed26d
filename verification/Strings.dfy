/** The string operations the source uses, on UTF-8 bytes, with ASCII case folding. */
module Strings {
  import opened Bytes

  const DOT: byte := 46
  const STAR: byte := 42

  function LowerByte(b: byte): byte {
    if 65 <= b <= 90 then b + 32 else b
  }

  /** `to_lowercase`. */
  function Lower(t: Text): (r: Text)
    ensures |r| == |t| && forall i :: 0 <= i < |t| ==> r[i] == LowerByte(t[i])
  {
    seq(|t|, i requires 0 <= i < |t| => LowerByte(t[i]))
  }

  /** Folding takes the letters from A to Z to those from a to z, and nothing else anywhere. */
  lemma LowerLetters(b: byte)
    ensures 'A' as int <= b <= 'Z' as int ==> LowerByte(b) == b - 'A' as int + 'a' as int
    ensures !('A' as int <= b <= 'Z' as int) ==> LowerByte(b) == b
  {
  }

  lemma LowerAppend(a: Text, b: Text)
    ensures Lower(a + b) == Lower(a) + Lower(b)
  {
  }

  /** `trim_end_matches('.')`. */
  function TrimDots(t: Text): (r: Text)
    ensures r <= t && (r != [] ==> r[|r| - 1] != DOT)
  {
    if t != [] && t[|t| - 1] == DOT then TrimDots(t[..|t| - 1]) else t
  }

  /** ASCII white space. */
  predicate White(b: byte) {
    9 <= b <= 13 || b == 32
  }

  function TrimStart(t: Text): Text {
    if t != [] && White(t[0]) then TrimStart(t[1..]) else t
  }

  function TrimEnd(t: Text): Text {
    if t != [] && White(t[|t| - 1]) then TrimEnd(t[..|t| - 1]) else t
  }

  /** `trim`. */
  function Trim(t: Text): Text {
    TrimEnd(TrimStart(t))
  }

  /** `strip_prefix("*.").unwrap_or(..)`. */
  function StripStar(t: Text): Text {
    if HasStar(t) then t[2..] else t
  }

  predicate HasStar(t: Text) {
    |t| >= 2 && t[0] == STAR && t[1] == DOT
  }

  /** `split_once(sep)`. */
  function SplitOnce(t: Text, sep: byte): Option<(Text, Text)> {
    if t == [] then None
    else if t[0] == sep then Some(([], t[1..]))
    else
      match SplitOnce(t[1..], sep)
      case None => None
      case Some(r) => Some(([t[0]] + r.0, r.1))
  }

  /** `split(sep)`: always at least one part. */
  function Split(t: Text, sep: byte): (r: seq<Text>)
    ensures |r| >= 1
  {
    if t == [] then [[]]
    else if t[0] == sep then [[]] + Split(t[1..], sep)
    else
      var r := Split(t[1..], sep);
      [[t[0]] + r[0]] + r[1..]
  }

  function Join(parts: seq<Text>, sep: byte): Text
    requires |parts| >= 1
  {
    if |parts| == 1 then parts[0] else parts[0] + [sep] + Join(parts[1..], sep)
  }

  lemma JoinNew(r: seq<Text>, sep: byte)
    requires |r| >= 1
    ensures Join([[]] + r, sep) == [sep] + Join(r, sep)
  {
    assert ([[]] + r)[1..] == r;
  }

  lemma JoinLonger(c: byte, r: seq<Text>, sep: byte)
    requires |r| >= 1
    ensures Join([[c] + r[0]] + r[1..], sep) == [c] + Join(r, sep)
  {
    var r' := [[c] + r[0]] + r[1..];
    assert r'[1..] == r[1..];
    if |r| > 1 {
      assert r'[0] + [sep] + Join(r[1..], sep) == [c] + (r[0] + [sep] + Join(r[1..], sep));
    }
  }

  lemma {:induction false} JoinSplit(t: Text, sep: byte)
    ensures Join(Split(t, sep), sep) == t
  {
    assert Join([[]], sep) == [];
    hide Join;
    if t != [] {
      JoinSplit(t[1..], sep);
      JoinNew(Split(t[1..], sep), sep);
      JoinLonger(t[0], Split(t[1..], sep), sep);
    } else {
    }
  }

  /** Splitting at a separator in the middle gives the parts of both sides. */
  lemma {:induction false} SplitAt(a: Text, b: Text, sep: byte)
    ensures Split(a + [sep] + b, sep) == Split(a, sep) + Split(b, sep)
  {
    var t := a + [sep] + b;
    if a == [] {
      assert t[1..] == b;
    } else {
      assert t[1..] == a[1..] + [sep] + b;
      SplitAt(a[1..], b, sep);
    }
  }

  lemma {:induction false} JoinAppend(a: seq<Text>, b: seq<Text>, sep: byte)
    requires a != [] && b != []
    ensures Join(a + b, sep) == Join(a, sep) + [sep] + Join(b, sep)
  {
    assert (a + b)[0] == a[0];
    if |a| == 1 {
      assert (a + b)[1..] == b;
    } else {
      assert (a + b)[1..] == a[1..] + b;
      JoinAppend(a[1..], b, sep);
    }
  }

  /** No part holds the separator; the first one goes up to the first separator. */
  lemma {:induction false} SplitParts(t: Text, sep: byte)
    ensures forall part <- Split(t, sep) :: sep !in part
    ensures Split(t, sep)[0] == t || Split(t, sep)[0] + [sep] <= t
  {
    if t != [] {
      SplitParts(t[1..], sep);
      assert t == [t[0]] + t[1..];
    }
  }

  lemma {:induction false} SplitOne(t: Text, sep: byte)
    requires sep !in t
    ensures Split(t, sep) == [t]
  {
    if t != [] {
      assert sep !in t[1..];
      SplitOne(t[1..], sep);
      assert [t[0]] + t[1..] == t;
    }
  }

  /** Splitting undoes joining when no part holds the separator. */
  lemma {:induction false} SplitJoin(parts: seq<Text>, sep: byte)
    requires |parts| >= 1 && forall part <- parts :: sep !in part
    ensures Split(Join(parts, sep), sep) == parts
  {
    assert parts[0] in parts;
    SplitOne(parts[0], sep);
    if |parts| == 1 {
      assert parts == [parts[0]];
    } else {
      assert forall part <- parts[1..] :: part in parts;
      SplitJoin(parts[1..], sep);
      SplitAt(parts[0], Join(parts[1..], sep), sep);
      assert parts == [parts[0]] + parts[1..];
    }
  }

  function LowerAll(parts: seq<Text>): (r: seq<Text>)
    ensures |r| == |parts| && forall i :: 0 <= i < |r| ==> r[i] == Lower(parts[i])
  {
    seq(|parts|, i requires 0 <= i < |parts| => Lower(parts[i]))
  }

  lemma {:induction false} LowerJoin(parts: seq<Text>, sep: byte)
    requires |parts| >= 1 && LowerByte(sep) == sep
    ensures Lower(Join(parts, sep)) == Join(LowerAll(parts), sep)
  {
    if |parts| > 1 {
      assert LowerAll(parts)[1..] == LowerAll(parts[1..]);
      LowerJoin(parts[1..], sep);
      LowerAppend(parts[0] + [sep], Join(parts[1..], sep));
      LowerAppend(parts[0], [sep]);
    }
  }

  // ---- `std::str::from_utf8` (table 3-7 of the Unicode standard)

  predicate Cont(b: byte) {
    0x80 <= b <= 0xBF
  }

  /** Bytes of the well-formed character at the front of `b`, or 0. */
  function CharLen(b: seq<byte>): (n: nat)
    ensures n <= |b|
  {
    if |b| >= 1 && b[0] < 0x80 then 1
    else if |b| >= 2 && 0xC2 <= b[0] <= 0xDF && Cont(b[1]) then 2
    else if |b| >= 3 && 0xE0 <= b[0] <= 0xEF && Cont(b[1]) && Cont(b[2])
            && (b[0] == 0xE0 ==> b[1] >= 0xA0) && (b[0] == 0xED ==> b[1] <= 0x9F) then 3
    else if |b| >= 4 && 0xF0 <= b[0] <= 0xF4 && Cont(b[1]) && Cont(b[2]) && Cont(b[3])
            && (b[0] == 0xF0 ==> b[1] >= 0x90) && (b[0] == 0xF4 ==> b[1] <= 0x8F) then 4
    else 0
  }

  predicate ValidUtf8(b: seq<byte>)
    decreases |b|
  {
    b == [] || (CharLen(b) > 0 && ValidUtf8(b[CharLen(b)..]))
  }

  lemma {:induction false} AsciiIsUtf8(b: seq<byte>)
    requires forall i :: 0 <= i < |b| ==> b[i] < 0x80
    ensures ValidUtf8(b)
  {
    if b != [] {
      AsciiIsUtf8(b[1..]);
    }
  }
}
