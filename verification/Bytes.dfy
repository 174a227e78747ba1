/** Byte sequences: what lies at a position, and 32-bit words in four bytes. */
module Bytes {

  type Byte = b: int | 0 <= b < 256

  type Word = w: int | 0 <= w < 0x1_0000_0000

  ghost predicate At(s: seq<Byte>, i: nat, bs: seq<Byte>) {
    i + |bs| <= |s| && s[i..i + |bs|] == bs
  }

  lemma AtIs(s: seq<Byte>, i: nat, bs: seq<Byte>)
    requires At(s, i, bs)
    ensures i + |bs| <= |s| && s[i..i + |bs|] == bs
  {
  }

  lemma AtParts(s: seq<Byte>, i: nat, a: seq<Byte>, b: seq<Byte>)
    ensures At(s, i, a + b) <==> At(s, i, a) && At(s, i + |a|, b)
  {
    if i + |a| + |b| <= |s| {
      var w := s[i..i + |a| + |b|];
      assert w == s[i..i + |a|] + s[i + |a|..i + |a| + |b|];
      assert w[..|a|] == s[i..i + |a|] && w[|a|..] == s[i + |a|..i + |a| + |b|];
      assert (a + b)[..|a|] == a && (a + b)[|a|..] == b;
    }
  }

  lemma AtByte(s: seq<Byte>, i: nat, b: Byte)
    ensures At(s, i, [b]) <==> i < |s| && s[i] == b
  {
    if i < |s| {
      assert s[i..i + 1] == [s[i]];
    }
  }

  /** A word, the lowest byte first. */
  function WordBytes(w: Word): (bs: seq<Byte>)
    ensures |bs| == 4
  {
    [w % 256, w / 256 % 256, w / 65536 % 256, w / 16777216]
  }

  function WordOf(bs: seq<Byte>): Word
    requires |bs| == 4
  {
    var b0: int, b1: int, b2: int, b3: int := bs[0], bs[1], bs[2], bs[3];
    b0 + 256 * b1 + 65536 * b2 + 16777216 * b3
  }

  lemma WordInverse(w: Word)
    ensures WordOf(WordBytes(w)) == w
  {
    var a := w / 256;
    var b := a / 256;
    assert w == 256 * a + w % 256 && a == 256 * b + a % 256 && b == 256 * (b / 256) + b % 256;
    assert w / 65536 == b && w / 16777216 == b / 256;
  }
}
