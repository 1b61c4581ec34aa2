/** Bytes, 32-bit words in little-endian order, and overwriting part of a buffer. */
module Bytes {
  newtype byte = n: int | 0 <= n < 256

  type Word = n: int | 0 <= n < 0x1_0000_0000

  function ByteOf(w: Word, k: nat): byte
    requires k < 4
  {
    match k
    case 0 => (w % 0x100) as byte
    case 1 => (w / 0x100 % 0x100) as byte
    case 2 => (w / 0x1_0000 % 0x100) as byte
    case _ => (w / 0x100_0000) as byte
  }

  function WordOf(b0: byte, b1: byte, b2: byte, b3: byte): Word {
    b0 as int + 0x100 * b1 as int + 0x1_0000 * b2 as int + 0x100_0000 * b3 as int
  }

  lemma WordSurvivesBytes(w: Word)
    ensures WordOf(ByteOf(w, 0), ByteOf(w, 1), ByteOf(w, 2), ByteOf(w, 3)) == w
  {
    assert w / 0x1_0000 == w / 0x100 / 0x100;
    assert w / 0x100_0000 == w / 0x1_0000 / 0x100;
  }

  function EncodeWords(ws: seq<Word>): (bs: seq<byte>)
    ensures |bs| == 4 * |ws|
  {
    seq(4 * |ws|, i requires 0 <= i < 4 * |ws| => ByteOf(ws[i / 4], i % 4))
  }

  function DecodeWords(bs: seq<byte>): (ws: seq<Word>)
    ensures |ws| == |bs| / 4
  {
    seq(|bs| / 4, i requires 0 <= i < |bs| / 4 => WordOf(bs[4 * i], bs[4 * i + 1], bs[4 * i + 2], bs[4 * i + 3]))
  }

  lemma WordAt(ws: seq<Word>, i: nat)
    requires i < |ws|
    ensures var bs := EncodeWords(ws);
            && bs[4 * i] == ByteOf(ws[i], 0) && bs[4 * i + 1] == ByteOf(ws[i], 1)
            && bs[4 * i + 2] == ByteOf(ws[i], 2) && bs[4 * i + 3] == ByteOf(ws[i], 3)
  {
    QuarterOf(i, 0);
    QuarterOf(i, 1);
    QuarterOf(i, 2);
    QuarterOf(i, 3);
  }

  lemma QuarterOf(i: nat, k: nat)
    requires k < 4
    ensures (4 * i + k) / 4 == i && (4 * i + k) % 4 == k
  {
  }

  lemma DecodedWord(ws: seq<Word>, i: nat)
    requires i < |ws|
    ensures DecodeWords(EncodeWords(ws))[i] == ws[i]
  {
    WordAt(ws, i);
    WordSurvivesBytes(ws[i]);
  }

  /** A word takes four bytes, the lowest first. */
  lemma LowByteFirst(ws: seq<Word>, i: nat)
    requires i < |ws|
    ensures |EncodeWords(ws)| == 4 * |ws|
    ensures EncodeWords(ws)[4 * i] as int == ws[i] % 0x100
    ensures EncodeWords(ws)[4 * i + 1] as int == ws[i] / 0x100 % 0x100
    ensures EncodeWords(ws)[4 * i + 2] as int == ws[i] / 0x1_0000 % 0x100
    ensures EncodeWords(ws)[4 * i + 3] as int == ws[i] / 0x100_0000
  {
    WordAt(ws, i);
    WordSurvivesBytes(ws[i]);
  }

  lemma WordsSurviveBytes(ws: seq<Word>)
    ensures DecodeWords(EncodeWords(ws)) == ws
  {
    var rs := DecodeWords(EncodeWords(ws));
    forall i | 0 <= i < |ws|
      ensures rs[i] == ws[i]
    {
      DecodedWord(ws, i);
    }
  }

  lemma ByteSurvivesWord(b0: byte, b1: byte, b2: byte, b3: byte, k: nat)
    requires k < 4
    ensures ByteOf(WordOf(b0, b1, b2, b3), k) == [b0, b1, b2, b3][k]
  {
    var w := WordOf(b0, b1, b2, b3);
    assert w / 0x100 == b1 as int + 0x100 * b2 as int + 0x1_0000 * b3 as int;
    assert w / 0x1_0000 == b2 as int + 0x100 * b3 as int;
    assert w / 0x100_0000 == b3 as int;
  }

  lemma BytesSurviveWords(bs: seq<byte>)
    requires exists n :: |bs| == 4 * n
    ensures EncodeWords(DecodeWords(bs)) == bs
  {
    assert |bs| == 4 * (|bs| / 4);
    forall i | 0 <= i < |bs|
      ensures EncodeWords(DecodeWords(bs))[i] == bs[i]
    {
      var k := i / 4;
      ByteSurvivesWord(bs[4 * k], bs[4 * k + 1], bs[4 * k + 2], bs[4 * k + 3], i % 4);
      assert i == 4 * k + i % 4;
    }
  }

  function Zeros(n: nat): (bs: seq<byte>)
    ensures |bs| == n && forall i :: 0 <= i < n ==> bs[i] == 0
  {
    seq(n, _ => 0)
  }

  /** `bs` with `piece` written over it from `offset` on. */
  function Splice(bs: seq<byte>, offset: nat, piece: seq<byte>): (r: seq<byte>)
    requires offset + |piece| <= |bs|
    ensures |r| == |bs|
    ensures forall i :: 0 <= i < |bs| ==> r[i] == if offset <= i < offset + |piece| then piece[i - offset] else bs[i]
  {
    bs[..offset] + piece + bs[offset + |piece|..]
  }
}
