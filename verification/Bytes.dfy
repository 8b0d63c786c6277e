/** Bytes, and the words made of them, low byte first. */
module Bytes {
  type Byte = b: int | 0 <= b < 0x100
  type Word = w: int | 0 <= w < 0x1_0000

  function WordBytes(w: Word): (bytes: seq<Byte>)
    ensures |bytes| == 2
  {
    [w % 0x100, w / 0x100]
  }

  function WordAt(bytes: seq<Byte>): Word
    requires |bytes| >= 2
  {
    bytes[0] as int + bytes[1] as int * 0x100
  }

  lemma WordRoundTrip(w: Word, rest: seq<Byte>)
    ensures WordAt(WordBytes(w) + rest) == w
  {
  }
}
