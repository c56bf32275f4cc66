/** Reading a pixel by the name of its format: DRM names channels from the top of a little-endian
    word. */
module Fourcc {
  import opened Pixels

  /** Four letters, one for each byte of a word from the top; `X` is a byte that means nothing. */
  type Name = s: string | |s| == 4 witness "ARGB"

  /** The byte a channel's letter names; a channel not named is full. */
  function Reads(word: Pixel, name: Name, letter: char): Byte {
    if name[0] == letter then Channel(word, 3)
    else if name[1] == letter then Channel(word, 2)
    else if name[2] == letter then Channel(word, 1)
    else if name[3] == letter then Channel(word, 0)
    else 255
  }

  /** The color a word shows. */
  function Seen(word: Pixel, name: Name): Pixel {
    Pack(Reads(word, name, 'A'), Reads(word, name, 'R'), Reads(word, name, 'G'), Reads(word, name, 'B'))
  }

  /** Three letters for the five, six and five bits of a half word, from the top. */
  type ShortName = s: string | |s| == 3 witness "RGB"

  function ReadsShort(word: nat, name: ShortName, letter: char): nat {
    if name[0] == letter then word / 2048
    else if name[1] == letter then word / 32 % 64
    else word % 32
  }

  /** The word four bytes of memory hold, lowest first. */
  function LittleEndian(bytes: seq<Byte>): nat {
    if bytes == [] then 0 else bytes[0] + 256 * LittleEndian(bytes[1..])
  }

  /** So four bytes are the four channels of their word, lowest first. */
  lemma FourBytes(bytes: seq<Byte>)
    requires |bytes| == 4
    ensures LittleEndian(bytes) == Pack(bytes[3], bytes[2], bytes[1], bytes[0])
  {
    assert bytes[1..][1..] == bytes[2..];
    TwoBytes(bytes[2..]);
    assert LittleEndian(bytes[1..]) == bytes[1] + 256 * LittleEndian(bytes[2..]);
  }

  lemma TwoBytes(bytes: seq<Byte>)
    requires |bytes| == 2
    ensures
      var low: nat, high: nat := bytes[0], bytes[1];
      LittleEndian(bytes) == low + 256 * high < 0x1_0000
  {
    assert LittleEndian(bytes[1..]) == bytes[1] + 256 * LittleEndian(bytes[1..][1..]);
  }
}
