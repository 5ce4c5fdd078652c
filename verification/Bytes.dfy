// 32-bit words and their byte images: what htonl, ntohl and memcpy do to a word
// on its way to and from a character buffer.

module Bytes {

  const TWO_32 := 0x1_0000_0000

  type byte = b: int | 0 <= b < 0x100

  type uint32 = w: int | 0 <= w < TWO_32

  /** The network (big-endian) image of a word. */
  function BigEndian(w: uint32): (image: seq<byte>)
    ensures |image| == 4
  {
    [w / 0x100_0000, w / 0x1_0000 % 0x100, w / 0x100 % 0x100, w % 0x100]
  }

  /** The word whose big-endian image starts at offset `at` of `buffer`. */
  function WordAt(buffer: seq<byte>, at: nat): uint32
    requires at + 4 <= |buffer|
  {
    var b0: int, b1: int, b2: int, b3: int := buffer[at], buffer[at + 1], buffer[at + 2], buffer[at + 3];
    b0 * 0x100_0000 + b1 * 0x1_0000 + b2 * 0x100 + b3
  }

  /** Writing a word and reading it back, wherever the image lies in the buffer. */
  lemma ReadBack(w: uint32, before: seq<byte>, after: seq<byte>)
    ensures WordAt(before + BigEndian(w) + after, |before|) == w
  {
    var buffer := before + BigEndian(w) + after;
    assert forall i :: 0 <= i < 4 ==> buffer[|before| + i] == BigEndian(w)[i];
    assert w / 0x100 == w / 0x1_0000 * 0x100 + w / 0x100 % 0x100;
    assert w / 0x1_0000 == w / 0x100_0000 * 0x100 + w / 0x1_0000 % 0x100;
  }

  /** The digits of a number in base 256 are found by division. */
  lemma Digits(b0: byte, b1: byte, b2: byte, b3: byte)
    ensures var w: int := b0 as int * 0x100_0000 + b1 as int * 0x1_0000 + b2 as int * 0x100 + b3 as int;
            w / 0x100_0000 == b0 && w / 0x1_0000 % 0x100 == b1 && w / 0x100 % 0x100 == b2 && w % 0x100 == b3
  {
    var c0: int, c1: int, c2: int, c3: int := b0, b1, b2, b3;
    var w := c0 * 0x100_0000 + c1 * 0x1_0000 + c2 * 0x100 + c3;
    assert w / 0x100 == c0 * 0x1_0000 + c1 * 0x100 + c2;
    assert w / 0x1_0000 == c0 * 0x100 + c1;
  }

  /** Reading a word and writing it back restores the four bytes. */
  lemma WriteBack(buffer: seq<byte>, at: nat)
    requires at + 4 <= |buffer|
    ensures BigEndian(WordAt(buffer, at)) == buffer[at..at + 4]
  {
    Digits(buffer[at], buffer[at + 1], buffer[at + 2], buffer[at + 3]);
  }

  function Power256(n: nat): (p: nat)
    ensures p >= 1
  {
    if n == 0 then 1 else 0x100 * Power256(n - 1)
  }

  /** Which digit of the word each byte of an image is: in network order the most significant comes first,
      in the memory of a little-endian host last. */
  lemma DigitOfWord(w: uint32, i: nat)
    requires i < 4
    ensures BigEndian(w)[i] == w / Power256(3 - i) % 0x100
    ensures Image(Big, w)[i] == w / Power256(3 - i) % 0x100
    ensures Image(Little, w)[i] == w / Power256(i) % 0x100
  {
    assert Power256(0) == 1 && Power256(1) == 0x100 && Power256(2) == 0x1_0000 && Power256(3) == 0x100_0000;
  }

  /** What four bytes of a buffer amount to as a word. */
  lemma WordOfDigits(buffer: seq<byte>, at: nat)
    requires at + 4 <= |buffer|
    ensures WordAt(buffer, at) as int == buffer[at] as int * Power256(3) + buffer[at + 1] as int * Power256(2) +
                                         buffer[at + 2] as int * Power256(1) + buffer[at + 3] as int * Power256(0)
  {
    assert Power256(0) == 1 && Power256(1) == 0x100 && Power256(2) == 0x1_0000 && Power256(3) == 0x100_0000;
  }

  /** Words compare as their images do at the first byte in which they differ. */
  lemma FirstDifferenceDecides(x: seq<byte>, y: seq<byte>, i: nat)
    requires |x| == |y| == 4 && i < 4 && x[..i] == y[..i] && x[i] != y[i]
    ensures WordAt(x, 0) < WordAt(y, 0) <==> x[i] < y[i]
  {
    assert forall k :: 0 <= k < i ==> x[..i][k] == y[..i][k];
  }

  /** A word whose last bytes are cut off is at least the word with zeroes there. */
  lemma ZeroFillIsLeast(known: seq<byte>, a: seq<byte>, at: nat)
    requires at <= |known| < at + 4 <= |known| + |a|
    ensures WordAt(known + seq(at + 4 - |known|, _ => 0), at) <= WordAt(known + a, at)
  {
  }

  // ----- The host's own byte order, which htonl and ntohl make invisible -----

  datatype Host = Little | Big

  /** The bytes memcpy takes from a word held in memory. */
  function Image(host: Host, w: uint32): (image: seq<byte>)
    ensures |image| == 4
  {
    var be := BigEndian(w);
    if host.Big? then be else [be[3], be[2], be[1], be[0]]
  }

  /** The word that results when memcpy fills it from four bytes. */
  function Load(host: Host, image: seq<byte>): uint32
    requires |image| == 4
  {
    WordAt(if host.Big? then image else [image[3], image[2], image[1], image[0]], 0)
  }

  /** htonl and ntohl are the same map: the identity on one host, a byte swap on the other. */
  function Htonl(host: Host, w: uint32): uint32 {
    var be := BigEndian(w);
    if host.Big? then w else WordAt([be[3], be[2], be[1], be[0]], 0)
  }

  /** Storing htonl(w) with memcpy puts the big-endian image in the buffer on either host. */
  lemma StoreIsBigEndian(host: Host, w: uint32)
    ensures Image(host, Htonl(host, w)) == BigEndian(w)
  {
    var be := BigEndian(w);
    WriteBack([be[3], be[2], be[1], be[0]], 0);
  }

  /** Loading with memcpy from any offset and applying ntohl reads the big-endian word on either host. */
  lemma LoadIsBigEndian(host: Host, buffer: seq<byte>, at: nat)
    requires at + 4 <= |buffer|
    ensures Htonl(host, Load(host, buffer[at..at + 4])) == WordAt(buffer, at)
  {
    var image := buffer[at..at + 4];
    WriteBack([image[3], image[2], image[1], image[0]], 0);
  }
}
