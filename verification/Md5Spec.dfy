/** The MD5 message-digest algorithm as RFC 1321 defines it, over words and bytes as
    bit vectors. */
module Md5Spec {

  type Byte = bv8
  type Word = bv32

  datatype Regs = Regs(a: Word, b: Word, c: Word, d: Word)

  // Section 3.4: auxiliary functions.
  function F(x: Word, y: Word, z: Word): Word { (x & y) | (!x & z) }
  function G(x: Word, y: Word, z: Word): Word { (x & z) | (y & !z) }
  function H(x: Word, y: Word, z: Word): Word { x ^ y ^ z }
  function I(x: Word, y: Word, z: Word): Word { y ^ (x | !z) }

  // Section 3.4: the sine table T, sixteen elements for each round.
  function Sine1(j: nat): Word
    requires j < 16
  {
    match j
    case 0 => 0xd76aa478
    case 1 => 0xe8c7b756
    case 2 => 0x242070db
    case 3 => 0xc1bdceee
    case 4 => 0xf57c0faf
    case 5 => 0x4787c62a
    case 6 => 0xa8304613
    case 7 => 0xfd469501
    case 8 => 0x698098d8
    case 9 => 0x8b44f7af
    case 10 => 0xffff5bb1
    case 11 => 0x895cd7be
    case 12 => 0x6b901122
    case 13 => 0xfd987193
    case 14 => 0xa679438e
    case _ => 0x49b40821
  }

  function Sine2(j: nat): Word
    requires j < 16
  {
    match j
    case 0 => 0xf61e2562
    case 1 => 0xc040b340
    case 2 => 0x265e5a51
    case 3 => 0xe9b6c7aa
    case 4 => 0xd62f105d
    case 5 => 0x02441453
    case 6 => 0xd8a1e681
    case 7 => 0xe7d3fbc8
    case 8 => 0x21e1cde6
    case 9 => 0xc33707d6
    case 10 => 0xf4d50d87
    case 11 => 0x455a14ed
    case 12 => 0xa9e3e905
    case 13 => 0xfcefa3f8
    case 14 => 0x676f02d9
    case _ => 0x8d2a4c8a
  }

  function Sine3(j: nat): Word
    requires j < 16
  {
    match j
    case 0 => 0xfffa3942
    case 1 => 0x8771f681
    case 2 => 0x6d9d6122
    case 3 => 0xfde5380c
    case 4 => 0xa4beea44
    case 5 => 0x4bdecfa9
    case 6 => 0xf6bb4b60
    case 7 => 0xbebfbc70
    case 8 => 0x289b7ec6
    case 9 => 0xeaa127fa
    case 10 => 0xd4ef3085
    case 11 => 0x04881d05
    case 12 => 0xd9d4d039
    case 13 => 0xe6db99e5
    case 14 => 0x1fa27cf8
    case _ => 0xc4ac5665
  }

  function Sine4(j: nat): Word
    requires j < 16
  {
    match j
    case 0 => 0xf4292244
    case 1 => 0x432aff97
    case 2 => 0xab9423a7
    case 3 => 0xfc93a039
    case 4 => 0x655b59c3
    case 5 => 0x8f0ccc92
    case 6 => 0xffeff47d
    case 7 => 0x85845dd1
    case 8 => 0x6fa87e4f
    case 9 => 0xfe2ce6e0
    case 10 => 0xa3014314
    case 11 => 0x4e0811a1
    case 12 => 0xf7537e82
    case 13 => 0xbd3af235
    case 14 => 0x2ad7d2bb
    case _ => 0xeb86d391
  }

  /** Element i + 1 of the table. */
  function Sine(i: nat): Word
    requires i < 64
  {
    if i < 16 then Sine1(i) else if i < 32 then Sine2(i - 16) else if i < 48 then Sine3(i - 32) else Sine4(i - 48)
  }

  function Aux(i: nat, x: Word, y: Word, z: Word): Word {
    if i < 16 then F(x, y, z) else if i < 32 then G(x, y, z) else if i < 48 then H(x, y, z) else I(x, y, z)
  }

  /** Which message word operation i uses. */
  function Pick(i: nat): (k: nat)
    ensures k < 16
  {
    if i < 16 then i else if i < 32 then (5 * i + 1) % 16 else if i < 48 then (3 * i + 5) % 16 else 7 * i % 16
  }

  /** How far operation i rotates. */
  function Shift(i: nat): (s: nat)
    ensures 4 <= s <= 23
  {
    if i < 16 then [7, 12, 17, 22][i % 4]
    else if i < 32 then [5, 9, 14, 20][i % 4]
    else if i < 48 then [4, 11, 16, 23][i % 4]
    else [6, 10, 15, 21][i % 4]
  }

  // Addition of words is modulo 2^32.
  function Add(x: Word, y: Word): Word { x + y }
  function Sum(a: Word, f: Word, x: Word, t: Word): Word { a + f + x + t }

  function Rotate(x: Word, s: nat): Word
    requires s <= 32
  {
    x.RotateLeft(s)
  }

  /** The value operation i writes: b + ((a + f(b, c, d) + X[k] + T[i]) <<< s). */
  function Mix(i: nat, a: Word, b: Word, c: Word, d: Word, x: seq<Word>): Word
    requires |x| == 16 && i < 64
  {
    Add(b, Rotate(Sum(a, Aux(i, b, c, d), x[Pick(i)], Sine(i)), Shift(i)))
  }

  /** Operation i writes the register it names first; the names then move round. */
  function Operation(r: Regs, x: seq<Word>, i: nat): Regs
    requires |x| == 16 && i < 64
  {
    Regs(r.d, Mix(i, r.a, r.b, r.c, r.d, x), r.b, r.c)
  }

  function Operations(r: Regs, x: seq<Word>, n: nat): Regs
    requires |x| == 16 && n <= 64
  {
    if n == 0 then r else Operation(Operations(r, x, n - 1), x, n - 1)
  }

  /** Section 2: four bytes make a word, low-order byte first. */
  function ToWord(b: seq<Byte>): Word
    requires |b| == 4
  {
    (b[0] as Word) | ((b[1] as Word) << 8) | ((b[2] as Word) << 16) | ((b[3] as Word) << 24)
  }

  function ToWords(b: seq<Byte>): (x: seq<Word>)
    requires |b| == 64
    ensures |x| == 16
  {
    seq(16, j requires 0 <= j < 16 => ToWord(b[4 * j..4 * j + 4]))
  }

  function Compress(h: Regs, block: seq<Byte>): Regs
    requires |block| == 64
  {
    var r := Operations(h, ToWords(block), 64);
    Regs(Add(h.a, r.a), Add(h.b, r.b), Add(h.c, r.c), Add(h.d, r.d))
  }

  /** Section 3.3. */
  const IV: Regs := Regs(0x67452301, 0xefcdab89, 0x98badcfe, 0x10325476)

  function Fold(m: seq<Byte>): Regs
    requires |m| % 64 == 0
  {
    if m == [] then IV else Compress(Fold(m[..|m| - 64]), m[|m| - 64..])
  }

  const WORDS: nat := 0x1_0000_0000

  /** The low-order 32 bits of n as four bytes, low-order byte first. */
  function LowBytes(n: nat): (b: seq<Byte>)
    ensures |b| == 4
  {
    [(n % 0x100) as Byte, (n / 0x100 % 0x100) as Byte, (n / 0x1_0000 % 0x100) as Byte, (n / 0x100_0000 % 0x100) as Byte]
  }

  /** Section 3.1: one bit 1, then zeroes up to 56 bytes modulo 64. */
  function Padding(n: nat): (p: seq<Byte>)
    ensures (n + |p|) % 64 == 56 && 1 <= |p| <= 64
  {
    [0x80] + Zeroes((119 - n % 64) % 64)
  }

  /** A padded message, whose last 8 bytes hold the given length words. */
  function Padded(m: seq<Byte>, low: nat, high: nat): (p: seq<Byte>)
    ensures |p| % 64 == 0
  {
    m + Padding(|m|) + LowBytes(low) + LowBytes(high)
  }

  function ByteOf(w: Word, j: nat): Byte {
    if j == 0 then (w & 0xff) as Byte
    else if j == 1 then ((w >> 8) & 0xff) as Byte
    else if j == 2 then ((w >> 16) & 0xff) as Byte
    else (w >> 24) as Byte
  }

  function WordBytes(w: Word): (b: seq<Byte>)
    ensures |b| == 4
  {
    [ByteOf(w, 0), ByteOf(w, 1), ByteOf(w, 2), ByteOf(w, 3)]
  }

  /** Reading four bytes as a word and writing the word give the bytes back. */
  lemma WordsRead(b: seq<Byte>)
    requires |b| == 4
    ensures WordBytes(ToWord(b)) == b
  {
    FirstByte(b[0], b[1], b[2], b[3]);
    SecondByte(b[0], b[1], b[2], b[3]);
    ThirdByte(b[0], b[1], b[2], b[3]);
    FourthByte(b[0], b[1], b[2], b[3]);
  }

  lemma FirstByte(a: Byte, b: Byte, c: Byte, d: Byte)
    ensures ByteOf(ToWord([a, b, c, d]), 0) == a
  {
  }

  lemma SecondByte(a: Byte, b: Byte, c: Byte, d: Byte)
    ensures ByteOf(ToWord([a, b, c, d]), 1) == b
  {
  }

  lemma ThirdByte(a: Byte, b: Byte, c: Byte, d: Byte)
    ensures ByteOf(ToWord([a, b, c, d]), 2) == c
  {
  }

  lemma FourthByte(a: Byte, b: Byte, c: Byte, d: Byte)
    ensures ByteOf(ToWord([a, b, c, d]), 3) == d
  {
  }

  /** Section 3.5: the digest is A, B, C, D, low-order bytes first. */
  function Output(r: Regs): (b: seq<Byte>)
    ensures |b| == 16
  {
    WordBytes(r.a) + WordBytes(r.b) + WordBytes(r.c) + WordBytes(r.d)
  }

  /** Sections 3.1 to 3.5, with the length in bits as two words, low-order word first. */
  function Digest(m: seq<Byte>): (d: seq<Byte>)
    ensures |d| == 16
  {
    Output(Fold(Padded(m, 8 * |m| % WORDS, 8 * |m| / WORDS % WORDS)))
  }

  lemma FoldSnoc(m: seq<Byte>, block: seq<Byte>)
    requires |m| % 64 == 0 && |block| == 64
    ensures Fold(m + block) == Compress(Fold(m), block)
  {
    assert (m + block)[..|m + block| - 64] == m && (m + block)[|m + block| - 64..] == block;
  }

  /** The registers hold the message up to the buffered bytes, which are its last ones. */
  ghost predicate Folded(r: Regs, buffered: seq<Byte>, m: seq<Byte>) {
    && |buffered| <= 64 && |buffered| <= |m| && (|m| - |buffered|) % 64 == 0
    && r == Fold(m[..|m| - |buffered|]) && buffered == m[|m| - |buffered|..]
  }

  lemma FoldedMore(r: Regs, buffered: seq<Byte>, m: seq<Byte>, more: seq<Byte>)
    requires Folded(r, buffered, m) && |buffered| + |more| <= 64
    ensures Folded(r, buffered + more, m + more)
  {
    hide Fold;
    assert (m + more)[..|m| - |buffered|] == m[..|m| - |buffered|];
    assert (m + more)[|m| - |buffered|..] == m[|m| - |buffered|..] + more;
  }

  lemma FoldedBlock(r: Regs, block: seq<Byte>, m: seq<Byte>)
    requires |block| == 64 && Folded(r, block, m)
    ensures Folded(Compress(r, block), [], m)
  {
    hide Compress, Fold;
    var n := |m| - 64;
    FoldSnoc(m[..n], block);
    assert m[..n] + block == m && m[..|m|] == m;
  }

  /** The last block: 56 buffered bytes and the 8 of the length. */
  lemma LastBlock(r: Regs, buffered: seq<Byte>, m: seq<Byte>, length: seq<Byte>)
    requires Folded(r, buffered, m) && |buffered| == 56 && |length| == 8
    ensures (|m| + 8) % 64 == 0 && Fold(m + length) == Compress(r, buffered + length)
  {
    hide Fold, Compress;
    var n := |m| - 56;
    assert m + length == m[..n] + (buffered + length);
    FoldSnoc(m[..n], buffered + length);
  }

  function Zeroes(n: nat): (z: seq<Byte>)
    ensures |z| == n
  {
    seq(n, _ => 0)
  }

  /** A tail of up to 55 bytes is padded within its block. */
  lemma PadShort(m: seq<Byte>)
    requires |m| % 64 < 56
    ensures m + [0x80] + Zeroes(55 - |m| % 64) == m + Padding(|m|)
  {
    assert Padding(|m|) == [0x80] + Zeroes(55 - |m| % 64);
  }

  /** A longer tail takes 56 bytes of the next block too. */
  lemma PadLong(m: seq<Byte>)
    requires |m| % 64 >= 56
    ensures m + [0x80] + Zeroes(63 - |m| % 64) + Zeroes(56) == m + Padding(|m|)
  {
    assert Padding(|m|) == [0x80] + (Zeroes(63 - |m| % 64) + Zeroes(56));
  }

  function Concat(chunks: seq<seq<Byte>>): seq<Byte> {
    if chunks == [] then [] else Concat(chunks[..|chunks| - 1]) + chunks[|chunks| - 1]
  }

  lemma Split(m: seq<Byte>, more: seq<Byte>, p: nat)
    requires p <= |more|
    ensures m + more[..p] + more[p..] == m + more
  {
  }

  lemma NoChunks()
    ensures Concat([]) == []
  {
  }

  lemma ConcatNext(chunks: seq<seq<Byte>>, k: nat)
    requires k < |chunks|
    ensures Concat(chunks[..k + 1]) == Concat(chunks[..k]) + chunks[k]
  {
    assert chunks[..k + 1][..k] == chunks[..k];
  }
}
