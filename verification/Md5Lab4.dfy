/** lab4/md5.c: a state that counts bits in two words and pads by appending. */
module Md5Lab4 {
  import opened Md5Spec
  import opened Md5Rounds
  import opened Md5Length

  // The table, most of it written as complements.
  const T_MASK: Word := 0xffffffff
  const T1: Word := T_MASK ^ 0x28955b87
  const T2: Word := T_MASK ^ 0x173848a9
  const T3: Word := 0x242070db
  const T4: Word := T_MASK ^ 0x3e423111
  const T5: Word := T_MASK ^ 0x0a83f050
  const T6: Word := 0x4787c62a
  const T7: Word := T_MASK ^ 0x57cfb9ec
  const T8: Word := T_MASK ^ 0x02b96afe
  const T9: Word := 0x698098d8
  const T10: Word := T_MASK ^ 0x74bb0850
  const T11: Word := T_MASK ^ 0x0000a44e
  const T12: Word := T_MASK ^ 0x76a32841
  const T13: Word := 0x6b901122
  const T14: Word := T_MASK ^ 0x02678e6c
  const T15: Word := T_MASK ^ 0x5986bc71
  const T16: Word := 0x49b40821
  const T17: Word := T_MASK ^ 0x09e1da9d
  const T18: Word := T_MASK ^ 0x3fbf4cbf
  const T19: Word := 0x265e5a51
  const T20: Word := T_MASK ^ 0x16493855
  const T21: Word := T_MASK ^ 0x29d0efa2
  const T22: Word := 0x02441453
  const T23: Word := T_MASK ^ 0x275e197e
  const T24: Word := T_MASK ^ 0x182c0437
  const T25: Word := 0x21e1cde6
  const T26: Word := T_MASK ^ 0x3cc8f829
  const T27: Word := T_MASK ^ 0x0b2af278
  const T28: Word := 0x455a14ed
  const T29: Word := T_MASK ^ 0x561c16fa
  const T30: Word := T_MASK ^ 0x03105c07
  const T31: Word := 0x676f02d9
  const T32: Word := T_MASK ^ 0x72d5b375
  const T33: Word := T_MASK ^ 0x0005c6bd
  const T34: Word := T_MASK ^ 0x788e097e
  const T35: Word := 0x6d9d6122
  const T36: Word := T_MASK ^ 0x021ac7f3
  const T37: Word := T_MASK ^ 0x5b4115bb
  const T38: Word := 0x4bdecfa9
  const T39: Word := T_MASK ^ 0x0944b49f
  const T40: Word := T_MASK ^ 0x4140438f
  const T41: Word := 0x289b7ec6
  const T42: Word := T_MASK ^ 0x155ed805
  const T43: Word := T_MASK ^ 0x2b10cf7a
  const T44: Word := 0x04881d05
  const T45: Word := T_MASK ^ 0x262b2fc6
  const T46: Word := T_MASK ^ 0x1924661a
  const T47: Word := 0x1fa27cf8
  const T48: Word := T_MASK ^ 0x3b53a99a
  const T49: Word := T_MASK ^ 0x0bd6ddbb
  const T50: Word := 0x432aff97
  const T51: Word := T_MASK ^ 0x546bdc58
  const T52: Word := T_MASK ^ 0x036c5fc6
  const T53: Word := 0x655b59c3
  const T54: Word := T_MASK ^ 0x70f3336d
  const T55: Word := T_MASK ^ 0x00100b82
  const T56: Word := T_MASK ^ 0x7a7ba22e
  const T57: Word := 0x6fa87e4f
  const T58: Word := T_MASK ^ 0x01d3191f
  const T59: Word := T_MASK ^ 0x5cfebceb
  const T60: Word := 0x4e0811a1
  const T61: Word := T_MASK ^ 0x08ac817d
  const T62: Word := T_MASK ^ 0x42c50dca
  const T63: Word := 0x2ad7d2bb
  const T64: Word := T_MASK ^ 0x14792c6e

  lemma MaskedFirst()
    ensures T1 == 0xd76aa478 && T2 == 0xe8c7b756 && T3 == 0x242070db && T4 == 0xc1bdceee
    ensures T5 == 0xf57c0faf && T6 == 0x4787c62a && T7 == 0xa8304613 && T8 == 0xfd469501
    ensures T9 == 0x698098d8 && T10 == 0x8b44f7af && T11 == 0xffff5bb1 && T12 == 0x895cd7be
    ensures T13 == 0x6b901122 && T14 == 0xfd987193 && T15 == 0xa679438e && T16 == 0x49b40821
  {
  }

  lemma MaskedSecond()
    ensures T17 == 0xf61e2562 && T18 == 0xc040b340 && T19 == 0x265e5a51 && T20 == 0xe9b6c7aa
    ensures T21 == 0xd62f105d && T22 == 0x02441453 && T23 == 0xd8a1e681 && T24 == 0xe7d3fbc8
    ensures T25 == 0x21e1cde6 && T26 == 0xc33707d6 && T27 == 0xf4d50d87 && T28 == 0x455a14ed
    ensures T29 == 0xa9e3e905 && T30 == 0xfcefa3f8 && T31 == 0x676f02d9 && T32 == 0x8d2a4c8a
  {
  }

  lemma MaskedThird()
    ensures T33 == 0xfffa3942 && T34 == 0x8771f681 && T35 == 0x6d9d6122 && T36 == 0xfde5380c
    ensures T37 == 0xa4beea44 && T38 == 0x4bdecfa9 && T39 == 0xf6bb4b60 && T40 == 0xbebfbc70
    ensures T41 == 0x289b7ec6 && T42 == 0xeaa127fa && T43 == 0xd4ef3085 && T44 == 0x04881d05
    ensures T45 == 0xd9d4d039 && T46 == 0xe6db99e5 && T47 == 0x1fa27cf8 && T48 == 0xc4ac5665
  {
  }

  lemma MaskedFourth()
    ensures T49 == 0xf4292244 && T50 == 0x432aff97 && T51 == 0xab9423a7 && T52 == 0xfc93a039
    ensures T53 == 0x655b59c3 && T54 == 0x8f0ccc92 && T55 == 0xffeff47d && T56 == 0x85845dd1
    ensures T57 == 0x6fa87e4f && T58 == 0xfe2ce6e0 && T59 == 0xa3014314 && T60 == 0x4e0811a1
    ensures T61 == 0xf7537e82 && T62 == 0xbd3af235 && T63 == 0x2ad7d2bb && T64 == 0xeb86d391
  {
  }

  /** The SET macros, which differ in the function they name. */
  method Set(ghost i: nat, f: Word, a: Word, b: Word, c: Word, d: Word, X: seq<Word>, k: nat, s: nat, Ti: Word)
    returns (r: Word)
    requires |X| == 16 && i < 64 && f == Aux(i, b, c, d) && k == Pick(i) && s == Shift(i) && Ti == Sine(i)
    ensures r == Mix(i, a, b, c, d, X)
  {
    hide Aux, Pick, Shift, Sine, Rol, Rotate, Add, Sum, AddLast;
    ShiftKnown(i);
    var t := Sum(a, f, X[k], Ti);
    RolRotates(t, s);
    r := AddLast(Rol(t, s), b);
  }

  method FirstRound(ghost h: Regs, w: seq<Word>, r: Regs) returns (q: Regs)
    requires |w| == 16 && r == Operations(h, w, 0)
    ensures q == Operations(h, w, 16)
  {
    hide F, G, H, I, Mix, Operations, Aux, Pick, Shift, Sine;
    q := r;
    TableFirst();
    MaskedFirst();
    var a, b, c, d := r.a, r.b, r.c, r.d;
    a := Set(0, F(b, c, d), a, b, c, d, w, 0, 7, T1);
    d := Set(1, F(a, b, c), d, a, b, c, w, 1, 12, T2);
    c := Set(2, F(d, a, b), c, d, a, b, w, 2, 17, T3);
    b := Set(3, F(c, d, a), b, c, d, a, w, 3, 22, T4);
    Quad(h, w, 0, q);
    q := Regs(a, b, c, d);
    a := Set(4, F(b, c, d), a, b, c, d, w, 4, 7, T5);
    d := Set(5, F(a, b, c), d, a, b, c, w, 5, 12, T6);
    c := Set(6, F(d, a, b), c, d, a, b, w, 6, 17, T7);
    b := Set(7, F(c, d, a), b, c, d, a, w, 7, 22, T8);
    Quad(h, w, 4, q);
    q := Regs(a, b, c, d);
    a := Set(8, F(b, c, d), a, b, c, d, w, 8, 7, T9);
    d := Set(9, F(a, b, c), d, a, b, c, w, 9, 12, T10);
    c := Set(10, F(d, a, b), c, d, a, b, w, 10, 17, T11);
    b := Set(11, F(c, d, a), b, c, d, a, w, 11, 22, T12);
    Quad(h, w, 8, q);
    q := Regs(a, b, c, d);
    a := Set(12, F(b, c, d), a, b, c, d, w, 12, 7, T13);
    d := Set(13, F(a, b, c), d, a, b, c, w, 13, 12, T14);
    c := Set(14, F(d, a, b), c, d, a, b, w, 14, 17, T15);
    b := Set(15, F(c, d, a), b, c, d, a, w, 15, 22, T16);
    Quad(h, w, 12, q);
    q := Regs(a, b, c, d);
  }

  method SecondRound(ghost h: Regs, w: seq<Word>, r: Regs) returns (q: Regs)
    requires |w| == 16 && r == Operations(h, w, 16)
    ensures q == Operations(h, w, 32)
  {
    hide F, G, H, I, Mix, Operations, Aux, Pick, Shift, Sine;
    q := r;
    TableSecond();
    MaskedSecond();
    var a, b, c, d := r.a, r.b, r.c, r.d;
    a := Set(16, G(b, c, d), a, b, c, d, w, 1, 5, T17);
    d := Set(17, G(a, b, c), d, a, b, c, w, 6, 9, T18);
    c := Set(18, G(d, a, b), c, d, a, b, w, 11, 14, T19);
    b := Set(19, G(c, d, a), b, c, d, a, w, 0, 20, T20);
    Quad(h, w, 16, q);
    q := Regs(a, b, c, d);
    a := Set(20, G(b, c, d), a, b, c, d, w, 5, 5, T21);
    d := Set(21, G(a, b, c), d, a, b, c, w, 10, 9, T22);
    c := Set(22, G(d, a, b), c, d, a, b, w, 15, 14, T23);
    b := Set(23, G(c, d, a), b, c, d, a, w, 4, 20, T24);
    Quad(h, w, 20, q);
    q := Regs(a, b, c, d);
    a := Set(24, G(b, c, d), a, b, c, d, w, 9, 5, T25);
    d := Set(25, G(a, b, c), d, a, b, c, w, 14, 9, T26);
    c := Set(26, G(d, a, b), c, d, a, b, w, 3, 14, T27);
    b := Set(27, G(c, d, a), b, c, d, a, w, 8, 20, T28);
    Quad(h, w, 24, q);
    q := Regs(a, b, c, d);
    a := Set(28, G(b, c, d), a, b, c, d, w, 13, 5, T29);
    d := Set(29, G(a, b, c), d, a, b, c, w, 2, 9, T30);
    c := Set(30, G(d, a, b), c, d, a, b, w, 7, 14, T31);
    b := Set(31, G(c, d, a), b, c, d, a, w, 12, 20, T32);
    Quad(h, w, 28, q);
    q := Regs(a, b, c, d);
  }

  method ThirdRound(ghost h: Regs, w: seq<Word>, r: Regs) returns (q: Regs)
    requires |w| == 16 && r == Operations(h, w, 32)
    ensures q == Operations(h, w, 48)
  {
    hide F, G, H, I, Mix, Operations, Aux, Pick, Shift, Sine;
    q := r;
    TableThird();
    MaskedThird();
    var a, b, c, d := r.a, r.b, r.c, r.d;
    a := Set(32, H(b, c, d), a, b, c, d, w, 5, 4, T33);
    d := Set(33, H(a, b, c), d, a, b, c, w, 8, 11, T34);
    c := Set(34, H(d, a, b), c, d, a, b, w, 11, 16, T35);
    b := Set(35, H(c, d, a), b, c, d, a, w, 14, 23, T36);
    Quad(h, w, 32, q);
    q := Regs(a, b, c, d);
    a := Set(36, H(b, c, d), a, b, c, d, w, 1, 4, T37);
    d := Set(37, H(a, b, c), d, a, b, c, w, 4, 11, T38);
    c := Set(38, H(d, a, b), c, d, a, b, w, 7, 16, T39);
    b := Set(39, H(c, d, a), b, c, d, a, w, 10, 23, T40);
    Quad(h, w, 36, q);
    q := Regs(a, b, c, d);
    a := Set(40, H(b, c, d), a, b, c, d, w, 13, 4, T41);
    d := Set(41, H(a, b, c), d, a, b, c, w, 0, 11, T42);
    c := Set(42, H(d, a, b), c, d, a, b, w, 3, 16, T43);
    b := Set(43, H(c, d, a), b, c, d, a, w, 6, 23, T44);
    Quad(h, w, 40, q);
    q := Regs(a, b, c, d);
    a := Set(44, H(b, c, d), a, b, c, d, w, 9, 4, T45);
    d := Set(45, H(a, b, c), d, a, b, c, w, 12, 11, T46);
    c := Set(46, H(d, a, b), c, d, a, b, w, 15, 16, T47);
    b := Set(47, H(c, d, a), b, c, d, a, w, 2, 23, T48);
    Quad(h, w, 44, q);
    q := Regs(a, b, c, d);
  }

  method FourthRound(ghost h: Regs, w: seq<Word>, r: Regs) returns (q: Regs)
    requires |w| == 16 && r == Operations(h, w, 48)
    ensures q == Operations(h, w, 64)
  {
    hide F, G, H, I, Mix, Operations, Aux, Pick, Shift, Sine;
    q := r;
    TableFourth();
    MaskedFourth();
    var a, b, c, d := r.a, r.b, r.c, r.d;
    a := Set(48, I(b, c, d), a, b, c, d, w, 0, 6, T49);
    d := Set(49, I(a, b, c), d, a, b, c, w, 7, 10, T50);
    c := Set(50, I(d, a, b), c, d, a, b, w, 14, 15, T51);
    b := Set(51, I(c, d, a), b, c, d, a, w, 5, 21, T52);
    Quad(h, w, 48, q);
    q := Regs(a, b, c, d);
    a := Set(52, I(b, c, d), a, b, c, d, w, 12, 6, T53);
    d := Set(53, I(a, b, c), d, a, b, c, w, 3, 10, T54);
    c := Set(54, I(d, a, b), c, d, a, b, w, 10, 15, T55);
    b := Set(55, I(c, d, a), b, c, d, a, w, 1, 21, T56);
    Quad(h, w, 52, q);
    q := Regs(a, b, c, d);
    a := Set(56, I(b, c, d), a, b, c, d, w, 8, 6, T57);
    d := Set(57, I(a, b, c), d, a, b, c, w, 15, 10, T58);
    c := Set(58, I(d, a, b), c, d, a, b, w, 6, 15, T59);
    b := Set(59, I(c, d, a), b, c, d, a, w, 13, 21, T60);
    Quad(h, w, 56, q);
    q := Regs(a, b, c, d);
    a := Set(60, I(b, c, d), a, b, c, d, w, 4, 6, T61);
    d := Set(61, I(a, b, c), d, a, b, c, w, 11, 10, T62);
    c := Set(62, I(d, a, b), c, d, a, b, w, 2, 15, T63);
    b := Set(63, I(c, d, a), b, c, d, a, w, 9, 21, T64);
    Quad(h, w, 60, q);
    q := Regs(a, b, c, d);
  }

  // -------------------------------------------------------------------------
  // The two-word bit count
  // -------------------------------------------------------------------------

  function Low(n: nat): nat { 8 * n % WORDS }
  function High(n: nat): nat { 8 * n / WORDS % WORDS }

  /** Adding a call's bit count with one carry keeps the 64-bit count exact. */
  lemma CountAdds(n: nat, k: nat)
    ensures var nbits := k * 8 % WORDS;
            var sum := (Low(n) + nbits) % WORDS;
            var high := (High(n) + k / 0x2000_0000) % WORDS;
            sum == Low(n + k) && High(n + k) == if sum < nbits then (high + 1) % WORDS else high
  {
    var b, d := Low(n), k * 8 % WORDS;
    var a, c := 8 * n / WORDS, k / 0x2000_0000;
    EightTimes(k);
    AddWords(a, b, c, d, n, k);
    ModAdd(a, c);
    ModAdd(a + c, 1);
  }

  lemma AddWords(a: nat, b: nat, c: nat, d: nat, n: nat, k: nat)
    requires 8 * n == a * WORDS + b && k * 8 == c * WORDS + d && b < WORDS && d < WORDS
    ensures var sum := (b + d) % WORDS;
            && sum == 8 * (n + k) % WORDS
            && 8 * (n + k) / WORDS == a + c + if sum < d then 1 else 0
  {
    if b + d < WORDS {
      assert 8 * (n + k) == (a + c) * WORDS + (b + d);
      Unique(WORDS, a + c, b + d);
    } else {
      assert 8 * (n + k) == (a + c + 1) * WORDS + (b + d - WORDS);
      Unique(WORDS, a + c + 1, b + d - WORDS);
      Unique(WORDS, 1, b + d - WORDS);
    }
  }

  lemma EightTimes(k: nat)
    ensures k * 8 / WORDS == k / 0x2000_0000
  {
    var c, e := k / 0x2000_0000, k % 0x2000_0000;
    assert k * 8 == c * WORDS + 8 * e;
    Unique(WORDS, c, 8 * e);
  }

  lemma ModAdd(a: nat, c: nat)
    ensures (a % WORDS + c) % WORDS == (a + c) % WORDS
  {
    var q := a / WORDS;
    var r := (a % WORDS + c) % WORDS;
    var p := (a % WORDS + c) / WORDS;
    assert a + c == (q + p) * WORDS + r;
    Unique(WORDS, q + p, r);
  }

  /** The low word tells where the buffered bytes end. */
  lemma OffsetIs(n: nat)
    ensures Low(n) / 8 % 64 == n % 64
    ensures (55 - Low(n) / 8) % 64 + 1 == |Padding(n)|
  {
    var q, r := n / 0x2000_0000, n % 0x2000_0000;
    assert 8 * n == q * WORDS + 8 * r;
    Unique(WORDS, q, 8 * r);
    assert Low(n) / 8 == r;
    var s := r / 64;
    assert n == (q * 0x80_0000 + s) * 64 + r % 64;
    Unique(64, q * 0x80_0000 + s, r % 64);
  }

  function ByteAt(n: nat, j: nat): Byte {
    if j == 0 then (n % 0x100) as Byte
    else if j == 1 then (n / 0x100 % 0x100) as Byte
    else if j == 2 then (n / 0x1_0000 % 0x100) as Byte
    else (n / 0x100_0000 % 0x100) as Byte
  }

  lemma LengthByte(low: nat, high: nat, i: nat)
    requires i < 8
    ensures (LowBytes(low) + LowBytes(high))[i] == ByteAt([low, high][i / 4], i % 4)
  {
    hide ByteAt;
    LowByteAt(low, i % 4);
    LowByteAt(high, i % 4);
    hide LowBytes;
  }

  lemma LowByteAt(n: nat, j: nat)
    requires j < 4
    ensures LowBytes(n)[j] == ByteAt(n, j)
  {
  }

  lemma DigestByte(r: Regs, i: nat)
    requires i < 16
    ensures Output(r)[i] == ByteOf([r.a, r.b, r.c, r.d][i / 4], i % 4)
  {
    hide ByteOf;
    WordByte([r.a, r.b, r.c, r.d][i / 4], i % 4);
    hide WordBytes;
    Quarter(WordBytes(r.a), WordBytes(r.b), WordBytes(r.c), WordBytes(r.d), i);
  }

  lemma Quarter(a: seq<Byte>, b: seq<Byte>, c: seq<Byte>, d: seq<Byte>, i: nat)
    requires |a| == 4 && |b| == 4 && |c| == 4 && |d| == 4 && i < 16
    ensures (a + b + c + d)[i] == if i < 4 then a[i] else if i < 8 then b[i - 4] else if i < 12 then c[i - 8]
      else d[i - 12]
    ensures i % 4 == if i < 4 then i else if i < 8 then i - 4 else if i < 12 then i - 8 else i - 12
  {
  }

  lemma WordByte(w: Word, j: nat)
    requires j < 4
    ensures WordBytes(w)[j] == ByteOf(w, j)
  {
    hide ByteOf;
  }

  /** The offset in the buffer and the byte count add up to an int. */
  predicate InInt(message: seq<Byte>, data: seq<Byte>) { |message| % 64 + |data| <= 0x7FFF_FFFF }

  /** md5_state_t, with the message so far as a ghost field. */
  class Md5State {
    const count: array<nat> // two 32-bit words, low-order word first
    const abcd: array<Word>
    const buf: array<Byte>
    ghost var message: seq<Byte>

    ghost predicate Shape() {
      count.Length == 2 && abcd.Length == 4 && buf.Length == 64
    }

    ghost function Registers(): Regs
      requires Shape()
      reads abcd
    {
      Regs(abcd[0], abcd[1], abcd[2], abcd[3])
    }

    ghost predicate Counted()
      requires Shape()
      reads this, count
    {
      count[0] == Low(|message|) && count[1] == High(|message|)
    }

    ghost predicate Valid()
      reads this, count, abcd, buf
    {
      Shape() && Counted() && Folded(Registers(), buf[..|message| % 64], message)
    }

    constructor Init()
      ensures Valid() && message == [] && fresh(count) && fresh(abcd) && fresh(buf)
    {
      count := new nat[2](_ => 0);
      abcd := new Word[4](_ => 0);
      buf := new Byte[64];
      message := [];
      new;
      abcd[0], abcd[1], abcd[2], abcd[3] := 0x67452301, T_MASK ^ 0x10325476, T_MASK ^ 0x67452301, 0x10325476;
      assert T_MASK ^ 0x10325476 == 0xefcdab89 && T_MASK ^ 0x67452301 == 0x98badcfe;
    }

    /** md5_process */
    method Process(data: seq<Byte>)
      requires Shape() && |data| == 64
      modifies abcd
      ensures Registers() == Compress(old(Registers()), data)
    {
      hide Operations, Add;
      var h := Regs(abcd[0], abcd[1], abcd[2], abcd[3]);
      var X := ToWords(data);
      Start(h, X);
      var q := FirstRound(h, X, h);
      q := SecondRound(h, X, q);
      q := ThirdRound(h, X, q);
      q := FourthRound(h, X, q);
      abcd[0] := Add(abcd[0], q.a);
      abcd[1] := Add(abcd[1], q.b);
      abcd[2] := Add(abcd[2], q.c);
      abcd[3] := Add(abcd[3], q.d);
    }

    /** memcpy into the buffer */
    method CopyIn(at: nat, src: seq<Byte>)
      requires at + |src| <= buf.Length
      modifies buf
      ensures buf[..at + |src|] == old(buf[..at]) + src
    {
      forall i | 0 <= i < |src| { buf[at + i] := src[i]; }
    }

    /** Update the message length. */
    method AddLength(nbytes: nat)
      requires Shape() && Counted()
      modifies count
      ensures count[0] == Low(|message| + nbytes) && count[1] == High(|message| + nbytes)
    {
      CountAdds(|message|, nbytes);
      var nbits := nbytes * 8 % WORDS;
      count[1] := (count[1] + nbytes / 0x2000_0000) % WORDS;
      count[0] := (count[0] + nbits) % WORDS;
      if count[0] < nbits { count[1] := (count[1] + 1) % WORDS; }
    }

    /** The loop over whole blocks. */
    method TakeBlocks(p: seq<Byte>) returns (left: seq<Byte>)
      requires Shape() && Folded(Registers(), [], message)
      modifies abcd, this`message
      ensures |left| < 64 && Folded(Registers(), [], message) && message + left == old(message) + p
    {
      hide Folded, Compress;
      left := p;
      while |left| >= 64
        invariant message + left == old(message) + p && Folded(Registers(), [], message)
      {
        var block := left[..64];
        FoldedMore(Registers(), [], message, block);
        assert [] + block == block;
        assert message + left == message + block + left[64..];
        message := message + block;
        FoldedBlock(Registers(), block, message);
        Process(block);
        left := left[64..];
      }
    }

    /** The loop over whole blocks, then the copy of what is left. */
    method TakeRest(p: seq<Byte>)
      requires Shape() && Folded(Registers(), [], message)
      modifies abcd, buf, this`message
      ensures message == old(message) + p && Folded(Registers(), buf[..|message| % 64], message)
    {
      hide Folded;
      var left := TakeBlocks(p);
      FoldedMore(Registers(), [], message, left);
      FoldedAligned(Registers(), message);
      assert [] + left == left;
      message := message + left;
      if left != [] { CopyIn(0, left); }
      assert buf[..|message| % 64] == left;
    }

    lemma FoldedAligned(r: Regs, m: seq<Byte>)
      requires Folded(r, [], m)
      ensures |m| % 64 == 0
    {
    }

    /** The copy into a buffer that is partly full. */
    method TakeFirst(offset: nat, data: seq<Byte>)
      requires Shape() && offset + |data| <= 64 && Folded(Registers(), buf[..offset], message)
      modifies buf, this`message
      ensures message == old(message) + data && Folded(Registers(), buf[..offset + |data|], message)
    {
      hide Folded;
      FoldedMore(Registers(), buf[..offset], message, data);
      CopyIn(offset, data);
      message := message + data;
    }

    /** A full buffer goes into the registers. */
    method ProcessBuffer()
      requires Shape() && Folded(Registers(), buf[..64], message)
      modifies abcd
      ensures Folded(Registers(), [], message)
    {
      hide Folded, Compress;
      assert buf[..] == buf[..64];
      FoldedBlock(Registers(), buf[..], message);
      Process(buf[..]);
    }

    /** md5_append after the length is updated. */
    method Take(offset: nat, data: seq<Byte>)
      requires Shape() && offset == |message| % 64 && Folded(Registers(), buf[..offset], message) && data != []
      modifies abcd, buf, this`message
      ensures message == old(message) + data && Folded(Registers(), buf[..|message| % 64], message)
    {
      hide Folded, Fold, Registers;
      if offset != 0 {
        var copy := if offset + |data| > 64 then 64 - offset else |data|;
        Split(message, data, copy);
        TakeFirst(offset, data[..copy]);
        if offset + copy < 64 {
          assert data[..copy] == data;
          return;
        }
        ProcessBuffer();
        TakeRest(data[copy..]);
      } else {
        assert buf[..0] == [];
        TakeRest(data);
      }
    }

    /** md5_append.  The byte count is an int, to which the buffer offset is added. */
    method Append(data: seq<Byte>)
      requires Valid() && InInt(message, data)
      modifies count, abcd, buf, this`message
      ensures Valid() && message == old(message) + data
    {
      hide Folded, Low, High;
      OffsetIs(|message|);
      var offset := count[0] / 8 % 64;
      if data == [] {
        assert message + data == message;
        return;
      }
      AddLength(|data|);
      Take(offset, data);
    }

    /** The length before padding, as 8 bytes. */
    method LengthBytes() returns (data: seq<Byte>)
      requires Shape()
      ensures data == LowBytes(count[0]) + LowBytes(count[1])
    {
      hide LowBytes, ByteAt;
      data := [];
      for i := 0 to 8
        invariant data == (LowBytes(count[0]) + LowBytes(count[1]))[..i]
      {
        LengthByte(count[0], count[1], i);
        data := data + [ByteAt(count[i / 4], i % 4)];
      }
    }

    method DigestBytes() returns (digest: seq<Byte>)
      requires Shape()
      ensures digest == Output(Registers())
    {
      hide ByteOf, Output;
      digest := [];
      for i := 0 to 16
        invariant digest == Output(Registers())[..i]
      {
        DigestByte(Registers(), i);
        digest := digest + [ByteOf(abcd[i / 4], i % 4)];
      }
    }

    /** md5_finish */
    method Finish() returns (digest: seq<Byte>)
      requires Valid()
      modifies count, abcd, buf, this`message
      ensures digest == Md5Spec.Digest(old(message))
    {
      hide Folded, Low, High, LowBytes, Padding, Fold, Output, Registers;
      ghost var m := message;
      OffsetIs(|m|);
      var data := LengthBytes();
      var pad := [0x80] + Zeroes(63);
      var c: int := count[0];
      var k := (55 - c / 8) % 64 + 1;
      assert pad[..k] == Padding(|m|) by { PadIs(|m|, k); }
      Append(pad[..k]);
      Append(data);
      FinishIs(m, data, Registers(), buf[..|message| % 64]);
      digest := DigestBytes();
    }
  }

  lemma PadIs(n: nat, k: nat)
    requires k == |Padding(n)|
    ensures ([0x80] + Zeroes(63))[..k] == Padding(n)
  {
  }

  lemma FinishIs(m: seq<Byte>, data: seq<Byte>, r: Regs, buffered: seq<Byte>)
    requires data == LowBytes(Low(|m|)) + LowBytes(High(|m|))
    requires |buffered| == |m + Padding(|m|) + data| % 64 && Folded(r, buffered, m + Padding(|m|) + data)
    ensures Output(r) == Md5Spec.Digest(m)
  {
    hide LowBytes, Fold, Output, Padding;
    var p := m + Padding(|m|) + data;
    assert p == Padded(m, Low(|m|), High(|m|)) && p[..|p|] == p;
  }

  /** Every way of cutting a message into calls gives the digest of RFC 1321. */
  method Md5(chunks: seq<seq<Byte>>) returns (digest: seq<Byte>)
    requires forall k | 0 <= k < |chunks| :: InInt(Concat(chunks[..k]), chunks[k])
    ensures digest == Md5Spec.Digest(Concat(chunks))
  {
    hide *;
    var state := new Md5State.Init();
    assert Concat(chunks[..0]) == [] by { NoChunks(); }
    for k := 0 to |chunks|
      invariant state.Valid() && state.message == Concat(chunks[..k])
      invariant fresh(state) && fresh(state.count) && fresh(state.abcd) && fresh(state.buf)
    {
      state.Append(chunks[k]);
      ConcatNext(chunks, k);
    }
    assert chunks[..|chunks|] == chunks;
    digest := state.Finish();
  }
}
