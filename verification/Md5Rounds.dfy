/** The sixty-four operations of RFC 1321 four at a time, which is how both transforms
    are written out: each line updates one of four variables in place. */
module Md5Rounds {
  import opened Md5Spec

  function Four(r: Regs, x: seq<Word>, i: nat): Regs
    requires |x| == 16 && i + 4 <= 64
  {
    var a := Mix(i, r.a, r.b, r.c, r.d, x);
    var d := Mix(i + 1, r.d, a, r.b, r.c, x);
    var c := Mix(i + 2, r.c, d, a, r.b, x);
    var b := Mix(i + 3, r.b, c, d, a, x);
    Regs(a, b, c, d)
  }

  lemma Start(h: Regs, x: seq<Word>)
    requires |x| == 16
    ensures Operations(h, x, 0) == h
  {
  }

  /** After four operations every register is back under its own name. */
  lemma Quad(h: Regs, x: seq<Word>, i: nat, r: Regs)
    requires |x| == 16 && i + 4 <= 64 && r == Operations(h, x, i)
    ensures Operations(h, x, i + 4) == Four(r, x, i)
  {
    hide Mix;
    assert Operations(h, x, i + 1) == Operation(r, x, i);
    assert Operations(h, x, i + 2) == Operation(Operations(h, x, i + 1), x, i + 1);
    assert Operations(h, x, i + 3) == Operation(Operations(h, x, i + 2), x, i + 2);
    assert Operations(h, x, i + 4) == Operation(Operations(h, x, i + 3), x, i + 3);
  }

  /** Both implementations rotate with two shifts. */
  function Rol(x: Word, s: nat): Word
    requires 4 <= s <= 23
  {
    (x << s) | (x >> (32 - s))
  }

  lemma RolRound1(x: Word)
    ensures Rol(x, 7) == Rotate(x, 7) && Rol(x, 12) == Rotate(x, 12)
    ensures Rol(x, 17) == Rotate(x, 17) && Rol(x, 22) == Rotate(x, 22)
  {
  }

  lemma RolRound2(x: Word)
    ensures Rol(x, 5) == Rotate(x, 5) && Rol(x, 9) == Rotate(x, 9)
    ensures Rol(x, 14) == Rotate(x, 14) && Rol(x, 20) == Rotate(x, 20)
  {
  }

  lemma RolRound3(x: Word)
    ensures Rol(x, 4) == Rotate(x, 4) && Rol(x, 11) == Rotate(x, 11)
    ensures Rol(x, 16) == Rotate(x, 16) && Rol(x, 23) == Rotate(x, 23)
  {
  }

  lemma RolRound4(x: Word)
    ensures Rol(x, 6) == Rotate(x, 6) && Rol(x, 10) == Rotate(x, 10)
    ensures Rol(x, 15) == Rotate(x, 15) && Rol(x, 21) == Rotate(x, 21)
  {
  }

  lemma RolRotates(x: Word, s: nat)
    requires s in {4, 5, 6, 7, 9, 10, 11, 12, 14, 15, 16, 17, 20, 21, 22, 23}
    ensures Rol(x, s) == Rotate(x, s)
  {
    RolRound1(x);
    RolRound2(x);
    RolRound3(x);
    RolRound4(x);
    hide *;
  }

  /** The code adds b last. */
  function AddLast(y: Word, b: Word): (r: Word)
    ensures r == Add(b, y)
  {
    y + b
  }

  lemma ShiftKnown(i: nat)
    requires i < 64
    ensures Shift(i) in {4, 5, 6, 7, 9, 10, 11, 12, 14, 15, 16, 17, 20, 21, 22, 23}
  {
  }

  /** The constants of round 1. */
  lemma TableFirst()
    ensures forall i, b, c, d | 0 <= i < 16 :: Aux(i, b, c, d) == F(b, c, d)
    ensures Sine(0) == 0xd76aa478 && Sine(1) == 0xe8c7b756 && Sine(2) == 0x242070db && Sine(3) == 0xc1bdceee
    ensures Sine(4) == 0xf57c0faf && Sine(5) == 0x4787c62a && Sine(6) == 0xa8304613 && Sine(7) == 0xfd469501
    ensures Sine(8) == 0x698098d8 && Sine(9) == 0x8b44f7af && Sine(10) == 0xffff5bb1 && Sine(11) == 0x895cd7be
    ensures Sine(12) == 0x6b901122 && Sine(13) == 0xfd987193 && Sine(14) == 0xa679438e && Sine(15) == 0x49b40821
    ensures Pick(0) == 0 && Pick(1) == 1 && Pick(2) == 2 && Pick(3) == 3
    ensures Pick(4) == 4 && Pick(5) == 5 && Pick(6) == 6 && Pick(7) == 7
    ensures Pick(8) == 8 && Pick(9) == 9 && Pick(10) == 10 && Pick(11) == 11
    ensures Pick(12) == 12 && Pick(13) == 13 && Pick(14) == 14 && Pick(15) == 15
    ensures Shift(0) == 7 && Shift(1) == 12 && Shift(2) == 17 && Shift(3) == 22
    ensures Shift(4) == 7 && Shift(5) == 12 && Shift(6) == 17 && Shift(7) == 22
    ensures Shift(8) == 7 && Shift(9) == 12 && Shift(10) == 17 && Shift(11) == 22
    ensures Shift(12) == 7 && Shift(13) == 12 && Shift(14) == 17 && Shift(15) == 22
  {
    hide F, G, H, I;
  }

  /** The constants of round 2. */
  lemma TableSecond()
    ensures forall i, b, c, d | 16 <= i < 32 :: Aux(i, b, c, d) == G(b, c, d)
    ensures Sine(16) == 0xf61e2562 && Sine(17) == 0xc040b340 && Sine(18) == 0x265e5a51 && Sine(19) == 0xe9b6c7aa
    ensures Sine(20) == 0xd62f105d && Sine(21) == 0x02441453 && Sine(22) == 0xd8a1e681 && Sine(23) == 0xe7d3fbc8
    ensures Sine(24) == 0x21e1cde6 && Sine(25) == 0xc33707d6 && Sine(26) == 0xf4d50d87 && Sine(27) == 0x455a14ed
    ensures Sine(28) == 0xa9e3e905 && Sine(29) == 0xfcefa3f8 && Sine(30) == 0x676f02d9 && Sine(31) == 0x8d2a4c8a
    ensures Pick(16) == 1 && Pick(17) == 6 && Pick(18) == 11 && Pick(19) == 0
    ensures Pick(20) == 5 && Pick(21) == 10 && Pick(22) == 15 && Pick(23) == 4
    ensures Pick(24) == 9 && Pick(25) == 14 && Pick(26) == 3 && Pick(27) == 8
    ensures Pick(28) == 13 && Pick(29) == 2 && Pick(30) == 7 && Pick(31) == 12
    ensures Shift(16) == 5 && Shift(17) == 9 && Shift(18) == 14 && Shift(19) == 20
    ensures Shift(20) == 5 && Shift(21) == 9 && Shift(22) == 14 && Shift(23) == 20
    ensures Shift(24) == 5 && Shift(25) == 9 && Shift(26) == 14 && Shift(27) == 20
    ensures Shift(28) == 5 && Shift(29) == 9 && Shift(30) == 14 && Shift(31) == 20
  {
    hide F, G, H, I;
  }

  /** The constants of round 3. */
  lemma TableThird()
    ensures forall i, b, c, d | 32 <= i < 48 :: Aux(i, b, c, d) == H(b, c, d)
    ensures Sine(32) == 0xfffa3942 && Sine(33) == 0x8771f681 && Sine(34) == 0x6d9d6122 && Sine(35) == 0xfde5380c
    ensures Sine(36) == 0xa4beea44 && Sine(37) == 0x4bdecfa9 && Sine(38) == 0xf6bb4b60 && Sine(39) == 0xbebfbc70
    ensures Sine(40) == 0x289b7ec6 && Sine(41) == 0xeaa127fa && Sine(42) == 0xd4ef3085 && Sine(43) == 0x04881d05
    ensures Sine(44) == 0xd9d4d039 && Sine(45) == 0xe6db99e5 && Sine(46) == 0x1fa27cf8 && Sine(47) == 0xc4ac5665
    ensures Pick(32) == 5 && Pick(33) == 8 && Pick(34) == 11 && Pick(35) == 14
    ensures Pick(36) == 1 && Pick(37) == 4 && Pick(38) == 7 && Pick(39) == 10
    ensures Pick(40) == 13 && Pick(41) == 0 && Pick(42) == 3 && Pick(43) == 6
    ensures Pick(44) == 9 && Pick(45) == 12 && Pick(46) == 15 && Pick(47) == 2
    ensures Shift(32) == 4 && Shift(33) == 11 && Shift(34) == 16 && Shift(35) == 23
    ensures Shift(36) == 4 && Shift(37) == 11 && Shift(38) == 16 && Shift(39) == 23
    ensures Shift(40) == 4 && Shift(41) == 11 && Shift(42) == 16 && Shift(43) == 23
    ensures Shift(44) == 4 && Shift(45) == 11 && Shift(46) == 16 && Shift(47) == 23
  {
    hide F, G, H, I;
  }

  /** The constants of round 4. */
  lemma TableFourth()
    ensures forall i, b, c, d | 48 <= i < 64 :: Aux(i, b, c, d) == I(b, c, d)
    ensures Sine(48) == 0xf4292244 && Sine(49) == 0x432aff97 && Sine(50) == 0xab9423a7 && Sine(51) == 0xfc93a039
    ensures Sine(52) == 0x655b59c3 && Sine(53) == 0x8f0ccc92 && Sine(54) == 0xffeff47d && Sine(55) == 0x85845dd1
    ensures Sine(56) == 0x6fa87e4f && Sine(57) == 0xfe2ce6e0 && Sine(58) == 0xa3014314 && Sine(59) == 0x4e0811a1
    ensures Sine(60) == 0xf7537e82 && Sine(61) == 0xbd3af235 && Sine(62) == 0x2ad7d2bb && Sine(63) == 0xeb86d391
    ensures Pick(48) == 0 && Pick(49) == 7 && Pick(50) == 14 && Pick(51) == 5
    ensures Pick(52) == 12 && Pick(53) == 3 && Pick(54) == 10 && Pick(55) == 1
    ensures Pick(56) == 8 && Pick(57) == 15 && Pick(58) == 6 && Pick(59) == 13
    ensures Pick(60) == 4 && Pick(61) == 11 && Pick(62) == 2 && Pick(63) == 9
    ensures Shift(48) == 6 && Shift(49) == 10 && Shift(50) == 15 && Shift(51) == 21
    ensures Shift(52) == 6 && Shift(53) == 10 && Shift(54) == 15 && Shift(55) == 21
    ensures Shift(56) == 6 && Shift(57) == 10 && Shift(58) == 15 && Shift(59) == 21
    ensures Shift(60) == 6 && Shift(61) == 10 && Shift(62) == 15 && Shift(63) == 21
  {
    hide F, G, H, I;
  }
}
