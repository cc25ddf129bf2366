/** lab3/md5.c: a context that buffers input, flushes a full buffer late, and pads in
    place. */
module Md5Lab3 {
  import opened Md5Spec
  import opened Md5Rounds
  import opened Md5Length

  lemma Select(b: Word, c: Word, d: Word)
    ensures d ^ (b & (c ^ d)) == (b & c) | (!b & d)
  {
  }

  function FF(b: Word, c: Word, d: Word): (r: Word)
    ensures r == F(b, c, d)
  {
    Select(b, c, d);
    d ^ (b & (c ^ d))
  }

  function FG(b: Word, c: Word, d: Word): (r: Word)
    ensures r == G(b, c, d)
  {
    FF(d, b, c)
  }

  function FH(b: Word, c: Word, d: Word): (r: Word)
    ensures r == H(b, c, d)
  {
    b ^ c ^ d
  }

  function FI(b: Word, c: Word, d: Word): (r: Word)
    ensures r == I(b, c, d)
  {
    c ^ (b | !d)
  }

  /** The code adds the sum of the last three to a. */
  function AddTo(a: Word, f: Word, x: Word, t: Word): (r: Word)
    ensures r == Sum(a, f, x, t)
  {
    a + (f + x + t)
  }

  /** The OP macro. */
  method Op(ghost i: nat, f: Word, a: Word, b: Word, c: Word, d: Word, w: seq<Word>, k: nat, s: nat, t: Word)
    returns (r: Word)
    requires |w| == 16 && i < 64 && f == Aux(i, b, c, d) && k == Pick(i) && s == Shift(i) && t == Sine(i)
    ensures r == Mix(i, a, b, c, d, w)
  {
    hide Aux, Pick, Shift, Sine, Rol, Rotate, Add, Sum, AddTo, AddLast;
    ShiftKnown(i);
    r := AddTo(a, f, w[k], t);
    RolRotates(r, s);
    r := Rol(r, s);
    r := AddLast(r, b);
  }

  method FirstRound(ghost h: Regs, w: seq<Word>, r: Regs) returns (q: Regs)
    requires |w| == 16 && r == Operations(h, w, 0)
    ensures q == Operations(h, w, 16)
  {
    hide FF, FG, FH, FI, F, G, H, I, Mix, Operations, Aux, Pick, Shift, Sine;
    q := r;
    TableFirst();
    var A, B, C, D := r.a, r.b, r.c, r.d;
    A := Op(0, FF(B, C, D), A, B, C, D, w, 0, 7, 0xd76aa478);
    D := Op(1, FF(A, B, C), D, A, B, C, w, 1, 12, 0xe8c7b756);
    C := Op(2, FF(D, A, B), C, D, A, B, w, 2, 17, 0x242070db);
    B := Op(3, FF(C, D, A), B, C, D, A, w, 3, 22, 0xc1bdceee);
    Quad(h, w, 0, q);
    q := Regs(A, B, C, D);
    A := Op(4, FF(B, C, D), A, B, C, D, w, 4, 7, 0xf57c0faf);
    D := Op(5, FF(A, B, C), D, A, B, C, w, 5, 12, 0x4787c62a);
    C := Op(6, FF(D, A, B), C, D, A, B, w, 6, 17, 0xa8304613);
    B := Op(7, FF(C, D, A), B, C, D, A, w, 7, 22, 0xfd469501);
    Quad(h, w, 4, q);
    q := Regs(A, B, C, D);
    A := Op(8, FF(B, C, D), A, B, C, D, w, 8, 7, 0x698098d8);
    D := Op(9, FF(A, B, C), D, A, B, C, w, 9, 12, 0x8b44f7af);
    C := Op(10, FF(D, A, B), C, D, A, B, w, 10, 17, 0xffff5bb1);
    B := Op(11, FF(C, D, A), B, C, D, A, w, 11, 22, 0x895cd7be);
    Quad(h, w, 8, q);
    q := Regs(A, B, C, D);
    A := Op(12, FF(B, C, D), A, B, C, D, w, 12, 7, 0x6b901122);
    D := Op(13, FF(A, B, C), D, A, B, C, w, 13, 12, 0xfd987193);
    C := Op(14, FF(D, A, B), C, D, A, B, w, 14, 17, 0xa679438e);
    B := Op(15, FF(C, D, A), B, C, D, A, w, 15, 22, 0x49b40821);
    Quad(h, w, 12, q);
    q := Regs(A, B, C, D);
  }

  method SecondRound(ghost h: Regs, w: seq<Word>, r: Regs) returns (q: Regs)
    requires |w| == 16 && r == Operations(h, w, 16)
    ensures q == Operations(h, w, 32)
  {
    hide FF, FG, FH, FI, F, G, H, I, Mix, Operations, Aux, Pick, Shift, Sine;
    q := r;
    TableSecond();
    var A, B, C, D := r.a, r.b, r.c, r.d;
    A := Op(16, FG(B, C, D), A, B, C, D, w, 1, 5, 0xf61e2562);
    D := Op(17, FG(A, B, C), D, A, B, C, w, 6, 9, 0xc040b340);
    C := Op(18, FG(D, A, B), C, D, A, B, w, 11, 14, 0x265e5a51);
    B := Op(19, FG(C, D, A), B, C, D, A, w, 0, 20, 0xe9b6c7aa);
    Quad(h, w, 16, q);
    q := Regs(A, B, C, D);
    A := Op(20, FG(B, C, D), A, B, C, D, w, 5, 5, 0xd62f105d);
    D := Op(21, FG(A, B, C), D, A, B, C, w, 10, 9, 0x02441453);
    C := Op(22, FG(D, A, B), C, D, A, B, w, 15, 14, 0xd8a1e681);
    B := Op(23, FG(C, D, A), B, C, D, A, w, 4, 20, 0xe7d3fbc8);
    Quad(h, w, 20, q);
    q := Regs(A, B, C, D);
    A := Op(24, FG(B, C, D), A, B, C, D, w, 9, 5, 0x21e1cde6);
    D := Op(25, FG(A, B, C), D, A, B, C, w, 14, 9, 0xc33707d6);
    C := Op(26, FG(D, A, B), C, D, A, B, w, 3, 14, 0xf4d50d87);
    B := Op(27, FG(C, D, A), B, C, D, A, w, 8, 20, 0x455a14ed);
    Quad(h, w, 24, q);
    q := Regs(A, B, C, D);
    A := Op(28, FG(B, C, D), A, B, C, D, w, 13, 5, 0xa9e3e905);
    D := Op(29, FG(A, B, C), D, A, B, C, w, 2, 9, 0xfcefa3f8);
    C := Op(30, FG(D, A, B), C, D, A, B, w, 7, 14, 0x676f02d9);
    B := Op(31, FG(C, D, A), B, C, D, A, w, 12, 20, 0x8d2a4c8a);
    Quad(h, w, 28, q);
    q := Regs(A, B, C, D);
  }

  method ThirdRound(ghost h: Regs, w: seq<Word>, r: Regs) returns (q: Regs)
    requires |w| == 16 && r == Operations(h, w, 32)
    ensures q == Operations(h, w, 48)
  {
    hide FF, FG, FH, FI, F, G, H, I, Mix, Operations, Aux, Pick, Shift, Sine;
    q := r;
    TableThird();
    var A, B, C, D := r.a, r.b, r.c, r.d;
    A := Op(32, FH(B, C, D), A, B, C, D, w, 5, 4, 0xfffa3942);
    D := Op(33, FH(A, B, C), D, A, B, C, w, 8, 11, 0x8771f681);
    C := Op(34, FH(D, A, B), C, D, A, B, w, 11, 16, 0x6d9d6122);
    B := Op(35, FH(C, D, A), B, C, D, A, w, 14, 23, 0xfde5380c);
    Quad(h, w, 32, q);
    q := Regs(A, B, C, D);
    A := Op(36, FH(B, C, D), A, B, C, D, w, 1, 4, 0xa4beea44);
    D := Op(37, FH(A, B, C), D, A, B, C, w, 4, 11, 0x4bdecfa9);
    C := Op(38, FH(D, A, B), C, D, A, B, w, 7, 16, 0xf6bb4b60);
    B := Op(39, FH(C, D, A), B, C, D, A, w, 10, 23, 0xbebfbc70);
    Quad(h, w, 36, q);
    q := Regs(A, B, C, D);
    A := Op(40, FH(B, C, D), A, B, C, D, w, 13, 4, 0x289b7ec6);
    D := Op(41, FH(A, B, C), D, A, B, C, w, 0, 11, 0xeaa127fa);
    C := Op(42, FH(D, A, B), C, D, A, B, w, 3, 16, 0xd4ef3085);
    B := Op(43, FH(C, D, A), B, C, D, A, w, 6, 23, 0x04881d05);
    Quad(h, w, 40, q);
    q := Regs(A, B, C, D);
    A := Op(44, FH(B, C, D), A, B, C, D, w, 9, 4, 0xd9d4d039);
    D := Op(45, FH(A, B, C), D, A, B, C, w, 12, 11, 0xe6db99e5);
    C := Op(46, FH(D, A, B), C, D, A, B, w, 15, 16, 0x1fa27cf8);
    B := Op(47, FH(C, D, A), B, C, D, A, w, 2, 23, 0xc4ac5665);
    Quad(h, w, 44, q);
    q := Regs(A, B, C, D);
  }

  method FourthRound(ghost h: Regs, w: seq<Word>, r: Regs) returns (q: Regs)
    requires |w| == 16 && r == Operations(h, w, 48)
    ensures q == Operations(h, w, 64)
  {
    hide FF, FG, FH, FI, F, G, H, I, Mix, Operations, Aux, Pick, Shift, Sine;
    q := r;
    TableFourth();
    var A, B, C, D := r.a, r.b, r.c, r.d;
    A := Op(48, FI(B, C, D), A, B, C, D, w, 0, 6, 0xf4292244);
    D := Op(49, FI(A, B, C), D, A, B, C, w, 7, 10, 0x432aff97);
    C := Op(50, FI(D, A, B), C, D, A, B, w, 14, 15, 0xab9423a7);
    B := Op(51, FI(C, D, A), B, C, D, A, w, 5, 21, 0xfc93a039);
    Quad(h, w, 48, q);
    q := Regs(A, B, C, D);
    A := Op(52, FI(B, C, D), A, B, C, D, w, 12, 6, 0x655b59c3);
    D := Op(53, FI(A, B, C), D, A, B, C, w, 3, 10, 0x8f0ccc92);
    C := Op(54, FI(D, A, B), C, D, A, B, w, 10, 15, 0xffeff47d);
    B := Op(55, FI(C, D, A), B, C, D, A, w, 1, 21, 0x85845dd1);
    Quad(h, w, 52, q);
    q := Regs(A, B, C, D);
    A := Op(56, FI(B, C, D), A, B, C, D, w, 8, 6, 0x6fa87e4f);
    D := Op(57, FI(A, B, C), D, A, B, C, w, 15, 10, 0xfe2ce6e0);
    C := Op(58, FI(D, A, B), C, D, A, B, w, 6, 15, 0xa3014314);
    B := Op(59, FI(C, D, A), B, C, D, A, w, 13, 21, 0x4e0811a1);
    Quad(h, w, 56, q);
    q := Regs(A, B, C, D);
    A := Op(60, FI(B, C, D), A, B, C, D, w, 4, 6, 0xf7537e82);
    D := Op(61, FI(A, B, C), D, A, B, C, w, 11, 10, 0xbd3af235);
    C := Op(62, FI(D, A, B), C, D, A, B, w, 2, 15, 0x2ad7d2bb);
    B := Op(63, FI(C, D, A), B, C, D, A, w, 9, 21, 0xeb86d391);
    Quad(h, w, 60, q);
    q := Regs(A, B, C, D);
  }

  lemma NextBlock(n: nat)
    requires n % 64 == 0
    ensures (n + 64) / 64 % WORDS == (n / 64 % WORDS + 1) % WORDS
  {
  }

  lemma BlockCount(n: nat, count: nat)
    requires count < 64 && count <= n && (n - count) % 64 == 0
    ensures count == n % 64 && (n - count) / 64 == n / 64
  {
  }

  /** What a context with these registers, block count and buffered bytes stands for. */
  ghost predicate Holds(r: Regs, nblocks: nat, buffered: seq<Byte>, m: seq<Byte>) {
    Folded(r, buffered, m) && nblocks == (|m| - |buffered|) / 64 % WORDS
  }

  lemma Buffer(r: Regs, nblocks: nat, buffered: seq<Byte>, m: seq<Byte>, more: seq<Byte>)
    requires Holds(r, nblocks, buffered, m) && |buffered| + |more| <= 64
    ensures Holds(r, nblocks, buffered + more, m + more)
  {
    FoldedMore(r, buffered, m, more);
  }

  /** Folding the next block in, whether it was buffered or not. */
  lemma Absorb(r: Regs, nblocks: nat, block: seq<Byte>, m: seq<Byte>)
    requires |block| == 64 && Holds(r, nblocks, block, m)
    ensures Holds(Compress(r, block), (nblocks + 1) % WORDS, [], m)
  {
    hide Compress, Fold;
    NextBlock(|m| - 64);
    FoldedBlock(r, block, m);
  }

  /** The input of md5_update: a null pointer, or bytes. */
  datatype Input = NULL | Bytes(bytes: seq<Byte>)

  /** MD5_CONTEXT, with the message so far as a ghost field. */
  class Md5Context {
    var A: Word
    var B: Word
    var C: Word
    var D: Word
    var nblocks: nat // a 32-bit count
    const buf: array<Byte>
    var count: nat
    var finalized: bool
    ghost var message: seq<Byte>

    ghost function Registers(): Regs
      reads this
    {
      Regs(A, B, C, D)
    }

    /** A full buffer may wait for the next call. */
    ghost predicate Valid()
      reads this, buf
    {
      buf.Length == 64 && count <= 64 && !finalized && Holds(Registers(), nblocks, buf[..count], message)
    }

    constructor Init()
      ensures Valid() && message == [] && fresh(buf)
    {
      A, B, C, D := 0x67452301, 0xefcdab89, 0x98badcfe, 0x10325476;
      nblocks, count, finalized, message := 0, 0, false, [];
      buf := new Byte[64];
    }

    method Transform(data: seq<Byte>)
      requires |data| == 64
      modifies this`A, this`B, this`C, this`D
      ensures Registers() == Compress(old(Registers()), data)
    {
      hide Operations, Add;
      var h := Regs(A, B, C, D);
      var words := ToWords(data);
      assert Operations(h, words, 0) == h by { hide *; Start(h, words); }
      var q := FirstRound(h, words, h);
      q := SecondRound(h, words, q);
      q := ThirdRound(h, words, q);
      q := FourthRound(h, words, q);
      A, B, C, D := Add(A, q.a), Add(B, q.b), Add(C, q.c), Add(D, q.d);
    }

    /** transform, count = 0, nblocks++ */
    method TakeBlock(block: seq<Byte>)
      requires |block| == 64 && Holds(Registers(), nblocks, block, message)
      modifies this`A, this`B, this`C, this`D, this`count, this`nblocks
      ensures Holds(Registers(), nblocks, [], message) && count == 0
    {
      hide Holds, Compress;
      Absorb(Registers(), nblocks, block, message);
      Transform(block);
      count := 0;
      nblocks := (nblocks + 1) % WORDS;
    }

    /** The loop that copies input bytes until the buffer is full or the input ends. */
    method Fill(inbuf: seq<Byte>) returns (p: nat)
      requires Valid()
      modifies this`count, this`message, buf
      ensures Valid() && p <= |inbuf| && message == old(message) + inbuf[..p]
      ensures (p == |inbuf| || count == 64) && count == old(count) + p
    {
      hide Holds;
      p := 0;
      while p < |inbuf| && count < 64
        invariant p <= |inbuf| && Valid() && message == old(message) + inbuf[..p]
        invariant count == old(count) + p
      {
        Buffer(Registers(), nblocks, buf[..count], message, [inbuf[p]]);
        ghost var before := buf[..count];
        buf[count] := inbuf[p];
        assert buf[..count + 1] == before + [inbuf[p]];
        message := message + [inbuf[p]];
        count, p := count + 1, p + 1;
      }
    }

    /** The loop that takes whole blocks straight from the input. */
    method TakeBlocks(inbuf: seq<Byte>) returns (left: seq<Byte>)
      requires Valid() && count == 0
      modifies this`A, this`B, this`C, this`D, this`count, this`nblocks, this`message
      ensures Valid() && count == 0 && |left| < 64 && message + left == old(message) + inbuf
    {
      hide Holds;
      left := inbuf;
      assert buf[..count] == [];
      while |left| >= 64
        invariant count == 0 && !finalized && message + left == old(message) + inbuf
        invariant Holds(Registers(), nblocks, [], message)
      {
        var block := left[..64];
        Buffer(Registers(), nblocks, [], message, block);
        assert [] + block == block;
        assert message + left == message + block + left[64..];
        message := message + block;
        TakeBlock(block);
        left := left[64..];
      }
      assert buf[..count] == [];
    }

    /** The flush of a full buffer at the head of md5_update. */
    method Flush()
      requires Valid()
      modifies this`A, this`B, this`C, this`D, this`count, this`nblocks
      ensures Valid() && count == old(count) % 64
    {
      hide Holds;
      if count == 64 {
        assert buf[..] == buf[..count];
        TakeBlock(buf[..]);
        assert buf[..count] == [];
      }
    }

    /** What md5_update does once the buffer is empty. */
    method TakeRest(inbuf: seq<Byte>)
      requires Valid() && count == 0
      modifies this, buf
      ensures Valid() && message == old(message) + inbuf
    {
      hide *;
      var left := TakeBlocks(inbuf);
      var q := Fill(left);
      assert left[..q] == left;
    }

    /** md5_update; without input it only flushes. */
    method Update(inbuf: Input)
      requires Valid()
      modifies this, buf
      ensures Valid()
      ensures message == old(message) + match inbuf case NULL => [] case Bytes(b) => b
      ensures inbuf.NULL? ==> count == old(count) % 64
      decreases inbuf.Bytes?
    {
      hide *;
      Flush();
      match inbuf
      case NULL =>
      case Bytes(b) =>
        if count != 0 {
          var p := Fill(b);
          Update(NULL);
          Split(old(message), b, p);
          if p < |b| { TakeRest(b[p..]); } else { assert b[p..] == []; }
        } else {
          TakeRest(b);
        }
    }

    method PutWord(at: nat, w: Word)
      requires at + 4 <= buf.Length
      modifies buf
      ensures buf[..] == old(buf[..at]) + WordBytes(w) + old(buf[at + 4..])
    {
      hide ByteOf;
      buf[at], buf[at + 1], buf[at + 2], buf[at + 3] := ByteOf(w, 0), ByteOf(w, 1), ByteOf(w, 2), ByteOf(w, 3);
    }

    /** A 32-bit count, low-order byte first. */
    method PutLow(at: nat, n: nat)
      requires at + 4 <= buf.Length
      modifies buf
      ensures buf[..] == old(buf[..at]) + LowBytes(n) + old(buf[at + 4..])
    {
      buf[at] := (n % 0x100) as Byte;
      buf[at + 1] := (n / 0x100 % 0x100) as Byte;
      buf[at + 2] := (n / 0x1_0000 % 0x100) as Byte;
      buf[at + 3] := (n / 0x100_0000 % 0x100) as Byte;
    }

    lemma Folds()
      requires Valid()
      ensures Folded(Registers(), buf[..count], message)
    {
    }

    lemma Counts()
      requires Valid() && count < 64
      ensures count == |message| % 64 && nblocks == |message| / 64 % WORDS
    {
      BlockCount(|message|, count);
    }

    /** do_final's length computation, in 32-bit arithmetic. */
    method Length() returns (lsb: nat, msb: nat)
      requires Valid() && count < 64
      ensures lsb == 8 * |message| % WORDS && msb == HighWord(|message|)
    {
      Counts();
      LengthSteps(|message|);
      hide *;
      msb := 0;
      var t := nblocks;
      lsb := t * 64 % WORDS;
      CarryIs(lsb, t);
      if lsb < t { msb := msb + 1; }
      msb := msb + t / 0x400_0000;
      t := lsb;
      lsb := (t + count) % WORDS;
      CarryIs(lsb, t);
      if lsb < t { msb := msb + 1; }
      t := lsb;
      lsb := t * 8 % WORDS;
      CarryIs(lsb, t);
      if lsb < t { msb := msb + 1; }
      msb := msb + t / 0x2000_0000;
    }

    /** The pad character and zeroes, up to 56 or 64 bytes. */
    method Pad(limit: nat)
      requires Valid() && count < limit <= 64
      modifies this`count, this`message, buf
      ensures Valid() && count == limit && Folded(Registers(), buf[..limit], message)
      ensures message == old(message) + [0x80] + Zeroes(limit - old(count) - 1)
    {
      hide Holds, Fold, Folded;
      Buffer(Registers(), nblocks, buf[..count], message, [0x80]);
      ghost var before := buf[..count];
      buf[count] := 0x80;
      assert buf[..count + 1] == before + [0x80];
      count, message := count + 1, message + [0x80];
      while count < limit
        invariant old(count) < count <= limit && Valid()
        invariant message == old(message) + [0x80] + Zeroes(count - old(count) - 1)
      {
        Buffer(Registers(), nblocks, buf[..count], message, [0]);
        before := buf[..count];
        buf[count] := 0;
        assert buf[..count + 1] == before + [0];
        assert Zeroes(count - old(count)) == Zeroes(count - old(count) - 1) + [0];
        count, message := count + 1, message + [0];
      }
      Folds();
    }

    /** Fill the next block with zeroes. */
    method Clear()
      requires Valid() && count == 0
      modifies buf
      ensures buf[..56] == Zeroes(56) && Folded(Registers(), buf[..56], message + Zeroes(56))
    {
      FoldedMore(Registers(), buf[..0], message, Zeroes(56));
      hide Holds, Folded;
      assert buf[..0] + Zeroes(56) == Zeroes(56);
      forall i | 0 <= i < 56 { buf[i] := 0; }
      assert buf[..56] == Zeroes(56);
    }

    /** The two branches that pad the message to 56 bytes modulo 64. */
    method PadMessage()
      requires Valid() && count < 64
      modifies this, buf
      ensures Folded(Registers(), buf[..56], message) && message == old(message) + Padding(old(|message|))
    {
      hide Holds, Folded, Valid, Padding, Zeroes;
      Counts();
      if count < 56 {
        PadShort(message);
        Pad(56);
      } else {
        PadLong(message);
        Pad(64);
        Update(NULL);
        Clear();
        message := message + Zeroes(56);
      }
    }

    method PutLength(lsb: nat, msb: nat)
      requires buf.Length == 64
      modifies buf
      ensures buf[..] == old(buf[..56]) + (LowBytes(lsb) + LowBytes(msb))
    {
      hide *;
      PutLow(56, lsb);
      PutLow(60, msb);
    }

    /** The X macro, on each register in turn. */
    method Store()
      requires buf.Length == 64
      modifies buf
      ensures buf[..16] == Output(Registers())
    {
      hide WordBytes;
      PutWord(0, A);
      PutWord(4, B);
      PutWord(8, C);
      PutWord(12, D);
    }

    /** do_final */
    method Final()
      requires Valid()
      modifies this, buf
      ensures finalized && message == old(message)
      ensures buf[..16] == Output(Fold(Padded(message, 8 * |message| % WORDS, HighWord(|message|))))
    {
      hide Holds, Fold, Folded, Compress, LowBytes, HighWord, WordBytes, Padding, Output;
      Update(NULL);
      ghost var m := message;
      var lsb, msb := Length();
      PadMessage();
      LastBlock(Registers(), buf[..56], message, LowBytes(lsb) + LowBytes(msb));
      PutLength(lsb, msb);
      Transform(buf[..]);
      assert message + (LowBytes(lsb) + LowBytes(msb)) == Padded(m, lsb, msb);
      message := m;
      Store();
      finalized := true;
    }

    /** md5_final, which may be called again for the same digest. */
    method Digest() returns (digest: seq<Byte>)
      requires Valid() || (finalized && buf.Length == 64)
      modifies this, buf
      ensures finalized && message == old(message) && buf.Length == 64 && digest == buf[..16]
      ensures old(finalized) ==> digest == old(buf[..16])
      ensures !old(finalized) ==> digest == Output(Fold(Padded(message, 8 * |message| % WORDS, HighWord(|message|))))
    {
      hide Holds, Output, Fold, Padded, HighWord;
      if !finalized { Final(); }
      digest := buf[..16];
    }
  }

  /** Every way of cutting a message into calls gives the same digest: the one of
      RFC 1321, with this implementation's high-order length word. */
  method Md5(chunks: seq<seq<Byte>>) returns (digest: seq<Byte>)
    ensures var m := Concat(chunks);
            digest == Output(Fold(Padded(m, 8 * |m| % WORDS, HighWord(|m|))))
  {
    hide Holds, Fold, Output, Padded, HighWord, Concat;
    var ctx := new Md5Context.Init();
    assert Concat(chunks[..0]) == [] by { NoChunks(); }
    for k := 0 to |chunks|
      invariant ctx.Valid() && ctx.message == Concat(chunks[..k])
      invariant fresh(ctx) && fresh(ctx.buf)
    {
      ctx.Update(Bytes(chunks[k]));
      ConcatNext(chunks, k);
    }
    assert chunks[..|chunks|] == chunks;
    digest := ctx.Digest();
  }
}
