/** The text forms of a digest: md5_final_text of lab3/md5.c, five bits to a character, and
    md5_finish_text of lab4/md5.c, six bits to a character with or without '@'. */
module Md5Text {

  // -------------------------------------------------------------------------
  // Bytes as one number, low-order byte first
  // -------------------------------------------------------------------------

  predicate Octets(d: seq<nat>) { forall i | 0 <= i < |d| :: d[i] < 256 }

  function Number(d: seq<nat>, base: nat): nat { if d == [] then 0 else d[0] + base * Number(d[1..], base) }

  function Value(d: seq<nat>): nat { Number(d, 256) }

  function Shr(n: nat, k: nat): nat
    decreases k
  {
    if k == 0 then n else Shr(n / 2, k - 1)
  }

  function Pow2(k: nat): (p: nat)
    ensures p >= 1
  {
    if k == 0 then 1 else 2 * Pow2(k - 1)
  }

  lemma ShrNone(n: nat)
    ensures Shr(n, 0) == n
  {
  }

  lemma {:induction false} ShrAdd(n: nat, a: nat, b: nat)
    ensures Shr(n, a + b) == Shr(Shr(n, a), b)
    decreases a
  {
    if a > 0 { ShrAdd(n / 2, a - 1, b); }
  }

  lemma Double(p: nat, y: nat)
    ensures 2 * p * y == 2 * (p * y)
  {
  }

  lemma Halve(x: nat, t: nat)
    ensures (x + 2 * t) / 2 == x / 2 + t
  {
  }

  lemma Powers(k: nat)
    requires k > 0
    ensures Pow2(k) == 2 * Pow2(k - 1)
  {
  }

  lemma {:induction false} ShrSplit(x: nat, y: nat, j: nat, s: nat)
    requires s <= j
    ensures Shr(x + Pow2(j) * y, s) == Shr(x, s) + Pow2(j - s) * y
    decreases s
  {
    if s > 0 {
      var t := Pow2(j - 1) * y;
      Double(Pow2(j - 1), y);
      Powers(j);
      hide Pow2;
      Halve(x, t);
      ShrSplit(x / 2, y, j - 1, s - 1);
      assert Shr(x + 2 * t, s) == Shr(x / 2 + t, s - 1);
    }
  }

  lemma {:induction false} ShrZero(k: nat)
    ensures Shr(0, k) == 0
  {
    if k > 0 { ShrZero(k - 1); }
  }

  lemma ShrWord(n: nat)
    ensures Shr(n, 5) == n / 32 && Shr(n, 6) == n / 64 && Shr(n, 8) == n / 256
  {
    assert Shr(n, 5) == n / 2 / 2 / 2 / 2 / 2 by { assert Shr(n / 2 / 2, 3) == n / 2 / 2 / 2 / 2 / 2; }
    ShrAdd(n, 5, 1);
    assert Shr(n / 32, 1) == n / 32 / 2;
    ShrAdd(n, 6, 2);
    assert Shr(n / 64, 2) == n / 64 / 2 / 2;
  }

  lemma {:induction false} ShrBytes(d: seq<nat>, k: nat)
    requires Octets(d) && k <= |d|
    ensures Shr(Value(d), 8 * k) == Value(d[k..])
  {
    if k == 0 {
      assert d[0..] == d;
    } else {
      ShrBytes(d, k - 1);
      ShrAdd(Value(d), 8 * (k - 1), 8);
      ShrWord(Value(d[k - 1..]));
      assert d[k - 1..][1..] == d[k..];
    }
  }

  /** What both loops compute before masking: the bits of one byte from bit on, and above
      them the next byte. */
  function Peek(d: seq<nat>, bit: nat): nat
    requires bit < 8 * |d|
  {
    var first := bit / 8;
    Shr(d[first], bit % 8) + if bit + 8 > (first + 1) * 8 && first < |d| - 1 then d[first + 1] * Pow2(8 - bit % 8)
      else 0
  }

  lemma FromByte(d: seq<nat>, first: nat, s: nat)
    requires Octets(d) && first < |d| && s < 8
    ensures Shr(Value(d), 8 * first + s) == Shr(d[first], s) + Pow2(8 - s) * Value(d[first + 1..])
  {
    hide Pow2, Shr;
    ShrBytes(d, first);
    ShrAdd(Value(d), 8 * first, s);
    assert d[first..][1..] == d[first + 1..];
    EightBits();
    ShrSplit(d[first], Value(d[first + 1..]), 8, s);
  }

  lemma EightBits()
    ensures Pow2(8) == 256
  {
  }

  /** The low six bits are those of the whole number from bit on. */
  lemma Window(d: seq<nat>, bit: nat)
    requires Octets(d) && bit < 8 * |d|
    ensures Peek(d, bit) % 64 == Shr(Value(d), bit) % 64
  {
    hide Pow2, Shr, Octets;
    var first, s := bit / 8, bit % 8;
    FromByte(d, first, s);
    EightBits();
    var p := Pow2(8 - s);
    if first == |d| - 1 {
      assert d[first + 1..] == [] && p * 0 == 0;
    } else {
      var z := Value(d[first + 1..][1..]);
      Spread(p, d[first + 1], z);
      assert Shr(Value(d), bit) == Shr(d[first], s) + d[first + 1] * p + 64 * (4 * (p * z));
      if s == 0 {
        Mod64(Shr(d[first], s), 4 * d[first + 1] + 4 * (p * z));
      } else {
        Mod64(Shr(d[first], s) + d[first + 1] * p, 4 * (p * z));
      }
    }
  }

  lemma Spread(p: nat, a: nat, z: nat)
    ensures p * (a + 256 * z) == a * p + 64 * (4 * (p * z))
  {
    assert p * (a + 256 * z) == p * a + p * (256 * z);
    assert p * (256 * z) == 256 * (p * z);
  }

  lemma Mod64(x: nat, k: nat)
    ensures (x + 64 * k) % 64 == x % 64
  {
  }

  /** Bit j of a digest, counted from the low-order bit of its first byte; none after the last. */
  function Bit(d: seq<nat>, j: nat): nat {
    if j < 8 * |d| then d[j / 8] / [1, 2, 4, 8, 16, 32, 64, 128][j % 8] % 2 else 0
  }

  /** The n bits from bit j on, as a number. */
  function Bits(d: seq<nat>, j: nat, n: nat): (v: nat)
    ensures v < Pow2(n) && (n == 5 ==> v < 32) && (n == 6 ==> v < 64)
    decreases n
  {
    if n == 0 then 0 else Bit(d, j) + 2 * Bits(d, j + 1, n - 1)
  }

  lemma ShrFew(b: nat)
    ensures Shr(b, 0) == b && Shr(b, 1) == b / 2 && Shr(b, 2) == b / 4 && Shr(b, 3) == b / 8
  {
    assert Shr(b, 3) == b / 2 / 2 / 2;
  }

  lemma ShrByte(b: nat, s: nat)
    requires s < 8
    ensures Shr(b, s) == b / [1, 2, 4, 8, 16, 32, 64, 128][s]
  {
    if s < 4 {
      ShrFew(b);
    } else {
      ShrFew(b);
      ShrAdd(b, 3, s - 3);
      ShrAdd(b / 8, 1, s - 4);
      ShrFew(b / 16);
    }
  }

  lemma ShrBit(d: seq<nat>, j: nat)
    requires Octets(d)
    ensures Shr(Value(d), j) % 2 == Bit(d, j)
  {
    hide Shr, Value;
    if j < 8 * |d| {
      var first, s := j / 8, j % 8;
      FromByte(d, first, s);
      ShrByte(d[first], s);
      Even(Shr(d[first], s), Pow2(7 - s), Value(d[first + 1..]));
    } else {
      ShrBytes(d, |d|);
      assert d[|d|..] == [];
      ValueNone();
      ShrAdd(Value(d), 8 * |d|, j - 8 * |d|);
      ShrZero(j - 8 * |d|);
    }
  }

  lemma ValueNone()
    ensures Value([]) == 0
  {
  }

  lemma ShrOne(n: nat)
    ensures Shr(n, 1) == n / 2
  {
  }

  lemma Even(x: nat, p: nat, v: nat)
    ensures (x + 2 * p * v) % 2 == x % 2
  {
    Double(p, v);
  }

  /** From bit j on, the whole number is n bits of the digest and those after them. */
  lemma {:induction false} ShrBits(d: seq<nat>, j: nat, n: nat)
    requires Octets(d)
    ensures Shr(Value(d), j) == Bits(d, j, n) + Pow2(n) * Shr(Value(d), j + n)
    decreases n
  {
    hide Shr, Value, Octets;
    if n > 0 {
      ShrBit(d, j);
      ShrAdd(Value(d), j, 1);
      ShrOne(Shr(Value(d), j));
      ShrBits(d, j + 1, n - 1);
      Double(Pow2(n - 1), Shr(Value(d), j + n));
    }
  }

  lemma LowBits(d: seq<nat>, j: nat)
    requires Octets(d)
    ensures Shr(Value(d), j) % 32 == Bits(d, j, 5) < 32
    ensures Shr(Value(d), j) % 64 == Bits(d, j, 6) < 64
  {
    hide Bits, Shr, Value, Pow2, Octets;
    SmallPowers();
    ShrBits(d, j, 5);
    ShrBits(d, j, 6);
    Below32(Shr(Value(d), j), Bits(d, j, 5), Shr(Value(d), j + 5));
    Below64(Shr(Value(d), j), Bits(d, j, 6), Shr(Value(d), j + 6));
  }

  lemma SmallPowers()
    ensures Pow2(5) == 32 && Pow2(6) == 64
  {
    assert Pow2(3) == 8;
  }

  lemma Below32(n: nat, a: nat, b: nat)
    requires a < 32 && n == a + 32 * b
    ensures n % 32 == a
  {
  }

  lemma Below64(n: nat, a: nat, b: nat)
    requires a < 64 && n == a + 64 * b
    ensures n % 64 == a
  {
  }

  // -------------------------------------------------------------------------
  // Digits and characters
  // -------------------------------------------------------------------------

  /** The k low-order digits of n, lowest first. */
  function Digits(n: nat, base: nat, k: nat): (ds: seq<nat>)
    requires base > 0
    ensures |ds| == k && forall i | 0 <= i < k :: ds[i] < base
    decreases k
  {
    if k == 0 then [] else [n % base] + Digits(n / base, base, k - 1)
  }

  predicate BitsOf(base: nat, bits: nat) {
    (base == 32 && bits == 5) || (base == 64 && bits == 6) || (base == 256 && bits == 8)
  }

  lemma {:induction false} DigitsNext(n: nat, base: nat, bits: nat, k: nat)
    requires BitsOf(base, bits)
    ensures Digits(n, base, k + 1) == Digits(n, base, k) + [Shr(n, bits * k) % base]
    decreases k
  {
    ShrWord(n);
    if k > 0 {
      ShrAdd(n, bits, bits * (k - 1));
      DigitsNext(n / base, base, bits, k - 1);
    }
  }

  lemma {:induction false} NumberDigits(n: nat, base: nat, bits: nat, k: nat)
    requires BitsOf(base, bits) && Shr(n, bits * k) == 0
    ensures Number(Digits(n, base, k), base) == n
    decreases k
  {
    hide Shr, Number;
    ShrWord(n);
    if k == 0 {
      ShrNone(n);
      NoDigits(base);
    } else {
      TimesNext(bits, k);
      ShrAdd(n, bits, bits * (k - 1));
      NumberDigits(n / base, base, bits, k - 1);
      NumberCons(n % base, Digits(n / base, base, k - 1), base);
      Divide(n, base);
      hide Digits;
      DigitsFirst(n, base, k);
    }
  }

  lemma NoDigits(base: nat)
    ensures Number([], base) == 0
  {
  }

  lemma DigitsFirst(n: nat, base: nat, k: nat)
    requires base > 0 && k > 0
    ensures Digits(n, base, k) == [n % base] + Digits(n / base, base, k - 1)
  {
  }

  lemma TimesNext(bits: nat, k: nat)
    requires k > 0
    ensures bits * k == bits + bits * (k - 1)
  {
  }

  lemma Divide(n: nat, base: nat)
    requires base > 0
    ensures n == n % base + base * (n / base)
  {
  }

  lemma NumberCons(x: nat, rest: seq<nat>, base: nat)
    ensures Number([x] + rest, base) == x + base * Number(rest, base)
  {
    assert ([x] + rest)[1..] == rest;
  }

  lemma {:induction false} DigitsValue(d: seq<nat>)
    requires Octets(d)
    ensures Digits(Value(d), 256, |d|) == d
  {
    if d != [] {
      DigitsValue(d[1..]);
      assert Value(d) % 256 == d[0] && Value(d) / 256 == Value(d[1..]);
    }
  }

  /** lab3's alphabet. */
  function Char32(v: nat): char
    requires v < 32
  {
    if v < 26 then 'a' + v as char else '2' + (v - 26) as char
  }

  const LETTERS32: string := "abcdefghijklmnopqrstuvwxyz234567"
  const LETTERS64: string := "abcdefghijklmnopqrstuvwxyz" + "ABCDEFGHIJKLMNOPQRSTUVWXYZ" + "0123456789_@"

  function Digit32(c: char): nat {
    if 'a' <= c <= 'z' then (c - 'a') as nat else if '2' <= c <= '7' then (c - '2') as nat + 26 else 0
  }

  /** lab4's alphabet. */
  function Char64(v: nat): char
    requires v < 64
  {
    if v < 26 then 'a' + v as char
    else if v < 52 then 'A' + (v - 26) as char
    else if v < 62 then '0' + (v - 52) as char
    else if v == 62 then '_' else '@'
  }

  function Digit64(c: char): nat {
    if 'a' <= c <= 'z' then (c - 'a') as nat
    else if 'A' <= c <= 'Z' then (c - 'A') as nat + 26
    else if '0' <= c <= '9' then (c - '0') as nat + 52
    else if c == '_' then 62 else if c == '@' then 63 else 0
  }

  function Read32(text: string): seq<nat> { seq(|text|, i requires 0 <= i < |text| => Digit32(text[i])) }

  function Read64(text: string): seq<nat> { seq(|text|, i requires 0 <= i < |text| => Digit64(text[i])) }

  /** What a reader of the text gets back. */
  function Decode32(text: string): seq<nat> { Digits(Number(Read32(text), 32), 256, 16) }

  function Decode64(text: string): seq<nat> { Digits(Number(Read64(text), 64), 256, 16) }

  /** Enough digits of a 16-byte digest give it back. */
  lemma DigitsDecode(d: seq<nat>, base: nat, bits: nat, k: nat)
    requires Octets(d) && |d| == 16 && BitsOf(base, bits) && bits * k >= 128
    ensures Digits(Number(Digits(Value(d), base, k), base), 256, 16) == d
  {
    ShrBytes(d, 16);
    ShrAdd(Value(d), 128, bits * k - 128);
    ShrZero(bits * k - 128);
    NumberDigits(Value(d), base, bits, k);
    DigitsValue(d);
  }

  lemma Chars32(v: nat)
    requires v < 32
    ensures Letter32(v) == Char32(v)
  {
  }

  lemma Chars64(v: nat)
    requires v < 64
    ensures Letter64(v) == Char64(v)
  {
  }

  function Letter32(v: nat): char
    requires v < 32
  {
    LETTERS32[v]
  }

  function Letter64(v: nat): char
    requires v < 64
  {
    LETTERS64[v]
  }

  /** Each character stands for the next five bits of the digest. */
  ghost predicate Letters32(d: seq<nat>, text: string) {
    forall i | 0 <= i < |text| :: text[i] == Letter32(Bits(d, 5 * i, 5))
  }

  lemma Letters32Next(d: seq<nat>, text: string)
    requires Octets(d) && |d| == 16 && Letters32(d, text) && 5 * |text| < 128
    ensures Letters32(d, text + [Char32(Peek(d, 5 * |text|) % 32)])
  {
    hide Octets, Peek, Shr, Value, Bits, Pow2, Char32, Letter32;
    var bit := 5 * |text|;
    Window(d, bit);
    LowBits(d, bit);
    Low32(Peek(d, bit), Shr(Value(d), bit));
    Chars32(Peek(d, bit) % 32);
  }

  /** The loop of md5_final_text, without the terminating NUL. */
  method FinalText(d: seq<nat>) returns (text: string)
    requires Octets(d) && |d| == 16
    ensures |text| == 26 && Letters32(d, text) && Decode32(text) == d
  {
    hide Peek, Shr, Value, Number, Letters32;
    NoLetters(d, true);
    text := "";
    var bit := 0;
    while bit < 128
      invariant 0 <= bit <= 130 && bit == 5 * |text|
      invariant Read32(text) == Digits(Value(d), 32, |text|) && Letters32(d, text)
    {
      var val := Peek(d, bit);
      Letters32Next(d, text);
      Window(d, bit);
      DigitsNext(Value(d), 32, 5, |text|);
      Low32(val, Shr(Value(d), bit));
      assert Read32(text + [Char32(val % 32)]) == Read32(text) + [val % 32] by { Char32Reads(val % 32); }
      text := text + [Char32(val % 32)];
      bit := bit + 5;
    }
    DigitsDecode(d, 32, 5, 26);
  }

  lemma Low32(a: nat, b: nat)
    requires a % 64 == b % 64
    ensures a % 32 == b % 32
  {
    assert a - b == 32 * (2 * (a / 64) - 2 * (b / 64));
  }

  lemma Char32Reads(v: nat)
    requires v < 32
    ensures Digit32(Char32(v)) == v
  {
  }

  lemma Char64Reads(v: nat)
    requires v < 64
    ensures Digit64(Char64(v)) == v && (Char64(v) == '@' <==> v == 63)
  {
  }

  /** The digits of md5_finish_text without '@': where the next six bits are all ones it
      takes five of them. */
  function Walk(n: nat, bit: nat): (ds: seq<nat>)
    ensures forall v | v in ds :: v < 63
    ensures bit < 128 ==> 128 - bit <= 6 * |ds| && 5 * (|ds| - 1) < 128 - bit
    decreases 134 - bit
  {
    if bit >= 128 then []
    else
      var v := Shr(n, bit) % 64;
      if v == 63 then [31] + Walk(n, bit + 5) else [v] + Walk(n, bit + 6)
  }

  lemma {:induction false} WalkZero(n: nat, bit: nat)
    requires Shr(n, bit) == 0 && bit <= 128
    ensures Walk(n, bit) == seq((133 - bit) / 6, _ => 0)
    decreases 128 - bit
  {
    hide Shr;
    if bit < 128 {
      ShrAdd(n, bit, 6);
      ShrZero(6);
      if bit + 6 <= 128 {
        WalkZero(n, bit + 6);
      } else {
        assert Walk(n, bit + 6) == [];
      }
    }
  }

  lemma WalkStep(n: nat, bit: nat)
    requires bit < 128
    ensures var v := Shr(n, bit) % 64;
            Walk(n, bit) == if v == 63 then [31] + Walk(n, bit + 5) else [v] + Walk(n, bit + 6)
  {
  }

  lemma ReadNext(text: string, v: nat)
    requires v < 64
    ensures Read64(text + [Char64(v)]) == Read64(text) + [v] && (Char64(v) == '@' <==> v == 63)
  {
    Char64Reads(v);
    assert Read64(text + [Char64(v)]) == Read64(text) + [v];
  }

  /** Without '@' the text is the one with '@' exactly when that one has no '@'. */
  lemma {:induction false} WalkIsDigits(n: nat, bit: nat, k: nat)
    requires bit + 6 * k == 132
    ensures Walk(n, bit) == Digits(Shr(n, bit), 64, k) <==> 63 !in Digits(Shr(n, bit), 64, k)
    decreases k
  {
    hide Shr;
    var m := Shr(n, bit);
    ShrAdd(n, bit, 6);
    ShrWord(m);
    if k > 0 {
      var rest := Digits(m / 64, 64, k - 1);
      assert Digits(m, 64, k) == [m % 64] + rest;
      if m % 64 != 63 {
        WalkIsDigits(n, bit + 6, k - 1);
        assert Walk(n, bit) == [m % 64] + Walk(n, bit + 6);
      }
    }
  }

  lemma {:induction false} DigitAt(n: nat, base: nat, bits: nat, k: nat, j: nat)
    requires BitsOf(base, bits) && j < k
    ensures Digits(n, base, k)[j] == Shr(n, bits * j) % base
    decreases k
  {
    hide Shr;
    ShrWord(n);
    if j == 0 {
      ShrNone(n);
    } else {
      TimesNext(bits, j);
      ShrAdd(n, bits, bits * (j - 1));
      DigitAt(n / base, base, bits, k - 1, j - 1);
    }
  }

  /** Base-64 digits of a number with these digits. */
  lemma {:induction false} DigitsOfNumber(ds: seq<nat>)
    requires forall i | 0 <= i < |ds| :: ds[i] < 64
    ensures Digits(Number(ds, 64), 64, |ds|) == ds
  {
    if ds != [] {
      DigitsOfNumber(ds[1..]);
      Divide64(ds[0], Number(ds[1..], 64));
    }
  }

  lemma Divide64(a: nat, b: nat)
    requires a < 64
    ensures (a + 64 * b) % 64 == a && (a + 64 * b) / 64 == b
  {
  }

  /** y with k zero bits after it. */
  function Lift(y: nat, k: nat): nat { if k == 0 then y else 2 * Lift(y, k - 1) }

  lemma {:induction false} LiftSplit(x: nat, y: nat, j: nat, s: nat)
    requires s <= j
    ensures Shr(x + Lift(y, j), s) == Shr(x, s) + Lift(y, j - s)
    decreases s
  {
    if s > 0 {
      Halve(x, Lift(y, j - 1));
      LiftSplit(x / 2, y, j - 1, s - 1);
    }
  }

  lemma LiftByte(y: nat, k: nat)
    ensures Lift(y, k + 6) == 64 * Lift(y, k) && Lift(y, k + 8) == 256 * Lift(y, k)
  {
    assert Lift(y, k + 2) == 4 * Lift(y, k) && Lift(y, k + 4) == 4 * Lift(y, k + 2);
    assert Lift(y, k + 6) == 4 * Lift(y, k + 4) && Lift(y, k + 8) == 4 * Lift(y, k + 6);
  }

  /** The low k bytes of a number, and the rest. */
  lemma {:induction false} LowBytes(n: nat, k: nat)
    ensures n == Number(Digits(n, 256, k), 256) + Lift(Shr(n, 8 * k), 8 * k)
    decreases k
  {
    hide Shr, Number;
    if k == 0 {
      ShrNone(n);
      NoDigits(256);
    } else {
      var y := Shr(n / 256, 8 * (k - 1));
      LowBytes(n / 256, k - 1);
      ShrWord(n);
      ShrAdd(n, 8, 8 * (k - 1));
      DigitsFirst(n, 256, k);
      NumberCons(n % 256, Digits(n / 256, 256, k - 1), 256);
      LiftByte(y, 8 * (k - 1));
      Divide(n, 256);
      hide Digits, Lift;
    }
  }

  /** Six bits of the low 128 are those of the number made of the low 16 bytes. */
  lemma LowDigit(n: nat, v: nat, bit: nat)
    requires v == Number(Digits(n, 256, 16), 256) && bit + 6 <= 128
    ensures Shr(n, bit) % 64 == Shr(v, bit) % 64
  {
    hide Shr, Lift, Number, Digits;
    LowBytes(n, 16);
    var y := Shr(n, 128);
    LiftSplit(v, y, 128, bit);
    LiftByte(y, 122 - bit);
    Mod64More(Shr(v, bit), Lift(y, 122 - bit));
  }

  lemma Mod64More(a: nat, b: nat)
    ensures (a + 64 * b) % 64 == a % 64
  {
  }

  /** A text whose digits decode to d agrees with d in 21 base-64 digits. */
  lemma DecodedDigit(d: seq<nat>, ws: seq<nat>, j: nat)
    requires Octets(d) && |d| == 16 && (forall i | 0 <= i < |ws| :: ws[i] < 64) && j < 21 && j < |ws|
    requires Digits(Number(ws, 64), 256, 16) == d
    ensures Digits(Value(d), 64, 22)[j] == ws[j]
  {
    hide Shr, Number, Octets;
    DigitAt(Value(d), 64, 6, 22, j);
    DigitAt(Number(ws, 64), 64, 6, |ws|, j);
    DigitsOfNumber(ws);
    LowDigit(Number(ws, 64), Value(d), 6 * j);
  }

  lemma LastDigit(d: seq<nat>)
    requires Octets(d) && |d| == 16
    ensures Digits(Value(d), 64, 22)[21] != 63
  {
    hide Shr, Number;
    DigitAt(Value(d), 64, 6, 22, 21);
    ShrBytes(d, 16);
    NoDigits(256);
    assert d[16..] == [];
    ShrAdd(Value(d), 126, 2);
    hide Digits, Value;
    TopBits(Shr(Value(d), 126));
  }

  /** Without '@' the text gives the digest back exactly when the plain text has no '@'. */
  lemma WalkDecodes(d: seq<nat>)
    requires Octets(d) && |d| == 16
    ensures Digits(Number(Walk(Value(d), 0), 64), 256, 16) == d <==> 63 !in Digits(Value(d), 64, 22)
  {
    hide Shr, Walk, Octets, Number, Digits;
    var ws := Walk(Value(d), 0);
    ShrNone(Value(d));
    WalkIsDigits(Value(d), 0, 22);
    DigitsDecode(d, 64, 6, 22);
    if Digits(Number(ws, 64), 256, 16) == d {
      LastDigit(d);
      forall i | 0 <= i < |ws| ensures ws[i] < 63 { assert ws[i] in ws; }
      forall j: nat | j < 21 ensures Digits(Value(d), 64, 22)[j] != 63 { DecodedDigit(d, ws, j); }
    }
  }

  lemma TopBits(x: nat)
    requires Shr(x, 2) == 0
    ensures x % 64 != 63
  {
    assert Shr(x, 2) == x / 2 / 2;
  }

  /** The text so far spells the digits of the bits before `bit`. */
  ghost predicate Spelled(d: seq<nat>, allowAt: bool, text: string, bit: nat) {
    && (allowAt ==> bit == 6 * |text| && Read64(text) == Digits(Value(d), 64, |text|))
    && (!allowAt ==> '@' !in text && Read64(text) + Walk(Value(d), bit) == Walk(Value(d), 0))
  }

  lemma SpelledNext(d: seq<nat>, allowAt: bool, text: string, bit: nat)
    requires Octets(d) && |d| == 16 && bit < 128 && Spelled(d, allowAt, text, bit)
    ensures var ones := Peek(d, bit) % 64 == 63 && !allowAt;
            Spelled(d, allowAt, text + [Char64(if ones then 31 else Peek(d, bit) % 64)], if ones then bit + 5
              else bit + 6)
  {
    hide Octets, Peek, Shr, Value, Number, Digits, Walk, Read64, Char64;
    var v := Peek(d, bit) % 64;
    Window(d, bit);
    if allowAt {
      DigitsNext(Value(d), 64, 6, |text|);
      ReadNext(text, v);
    } else {
      WalkStep(Value(d), bit);
      ReadNext(text, if v == 63 then 31 else v);
      Regroup(Read64(text), if v == 63 then 31 else v, Walk(Value(d), if v == 63 then bit + 5 else bit + 6));
    }
  }

  lemma SpelledStart(d: seq<nat>, allowAt: bool)
    ensures Spelled(d, allowAt, "", 0)
  {
    hide Shr, Value, Digits, Walk, Read64;
    TextStart(Value(d));
    assert [] + Walk(Value(d), 0) == Walk(Value(d), 0);
  }

  lemma SpelledAll(d: seq<nat>, allowAt: bool, text: string, bit: nat)
    requires Octets(d) && |d| == 16 && 128 <= bit <= 133 && Spelled(d, allowAt, text, bit)
    ensures allowAt ==> |text| == 22 && Decode64(text) == d
    ensures !allowAt ==> 22 <= |text| <= 26 && '@' !in text && Read64(text) == Walk(Value(d), 0)
    ensures !allowAt ==> (Decode64(text) == d <==> 63 !in Digits(Value(d), 64, 22))
  {
    hide Octets, Shr, Value, Number, Digits, Read64;
    WalkEnd(Value(d), bit);
    if allowAt {
      DigitsDecode(d, 64, 6, 22);
    } else {
      assert Read64(text) + [] == Read64(text);
      ReadLength(text, Walk(Value(d), 0));
      WalkDecodes(d);
    }
  }

  /** The character stands for the bits between two cuts: the next six, or five of them when all
      six are ones and '@' is not allowed. */
  ghost predicate Stands(d: seq<nat>, allowAt: bool, from: nat, to: nat, c: char) {
    && from < 128 && to == from + (if !allowAt && Bits(d, from, 6) == 63 then 5 else 6)
    && c == Letter64(Bits(d, from, if to == from + 5 then 5 else 6))
  }

  /** The characters stand for the bits between one cut and the next. */
  ghost predicate Letters64(d: seq<nat>, allowAt: bool, text: string, cuts: seq<nat>) {
    && |cuts| == |text| + 1 && cuts[0] == 0
    && forall i | 0 <= i < |text| :: Stands(d, allowAt, cuts[i], cuts[i + 1], text[i])
  }

  lemma NoLetters(d: seq<nat>, allowAt: bool)
    ensures Letters32(d, "") && Letters64(d, allowAt, "", [0])
  {
  }

  lemma StandsNext(d: seq<nat>, allowAt: bool, bit: nat)
    requires Octets(d) && |d| == 16 && bit < 128
    ensures var val := Peek(d, bit) % 64;
            && (val == 63 && !allowAt ==> Stands(d, allowAt, bit, bit + 5, Char64(31)))
            && (!(val == 63 && !allowAt) ==> Stands(d, allowAt, bit, bit + 6, Char64(val)))
  {
    hide Octets, Peek, Shr, Value, Bits, Pow2, Char64, Letter64;
    Window(d, bit);
    LowBits(d, bit);
    if Bits(d, bit, 6) == 63 {
      Low32(Shr(Value(d), bit), 63);
      Chars64(31);
    }
    Chars64(Bits(d, bit, 6));
  }

  lemma Letters64Next(d: seq<nat>, allowAt: bool, text: string, cuts: seq<nat>, c: char, to: nat)
    requires Letters64(d, allowAt, text, cuts) && Stands(d, allowAt, cuts[|text|], to, c)
    ensures Letters64(d, allowAt, text + [c], cuts + [to])
  {
    hide Stands;
  }

  /** The loop of md5_finish_text on a finished digest. */
  method FinishText(d: seq<nat>, allowAt: bool) returns (text: string, ghost cuts: seq<nat>)
    requires Octets(d) && |d| == 16
    ensures Letters64(d, allowAt, text, cuts) && cuts[|text|] >= 128
    ensures allowAt ==> |text| == 22 && Decode64(text) == d
    ensures !allowAt ==> 22 <= |text| <= 26 && '@' !in text && Read64(text) == Walk(Value(d), 0)
    ensures !allowAt ==> (Decode64(text) == d <==> 63 !in Digits(Value(d), 64, 22))
  {
    hide *;
    text := "";
    var bit: int := 0;
    cuts := [0];
    SpelledStart(d, allowAt);
    NoLetters(d, allowAt);
    while bit < 128
      invariant 0 <= bit <= 133 && Spelled(d, allowAt, text, bit)
      invariant Letters64(d, allowAt, text, cuts) && |cuts| == |text| + 1 && cuts[|text|] == bit
      decreases 128 - bit
    {
      SpelledNext(d, allowAt, text, bit);
      StandsNext(d, allowAt, bit);
      var val := Peek(d, bit);
      if val % 64 == 63 && !allowAt {
        val := 31;
        bit := bit - 1;
      }
      Letters64Next(d, allowAt, text, cuts, Char64(val % 64), bit + 6);
      text := text + [Char64(val % 64)];
      bit := bit + 6;
      cuts := cuts + [bit];
    }
    SpelledAll(d, allowAt, text, bit);
  }

  lemma Regroup(a: seq<nat>, v: nat, b: seq<nat>)
    ensures a + [v] + b == a + ([v] + b)
  {
  }

  lemma TextStart(n: nat)
    ensures Read64("") == [] == Digits(n, 64, 0)
  {
  }

  lemma WalkEnd(n: nat, bit: nat)
    requires bit >= 128
    ensures Walk(n, bit) == []
  {
  }

  lemma ReadLength(text: string, ds: seq<nat>)
    requires Read64(text) == ds
    ensures |text| == |ds|
  {
  }

  lemma SmallByte(x: nat)
    requires x < 256
    ensures Octets([x] + seq(15, _ => 0)) && Value([x] + seq(15, _ => 0)) == x
  {
    NumberCons(x, seq(15, _ => 0), 256);
    NumberZeros(15);
  }

  lemma {:induction false} NumberZeros(k: nat)
    ensures Number(seq(k, _ => 0), 256) == 0
  {
    if k > 0 {
      NumberZeros(k - 1);
      assert seq(k, _ => 0)[1..] == seq(k - 1, _ => 0);
    }
  }

  lemma WalkTwo(n: nat, first: nat)
    requires Shr(n, 0) % 64 in {31, 63} && first == (if Shr(n, 0) % 64 == 63 then 5 else 6) && Shr(n, first) == 1
    ensures Walk(n, 0) == [31, 1] + seq(20, _ => 0)
  {
    hide Shr, Walk;
    WalkStep(n, 0);
    WalkStep(n, first);
    ShrAdd(n, first, 6);
    ShrWord(1);
    WalkZero(n, first + 6);
  }

  /** Without '@' the text does not determine the digest: these two differ in their first
      byte and have the same 22 characters. */
  lemma SameTextTwice()
    ensures var d := [63] + seq(15, _ => 0);
            var e := [95] + seq(15, _ => 0);
            d != e && Octets(d) && Octets(e) && Walk(Value(d), 0) == Walk(Value(e), 0)
  {
    SmallByte(63);
    SmallByte(95);
    ShrNone(63);
    ShrNone(95);
    ShrWord(63);
    ShrWord(95);
    WalkTwo(63, 5);
    WalkTwo(95, 6);
    assert ([63] + seq(15, _ => 0))[0] != ([95] + seq(15, _ => 0))[0];
  }
}
