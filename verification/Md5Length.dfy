/** The 64-bit message length that do_final of lab3/md5.c computes from a 32-bit count of
    blocks, against the one RFC 1321 asks for. */
module Md5Length {
  import opened Md5Spec

  function Carry(sum: nat, addend: nat): nat { if sum < addend then 1 else 0 }

  /** The high-order length word for a message of n bytes.  The byte count's high part is
      added as it is, not shifted left by 3. */
  function HighWord(n: nat): nat {
    var t := n / 64 % WORDS;
    var low := n % WORDS;
    Carry(t * 64 % WORDS, t) + t / 0x400_0000 + Carry(low * 8 % WORDS, low) + low / 0x2000_0000
  }

  /** What a caller can check: the message, counted modulo 2^61 bytes, is below 4 GiB and
      its bit count modulo 2^32 is not below its byte count. */
  predicate LengthCounts(n: nat) {
    var k := n % 0x2000_0000_0000_0000;
    k < WORDS && k <= 8 * k % WORDS
  }

  lemma Unique(d: nat, k: nat, r: nat)
    requires r < d
    ensures (k * d + r) / d == k && (k * d + r) % d == r
  {
    var x := k * d + r;
    var a, b := x / d, x % d;
    assert a * d + b == x && 0 <= b < d;
    assert (a - k) * d == r - b;
    assert (k - a) * d == b - r;
    if a > k { Times(a - k, d); } else if a < k { Times(k - a, d); }
  }

  lemma Times(p: nat, d: nat)
    requires p >= 1
    ensures p * d >= d
  {
  }

  lemma TrueHigh(n: nat)
    ensures 8 * n / WORDS % WORDS == 8 * (n / WORDS % 0x2000_0000) + n % WORDS / 0x2000_0000
  {
    var q, low := n / WORDS, n % WORDS;
    var e := low / 0x2000_0000;
    assert n == q * WORDS + low;
    assert 8 * n == (8 * q + e) * WORDS + 8 * (low - e * 0x2000_0000);
    Unique(WORDS, 8 * q + e, 8 * (low - e * 0x2000_0000));
    var j := q / 0x2000_0000;
    assert q == j * 0x2000_0000 + q % 0x2000_0000;
    assert 8 * q + e == j * WORDS + (8 * (q % 0x2000_0000) + e);
    Unique(WORDS, j, 8 * (q % 0x2000_0000) + e);
  }

  lemma LowBits(n: nat)
    ensures n % 0x2000_0000_0000_0000 == n / WORDS % 0x2000_0000 * WORDS + n % WORDS
  {
    var q, low := n / WORDS, n % WORDS;
    var j := q / 0x2000_0000;
    assert q == j * 0x2000_0000 + q % 0x2000_0000 && n == q * WORDS + low;
    assert n == j * 0x2000_0000_0000_0000 + (q % 0x2000_0000 * WORDS + low);
    Unique(0x2000_0000_0000_0000, j, q % 0x2000_0000 * WORDS + low);
  }

  lemma BlockHigh(n: nat)
    ensures n / 64 % WORDS / 0x400_0000 == n / WORDS % 64
  {
    var b := n / 64;
    var q, s := b / 0x400_0000, b % 0x400_0000;
    assert b == q * 0x400_0000 + s;
    assert n / WORDS == q by {
      assert n == q * WORDS + (s * 64 + n % 64);
      Unique(WORDS, q, s * 64 + n % 64);
    }
    assert q == q / 64 * 64 + q % 64;
    assert b == q / 64 * WORDS + (q % 64 * 0x400_0000 + s);
    Unique(WORDS, q / 64, q % 64 * 0x400_0000 + s);
    Unique(0x400_0000, q % 64, s);
  }

  lemma Residue(q: nat)
    ensures q % 0x2000_0000 % 64 == q % 64
  {
    var j := q / 0x2000_0000;
    var m := q % 0x2000_0000;
    assert q == (j * 0x80_0000 + m / 64) * 64 + m % 64;
    Unique(64, j * 0x80_0000 + m / 64, m % 64);
  }

  /** do_final's high-order word is the one of RFC 1321 under that condition and no other. */
  lemma LengthRight(n: nat)
    ensures HighWord(n) == 8 * n / WORDS % WORDS <==> LengthCounts(n)
  {
    TrueHigh(n);
    LowBits(n);
    BlockHigh(n);
    Residue(n / WORDS);
    Compare(n / 64 % WORDS, n / WORDS % 0x2000_0000, n % WORDS);
  }

  lemma Compare(t: nat, high: nat, low: nat)
    requires t < WORDS && low < WORDS && t / 0x400_0000 == high % 64
    ensures Carry(t * 64 % WORDS, t) + t / 0x400_0000 + Carry(low * 8 % WORDS, low) == 8 * high
            <==> high == 0 && low <= 8 * low % WORDS
    ensures high == 0 <==> high * WORDS + low < WORDS
  {
    assert high % 64 <= high;
    if high == 0 { assert t < 0x400_0000; }
  }

  /** The steps of the computation on the low-order word lose nothing. */
  lemma LowSteps(n: nat)
    ensures n / 64 % WORDS * 64 % WORDS + n % 64 == n % WORDS
  {
    var b := n / 64;
    var j, s := b / 0x400_0000, b % 0x400_0000;
    assert b == j * 0x400_0000 + s && n == j * WORDS + (64 * s + n % 64);
    Unique(WORDS, j, 64 * s + n % 64);
    var i := b / WORDS;
    assert b % WORDS * 64 == (j - 64 * i) * WORDS + 64 * s;
    assert 64 * i <= j;
    Unique(WORDS, j - 64 * i, 64 * s);
  }

  lemma LowBitCount(n: nat)
    ensures n % WORDS * 8 % WORDS == 8 * n % WORDS
  {
    var q, low := n / WORDS, n % WORDS;
    var e := low * 8 / WORDS;
    assert 8 * n == (8 * q + e) * WORDS + low * 8 % WORDS;
    Unique(WORDS, 8 * q + e, low * 8 % WORDS);
  }

  /** do_final's computation, one 32-bit operation at a time. */
  lemma LengthSteps(n: nat)
    ensures var t := n / 64 % WORDS;
            var shifted := t * 64 % WORDS;
            var low := (shifted + n % 64) % WORDS;
            && low * 8 % WORDS == 8 * n % WORDS
            && HighWord(n) == Carry(shifted, t) + t / 0x400_0000 + Carry(low, shifted)
                              + Carry(low * 8 % WORDS, low) + low / 0x2000_0000
  {
    LowSteps(n);
    LowBitCount(n);
    var low := n % WORDS;
    assert (n / 64 % WORDS * 64 % WORDS + n % 64) % WORDS == low by { Unique(WORDS, 0, low); }
    hide Carry;
  }

  /** Every message below 2^29 bytes is safe, and the first length that is not is 2^29. */
  lemma SafeBelow512MiB(n: nat)
    ensures n < 0x2000_0000 ==> LengthCounts(n)
    ensures !LengthCounts(0x2000_0000)
  {
  }

  lemma SmallCounts(n: nat)
    requires n < WORDS
    ensures n / 64 % WORDS == n / 64 <= n / 64 * 64 % WORDS && n / 64 / 0x400_0000 == 0
    ensures n % WORDS == n == n % 0x2000_0000_0000_0000 && n / WORDS % 0x2000_0000 == 0
  {
    assert n / 64 * 64 <= n;
  }

  /** Below 4 GiB a wrong high-order word is one too high. */
  lemma OneTooHigh(n: nat)
    requires n < WORDS && !LengthCounts(n)
    ensures HighWord(n) == 8 * n / WORDS % WORDS + 1
  {
    SmallCounts(n);
    TrueHigh(n);
    LowBitCount(n);
    assert HighWord(n) == 0 + Carry(8 * n % WORDS, n) + n / 0x2000_0000 by { assert n * 8 == 8 * n; }
  }

  lemma CarryIs(sum: nat, addend: nat)
    ensures Carry(sum, addend) == if sum < addend then 1 else 0
  {
  }
}
