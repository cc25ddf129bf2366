/** Bits of a bitmap held in 32-bit words, as bitvector_set, bitvector_clear and
    bitvector_test of lab3/ospfsmod.c address them. */
module OspfsBits {

  function Mask(k: nat): bv32
    requires k < 32
  {
    (1 as bv32) << k
  }

  predicate BitOn(w: bv32, k: nat)
    requires k < 32
  {
    w & Mask(k) != 0
  }

  function SetOn(w: bv32, k: nat): bv32
    requires k < 32
  {
    w | Mask(k)
  }

  function SetOff(w: bv32, k: nat): bv32
    requires k < 32
  {
    w & !Mask(k)
  }

  lemma OrDistributes(w: bv32, m: bv32, q: bv32)
    ensures (w | m) & q == (w & q) | (m & q)
  {
  }

  lemma AndNotMoves(w: bv32, m: bv32, q: bv32)
    ensures (w & !m) & q == w & (q & !m)
  {
  }

  lemma AndNotDisjoint(m: bv32, q: bv32)
    requires m & q == 0
    ensures q & !m == q
  {
  }

  lemma MasksDisjoint(k: nat, l: nat)
    requires k < 32 && l < 32 && k != l
    ensures Mask(k) & Mask(l) == 0
  {
  }

  lemma OnKeeps(w: bv32, k: nat, l: nat)
    requires k < 32 && l < 32 && k != l
    ensures (w | Mask(k)) & Mask(l) == w & Mask(l)
  {
    OrDistributes(w, Mask(k), Mask(l));
    MasksDisjoint(k, l);
  }

  lemma OffKeeps(w: bv32, k: nat, l: nat)
    requires k < 32 && l < 32 && k != l
    ensures (w & !Mask(k)) & Mask(l) == w & Mask(l)
  {
    AndNotMoves(w, Mask(k), Mask(l));
    MasksDisjoint(k, l);
    AndNotDisjoint(Mask(k), Mask(l));
  }

  /** Setting bit k of a word sets that bit and leaves bit l alone; clearing likewise. */
  lemma SetOnOwn(w: bv32, k: nat)
    requires k < 32
    ensures BitOn(SetOn(w, k), k)
  {
  }

  lemma SetOnOther(w: bv32, k: nat, l: nat)
    requires k < 32 && l < 32 && k != l
    ensures BitOn(SetOn(w, k), l) == BitOn(w, l)
  {
    OnKeeps(w, k, l);
    assert SetOn(w, k) & Mask(l) == w & Mask(l);
  }

  lemma SetOffOwn(w: bv32, k: nat)
    requires k < 32
    ensures !BitOn(SetOff(w, k), k)
  {
  }

  lemma SetOffOther(w: bv32, k: nat, l: nat)
    requires k < 32 && l < 32 && k != l
    ensures BitOn(SetOff(w, k), l) == BitOn(w, l)
  {
    OffKeeps(w, k, l);
    assert SetOff(w, k) & Mask(l) == w & Mask(l);
  }

  predicate TestBit(words: seq<bv32>, i: nat)
    requires i < 32 * |words|
  {
    BitOn(words[i / 32], i % 32)
  }

  /** The same over the whole word array. */
  lemma BitUpdate(words: seq<bv32>, i: nat, j: nat)
    requires i < 32 * |words| && j < 32 * |words|
    ensures TestBit(words[i / 32 := SetOn(words[i / 32], i % 32)], j) == (i == j || TestBit(words, j))
    ensures TestBit(words[i / 32 := SetOff(words[i / 32], i % 32)], j) == (i != j && TestBit(words, j))
  {
    hide Mask, BitOn, SetOn, SetOff;
    if i == j {
      SetOnOwn(words[i / 32], i % 32);
      SetOffOwn(words[i / 32], i % 32);
    } else if i / 32 == j / 32 {
      assert i == 32 * (i / 32) + i % 32 && j == 32 * (j / 32) + j % 32;
      SetOnOther(words[i / 32], i % 32, j % 32);
      SetOffOther(words[i / 32], i % 32, j % 32);
    }
  }
}
