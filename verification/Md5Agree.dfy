/** The two implementations against each other and against RFC 1321. */
module Md5Agree {
  import opened Md5Spec
  import opened Md5Length
  import Md5Lab3
  import Md5Lab4

  /** Where lab3's length words are right, its digest is the one of RFC 1321. */
  lemma Lab3IsMd5(m: seq<Byte>)
    requires LengthCounts(|m|)
    ensures Output(Fold(Padded(m, 8 * |m| % WORDS, HighWord(|m|)))) == Digest(m)
  {
    LengthRight(|m|);
  }

  /** The same message, cut up in any two ways, digested by both. */
  method BothDigests(first: seq<seq<Byte>>, second: seq<seq<Byte>>) returns (d3: seq<Byte>, d4: seq<Byte>)
    requires Concat(first) == Concat(second)
    requires forall k | 0 <= k < |second| :: Md5Lab4.InInt(Concat(second[..k]), second[k])
    ensures d4 == Digest(Concat(first))
    ensures LengthCounts(|Concat(first)|) ==> d3 == d4
  {
    d3 := Md5Lab3.Md5(first);
    d4 := Md5Lab4.Md5(second);
    if LengthCounts(|Concat(first)|) { Lab3IsMd5(Concat(first)); }
  }
}
