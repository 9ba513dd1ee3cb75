/** Bit strings and their textual '0'/'1' form (`str2bit` / `bit2str`). */
module BitStrings {

  type Bits = seq<bool>

  /** `count` copies of the bit `b`. */
  function Repeat(b: bool, count: nat): (r: Bits)
    ensures |r| == count
    ensures forall i :: 0 <= i < count ==> r[i] == b
  {
    seq(count, _ => b)
  }

  /** `str2bit`: a character reads as a one bit exactly when it is '1'. */
  function StrToBits(s: string): (b: Bits)
    ensures |b| == |s|
    ensures forall i :: 0 <= i < |s| ==> (b[i] <==> s[i] == '1')
  {
    seq(|s|, i requires 0 <= i < |s| => s[i] == '1')
  }

  /** `bit2str` without the dotted grouping: one '0' or '1' per bit. */
  function BitsToStr(b: Bits): (s: string)
    ensures |s| == |b|
    ensures forall i :: 0 <= i < |b| ==> s[i] in "01" && (s[i] == '1' <==> b[i])
  {
    seq(|b|, i requires 0 <= i < |b| => if b[i] then '1' else '0')
  }

  predicate IsBinary(s: string) {
    forall i :: 0 <= i < |s| ==> s[i] == '0' || s[i] == '1'
  }

  /** Reading back a rendered bit string gives the bits. */
  lemma StrToBitsOfBitsToStr(b: Bits)
    ensures StrToBits(BitsToStr(b)) == b
  {
    var s := BitsToStr(b);
    assert forall i :: 0 <= i < |b| ==> (s[i] == '1' <==> b[i]);
  }

  /** Rendering the bits of a '0'/'1' string gives the string back, and
      the rendering of any bit string is such a string. */
  lemma BitsToStrOfStrToBits(s: string)
    requires IsBinary(s)
    ensures BitsToStr(StrToBits(s)) == s
  {
    var b := StrToBits(s);
    assert forall i :: 0 <= i < |s| ==> (b[i] <==> s[i] == '1');
  }

  lemma BitsToStrIsBinary(b: Bits)
    ensures IsBinary(BitsToStr(b))
  {
  }
}
