/** `code_carrier`: a carrier pattern of length L around every data bit. */
module CarrierCode {
  import opened BitStrings
  import opened Sequences

  /** The encoding loop: the pattern, then the data bit, for every bit. */
  function Interleave(c: Bits, x: Bits): (r: Bits)
    ensures |r| == |x| * (|c| + 1)
    decreases |x|
  {
    if |x| == 0 then [] else c + [x[0]] + Interleave(c, x[1..])
  }

  /** The decoding loop `for x in range(L, len(inpt), L + 1)`: the bit at
      every position `pos, pos + L + 1, ...` below the length. */
  function PickFrom(len: nat, x: Bits, pos: nat): (r: Bits)
    decreases |x| - pos
  {
    if pos < |x| then [x[pos]] + PickFrom(len, x, pos + len + 1) else []
  }

  /** `code_carrier` with the pattern `c` held in the codec state. An
      empty pattern gives no bits in either direction. */
  function Carrier(decoding: bool, c: Bits, x: Bits): (r: (Bits, int))
    ensures r.1 == 0
    ensures |c| == 0 ==> r.0 == []
    ensures !decoding && |c| > 0 ==> |r.0| == |x| * (|c| + 1) + |c|
  {
    if decoding then
      (if |c| > 0 then PickFrom(|c|, x, |c|) else [], 0)
    else
      (if |c| > 0 then Interleave(c, x) + c else [], 0)
  }

  /** Block `k` of the encoded bits is the pattern followed by data bit
      `k`; so data bit `k` sits at position `k * (L + 1) + L`. */
  lemma {:induction false} InterleaveBlock(c: Bits, x: Bits, k: nat)
    requires k < |x|
    ensures k * (|c| + 1) + |c| + 1 <= |Interleave(c, x)|
    ensures Interleave(c, x)[k * (|c| + 1) .. k * (|c| + 1) + |c| + 1] == c + [x[k]]
    ensures Interleave(c, x)[k * (|c| + 1) + |c|] == x[k]
    decreases k
  {
    var w := |c| + 1;
    var r := Interleave(c, x);
    var head := c + [x[0]];
    var t := Interleave(c, x[1..]);
    assert r == head + t;
    if k > 0 {
      var lo := (k - 1) * w;
      assert k * w == |head| + lo by {
        assert k * w == (k - 1) * w + w;
      }
      InterleaveBlock(c, x[1..], k - 1);
      SliceAfter(head, t, lo, lo + w);
    }
    assert r[k * w .. k * w + w][|c|] == r[k * w + |c|];
  }

  /** Positions before `pos` do not matter to the decoding loop. */
  lemma {:induction false} PickFromShift(len: nat, a: Bits, b: Bits, pos: nat)
    ensures PickFrom(len, a + b, |a| + pos) == PickFrom(len, b, pos)
    decreases |b| - pos
  {
    if pos < |b| {
      PickFromShift(len, a, b, pos + len + 1);
      assert |a| + pos + len + 1 == |a| + (pos + len + 1);
    }
  }

  /** Decoding `Interleave(c, x)` followed by any tail starts with `x`. */
  lemma {:induction false} PickInterleave(c: Bits, x: Bits, tail: Bits)
    requires |tail| <= |c|
    ensures PickFrom(|c|, Interleave(c, x) + tail, |c|) == x
    decreases |x|
  {
    var len := |c|;
    if |x| == 0 {
      assert Interleave(c, x) + tail == tail;
    } else {
      var head := c + [x[0]];
      var rest := Interleave(c, x[1..]) + tail;
      assert Interleave(c, x) + tail == head + rest;
      assert (head + rest)[len] == x[0];
      PickFromShift(len, head, rest, len);
      assert |head| + len == len + len + 1;
      PickInterleave(c, x[1..], tail);
      assert [x[0]] + x[1..] == x;
    }
  }

  /** Removing the carrier undoes adding it, for a non-empty pattern. */
  lemma CarrierRoundTrip(c: Bits, x: Bits)
    requires |c| > 0
    ensures Carrier(true, c, Carrier(false, c, x).0) == (x, 0)
  {
    PickInterleave(c, x, c);
  }
}
