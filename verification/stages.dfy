/** The stage transforms without parameters (`code_invert`,
    `code_differential`, `code_lsb_first`, `code_edge`) and the
    external-program stage. Each takes the direction and the bits and
    returns the new bits with the number of errors it counted. */
module SimpleStages {
  import opened BitStrings

  // ---------------------------------------------------------------- invert

  /** `code_invert`: every bit flipped, in both directions. */
  function Invert(x: Bits): (r: (Bits, int))
    ensures |r.0| == |x| && r.1 == 0
    ensures forall i :: 0 <= i < |x| ==> r.0[i] == !x[i]
  {
    (seq(|x|, i requires 0 <= i < |x| => if !x[i] then true else false), 0)
  }

  lemma InvertInvolution(x: Bits)
    ensures Invert(Invert(x).0) == (x, 0)
  {
    assert Invert(Invert(x).0).0 == x;
  }

  // ---------------------------------------------------------- differential

  /** The decoding loop from index 1: a one bit wherever the input changes
      value against the previous input bit. */
  function Transitions(prev: bool, rest: Bits): (r: Bits)
    ensures |r| == |rest|
    decreases |rest|
  {
    if |rest| == 0 then []
    else [if rest[0] != prev then true else false] + Transitions(rest[0], rest[1..])
  }

  /** The encoding loop from index 1: a zero input bit repeats the previous
      output bit, a one input bit toggles it. */
  function Toggles(prev: bool, rest: Bits): (r: Bits)
    ensures |r| == |rest|
    decreases |rest|
  {
    if |rest| == 0 then []
    else
      var o := if !rest[0] then prev else (if !prev then true else false);
      [o] + Toggles(o, rest[1..])
  }

  /** `code_differential`. The source reads `inpt[0]` unconditionally and
      so needs a non-empty input; the interpreter never calls a stage on
      an empty one. */
  function Differential(decoding: bool, x: Bits): (r: (Bits, int))
    requires |x| > 0
    ensures |r.0| == |x| && r.0[0] == x[0] && r.1 == 0
  {
    if decoding then ([x[0]] + Transitions(x[0], x[1..]), 0)
    else ([x[0]] + Toggles(x[0], x[1..]), 0)
  }

  lemma {:induction false} TransitionsOfToggles(prev: bool, rest: Bits)
    ensures Transitions(prev, Toggles(prev, rest)) == rest
    decreases |rest|
  {
    if |rest| > 0 {
      var t := Toggles(prev, rest);
      TransitionsOfToggles(t[0], rest[1..]);
      assert [rest[0]] + rest[1..] == rest;
    }
  }

  lemma {:induction false} TogglesOfTransitions(prev: bool, rest: Bits)
    ensures Toggles(prev, Transitions(prev, rest)) == rest
    decreases |rest|
  {
    if |rest| > 0 {
      TogglesOfTransitions(rest[0], rest[1..]);
      assert [rest[0]] + rest[1..] == rest;
    }
  }

  /** Differential decoding undoes differential encoding ... */
  lemma DifferentialDecodeEncode(x: Bits)
    requires |x| > 0
    ensures Differential(true, Differential(false, x).0) == (x, 0)
  {
    var e := Differential(false, x).0;
    assert e[1..] == Toggles(x[0], x[1..]);
    TransitionsOfToggles(x[0], x[1..]);
    assert [x[0]] + x[1..] == x;
  }

  /** ... and the other way round. */
  lemma DifferentialEncodeDecode(x: Bits)
    requires |x| > 0
    ensures Differential(false, Differential(true, x).0) == (x, 0)
  {
    var d := Differential(true, x).0;
    assert d[1..] == Transitions(x[0], x[1..]);
    TogglesOfTransitions(x[0], x[1..]);
    assert [x[0]] + x[1..] == x;
  }

  // ------------------------------------------------------------- bit order

  /** One group of eight with its bit order reversed. */
  function Reverse8(g: Bits): (r: Bits)
    requires |g| == 8
  {
    [g[7], g[6], g[5], g[4], g[3], g[2], g[1], g[0]]
  }

  /** The swap loop of `code_lsb_first`: every whole group of eight is
      reversed, a tail shorter than eight is kept. */
  function SwapGroups(x: Bits): (r: Bits)
    ensures |r| == |x|
    decreases |x|
  {
    if |x| < 8 then x
    else Reverse8(x[..8]) + SwapGroups(x[8..])
  }

  /** `code_lsb_first`: the same in both directions; the bits of an
      incomplete last group are counted as errors. */
  function BitOrder(x: Bits): (r: (Bits, int))
    ensures |r.0| == |x| && r.1 == |x| % 8
  {
    (SwapGroups(x), |x| % 8)
  }

  /** Group `g` of the output is group `g` of the input reversed. */
  lemma {:induction false} SwapGroupsGroup(x: Bits, g: nat)
    requires 8 * g + 8 <= |x|
    ensures SwapGroups(x)[8 * g .. 8 * g + 8] == Reverse8(x[8 * g .. 8 * g + 8])
    decreases g
  {
    var r := SwapGroups(x);
    if g > 0 {
      SwapGroupsGroup(x[8..], g - 1);
      assert r[8..] == SwapGroups(x[8..]);
      assert r[8 * g .. 8 * g + 8] == r[8..][8 * (g - 1) .. 8 * (g - 1) + 8];
      assert x[8 * g .. 8 * g + 8] == x[8..][8 * (g - 1) .. 8 * (g - 1) + 8];
    }
  }

  /** The bits after the last whole group of eight are left unchanged. */
  lemma {:induction false} SwapGroupsTail(x: Bits)
    ensures SwapGroups(x)[|x| - |x| % 8 ..] == x[|x| - |x| % 8 ..]
    decreases |x|
  {
    if |x| >= 8 {
      SwapGroupsTail(x[8..]);
      var r := SwapGroups(x);
      assert r[8..] == SwapGroups(x[8..]);
      assert |x[8..]| % 8 == |x| % 8;
      assert r[|x| - |x| % 8 ..] == r[8..][|x[8..]| - |x[8..]| % 8 ..];
      assert x[|x| - |x| % 8 ..] == x[8..][|x[8..]| - |x[8..]| % 8 ..];
    }
  }

  lemma {:induction false} SwapGroupsInvolution(x: Bits)
    ensures SwapGroups(SwapGroups(x)) == x
    decreases |x|
  {
    if |x| >= 8 {
      var a := Reverse8(x[..8]);
      var b := SwapGroups(x[8..]);
      SwapGroupsInvolution(x[8..]);
      assert (a + b)[..8] == a && (a + b)[8..] == b;
      assert Reverse8(a) == x[..8];
      assert x[..8] + x[8..] == x;
    }
  }

  /** `code_lsb_first` undoes itself and always reports the same error count. */
  lemma BitOrderInvolution(x: Bits)
    ensures BitOrder(BitOrder(x).0) == (x, |x| % 8)
  {
    SwapGroupsInvolution(x);
  }

  // ------------------------------------------------------------------ edge

  /** The decoding loop of `code_edge` from position `i`: an equal pair is
      one error and advances by one, an unequal pair yields its second bit
      and advances by two. Every position is accounted for: the errors,
      two positions per output bit and the start add up to the length
      (or one more when the last step jumped past the end). */
  function EdgeDecodeFrom(x: Bits, i: nat): (r: (Bits, int))
    requires 1 <= i <= |x| + 1
    ensures r.1 >= 0
    ensures i + r.1 + 2 * |r.0| == |x| || i + r.1 + 2 * |r.0| == |x| + 1
    decreases |x| + 1 - i
  {
    if i >= |x| then ([], 0)
    else if x[i] == x[i - 1] then
      var (o, e) := EdgeDecodeFrom(x, i + 1);
      (o, e + 1)
    else
      var (o, e) := EdgeDecodeFrom(x, i + 2);
      ([x[i]] + o, e)
  }

  /** The two-bit symbol `code_edge` writes for one bit. */
  function EdgeSymbol(b: bool): (r: Bits)
    ensures |r| == 2 && r[0] != r[1] && r[1] == b
  {
    if !b then [true, false] else [false, true]
  }

  function EdgeEncode(x: Bits): (r: Bits)
    ensures |r| == 2 * |x|
    decreases |x|
  {
    if |x| == 0 then [] else EdgeSymbol(x[0]) + EdgeEncode(x[1..])
  }

  /** `code_edge`. */
  function Edge(decoding: bool, x: Bits): (r: (Bits, int))
    ensures !decoding ==> |r.0| == 2 * |x| && r.1 == 0
    ensures decoding && |x| > 0 ==> r.1 >= 0 && (r.1 + 2 * |r.0| + 1 == |x| || r.1 + 2 * |r.0| == |x|)
  {
    if decoding then EdgeDecodeFrom(x, 1) else (EdgeEncode(x), 0)
  }

  /** Decoding only looks at the bits from position `i - 1` on. */
  lemma {:induction false} EdgeDecodeShift(a: Bits, b: Bits, i: nat)
    requires 1 <= i <= |b| + 1
    ensures EdgeDecodeFrom(a + b, |a| + i) == EdgeDecodeFrom(b, i)
    decreases |b| + 1 - i
  {
    var ab := a + b;
    if i < |b| {
      assert ab[|a| + i] == b[i] && ab[|a| + i - 1] == b[i - 1];
      if b[i] == b[i - 1] {
        EdgeDecodeShift(a, b, i + 1);
      } else {
        EdgeDecodeShift(a, b, i + 2);
      }
    }
  }

  /** Edge decoding undoes edge encoding without errors. */
  lemma {:induction false} EdgeRoundTrip(x: Bits)
    ensures Edge(true, Edge(false, x).0) == (x, 0)
    decreases |x|
  {
    if |x| > 0 {
      var s := EdgeSymbol(x[0]);
      var rest := EdgeEncode(x[1..]);
      EdgeRoundTrip(x[1..]);
      EdgeDecodeShift(s, rest, 1);
      assert (s + rest)[1] == x[0] && (s + rest)[0] != x[0];
      assert EdgeDecodeFrom(s + rest, 1) == ([x[0]] + x[1..], 0);
      assert [x[0]] + x[1..] == x;
    }
  }

  // ------------------------------------------------------ external program

  /** `code_externalprogram`: the configured decoder or encoder command is
      run with the bits as '0'/'1' text; `run` stands for `run_command`
      (the subprocess and its standard output). Without a command for the
      direction the stage fails with no bits and one error. */
  function External(run: (string, string) -> string, decoder: string, encoder: string,
                    decoding: bool, x: Bits): (r: (Bits, int))
    ensures (if decoding then decoder else encoder) == "" <==> r == ([], 1)
    ensures decoding && decoder != "" ==> r.0 == StrToBits(run(decoder, BitsToStr(x)))
    ensures !decoding && encoder != "" ==> r.0 == StrToBits(run(encoder, BitsToStr(x)))
  {
    if decoding && decoder != "" then (StrToBits(run(decoder, BitsToStr(x))), 0)
    else if !decoding && encoder != "" then (StrToBits(run(encoder, BitsToStr(x))), 0)
    else ([], 1)
  }
}
