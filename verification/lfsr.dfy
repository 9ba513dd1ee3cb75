/** The linear-feedback shift register behind the whitening keystream
    (`lfsr`). The register has one slot more than the polynomial: the
    source prepends a `False` tap, so slot 0 never feeds back. */
module LfsrKeystream {
  import opened Wrappers
  import opened BitStrings

  /** Exclusive-or of all bits, folding from the last bit down. */
  function Parity(s: Bits): bool
    decreases |s|
  {
    if |s| == 0 then false else Parity(s[..|s| - 1]) != s[|s| - 1]
  }

  /** `poly[j] and state[j]` for the slots 1 .. p of the register, listed
      from slot 1. */
  function Taps(poly: Bits, st: Bits): (t: Bits)
    requires |st| == |poly| + 1
    ensures |t| == |poly|
  {
    seq(|poly|, j requires 0 <= j < |poly| => poly[j] && st[j + 1])
  }

  /** The feedback loop as written: `first_bit` starts unset (-1) and
      runs over the slots from `j` down to 1; the first set tap makes it
      True and every further one negates it. */
  function FeedbackLoop(poly: Bits, st: Bits, j: nat, first: Option<bool>): Option<bool>
    requires |st| == |poly| + 1 && j <= |poly|
    decreases j
  {
    if j == 0 then first
    else
      var f := if poly[j - 1] && st[j] then (if first.None? then Some(true) else Some(!first.value)) else first;
      FeedbackLoop(poly, st, j - 1, f)
  }

  function ValueOf(o: Option<bool>): bool {
    if o.None? then false else o.value
  }

  /** The feedback bit: an unset `first_bit` becomes False, so the bit is
      the odd parity of the set taps. */
  function Feedback(poly: Bits, st: Bits): (b: bool)
    requires |st| == |poly| + 1
    ensures b == Parity(Taps(poly, st))
  {
    FeedbackLoopParity(poly, st, |poly|, None);
    assert Taps(poly, st)[..|poly|] == Taps(poly, st);
    ValueOf(FeedbackLoop(poly, st, |poly|, None))
  }

  lemma {:induction false} FeedbackLoopParity(poly: Bits, st: Bits, j: nat, first: Option<bool>)
    requires |st| == |poly| + 1 && j <= |poly|
    ensures ValueOf(FeedbackLoop(poly, st, j, first)) == (ValueOf(first) != Parity(Taps(poly, st)[..j]))
    decreases j
  {
    var t := Taps(poly, st);
    if j == 0 {
      assert t[..0] == [];
    } else {
      var f := if poly[j - 1] && st[j] then (if first.None? then Some(true) else Some(!first.value)) else first;
      FeedbackLoopParity(poly, st, j - 1, f);
      assert t[..j][..j - 1] == t[..j - 1];
      assert ValueOf(f) == (ValueOf(first) != t[j - 1]);
    }
  }

  /** One clock: every slot takes the value of the slot below it and the
      feedback enters slot 0. */
  function Clock(poly: Bits, st: Bits): (r: Bits)
    requires |st| == |poly| + 1
    ensures |r| == |st|
  {
    [Feedback(poly, st)] + st[..|poly|]
  }

  function ClockN(poly: Bits, st: Bits, n: nat): (r: Bits)
    requires |st| == |poly| + 1
    ensures |r| == |st|
    decreases n
  {
    if n == 0 then st else ClockN(poly, Clock(poly, st), n - 1)
  }

  /** After `n` clocks, slot `j + n` holds what slot `j` held before. */
  lemma {:induction false} ClockNShifts(poly: Bits, st: Bits, n: nat, j: nat)
    requires |st| == |poly| + 1 && j + n <= |poly|
    ensures ClockN(poly, st, n)[j + n] == st[j]
    decreases n
  {
    if n > 0 {
      var c := Clock(poly, st);
      ClockNShifts(poly, c, n - 1, j + 1);
      assert c[j + 1] == st[j];
    }
  }

  /** The register as the keystream is prepared: all ones. */
  function InitialRegister(poly: Bits): (st: Bits)
    ensures |st| == |poly| + 1
  {
    Repeat(true, |poly| + 1)
  }

  /** What `lfsr` returns: the register without slot 0. */
  function Output(st: Bits): Bits
    requires |st| > 0
  {
    st[1..]
  }

  /** `a * k` as repeated addition: the keystream length stays linear
      for the solver, and `TimesIsProduct` connects it to `*`. */
  function Times(a: nat, k: nat): nat
    decreases k
  {
    if k == 0 then 0 else a + Times(a, k - 1)
  }

  lemma {:induction false} TimesIsProduct(a: nat, k: nat)
    ensures Times(a, k) == a * k
    decreases k
  {
    if k > 0 {
      TimesIsProduct(a, k - 1);
      assert a * k == a + a * (k - 1);
    }
  }

  /** The number of keystream bits produced for `m` bits to whiten with a
      polynomial of `p` taps: `p * (1 + ceil(m / 8))`. */
  function KeystreamLength(p: nat, m: nat): nat {
    Times(p, 1 + (m + 7) / 8)
  }

  /** `blocks` further calls `lfsr(8)`, each clocking eight times. */
  function KeystreamFrom(poly: Bits, st: Bits, blocks: nat): (ks: Bits)
    requires |st| == |poly| + 1
    ensures |ks| == Times(|poly|, blocks)
    decreases blocks
  {
    if blocks == 0 then []
    else
      var next := ClockN(poly, st, 8);
      Output(next) + KeystreamFrom(poly, next, blocks - 1)
  }

  /** The keystream for `m` bits to whiten: `lfsr(0)` on a fresh register,
      then one `lfsr(8)` per started group of eight bits. */
  function Keystream(poly: Bits, m: nat): (ks: Bits)
    ensures |ks| == KeystreamLength(|poly|, m)
  {
    var st := InitialRegister(poly);
    Output(st) + KeystreamFrom(poly, st, (m + 7) / 8)
  }

  /** The keystream starts with the `p` ones of the fresh register; in the
      next block (eight clocks later) the ones have moved up eight slots,
      so its bits from index 7 on are still ones. */
  lemma KeystreamStartsWithOnes(poly: Bits, m: nat)
    ensures forall j :: 0 <= j < |poly| ==> Keystream(poly, m)[j]
    ensures m > 0 ==> forall j :: 7 <= j < |poly| ==> Keystream(poly, m)[|poly|..][j]
  {
    var st := InitialRegister(poly);
    var ks := Keystream(poly, m);
    assert ks[..|poly|] == Output(st);
    if m > 0 {
      var next := ClockN(poly, st, 8);
      assert ks[|poly|..][..|poly|] == Output(next);
      forall j | 7 <= j < |poly|
        ensures ks[|poly|..][j]
      {
        ClockNShifts(poly, st, 8, j + 1 - 8);
      }
    }
  }
}
