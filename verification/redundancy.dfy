/** `code_redundancy`: every bit repeated `multiple` times when encoding;
    when decoding, runs of equal bits are cut into groups of `multiple`,
    each whole group giving one bit. */
module RedundancyCode {
  import opened Wrappers
  import opened BitStrings

  /** The decoding loop from the current state: `count` bits of the value
      `what` seen so far in the current group (`None` is the source's
      initial -1, which is truthy, so a zero bit after it takes the
      switch branch and a one bit does not; with `count` 0 both branches
      do the same). A value switch with a partly filled group is one
      error. */
  function DedupFrom(m: int, x: Bits, count: int, what: Option<bool>): (r: (Bits, int))
    ensures 0 <= r.1 <= |x|
    decreases |x|
  {
    if |x| == 0 then ([], 0)
    else
      var b := x[0];
      var switching := if b then what == Some(false) else what != Some(false);
      var err := if switching && count > 0 then 1 else 0;
      var c := (if switching then 0 else count) + 1;
      if c >= m then
        var (o, e) := DedupFrom(m, x[1..], 0, Some(b));
        ([b] + o, err + e)
      else
        var (o, e) := DedupFrom(m, x[1..], c, Some(b));
        (o, err + e)
  }

  /** The encoding loop: each bit written `m` times in a row. */
  function RepeatEach(m: nat, x: Bits): (r: Bits)
    ensures |r| == m * |x|
    decreases |x|
  {
    if |x| == 0 then [] else Repeat(x[0], m) + RepeatEach(m, x[1..])
  }

  /** `code_redundancy` with the multiplier `m` loaded from the chain.
      With an empty input or `m <= 1` nothing is produced. */
  function Redundancy(decoding: bool, m: int, x: Bits): (r: (Bits, int))
    ensures (|x| == 0 || m <= 1) ==> r == ([], 0)
    ensures !decoding ==> r.1 == 0
    ensures !decoding && m > 1 ==> |r.0| == m * |x|
    ensures decoding ==> 0 <= r.1 <= |x|
  {
    if |x| > 0 && m > 1 then
      if decoding then DedupFrom(m, x, 0, None) else (RepeatEach(m, x), 0)
    else ([], 0)
  }

  lemma {:induction false} MulAtLeast(q: nat, m: nat)
    requires q >= 1
    ensures q * m >= m
    decreases q
  {
    if q > 1 {
      MulAtLeast(q - 1, m);
      assert q * m == (q - 1) * m + m;
    }
  }

  /** A run of `k` equal bits `b`, entered with `c` bits of the current
      group already counted for `b` (or with an empty group), where
      `c + k == q * m + r` with `r < m`: it fills `q` whole groups,
      emitting one `b` for each, leaves `r` bits counted, and adds no
      error. */
  lemma {:induction false} DedupRun(m: int, b: bool, k: nat, rest: Bits, c: nat, what: Option<bool>,
                                    q: nat, r: nat)
    requires m > 1 && c < m && r < m && c + k == q * m + r
    requires k == 0 || c == 0 || what == Some(b)
    ensures DedupFrom(m, Repeat(b, k) + rest, c, what)
         == var t := DedupFrom(m, rest, r, if k > 0 then Some(b) else what);
            (Repeat(b, q) + t.0, t.1)
    decreases k
  {
    var x := Repeat(b, k) + rest;
    if k == 0 {
      assert x == rest;
      if q >= 1 {
        MulAtLeast(q, m);
        assert false;
      }
      assert q == 0 && r == c;
      assert Repeat(b, q) == [];
      var t := DedupFrom(m, rest, r, what);
      assert Repeat(b, q) + t.0 == t.0;
    } else {
      assert x[0] == b && x[1..] == Repeat(b, k - 1) + rest;
      var c1 := c + 1;
      if c1 >= m {
        if q == 0 {
          assert false;
        }
        var t := DedupFrom(m, x[1..], 0, Some(b));
        var u := DedupFrom(m, rest, r, Some(b));
        assert t == (Repeat(b, q - 1) + u.0, u.1) by {
          assert q * m == (q - 1) * m + m;
          DedupRun(m, b, k - 1, rest, 0, Some(b), q - 1, r);
        }
        assert DedupFrom(m, x, c, what) == ([b] + t.0, t.1);
        assert [b] + (Repeat(b, q - 1) + u.0) == Repeat(b, q) + u.0 by {
          assert Repeat(b, q) == [b] + Repeat(b, q - 1);
        }
      } else {
        DedupRun(m, b, k - 1, rest, c1, Some(b), q, r);
      }
    }
  }

  /** Redundancy decoding undoes redundancy encoding without errors. */
  lemma {:induction false} RedundancyRoundTrip(m: int, x: Bits)
    requires m > 1
    ensures Redundancy(true, m, Redundancy(false, m, x).0) == (x, 0)
  {
    if |x| > 0 {
      RepeatEachDedup(m, x, None);
    }
  }

  lemma {:induction false} RepeatEachDedup(m: int, x: Bits, what: Option<bool>)
    requires m > 1
    ensures DedupFrom(m, RepeatEach(m, x), 0, what) == (x, 0)
    decreases |x|
  {
    if |x| > 0 {
      DedupRun(m, x[0], m, RepeatEach(m, x[1..]), 0, what, 1, 0);
      RepeatEachDedup(m, x[1..], Some(x[0]));
      assert Repeat(x[0], 1) == [x[0]];
      assert [x[0]] + x[1..] == x;
    }
  }

  /** A run of `k == q * m + r` bits `b` (`r < m`) followed by a switch
      to the other value, read from a fresh group: the run emits `q`
      copies of `b`, and the switch adds one error exactly when the run
      left a partly filled group (`r != 0`). */
  lemma RunThenSwitch(m: int, b: bool, k: nat, rest: Bits, what: Option<bool>, q: nat, r: nat)
    requires m > 1 && k > 0 && r < m && k == q * m + r
    ensures DedupFrom(m, Repeat(b, k) + [!b] + rest, 0, what)
         == var t := DedupFrom(m, [!b] + rest, 0, Some(b));
            (Repeat(b, q) + t.0, t.1 + (if r != 0 then 1 else 0))
  {
    DedupRun(m, b, k, [!b] + rest, 0, what, q, r);
    assert Repeat(b, k) + [!b] + rest == Repeat(b, k) + ([!b] + rest);
    var y := [!b] + rest;
    assert y[0] == !b && y[1..] == rest;
  }
}
