/** The "break block" action of the block-break plugin: the zero-run finder
    that proposes break positions, and the split of one protocol block into
    two. */
module BlockBreak {
  import opened Wrappers
  import opened BitStrings
  import opened Sequences

  // ------------------------------------------------------------ zero runs

  /** `[s, e)` is a maximal run of '0' characters of `block`: every
      character inside is '0' and the characters on either side, where
      they exist, are not. An empty run sits between two other characters. */
  predicate ZeroRun(block: string, s: int, e: int) {
    0 <= s <= e <= |block|
    && (forall t :: s <= t < e ==> block[t] == '0')
    && (s == 0 || block[s - 1] != '0')
    && (e == |block| || block[e] != '0')
  }

  /** The number of '0' characters at the end of `s`. */
  function TrailingZeros(s: string): (n: nat)
    ensures n <= |s|
    decreases |s|
  {
    if |s| == 0 || s[|s| - 1] != '0' then 0 else 1 + TrailingZeros(s[..|s| - 1])
  }

  /** The trailing zeros are a maximal run ending at the end of `s`. */
  lemma {:induction false} TrailingZerosRun(s: string)
    ensures ZeroRun(s, |s| - TrailingZeros(s), |s|)
    decreases |s|
  {
    if |s| > 0 && s[|s| - 1] == '0' {
      var p := s[..|s| - 1];
      TrailingZerosRun(p);
      assert forall t :: 0 <= t < |p| ==> p[t] == s[t];
    }
  }

  /** A maximal run that ends at the end of `s` is the trailing zeros. */
  lemma {:induction false} TrailingZerosExact(s: string, start: int)
    requires ZeroRun(s, start, |s|)
    ensures TrailingZeros(s) == |s| - start
    decreases |s|
  {
    if |s| > start {
      var p := s[..|s| - 1];
      assert ZeroRun(p, start, |p|) by {
        assert forall t :: 0 <= t < |p| ==> p[t] == s[t];
      }
      TrailingZerosExact(p, start);
    }
  }

  /** The pairs the loop emits while it scans the first `n` characters: one
      for every character other than '0' that ends a run of at least
      `following` zeros, as (start of the run, index of that character). */
  function Closed(block: string, following: int, n: nat): (r: seq<(int, int)>)
    requires n <= |block|
    decreases n
  {
    if n == 0 then []
    else
      var z := TrailingZeros(block[..n - 1]);
      Closed(block, following, n - 1)
      + (if block[n - 1] != '0' && z >= following then [(n - 1 - z, n - 1)] else [])
  }

  /** `__get_zero_seq_indexes(block, following_zeros)`, as written: the runs
      closed by a character other than '0', then, when the block ends in
      enough zeros, the pair `(len - 1 - following, len - 1)`. */
  method ZeroSeqIndexes(block: string, following: int) returns (result: seq<(int, int)>)
    ensures following > |block| ==> result == []
    ensures following <= |block| ==>
              result == Closed(block, following, |block|)
                        + (if TrailingZeros(block) >= following
                           then [(|block| - 1 - following, |block| - 1)] else [])
  {
    result := [];
    if following > |block| {
      return;
    }
    var zeroCounter := 0;
    var i := 0;
    while i < |block|
      invariant 0 <= i <= |block|
      invariant zeroCounter == TrailingZeros(block[..i])
      invariant result == Closed(block, following, i)
    {
      assert block[..i + 1][..i] == block[..i];
      if block[i] == '0' {
        zeroCounter := zeroCounter + 1;
      } else {
        if zeroCounter >= following {
          result := result + [(i - zeroCounter, i)];
        }
        zeroCounter := 0;
      }
      i := i + 1;
    }
    assert block[..i] == block;
    if zeroCounter >= following {
      result := result + [(|block| - 1 - following, |block| - 1)];
    }
  }

  /** Every pair the loop emits is a maximal run of at least `following`
      zeros, closed by the character at its end index. */
  lemma {:induction false} ClosedSound(block: string, following: int, n: nat)
    requires n <= |block|
    ensures forall k :: 0 <= k < |Closed(block, following, n)| ==>
              ZeroRun(block, Closed(block, following, n)[k].0, Closed(block, following, n)[k].1)
              && Closed(block, following, n)[k].1 < n
              && Closed(block, following, n)[k].1 - Closed(block, following, n)[k].0 >= following
    decreases n
  {
    if n > 0 {
      var prev := Closed(block, following, n - 1);
      ClosedSound(block, following, n - 1);
      var p := block[..n - 1];
      var z := TrailingZeros(p);
      if block[n - 1] != '0' && z >= following {
        assert ZeroRun(block, n - 1 - z, n - 1) by {
          TrailingZerosRun(p);
          assert forall t :: 0 <= t < |p| ==> p[t] == block[t];
        }
        var r := prev + [(n - 1 - z, n - 1)];
        assert Closed(block, following, n) == r;
        assert forall k :: 0 <= k < |prev| ==> r[k] == prev[k];
      } else {
        assert Closed(block, following, n) == prev;
      }
    }
  }

  /** Every maximal run of at least `following` zeros that is closed by a
      character before position `n` is emitted. */
  lemma {:induction false} ClosedComplete(block: string, following: int, n: nat, s: int, e: int)
    requires n <= |block|
    requires ZeroRun(block, s, e) && e < n && e - s >= following
    ensures (s, e) in Closed(block, following, n)
    decreases n
  {
    if e < n - 1 {
      ClosedComplete(block, following, n - 1, s, e);
    } else {
      var p := block[..e];
      assert ZeroRun(p, s, |p|) by {
        assert forall t :: 0 <= t < |p| ==> p[t] == block[t];
      }
      TrailingZerosExact(p, s);
      assert Closed(block, following, n)[|Closed(block, following, n)| - 1] == (s, e);
    }
  }

  /** The emitted pairs come left to right and do not overlap: each one
      starts after the previous one's end index. */
  lemma {:induction false} ClosedOrdered(block: string, following: int, n: nat)
    requires n <= |block|
    ensures forall a, b :: 0 <= a < b < |Closed(block, following, n)| ==>
              Closed(block, following, n)[a].1 < Closed(block, following, n)[b].0
    decreases n
  {
    if n > 0 {
      ClosedOrdered(block, following, n - 1);
      ClosedSound(block, following, n - 1);
      var p := block[..n - 1];
      TrailingZerosRun(p);
      assert forall t :: 0 <= t < |p| ==> p[t] == block[t];
    }
  }

  /** The pair the source appends for a trailing run covers `following`
      zeros inside that run when the run is longer than `following`. */
  lemma TrailingPairInsideRun(block: string, following: int)
    requires 0 <= following < TrailingZeros(block)
    ensures var (s, e) := (|block| - 1 - following, |block| - 1);
            |block| - TrailingZeros(block) <= s && e - s == following
            && forall t :: s <= t < e ==> block[t] == '0'
  {
    TrailingZerosRun(block);
  }

  /** When the trailing run is exactly `following` long, the appended pair
      starts one character early: for "100" and 2 the result is [(0, 2)],
      and `block[0:2]` is "10", not a run of zeros. */
  lemma TrailingPairOffByOne(block: string)
    requires block == "100"
    ensures var r := Closed(block, 2, |block|)
                     + (if TrailingZeros(block) >= 2 then [(|block| - 1 - 2, |block| - 1)] else []);
            r == [(0, 2)] && block[r[0].0] != '0'
  {
    assert block[..2] == "10" && block[..1] == "1" && block[..0] == "";
    assert TrailingZeros(block[..2]) == 1 by {
      assert block[..2][..1] == "1";
    }
    assert TrailingZeros(block) == 2 by {
      assert block[..|block| - 1] == "10";
      assert block[..2][..1] == "1";
    }
  }

  /** With `following` 0 the appended pair can repeat the last closed
      pair: for "1" the result is [(0, 0), (0, 0)]. */
  lemma TrailingPairRepeats(block: string)
    requires block == "1"
    ensures var r := Closed(block, 0, |block|)
                     + (if TrailingZeros(block) >= 0 then [(|block| - 1 - 0, |block| - 1)] else []);
            r == [(0, 0), (0, 0)] && r[0] == r[1]
  {
    assert block[..0] == "";
    assert TrailingZeros(block[..0]) == 0;
    assert Closed(block, 0, 0) == [];
    assert Closed(block, 0, 1) == [(0, 0)];
  }

  /** Every maximal run of at least `following` zeros, left to right: the
      runs closed by another character, then the trailing run. */
  function Runs(block: string, following: int): seq<(int, int)> {
    if following > |block| then []
    else
      var z := TrailingZeros(block);
      Closed(block, following, |block|) + (if z >= following then [(|block| - z, |block|)] else [])
  }

  lemma RunsSound(block: string, following: int)
    ensures forall k :: 0 <= k < |Runs(block, following)| ==>
              ZeroRun(block, Runs(block, following)[k].0, Runs(block, following)[k].1)
              && Runs(block, following)[k].1 - Runs(block, following)[k].0 >= following
  {
    if following <= |block| {
      var closed := Closed(block, following, |block|);
      ClosedSound(block, following, |block|);
      TrailingZerosRun(block);
      assert forall k :: 0 <= k < |closed| ==> Runs(block, following)[k] == closed[k];
    }
  }

  lemma RunsComplete(block: string, following: int, s: int, e: int)
    requires ZeroRun(block, s, e) && e - s >= following
    ensures (s, e) in Runs(block, following)
  {
    if e < |block| {
      ClosedComplete(block, following, |block|, s, e);
    } else {
      TrailingZerosExact(block, s);
    }
  }

  lemma RunsOrdered(block: string, following: int)
    ensures forall a, b :: 0 <= a < b < |Runs(block, following)| ==>
              Runs(block, following)[a].1 < Runs(block, following)[b].0
  {
    if following <= |block| {
      var closed := Closed(block, following, |block|);
      ClosedOrdered(block, following, |block|);
      ClosedSound(block, following, |block|);
      TrailingZerosRun(block);
      var start := |block| - TrailingZeros(block);
      assert forall k :: 0 <= k < |closed| ==> closed[k].1 < start;
      assert forall k :: 0 <= k < |closed| ==> Runs(block, following)[k] == closed[k];
    }
  }

  /** The zero-run finder with the trailing run reported like the others,
      as `(start of the run, len)`: the result is exactly the maximal runs
      of at least `following` zeros, left to right. */
  method ZeroRunIndexes(block: string, following: int) returns (result: seq<(int, int)>)
    ensures forall k :: 0 <= k < |result| ==>
              ZeroRun(block, result[k].0, result[k].1) && result[k].1 - result[k].0 >= following
    ensures forall s, e :: ZeroRun(block, s, e) && e - s >= following ==> (s, e) in result
    ensures forall a, b :: 0 <= a < b < |result| ==> result[a].1 < result[b].0
  {
    result := [];
    if following <= |block| {
      var zeroCounter := 0;
      var i := 0;
      while i < |block|
        invariant 0 <= i <= |block|
        invariant zeroCounter == TrailingZeros(block[..i])
        invariant result == Closed(block, following, i)
      {
        assert block[..i + 1][..i] == block[..i];
        if block[i] == '0' {
          zeroCounter := zeroCounter + 1;
        } else {
          if zeroCounter >= following {
            result := result + [(i - zeroCounter, i)];
          }
          zeroCounter := 0;
        }
        i := i + 1;
      }
      assert block[..i] == block;
      if zeroCounter >= following {
        result := result + [(|block| - zeroCounter, |block|)];
      }
    }
    assert result == Runs(block, following);
    RunsSound(block, following);
    RunsOrdered(block, following);
    forall s, e | ZeroRun(block, s, e) && e - s >= following
      ensures (s, e) in result
    {
      RunsComplete(block, following, s, e);
    }
  }

  // ------------------------------------------------------------ block split

  /** A protocol block: its bits, the pause after it, its signal strength,
      the analyzer's alignment positions, and the decoder, label set and
      bit length it carries along. */
  datatype Block<D, L> = Block(
    bits: Bits,
    pause: int,
    rssi: int,
    alignment: seq<int>,
    decoder: D,
    labelSet: L,
    bitLen: int)

  /** Where a Python slice bound or a `list.insert` position lands in a
      list of length `n`: negative values count from the end, and both
      ends clamp. */
  function PyIndex(k: int, n: nat): (r: nat)
    ensures r <= n
    ensures 0 <= k <= n ==> r == k
    ensures k > n ==> r == n
    ensures k < 0 ==> r == if n + k < 0 then 0 else n + k
  {
    if k < 0 then (if n + k < 0 then 0 else n + k)
    else if k > n then n
    else k
  }

  /** `redo`: block `nr` is replaced by its bits before `pos` (pause 0) and
      the block holding the rest (the original pause) is inserted after it.
      None where `blocks[nr]` raises `IndexError`. Both new blocks get RSSI
      0 and the analyzer's alignment positions. */
  function Redo<D, L>(blocks: seq<Block<D, L>>, nr: int, pos: int, alignment: seq<int>): (r: Option<seq<Block<D, L>>>)
    ensures r.Some? <==> -|blocks| <= nr < |blocks|
    ensures r.Some? ==> |r.value| == |blocks| + 1
  {
    var n := |blocks|;
    if nr < -n || nr >= n then None
    else
      var idx := if nr < 0 then n + nr else nr;
      var b := blocks[idx];
      var cut := PyIndex(pos, |b.bits|);
      var first := Block(b.bits[..cut], 0, 0, alignment, b.decoder, b.labelSet, b.bitLen);
      var second := Block(b.bits[cut..], b.pause, 0, alignment, b.decoder, b.labelSet, b.bitLen);
      var replaced := blocks[idx := first];
      var at := PyIndex(nr + 1, n);
      Some(replaced[..at] + [second] + replaced[at..])
  }

  /** The two halves of a split block: together they hold the block's bits;
      the first ends with no pause, the second keeps the block's pause. */
  ghost predicate Halves<D, L>(b: Block<D, L>, first: Block<D, L>, second: Block<D, L>, alignment: seq<int>) {
    first.bits + second.bits == b.bits
    && first.pause == 0 && second.pause == b.pause
    && first.rssi == 0 && second.rssi == 0
    && first.alignment == alignment && second.alignment == alignment
    && first.decoder == b.decoder && second.decoder == b.decoder
    && first.labelSet == b.labelSet && second.labelSet == b.labelSet
    && first.bitLen == b.bitLen && second.bitLen == b.bitLen
  }

  /** For a block number inside the list, the list grows by one: the block
      becomes its two halves in place and every other block is unchanged. */
  lemma RedoSplits<D, L>(blocks: seq<Block<D, L>>, nr: int, pos: int, alignment: seq<int>)
    requires 0 <= nr < |blocks|
    ensures var r := Redo(blocks, nr, pos, alignment).value;
            r[..nr] == blocks[..nr] && r[nr + 2..] == blocks[nr + 1..]
            && Halves(blocks[nr], r[nr], r[nr + 1], alignment)
            && |r[nr].bits| == if pos < 0 then (if |blocks[nr].bits| + pos < 0 then 0 else |blocks[nr].bits| + pos)
                               else if pos > |blocks[nr].bits| then |blocks[nr].bits| else pos
  {
    var b := blocks[nr];
    var cut := PyIndex(pos, |b.bits|);
    assert b.bits[..cut] + b.bits[cut..] == b.bits;
  }

  /** A negative block number other than -1 counts from the end, as Python
      indexing does. */
  lemma RedoFromEnd<D, L>(blocks: seq<Block<D, L>>, nr: int, pos: int, alignment: seq<int>)
    requires -|blocks| <= nr <= -2
    ensures Redo(blocks, nr, pos, alignment) == Redo(blocks, |blocks| + nr, pos, alignment)
  {
  }

  /** Block number -1 splits the last block, but `insert(0, ...)` puts its
      second half at the front of the list. */
  lemma RedoLastMovesSecondHalf<D, L>(blocks: seq<Block<D, L>>, pos: int, alignment: seq<int>)
    requires |blocks| > 0
    ensures var r := Redo(blocks, -1, pos, alignment).value;
            var n := |blocks|;
            r[1..n] == blocks[..n - 1] && Halves(blocks[n - 1], r[n], r[0], alignment)
  {
    var b := blocks[|blocks| - 1];
    var cut := PyIndex(pos, |b.bits|);
    assert b.bits[..cut] + b.bits[cut..] == b.bits;
  }

  /** All bits of a block list, block after block. */
  function AllBits<D, L>(blocks: seq<Block<D, L>>): Bits
    decreases |blocks|
  {
    if |blocks| == 0 then [] else blocks[0].bits + AllBits(blocks[1..])
  }

  lemma {:induction false} AllBitsAppend<D, L>(a: seq<Block<D, L>>, b: seq<Block<D, L>>)
    ensures AllBits(a + b) == AllBits(a) + AllBits(b)
    decreases |a|
  {
    if |a| == 0 {
      assert a + b == b;
    } else {
      assert (a + b)[1..] == a[1..] + b;
      AllBitsAppend(a[1..], b);
    }
  }

  /** The bits of a block list around its block `k`. */
  lemma AllBitsAt<D, L>(bs: seq<Block<D, L>>, k: nat)
    requires k < |bs|
    ensures AllBits(bs) == AllBits(bs[..k]) + (bs[k].bits + AllBits(bs[k + 1..]))
  {
    AllBitsAppend(bs[..k], bs[k..]);
    assert bs[..k] + bs[k..] == bs;
    assert bs[k..][1..] == bs[k + 1..];
  }

  /** A list that holds `blocks` with block `k` replaced by two blocks
      whose bits together are block `k`'s has the same bits. */
  lemma SplitKeepsBits<D, L>(blocks: seq<Block<D, L>>, r: seq<Block<D, L>>, k: nat)
    requires k < |blocks| && |r| == |blocks| + 1
    requires r[..k] == blocks[..k] && r[k + 2..] == blocks[k + 1..]
    requires r[k].bits + r[k + 1].bits == blocks[k].bits
    ensures AllBits(r) == AllBits(blocks)
  {
    var front, one, two, back := AllBits(r[..k]), r[k].bits, r[k + 1].bits, AllBits(r[k + 2..]);
    assert AllBits(r) == front + (one + (two + back)) by {
      AllBitsAt(r, k);
      assert r[k + 1..][1..] == r[k + 2..];
    }
    assert AllBits(blocks) == front + ((one + two) + back) by {
      AllBitsAt(blocks, k);
    }
    Reassociate(front, one, two, back);
  }

  /** Splitting a block does not change the protocol's bits read block
      after block. */
  lemma RedoKeepsBits<D, L>(blocks: seq<Block<D, L>>, nr: int, pos: int, alignment: seq<int>)
    requires 0 <= nr < |blocks|
    ensures AllBits(Redo(blocks, nr, pos, alignment).value) == AllBits(blocks)
  {
    RedoSplits(blocks, nr, pos, alignment);
    SplitKeepsBits(blocks, Redo(blocks, nr, pos, alignment).value, nr);
  }
}
