/** The two loops of `code` over a chain list, for any stage runner: going
    up from the first entry when decoding, down from the last when
    encoding. Each loop skips the name and the parameter entries and hands
    every operation, with the entry after it when it takes a parameter, to
    the runner; the first fault ends the walk. The runner is a parameter
    here, so these facts hold whatever the stages compute. */
module ChainWalk {
  import opened Wrappers
  import opened ChainConfig

  /** The stages run one after the other, stopping at the first fault. */
  function Fold<R, F>(step: (R, Stage) -> Result<R, F>, r: R, ss: seq<Stage>): Result<R, F>
    decreases |ss|
  {
    if |ss| == 0 then Ok(r)
    else
      match step(r, ss[0])
      case Err(f) => Err(f)
      case Ok(next) => Fold(step, next, ss[1..])
  }

  function Reverse(ss: seq<Stage>): (rs: seq<Stage>)
    ensures |rs| == |ss|
    ensures forall k :: 0 <= k < |ss| ==> rs[k] == ss[|ss| - 1 - k]
    decreases |ss|
  {
    if |ss| == 0 then [] else [ss[|ss| - 1]] + Reverse(ss[..|ss| - 1])
  }

  // ------------------------------------------------------------ the loops

  /** A stage's parameter entry follows its operation in a well-formed chain. */
  lemma {:induction false} SlotsParam(s: Chain, i: nat)
    requires Slots(s) && i < |s| && s[i].Step? && HasParam(s[i].op)
    ensures i + 1 < |s| && Fits(s[i].op, s[i + 1])
    decreases |s|
  {
    if i > 0 {
      if HasParam(s[0].op) {
        assert i >= 2;
        assert s[2..][i - 2] == s[i];
        SlotsParam(s[2..], i - 2);
        assert s[2..][i - 1] == s[i + 1];
      } else {
        assert s[1..][i - 1] == s[i];
        SlotsParam(s[1..], i - 1);
        assert s[1..][i] == s[i + 1];
      }
    }
  }

  /** The stage whose operation sits at index `j`: the operation, and the
      next entry when the operation takes a parameter. */
  function StageAt(c: Chain, j: nat): (s: Stage)
    requires WellFormed(c) && j < |c| && c[j].Step?
    ensures StageOk(s) && s.op == c[j].op
    ensures HasParam(s.op) ==> j + 1 < |c| && s.param == Some(c[j + 1])
  {
    assert j >= 1 && c[1..][j - 1] == c[j];
    if HasParam(c[j].op) then
      SlotsParam(c[1..], j - 1);
      assert c[1..][j] == c[j + 1];
      Stage(c[j].op, Some(c[j + 1]))
    else Stage(c[j].op, None)
  }

  /** The entry at `j`: a stage to run, or a name or parameter to pass. */
  function Visit<R, F>(step: (R, Stage) -> Result<R, F>, r: R, c: Chain, j: nat): Result<R, F>
    requires WellFormed(c) && j < |c|
  {
    if c[j].Step? then step(r, StageAt(c, j)) else Ok(r)
  }

  /** The inner loop going up: pass entries that are not operations, but
      stop at the last entry. */
  function SkipUp(c: Chain, i: nat): (j: nat)
    requires i < |c|
    ensures i <= j < |c|
    ensures c[j].Step? || j == |c| - 1
    decreases |c| - i
  {
    if c[i].Step? || i + 1 == |c| then i else SkipUp(c, i + 1)
  }

  /** The inner loop going down: pass entries that are not operations, but
      stop at index 0. */
  function SkipDown(c: Chain, i: nat): (j: nat)
    requires i < |c|
    ensures j <= i
    ensures c[j].Step? || j == 0
    decreases i
  {
    if c[i].Step? || i == 0 then i else SkipDown(c, i - 1)
  }

  /** The outer loop when decoding, from index `i` up to the end. */
  function Up<R, F>(step: (R, Stage) -> Result<R, F>, r: R, c: Chain, i: nat): Result<R, F>
    requires WellFormed(c) && i <= |c|
    decreases |c| - i
  {
    if i == |c| then Ok(r)
    else
      var j := SkipUp(c, i);
      match Visit(step, r, c, j)
      case Err(f) => Err(f)
      case Ok(next) => Up(step, next, c, j + 1)
  }

  /** The outer loop when encoding, from index `i` down to the start. */
  function Down<R, F>(step: (R, Stage) -> Result<R, F>, r: R, c: Chain, i: int): Result<R, F>
    requires WellFormed(c) && -1 <= i < |c|
    decreases i + 1
  {
    if i == -1 then Ok(r)
    else
      var j := SkipDown(c, i);
      match Visit(step, r, c, j)
      case Err(f) => Err(f)
      case Ok(next) => Down(step, next, c, j - 1)
  }

  /** The stages of a chain, in chain order. */
  function ChainStages(c: Chain): (ss: seq<Stage>)
    requires WellFormed(c)
    ensures AllOk(ss)
  {
    if |c| == 0 then [] else Stages(c[1..])
  }

  /** The order of execution: the chain's stages first to last when
      decoding, last to first when encoding. */
  function Schedule(c: Chain, decoding: bool): (ss: seq<Stage>)
    requires WellFormed(c)
    ensures AllOk(ss)
  {
    if decoding then ChainStages(c) else Reverse(ChainStages(c))
  }

  /** `code`'s walk: up from index 0 when decoding, down from the last
      index when encoding. */
  function Walk<R, F>(step: (R, Stage) -> Result<R, F>, r: R, c: Chain, decoding: bool): Result<R, F>
    requires WellFormed(c)
  {
    if decoding then Up(step, r, c, 0) else Down(step, r, c, |c| - 1)
  }

  // ------------------------------------------------------------ walk = fold

  lemma {:induction false} UpSkip<R, F>(step: (R, Stage) -> Result<R, F>, r: R, c: Chain, i: nat)
    requires WellFormed(c) && i < |c| && !c[i].Step?
    ensures Up(step, r, c, i) == Up(step, r, c, i + 1)
  {
    var j := SkipUp(c, i);
    if j == i {
      assert i == |c| - 1;
    } else {
      assert SkipUp(c, i + 1) == j;
    }
  }

  /** Going up from an operation entry: run its stage, then go on past it. */
  lemma {:induction false} UpAtStep<R, F>(step: (R, Stage) -> Result<R, F>, r: R, c: Chain, p: nat)
    requires WellFormed(c) && p < |c| && c[p].Step?
    ensures Up(step, r, c, p) ==
      match step(r, StageAt(c, p))
      case Err(f) => Err(f)
      case Ok(next) => Up(step, next, c, p + 1)
  {
    assert SkipUp(c, p) == p;
  }

  lemma {:induction false} FoldFirst<R, F>(step: (R, Stage) -> Result<R, F>, r: R, ss: seq<Stage>, k: nat)
    requires k < |ss|
    ensures Fold(step, r, ss[k..]) ==
      match step(r, ss[k])
      case Err(f) => Err(f)
      case Ok(next) => Fold(step, next, ss[k + 1..])
  {
    assert ss[k..][0] == ss[k] && ss[k..][1..] == ss[k + 1..];
  }

  lemma {:induction false} FlattenSingle(s: Stage)
    ensures Flatten([s]) == Piece(s)
  {
    assert [s][1..] == [];
  }

  /** Where stage `k` sits in the flat list: its operation right after the
      entries of the stages before it, its parameter next. */
  lemma {:induction false} StagePosition(ss: seq<Stage>, k: nat)
    requires k < |ss|
    ensures Flatten(ss) == Flatten(ss[..k]) + Piece(ss[k]) + Flatten(ss[k + 1..])
    ensures Flatten(ss[..k + 1]) == Flatten(ss[..k]) + Piece(ss[k])
  {
    var pre, s, post := ss[..k], ss[k], ss[k + 1..];
    assert Flatten(ss) == Flatten(pre) + Piece(s) + Flatten(post) by {
      assert ss == pre + ([s] + post);
      FlattenAppend(pre, [s] + post);
      assert ([s] + post)[1..] == post;
    }
    assert Flatten(ss[..k + 1]) == Flatten(pre) + Piece(s) by {
      assert ss[..k + 1] == pre + [s];
      FlattenAppend(pre, [s]);
      FlattenSingle(s);
    }
  }

  lemma {:induction false} StageAtPosition(c: Chain, ss: seq<Stage>, k: nat)
    requires WellFormed(c) && |c| >= 1 && c[1..] == Flatten(ss) && AllOk(ss) && k < |ss|
    ensures var p := 1 + |Flatten(ss[..k])|;
            p < |c| && c[p].Step? && StageAt(c, p) == ss[k]
            && (ss[k].param.Some? ==> p + 1 < |c| && !c[p + 1].Step?)
  {
    StagePosition(ss, k);
    var p := 1 + |Flatten(ss[..k])|;
    var piece := Piece(ss[k]);
    assert c[1..][p - 1] == piece[0];
    if ss[k].param.Some? {
      assert c[1..][p] == piece[1];
      assert StageOk(ss[k]);
    }
  }

  /** Going up from the operation of stage `k`: run the stage, then go on
      from the first entry of stage `k + 1`. */
  lemma {:induction false} UpPastStage<R, F>(step: (R, Stage) -> Result<R, F>, r: R, c: Chain, ss: seq<Stage>, k: nat)
    requires WellFormed(c) && |c| >= 1 && c[1..] == Flatten(ss) && AllOk(ss) && k < |ss|
    ensures 1 + |Flatten(ss[..k])| < |c| && 1 + |Flatten(ss[..k + 1])| <= |c|
    ensures Up(step, r, c, 1 + |Flatten(ss[..k])|) ==
      match step(r, ss[k])
      case Err(f) => Err(f)
      case Ok(next) => Up(step, next, c, 1 + |Flatten(ss[..k + 1])|)
  {
    var p := 1 + |Flatten(ss[..k])|;
    var q := 1 + |Flatten(ss[..k + 1])|;
    assert p < |c| && c[p].Step? && StageAt(c, p) == ss[k] && q == p + |Piece(ss[k])|
      && (ss[k].param.Some? ==> p + 1 < |c| && !c[p + 1].Step?) by {
      StagePosition(ss, k);
      StageAtPosition(c, ss, k);
    }
    UpAtStep(step, r, c, p);
    var res := step(r, ss[k]);
    if res.Ok? && ss[k].param.Some? {
      UpSkip(step, res.value, c, p + 1);
    }
  }

  lemma {:induction false} UpIsFold<R, F>(step: (R, Stage) -> Result<R, F>, r: R, c: Chain, ss: seq<Stage>, k: nat)
    requires WellFormed(c) && |c| >= 1 && c[1..] == Flatten(ss) && AllOk(ss) && k <= |ss|
    ensures 1 + |Flatten(ss[..k])| <= |c|
    ensures Up(step, r, c, 1 + |Flatten(ss[..k])|) == Fold(step, r, ss[k..])
    decreases |ss| - k
  {
    if k == |ss| {
      assert ss[..k] == ss;
    } else {
      UpPastStage(step, r, c, ss, k);
      FoldFirst(step, r, ss, k);
      var res := step(r, ss[k]);
      if res.Ok? {
        UpIsFold(step, res.value, c, ss, k + 1);
      }
    }
  }

  /** Going down from the last entry of stage `k - 1`: the parameter entry
      is passed and the operation is the next one reached. */
  lemma {:induction false} DownReaches(c: Chain, ss: seq<Stage>, k: nat)
    requires WellFormed(c) && |c| >= 1 && c[1..] == Flatten(ss) && AllOk(ss) && 0 < k <= |ss|
    ensures |Flatten(ss[..k])| < |c|
    ensures SkipDown(c, |Flatten(ss[..k])|) == 1 + |Flatten(ss[..k - 1])|
  {
    StagePosition(ss, k - 1);
    StageAtPosition(c, ss, k - 1);
    StagePosition(ss, |ss| - 1);
    assert ss[..k][..k - 1] == ss[..k - 1];
    var p := 1 + |Flatten(ss[..k - 1])|;
    var e := |Flatten(ss[..k])|;
    assert e == p - 1 + |Piece(ss[k - 1])|;
    if e != p {
      assert e == p + 1 && !c[e].Step?;
      assert SkipDown(c, e) == SkipDown(c, p);
    }
  }

  lemma {:induction false} DownIsFold<R, F>(step: (R, Stage) -> Result<R, F>, r: R, c: Chain, ss: seq<Stage>, k: nat)
    requires WellFormed(c) && |c| >= 1 && c[1..] == Flatten(ss) && AllOk(ss) && k <= |ss|
    ensures |Flatten(ss[..k])| < |c|
    ensures Down(step, r, c, |Flatten(ss[..k])|) == Fold(step, r, Reverse(ss[..k]))
    decreases k
  {
    if k == 0 {
      assert ss[..0] == [];
      assert SkipDown(c, 0) == 0;
    } else {
      DownReaches(c, ss, k);
      StageAtPosition(c, ss, k - 1);
      var p := 1 + |Flatten(ss[..k - 1])|;
      assert ss[..k][..k - 1] == ss[..k - 1];
      var rev := Reverse(ss[..k]);
      assert rev[0] == ss[k - 1] && rev[1..] == Reverse(ss[..k - 1]);
      var res := step(r, ss[k - 1]);
      if res.Ok? {
        DownIsFold(step, res.value, c, ss, k - 1);
      }
    }
  }

  /** `code` runs the chain's stages in chain order when decoding and in
      reverse order when encoding, whatever the stages compute. */
  lemma {:induction false} WalkIsFold<R, F>(step: (R, Stage) -> Result<R, F>, r: R, c: Chain, decoding: bool)
    requires WellFormed(c)
    ensures Walk(step, r, c, decoding) == Fold(step, r, Schedule(c, decoding))
  {
    if |c| > 0 {
      var ss := Stages(c[1..]);
      assert c[1..] == Flatten(ss) by {
        FlattenStages(c[1..]);
      }
      if decoding {
        assert Up(step, r, c, 1) == Fold(step, r, ss) by {
          UpIsFold(step, r, c, ss, 0);
          assert ss[..0] == [] && ss[0..] == ss;
        }
        UpSkip(step, r, c, 0);
      } else {
        assert Down(step, r, c, |c| - 1) == Fold(step, r, Reverse(ss)) by {
          DownIsFold(step, r, c, ss, |ss|);
          assert ss[..|ss|] == ss;
        }
      }
    }
  }

  // ------------------------------------------------------------ composition

  /** Running `a + b` is running `a`, then `b` from where `a` stopped. */
  lemma {:induction false} FoldAppend<R, F>(step: (R, Stage) -> Result<R, F>, r: R, a: seq<Stage>, b: seq<Stage>)
    ensures Fold(step, r, a + b) ==
      match Fold(step, r, a)
      case Err(f) => Err(f)
      case Ok(mid) => Fold(step, mid, b)
    decreases |a|
  {
    if |a| == 0 {
      assert a + b == b;
    } else {
      assert (a + b)[0] == a[0] && (a + b)[1..] == a[1..] + b;
      match step(r, a[0])
      case Err(f) =>
      case Ok(next) => FoldAppend(step, next, a[1..], b);
    }
  }

  lemma {:induction false} ReverseAppend(a: seq<Stage>, b: seq<Stage>)
    ensures Reverse(a + b) == Reverse(b) + Reverse(a)
  {
    var l, r := Reverse(a + b), Reverse(b) + Reverse(a);
    forall k | 0 <= k < |l|
      ensures l[k] == r[k]
    {
      if k < |b| {
        assert r[k] == Reverse(b)[k];
      } else {
        assert r[k] == Reverse(a)[k - |b|];
      }
    }
  }

  /** A property every successful step keeps. */
  ghost predicate Keeps<R(!new), F>(step: (R, Stage) -> Result<R, F>, inv: R -> bool) {
    forall r, s :: inv(r) && step(r, s).Ok? ==> inv(step(r, s).value)
  }

  /** ... is kept by every run of stages. */
  lemma {:induction false} FoldKeeps<R(!new), F>(step: (R, Stage) -> Result<R, F>, inv: R -> bool, r: R, ss: seq<Stage>)
    requires Keeps(step, inv) && inv(r)
    ensures Fold(step, r, ss).Ok? ==> inv(Fold(step, r, ss).value)
    decreases |ss|
  {
    if |ss| > 0 && step(r, ss[0]).Ok? {
      FoldKeeps(step, inv, step(r, ss[0]).value, ss[1..]);
    }
  }
}
