/** The `code` interpreter: it walks the chain list, loads each stage's
    parameter into the codec state and runs the stage on the bits so far,
    ascending when decoding and descending when encoding. `encode`,
    `decode` and `analyze` are its bits and error components. */
module CodecEngine {
  import opened Wrappers
  import opened BitStrings
  import opened Text
  import opened HexCodec
  import opened ChainConfig
  import opened DataWhitening
  import opened ChainWalk
  import SimpleStages
  import RedundancyCode
  import CarrierCode
  import SubstitutionCode

  /** Where the run stops. The first three cases are where the source
      raises or loops for ever; the last two are where the source goes on
      with values the model does not represent, and the model stops
      instead. */
  datatype Fault =
    | BadInteger          // `int()` of a redundancy parameter that is not an integer
    | BadExternal         // an external parameter that does not split into two at ';'
    | Endless             // a substitution table whose first entry is empty, on non-empty bits
    | UnparsedWhitening   // a whitening parameter with two ';' and an empty part: the source keeps the raw text parts as sync and polynomial
    | WrappedIndex        // whitening where the CRC block would need negative indices: the source reads from the end of the list

  /** The fields of the encoding object the stages read and `code` writes. */
  datatype CodecState = CodecState(
    multiple: int,
    carrier: Bits,
    subst: SubstitutionCode.SubstTable,
    externalDecoder: string,
    externalEncoder: string,
    whitening: WhiteningConfig,
    symbolLen: int)

  /** The constructor's settings. */
  const InitialState: CodecState :=
    CodecState(1, [], SubstitutionCode.SubstTable([], []), "", "", DefaultConfig, 1)

  /** The services behind the stages: the CRC engine and the external
      program runner (command, standard input) -> standard output. */
  datatype Env = Env(crc: CrcEngine, run: (string, string) -> string)

  /** The state every load keeps: substitution sources and targets pair up. */
  predicate Consistent(st: CodecState) {
    SubstitutionCode.Paired(st.subst)
  }

  // ------------------------------------------------------------ loading

  /** The external parameter: "decoder;encoder", or both empty. */
  function LoadExternal(st: CodecState, text: string): (r: Result<CodecState, Fault>)
    ensures r.Ok? ==> r.value.(externalDecoder := st.externalDecoder, externalEncoder := st.externalEncoder) == st
    ensures text == "" ==> r == Ok(st.(externalDecoder := "", externalEncoder := ""))
    ensures text != "" && r.Ok? ==> r.value.externalDecoder + ";" + r.value.externalEncoder == text
    ensures r.Err? <==> Count(text, ';') != 1 && text != ""
  {
    if text != "" then
      var parts := Split(text, ';');
      if |parts| != 2 then Err(BadExternal)
      else
        JoinSplit(text, ';');
        Ok(st.(externalDecoder := parts[0], externalEncoder := parts[1]))
    else Ok(st.(externalDecoder := "", externalEncoder := ""))
  }

  /** The whitening parameter "sync;polynomial;options" in hex: sync and
      polynomial are replaced, and the four flags are taken from the first
      four option bits when there are at least four. A parameter without
      exactly two ';' leaves the settings as they are. */
  function LoadWhitening(st: CodecState, text: string): (r: Result<CodecState, Fault>)
    ensures Count(text, ';') != 2 ==> r == Ok(st)
    ensures r.Ok? ==> r.value.(whitening := st.whitening) == st
    ensures r.Ok? ==> r.value.whitening.preamble == st.whitening.preamble
  {
    if Count(text, ';') != 2 then Ok(st)
    else
      var parts := Split(text, ';');
      if |parts[0]| == 0 || |parts[1]| == 0 || |parts[2]| == 0 then Err(UnparsedWhitening)
      else
        var w := st.whitening.(sync := HexToBits(parts[0]), polynomial := HexToBits(parts[1]));
        var opt := HexToBits(parts[2]);
        Ok(st.(whitening :=
          if |opt| >= 4 then w.(applyCrc := opt[0], stripPreamble := opt[1], stripSync := opt[2], stripCrc := opt[3])
          else w))
  }

  /** The parameter load before a stage runs. The carrier is passed through
      `str2bit` a second time although it is already a bit list; no bit
      equals the text "1", so the carrier in use is all zeros. */
  function Load(st: CodecState, s: Stage): (r: Result<CodecState, Fault>)
    requires StageOk(s)
    ensures Consistent(st) && r.Ok? ==> Consistent(r.value)
    ensures r.Ok? && !HasParam(s.op) ==> r.value == st
    ensures r.Ok? && s.op == Carrier ==> r.value == st.(carrier := Repeat(false, |s.param.value.bits|))
    ensures s.op == Redundancy ==>
      (r.Ok? <==> ParseInt(s.param.value.text).Some?)
      && (r.Ok? ==> r.value == st.(multiple := ParseInt(s.param.value.text).value))
  {
    match s.op
    case Redundancy =>
      (match ParseInt(s.param.value.text)
       case None => Err(BadInteger)
       case Some(m) => Ok(st.(multiple := m)))
    case Carrier => Ok(st.(carrier := seq(|s.param.value.bits|, _ => false)))
    case Substitution => Ok(st.(subst := s.param.value.table))
    case External => LoadExternal(st, s.param.value.text)
    case Whitening => LoadWhitening(st, s.param.value.text)
    case _ => Ok(st)
  }

  // ------------------------------------------------------------ running

  /** One stage's transform on non-empty bits, with the loaded settings. */
  function Apply(env: Env, st: CodecState, op: Op, decoding: bool, x: Bits): (r: Result<(Bits, int), Fault>)
    requires |x| > 0 && Consistent(st)
    ensures r.Ok? ==> r.value.1 >= 0
  {
    match op
    case Invert => Ok(SimpleStages.Invert(x))
    case Differential => Ok(SimpleStages.Differential(decoding, x))
    case Redundancy => Ok(RedundancyCode.Redundancy(decoding, st.multiple, x))
    case Whitening =>
      if CrcBlockInRange(st.whitening, decoding, x) then Ok(Whiten(env.crc, st.whitening, decoding, x))
      else Err(WrappedIndex)
    case Carrier => Ok(CarrierCode.Carrier(decoding, st.carrier, x))
    case BitOrder => Ok(SimpleStages.BitOrder(x))
    case Edge => Ok(SimpleStages.Edge(decoding, x))
    case Substitution =>
      if SubstitutionCode.Terminates(st.subst, decoding, x) then Ok(SubstitutionCode.Substitution(decoding, st.subst, x))
      else Err(Endless)
    case External => Ok(SimpleStages.External(env.run, st.externalDecoder, st.externalEncoder, decoding, x))
  }

  /** The state of a run: the settings, the bits so far, the error sum. */
  datatype Run = Run(state: CodecState, bits: Bits, errors: int)

  /** One visited stage: load its parameter, then transform the bits unless
      they are already empty, adding the stage's errors. */
  function Perform(env: Env, r: Run, s: Stage, decoding: bool): (res: Result<Run, Fault>)
    requires StageOk(s) && Consistent(r.state)
    ensures res.Ok? ==> Consistent(res.value.state) && res.value.errors >= r.errors
    ensures res.Ok? && |r.bits| == 0 ==> res.value.bits == [] && res.value.errors == r.errors
  {
    match Load(r.state, s)
    case Err(f) => Err(f)
    case Ok(st) =>
      if |r.bits| == 0 then Ok(Run(st, r.bits, r.errors))
      else
        match Apply(env, st, s.op, decoding, r.bits)
        case Err(f) => Err(f)
        case Ok(out) => Ok(Run(st, out.0, r.errors + out.1))
  }

  /** `code`'s stage runner. Every stage of a well-formed chain fits its
      operation and every load keeps the state consistent, so on a walk
      from a consistent state the guard always holds (`RunnerIsPerform`,
      `SaneKept`). */
  function Runner(env: Env, decoding: bool): (Run, Stage) -> Result<Run, Fault> {
    (r: Run, s: Stage) => if StageOk(s) && Consistent(r.state) then Perform(env, r, s, decoding) else Ok(r)
  }

  /** What holds of every run `code` reaches: consistent settings and a
      non-negative error sum. */
  predicate Sane(r: Run) {
    Consistent(r.state) && r.errors >= 0
  }

  /** `symbol_len` after a run on non-empty input: the whole number of
      output bits per input bit. */
  function Finish(x: Bits, res: Result<Run, Fault>): (out: Result<Run, Fault>)
    ensures out.Ok? <==> res.Ok?
    ensures out.Ok? ==> out.value.(state := res.value.state) == res.value
    ensures out.Ok? ==> out.value.state.(symbolLen := res.value.state.symbolLen) == res.value.state
  {
    match res
    case Err(f) => Err(f)
    case Ok(r) =>
      if |x| > 0 then Ok(r.(state := r.state.(symbolLen := |r.bits| / |x|))) else Ok(r)
  }

  /** `code(decoding, x)`: the output bits, the error sum and the updated
      codec state, or the fault that ended the run. */
  function Code(env: Env, st: CodecState, c: Chain, decoding: bool, x: Bits): (res: Result<Run, Fault>)
    requires WellFormed(c) && Consistent(st)
    ensures res.Ok? ==> Consistent(res.value.state) && res.value.errors >= 0
    ensures res.Ok? && |x| > 0 ==> res.value.state.symbolLen == |res.value.bits| / |x|
  {
    var start := Run(st, x, 0);
    SaneKept(env, decoding);
    WalkIsFold(Runner(env, decoding), start, c, decoding);
    FoldKeeps(Runner(env, decoding), Sane, start, Schedule(c, decoding));
    Finish(x, Walk(Runner(env, decoding), start, c, decoding))
  }

  /** `encode(x)`: the output bits of an encoding run. A chain with only
      a name hands the input back; empty input gives empty output. */
  function Encode(env: Env, st: CodecState, c: Chain, x: Bits): (r: Result<Bits, Fault>)
    requires WellFormed(c) && Consistent(st)
    ensures |c| <= 1 ==> r == Ok(x)
    ensures |x| == 0 && r.Ok? ==> r.value == []
  {
    TrivialRuns(env, st, c, false, x);
    match Code(env, st, c, false, x)
    case Err(f) => Err(f)
    case Ok(run) => Ok(run.bits)
  }

  /** `decode(x)`: the output bits of a decoding run. A chain with only
      a name hands the input back; empty input gives empty output. */
  function Decode(env: Env, st: CodecState, c: Chain, x: Bits): (r: Result<Bits, Fault>)
    requires WellFormed(c) && Consistent(st)
    ensures |c| <= 1 ==> r == Ok(x)
    ensures |x| == 0 && r.Ok? ==> r.value == []
  {
    TrivialRuns(env, st, c, true, x);
    match Code(env, st, c, true, x)
    case Err(f) => Err(f)
    case Ok(run) => Ok(run.bits)
  }

  /** `analyze(x)`: the error sum of a decoding run; never negative, and
      zero for a name-only chain or empty input. */
  function Analyze(env: Env, st: CodecState, c: Chain, x: Bits): (r: Result<int, Fault>)
    requires WellFormed(c) && Consistent(st)
    ensures r.Ok? ==> r.value >= 0
    ensures |c| <= 1 ==> r == Ok(0)
    ensures |x| == 0 && r.Ok? ==> r.value == 0
  {
    TrivialRuns(env, st, c, true, x);
    match Code(env, st, c, true, x)
    case Err(f) => Err(f)
    case Ok(run) => Ok(run.errors)
  }

  // ------------------------------------------------------------ facts

  lemma RunnerIsPerform(env: Env, decoding: bool, r: Run, s: Stage)
    requires StageOk(s) && Consistent(r.state)
    ensures Runner(env, decoding)(r, s) == Perform(env, r, s, decoding)
  {
  }

  /** Each stage keeps the settings consistent and adds a non-negative
      error count. */
  lemma SaneKept(env: Env, decoding: bool)
    ensures Keeps(Runner(env, decoding), Sane)
  {
    forall r: Run, s: Stage | Sane(r) && Runner(env, decoding)(r, s).Ok?
      ensures Sane(Runner(env, decoding)(r, s).value)
    {
    }
  }

  // ------------------------------------------------------------ round trip

  /** The stages whose decoding undoes their encoding whatever settings
      were loaded before them: the parameterless bit transforms, a
      redundancy factor above one and a non-empty carrier pattern. */
  predicate Lossless(s: Stage) {
    match s.op
    case Invert => true
    case Differential => true
    case BitOrder => true
    case Edge => true
    case Redundancy =>
      s.param.Some? && s.param.value.Token? && ParseInt(s.param.value.text).Some?
      && ParseInt(s.param.value.text).value > 1
    case Carrier => s.param.Some? && s.param.value.BitList? && |s.param.value.bits| > 0
    case _ => false
  }

  predicate AllLossless(ss: seq<Stage>) {
    forall k :: 0 <= k < |ss| ==> Lossless(ss[k])
  }

  /** A lossless stage never faults, keeps empty bits empty and non-empty
      bits non-empty, and its decoding restores what its encoding was
      given, whatever the state and error sum each run starts from. */
  lemma StageRoundTrip(env: Env, s: Stage, st1: CodecState, e1: int, st2: CodecState, e2: int, x: Bits)
    requires StageOk(s) && Lossless(s) && Consistent(st1) && Consistent(st2)
    ensures Perform(env, Run(st1, x, e1), s, false).Ok?
    ensures var a := Perform(env, Run(st1, x, e1), s, false).value;
      (|a.bits| == 0 <==> |x| == 0)
      && Perform(env, Run(st2, a.bits, e2), s, true).Ok?
      && Perform(env, Run(st2, a.bits, e2), s, true).value.bits == x
  {
    var r1 := Run(st1, x, e1);
    var a := Perform(env, r1, s, false).value;
    if |x| > 0 {
      match s.op
      case Invert => SimpleStages.InvertInvolution(x);
      case Differential => SimpleStages.DifferentialDecodeEncode(x);
      case BitOrder => SimpleStages.BitOrderInvolution(x);
      case Edge => SimpleStages.EdgeRoundTrip(x);
      case Redundancy =>
        var m := ParseInt(s.param.value.text).value;
        RedundancyCode.RedundancyRoundTrip(m, x);
        assert |a.bits| == m * |x| by {
          assert a.bits == RedundancyCode.Redundancy(false, m, x).0;
        }
        RedundancyCode.MulAtLeast(|x|, m);
      case Carrier =>
        var pattern := Repeat(false, |s.param.value.bits|);
        CarrierCode.CarrierRoundTrip(pattern, x);
    }
  }

  /** Encoding runs the stages last to first; decoding then runs them
      first to last, so each stage's decoding meets exactly the bits its
      encoding produced. */
  lemma {:induction false} FoldRoundTrip(env: Env, ss: seq<Stage>, st1: CodecState, e1: int, st2: CodecState, e2: int, x: Bits)
    requires AllOk(ss) && AllLossless(ss) && Consistent(st1) && Consistent(st2)
    ensures var enc := Fold(Runner(env, false), Run(st1, x, e1), Reverse(ss));
      enc.Ok? && Consistent(enc.value.state)
      && Fold(Runner(env, true), Run(st2, enc.value.bits, e2), ss).Ok?
      && Fold(Runner(env, true), Run(st2, enc.value.bits, e2), ss).value.bits == x
    decreases |ss|
  {
    var encode, decode := Runner(env, false), Runner(env, true);
    if |ss| == 0 {
      assert Reverse(ss) == [];
    } else {
      var s, rest := ss[0], ss[1..];
      assert StageOk(s) && Lossless(s);
      assert AllOk(rest) && AllLossless(rest) by {
        forall k | 0 <= k < |rest|
          ensures StageOk(rest[k]) && Lossless(rest[k])
        {
          assert rest[k] == ss[k + 1];
        }
      }
      assert Reverse(ss) == Reverse(rest) + [s] by {
        assert ss == [s] + rest;
        ReverseAppend([s], rest);
      }
      FoldRoundTrip(env, rest, st1, e1, st1, e1, x);
      var m := Fold(encode, Run(st1, x, e1), Reverse(rest)).value;
      StageRoundTrip(env, s, m.state, m.errors, st2, e2, m.bits);
      RunnerIsPerform(env, false, m, s);
      var a := Perform(env, m, s, false).value;
      assert Fold(encode, Run(st1, x, e1), Reverse(ss)) == Ok(a) by {
        FoldAppend(encode, Run(st1, x, e1), Reverse(rest), [s]);
        assert [s][1..] == [];
      }
      RunnerIsPerform(env, true, Run(st2, a.bits, e2), s);
      var b := Perform(env, Run(st2, a.bits, e2), s, true).value;
      FoldRoundTrip(env, rest, st1, e1, b.state, b.errors, x);
      assert Fold(decode, Run(st2, a.bits, e2), ss) == Fold(decode, b, rest);
    }
  }

  /** Encoding and then decoding with the same chain gives back the input
      when every stage of the chain is lossless, whatever settings either
      run starts from. */
  lemma ChainRoundTrip(env: Env, st1: CodecState, st2: CodecState, c: Chain, x: Bits)
    requires WellFormed(c) && Consistent(st1) && Consistent(st2)
    requires AllLossless(ChainStages(c))
    ensures Encode(env, st1, c, x).Ok?
    ensures Decode(env, st2, c, Encode(env, st1, c, x).value) == Ok(x)
  {
    var ss := ChainStages(c);
    FoldRoundTrip(env, ss, st1, 0, st2, 0, x);
    CodeRunsSchedule(env, st1, c, false, x);
    var y := Fold(Runner(env, false), Run(st1, x, 0), Reverse(ss)).value.bits;
    CodeRunsSchedule(env, st2, c, true, y);
  }

  /** `code` performs the chain's stages in chain order when decoding and
      in reverse chain order when encoding, starting from the input and an
      error sum of zero. */
  lemma CodeRunsSchedule(env: Env, st: CodecState, c: Chain, decoding: bool, x: Bits)
    requires WellFormed(c) && Consistent(st)
    ensures Code(env, st, c, decoding, x) == Finish(x, Fold(Runner(env, decoding), Run(st, x, 0), Schedule(c, decoding)))
  {
    WalkIsFold(Runner(env, decoding), Run(st, x, 0), c, decoding);
  }

  /** A chain holding only its name leaves the bits as they are, with no
      errors and one output bit per input bit. */
  lemma NameOnlyChain(env: Env, st: CodecState, c: Chain, decoding: bool, x: Bits)
    requires WellFormed(c) && |c| <= 1 && Consistent(st)
    ensures Code(env, st, c, decoding, x).Ok?
    ensures var r := Code(env, st, c, decoding, x).value;
      r.bits == x && r.errors == 0 && r.state.(symbolLen := st.symbolLen) == st
      && (|x| > 0 ==> r.state.symbolLen == 1)
  {
    CodeRunsSchedule(env, st, c, decoding, x);
    assert ChainStages(c) == [];
  }

  /** A run with nothing left to transform. */
  predicate Idle(r: Run) {
    |r.bits| == 0 && r.errors == 0
  }

  lemma IdleKept(env: Env, decoding: bool)
    ensures Keeps(Runner(env, decoding), Idle)
  {
    forall r: Run, s: Stage | Idle(r) && Runner(env, decoding)(r, s).Ok?
      ensures Idle(Runner(env, decoding)(r, s).value)
    {
    }
  }

  /** The two runs whose outcome does not depend on the stages. */
  lemma TrivialRuns(env: Env, st: CodecState, c: Chain, decoding: bool, x: Bits)
    requires WellFormed(c) && Consistent(st)
    ensures var res := Code(env, st, c, decoding, x);
      && (|c| <= 1 ==> res.Ok? && res.value.bits == x && res.value.errors == 0)
      && (|x| == 0 && res.Ok? ==> res.value.bits == [] && res.value.errors == 0)
  {
    if |c| <= 1 {
      NameOnlyChain(env, st, c, decoding, x);
    }
    if |x| == 0 {
      EmptyInputSkips(env, st, c, decoding);
    }
  }

  /** On empty input every stage is skipped: the output is empty and the
      error sum zero (a parameter that fails to load still ends the run). */
  lemma EmptyInputSkips(env: Env, st: CodecState, c: Chain, decoding: bool)
    requires WellFormed(c) && Consistent(st)
    ensures var res := Code(env, st, c, decoding, []);
      res.Ok? ==> res.value.bits == [] && res.value.errors == 0
  {
    var step := Runner(env, decoding);
    IdleKept(env, decoding);
    CodeRunsSchedule(env, st, c, decoding, []);
    FoldKeeps(step, Idle, Run(st, [], 0), Schedule(c, decoding));
  }

  /** The carrier pattern's bits never reach the carrier stage in a chain
      run: only its length does, and the pattern in use is all zeros. */
  lemma CarrierPatternIgnored(env: Env, r: Run, p: Bits, q: Bits, decoding: bool)
    requires |p| == |q| && Consistent(r.state)
    ensures Perform(env, r, Stage(Carrier, Some(BitList(p))), decoding)
         == Perform(env, r, Stage(Carrier, Some(BitList(q))), decoding)
    ensures Perform(env, r, Stage(Carrier, Some(BitList(p))), decoding).Ok?
    ensures Perform(env, r, Stage(Carrier, Some(BitList(p))), decoding).value.state.carrier == Repeat(false, |p|)
  {
    assert Repeat(false, |p|) == Repeat(false, |q|);
  }

  lemma DefaultWhiteningParts()
    ensures Count(DefaultText(Whitening), ';') == 2
    ensures Split(DefaultText(Whitening), ';') == ["0xe9cae9ca", "0x21", "0xe"]
  {
    var parts := ["0xe9cae9ca", "0x21", "0xe"];
    assert Join(parts, ';') == DefaultText(Whitening) by {
      assert Join(parts[2..], ';') == "0xe";
      assert Join(parts[1..], ';') == "0x21;0xe";
    }
    SplitJoin(parts, ';');
  }

  lemma SyncHalves()
    ensures DefaultSync == SyncHalf + SyncHalf
  {
  }

  lemma SyncHex()
    ensures HexToBits("0xe9cae9ca") == DefaultSync
  {
    SyncWordDigits("0xe9cae9ca");
    SyncHalfDigits();
    SyncHalves();
  }

  lemma PolynomialHex()
    ensures HexToBits("0x21") == DefaultPolynomial
  {
    var ds := "21";
    assert StripPrefix("0x21") == ds;
    assert IsHexDigits(ds);
    assert Significant(ds) == ds;
    assert ExpandDigits(ds[1..]) == NibbleBits(1);
    assert ExpandDigits(ds) == NibbleBits(2) + NibbleBits(1);
  }

  lemma OptionsHex()
    ensures HexToBits("0xe") == [true, true, true, false]
  {
    var ds := "e";
    assert StripPrefix("0xe") == ds;
    assert IsHexDigits(ds);
    assert Significant(ds) == ds;
    assert ExpandDigits(ds) == NibbleBits(14);
  }

  /** A whitening parameter of three non-empty parts replaces the sync
      word and the polynomial by the bits of the first two parts. */
  lemma LoadWhiteningParts(st: CodecState, text: string, a: string, b: string, o: string)
    requires Split(text, ';') == [a, b, o] && |a| > 0 && |b| > 0 && |o| > 0
    ensures LoadWhitening(st, text).Ok?
    ensures var w := LoadWhitening(st, text).value.whitening;
      w.sync == HexToBits(a) && w.polynomial == HexToBits(b) && w.preamble == st.whitening.preamble
      && (|HexToBits(o)| >= 4 ==>
            [w.applyCrc, w.stripPreamble, w.stripSync, w.stripCrc] == HexToBits(o)[..4])
  {
  }

  /** The default whitening parameter loads exactly the constructor's
      sync word, polynomial and flags, keeping the preamble. */
  lemma DefaultWhiteningParam(st: CodecState, text: string)
    requires text == DefaultText(Whitening)
    ensures LoadWhitening(st, text) == Ok(st.(whitening := DefaultConfig.(preamble := st.whitening.preamble)))
  {
    var r := LoadWhitening(st, text);
    assert r.Ok? && r.value.(whitening := st.whitening) == st
      && r.value.whitening.sync == DefaultSync && r.value.whitening.polynomial == DefaultPolynomial
      && r.value.whitening.preamble == st.whitening.preamble
      && [r.value.whitening.applyCrc, r.value.whitening.stripPreamble,
          r.value.whitening.stripSync, r.value.whitening.stripCrc] == [true, true, true, false] by {
      DefaultWhiteningParts();
      LoadWhiteningParts(st, text, "0xe9cae9ca", "0x21", "0xe");
      SyncHex();
      PolynomialHex();
      OptionsHex();
    }
  }
}
