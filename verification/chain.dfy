/** The stage chain of an encoding and its textual form (`set_chain`,
    `get_chain`). The text is a list of tokens: the encoding's name, then
    stage keywords, each of the five parameterised stages followed by one
    parameter token. The chain itself is the flat list the source keeps:
    the name, then for every stage its operation and, where it takes one,
    its parameter. */
module ChainConfig {
  import opened Wrappers
  import opened BitStrings
  import opened Text
  import opened SubstitutionCode
  import opened Sequences

  datatype Op = Invert | Differential | Redundancy | Whitening | Carrier | BitOrder | Edge | Substitution | External

  /** The keyword strings of the stages (`constants.DECODING_*`). The
      constants are not part of this model, so the vocabulary is a
      parameter; a token names a stage when the keyword occurs in it. */
  datatype Vocabulary = Vocabulary(
    invert: string,
    differential: string,
    redundancy: string,
    whitening: string,
    carrier: string,
    bitOrder: string,
    edge: string,
    substitution: string,
    external: string)

  function Keyword(v: Vocabulary, op: Op): string {
    match op
    case Invert => v.invert
    case Differential => v.differential
    case Redundancy => v.redundancy
    case Whitening => v.whitening
    case Carrier => v.carrier
    case BitOrder => v.bitOrder
    case Edge => v.edge
    case Substitution => v.substitution
    case External => v.external
  }

  /** The position of a stage in the order `set_chain` tests the keywords. */
  function Rank(op: Op): nat {
    match op
    case Invert => 0
    case Differential => 1
    case Redundancy => 2
    case Whitening => 3
    case Carrier => 4
    case BitOrder => 5
    case Edge => 6
    case Substitution => 7
    case External => 8
  }

  /** The stage a token names: the first keyword, in test order, that
      occurs in the token. */
  function Classify(v: Vocabulary, token: string): Option<Op> {
    if Contains(token, v.invert) then Some(Invert)
    else if Contains(token, v.differential) then Some(Differential)
    else if Contains(token, v.redundancy) then Some(Redundancy)
    else if Contains(token, v.whitening) then Some(Whitening)
    else if Contains(token, v.carrier) then Some(Carrier)
    else if Contains(token, v.bitOrder) then Some(BitOrder)
    else if Contains(token, v.edge) then Some(Edge)
    else if Contains(token, v.substitution) then Some(Substitution)
    else if Contains(token, v.external) then Some(External)
    else None
  }

  /** A token names `op` exactly when `op`'s keyword occurs in it and no
      keyword earlier in the `set_chain` order does; it names nothing when
      no keyword occurs. */
  lemma ClassifyMeaning(v: Vocabulary, token: string, op: Op)
    ensures Classify(v, token) == Some(op)
            <==> Contains(token, Keyword(v, op))
                 && forall o: Op :: Rank(o) < Rank(op) ==> !Contains(token, Keyword(v, o))
    ensures Classify(v, token) == None <==> forall o: Op :: !Contains(token, Keyword(v, o))
  {
    assert Keyword(v, Invert) == v.invert && Keyword(v, Differential) == v.differential;
    assert Keyword(v, Redundancy) == v.redundancy && Keyword(v, Whitening) == v.whitening;
    assert Keyword(v, Carrier) == v.carrier && Keyword(v, BitOrder) == v.bitOrder;
    assert Keyword(v, Edge) == v.edge && Keyword(v, Substitution) == v.substitution;
    assert Keyword(v, External) == v.external;
    if Classify(v, token) == Some(op) {
      forall o: Op | Rank(o) < Rank(op) ensures !Contains(token, Keyword(v, o)) {
        match o
        case Invert =>
        case Differential =>
        case Redundancy =>
        case Whitening =>
        case Carrier =>
        case BitOrder =>
        case Edge =>
        case Substitution =>
        case External =>
      }
    }
    if Classify(v, token) == None {
      forall o: Op ensures !Contains(token, Keyword(v, o)) {
        match o
        case Invert =>
        case Differential =>
        case Redundancy =>
        case Whitening =>
        case Carrier =>
        case BitOrder =>
        case Edge =>
        case Substitution =>
        case External =>
      }
    }
  }

  /** Every keyword names its own stage: no keyword contains one that comes
      before it. */
  predicate Recognised(v: Vocabulary) {
    forall op: Op :: Classify(v, Keyword(v, op)) == Some(op)
  }

  predicate HasParam(op: Op) {
    op == Redundancy || op == Whitening || op == Carrier || op == Substitution || op == External
  }

  /** One entry of the chain list. */
  datatype Item =
    | Label(name: string)          // the encoding's name, always first
    | Step(op: Op)                 // a stage's transform
    | Token(text: string)          // a redundancy, whitening or external parameter, kept as text
    | BitList(bits: Bits)          // a carrier parameter, read with `str2bit`
    | Table(table: SubstTable)     // a substitution parameter, read with `get_subst_array`

  type Chain = seq<Item>

  /** The parameter entry a stage's parameter token becomes; None where
      `get_subst_array` raises. */
  function ParamOf(op: Op, token: string): (r: Option<Item>)
    requires HasParam(op)
    ensures r.Some? ==> Fits(op, r.value)
    ensures op != Substitution ==> r.Some?
  {
    match op
    case Carrier => Some(BitList(StrToBits(token)))
    case Substitution =>
      (match ParseSubst(token)
       case None => None
       case Some(t) => Some(Table(t)))
    case _ => Some(Token(token))
  }

  /** The parameter token used when a parameterised keyword is the last
      token. The redundancy default is the integer 2 in the source; here it
      is its text. */
  function DefaultText(op: Op): string
    requires HasParam(op)
  {
    if op == Redundancy then "2"
    else if op == Whitening then "0xe9cae9ca;0x21;0xe"
    else if op == Carrier then "1"
    else if op == Substitution then "0:1;1:0;"
    else "./;./"
  }

  /** The kind of parameter entry each parameterised stage holds. */
  predicate Fits(op: Op, item: Item) {
    match op
    case Carrier => item.BitList?
    case Substitution => item.Table? && Paired(item.table)
    case _ => item.Token?
  }

  /** Both parts present, joined; None if either failed. */
  function Cat(a: Option<Chain>, b: Option<Chain>): (r: Option<Chain>)
    ensures r.Some? <==> a.Some? && b.Some?
    ensures r.Some? ==> r.value == a.value + b.value
  {
    if a.Some? && b.Some? then Some(a.value + b.value) else None
  }

  function Slot(op: Op, param: Option<Item>): Option<Chain> {
    if param.None? then None else Some([Step(op), param.value])
  }

  // ------------------------------------------------------------ set_chain

  /** The `set_chain` loop over the tokens after the name: a token naming a
      stage appends it; a parameterised one also consumes the next token,
      or takes the default when it is the last token; any other token is
      dropped. */
  function Scan(v: Vocabulary, ts: seq<string>): (r: Option<Chain>)
    ensures r.Some? ==> Slots(r.value)
    decreases |ts|
  {
    if |ts| == 0 then Some([])
    else
      match Classify(v, ts[0])
      case None => Scan(v, ts[1..])
      case Some(op) =>
        if !HasParam(op) then Cat(Some([Step(op)]), Scan(v, ts[1..]))
        else if |ts| == 1 then Slot(op, ParamOf(op, DefaultText(op)))
        else Cat(Slot(op, ParamOf(op, ts[1])), Scan(v, ts[2..]))
  }

  /** `set_chain(names)`: an empty list keeps the current chain; otherwise
      the name followed by the scanned stages. None where the source raises
      on a malformed substitution parameter. */
  function SetChain(v: Vocabulary, current: Chain, names: seq<string>): (r: Option<Chain>)
    ensures |names| == 0 ==> r == Some(current)
    ensures |names| > 0 && r.Some? ==> WellFormed(r.value) && |r.value| >= 1 && r.value[0] == Label(names[0])
  {
    if |names| < 1 then Some(current)
    else Cat(Some([Label(names[0])]), Scan(v, names[1..]))
  }

  // ------------------------------------------------------------ chain shape

  /** A list of stage entries: each operation followed by its parameter
      exactly when it takes one. */
  predicate Slots(s: Chain)
    decreases |s|
  {
    |s| == 0
    || (s[0].Step?
        && if HasParam(s[0].op) then |s| >= 2 && Fits(s[0].op, s[1]) && Slots(s[2..])
           else Slots(s[1..]))
  }

  /** The chains `set_chain` builds, and the constructor's empty chain. */
  predicate WellFormed(c: Chain) {
    |c| == 0 || (c[0].Label? && Slots(c[1..]))
  }

  /** One stage with its parameter entry. */
  datatype Stage = Stage(op: Op, param: Option<Item>)

  predicate StageOk(s: Stage) {
    (HasParam(s.op) <==> s.param.Some?) && (s.param.Some? ==> Fits(s.op, s.param.value))
  }

  predicate AllOk(ss: seq<Stage>) {
    forall k :: 0 <= k < |ss| ==> StageOk(ss[k])
  }

  /** The chain entries of one stage. */
  function Piece(s: Stage): (p: Chain)
    ensures 1 <= |p| <= 2 && p[0] == Step(s.op)
    ensures |p| == 2 <==> s.param.Some?
  {
    [Step(s.op)] + (if s.param.Some? then [s.param.value] else [])
  }

  function Flatten(ss: seq<Stage>): Chain
    decreases |ss|
  {
    if |ss| == 0 then [] else Piece(ss[0]) + Flatten(ss[1..])
  }

  /** The stages of a list of stage entries, in chain order. */
  function Stages(s: Chain): (ss: seq<Stage>)
    requires Slots(s)
    ensures AllOk(ss)
    decreases |s|
  {
    if |s| == 0 then []
    else if HasParam(s[0].op) then [Stage(s[0].op, Some(s[1]))] + Stages(s[2..])
    else [Stage(s[0].op, None)] + Stages(s[1..])
  }

  lemma {:induction false} FlattenStages(s: Chain)
    requires Slots(s)
    ensures Flatten(Stages(s)) == s
    decreases |s|
  {
    if |s| > 0 {
      var n := if HasParam(s[0].op) then 2 else 1;
      var x := Stage(s[0].op, if n == 2 then Some(s[1]) else None);
      assert Stages(s) == [x] + Stages(s[n..]);
      assert Piece(x) == s[..n] by {
        assert s[0] == Step(s[0].op);
      }
      assert Flatten([x] + Stages(s[n..])) == Piece(x) + Flatten(Stages(s[n..])) by {
        assert ([x] + Stages(s[n..]))[1..] == Stages(s[n..]);
      }
      FlattenStages(s[n..]);
      assert s == s[..n] + s[n..];
    }
  }

  lemma {:induction false} FlattenAppend(a: seq<Stage>, b: seq<Stage>)
    ensures Flatten(a + b) == Flatten(a) + Flatten(b)
    decreases |a|
  {
    if |a| > 0 {
      assert (a + b)[1..] == a[1..] + b;
      FlattenAppend(a[1..], b);
    } else {
      assert a + b == b;
    }
  }

  // ------------------------------------------------------------ get_chain

  /** What `get_chain` prints for a parameter entry: the text itself, the
      carrier bits with `bit2str`, the table with `get_subst_string`. */
  function RenderParam(op: Op, item: Item): string
    requires HasParam(op) && Fits(op, item)
  {
    match op
    case Carrier => BitsToStr(item.bits)
    case Substitution => PrintSubst(item.table)
    case _ => item.text
  }

  /** The `get_chain` loop over the entries after the name: each stage's
      keyword, then its printed parameter. */
  function Render(v: Vocabulary, s: Chain): (r: seq<string>)
    requires Slots(s)
    ensures |r| == |s|
    decreases |s|
  {
    if |s| == 0 then []
    else if HasParam(s[0].op) then [Keyword(v, s[0].op), RenderParam(s[0].op, s[1])] + Render(v, s[2..])
    else [Keyword(v, s[0].op)] + Render(v, s[1..])
  }

  /** `get_chain()`; the source reads `chain[0]`, so the chain is not empty. */
  function GetChain(v: Vocabulary, c: Chain): (r: seq<string>)
    requires WellFormed(c) && |c| >= 1
    ensures |r| == |c| && r[0] == c[0].name
  {
    [c[0].name] + Render(v, c[1..])
  }

  // ------------------------------------------------------------ round trips

  /** Reading back a printed parameter gives the parameter entry. */
  lemma ParamOfRendered(op: Op, item: Item)
    requires HasParam(op) && Fits(op, item)
    ensures ParamOf(op, RenderParam(op, item)) == Some(item)
  {
    match op
    case Carrier => StrToBitsOfBitsToStr(item.bits);
    case Substitution =>
    case _ =>
  }

  lemma {:induction false} ScanRender(v: Vocabulary, s: Chain)
    requires Recognised(v) && Slots(s)
    ensures Scan(v, Render(v, s)) == Some(s)
    decreases |s|
  {
    if |s| > 0 {
      var op := s[0].op;
      var ts := Render(v, s);
      assert Classify(v, Keyword(v, op)) == Some(op);
      if HasParam(op) {
        ParamOfRendered(op, s[1]);
        assert ts[2..] == Render(v, s[2..]);
        ScanRender(v, s[2..]);
        assert s == [s[0], s[1]] + s[2..];
      } else {
        assert ts[1..] == Render(v, s[1..]);
        ScanRender(v, s[1..]);
        assert s == [s[0]] + s[1..];
      }
    }
  }

  /** Printing a chain and setting it again gives the same chain, provided
      every keyword names its own stage. */
  lemma ChainTextRoundTrip(v: Vocabulary, current: Chain, c: Chain)
    requires Recognised(v) && WellFormed(c) && |c| >= 1
    ensures SetChain(v, current, GetChain(v, c)) == Some(c)
  {
    ScanRender(v, c[1..]);
    assert GetChain(v, c)[1..] == Render(v, c[1..]);
    assert c == [c[0]] + c[1..];
  }

  /** Parameter text that comes back verbatim: carriers written in 0 and 1,
      substitution tables as `get_subst_string` prints them, any text for
      the others. */
  predicate CanonicalParam(op: Op, token: string)
    requires HasParam(op)
  {
    match op
    case Carrier => IsBinary(token)
    case Substitution => ParseSubst(token).Some? && PrintSubst(ParseSubst(token).value) == token
    case _ => true
  }

  /** Tokens as `get_chain` prints them: each one exactly a keyword, each
      parameterised keyword followed by canonical parameter text. */
  predicate CanonicalTokens(v: Vocabulary, ts: seq<string>)
    decreases |ts|
  {
    |ts| == 0
    || match Classify(v, ts[0])
       case None => false
       case Some(op) =>
         ts[0] == Keyword(v, op)
         && if HasParam(op) then |ts| >= 2 && CanonicalParam(op, ts[1]) && CanonicalTokens(v, ts[2..])
            else CanonicalTokens(v, ts[1..])
  }

  lemma RenderedParamOf(op: Op, token: string)
    requires HasParam(op) && CanonicalParam(op, token)
    ensures ParamOf(op, token).Some? && RenderParam(op, ParamOf(op, token).value) == token
  {
    if op == Carrier {
      BitsToStrOfStrToBits(token);
    }
  }

  lemma {:induction false} RenderScan(v: Vocabulary, ts: seq<string>)
    requires CanonicalTokens(v, ts)
    ensures Scan(v, ts).Some? && Render(v, Scan(v, ts).value) == ts
    decreases |ts|
  {
    if |ts| > 0 {
      var op := Classify(v, ts[0]).value;
      if HasParam(op) {
        RenderedParamOf(op, ts[1]);
        RenderScan(v, ts[2..]);
        assert ts == [ts[0], ts[1]] + ts[2..];
      } else {
        RenderScan(v, ts[1..]);
        assert ts == [ts[0]] + ts[1..];
      }
    }
  }

  /** Setting a chain from printed tokens and printing it again gives the
      tokens back: the name, each keyword, each parameter verbatim. */
  lemma TextChainRoundTrip(v: Vocabulary, current: Chain, names: seq<string>)
    requires |names| >= 1 && CanonicalTokens(v, names[1..])
    ensures SetChain(v, current, names).Some?
    ensures GetChain(v, SetChain(v, current, names).value) == names
  {
    RenderScan(v, names[1..]);
    var c := SetChain(v, current, names).value;
    assert c[1..] == Scan(v, names[1..]).value;
    assert names == [names[0]] + names[1..];
  }

  /** A carrier token is read with `str2bit`, so printing it back turns
      every character other than '1' into '0'. */
  lemma CarrierTokenNormalised(v: Vocabulary, current: Chain, name: string, token: string)
    requires Recognised(v)
    ensures var c := SetChain(v, current, [name, Keyword(v, Carrier), token]);
            c.Some?
            && GetChain(v, c.value) == [name, Keyword(v, Carrier), seq(|token|, i requires 0 <= i < |token| => if token[i] == '1' then '1' else '0')]
  {
    var kw := Keyword(v, Carrier);
    assert Classify(v, kw) == Some(Carrier);
    var ts := [kw, token];
    assert ts[0] == kw && ts[1] == token && ts[2..] == [];
    var tail: Chain := [Step(Carrier), BitList(StrToBits(token))];
    assert ParamOf(Carrier, token) == Some(BitList(StrToBits(token)));
    assert Scan(v, ts) == Cat(Slot(Carrier, ParamOf(Carrier, ts[1])), Scan(v, ts[2..]));
    assert Scan(v, ts[2..]) == Some([]) && tail + [] == tail;
    assert Scan(v, ts) == Some(tail);
    assert [name, kw, token][1..] == ts;
    var c: Chain := [Label(name)] + tail;
    assert SetChain(v, current, [name, kw, token]) == Some(c);
    assert c[1..] == tail && tail[2..] == [];
    assert Render(v, tail) == [kw, BitsToStr(StrToBits(token))];
    assert GetChain(v, c) == [name] + Render(v, tail);
    assert BitsToStr(StrToBits(token)) == seq(|token|, i requires 0 <= i < |token| => if token[i] == '1' then '1' else '0');
  }

  // ------------------------------------------------------------ token lists

  /** Tokens the scan consumes completely: no parameterised keyword is left
      at the end looking for a parameter beyond them. */
  predicate Complete(v: Vocabulary, ts: seq<string>)
    decreases |ts|
  {
    |ts| == 0
    || match Classify(v, ts[0])
       case None => Complete(v, ts[1..])
       case Some(op) =>
         if HasParam(op) then |ts| >= 2 && Complete(v, ts[2..]) else Complete(v, ts[1..])
  }

  lemma {:induction false} ScanAppend(v: Vocabulary, a: seq<string>, b: seq<string>)
    requires Complete(v, a)
    ensures Scan(v, a + b) == Cat(Scan(v, a), Scan(v, b))
    decreases |a|
  {
    if |a| == 0 {
      assert a + b == b;
      assert Scan(v, a) == Some([]);
      if Scan(v, b).Some? {
        assert [] + Scan(v, b).value == Scan(v, b).value;
      }
    } else {
      var ab := a + b;
      assert ab[0] == a[0];
      var k := Classify(v, a[0]);
      if k.None? {
        assert ab[1..] == a[1..] + b;
        assert Scan(v, ab) == Scan(v, ab[1..]);
        ScanAppend(v, a[1..], b);
      } else if HasParam(k.value) {
        var op := k.value;
        assert |a| >= 2 && Complete(v, a[2..]);
        assert ab[1] == a[1];
        assert ab[2..] == a[2..] + b;
        var head := Slot(op, ParamOf(op, a[1]));
        assert Scan(v, ab) == Cat(head, Scan(v, ab[2..]));
        assert Scan(v, a) == Cat(head, Scan(v, a[2..]));
        ScanAppend(v, a[2..], b);
        CatAssoc(head, Scan(v, a[2..]), Scan(v, b));
      } else {
        var op := k.value;
        assert ab[1..] == a[1..] + b;
        assert Scan(v, ab) == Cat(Some([Step(op)]), Scan(v, ab[1..]));
        assert Scan(v, a) == Cat(Some([Step(op)]), Scan(v, a[1..]));
        ScanAppend(v, a[1..], b);
        CatAssoc(Some([Step(op)]), Scan(v, a[1..]), Scan(v, b));
      }
    }
  }

  /** A token naming no stage is dropped. */
  lemma ScanSkips(v: Vocabulary, u: string, b: seq<string>)
    requires Classify(v, u) == None
    ensures Scan(v, [u] + b) == Scan(v, b)
  {
    assert ([u] + b)[0] == u && ([u] + b)[1..] == b;
  }

  lemma CatAssoc(a: Option<Chain>, b: Option<Chain>, c: Option<Chain>)
    ensures Cat(Cat(a, b), c) == Cat(a, Cat(b, c))
  {
    if a.Some? && b.Some? && c.Some? {
      assert a.value + b.value + c.value == a.value + (b.value + c.value);
    }
  }

  /** A token that names no stage can be inserted between complete token
      lists without changing the chain. */
  lemma DropUnrecognised(v: Vocabulary, current: Chain, name: string, a: seq<string>, u: string, b: seq<string>)
    requires Complete(v, a) && Classify(v, u) == None
    ensures SetChain(v, current, [name] + a + [u] + b) == SetChain(v, current, [name] + a + b)
  {
    Regroup4([name], a, [u], b);
    DropFirst(name, a + ([u] + b));
    DropFirst(name, a + b);
    ScanAppend(v, a, [u] + b);
    ScanSkips(v, u, b);
    ScanAppend(v, a, b);
  }

  lemma {:induction false} CanonicalComplete(v: Vocabulary, ts: seq<string>)
    requires CanonicalTokens(v, ts)
    ensures Complete(v, ts)
    decreases |ts|
  {
    if |ts| > 0 {
      var op := Classify(v, ts[0]).value;
      if HasParam(op) {
        CanonicalComplete(v, ts[2..]);
      } else {
        CanonicalComplete(v, ts[1..]);
      }
    }
  }

  lemma DefaultSubstPrinted()
    ensures PrintSubst(SubstTable([[false], [true]], [[true], [false]])) == "0:1;1:0;"
  {
    assert BitsToStr([false]) == "0" && BitsToStr([true]) == "1";
  }

  /** The default tables and carrier print back as the default text. */
  lemma DefaultTextRoundTrip(op: Op)
    requires HasParam(op)
    ensures ParamOf(op, DefaultText(op)).Some?
    ensures RenderParam(op, ParamOf(op, DefaultText(op)).value) == DefaultText(op)
  {
    var d := DefaultText(op);
    if op == Substitution {
      DefaultSubstRoundTrip(d);
    } else if op == Carrier {
      assert IsBinary(d) by {
        assert d == "1";
      }
      BitsToStrOfStrToBits(d);
    }
  }

  lemma DefaultSubstRoundTrip(d: string)
    requires d == "0:1;1:0;"
    ensures ParamOf(Substitution, d).Some?
    ensures RenderParam(Substitution, ParamOf(Substitution, d).value) == d
  {
    DefaultSubstTable();
    DefaultSubstPrinted();
  }

  /** A parameterised keyword as the last token takes its default: the
      printed chain ends with 2, "0xe9cae9ca;0x21;0xe", "1", "0:1;1:0;" or
      "./;./" for redundancy, whitening, carrier, substitution and external. */
  lemma TrailingDefault(v: Vocabulary, current: Chain, names: seq<string>, op: Op)
    requires Recognised(v) && HasParam(op)
    requires |names| >= 1 && CanonicalTokens(v, names[1..])
    ensures var c := SetChain(v, current, names + [Keyword(v, op)]);
            c.Some? && GetChain(v, c.value) == names + [Keyword(v, op), DefaultText(op)]
  {
    var ts := names[1..];
    var kw := Keyword(v, op);
    var d := [kw, DefaultText(op)];
    assert Classify(v, kw) == Some(op);
    DefaultTextRoundTrip(op);
    var p := ParamOf(op, DefaultText(op)).value;
    var tail: Chain := [Step(op), p];
    assert Scan(v, [kw]) == Some(tail);
    assert Scan(v, d) == Some(tail) by {
      assert d[0] == kw && d[1] == DefaultText(op) && d[2..] == [];
      assert Scan(v, d) == Cat(Slot(op, ParamOf(op, d[1])), Scan(v, d[2..]));
      assert tail + [] == tail;
    }
    assert CanonicalTokens(v, d) by {
      assert d[2..] == [];
    }
    CanonicalAppend(v, ts, d);
    CanonicalComplete(v, ts);
    ScanAppend(v, ts, [kw]);
    ScanAppend(v, ts, d);
    RenderScan(v, ts + d);
    assert (names + [kw])[1..] == ts + [kw];
    assert names == [names[0]] + ts;
  }

  /** The width of the canonical stage at the head of `ts`. */
  function HeadWidth(v: Vocabulary, ts: seq<string>): (n: nat)
    requires |ts| > 0 && CanonicalTokens(v, ts)
    ensures n <= |ts| && CanonicalTokens(v, ts[n..])
  {
    if HasParam(Classify(v, ts[0]).value) then 2 else 1
  }

  /** A canonical list stays canonical when something canonical follows it
      instead of its tail. */
  lemma CanonicalHead(v: Vocabulary, ts: seq<string>, u: seq<string>)
    requires |ts| > 0 && CanonicalTokens(v, ts) && CanonicalTokens(v, u)
    ensures CanonicalTokens(v, ts[..HeadWidth(v, ts)] + u)
  {
    var n := HeadWidth(v, ts);
    var t := ts[..n] + u;
    assert t[0] == ts[0] && t[n..] == u;
    if n == 2 {
      assert t[1] == ts[1];
    }
  }

  /** Canonical token lists stay canonical when joined. */
  lemma {:induction false} CanonicalAppend(v: Vocabulary, a: seq<string>, b: seq<string>)
    requires CanonicalTokens(v, a) && CanonicalTokens(v, b)
    ensures CanonicalTokens(v, a + b)
    decreases |a|
  {
    if |a| == 0 {
      assert a + b == b;
    } else {
      var n := HeadWidth(v, a);
      CanonicalAppend(v, a[n..], b);
      CanonicalHead(v, a, a[n..] + b);
      RejoinAt(a, b, n);
    }
  }
}
