/** `code_substitution` and the text form of its table
    (`get_subst_array` / `get_subst_string`). */
module SubstitutionCode {
  import opened Wrappers
  import opened BitStrings
  import opened Text

  /** The `[src, dst]` pair of lists a substitution keyword carries. */
  datatype SubstTable = SubstTable(src: seq<Bits>, dst: seq<Bits>)

  /** Tables built from text always have as many targets as sources. */
  predicate Paired(t: SubstTable) {
    |t.src| == |t.dst|
  }

  /** `list.count(w)`. */
  function Occurrences(ws: seq<Bits>, w: Bits): (n: nat)
    ensures n == 0 <==> w !in ws
    decreases |ws|
  {
    if |ws| == 0 then 0 else (if ws[0] == w then 1 else 0) + Occurrences(ws[1..], w)
  }

  /** `list.index(w)`: the first position holding `w`. */
  function IndexOf(ws: seq<Bits>, w: Bits): (i: nat)
    requires w in ws
    ensures i < |ws| && ws[i] == w
    ensures forall j :: 0 <= j < i ==> ws[j] != w
    decreases |ws|
  {
    if ws[0] == w then 0 else 1 + IndexOf(ws[1..], w)
  }

  function Min(a: int, b: int): int {
    if a < b then a else b
  }

  /** `inpt[i:i + k]`, cut short at the end of the input. */
  function Window(x: Bits, i: nat, k: nat): (w: Bits)
    requires i <= |x|
    ensures |w| <= k
  {
    x[i .. Min(i + k, |x|)]
  }

  /** `w` sits at two different positions of `ws`. */
  predicate Repeated(ws: seq<Bits>, w: Bits) {
    exists a, b :: 0 <= a < b < |ws| && ws[a] == w && ws[b] == w
  }

  lemma {:induction false} OccurrencesRepeated(ws: seq<Bits>, w: Bits)
    ensures Occurrences(ws, w) >= 2 <==> Repeated(ws, w)
    decreases |ws|
  {
    if |ws| > 0 {
      var t := ws[1..];
      OccurrencesRepeated(t, w);
      if Repeated(ws, w) {
        var a, b :| 0 <= a < b < |ws| && ws[a] == w && ws[b] == w;
        if ws[0] != w {
          assert t[a - 1] == w && t[b - 1] == w;
        } else {
          assert t[b - 1] == w;
        }
      }
      if Occurrences(ws, w) >= 2 {
        if ws[0] == w {
          var b := IndexOf(t, w);
          assert ws[b + 1] == w;
        } else {
          var a, b :| 0 <= a < b < |t| && t[a] == w && t[b] == w;
          assert ws[a + 1] == w && ws[b + 1] == w;
        }
      }
    }
  }

  /** What one window does, by how often it occurs among the sources. */
  datatype Match = Unique(target: Bits) | Missing | Ambiguous

  function Classify(src: seq<Bits>, dst: seq<Bits>, w: Bits): Match
    requires |src| == |dst|
  {
    var cnt := Occurrences(src, w);
    if cnt == 1 then Unique(dst[IndexOf(src, w)])
    else if cnt < 1 then Missing
    else Ambiguous
  }

  /** A window found nowhere is missing, one found at two positions is
      ambiguous, and one found at exactly one position yields the target
      at that position. */
  lemma ClassifyMeaning(src: seq<Bits>, dst: seq<Bits>, w: Bits)
    requires |src| == |dst|
    ensures Classify(src, dst, w).Missing? <==> w !in src
    ensures Classify(src, dst, w).Ambiguous? <==> Repeated(src, w)
    ensures Classify(src, dst, w).Unique? <==> w in src && !Repeated(src, w)
    ensures Classify(src, dst, w).Unique? ==>
              exists j :: 0 <= j < |src| && src[j] == w && Classify(src, dst, w).target == dst[j]
  {
    OccurrencesRepeated(src, w);
  }

  /** How far one turn of the scan loop moves: one position past a
      missing window, the window size otherwise. */
  function Advance(m: Match, k: nat): nat {
    if m.Missing? then 1 else k
  }

  /** One turn of the scan loop, given what the rest of the scan yields: a
      unique window emits its target, a missing one counts an error, an
      ambiguous one does neither. */
  function Step(m: Match, rest: (Bits, int)): (Bits, int) {
    match m
    case Unique(d) => (d + rest.0, rest.1)
    case Missing => (rest.0, rest.1 + 1)
    case Ambiguous => rest
  }

  /** The scan loop from position `i` with window size `|src[0]|`: a
      window found exactly once among the sources emits its target and
      advances by the window size; a window found nowhere is one error and
      advances by one; a window found several times emits nothing, counts
      nothing and advances by the window size. */
  function SubstituteFrom(src: seq<Bits>, dst: seq<Bits>, x: Bits, i: nat): (r: (Bits, int))
    requires |src| == |dst| && |src| > 0
    requires |src[0]| > 0 || i >= |x|
    ensures r.1 >= 0
    decreases |x| - i
  {
    if i >= |x| then ([], 0)
    else
      var m := Classify(src, dst, Window(x, i, |src[0]|));
      Step(m, SubstituteFrom(src, dst, x, i + Advance(m, |src[0]|)))
  }

  /** Every error consumes a position of its own, so there are at most as
      many errors as positions left. */
  lemma {:induction false} ErrorsBounded(src: seq<Bits>, dst: seq<Bits>, x: Bits, i: nat)
    requires |src| == |dst| && |src| > 0
    requires |src[0]| > 0 || i >= |x|
    ensures SubstituteFrom(src, dst, x, i).1 <= if i < |x| then |x| - i else 0
    decreases |x| - i
  {
    if i < |x| {
      var k := |src[0]|;
      var step := if Classify(src, dst, Window(x, i, k)).Missing? then 1 else k;
      ErrorsBounded(src, dst, x, i + step);
    }
  }

  /** The source side for a direction: decoding maps `src` to `dst`,
      encoding swaps them. */
  function From(t: SubstTable, decoding: bool): seq<Bits> {
    if decoding then t.src else t.dst
  }

  function To(t: SubstTable, decoding: bool): seq<Bits> {
    if decoding then t.dst else t.src
  }

  /** The scan terminates: an empty table stops at once, otherwise the
      first source entry of the direction must be non-empty (with an
      empty one the source loops for ever on any non-empty input). */
  predicate Terminates(t: SubstTable, decoding: bool, x: Bits) {
    |t.src| < 1 || |t.dst| < 1 || |x| == 0 || |From(t, decoding)[0]| > 0
  }

  /** `code_substitution` with the table held in the codec state. */
  function Substitution(decoding: bool, t: SubstTable, x: Bits): (r: (Bits, int))
    requires Paired(t) && Terminates(t, decoding, x)
    ensures (|t.src| < 1 || |t.dst| < 1) ==> r == ([], 1)
    ensures |t.src| >= 1 && |x| == 0 ==> r == ([], 0)
    ensures r.1 >= 0
    ensures |t.src| >= 1 ==> r.1 <= |x|
  {
    if |t.src| < 1 || |t.dst| < 1 then ([], 1)
    else
      ErrorsBounded(From(t, decoding), To(t, decoding), x, 0);
      SubstituteFrom(From(t, decoding), To(t, decoding), x, 0)
  }

  // ------------------------------------------------ round trip on words

  /** All entries have width `k` and no entry appears twice. */
  predicate Code(ws: seq<Bits>, k: nat) {
    && k > 0
    && (forall i :: 0 <= i < |ws| ==> |ws[i]| == k)
    && (forall i, j :: 0 <= i < j < |ws| ==> ws[i] != ws[j])
  }

  /** The concatenation of the entries `ws[ix[0]], ws[ix[1]], ...`. */
  function Words(ws: seq<Bits>, ix: seq<nat>): Bits
    requires forall j :: 0 <= j < |ix| ==> ix[j] < |ws|
    decreases |ix|
  {
    if |ix| == 0 then [] else ws[ix[0]] + Words(ws, ix[1..])
  }

  /** Input in which no window is a source entry yields nothing and one
      error per position. */
  lemma {:induction false} NothingMatches(src: seq<Bits>, dst: seq<Bits>, x: Bits, i: nat)
    requires |src| == |dst| && |src| > 0 && |src[0]| > 0 && i <= |x|
    requires forall p :: i <= p < |x| ==> Window(x, p, |src[0]|) !in src
    ensures SubstituteFrom(src, dst, x, i) == ([], |x| - i)
    decreases |x| - i
  {
    if i < |x| {
      ClassifyMeaning(src, dst, Window(x, i, |src[0]|));
      NothingMatches(src, dst, x, i + 1);
    }
  }

  /** With every source entry listed twice, nothing is ever emitted. */
  lemma {:induction false} AllAmbiguous(src: seq<Bits>, dst: seq<Bits>, x: Bits, i: nat)
    requires |src| == |dst| && |src| > 0 && |src[0]| > 0
    requires forall j :: 0 <= j < |src| ==> Repeated(src, src[j])
    ensures SubstituteFrom(src, dst, x, i).0 == []
    decreases |x| - i
  {
    if i < |x| {
      var k := |src[0]|;
      var w := Window(x, i, k);
      if w in src {
        var j :| 0 <= j < |src| && src[j] == w;
        assert Repeated(src, src[j]);
        ClassifyMeaning(src, dst, w);
        AllAmbiguous(src, dst, x, i + k);
      } else {
        AllAmbiguous(src, dst, x, i + 1);
      }
    }
  }

  lemma {:induction false} OccursOnce(ws: seq<Bits>, k: nat, i: nat)
    requires Code(ws, k) && i < |ws|
    ensures Occurrences(ws, ws[i]) == 1 && IndexOf(ws, ws[i]) == i
    decreases |ws|
  {
    if i == 0 {
      assert ws[0] !in ws[1..];
    } else {
      OccursOnce(ws[1..], k, i - 1);
    }
  }

  lemma WindowShift(a: Bits, b: Bits, i: nat, k: nat)
    requires i <= |b|
    ensures Window(a + b, |a| + i, k) == Window(b, i, k)
  {
    var hi := Min(i + k, |b|);
    assert Min(|a| + i + k, |a + b|) == |a| + hi;
    assert (a + b)[|a| + i .. |a| + hi] == b[i .. hi];
  }

  /** Positions before `i` do not matter to the scan. */
  lemma {:induction false} SubstituteShift(src: seq<Bits>, dst: seq<Bits>, a: Bits, b: Bits, i: nat)
    requires |src| == |dst| && |src| > 0 && |src[0]| > 0
    ensures SubstituteFrom(src, dst, a + b, |a| + i) == SubstituteFrom(src, dst, b, i)
    decreases |b| - i
  {
    if i < |b| {
      var k := |src[0]|;
      WindowShift(a, b, i, k);
      var step := Advance(Classify(src, dst, Window(b, i, k)), k);
      SubstituteShift(src, dst, a, b, i + step);
      assert |a| + i + step == |a| + (i + step);
    }
  }

  /** A stream of words of a fixed-width code is translated word by word
      without errors. */
  lemma {:induction false} TranslateWords(src: seq<Bits>, dst: seq<Bits>, k: nat, ix: seq<nat>)
    requires |src| == |dst| && |src| > 0 && Code(src, k)
    requires forall j :: 0 <= j < |ix| ==> ix[j] < |src|
    ensures SubstituteFrom(src, dst, Words(src, ix), 0) == (Words(dst, ix), 0)
    decreases |ix|
  {
    if |ix| > 0 {
      var w := src[ix[0]];
      var rest := Words(src, ix[1..]);
      var x := w + rest;
      assert Window(x, 0, k) == w;
      OccursOnce(src, k, ix[0]);
      SubstituteShift(src, dst, w, rest, 0);
      TranslateWords(src, dst, k, ix[1..]);
    }
  }

  /** For a table whose sources and targets are both fixed-width codes,
      decoding undoes encoding on every stream of target words. */
  lemma SubstitutionRoundTrip(t: SubstTable, ks: nat, kd: nat, ix: seq<nat>)
    requires Paired(t) && |t.src| > 0 && Code(t.src, ks) && Code(t.dst, kd)
    requires forall j :: 0 <= j < |ix| ==> ix[j] < |t.src|
    ensures Substitution(false, t, Words(t.dst, ix)) == (Words(t.src, ix), 0)
    ensures Substitution(true, t, Words(t.src, ix)) == (Words(t.dst, ix), 0)
  {
    TranslateWords(t.dst, t.src, kd, ix);
    TranslateWords(t.src, t.dst, ks, ix);
  }

  /** The target entries the scan emits, as indices into `dst`: one per
      window found exactly once. */
  ghost function Picks(src: seq<Bits>, dst: seq<Bits>, x: Bits, i: nat): (ix: seq<nat>)
    requires |src| == |dst| && |src| > 0
    requires |src[0]| > 0 || i >= |x|
    ensures forall j :: 0 <= j < |ix| ==> ix[j] < |dst|
    decreases |x| - i
  {
    if i >= |x| then []
    else
      var w := Window(x, i, |src[0]|);
      var m := Classify(src, dst, w);
      var rest := Picks(src, dst, x, i + Advance(m, |src[0]|));
      if m.Unique? then [IndexOf(src, w)] + rest else rest
  }

  lemma {:induction false} SubstituteFromPicks(src: seq<Bits>, dst: seq<Bits>, x: Bits, i: nat)
    requires |src| == |dst| && |src| > 0
    requires |src[0]| > 0 || i >= |x|
    ensures SubstituteFrom(src, dst, x, i).0 == Words(dst, Picks(src, dst, x, i))
    decreases |x| - i
  {
    if i < |x| {
      var w := Window(x, i, |src[0]|);
      var m := Classify(src, dst, w);
      var next := i + Advance(m, |src[0]|);
      SubstituteFromPicks(src, dst, x, next);
      if m.Unique? {
        var rest := Picks(src, dst, x, next);
        assert ([IndexOf(src, w)] + rest)[1..] == rest;
      }
    }
  }

  /** Whatever the table, the output is a concatenation of target
      entries. */
  lemma SubstituteFromWords(src: seq<Bits>, dst: seq<Bits>, x: Bits, i: nat)
    requires |src| == |dst| && |src| > 0
    requires |src[0]| > 0 || i >= |x|
    ensures exists ix: seq<nat> :: (forall j :: 0 <= j < |ix| ==> ix[j] < |dst|)
                                    && SubstituteFrom(src, dst, x, i).0 == Words(dst, ix)
  {
    SubstituteFromPicks(src, dst, x, i);
  }

  /** `code_substitution` emits only target entries of its direction. */
  lemma SubstitutionWords(decoding: bool, t: SubstTable, x: Bits)
    requires Paired(t) && Terminates(t, decoding, x)
    ensures exists ix: seq<nat> :: (forall j :: 0 <= j < |ix| ==> ix[j] < |To(t, decoding)|)
                                    && Substitution(decoding, t, x).0 == Words(To(t, decoding), ix)
  {
    if |t.src| < 1 || |t.dst| < 1 {
      assert Substitution(decoding, t, x).0 == Words(To(t, decoding), []);
    } else {
      SubstituteFromWords(From(t, decoding), To(t, decoding), x, 0);
    }
  }

  // ------------------------------------------------------- text form

  /** `get_subst_array` on the `;`-separated elements: empty elements are
      skipped, every other one must split at exactly one ':' (None where
      the source's tuple unpacking raises). */
  function ParseEntries(elems: seq<string>): (r: Option<SubstTable>)
    ensures r.Some? ==> Paired(r.value)
    decreases |elems|
  {
    if |elems| == 0 then Some(SubstTable([], []))
    else if |elems[0]| == 0 then ParseEntries(elems[1..])
    else
      var pair := Split(elems[0], ':');
      if |pair| != 2 then None
      else
        match ParseEntries(elems[1..])
        case None => None
        case Some(t) => Some(SubstTable([StrToBits(pair[0])] + t.src, [StrToBits(pair[1])] + t.dst))
  }

  /** `get_subst_array`. */
  function ParseSubst(s: string): (r: Option<SubstTable>)
    ensures r.Some? ==> Paired(r.value)
  {
    ParseEntries(Split(s, ';'))
  }

  /** One `src:dst;` entry per table row. */
  function Entries(src: seq<Bits>, dst: seq<Bits>): string
    requires |src| == |dst|
    decreases |src|
  {
    if |src| == 0 then ""
    else BitsToStr(src[0]) + ":" + BitsToStr(dst[0]) + ";" + Entries(src[1..], dst[1..])
  }

  /** `get_subst_string`: empty unless the two lists have equal length;
      reading a printed table back gives the table. */
  function PrintSubst(t: SubstTable): (r: string)
    ensures Paired(t) ==> ParseSubst(r) == Some(t)
    ensures !Paired(t) ==> r == ""
  {
    if |t.src| == |t.dst| then
      SplitEntries(t.src, t.dst);
      ParseEntriesOfPrinted(t.src, t.dst, Split(Entries(t.src, t.dst), ';'));
      Entries(t.src, t.dst)
    else ""
  }

  lemma {:induction false} SplitEntries(src: seq<Bits>, dst: seq<Bits>)
    requires |src| == |dst|
    ensures var e := Split(Entries(src, dst), ';');
            |e| == |src| + 1 && e[|src|] == ""
            && forall i :: 0 <= i < |src| ==> e[i] == BitsToStr(src[i]) + ":" + BitsToStr(dst[i])
    decreases |src|
  {
    if |src| == 0 {
    } else {
      var a := BitsToStr(src[0]);
      var b := BitsToStr(dst[0]);
      var item := a + ":" + b;
      BitsToStrIsBinary(src[0]);
      BitsToStrIsBinary(dst[0]);
      assert ';' !in item by {
        forall i | 0 <= i < |item| ensures item[i] != ';' {
          if i < |a| { assert item[i] == a[i]; }
          else if i > |a| { assert item[i] == b[i - |a| - 1]; }
        }
      }
      assert Entries(src, dst) == item + [';'] + Entries(src[1..], dst[1..]);
      SplitAtSeparator(item, ';', Entries(src[1..], dst[1..]));
      SplitEntries(src[1..], dst[1..]);
    }
  }

  lemma SplitItem(a: Bits, b: Bits)
    ensures Split(BitsToStr(a) + ":" + BitsToStr(b), ':') == [BitsToStr(a), BitsToStr(b)]
  {
    var sa := BitsToStr(a);
    var sb := BitsToStr(b);
    BitsToStrIsBinary(a);
    BitsToStrIsBinary(b);
    assert ':' !in sa by {
      forall i | 0 <= i < |sa| ensures sa[i] != ':' { }
    }
    assert ':' !in sb by {
      forall i | 0 <= i < |sb| ensures sb[i] != ':' { }
    }
    SplitAtSeparator(sa, ':', sb);
    SplitNoSeparator(sb, ':');
  }

  lemma {:induction false} ParseEntriesOfPrinted(src: seq<Bits>, dst: seq<Bits>, elems: seq<string>)
    requires |src| == |dst| && |elems| == |src| + 1 && elems[|src|] == ""
    requires forall i :: 0 <= i < |src| ==> elems[i] == BitsToStr(src[i]) + ":" + BitsToStr(dst[i])
    ensures ParseEntries(elems) == Some(SubstTable(src, dst))
    decreases |src|
  {
    if |src| == 0 {
      assert ParseEntries(elems[1..]) == Some(SubstTable([], []));
    } else {
      assert |elems[0]| > 0;
      SplitItem(src[0], dst[0]);
      StrToBitsOfBitsToStr(src[0]);
      StrToBitsOfBitsToStr(dst[0]);
      ParseEntriesOfPrinted(src[1..], dst[1..], elems[1..]);
      assert [src[0]] + src[1..] == src && [dst[0]] + dst[1..] == dst;
    }
  }

  /** The default table "0:1;1:0;" swaps a single bit. */
  lemma DefaultSubstTable()
    ensures ParseSubst("0:1;1:0;") == Some(SubstTable([[false], [true]], [[true], [false]]))
  {
    var t := SubstTable([[false], [true]], [[true], [false]]);
    assert BitsToStr([false]) == "0" && BitsToStr([true]) == "1";
    assert PrintSubst(t) == "0:1;1:0;";
  }
}
