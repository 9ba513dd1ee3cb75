/** `apply_data_whitening`: CRC-guarded keystream whitening behind a sync
    word, with optional removal (when decoding) or insertion (when
    encoding) of the preamble, the sync word and the CRC. */
module DataWhitening {
  import opened Wrappers
  import opened BitStrings
  import opened LfsrKeystream

  /** `len(self.data_whitening_crc)`: the CRC placeholder is 16 zero bits
      and is never reassigned. */
  const CrcWidth: nat := 16

  type Word16 = s: Bits | |s| == 16 witness seq(16, _ => false)

  /** The CRC engine (`crc_generic("16_standard", start_value=True).crc`) is
      not part of this model: any function of the data; only its first 16
      bits are ever used, so it is taken to return exactly those. */
  type CrcEngine = Bits -> Word16

  /** The whitening settings held by the codec. */
  datatype WhiteningConfig = WhiteningConfig(
    sync: Bits,
    polynomial: Bits,
    preamble: Bits,
    applyCrc: bool,
    stripPreamble: bool,
    stripSync: bool,
    stripCrc: bool)

  /** The constructor's CC1101 settings: sync word e9cae9ca, polynomial
      x^5 + x^0 as the eight bits 00100001, a preamble of sixteen "10"
      pairs, CRC applied, preamble and sync stripped, CRC kept. */
  const DefaultSync: Bits := [true, true, true, false, true, false, false, true,
                              true, true, false, false, true, false, true, false,
                              true, true, true, false, true, false, false, true,
                              true, true, false, false, true, false, true, false]
  const DefaultPolynomial: Bits := [false, false, true, false, false, false, false, true]
  const DefaultPreamble: Bits := seq(32, i => i % 2 == 0)
  const DefaultConfig: WhiteningConfig :=
    WhiteningConfig(DefaultSync, DefaultPolynomial, DefaultPreamble, true, true, true, false)

  // ------------------------------------------------------------ helpers

  /** Bitwise exclusive-or of `a` with the start of `k`. */
  function Xor(a: Bits, k: Bits): (r: Bits)
    requires |a| <= |k|
    ensures |r| == |a|
    decreases |a|
  {
    if |a| == 0 then [] else [a[0] != k[0]] + Xor(a[1..], k[1..])
  }

  lemma {:induction false} XorInvolution(a: Bits, k: Bits)
    requires |a| <= |k|
    ensures Xor(Xor(a, k), k) == a
    decreases |a|
  {
    if |a| > 0 {
      var x := Xor(a, k);
      XorInvolution(a[1..], k[1..]);
      assert x[1..] == Xor(a[1..], k[1..]);
    }
  }

  /** Bits `lo .. hi` xor-ed with the keystream from its start; the loops
      `inpt[i] ^= keystream[i - start]` and `inpt[to - 16 + i] ^= crc[i]`. */
  function XorRange(b: Bits, ks: Bits, lo: nat, hi: nat): (r: Bits)
    requires lo <= hi <= |b| && hi - lo <= |ks|
    ensures |r| == |b|
  {
    b[..lo] + Xor(b[lo .. hi], ks) + b[hi..]
  }

  lemma XorRangeInvolution(b: Bits, ks: Bits, lo: nat, hi: nat)
    requires lo <= hi <= |b| && hi - lo <= |ks|
    ensures XorRange(XorRange(b, ks, lo, hi), ks, lo, hi) == b
  {
    var x := Xor(b[lo .. hi], ks);
    var r := XorRange(b, ks, lo, hi);
    assert r[..lo] == b[..lo] && r[lo .. hi] == x && r[hi..] == b[hi..];
    XorInvolution(b[lo .. hi], ks);
    assert b[..lo] + b[lo .. hi] + b[hi..] == b;
  }

  /** Xor-ing a window of the middle part leaves the surrounding parts. */
  lemma XorRangeShift(a: Bits, m: Bits, c: Bits, ks: Bits, lo: nat, hi: nat)
    requires lo <= hi <= |m| && hi - lo <= |ks|
    ensures XorRange(a + m + c, ks, |a| + lo, |a| + hi) == a + XorRange(m, ks, lo, hi) + c
  {
    var b := a + m + c;
    assert b[..|a| + lo] == a + m[..lo];
    assert b[|a| + lo .. |a| + hi] == m[lo .. hi];
    assert b[|a| + hi..] == m[hi..] + c;
    var x := Xor(m[lo .. hi], ks);
    assert a + m[..lo] + x + (m[hi..] + c) == a + (m[..lo] + x + m[hi..]) + c;
  }

  /** Xor-ing the end of a sequence leaves its beginning. */
  lemma XorRangePrefix(b: Bits, ks: Bits, lo: nat, hi: nat)
    requires lo <= hi <= |b| && hi - lo <= |ks|
    ensures XorRange(b, ks, lo, hi)[..lo] == b[..lo]
  {
    assert XorRange(b, ks, lo, hi)[..lo] == b[..lo];
  }

  /** A Python slice `b[lo:hi]` for indices within the buffer: empty when
      `lo > hi`. */
  function PySlice(b: Bits, lo: nat, hi: nat): (r: Bits)
    requires lo <= |b| && hi <= |b|
    ensures |r| == if lo <= hi then hi - lo else 0
  {
    if lo <= hi then b[lo .. hi] else []
  }

  // --------------------------------------------------- the early exits

  /** The end of the input: when decoding, a last bit equal to the one
      before it is the encoder's duplicate and is cut off. */
  function CropEnd(decoding: bool, x: Bits): (to: nat)
    ensures to <= |x| && |x| - 1 <= to
  {
    if decoding && |x| > 1 && x[|x| - 1] == x[|x| - 2] then |x| - 1 else |x|
  }

  /** Nothing to work on: error 31337. */
  predicate Degenerate(cfg: WhiteningConfig, to: nat) {
    to < 1 || |cfg.polynomial| < 1 || |cfg.sync| < 1
  }

  /** The sync word occurs at position `i`. */
  predicate SyncAt(x: Bits, i: nat, sync: Bits) {
    i + |sync| <= |x| && x[i .. i + |sync|] == sync
  }

  /** The search loop from position `i`: positions strictly below
      `to - |sync|` are tried, and the first hit gives the position just
      after the sync word; no hit gives 0. */
  function SyncSearchFrom(x: Bits, to: nat, sync: Bits, i: nat): (start: nat)
    requires i <= to <= |x| && |sync| > 0
    ensures start == 0 || i + |sync| <= start < to
    decreases (to as int) - i
  {
    if i < to - |sync| then
      if x[i .. i + |sync|] == sync then i + |sync|
      else SyncSearchFrom(x, to, sync, i + 1)
    else 0
  }

  /** The search returns 0 exactly when the sync word does not start
      anywhere from `i` up to below `to - |sync|`. */
  lemma {:induction false} SyncSearchFromMisses(x: Bits, to: nat, sync: Bits, i: nat)
    requires i <= to <= |x| && |sync| > 0
    ensures SyncSearchFrom(x, to, sync, i) == 0 <==> forall j :: i <= j < to - |sync| ==> !SyncAt(x, j, sync)
    decreases (to as int) - i
  {
    if i < to - |sync| {
      if x[i .. i + |sync|] == sync {
        assert SyncAt(x, i, sync);
      } else {
        SyncSearchFromMisses(x, to, sync, i + 1);
      }
    }
  }

  /** A non-zero result is the position just after the first occurrence
      of the sync word from `i` on. */
  lemma {:induction false} SyncSearchFromFinds(x: Bits, to: nat, sync: Bits, i: nat)
    requires i <= to <= |x| && |sync| > 0
    ensures var start := SyncSearchFrom(x, to, sync, i);
            start != 0 ==>
              && SyncAt(x, start - |sync|, sync)
              && forall j :: i <= j < start - |sync| ==> !SyncAt(x, j, sync)
    decreases (to as int) - i
  {
    if i < to - |sync| {
      if x[i .. i + |sync|] == sync {
        assert SyncAt(x, i, sync);
      } else {
        assert !SyncAt(x, i, sync);
        SyncSearchFromFinds(x, to, sync, i + 1);
      }
    }
  }

  function SyncSearch(x: Bits, to: nat, sync: Bits): (start: nat)
    requires to <= |x| && |sync| > 0
  {
    SyncSearchFrom(x, to, sync, 0)
  }

  /** The search stops right after the first occurrence of the sync
      word. */
  lemma FirstSync(x: Bits, to: nat, sync: Bits, k: nat)
    requires to <= |x| && |sync| > 0 && k < to - |sync|
    requires SyncAt(x, k, sync) && forall j :: 0 <= j < k ==> !SyncAt(x, j, sync)
    ensures SyncSearch(x, to, sync) == k + |sync|
  {
    SyncSearchFromMisses(x, to, sync, 0);
    SyncSearchFromFinds(x, to, sync, 0);
  }

  /** The end of the whitened region: encoding with CRC removal first
      appends the 16-bit placeholder. */
  function WhitenEnd(cfg: WhiteningConfig, decoding: bool, to: nat): nat {
    if !decoding && cfg.stripCrc then to + CrcWidth else to
  }

  function WhitenBuffer(cfg: WhiteningConfig, decoding: bool, x: Bits): Bits {
    if !decoding && cfg.stripCrc then x + Repeat(false, CrcWidth) else x
  }

  /** The keystream for `m` bits is `KeystreamLength` bits long; fewer bits than the region needs is error 31338. */
  predicate KeystreamShort(poly: Bits, m: nat) {
    KeystreamLength(|poly|, m) < m
  }

  /** The 16-bit CRC block just before the end is touched. */
  predicate UsesCrcBlock(cfg: WhiteningConfig, decoding: bool) {
    cfg.applyCrc || (decoding && cfg.stripCrc)
  }

  /** The CRC block lies inside the buffer whenever the run reaches it.
      With a shorter region the source indexes from the end of the list
      (Python's negative indices), which this model does not follow. */
  predicate CrcBlockInRange(cfg: WhiteningConfig, decoding: bool, x: Bits) {
    var to := CropEnd(decoding, x);
    Degenerate(cfg, to)
    || (var start := SyncSearch(x, to, cfg.sync);
        var end := WhitenEnd(cfg, decoding, to);
        (decoding && start == 0)
        || KeystreamShort(cfg.polynomial, end - start)
        || !UsesCrcBlock(cfg, decoding)
        || end >= CrcWidth)
  }

  // ------------------------------------------------------- the transform

  /** The CRC step: the CRC of the region without its last 16 bits (with
      them when encoding with CRC removal) is xor-ed into those last 16
      bits; when decoding an intact frame this zeroes the stored CRC. */
  function CrcStep(crc: CrcEngine, cfg: WhiteningConfig, decoding: bool, b: Bits,
                   start: nat, end: nat): (r: Bits)
    requires start <= end <= |b|
    requires cfg.applyCrc ==> end >= CrcWidth
    ensures |r| == |b|
  {
    if cfg.applyCrc then
      var data := if !decoding && cfg.stripCrc then b[start .. end] else PySlice(b, start, end - CrcWidth);
      XorRange(b, crc(data), end - CrcWidth, end)
    else b
  }

  /** What decoding returns: the preamble and the sync word (just before
      `start`) and the 16 CRC bits at the end are dropped as configured. */
  function Trim(cfg: WhiteningConfig, b: Bits, start: nat, end: nat): Bits
    requires |cfg.sync| <= start <= end <= |b|
    requires cfg.stripCrc ==> end >= CrcWidth
  {
    var from := (if cfg.stripPreamble then start - |cfg.sync| else 0) + (if cfg.stripSync then |cfg.sync| else 0);
    var to := if cfg.stripCrc then end - CrcWidth else end;
    PySlice(b, from, to)
  }

  /** What encoding returns: the sync word and the preamble put back in
      front as configured, and the last bit repeated. */
  function Frame(cfg: WhiteningConfig, b: Bits): (r: Bits)
    requires |b| > 0
  {
    var framed := (if cfg.stripPreamble then cfg.preamble else []) + (if cfg.stripSync then cfg.sync else []) + b;
    framed + [framed[|framed| - 1]]
  }

  /** Decoding once the keystream is known: xor it over the region
      `start .. end`, run the CRC step, trim. */
  function DecodeRegion(crc: CrcEngine, cfg: WhiteningConfig, buf: Bits,
                        start: nat, end: nat, ks: Bits): (r: Bits)
    requires |cfg.sync| <= start <= end <= |buf| && end - start <= |ks|
    requires UsesCrcBlock(cfg, true) ==> end >= CrcWidth
  {
    Trim(cfg, CrcStep(crc, cfg, true, XorRange(buf, ks, start, end), start, end), start, end)
  }

  /** Encoding once the keystream is known: run the CRC step, xor the
      keystream over the region from `start` to the end, frame. */
  function EncodeRegion(crc: CrcEngine, cfg: WhiteningConfig, buf: Bits,
                        start: nat, ks: Bits): (r: Bits)
    requires start <= |buf| && 0 < |buf| && |buf| - start <= |ks|
    requires cfg.applyCrc ==> |buf| >= CrcWidth
  {
    Frame(cfg, XorRange(CrcStep(crc, cfg, false, buf, start, |buf|), ks, start, |buf|))
  }

  /** The region transform with the keystream the register yields for it. */
  function Transform(crc: CrcEngine, cfg: WhiteningConfig, decoding: bool, buf: Bits,
                     start: nat, end: nat): (r: Bits)
    requires start <= end <= |buf| && 0 < end && !KeystreamShort(cfg.polynomial, end - start)
    requires UsesCrcBlock(cfg, decoding) ==> end >= CrcWidth
    requires decoding ==> start >= |cfg.sync|
    requires !decoding ==> end == |buf|
  {
    var ks := Keystream(cfg.polynomial, end - start);
    if decoding then DecodeRegion(crc, cfg, buf, start, end, ks) else EncodeRegion(crc, cfg, buf, start, ks)
  }

  /** Where the run stops before touching the bits: 31337 when there is
      nothing to work on, 404 when decoding finds no sync word, 31338 when
      the keystream is shorter than the region, 0 when the run goes on. */
  function ExitCode(cfg: WhiteningConfig, decoding: bool, x: Bits): (code: int)
    ensures code in {0, 404, 31337, 31338}
  {
    var to := CropEnd(decoding, x);
    if Degenerate(cfg, to) then 31337
    else
      var start := SyncSearch(x, to, cfg.sync);
      if decoding && start == 0 then 404
      else if KeystreamShort(cfg.polynomial, WhitenEnd(cfg, decoding, to) - start) then 31338
      else 0
  }

  /** 31337 exactly when there is nothing to work on, 404 exactly when
      decoding finds no sync word, and 31338 exactly when neither applies
      and `p * (1 + ceil(m / 8))` keystream bits fall short of the `m`
      bits from the sync word's end to the end of the buffer. */
  lemma ExitCodeMeaning(cfg: WhiteningConfig, decoding: bool, x: Bits)
    ensures var code := ExitCode(cfg, decoding, x);
            var to := CropEnd(decoding, x);
            && (code == 31337 <==> Degenerate(cfg, to))
            && (code == 404 <==>
                  && decoding && !Degenerate(cfg, to)
                  && forall j :: 0 <= j < to - |cfg.sync| ==> !SyncAt(x, j, cfg.sync))
            && (!Degenerate(cfg, to) ==>
                  var start := SyncSearch(x, to, cfg.sync);
                  var m := WhitenEnd(cfg, decoding, to) - start;
                  (code == 31338 <==>
                     !(decoding && start == 0) && |cfg.polynomial| * (1 + (m + 7) / 8) < m))
  {
    var to := CropEnd(decoding, x);
    if !Degenerate(cfg, to) {
      SyncSearchFromMisses(x, to, cfg.sync, 0);
      var start := SyncSearch(x, to, cfg.sync);
      var m := WhitenEnd(cfg, decoding, to) - start;
      TimesIsProduct(|cfg.polynomial|, 1 + (m + 7) / 8);
    }
  }

  /** `apply_data_whitening`, returning the bits and the error code. On an
      error the input comes back cropped (and, for 31338, extended by the
      CRC placeholder) but otherwise unchanged. */
  function Whiten(crc: CrcEngine, cfg: WhiteningConfig, decoding: bool, x: Bits): (r: (Bits, int))
    requires CrcBlockInRange(cfg, decoding, x)
    ensures r.1 == ExitCode(cfg, decoding, x)
    ensures r.1 == 31337 || r.1 == 404 ==> r.0 == x[..CropEnd(decoding, x)]
    ensures r.1 == 31338 ==>
      r.0 == WhitenBuffer(cfg, decoding, x)[..WhitenEnd(cfg, decoding, CropEnd(decoding, x))]
  {
    var code := ExitCode(cfg, decoding, x);
    var to := CropEnd(decoding, x);
    if code == 31337 || code == 404 then (x[..to], code)
    else
      var start := SyncSearch(x, to, cfg.sync);
      var buf := WhitenBuffer(cfg, decoding, x);
      var end := WhitenEnd(cfg, decoding, to);
      if code == 31338 then (buf[..end], code)
      else (Transform(crc, cfg, decoding, buf, start, end), 0)
  }
  // ---------------------------------------------------------- round trip

  predicate DefaultFlags(cfg: WhiteningConfig) {
    cfg.applyCrc && cfg.stripPreamble && cfg.stripSync && !cfg.stripCrc
  }

  predicate NoSyncBefore(x: Bits, n: int, sync: Bits) {
    forall j :: 0 <= j < n ==> !SyncAt(x, j, sync)
  }

  /** Encoding a whole payload with the default flags: CRC xor-ed into
      its last 16 bits, keystream xor-ed over all of it, then framed. */
  lemma EncodeWith(crc: CrcEngine, cfg: WhiteningConfig, p: Bits, ks: Bits)
    requires DefaultFlags(cfg) && |p| >= CrcWidth && |ks| >= |p|
    ensures var n := |p|;
            var w := XorRange(XorRange(p, crc(p[..n - CrcWidth]), n - CrcWidth, n), ks, 0, n);
            EncodeRegion(crc, cfg, p, 0, ks) == cfg.preamble + cfg.sync + w + [w[n - 1]]
  {
    assert PySlice(p, 0, |p| - CrcWidth) == p[..|p| - CrcWidth];
  }

  /** With the default flags decoding keeps exactly the region, after the
      keystream and then the CRC of all but its last 16 bits are xor-ed in. */
  lemma DecodeRegionDefault(crc: CrcEngine, cfg: WhiteningConfig, buf: Bits,
                            start: nat, end: nat, ks: Bits)
    requires DefaultFlags(cfg)
    requires |cfg.sync| <= start && start + CrcWidth <= end <= |buf| && end - start <= |ks|
    ensures var b1 := XorRange(buf, ks, start, end);
            DecodeRegion(crc, cfg, buf, start, end, ks)
              == XorRange(b1, crc(b1[start .. end - CrcWidth]), end - CrcWidth, end)[start .. end]
  {
  }

  /** Xor-ing the keystream over the payload of a frame. */
  lemma FrameXor(ps: Bits, q: Bits, d: bool, ks: Bits, n: nat, h: nat)
    requires n == |q| <= |ks| && h == |ps|
    ensures XorRange(ps + q + [d], ks, h, h + n) == ps + XorRange(q, ks, 0, n) + [d]
  {
    XorRangeShift(ps, q, [d], ks, 0, n);
  }

  /** The CRC step on a frame's payload: its data is the payload without
      the last 16 bits, and what is kept afterwards is the payload with the
      CRC xor-ed into those bits. */
  lemma FrameCrc(ps: Bits, q1: Bits, d: bool, c: Word16, n: nat, h: nat)
    requires n == |q1| >= CrcWidth && h == |ps|
    ensures (ps + q1 + [d])[h .. h + n - CrcWidth] == q1[..n - CrcWidth]
    ensures XorRange(ps + q1 + [d], c, h + n - CrcWidth, h + n)[h .. h + n]
              == XorRange(q1, c, n - CrcWidth, n)
  {
    XorRangeShift(ps, q1, [d], c, n - CrcWidth, n);
    var b2 := ps + XorRange(q1, c, n - CrcWidth, n) + [d];
    assert b2[h .. h + n] == XorRange(q1, c, n - CrcWidth, n);
  }

  /** Decoding a frame `pre ++ sync ++ q ++ [d]` with the default flags:
      the keystream xor-ed over `q` gives `q1`, then the CRC `c` of all but
      the last 16 bits of `q1` is xor-ed into those 16 bits. */
  lemma DecodeWith(crc: CrcEngine, cfg: WhiteningConfig, q: Bits, d: bool, ks: Bits,
                   n: nat, h: nat, q1: Bits, c: Word16)
    requires DefaultFlags(cfg) && n == |q| >= CrcWidth && |ks| >= n
    requires h == |cfg.preamble| + |cfg.sync|
    requires q1 == XorRange(q, ks, 0, n) && c == crc(q1[..n - CrcWidth])
    ensures DecodeRegion(crc, cfg, cfg.preamble + cfg.sync + q + [d], h, h + n, ks)
              == XorRange(q1, c, n - CrcWidth, n)
  {
    var ps := cfg.preamble + cfg.sync;
    DecodeRegionDefault(crc, cfg, ps + q + [d], h, h + n, ks);
    FrameXor(ps, q, d, ks, n, h);
    FrameCrc(ps, q1, d, c, n, h);
  }

  /** With the default flags, encoding a region that is all of `p` gives
      preamble, sync word, the whitened payload and its last bit again. */
  lemma EncodedFrame(crc: CrcEngine, cfg: WhiteningConfig, p: Bits, ks: Bits)
    requires DefaultFlags(cfg) && |p| >= CrcWidth && |ks| >= |p|
    ensures |EncodeRegion(crc, cfg, p, 0, ks)| == |cfg.preamble| + |cfg.sync| + |p| + 1
    ensures EncodeRegion(crc, cfg, p, 0, ks)[..|cfg.preamble| + |cfg.sync|] == cfg.preamble + cfg.sync
    ensures var e := EncodeRegion(crc, cfg, p, 0, ks);
            e[|e| - 1] == e[|e| - 2]
  {
    var n := |p|;
    var w := XorRange(XorRange(p, crc(p[..n - CrcWidth]), n - CrcWidth, n), ks, 0, n);
    EncodeWith(crc, cfg, p, ks);
    var e := cfg.preamble + cfg.sync + w + [w[n - 1]];
    assert e[..|cfg.preamble| + |cfg.sync|] == cfg.preamble + cfg.sync;
  }

  /** The two transforms undo each other for any keystream: decoding the
      region after preamble and sync word of the encoded frame gives `p`
      back. */
  lemma TransformRoundTrip(crc: CrcEngine, cfg: WhiteningConfig, p: Bits, ks: Bits)
    requires DefaultFlags(cfg) && |p| >= CrcWidth && |ks| >= |p|
    ensures var e := EncodeRegion(crc, cfg, p, 0, ks);
            var h := |cfg.preamble| + |cfg.sync|;
            && |e| == h + |p| + 1
            && DecodeRegion(crc, cfg, e, h, h + |p|, ks) == p
  {
    var n := |p|;
    var h := |cfg.preamble| + |cfg.sync|;
    var c := crc(p[..n - CrcWidth]);
    var p1 := XorRange(p, c, n - CrcWidth, n);
    var w := XorRange(p1, ks, 0, n);
    EncodeWith(crc, cfg, p, ks);
    XorRangeInvolution(p1, ks, 0, n);
    XorRangePrefix(p, c, n - CrcWidth, n);
    DecodeWith(crc, cfg, w, w[n - 1], ks, n, h, p1, c);
    XorRangeInvolution(p, c, n - CrcWidth, n);
  }

  /** Decoding a frame that starts with preamble and sync word and ends in
      a repeated bit drops that bit and finds the sync word right after the
      preamble. */
  lemma FrameSyncFound(cfg: WhiteningConfig, e: Bits)
    requires |cfg.sync| >= 1 && |e| >= |cfg.preamble| + |cfg.sync| + 2
    requires e[..|cfg.preamble| + |cfg.sync|] == cfg.preamble + cfg.sync
    requires e[|e| - 1] == e[|e| - 2]
    requires NoSyncBefore(cfg.preamble + cfg.sync, |cfg.preamble|, cfg.sync)
    ensures CropEnd(true, e) == |e| - 1
    ensures SyncSearch(e, |e| - 1, cfg.sync) == |cfg.preamble| + |cfg.sync|
  {
    var ps := cfg.preamble + cfg.sync;
    var h := |ps|;
    assert SyncAt(e, |cfg.preamble|, cfg.sync) by {
      assert e[|cfg.preamble| .. h] == ps[|cfg.preamble| ..];
    }
    forall j | 0 <= j < |cfg.preamble|
      ensures !SyncAt(e, j, cfg.sync)
    {
      assert e[j .. j + |cfg.sync|] == ps[j .. j + |cfg.sync|];
      assert !SyncAt(ps, j, cfg.sync);
    }
    FirstSync(e, |e| - 1, cfg.sync, |cfg.preamble|);
  }

  /** Encoding a payload with no sync word in it runs to the end: the
      region is all of the payload. */
  lemma EncodeRuns(crc: CrcEngine, cfg: WhiteningConfig, p: Bits)
    requires DefaultFlags(cfg) && |cfg.sync| >= 1 && |cfg.polynomial| >= 1
    requires |p| >= CrcWidth
    requires NoSyncBefore(p, |p| - |cfg.sync|, cfg.sync)
    requires !KeystreamShort(cfg.polynomial, |p|)
    ensures CrcBlockInRange(cfg, false, p)
    ensures Whiten(crc, cfg, false, p) == (EncodeRegion(crc, cfg, p, 0, Keystream(cfg.polynomial, |p|)), 0)
  {
    assert CropEnd(false, p) == |p|;
    SyncSearchFromMisses(p, |p|, cfg.sync, 0);
    assert SyncSearch(p, |p|, cfg.sync) == 0;
    assert ExitCode(cfg, false, p) == 0;
  }

  /** Past the early exits, the result is the region transform over the
      buffer from behind the sync word to the end of the region. */
  lemma WhitenProceeds(crc: CrcEngine, cfg: WhiteningConfig, decoding: bool, x: Bits,
                       buf: Bits, start: nat, end: nat)
    requires CrcBlockInRange(cfg, decoding, x) && ExitCode(cfg, decoding, x) == 0
    requires WhitenBuffer(cfg, decoding, x) == buf
    requires SyncSearch(x, CropEnd(decoding, x), cfg.sync) == start
    requires WhitenEnd(cfg, decoding, CropEnd(decoding, x)) == end
    ensures start <= end <= |buf| && 0 < end && !KeystreamShort(cfg.polynomial, end - start)
    ensures UsesCrcBlock(cfg, decoding) ==> end >= CrcWidth
    ensures decoding ==> start >= |cfg.sync|
    ensures !decoding ==> end == |buf|
    ensures Whiten(crc, cfg, decoding, x) == (Transform(crc, cfg, decoding, buf, start, end), 0)
  {
  }

  lemma TransformDecodes(crc: CrcEngine, cfg: WhiteningConfig, buf: Bits, start: nat, end: nat, n: nat)
    requires start <= end <= |buf| && 0 < end && end == start + n && !KeystreamShort(cfg.polynomial, n)
    requires UsesCrcBlock(cfg, true) ==> end >= CrcWidth
    requires start >= |cfg.sync|
    ensures Transform(crc, cfg, true, buf, start, end)
              == DecodeRegion(crc, cfg, buf, start, end, Keystream(cfg.polynomial, n))
  {
    var ks := Keystream(cfg.polynomial, end - start);
    assert ks == Keystream(cfg.polynomial, n) && |ks| >= n;
  }

  /** Decoding a buffer whose duplicated last bit is cut off at `h + n`
      and whose sync word ends at `h` passes the early checks. */
  lemma DecodeAccepted(cfg: WhiteningConfig, e: Bits, h: nat, n: nat)
    requires |cfg.sync| >= 1 && |cfg.polynomial| >= 1
    requires n >= CrcWidth && !KeystreamShort(cfg.polynomial, n) && |e| == h + n + 1
    requires CropEnd(true, e) == h + n && SyncSearch(e, h + n, cfg.sync) == h && h > 0
    ensures CrcBlockInRange(cfg, true, e) && ExitCode(cfg, true, e) == 0
  {
    assert WhitenEnd(cfg, true, h + n) - h == n;
  }

  /** Past the early exits, decoding is the region transform with the
      keystream for the bits between the sync word and the end. */
  lemma WhitenDecodes(crc: CrcEngine, cfg: WhiteningConfig, x: Bits, start: nat, end: nat, n: nat)
    requires CrcBlockInRange(cfg, true, x) && ExitCode(cfg, true, x) == 0
    requires CropEnd(true, x) == end && SyncSearch(x, end, cfg.sync) == start && end == start + n
    ensures |cfg.sync| <= start <= end <= |x| && n <= |Keystream(cfg.polynomial, n)|
    ensures UsesCrcBlock(cfg, true) ==> end >= CrcWidth
    ensures Whiten(crc, cfg, true, x) == (DecodeRegion(crc, cfg, x, start, end, Keystream(cfg.polynomial, n)), 0)
  {
    WhitenProceeds(crc, cfg, true, x, x, start, end);
    TransformDecodes(crc, cfg, x, start, end, n);
  }

  /** A frame of `n` payload bits behind preamble and sync word and with
      a duplicated last bit passes the early checks of decoding, which
      finds the sync word right after the preamble. */
  lemma FrameAccepted(cfg: WhiteningConfig, e: Bits, n: nat)
    requires |cfg.sync| >= 1 && |cfg.polynomial| >= 1
    requires n >= CrcWidth && !KeystreamShort(cfg.polynomial, n)
    requires |e| == |cfg.preamble| + |cfg.sync| + n + 1
    requires e[..|cfg.preamble| + |cfg.sync|] == cfg.preamble + cfg.sync
    requires e[|e| - 1] == e[|e| - 2]
    requires NoSyncBefore(cfg.preamble + cfg.sync, |cfg.preamble|, cfg.sync)
    ensures var h := |cfg.preamble| + |cfg.sync|;
            && CropEnd(true, e) == h + n && SyncSearch(e, h + n, cfg.sync) == h
            && CrcBlockInRange(cfg, true, e) && ExitCode(cfg, true, e) == 0
  {
    var h := |cfg.preamble| + |cfg.sync|;
    FrameSyncFound(cfg, e);
    DecodeAccepted(cfg, e, h, n);
  }

  /** Decoding a frame of `n` payload bits behind preamble and sync word
      and with a duplicated last bit decodes the region between them. */
  lemma DecodeFrame(crc: CrcEngine, cfg: WhiteningConfig, e: Bits, n: nat)
    requires |cfg.sync| >= 1 && |cfg.polynomial| >= 1
    requires n >= CrcWidth && !KeystreamShort(cfg.polynomial, n)
    requires |e| == |cfg.preamble| + |cfg.sync| + n + 1
    requires e[..|cfg.preamble| + |cfg.sync|] == cfg.preamble + cfg.sync
    requires e[|e| - 1] == e[|e| - 2]
    requires NoSyncBefore(cfg.preamble + cfg.sync, |cfg.preamble|, cfg.sync)
    ensures CrcBlockInRange(cfg, true, e)
    ensures var h := |cfg.preamble| + |cfg.sync|;
            Whiten(crc, cfg, true, e) == (DecodeRegion(crc, cfg, e, h, h + n, Keystream(cfg.polynomial, n)), 0)
  {
    var h := |cfg.preamble| + |cfg.sync|;
    FrameAccepted(cfg, e, n);
    WhitenDecodes(crc, cfg, e, h, h + n, n);
  }

  /** The conditions of the round trip below. */
  predicate RoundTripConditions(cfg: WhiteningConfig, p: Bits) {
    && DefaultFlags(cfg) && |cfg.sync| >= 1 && |cfg.polynomial| >= 1
    && |p| >= CrcWidth
    && NoSyncBefore(p, |p| - |cfg.sync|, cfg.sync)
    && !KeystreamShort(cfg.polynomial, |p|)
    && NoSyncBefore(cfg.preamble + cfg.sync, |cfg.preamble|, cfg.sync)
  }

  /** Encoding with the default flags a payload of at least 16 bits that
      holds no sync word where the encoder searches for one (and for which
      the keystream is long enough) succeeds, and frames the payload as
      preamble, sync word, whitened payload and a duplicated last bit. */
  lemma WhiteningFrames(crc: CrcEngine, cfg: WhiteningConfig, p: Bits)
    requires RoundTripConditions(cfg, p)
    ensures CrcBlockInRange(cfg, false, p)
    ensures Whiten(crc, cfg, false, p).1 == 0
    ensures |Whiten(crc, cfg, false, p).0| == |cfg.preamble| + |cfg.sync| + |p| + 1
    ensures Whiten(crc, cfg, false, p).0[..|cfg.preamble| + |cfg.sync|] == cfg.preamble + cfg.sync
  {
    EncodeRuns(crc, cfg, p);
    EncodedFrame(crc, cfg, p, Keystream(cfg.polynomial, |p|));
  }

  /** Whitening round trip with the default flags: decoding the frame the
      encoder builds for such a payload gives the payload back with no
      error. The preamble must not hide an earlier copy of the sync word. */
  lemma WhiteningRoundTrip(crc: CrcEngine, cfg: WhiteningConfig, p: Bits)
    requires RoundTripConditions(cfg, p)
    ensures CrcBlockInRange(cfg, false, p)
    ensures CrcBlockInRange(cfg, true, Whiten(crc, cfg, false, p).0)
    ensures Whiten(crc, cfg, true, Whiten(crc, cfg, false, p).0) == (p, 0)
  {
    var ks := Keystream(cfg.polynomial, |p|);
    EncodeRuns(crc, cfg, p);
    EncodedFrame(crc, cfg, p, ks);
    TransformRoundTrip(crc, cfg, p, ks);
    DecodeFrame(crc, cfg, EncodeRegion(crc, cfg, p, 0, ks), |p|);
  }

  // ------------------------------------------------ the default settings

  /** In the default frame the sync word cannot start inside the
      alternating preamble: every window starting there begins with two
      different bits (or, at the last preamble bit, with a zero), while
      the sync word begins with "11". */
  lemma DefaultSyncNotInPreamble()
    ensures NoSyncBefore(DefaultPreamble + DefaultSync, |DefaultPreamble|, DefaultSync)
  {
    var ps := DefaultPreamble + DefaultSync;
    forall j | 0 <= j < |DefaultPreamble|
      ensures !SyncAt(ps, j, DefaultSync)
    {
      var w := ps[j .. j + 32];
      assert DefaultSync[0] && DefaultSync[1];
      if j < 31 {
        assert w[0] == DefaultPreamble[j] && w[1] == DefaultPreamble[j + 1];
        assert DefaultPreamble[j] != DefaultPreamble[j + 1];
        assert w[0] != w[1];
      } else {
        assert w[0] == DefaultPreamble[31] == false;
      }
      assert w != DefaultSync;
    }
  }

  /** The default eight-bit polynomial always yields enough keystream. */
  lemma DefaultKeystreamLongEnough(m: nat)
    ensures !KeystreamShort(DefaultPolynomial, m)
  {
    TimesIsProduct(|DefaultPolynomial|, 1 + (m + 7) / 8);
  }

  /** The round trip for the constructor's settings: a payload of at
      least 16 bits without the sync word becomes a frame 65 bits longer
      (32 preamble, 32 sync, 1 duplicated) and decodes back to itself. */
  lemma DefaultWhiteningRoundTrip(crc: CrcEngine, p: Bits)
    requires |p| >= CrcWidth
    requires NoSyncBefore(p, |p| - 32, DefaultSync)
    ensures CrcBlockInRange(DefaultConfig, false, p)
    ensures Whiten(crc, DefaultConfig, false, p).1 == 0
    ensures |Whiten(crc, DefaultConfig, false, p).0| == |p| + 65
    ensures CrcBlockInRange(DefaultConfig, true, Whiten(crc, DefaultConfig, false, p).0)
    ensures Whiten(crc, DefaultConfig, true, Whiten(crc, DefaultConfig, false, p).0) == (p, 0)
  {
    DefaultSyncNotInPreamble();
    DefaultKeystreamLongEnough(|p|);
    WhiteningFrames(crc, DefaultConfig, p);
    WhiteningRoundTrip(crc, DefaultConfig, p);
  }
}
