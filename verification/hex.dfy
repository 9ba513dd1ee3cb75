/** `hex2bit` and `bit2hex`: hexadecimal text <-> bit strings.

    The source goes through a Python integer (`int(s, 16)`, `bin`, `hex`);
    the model works digit by digit, which gives the same strings: `bin`
    drops leading zero bits, the left padding to a multiple of four puts
    back only the zeros of the first significant digit, so the result is
    the four-bit expansion of the significant hex digits (a single zero
    digit for the value 0). */
module HexCodec {
  import opened BitStrings

  predicate IsHexDigit(c: char) {
    ('0' <= c <= '9') || ('a' <= c <= 'f') || ('A' <= c <= 'F')
  }

  predicate IsHexDigits(s: string) {
    |s| > 0 && forall i :: 0 <= i < |s| ==> IsHexDigit(s[i])
  }

  function DigitValue(c: char): (v: nat)
    requires IsHexDigit(c)
    ensures v < 16
  {
    if '0' <= c <= '9' then (c - '0') as nat
    else if 'a' <= c <= 'f' then (c - 'a') as nat + 10
    else (c - 'A') as nat + 10
  }

  /** The lower-case digit `hex()` prints for a value below 16. */
  function HexChar(v: nat): (c: char)
    requires v < 16
    ensures IsHexDigit(c) && DigitValue(c) == v
  {
    if v < 10 then ('0' as int + v) as char else ('a' as int + v - 10) as char
  }

  /** Four bits, most significant first. */
  function NibbleBits(v: nat): (b: Bits)
    requires v < 16
    ensures |b| == 4
  {
    [(v / 8) % 2 == 1, (v / 4) % 2 == 1, (v / 2) % 2 == 1, v % 2 == 1]
  }

  function NibbleValue(b: Bits): (v: nat)
    requires |b| == 4
    ensures v < 16
  {
    (if b[0] then 8 else 0) + (if b[1] then 4 else 0) + (if b[2] then 2 else 0) + (if b[3] then 1 else 0)
  }

  lemma NibbleRoundTrip(b: Bits)
    requires |b| == 4
    ensures NibbleBits(NibbleValue(b)) == b
  {
  }

  /** `int(s, 16)` accepts an optional "0x"/"0X" prefix. */
  function StripPrefix(s: string): string {
    if |s| >= 2 && s[0] == '0' && (s[1] == 'x' || s[1] == 'X') then s[2..] else s
  }

  /** The digits that remain once the leading zero digits are dropped. */
  function Significant(ds: string): (r: string)
    requires forall i :: 0 <= i < |ds| ==> IsHexDigit(ds[i])
    ensures forall i :: 0 <= i < |r| ==> IsHexDigit(r[i])
    ensures |r| > 0 ==> DigitValue(r[0]) != 0
    decreases |ds|
  {
    if |ds| > 0 && DigitValue(ds[0]) == 0 then Significant(ds[1..]) else ds
  }

  function ExpandDigits(ds: string): (b: Bits)
    requires forall i :: 0 <= i < |ds| ==> IsHexDigit(ds[i])
    ensures |b| == 4 * |ds|
    decreases |ds|
  {
    if |ds| == 0 then [] else NibbleBits(DigitValue(ds[0])) + ExpandDigits(ds[1..])
  }

  /** `hex2bit` for an optional 0x/0X prefix and ASCII hex digits: the bits
      of the value padded on the left to whole digits; empty on anything
      else (where `int(s, 16)` either fails or, for whitespace, underscores
      or a sign, reads a value this reader does not). */
  function HexToBits(s: string): (b: Bits)
    ensures |b| % 4 == 0
    ensures b == [] <==> !IsHexDigits(StripPrefix(s))
    ensures |b| > 0 ==> b == NibbleBits(0) || NibbleValue(b[..4]) != 0
  {
    var ds := StripPrefix(s);
    if !IsHexDigits(ds) then []
    else
      var sig := Significant(ds);
      if |sig| == 0 then NibbleBits(0)
      else
        NibbleRoundTrip(NibbleBits(DigitValue(sig[0])));
        ExpandDigits(sig)
  }

  /** Digit expansion works digit by digit. */
  lemma {:induction false} ExpandDigitsAppend(a: string, b: string)
    requires forall i :: 0 <= i < |a| ==> IsHexDigit(a[i])
    requires forall i :: 0 <= i < |b| ==> IsHexDigit(b[i])
    ensures ExpandDigits(a + b) == ExpandDigits(a) + ExpandDigits(b)
    decreases |a|
  {
    if |a| == 0 {
      assert a + b == b;
    } else {
      assert (a + b)[0] == a[0] && (a + b)[1..] == a[1..] + b;
      ExpandDigitsAppend(a[1..], b);
    }
  }

  /** The four bits of each digit of e9ca. */
  const SyncHalf: Bits := [true, true, true, false, true, false, false, true,
                           true, true, false, false, true, false, true, false]

  lemma SyncHalfDigits()
    ensures ExpandDigits("e9ca") == SyncHalf
  {
  }

  /** A hex string whose digits after the prefix start with a non-zero
      digit reads as the expansion of those digits. */
  lemma HexToBitsOfDigits(s: string, ds: string)
    requires StripPrefix(s) == ds && IsHexDigits(ds) && DigitValue(ds[0]) != 0
    ensures HexToBits(s) == ExpandDigits(ds)
  {
  }

  /** `hex2bit("0xe9cae9ca")`, the default sync word. */
  lemma SyncWordDigits(s: string)
    requires s == "0xe9cae9ca"
    ensures HexToBits(s) == ExpandDigits("e9ca") + ExpandDigits("e9ca")
  {
    HexToBitsOfDigits(s, "e9ca" + "e9ca");
    ExpandDigitsAppend("e9ca", "e9ca");
  }

  /** The right padding `bit2hex` applies before reading the bits as a number. */
  function PadToNibble(b: Bits): (r: Bits)
    ensures |r| % 4 == 0 && |b| <= |r| < |b| + 4
    ensures r[..|b|] == b
    ensures forall i :: |b| <= i < |r| ==> !r[i]
  {
    if |b| % 4 != 0 then b + Repeat(false, 4 - |b| % 4) else b
  }

  /** One lower-case digit per four bits. */
  function NibbleDigits(b: Bits): (ds: string)
    requires |b| % 4 == 0
    ensures |ds| == |b| / 4
    ensures forall i :: 0 <= i < |ds| ==> IsHexDigit(ds[i])
    decreases |b|
  {
    if |b| == 0 then "" else [HexChar(NibbleValue(b[..4]))] + NibbleDigits(b[4..])
  }

  /** `bit2hex`: "0x" and the significant lower-case digits (one "0" for
      zero); "" for no bits, where `int("", 2)` fails. */
  function BitsToHex(b: Bits): (s: string)
    ensures b == [] <==> s == ""
  {
    if |b| == 0 then ""
    else
      var sig := Significant(NibbleDigits(PadToNibble(b)));
      "0x" + (if |sig| == 0 then "0" else sig)
  }

  /** A bit string as `hex2bit` produces it: whole digits and no leading
      zero digit. */
  predicate Canonical(b: Bits) {
    |b| > 0 && |b| % 4 == 0 && NibbleValue(b[..4]) != 0
  }

  lemma {:induction false} ExpandNibbleDigits(b: Bits)
    requires |b| % 4 == 0
    ensures ExpandDigits(NibbleDigits(b)) == b
    decreases |b|
  {
    if |b| > 0 {
      ExpandNibbleDigits(b[4..]);
      NibbleRoundTrip(b[..4]);
      assert b[..4] + b[4..] == b;
    }
  }

  /** `hex2bit(bit2hex(b)) == b` for every canonical bit string. */
  lemma {:induction false} HexRoundTrip(b: Bits)
    requires Canonical(b)
    ensures HexToBits(BitsToHex(b)) == b
  {
    assert PadToNibble(b) == b;
    var ds := NibbleDigits(b);
    assert DigitValue(ds[0]) == NibbleValue(b[..4]);
    assert Significant(ds) == ds;
    var s := BitsToHex(b);
    assert s == "0x" + ds;
    assert StripPrefix(s) == ds;
    ExpandNibbleDigits(b);
  }

  /** What `hex2bit` returns is canonical, or the single zero digit, so
      printing and re-reading it is stable. */
  lemma HexToBitsStable(s: string)
    ensures var b := HexToBits(s);
            b == [] || b == NibbleBits(0) || HexToBits(BitsToHex(b)) == b
  {
    var b := HexToBits(s);
    if b != [] && b != NibbleBits(0) {
      HexRoundTrip(b);
    }
  }
}
