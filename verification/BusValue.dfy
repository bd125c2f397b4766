/** draw.c: the value of a bus of analog samples as a string of hex digits. */
module BusValue {

  /** One bit of the bus at the sample point; `Missing` is an undefined bus element. */
  datatype Sample = Missing | Volts(v: real)

  function Value(s: Sample): real {
    if s.Missing? then 0.0 else s.v
  }

  predicate Transitioning(s: Sample, vthl: real, vthh: real) {
    Value(s) >= vthl && Value(s) <= vthh
  }

  function Bit(s: Sample, vthh: real): nat {
    if Value(s) >= vthh then 1 else 0
  }

  // ---- reference: what the k-th digit from the right should be ----

  const HEX: string := "0123456789ABCDEF"

  /** The t-th least significant bit of digit k, counting from the right end of the bus; bits beyond
      the left end read as 0. */
  function BitOf(bus: seq<Sample>, k: nat, t: nat, vthh: real): nat {
    var i := |bus| - 1 - 4 * k - t;
    if i >= 0 then Bit(bus[i], vthh) else 0
  }

  predicate UnknownBit(bus: seq<Sample>, k: nat, t: nat, vthl: real, vthh: real) {
    var i := |bus| - 1 - 4 * k - t;
    i >= 0 && Transitioning(bus[i], vthl, vthh)
  }

  predicate Unknown(bus: seq<Sample>, k: nat, vthl: real, vthh: real) {
    exists t :: 0 <= t < 4 && UnknownBit(bus, k, t, vthl, vthh)
  }

  function Digit(bus: seq<Sample>, k: nat, vthl: real, vthh: real): char {
    if Unknown(bus, k, vthl, vthh) then 'X'
    else HEX[BitOf(bus, k, 0, vthh) + 2 * BitOf(bus, k, 1, vthh) + 4 * BitOf(bus, k, 2, vthh)
        + 8 * BitOf(bus, k, 3, vthh)]
  }

  /** The number of digits the callers compute: ((n_bits - 1) >> 2) + 1. */
  function HexDigits(bits: nat): nat
    requires bits >= 1
  {
    (bits - 1) / 4 + 1
  }

  // ---- the code ----

  /** Hex digits in the order of their bit-reversed codes. */
  const MIRRORED: string := "084C2A6E195D3B7F"

  lemma MirroredReads(b0: nat, b1: nat, b2: nat, b3: nat)
    requires b0 <= 1 && b1 <= 1 && b2 <= 1 && b3 <= 1
    ensures MIRRORED[8 * b0 + 4 * b1 + 2 * b2 + b3] == HEX[b0 + 2 * b1 + 4 * b2 + 8 * b3]
  {
    if b0 == 0 {
      if b1 == 0 { } else { }
    } else {
      if b1 == 0 { } else { }
    }
  }

  /** The accumulated code after the first `bin` bits of digit k: first bit highest, shifted past the last. */
  function Code(bus: seq<Sample>, k: nat, bin: nat, vthh: real): nat
    requires bin <= 3
  {
    if bin == 0 then 0
    else if bin == 1 then 2 * BitOf(bus, k, 0, vthh)
    else if bin == 2 then 4 * BitOf(bus, k, 0, vthh) + 2 * BitOf(bus, k, 1, vthh)
    else 8 * BitOf(bus, k, 0, vthh) + 4 * BitOf(bus, k, 1, vthh) + 2 * BitOf(bus, k, 2, vthh)
  }

  lemma DigitUnknown(bus: seq<Sample>, k: nat, t: nat, vthl: real, vthh: real)
    requires t < 4 && UnknownBit(bus, k, t, vthl, vthh)
    ensures Digit(bus, k, vthl, vthh) == 'X'
  {
  }

  lemma BitBound(bus: seq<Sample>, k: nat, t: nat, vthh: real)
    ensures BitOf(bus, k, t, vthh) <= 1
  {
  }

  lemma DigitKnown(bus: seq<Sample>, k: nat, code: nat, vthl: real, vthh: real)
    requires forall t :: 0 <= t < 4 ==> !UnknownBit(bus, k, t, vthl, vthh)
    requires code == 8 * BitOf(bus, k, 0, vthh) + 4 * BitOf(bus, k, 1, vthh) + 2 * BitOf(bus, k, 2, vthh)
        + BitOf(bus, k, 3, vthh)
    ensures code < 16 && Digit(bus, k, vthl, vthh) == MIRRORED[code]
  {
    hide BitOf, UnknownBit;
    BitBound(bus, k, 0, vthh);
    BitBound(bus, k, 1, vthh);
    BitBound(bus, k, 2, vthh);
    BitBound(bus, k, 3, vthh);
    MirroredReads(BitOf(bus, k, 0, vthh), BitOf(bus, k, 1, vthh), BitOf(bus, k, 2, vthh), BitOf(bus, k, 3, vthh));
  }

  /** The short top nibble: the missing high bits are shifted in as zeros. */
  lemma PaddedCode(bus: seq<Sample>, k: nat, bin: nat, vthh: real)
    requires 0 < bin <= 3 && |bus| == 4 * k + bin
    ensures forall t :: bin <= t < 4 ==> BitOf(bus, k, t, vthh) == 0
    ensures Code(bus, k, bin, vthh) * (if bin == 1 then 4 else if bin == 2 then 2 else 1)
            == 8 * BitOf(bus, k, 0, vthh) + 4 * BitOf(bus, k, 1, vthh) + 2 * BitOf(bus, k, 2, vthh)
  {
  }

  /** After `bin` bits of digit k, none of them transitioning, `hexdigit` has been accumulated. */
  ghost predicate Partial(bus: seq<Sample>, k: nat, bin: nat, hexdigit: nat, vthl: real, vthh: real) {
    && bin <= 3 && hexdigit == Code(bus, k, bin, vthh)
    && forall t :: 0 <= t < bin ==> !UnknownBit(bus, k, t, vthl, vthh)
  }

  lemma NextBit(bus: seq<Sample>, k: nat, bin: nat, hexdigit: nat, vthl: real, vthh: real)
    requires Partial(bus, k, bin, hexdigit, vthl, vthh) && |bus| - 1 - 4 * k - bin >= 0
    ensures var i := |bus| - 1 - 4 * k - bin;
            var h := hexdigit + Bit(bus[i], vthh);
            if Transitioning(bus[i], vthl, vthh) then Digit(bus, k, vthl, vthh) == 'X'
            else if bin < 3 then Partial(bus, k, bin + 1, 2 * h, vthl, vthh)
            else h < 16 && Digit(bus, k, vthl, vthh) == MIRRORED[h]
  {
    var i := |bus| - 1 - 4 * k - bin;
    if Transitioning(bus[i], vthl, vthh) {
      DigitUnknown(bus, k, bin, vthl, vthh);
    } else if bin == 3 {
      DigitKnown(bus, k, hexdigit + Bit(bus[i], vthh), vthl, vthh);
    }
  }

  lemma LastBits(bus: seq<Sample>, k: nat, bin: nat, hexdigit: nat, vthl: real, vthh: real)
    requires Partial(bus, k, bin, hexdigit, vthl, vthh) && 0 < bin <= 3 && |bus| == 4 * k + bin
    ensures var h := hexdigit * (if bin == 1 then 4 else if bin == 2 then 2 else 1);
            h < 16 && Digit(bus, k, vthl, vthh) == MIRRORED[h]
  {
    PaddedCode(bus, k, bin, vthh);
    DigitKnown(bus, k, hexdigit * (if bin == 1 then 4 else if bin == 2 then 2 else 1), vthl, vthh);
  }

  /** get_bus_value.  `busval` has room for the digits and the terminator. */
  method GetBusValue(bus: seq<Sample>, busval: array<char>, vthl: real, vthh: real)
    requires |bus| >= 1 && busval.Length > HexDigits(|bus|)
    modifies busval
    ensures forall j :: 0 <= j < HexDigits(|bus|) ==> busval[j] == Digit(bus, HexDigits(|bus|) - 1 - j, vthl, vthh)
    ensures busval[HexDigits(|bus|)] == '\0'
    ensures forall j :: HexDigits(|bus|) < j < busval.Length ==> busval[j] == old(busval[j])
  {
    hide Digit, Partial;
    var hexDigits := HexDigits(|bus|);
    var hexdigit, bin, hex, x := 0, 0, 0, false;
    var i := |bus| - 1;
    Empty(bus, 0, vthl, vthh);
    while i >= 0
      invariant -1 <= i < |bus| && |bus| - 1 - i == 4 * hex + bin && 0 <= bin <= 3 && 0 <= hex <= hexDigits
      invariant !x && hexdigit >= 0 && Partial(bus, hex, bin, hexdigit, vthl, vthh)
      invariant forall j :: hexDigits - hex <= j < hexDigits ==> busval[j] == Digit(bus, hexDigits - 1 - j, vthl, vthh)
      invariant forall j :: hexDigits < j < busval.Length ==> busval[j] == old(busval[j])
      decreases i
    {
      NextBit(bus, hex, bin, hexdigit, vthl, vthh);
      var val := Value(bus[i]);
      if val >= vthl && val <= vthh {
        x := true;
        i := i + bin - 3;
        bin := 3;
        if i < 0 {
          break;
        }
      } else {
        hexdigit := hexdigit + (if val >= vthh then 1 else 0);
      }
      if bin < 3 {
        bin := bin + 1;
        hexdigit := hexdigit * 2;
      } else {
        hex := hex + 1;
        busval[hexDigits - hex] := if x then 'X' else MIRRORED[hexdigit];
        hexdigit, bin, x := 0, 0, false;
        Empty(bus, hex, vthl, vthh);
      }
      i := i - 1;
    }
    if bin > 0 {
      if !x {
        LastBits(bus, hex, bin, hexdigit, vthl, vthh);
        hexdigit := hexdigit * (if bin == 1 then 4 else if bin == 2 then 2 else 1);
      }
      hex := hex + 1;
      busval[hexDigits - hex] := if x then 'X' else MIRRORED[hexdigit];
    }
    busval[hexDigits] := '\0';
  }

  lemma Empty(bus: seq<Sample>, k: nat, vthl: real, vthh: real)
    ensures Partial(bus, k, 0, 0, vthl, vthh)
  {
  }

  // ---- what a reader gets from the string ----

  /** The number written by the bits of the bus, leftmost bit most significant. */
  function BusNumber(bus: seq<Sample>, vthh: real): nat {
    if bus == [] then 0 else 2 * BusNumber(bus[..|bus| - 1], vthh) + Bit(bus[|bus| - 1], vthh)
  }

  function NibbleValue(bus: seq<Sample>, k: nat, vthh: real): nat {
    BitOf(bus, k, 0, vthh) + 2 * BitOf(bus, k, 1, vthh) + 4 * BitOf(bus, k, 2, vthh) + 8 * BitOf(bus, k, 3, vthh)
  }

  /** Reading a string of hex digits back. */
  function HexValue(c: char): nat {
    if '0' <= c <= '9' then (c - '0') as nat else if 'A' <= c <= 'F' then (c - 'A') as nat + 10 else 0
  }

  function ReadHex(str: string): nat {
    if str == "" then 0 else 16 * ReadHex(str[..|str| - 1]) + HexValue(str[|str| - 1])
  }

  lemma HexValueInverts(n: nat)
    requires n < 16
    ensures HexValue(HEX[n]) == n
  {
  }

  /** The digits of the shorter bus without its last four bits. */
  lemma DigitShift(bus: seq<Sample>, k: nat, vthl: real, vthh: real)
    requires |bus| > 4
    ensures Digit(bus, k + 1, vthl, vthh) == Digit(bus[..|bus| - 4], k, vthl, vthh)
  {
    var rest, k' := bus[..|bus| - 4], k + 1;
    assert forall t :: 0 <= t < 4 ==> BitOf(bus, k', t, vthh) == BitOf(rest, k, t, vthh);
    assert forall t :: 0 <= t < 4 ==> (UnknownBit(bus, k', t, vthl, vthh) <==> UnknownBit(rest, k, t, vthl, vthh));
    if t :| 0 <= t < 4 && UnknownBit(bus, k', t, vthl, vthh) {
      assert UnknownBit(rest, k, t, vthl, vthh);
    }
  }

  lemma LastDigit(bus: seq<Sample>, vthl: real, vthh: real)
    requires |bus| >= 1 && forall i :: 0 <= i < |bus| ==> !Transitioning(bus[i], vthl, vthh)
    ensures HexValue(Digit(bus, 0, vthl, vthh)) == NibbleValue(bus, 0, vthh)
  {
    hide HexValue;
    assert forall t :: 0 <= t < 4 ==> !UnknownBit(bus, 0, t, vthl, vthh);
    assert NibbleValue(bus, 0, vthh) < 16;
    HexValueInverts(NibbleValue(bus, 0, vthh));
  }

  /** With no bit transitioning, the string read as a hex number is the number on the bus, for every width. */
  lemma {:induction false} StringDenotesBus(bus: seq<Sample>, str: string, vthl: real, vthh: real)
    requires |bus| >= 1 && |str| == HexDigits(|bus|)
    requires forall j :: 0 <= j < |str| ==> str[j] == Digit(bus, |str| - 1 - j, vthl, vthh)
    requires forall i :: 0 <= i < |bus| ==> !Transitioning(bus[i], vthl, vthh)
    ensures ReadHex(str) == BusNumber(bus, vthh)
  {
    hide Digit, HexValue, NibbleValue, BusNumber, Transitioning;
    var n := |str| - 1;
    LastDigit(bus, vthl, vthh);
    FourBits(bus, vthh);
    if |bus| > 4 {
      var rest := bus[..|bus| - 4];
      forall j | 0 <= j < n ensures str[..n][j] == Digit(rest, n - 1 - j, vthl, vthh) {
        DigitShift(bus, n - 1 - j, vthl, vthh);
      }
      StringDenotesBus(rest, str[..n], vthl, vthh);
    } else {
      assert str[..n] == "";
    }
  }

  lemma FourBits(bus: seq<Sample>, vthh: real)
    requires |bus| >= 1
    ensures |bus| <= 4 ==> BusNumber(bus, vthh) == NibbleValue(bus, 0, vthh)
    ensures |bus| > 4 ==> BusNumber(bus, vthh) == NibbleValue(bus, 0, vthh) + 16 * BusNumber(bus[..|bus| - 4], vthh)
  {
    var n := |bus|;
    assert bus[..n] == bus;
    Unroll(bus, n, vthh);
    if n >= 2 { Unroll(bus, n - 1, vthh); }
    if n >= 3 { Unroll(bus, n - 2, vthh); }
    if n >= 4 { Unroll(bus, n - 3, vthh); }
  }

  lemma Unroll(bus: seq<Sample>, m: nat, vthh: real)
    requires 1 <= m <= |bus|
    ensures BusNumber(bus[..m], vthh) == 2 * BusNumber(bus[..m - 1], vthh) + Bit(bus[m - 1], vthh)
  {
    assert bus[..m][..m - 1] == bus[..m - 1];
  }

  // ---- read off the samples ----

  /** The number on a bus element; an undefined one counts as 0. */
  predicate High(s: Sample, vthh: real) {
    match s case Missing => 0.0 >= vthh case Volts(v) => v >= vthh
  }

  predicate BetweenThresholds(s: Sample, vthl: real, vthh: real) {
    match s case Missing => vthl <= 0.0 <= vthh case Volts(v) => vthl <= v <= vthh
  }

  function Pow2(n: nat): (r: nat)
    ensures r >= 1
  {
    if n == 0 then 1 else 2 * Pow2(n - 1)
  }

  /** Bit t of the number on the bus, counted from its right end, is 1 if and only if that sample is high. */
  lemma {:induction false} NumberBits(bus: seq<Sample>, t: nat, vthh: real)
    requires t < |bus|
    ensures BusNumber(bus, vthh) / Pow2(t) % 2 == 1 <==> High(bus[|bus| - 1 - t], vthh)
    decreases |bus|
  {
    hide Bit, High;
    var n := |bus| - 1;
    var rest, b := BusNumber(bus[..n], vthh), Bit(bus[n], vthh);
    BitIsHigh(bus[n], vthh);
    DoubleAndBit(rest, b);
    if t == 0 {
      assert BusNumber(bus, vthh) / Pow2(0) == 2 * rest + b;
    } else {
      NumberBits(bus[..n], t - 1, vthh);
      HalfFirst(2 * rest + b, Pow2(t - 1));
    }
  }

  lemma BitIsHigh(s: Sample, vthh: real)
    ensures Bit(s, vthh) <= 1 && (Bit(s, vthh) == 1 <==> High(s, vthh))
  {
  }

  lemma DoubleAndBit(r: nat, b: nat)
    requires b <= 1
    ensures (2 * r + b) % 2 == b && (2 * r + b) / 2 == r
  {
  }

  lemma HalfFirst(x: nat, p: nat)
    requires p >= 1
    ensures x / (2 * p) == x / 2 / p
  {
    var q, r := x / 2 / p, x / 2 % p;
    var k := q * (2 * p);
    assert x / 2 == q * p + r && k == 2 * (q * p);
    var rest := x - k;
    assert 0 <= rest < 2 * p;
    QuotientIs(x, q, rest, 2 * p);
  }

  lemma QuotientIs(x: nat, q: nat, r: nat, d: nat)
    requires d > 0 && r < d && x == q * d + r
    ensures x / d == q
  {
    var e := x / d - q;
    assert x == (x / d) * d + x % d;
    assert e * d == r - x % d;
    NoMultiple(e, d);
  }

  lemma NoMultiple(e: int, d: int)
    requires d > 0
    ensures e >= 1 ==> e * d >= d
    ensures e <= -1 ==> e * d <= -d
  {
  }

  /** Digit k, counted from the right end, is X if and only if one of its samples lies between the thresholds. */
  lemma UnknownExactlyWhen(bus: seq<Sample>, k: nat, vthl: real, vthh: real)
    ensures Digit(bus, k, vthl, vthh) == 'X' <==>
            exists i :: 0 <= i < |bus| && 4 * k <= |bus| - 1 - i < 4 * k + 4 && BetweenThresholds(bus[i], vthl, vthh)
  {
    if i :| 0 <= i < |bus| && 4 * k <= |bus| - 1 - i < 4 * k + 4 && BetweenThresholds(bus[i], vthl, vthh) {
      assert UnknownBit(bus, k, |bus| - 1 - i - 4 * k, vthl, vthh);
    }
    if t :| 0 <= t < 4 && UnknownBit(bus, k, t, vthl, vthh) {
      assert BetweenThresholds(bus[|bus| - 1 - 4 * k - t], vthl, vthh);
    }
    assert 'X' !in HEX;
  }
}
