/** actions.c: descending into instances, the path and view stack, and the map from the pins of a
    vector instance to the nets of the level above. */
module Hierarchy {
  import opened Options
  import opened Words

  // ---- port map arithmetic ----

  /** Position (from 1) in the expanded net of bit k of a pin of width w, for instance n of a vector. */
  function NetIndex(n: nat, k: nat, w: nat, netWidth: nat): nat
    requires 1 <= n && 1 <= k <= w && netWidth >= 1
  {
    NonNegProduct(n - 1, w);
    ((n - 1) * w + k - 1) % netWidth + 1
  }

  lemma NonNegProduct(a: nat, b: nat)
    ensures a * b >= 0
  {
  }

  /** Subscript of an automatically named net. */
  function AutoIndex(n: nat, k: nat, w: nat, m: nat): int
    requires 1 <= n <= m && 1 <= k <= w
  {
    (m - n + 1) * w - k
  }

  lemma FlatRange(n: nat, k: nat, w: nat, m: nat)
    requires 1 <= n <= m && 1 <= k <= w
    ensures 0 <= (n - 1) * w + k - 1 < m * w
  {
    assert (n - 1) * w >= 0;
    assert n * w <= m * w by { assert (m - n) * w >= 0; }
    assert (n - 1) * w + w == n * w;
  }

  /** Dividing recovers instance and bit. */
  lemma FlatInverse(n: nat, k: nat, w: nat)
    requires 1 <= n && 1 <= k <= w
    ensures ((n - 1) * w + k - 1) / w == n - 1 && ((n - 1) * w + k - 1) % w == k - 1
  {
    DivModUnique((n - 1) * w + k - 1, n - 1, k - 1, w);
  }

  lemma ScaleInt(d: int, w: int)
    requires w > 0
    ensures d >= 0 ==> d * w >= 0
    ensures d > 0 ==> d * w >= w
    ensures d < 0 ==> d * w <= -w
  {
  }

  lemma DivModUnique(x: int, q: int, r: int, w: int)
    requires w > 0 && 0 <= r < w && x == q * w + r
    ensures x / w == q && x % w == r
  {
    var d := x / w - q;
    assert x == (x / w) * w + x % w;
    assert d * w == r - x % w;
    ScaleInt(d, w);
  }

  lemma ModSmall(x: nat, m: nat)
    requires x < m
    ensures x % m == x
  {
  }

  /** The net index is in range for every net width, and no two bits of the vector share a net bit exactly
      when the net is at least as wide as the vector. */
  lemma NetIndexInjectiveExactlyWhen(m: nat, w: nat, netWidth: nat)
    requires m >= 1 && w >= 1 && netWidth >= 1
    ensures forall n, k :: 1 <= n <= m && 1 <= k <= w ==> 1 <= NetIndex(n, k, w, netWidth) <= netWidth
    ensures (forall n, k, n', k' | 1 <= n <= m && 1 <= k <= w && 1 <= n' <= m && 1 <= k' <= w
               :: NetIndex(n, k, w, netWidth) == NetIndex(n', k', w, netWidth) ==> n == n' && k == k')
            <==> netWidth >= m * w
  {
    if netWidth >= m * w {
      forall n, k, n', k' | 1 <= n <= m && 1 <= k <= w && 1 <= n' <= m && 1 <= k' <= w
                            && NetIndex(n, k, w, netWidth) == NetIndex(n', k', w, netWidth)
        ensures n == n' && k == k'
      {
        FlatRange(n, k, w, m);
        FlatRange(n', k', w, m);
        ModSmall((n - 1) * w + k - 1, netWidth);
        ModSmall((n' - 1) * w + k' - 1, netWidth);
        FlatInverse(n, k, w);
        FlatInverse(n', k', w);
      }
    } else {
      var n, k := Unflatten(netWidth, w, m);
      assert NetIndex(n, k, w, netWidth) == NetIndex(1, 1, w, netWidth);
      assert n != 1 || k != 1;
    }
  }

  /** The instance and bit at a flat position. */
  lemma Unflatten(x: nat, w: nat, m: nat) returns (n: nat, k: nat)
    requires w >= 1 && x < m * w
    ensures 1 <= n <= m && 1 <= k <= w && (n - 1) * w + k - 1 == x
  {
    n, k := x / w + 1, x % w + 1;
    QuotientBelow(x, w, m);
    assert x == (x / w) * w + x % w;
  }

  lemma QuotientBelow(x: nat, w: nat, m: nat)
    requires w >= 1 && x < m * w
    ensures x / w < m
  {
    var q := x / w;
    assert x == q * w + x % w;
    assert (q - m) * w == q * w - m * w;
    ScaleInt(q - m, w);
  }

  /** On a net of exactly the vector's width every net bit is reached once. */
  lemma NetIndexOnto(m: nat, w: nat, j: nat)
    requires m >= 1 && w >= 1 && 1 <= j <= m * w
    ensures exists n, k :: 1 <= n <= m && 1 <= k <= w && NetIndex(n, k, w, m * w) == j
  {
    var n, k := Unflatten(j - 1, w, m);
    ModSmall(j - 1, m * w);
    assert NetIndex(n, k, w, m * w) == j;
  }

  /** Subscripts of automatic nets count down where net positions count up: a bijection onto 0..m*w-1. */
  lemma AutoIndexMirrors(n: nat, k: nat, w: nat, m: nat)
    requires 1 <= n <= m && 1 <= k <= w && m * w >= 1
    ensures AutoIndex(n, k, w, m) == m * w - NetIndex(n, k, w, m * w)
    ensures 0 <= AutoIndex(n, k, w, m) < m * w
  {
    FlatRange(n, k, w, m);
    ModSmall((n - 1) * w + k - 1, m * w);
    assert (m - n + 1) * w == m * w - (n - 1) * w;
  }

  lemma AutoIndexOnto(m: nat, w: nat, j: nat)
    requires m >= 1 && w >= 1 && j < m * w
    ensures exists n, k :: 1 <= n <= m && 1 <= k <= w && AutoIndex(n, k, w, m) == j
  {
    NetIndexOnto(m, w, m * w - j);
    var n, k :| 1 <= n <= m && 1 <= k <= w && NetIndex(n, k, w, m * w) == m * w - j;
    AutoIndexMirrors(n, k, w, m);
  }

  // ---- the port map of one descent ----

  /** One pin: its bits and the net bits it is attached to, both expanded. */
  datatype Pin = Pin(bits: seq<string>, nets: seq<string>)

  /** The net a bit sees: its position in the net, with automatic names given their subscript and shorn of
      the leading '#'. */
  function NetOf(p: Pin, k: nat, n: nat, m: nat): string
    requires p.nets != [] && 1 <= k <= |p.bits| && 1 <= n <= m
  {
    var net := p.nets[NetIndex(n, k, |p.bits|, |p.nets|) - 1];
    if net != "" && net[0] == '#' then
      if |p.bits| > 1 then (net + "[" + Decimal(AutoIndex(n, k, |p.bits|, m)) + "]")[1..] else net[1..]
    else net
  }

  function Decimal(i: int): string {
    if i >= 0 then Itoa(i) else "-" + Itoa(-i)
  }

  /** For nets of the vector's width the subscripts are 0 to m*w-1, so the sign is never printed. */
  lemma SubscriptsNonNegative(p: Pin, k: nat, n: nat, m: nat)
    requires 1 <= k <= |p.bits| && 1 <= n <= m
    ensures Decimal(AutoIndex(n, k, |p.bits|, m)) == Itoa(AutoIndex(n, k, |p.bits|, m))
  {
    FlatRange(n, k, |p.bits|, m);
    assert (m - n + 1) * |p.bits| == m * |p.bits| - (n - 1) * |p.bits|;
  }

  predicate GoodPins(pins: seq<Pin>) { forall p :: p in pins ==> p.nets != [] }

  function PinMap(table: map<string, string>, p: Pin, count: nat, n: nat, m: nat): map<string, string>
    requires p.nets != [] && count <= |p.bits| && 1 <= n <= m
  {
    if count == 0 then table
    else PinMap(table, p, count - 1, n, m)[p.bits[count - 1] := NetOf(p, count, n, m)]
  }

  function PortMap(pins: seq<Pin>, n: nat, m: nat): map<string, string>
    requires GoodPins(pins) && 1 <= n <= m
  {
    if pins == [] then map[]
    else
      var l := |pins| - 1;
      assert pins[l] in pins && forall p :: p in pins[..l] ==> p in pins;
      PinMap(PortMap(pins[..l], n, m), pins[l], |pins[l].bits|, n, m)
  }

  /** The pin loop of descend_schematic. */
  method BuildPortMap(pins: seq<Pin>, n: nat, m: nat) returns (table: map<string, string>)
    requires GoodPins(pins) && 1 <= n <= m
    ensures table == PortMap(pins, n, m)
  {
    hide NetOf;
    table := map[];
    for i := 0 to |pins|
      invariant GoodPins(pins[..i]) && table == PortMap(pins[..i], n, m)
    {
      var p := pins[i];
      assert p in pins;
      assert pins[..i + 1][..i] == pins[..i] && pins[..i + 1][i] == p;
      ghost var before := table;
      for k := 1 to |p.bits| + 1
        invariant table == PinMap(before, p, k - 1, n, m)
      {
        table := table[p.bits[k - 1] := NetOf(p, k, n, m)];
      }
    }
    assert pins[..|pins|] == pins;
  }

  /** No bit name occurs twice among the pins. */
  predicate DistinctBits(pins: seq<Pin>) {
    forall a, b, j, k | 0 <= a < |pins| && 0 <= b < |pins| && 0 <= j < |pins[a].bits| && 0 <= k < |pins[b].bits|
      :: pins[a].bits[j] == pins[b].bits[k] ==> a == b && j == k
  }

  lemma {:induction false} PinMapOther(table: map<string, string>, p: Pin, count: nat, n: nat, m: nat, bit: string)
    requires p.nets != [] && count <= |p.bits| && 1 <= n <= m && bit !in p.bits
    ensures Lookup(PinMap(table, p, count, n, m), bit) == Lookup(table, bit)
  {
    hide NetOf;
    if count == 0 {
    } else {
      PinMapOther(table, p, count - 1, n, m, bit);
      assert p.bits[count - 1] in p.bits;
    }
  }

  lemma {:induction false} PinMapReads(table: map<string, string>, p: Pin, count: nat, n: nat, m: nat, k: nat)
    requires p.nets != [] && 1 <= k <= count <= |p.bits| && 1 <= n <= m
    requires forall j :: k <= j < |p.bits| ==> p.bits[j] != p.bits[k - 1]
    ensures Lookup(PinMap(table, p, count, n, m), p.bits[k - 1]) == Some(NetOf(p, k, n, m))
  {
    hide NetOf;
    if k == count {
    } else {
      PinMapReads(table, p, count - 1, n, m, k);
      assert p.bits[k - 1] != p.bits[count - 1];
    }
  }

  function Lookup(table: map<string, string>, bit: string): Option<string> {
    if bit in table then Some(table[bit]) else None
  }

  /** Bit k of pin a is the last of its name. */
  predicate LastUse(pins: seq<Pin>, a: nat, k: nat)
    requires a < |pins| && 1 <= k <= |pins[a].bits|
  {
    forall b, j :: a <= b < |pins| && 0 <= j < |pins[b].bits| && (a < b || k <= j) ==>
      pins[b].bits[j] != pins[a].bits[k - 1]
  }

  /** The port map sends each name to the net that the last bit of that name sees: a later pin replaces an earlier. */
  lemma {:induction false} PortMapLast(pins: seq<Pin>, n: nat, m: nat, a: nat, k: nat)
    requires GoodPins(pins) && 1 <= n <= m && a < |pins| && 1 <= k <= |pins[a].bits| && LastUse(pins, a, k)
    ensures pins[a] in pins && Lookup(PortMap(pins, n, m), pins[a].bits[k - 1]) == Some(NetOf(pins[a], k, n, m))
  {
    hide NetOf, Lookup;
    var l := |pins| - 1;
    var bit := pins[a].bits[k - 1];
    assert pins[l] in pins && forall p :: p in pins[..l] ==> p in pins;
    if a < l {
      assert pins[..l][a] == pins[a];
      PortMapLast(pins[..l], n, m, a, k);
      assert bit !in pins[l].bits by {
        forall j | 0 <= j < |pins[l].bits| ensures pins[l].bits[j] != bit { }
      }
      PinMapOther(PortMap(pins[..l], n, m), pins[l], |pins[l].bits|, n, m, bit);
    } else {
      PinMapReads(PortMap(pins[..l], n, m), pins[l], |pins[l].bits|, n, m, k);
    }
  }

  /** With distinct names every bit of every pin is there. */
  lemma PortMapReads(pins: seq<Pin>, n: nat, m: nat, a: nat, k: nat)
    requires GoodPins(pins) && DistinctBits(pins) && 1 <= n <= m && a < |pins| && 1 <= k <= |pins[a].bits|
    ensures pins[a] in pins && Lookup(PortMap(pins, n, m), pins[a].bits[k - 1]) == Some(NetOf(pins[a], k, n, m))
  {
    PortMapLast(pins, n, m, a, k);
  }

  /** Bit k of pin a of instance n of the vector sees `net`. */
  predicate Sees(pins: seq<Pin>, a: nat, n: nat, m: nat, k: nat, net: string)
    requires GoodPins(pins) && a < |pins|
  {
    && 1 <= n <= m && 1 <= k <= |pins[a].bits|
    && Lookup(PortMap(pins, n, m), pins[a].bits[k - 1]) == Some(net)
  }

  predicate NamedNets(nets: seq<string>) {
    && (forall i :: 0 <= i < |nets| ==> nets[i] == "" || nets[i][0] != '#')
    && (forall i, j :: 0 <= i < j < |nets| ==> nets[i] != nets[j])
  }

  /** A pin of a vector instance on a named net of the vector's whole width: each bit of the net is seen from
      exactly one bit of exactly one instance. */
  lemma EachNetBitSeenOnce(pins: seq<Pin>, a: nat, m: nat, j: nat)
    requires GoodPins(pins) && DistinctBits(pins) && a < |pins| && m >= 1 && |pins[a].bits| >= 1
    requires |pins[a].nets| == m * |pins[a].bits| && NamedNets(pins[a].nets) && j < |pins[a].nets|
    ensures exists n, k :: Sees(pins, a, n, m, k, pins[a].nets[j])
    ensures forall n, k, n', k' :: Sees(pins, a, n, m, k, pins[a].nets[j]) && Sees(pins, a, n', m, k', pins[a].nets[j])
                                   ==> n == n' && k == k'
  {
    hide PortMap, DistinctBits, GoodPins;
    var p := pins[a];
    var w := |p.bits|;
    NetIndexOnto(m, w, j + 1);
    var n0, k0 :| 1 <= n0 <= m && 1 <= k0 <= w && NetIndex(n0, k0, w, m * w) == j + 1;
    SeesExactly(pins, a, n0, m, k0, j);
    NetIndexInjectiveExactlyWhen(m, w, m * w);
    forall n, k | Sees(pins, a, n, m, k, p.nets[j]) ensures n == n0 && k == k0 {
      SeesExactly(pins, a, n, m, k, j);
    }
  }

  lemma SeesExactly(pins: seq<Pin>, a: nat, n: nat, m: nat, k: nat, j: nat)
    requires GoodPins(pins) && DistinctBits(pins) && a < |pins| && 1 <= n <= m && 1 <= k <= |pins[a].bits|
    requires |pins[a].nets| == m * |pins[a].bits| && NamedNets(pins[a].nets) && j < |pins[a].nets|
    ensures Sees(pins, a, n, m, k, pins[a].nets[j]) <==> NetIndex(n, k, |pins[a].bits|, m * |pins[a].bits|) == j + 1
  {
    hide PortMap, DistinctBits, NetIndex;
    var p := pins[a];
    PortMapReads(pins, n, m, a, k);
    NetIndexInRange(n, k, |p.bits|, |p.nets|);
    var i := NetIndex(n, k, |p.bits|, |p.nets|) - 1;
    assert NetOf(p, k, n, m) == p.nets[i];
  }

  /** Such a pin makes the port maps of any two copies different. */
  lemma CopiesSeeDifferentNets(pins: seq<Pin>, a: nat, m: nat, n: nat, n': nat)
    requires GoodPins(pins) && DistinctBits(pins) && a < |pins| && 1 <= n <= m && 1 <= n' <= m && |pins[a].bits| >= 1
    requires |pins[a].nets| == m * |pins[a].bits| && NamedNets(pins[a].nets)
    ensures PortMap(pins, n, m) == PortMap(pins, n', m) <==> n == n'
  {
    hide PortMap, DistinctBits, GoodPins, NetIndex;
    var w := |pins[a].bits|;
    if n != n' {
      NetIndexInRange(n, 1, w, m * w);
      var j := NetIndex(n, 1, w, m * w) - 1;
      SeesExactly(pins, a, n, m, 1, j);
      EachNetBitSeenOnce(pins, a, m, j);
      assert Sees(pins, a, n, m, 1, pins[a].nets[j]);
      assert !Sees(pins, a, n', m, 1, pins[a].nets[j]);
    }
  }

  /** Every bit of p sees the same net from copy n and from copy n'. */
  predicate PinAgrees(p: Pin, n: nat, n': nat, m: nat)
    requires p.nets != [] && 1 <= n <= m && 1 <= n' <= m
  {
    forall k :: 1 <= k <= |p.bits| ==> NetOf(p, k, n, m) == NetOf(p, k, n', m)
  }

  predicate PinsAgree(pins: seq<Pin>, n: nat, n': nat, m: nat)
    requires GoodPins(pins) && 1 <= n <= m && 1 <= n' <= m
  {
    forall a :: 0 <= a < |pins| ==> pins[a] in pins && PinAgrees(pins[a], n, n', m)
  }

  /** Two copies have the same port map if and only if every pin agrees. */
  lemma PortMapsAgreeExactlyWhen(pins: seq<Pin>, n: nat, n': nat, m: nat)
    requires GoodPins(pins) && DistinctBits(pins) && 1 <= n <= m && 1 <= n' <= m
    ensures PortMap(pins, n, m) == PortMap(pins, n', m) <==> PinsAgree(pins, n, n', m)
  {
    hide PortMap, NetOf, DistinctBits;
    if PortMap(pins, n, m) == PortMap(pins, n', m) {
      forall a, k | 0 <= a < |pins| && 1 <= k <= |pins[a].bits|
        ensures pins[a] in pins && NetOf(pins[a], k, n, m) == NetOf(pins[a], k, n', m)
      {
        PortMapReads(pins, n, m, a, k);
        PortMapReads(pins, n', m, a, k);
      }
    }
    if PinsAgree(pins, n, n', m) {
      AgreeingPinsMap(pins, n, n', m);
    }
  }

  lemma {:induction false} AgreeingPinsMap(pins: seq<Pin>, n: nat, n': nat, m: nat)
    requires GoodPins(pins) && 1 <= n <= m && 1 <= n' <= m && PinsAgree(pins, n, n', m)
    ensures PortMap(pins, n, m) == PortMap(pins, n', m)
  {
    hide NetOf;
    if pins == [] {
    } else {
      var l := |pins| - 1;
      assert pins[l] in pins && forall p :: p in pins[..l] ==> p in pins;
      forall a | 0 <= a < l ensures pins[..l][a] in pins[..l] && PinAgrees(pins[..l][a], n, n', m) {
        assert pins[..l][a] == pins[a];
      }
      AgreeingPinsMap(pins[..l], n, n', m);
      AgreeingPinMap(PortMap(pins[..l], n, m), pins[l], |pins[l].bits|, n, n', m);
    }
  }

  lemma {:induction false} AgreeingPinMap(table: map<string, string>, p: Pin, count: nat, n: nat, n': nat, m: nat)
    requires p.nets != [] && count <= |p.bits| && 1 <= n <= m && 1 <= n' <= m && PinAgrees(p, n, n', m)
    ensures PinMap(table, p, count, n, m) == PinMap(table, p, count, n', m)
  {
    hide NetOf;
    if count == 0 {
    } else {
      AgreeingPinMap(table, p, count - 1, n, n', m);
      assert NetOf(p, count, n, m) == NetOf(p, count, n', m);
    }
  }

  /** Where in the net, counted from 0, the bits of copy n start. */
  function Place(n: nat, w: nat, netWidth: nat): nat
    requires n >= 1 && netWidth >= 1
  {
    NonNegProduct(n - 1, w);
    ((n - 1) * w) % netWidth
  }

  /** A pin on distinct named nets, of any number: the copies agree if and only if they start at the same place of
      the net. */
  lemma NamedPinAgreesExactlyWhen(p: Pin, n: nat, n': nat, m: nat)
    requires p.nets != [] && p.bits != [] && NamedNets(p.nets) && 1 <= n <= m && 1 <= n' <= m
    ensures PinAgrees(p, n, n', m) <==> Place(n, |p.bits|, |p.nets|) == Place(n', |p.bits|, |p.nets|)
  {
    hide NetIndex, NetOf, Place, NamedNets;
    forall k | 1 <= k <= |p.bits|
      ensures NetOf(p, k, n, m) == NetOf(p, k, n', m) <==>
          NetIndex(n, k, |p.bits|, |p.nets|) == NetIndex(n', k, |p.bits|, |p.nets|)
      ensures Place(n, |p.bits|, |p.nets|) == Place(n', |p.bits|, |p.nets|) ==> NetOf(p, k, n, m) == NetOf(p, k, n', m)
    {
      NamedNetOf(p, k, n, m);
      NamedNetOf(p, k, n', m);
      NamedNetsDiffer(p.nets, NetIndex(n, k, |p.bits|, |p.nets|) - 1, NetIndex(n', k, |p.bits|, |p.nets|) - 1);
      SamePlace(n, n', k, |p.bits|, |p.nets|);
    }
    SamePlace(n, n', 1, |p.bits|, |p.nets|);
    assert PinAgrees(p, n, n', m) ==> NetOf(p, 1, n, m) == NetOf(p, 1, n', m);
  }

  lemma NamedNetsDiffer(nets: seq<string>, i: nat, j: nat)
    requires NamedNets(nets) && i < |nets| && j < |nets|
    ensures nets[i] == nets[j] <==> i == j
  {
  }

  lemma SamePlace(n: nat, n': nat, k: nat, w: nat, netWidth: nat)
    requires n >= 1 && n' >= 1 && 1 <= k <= w && netWidth >= 1
    ensures Place(n, w, netWidth) == Place(n', w, netWidth) ==>
        NetIndex(n, k, w, netWidth) == NetIndex(n', k, w, netWidth)
    ensures k == 1 && NetIndex(n, k, w, netWidth) == NetIndex(n', k, w, netWidth) ==>
        Place(n, w, netWidth) == Place(n', w, netWidth)
  {
    NonNegProduct(n - 1, w);
    NonNegProduct(n' - 1, w);
    if Place(n, w, netWidth) == Place(n', w, netWidth) {
      SameModuloShifts((n - 1) * w, (n' - 1) * w, k - 1, netWidth);
    }
  }

  lemma NamedNetOf(p: Pin, k: nat, n: nat, m: nat)
    requires p.nets != [] && NamedNets(p.nets) && 1 <= k <= |p.bits| && 1 <= n <= m
    ensures 1 <= NetIndex(n, k, |p.bits|, |p.nets|) <= |p.nets|
    ensures NetOf(p, k, n, m) == p.nets[NetIndex(n, k, |p.bits|, |p.nets|) - 1]
  {
    hide NetIndex;
    NetIndexInRange(n, k, |p.bits|, |p.nets|);
    var i := NetIndex(n, k, |p.bits|, |p.nets|) - 1;
    assert p.nets[i] == "" || p.nets[i][0] != '#';
  }

  lemma SameModuloShifts(x: nat, y: nat, j: nat, width: nat)
    requires width >= 1 && x % width == y % width
    ensures (x + j) % width == (y + j) % width
  {
    var d := x / width - y / width;
    var r := (y + j) % width;
    assert x - y == d * width by {
      assert x == (x / width) * width + x % width && y == (y / width) * width + y % width;
    }
    var q := (y + j) / width;
    assert y + j == q * width + r;
    assert x + j == (q + d) * width + r;
    DivModUnique(x + j, q + d, r, width);
  }

  /** A pin on an automatic net: the copies agree if and only if they are one, or the pin has a single bit. */
  lemma AutoPinAgreesExactlyWhen(p: Pin, base: string, n: nat, n': nat, m: nat)
    requires AutoNet(p.nets, base) && p.bits != [] && 1 <= n <= m && 1 <= n' <= m
    ensures PinAgrees(p, n, n', m) <==> n == n' || |p.bits| == 1
  {
    hide NetOf, Subscripted, AutoIndex;
    var w := |p.bits|;
    forall k | 1 <= k <= w
      ensures NetOf(p, k, n, m) == NetOf(p, k, n', m) <==> n == n' || w == 1
    {
      AutoNetOf(p, base, k, n, m);
      AutoNetOf(p, base, k, n', m);
      AutoIndexMirrors(n, k, w, m);
      AutoIndexMirrors(n', k, w, m);
      if w > 1 && NetOf(p, k, n, m) == NetOf(p, k, n', m) {
        SubscriptedInjective(base, AutoIndex(n, k, w, m), AutoIndex(n', k, w, m));
        AutoIndexInjective(n, k, n', k, w, m);
      }
    }
    assert NetOf(p, 1, n, m) == NetOf(p, 1, n', m) <==> n == n' || w == 1;
  }

  /** An automatically named net has one name, with a leading '#', whatever its width. */
  predicate AutoNet(nets: seq<string>, base: string) {
    nets != [] && forall i :: 0 <= i < |nets| ==> nets[i] == "#" + base
  }

  function Subscripted(base: string, i: int): string {
    base + "[" + Decimal(i) + "]"
  }

  lemma AutoNetOf(p: Pin, base: string, k: nat, n: nat, m: nat)
    requires AutoNet(p.nets, base) && 1 <= k <= |p.bits| && 1 <= n <= m
    ensures NetOf(p, k, n, m) == if |p.bits| > 1 then Subscripted(base, AutoIndex(n, k, |p.bits|, m)) else base
  {
    hide NetIndex, AutoIndex, Decimal;
    NetIndexInRange(n, k, |p.bits|, |p.nets|);
    var sub := "[" + Decimal(AutoIndex(n, k, |p.bits|, m)) + "]";
    var net := "#" + base;
    assert net[1..] == base && (net + sub)[1..] == base + sub;
    assert net + "[" + Decimal(AutoIndex(n, k, |p.bits|, m)) + "]" == net + sub;
    assert Subscripted(base, AutoIndex(n, k, |p.bits|, m)) == base + sub;
  }

  lemma SubscriptedInjective(base: string, i: int, j: int)
    requires i >= 0 && j >= 0 && Subscripted(base, i) == Subscripted(base, j)
    ensures i == j
  {
    hide Itoa;
    var a, b := Subscripted(base, i), Subscripted(base, j);
    var l := |base| + 1;
    assert a[l..|a| - 1] == Itoa(i) && b[l..|b| - 1] == Itoa(j);
    ItoaInjective(i, j);
  }

  lemma AutoIndexInjective(n: nat, k: nat, n': nat, k': nat, w: nat, m: nat)
    requires 1 <= n <= m && 1 <= k <= w && 1 <= n' <= m && 1 <= k' <= w
        && AutoIndex(n, k, w, m) == AutoIndex(n', k', w, m)
    ensures n == n' && k == k'
  {
    hide AutoIndex, NetIndex;
    FlatRange(n, k, w, m);
    AutoIndexMirrors(n, k, w, m);
    AutoIndexMirrors(n', k', w, m);
    NetIndexInjectiveExactlyWhen(m, w, m * w);
  }

  /** A pin of a vector instance on an automatic net, more than one bit wide: bit j of the net, by its printed
      subscript, is seen from exactly one bit of exactly one instance. */
  lemma EachAutoBitSeenOnce(pins: seq<Pin>, a: nat, m: nat, base: string, j: nat)
    requires GoodPins(pins) && DistinctBits(pins) && a < |pins| && m >= 1 && |pins[a].bits| >= 2
    requires AutoNet(pins[a].nets, base) && j < m * |pins[a].bits|
    ensures exists n, k :: Sees(pins, a, n, m, k, Subscripted(base, j))
    ensures forall n, k, n', k' :: Sees(pins, a, n, m, k, Subscripted(base, j)) ==>
              Sees(pins, a, n', m, k', Subscripted(base, j)) ==> n == n' && k == k'
  {
    hide PortMap, DistinctBits, GoodPins, Subscripted, AutoIndex;
    var w := |pins[a].bits|;
    AutoIndexOnto(m, w, j);
    var n0, k0 :| 1 <= n0 <= m && 1 <= k0 <= w && AutoIndex(n0, k0, w, m) == j;
    SeesAuto(pins, a, n0, m, k0, base);
    assert Sees(pins, a, n0, m, k0, Subscripted(base, j));
    forall n, k | Sees(pins, a, n, m, k, Subscripted(base, j)) ensures n == n0 && k == k0 {
      SeesAuto(pins, a, n, m, k, base);
      AutoIndexMirrors(n, k, w, m);
      SubscriptedInjective(base, AutoIndex(n, k, w, m), j);
      AutoIndexInjective(n, k, n0, k0, w, m);
    }
  }

  lemma SeesAuto(pins: seq<Pin>, a: nat, n: nat, m: nat, k: nat, base: string)
    requires GoodPins(pins) && DistinctBits(pins) && a < |pins| && 1 <= n <= m && 1 <= k <= |pins[a].bits|
    requires AutoNet(pins[a].nets, base)
    ensures forall net :: Sees(pins, a, n, m, k, net) <==>
                            net == if |pins[a].bits| > 1 then Subscripted(base, AutoIndex(n, k, |pins[a].bits|, m))
                                else base
  {
    hide PortMap, DistinctBits, GoodPins, Subscripted, AutoIndex, NetOf;
    PortMapReads(pins, n, m, a, k);
    AutoNetOf(pins[a], base, k, n, m);
  }

  /** Two bits of the vector see one automatic net in common unless the pin has more than one bit or there is
      only one copy: with a one-bit pin no subscript is printed, and all copies see the same name. */
  lemma AutoNetsDistinctExactlyWhen(pins: seq<Pin>, a: nat, m: nat, base: string)
    requires GoodPins(pins) && DistinctBits(pins) && a < |pins| && m >= 1 && |pins[a].bits| >= 1
        && AutoNet(pins[a].nets, base)
    ensures (forall n, k, n', k', net :: Sees(pins, a, n, m, k, net) && Sees(pins, a, n', m, k', net)
                                         ==> n == n' && k == k')
            <==> |pins[a].bits| >= 2 || m == 1
  {
    hide PortMap, DistinctBits, GoodPins, Subscripted, AutoIndex;
    var w := |pins[a].bits|;
    if w >= 2 {
      forall n, k, n', k', net | Sees(pins, a, n, m, k, net) && Sees(pins, a, n', m, k', net)
        ensures n == n' && k == k'
      {
        SeesAuto(pins, a, n, m, k, base);
        SeesAuto(pins, a, n', m, k', base);
        AutoIndexMirrors(n, k, w, m);
        AutoIndexMirrors(n', k', w, m);
        SubscriptedInjective(base, AutoIndex(n, k, w, m), AutoIndex(n', k', w, m));
        AutoIndexInjective(n, k, n', k', w, m);
      }
    } else if m > 1 {
      SeesAuto(pins, a, 1, m, 1, base);
      SeesAuto(pins, a, 2, m, 1, base);
      assert Sees(pins, a, 1, m, 1, base) && Sees(pins, a, 2, m, 1, base);
    }
  }

  lemma NetIndexInRange(n: nat, k: nat, w: nat, netWidth: nat)
    requires 1 <= n && 1 <= k <= w && netWidth >= 1
    ensures 1 <= NetIndex(n, k, w, netWidth) <= netWidth
  {
  }

  /** The copies take the bits of a net in order, each as many as the pin has: counted through the whole vector, bit q
      sees bit q of a named net, starting over at its end, and the automatic net's subscript m*w-1-q. */
  lemma VectorSeesNetsInOrder(p: Pin, base: string, m: nat, q: nat)
    requires p.nets != [] && p.bits != [] && q < m * |p.bits|
    ensures var w := |p.bits|;
            && q / w < m
            && (NamedNets(p.nets) ==> NetOf(p, q % w + 1, q / w + 1, m) == p.nets[q % |p.nets|])
            && (AutoNet(p.nets, base) && w > 1 ==>
                NetOf(p, q % w + 1, q / w + 1, m) == base + "[" + Itoa(m * w - 1 - q) + "]")
  {
    hide NetOf;
    BitOfVector(|p.bits|, m, q);
    var n, k := q / |p.bits| + 1, q % |p.bits| + 1;
    if NamedNets(p.nets) {
      NamedNetOf(p, k, n, m);
    }
    if AutoNet(p.nets, base) && |p.bits| > 1 {
      AutoNetOf(p, base, k, n, m);
    }
  }

  /** Bit q of a vector of m copies, as a copy and a bit of it. */
  lemma BitOfVector(w: nat, m: nat, q: nat)
    requires w > 0 && q < m * w
    ensures q / w < m && (q / w) * w + q % w == q
    ensures (m - (q / w + 1) + 1) * w - (q % w + 1) == m * w - 1 - q
  {
    var n := q / w;
    assert q == n * w + q % w;
    ScaleInt(n - m, w);
    assert (n - m) * w == n * w - m * w;
    assert (m - n) * w == m * w - n * w;
  }

  // ---- the hierarchy as a stack ----

  const CADMAXHIER: nat := 40

  type Ports = map<string, string>

  datatype View = View(xorigin: real, yorigin: real, zoom: real)

  /** What is remembered of a level one has descended from: its path, the copy chosen, the expanded names of the
      instance, its view and its own port map.  `component` is what the path of the level below has been
      extended by; the program does not store it. */
  datatype Frame = Frame(path: string, instNumber: int, names: seq<string>, component: string, view: View, ports: Ports)

  datatype Stack = Stack(frames: seq<Frame>, path: string, view: View, ports: Ports)

  /** A selected instance: its name, the name's expansion, the pins that have a name and a net, and the number
      typed if one is asked for. */
  datatype Instance = Instance(name: string, names: seq<string>, pins: seq<Pin>, typed: int, cancelled: bool)

  /** What the other checks of descend_schematic and the child come to: refused, or entered, with the child loaded or
      not and the view zoom_full leaves. */
  datatype Entry = Refused | Entered(loaded: bool, view: View)

  predicate GoodInstance(i: Instance) { i.names != [] && GoodPins(i.pins) }

  /** Negative numbers count from the right; anything out of range means the leftmost copy. */
  function Normal(j: int, mult: nat): (n: int)
    requires mult >= 1
    ensures 1 <= n <= mult
    ensures 1 <= j <= mult ==> n == j
    ensures j < 0 <= j + mult ==> n == mult + 1 + j
    ensures j == 0 || j > mult || j + mult < 0 ==> n == 1
  {
    var n := if j < 0 then j + mult + 1 else j;
    if n < 1 || n > mult then 1 else n
  }

  /** Number of copies one can choose from. */
  function Copies(i: Instance, plain: bool): nat {
    if plain || i.name == "" then 1 else |i.names|
  }

  /** The copy descend_schematic enters, or 0 if the user cancels. */
  function ChosenCopy(i: Instance, instnumber: int, plain: bool): (n: int)
    requires GoodInstance(i)
    ensures 0 <= n <= Copies(i, plain)
  {
    if Copies(i, plain) == 1 then 1
    else if instnumber == 0 && i.cancelled then 0
    else Normal(if instnumber == 0 then i.typed else instnumber, |i.names|)
  }

  function Component(i: Instance, n: int, plain: bool): string
    requires GoodInstance(i) && 1 <= n <= |i.names|
  {
    if i.name == "" then "" else if plain then FindNth(i.name, ',', 1) else i.names[n - 1]
  }

  /** descend_schematic, as far as path, copy, port map and view go.  The result is that of
      loading the child; the levels are the same if that fails. */
  function Descend(s: Stack, i: Instance, instnumber: int, plain: bool, entry: Entry): (bool, Stack)
    requires GoodInstance(i)
  {
    var n := ChosenCopy(i, instnumber, plain);
    if |s.frames| + 1 >= CADMAXHIER || entry.Refused? || n == 0 then (false, s)
    else
      var c := Component(i, n, plain);
      (entry.loaded, Stack(s.frames + [Frame(s.path, n, i.names, c, s.view, s.ports)], s.path + c + ".", entry.view,
                   PortMap(i.pins, n, Copies(i, plain))))
  }

  /** go_back; `cancelled` when the user keeps an unsaved level open. */
  function GoBack(s: Stack, cancelled: bool): Stack {
    if s.frames == [] || cancelled then s
    else
      var f := s.frames[|s.frames| - 1];
      Stack(s.frames[..|s.frames| - 1], f.path, f.view, f.ports)
  }

  /** strrchr: the last dot, or -1. */
  function LastDot(t: string): (d: int)
    ensures -1 <= d < |t|
    ensures d >= 0 ==> t[d] == '.'
    ensures forall k :: d < k < |t| ==> t[k] != '.'
  {
    if t == "" then -1
    else if t[|t| - 1] == '.' then |t| - 1
    else LastDot(t[..|t| - 1])
  }

  /** change_sch_path: path and copy number change, the port map built for the copy entered stays. */
  function ChangePath(s: Stack, instnumber: int): (bool, Stack)
    requires s.frames != [] ==> s.frames[|s.frames| - 1].names != []
  {
    if s.frames == [] || s.path == "" then (false, s)
    else
      var l := |s.frames| - 1;
      var f := s.frames[l];
      var n := Normal(instnumber, |f.names|);
      var c := f.names[n - 1];
      var stem := s.path[..|s.path| - 1];
      if LastDot(stem) < 0 then (false, s)
      else (true, s.(path := stem[..LastDot(stem) + 1] + c + ".",
          frames := s.frames[l := f.(instNumber := n, component := c)]))
  }

  predicate EndsInDot(p: string) { p != "" && p[|p| - 1] == '.' }

  /** The two agree on level, path, copies, names and view, and on the port maps of the levels above. */
  predicate SameButPorts(s: Stack, t: Stack) {
    s.(ports := t.ports) == t
  }

  /** Descending into a copy and then changing the path to another copy, against descending into that copy.  Path,
      copy, names and view come out the same if and only if the name of the first copy has no dot.  The whole
      state does if and only if, besides, both copies see the same nets: the port map is not rebuilt. */
  lemma ChangePathIsDescendExactlyWhen(s: Stack, i: Instance, a: int, j: int, child: View)
    requires GoodInstance(i) && i.name != "" && a != 0 && j != 0 && EndsInDot(s.path) && |s.frames| + 1 < CADMAXHIER
    ensures var s1 := Descend(s, i, a, false, Entered(true, child)).1;
            var s2 := Descend(s, i, j, false, Entered(true, child)).1;
            var (ok, r) := ChangePath(s1, j);
            var from, to, m := ChosenCopy(i, a, false), ChosenCopy(i, j, false), |i.names|;
            && ok
            && (SameButPorts(r, s2) <==> '.' !in i.names[from - 1])
            && (r == s2 <==> '.' !in i.names[from - 1] && PortMap(i.pins, from, m) == PortMap(i.pins, to, m))
  {
    hide LastDot, PortMap;
    var s1, s2 := Descend(s, i, a, false, Entered(true, child)).1, Descend(s, i, j, false, Entered(true, child)).1;
    var name := i.names[ChosenCopy(i, a, false) - 1];
    StemOfChild(s.path, name);
    assert s1.path[..|s1.path| - 1] == s.path + name;
    var n := Normal(j, |i.names|);
    assert n == ChosenCopy(i, j, false);
    assert s1.frames[|s.frames| := s1.frames[|s.frames|].(instNumber := n, component := i.names[n - 1])] == s2.frames;
    if '.' in name {
      assert |ChangePath(s1, j).1.path| > |s2.path|;
    }
  }

  /** The same, read down to the pins. */
  lemma ChangePathIsDescendPerPin(s: Stack, i: Instance, a: int, j: int, child: View)
    requires GoodInstance(i) && i.name != "" && a != 0 && j != 0 && EndsInDot(s.path) && |s.frames| + 1 < CADMAXHIER
    requires DistinctBits(i.pins)
    ensures var s1 := Descend(s, i, a, false, Entered(true, child)).1;
            var s2 := Descend(s, i, j, false, Entered(true, child)).1;
            var from, to := ChosenCopy(i, a, false), ChosenCopy(i, j, false);
            ChangePath(s1, j).1 == s2 <==> '.' !in i.names[from - 1] && PinsAgree(i.pins, from, to, |i.names|)
  {
    hide Descend, ChangePath, PortMap, PinsAgree;
    ChangePathIsDescendExactlyWhen(s, i, a, j, child);
    PortMapsAgreeExactlyWhen(i.pins, ChosenCopy(i, a, false), ChosenCopy(i, j, false), |i.names|);
  }

  /** X1[1:0] with pin A on the nets N1,N0: after entering the first copy and changing to the second, the path is
      that of the second copy but A still resolves to N1. */
  lemma ChangedCopyKeepsOldNets(s: Stack, child: View)
    requires EndsInDot(s.path) && |s.frames| + 1 < CADMAXHIER
    ensures var i := Instance("X1[1:0]", ["X1[1]", "X1[0]"], [Pin(["A"], ["N1", "N0"])], 0, false);
            assert GoodInstance(i);
            var s2 := Descend(s, i, 2, false, Entered(true, child)).1;
            var r := ChangePath(Descend(s, i, 1, false, Entered(true, child)).1, 2).1;
            r.path == s2.path && Lookup(r.ports, "A") == Some("N1") && Lookup(s2.ports, "A") == Some("N0")
  {
    hide PortMap, LastDot, SameButPorts;
    var pins := [Pin(["A"], ["N1", "N0"])];
    var i := Instance("X1[1:0]", ["X1[1]", "X1[0]"], pins, 0, false);
    ChangePathIsDescendExactlyWhen(s, i, 1, 2, child);
    OneBitPin();
    assert '.' !in i.names[0];
    SameButPortsPaths(ChangePath(Descend(s, i, 1, false, Entered(true, child)).1, 2).1,
        Descend(s, i, 2, false, Entered(true, child)).1);
  }

  lemma SameButPortsPaths(s: Stack, t: Stack)
    requires SameButPorts(s, t)
    ensures s.path == t.path
  {
  }

  lemma OneBitPin()
    ensures var pins := [Pin(["A"], ["N1", "N0"])];
            GoodPins(pins) && Lookup(PortMap(pins, 1, 2), "A") == Some("N1")
                && Lookup(PortMap(pins, 2, 2), "A") == Some("N0")
  {
    var pins := [Pin(["A"], ["N1", "N0"])];
    hide PortMap;
    PortMapReads(pins, 1, 2, 0, 1);
    PortMapReads(pins, 2, 2, 0, 1);
  }

  /** What change_sch_path takes for the parent's path. */
  lemma StemOfChild(path: string, name: string)
    requires EndsInDot(path)
    ensures var d := LastDot(path + name);
            && d >= |path| - 1
            && (d == |path| - 1 <==> '.' !in name)
            && (d == |path| - 1 ==> (path + name)[..d + 1] == path)
  {
    var stem := path + name;
    assert stem[|path| - 1] == '.';
    if k :| 0 <= k < |name| && name[k] == '.' {
      assert stem[|path| + k] == '.';
    }
    assert forall k :: |path| <= k < |stem| ==> stem[k] == name[k - |path|];
  }

  // ---- which copy is entered ----

  /** The user is asked for a number: a vector instance, entered copy by copy, with no number given. */
  predicate Asked(i: Instance, instnumber: int, plain: bool) {
    instnumber == 0 && !plain && i.name != "" && |i.names| > 1
  }

  /** A number that is typed counts as if it had been given, and 0 or no number as 1, the leftmost copy.  If none is
      asked for, 0 is the leftmost copy, too. */
  lemma TypedNumberIsUsed(s: Stack, i: Instance, plain: bool, entry: Entry)
    requires GoodInstance(i)
    ensures var r := Descend(s, i, 0, plain, entry);
            if !Asked(i, 0, plain) then r == Descend(s, i, 1, plain, entry)
            else if i.cancelled then r == (false, s)
            else r == Descend(s, i, if i.typed == 0 then 1 else i.typed, plain, entry)
  {
    hide PortMap, FindNth;
  }

  /** descend_schematic leaves everything as it was if and only if the stack is full, the instance cannot be entered,
      or the user cancels. */
  lemma DescendRefusedExactlyWhen(s: Stack, i: Instance, instnumber: int, plain: bool, entry: Entry)
    requires GoodInstance(i)
    ensures var (ok, r) := Descend(s, i, instnumber, plain, entry);
            && (r == s <==> |s.frames| >= 39 || entry.Refused? || (Asked(i, instnumber, plain) && i.cancelled))
            && (r == s ==> !ok) && (r != s ==> |r.frames| == |s.frames| + 1 && entry.Entered? && ok == entry.loaded)
  {
    hide PortMap, FindNth;
  }

  /** The copy entered: its name extends the path, its number is recorded, and the pins see its nets.  The number is
      the one given or typed, counted from the right if negative, and 1 if there is no such copy. */
  lemma CopyEntered(s: Stack, i: Instance, instnumber: int, entry: Entry)
    requires GoodInstance(i) && i.name != "" && |s.frames| < 39 && entry.Entered?
    requires Asked(i, instnumber, false) ==> !i.cancelled
    ensures var r, mult := Descend(s, i, instnumber, false, entry).1, |i.names|;
            var given := if instnumber == 0 && mult > 1 then i.typed else instnumber;
            var n := if 1 <= given <= mult then given else if -mult <= given < 0 then mult + 1 + given else 1;
            && r.path == s.path + i.names[n - 1] + "."
            && r.frames == s.frames + [Frame(s.path, n, i.names, i.names[n - 1], s.view, s.ports)]
            && r.view == entry.view && r.ports == PortMap(i.pins, n, mult)
  {
    hide PortMap, FindNth;
  }

  /** Without choosing a copy the first name of the list extends the path, or nothing if the instance has no name. */
  lemma PlainEntered(s: Stack, i: Instance, instnumber: int, plain: bool, entry: Entry)
    requires GoodInstance(i) && (plain || i.name == "") && |s.frames| < 39 && entry.Entered?
    ensures var r := Descend(s, i, instnumber, plain, entry).1;
            var c := if i.name == "" then "" else FindNth(i.name, ',', 1);
            && r.path == s.path + c + "."
            && r.frames == s.frames + [Frame(s.path, 1, i.names, c, s.view, s.ports)]
            && r.view == entry.view && r.ports == PortMap(i.pins, 1, 1)
  {
    hide PortMap, FindNth;
  }

  /** go_back stays where it is if and only if it is at the top or the user keeps the level open. */
  lemma GoBackStaysExactlyWhen(s: Stack, cancelled: bool)
    ensures GoBack(s, cancelled) == s <==> s.frames == [] || cancelled
    ensures GoBack(s, cancelled) != s ==> |GoBack(s, cancelled).frames| == |s.frames| - 1
  {
  }

  /** change_sch_path fails, and then changes nothing, if and only if it is called at the top or the path has no dot
      before its last character; 0 and 1 both mean the leftmost copy. */
  lemma ChangeRefusedExactlyWhen(s: Stack, instnumber: int)
    requires s.frames != [] ==> s.frames[|s.frames| - 1].names != []
    ensures !ChangePath(s, instnumber).0 <==> s.frames == [] || forall k :: 0 <= k < |s.path| - 1 ==> s.path[k] != '.'
    ensures !ChangePath(s, instnumber).0 ==> ChangePath(s, instnumber).1 == s
    ensures ChangePath(s, 0) == ChangePath(s, 1)
  {
    if s.path != "" {
      var stem := s.path[..|s.path| - 1];
      assert forall k :: 0 <= k < |stem| ==> stem[k] == s.path[k];
      if LastDot(stem) >= 0 {
        assert s.path[LastDot(stem)] == '.';
      }
    }
  }

  // ---- runs ----

  datatype Command =
    | Down(i: Instance, instnumber: int, plain: bool, entry: Entry)
    | Up(cancelled: bool)
    | Change(instnumber: int)
    | Look(view: View)

  predicate GoodStack(s: Stack) {
    |s.frames| < CADMAXHIER && forall l :: 0 <= l < |s.frames| ==> s.frames[l].names != []
  }

  predicate GoodCommand(c: Command) { c.Down? ==> GoodInstance(c.i) }

  predicate GoodRun(cs: seq<Command>) { forall k :: 0 <= k < |cs| ==> GoodCommand(cs[k]) }

  function Do(s: Stack, c: Command): (r: Stack)
    requires GoodStack(s) && GoodCommand(c)
    ensures GoodStack(r)
  {
    match c
    case Down(i, n, plain, entry) => Descend(s, i, n, plain, entry).1
    case Up(cancelled) => GoBack(s, cancelled)
    case Change(n) => ChangePath(s, n).1
    case Look(v) => s.(view := v)
  }

  function DoAll(s: Stack, cs: seq<Command>): (r: Stack)
    requires GoodStack(s) && GoodRun(cs)
    ensures GoodStack(r)
  {
    if cs == [] then s else Do(DoAll(s, cs[..|cs| - 1]), cs[|cs| - 1])
  }

  /** At least d levels deep after every prefix of the run. */
  ghost predicate StaysBelow(s: Stack, cs: seq<Command>, d: nat)
    requires GoodStack(s) && GoodRun(cs)
  {
    && |DoAll(s, cs).frames| >= d
    && (cs != [] ==> StaysBelow(s, cs[..|cs| - 1], d))
  }

  /** A run that never comes up above depth d leaves the levels above alone, port maps included: of the frame at
      depth d - 1 only the copy can have changed. */
  lemma {:induction false} LevelsAboveKept(s: Stack, cs: seq<Command>, d: nat)
    requires GoodStack(s) && GoodRun(cs) && d >= 1 && StaysBelow(s, cs, d)
    ensures var r := DoAll(s, cs);
            && |r.frames| >= d && |s.frames| >= d && r.frames[..d - 1] == s.frames[..d - 1]
            && SameButCopy(r.frames[d - 1], s.frames[d - 1])
  {
    if cs == [] {
    } else {
      var n := |cs| - 1;
      LevelsAboveKept(s, cs[..n], d);
      StepKeepsLevels(DoAll(s, cs[..n]), cs[n], d);
    }
  }

  predicate SameButCopy(f: Frame, g: Frame) {
    f == g.(instNumber := f.instNumber, component := f.component)
  }

  lemma StepKeepsLevels(s: Stack, c: Command, d: nat)
    requires GoodStack(s) && GoodCommand(c) && 1 <= d <= |s.frames| && d <= |Do(s, c).frames|
    ensures Do(s, c).frames[..d - 1] == s.frames[..d - 1]
    ensures SameButCopy(Do(s, c).frames[d - 1], s.frames[d - 1])
  {
    hide PortMap, LastDot;
  }

  /** Coming back restores everything: after a descent, any run below it that ends at its depth, and one go_back,
      the level, path, copies, names, view and port maps are what they were. */
  lemma BalancedRunRestores(s: Stack, i: Instance, instnumber: int, plain: bool, entry: Entry, cs: seq<Command>)
    requires GoodStack(s) && GoodInstance(i) && GoodRun(cs)
    requires var s1 := Descend(s, i, instnumber, plain, entry).1;
             |s1.frames| > |s.frames| && StaysBelow(s1, cs, |s1.frames|) && |DoAll(s1, cs).frames| == |s1.frames|
    ensures GoBack(DoAll(Descend(s, i, instnumber, plain, entry).1, cs), false) == s
  {
    hide PortMap;
    var s1 := Descend(s, i, instnumber, plain, entry).1;
    LevelsAboveKept(s1, cs, |s1.frames|);
    assert s1.frames[..|s1.frames| - 1] == s.frames;
  }

  // ---- paths along a run ----

  /** Path of level l. */
  function PathAt(s: Stack, l: nat): string
    requires l <= |s.frames|
  {
    if l < |s.frames| then s.frames[l].path else s.path
  }

  /** Each level's path is its parent's path, the instance entered, and a dot. */
  ghost predicate Linked(s: Stack) {
    && EndsInDot(PathAt(s, 0))
    && forall l :: 0 <= l < |s.frames| ==> PathAt(s, l + 1) == PathAt(s, l) + s.frames[l].component + "."
  }

  lemma LinkedEndsInDot(s: Stack, l: nat)
    requires Linked(s) && l <= |s.frames|
    ensures EndsInDot(PathAt(s, l))
  {
    if l > 0 {
      assert PathAt(s, l - 1 + 1) == PathAt(s, l - 1) + s.frames[l - 1].component + ".";
    }
  }

  /** The copy left by a change of path has a name without a dot. */
  predicate ChangeDotFree(s: Stack, c: Command) {
    c.Change? && s.frames != [] ==> '.' !in s.frames[|s.frames| - 1].component
  }

  /** Only a change of path away from a copy whose name has a dot breaks the chain of paths. */
  lemma DoKeepsLinkedExactlyWhen(s: Stack, c: Command)
    requires GoodStack(s) && GoodCommand(c) && Linked(s)
    ensures Linked(Do(s, c)) <==> ChangeDotFree(s, c)
  {
    hide PortMap, LastDot, FindNth;
    var r := Do(s, c);
    if c.Change? && s.frames != [] {
      ChangeKeepsLinkedExactlyWhen(s, c.instnumber);
    } else {
      assert forall l :: 0 <= l <= |s.frames| && l <= |r.frames| ==> PathAt(r, l) == PathAt(s, l);
    }
  }

  lemma ChangeKeepsLinkedExactlyWhen(s: Stack, n: int)
    requires GoodStack(s) && Linked(s) && s.frames != []
    ensures Linked(ChangePath(s, n).1) <==> '.' !in s.frames[|s.frames| - 1].component
  {
    hide LastDot;
    var r := ChangePath(s, n).1;
    var l := |s.frames| - 1;
    var p, name := PathAt(s, l), s.frames[l].component;
    LinkedEndsInDot(s, l);
    assert PathAt(s, l + 1) == p + name + ".";
    assert s.path[..|s.path| - 1] == p + name;
    StemOfChild(p, name);
    var c := s.frames[l].names[Normal(n, |s.frames[l].names|) - 1];
    assert r.path == (p + name)[..LastDot(p + name) + 1] + c + ".";
    assert r.frames[l].component == c;
    assert forall m :: 0 <= m <= l ==> PathAt(r, m) == PathAt(s, m);
    if '.' in name {
      assert |r.path| > |p + c + "."|;
      assert PathAt(r, l + 1) != PathAt(r, l) + c + ".";
    } else {
      assert r.path == p + c + ".";
    }
  }

  ghost predicate LinkedThroughout(s: Stack, cs: seq<Command>)
    requires GoodStack(s) && GoodRun(cs)
  {
    && Linked(DoAll(s, cs))
    && (cs != [] ==> LinkedThroughout(s, cs[..|cs| - 1]))
  }

  predicate ChangesDotFree(s: Stack, cs: seq<Command>)
    requires GoodStack(s) && GoodRun(cs)
  {
    cs != [] ==>
      && ChangesDotFree(s, cs[..|cs| - 1])
      && ChangeDotFree(DoAll(s, cs[..|cs| - 1]), cs[|cs| - 1])
  }

  /** For every run: the paths stay chained at every step if and only if no step changes the path away from a copy
      whose name has a dot.  Descents into names with dots do no harm by themselves. */
  lemma {:induction false} RunLinkedExactlyWhen(s: Stack, cs: seq<Command>)
    requires GoodStack(s) && GoodRun(cs) && Linked(s)
    ensures LinkedThroughout(s, cs) <==> ChangesDotFree(s, cs)
  {
    if cs == [] {
    } else {
      var n := |cs| - 1;
      RunLinkedExactlyWhen(s, cs[..n]);
      if LinkedThroughout(s, cs[..n]) {
        DoKeepsLinkedExactlyWhen(DoAll(s, cs[..n]), cs[n]);
      }
    }
  }

  /** What the path was extended by is the copy on record. */
  predicate Tied(f: Frame) {
    1 <= f.instNumber <= |f.names| && f.component == f.names[f.instNumber - 1]
  }

  predicate AllTied(s: Stack) { forall l :: 0 <= l < |s.frames| ==> Tied(s.frames[l]) }

  /** No descent asks for the whole name to be appended, and every instance entered has a name. */
  predicate ChoosesCopies(cs: seq<Command>) {
    forall k :: 0 <= k < |cs| && cs[k].Down? ==> !cs[k].plain && cs[k].i.name != ""
  }

  lemma DoKeepsTied(s: Stack, c: Command)
    requires GoodStack(s) && GoodCommand(c) && AllTied(s)
    requires c.Down? ==> !c.plain && c.i.name != ""
    ensures AllTied(Do(s, c))
  {
    hide PortMap, LastDot;
  }

  /** Along such a run that changes away from dot-free names only, the path of every level is its parent's path,
      the name of the copy on record, and a dot. */
  lemma {:induction false} RunPaths(s: Stack, cs: seq<Command>)
    requires GoodStack(s) && GoodRun(cs) && Linked(s) && AllTied(s) && ChoosesCopies(cs) && ChangesDotFree(s, cs)
    ensures var r := DoAll(s, cs);
            && AllTied(r)
            && forall l :: 0 <= l < |r.frames| ==>
                             PathAt(r, l + 1) == PathAt(r, l) + r.frames[l].names[r.frames[l].instNumber - 1] + "."
  {
    RunLinkedExactlyWhen(s, cs);
    RunKeepsTied(s, cs);
  }

  lemma {:induction false} RunKeepsTied(s: Stack, cs: seq<Command>)
    requires GoodStack(s) && GoodRun(cs) && AllTied(s) && ChoosesCopies(cs)
    ensures AllTied(DoAll(s, cs))
  {
    if cs == [] {
    } else {
      var n := |cs| - 1;
      RunKeepsTied(s, cs[..n]);
      DoKeepsTied(DoAll(s, cs[..n]), cs[n]);
    }
  }

  // ---- the context arrays ----

  class Context {
    const schPath: array<string>
    const schInstNumber: array<int>
    const hierNames: array<seq<string>>
    const zoomArray: array<View>
    const portmap: array<Ports>
    var currsch: nat
    var view: View
    ghost var components: seq<string>

    ghost predicate Valid()
      reads this
    {
      && schPath.Length == schInstNumber.Length == hierNames.Length == zoomArray.Length == portmap.Length == CADMAXHIER
      && currsch < CADMAXHIER && |components| == currsch
    }

    ghost function Footprint(): set<object> {
      {this, schPath, schInstNumber, hierNames, zoomArray, portmap}
    }

    ghost function FrameAt(l: nat): Frame
      requires Valid() && l < currsch
      reads this, schPath, schInstNumber, hierNames, zoomArray, portmap
    {
      Frame(schPath[l], schInstNumber[l], hierNames[l], components[l], zoomArray[l], portmap[l])
    }

    ghost function State(): Stack
      requires Valid()
      reads this, schPath, schInstNumber, hierNames, zoomArray, portmap
    {
      Stack(seq(currsch, l requires Valid() && 0 <= l < currsch
                           reads this, schPath, schInstNumber, hierNames, zoomArray, portmap
                         => FrameAt(l)), schPath[currsch], view, portmap[currsch])
    }

    constructor (top: View)
      ensures Valid() && fresh(Footprint() - {this}) && State() == Stack([], ".", top, map[])
    {
      schPath := new string[CADMAXHIER](_ => ".");
      schInstNumber := new int[CADMAXHIER](_ => 0);
      hierNames := new seq<string>[CADMAXHIER](_ => []);
      zoomArray := new View[CADMAXHIER](_ => View(0.0, 0.0, 1.0));
      portmap := new Ports[CADMAXHIER](_ => map[]);
      currsch, view, components := 0, top, [];
    }

    /** descend_schematic */
    method DescendSchematic(i: Instance, instnumber: int, plain: bool, entry: Entry) returns (ok: bool)
      requires Valid() && GoodInstance(i)
      modifies Footprint()
      ensures Valid() && (ok, State()) == Descend(old(State()), i, instnumber, plain, entry)
    {
      hide PortMap, FindNth, ChosenCopy, Component, Copies;
      if currsch + 1 >= CADMAXHIER || entry.Refused? {
        return false;
      }
      var n, str, mult := ChooseCopy(i, instnumber, plain);
      if n == 0 {
        return false;
      }
      var ports := BuildPortMap(i.pins, n, mult);
      PushLevel(n, i.names, str, ports, entry.view);
      return entry.loaded;
    }

    /** The writes of descend_schematic to the context arrays. */
    method PushLevel(n: int, names: seq<string>, str: string, ports: Ports, child: View)
      requires Valid() && currsch + 1 < CADMAXHIER
      modifies Footprint()
      ensures Valid()
      ensures State() == var s := old(State());
                         Stack(s.frames + [Frame(s.path, n, names, str, s.view, s.ports)], s.path + str + ".", child,
                             ports)
    {
      ghost var s0 := State();
      portmap[currsch + 1] := ports;
      schPath[currsch + 1] := schPath[currsch] + str + ".";
      hierNames[currsch] := names;
      schInstNumber[currsch] := n;
      zoomArray[currsch] := view;
      components := components + [str];
      currsch := currsch + 1;
      view := child;
      assert State().frames == s0.frames + [Frame(s0.path, n, names, str, s0.view, s0.ports)];
    }

    /** Which copy to enter, what it adds to the path, and of how many copies; 0 if the user cancels. */
    static method ChooseCopy(i: Instance, instnumber: int, plain: bool) returns (n: int, str: string, mult: nat)
      requires GoodInstance(i)
      ensures n == ChosenCopy(i, instnumber, plain) && mult == Copies(i, plain)
      ensures n == 0 <==> Asked(i, instnumber, plain) && i.cancelled
      ensures n > 0 && !plain && i.name != "" ==>
                var given, m := if instnumber == 0 && |i.names| > 1 then i.typed else instnumber, |i.names|;
                n == if 1 <= given <= m then given else if -m <= given < 0 then m + 1 + given else 1
      ensures n > 0 ==> str == Component(i, n, plain)
    {
      var names := i.names;
      mult := |names|;
      if i.name == "" {
        names, mult := [""], 1;
      } else if plain {
        names, mult := [FindNth(i.name, ',', 1)], 1;
      }
      n := 1;
      if mult > 1 {
        n := instnumber;
        if instnumber == 0 {
          if i.cancelled {
            return 0, "", mult;
          }
          n := i.typed;
        }
        if n < 0 {
          n := n + mult + 1;
        }
        if n < 1 || n > mult {
          n := 1;
        }
      }
      str := names[n - 1];
    }

    /** go_back */
    method Ascend(cancelled: bool)
      requires Valid()
      modifies this, portmap
      ensures Valid() && State() == GoBack(old(State()), cancelled)
      ensures !cancelled && old(currsch) > 0 ==> portmap[old(currsch)] == map[]
    {
      if currsch > 0 {
        if cancelled {
          return;
        }
        ghost var s0 := State();
        portmap[currsch] := map[];
        currsch := currsch - 1;
        components := components[..currsch];
        view := zoomArray[currsch];
        assert State().frames == s0.frames[..currsch];
      }
    }

    /** The writes of change_sch_path to the context arrays. */
    method SetTop(n: int, name: string, path: string)
      requires Valid() && currsch > 0
      modifies Footprint() - {portmap}
      ensures Valid()
      ensures State() == var s, l := old(State()), old(currsch) - 1;
                         s.(path := path, frames := s.frames[l := s.frames[l].(instNumber := n, component := name)])
    {
      ghost var s0 := State();
      schPath[currsch] := path;
      schInstNumber[currsch - 1] := n;
      components := components[currsch - 1 := name];
      assert State().frames ==
          s0.frames[currsch - 1 := s0.frames[currsch - 1].(instNumber := n, component := name)];
    }

    /** change_sch_path */
    method ChangeSchPath(instnumber: int) returns (ok: bool)
      requires Valid() && (currsch > 0 ==> hierNames[currsch - 1] != [])
      modifies Footprint() - {portmap}
      ensures Valid() && (ok, State()) == ChangePath(old(State()), instnumber)
    {
      hide LastDot;
      if currsch == 0 {
        return false;
      }
      var level := currsch - 1;
      var mult := |hierNames[level]|;
      var n := instnumber;
      if n < 0 {
        n := n + mult + 1;
      }
      if n < 1 || n > mult {
        n := 1;
      }
      var path := schPath[currsch];
      if path == "" {
        return false;
      }
      var stem := path[..|path| - 1];
      var dot := LastDot(stem);
      if dot < 0 {
        return false;
      }
      SetTop(n, hierNames[level][n - 1], stem[..dot + 1] + hierNames[level][n - 1] + ".");
      return true;
    }
  }
}
