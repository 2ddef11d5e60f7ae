/** The routing table of kernel/net/tcpip.c: longest match, RFC 1812, section 5.2.4.3. */
module Routes {
  import opened Prelude
  import opened Bits

  const MAX_ROUTES: nat := 32

  /** ip_addr_t: four bytes. */
  datatype Addr = Addr(b0: nat, b1: nat, b2: nat, b3: nat) {
    function At(j: nat): nat
      requires j < 4
    {
      if j == 0 then b0 else if j == 1 then b1 else if j == 2 then b2 else b3
    }
  }

  datatype Route = Route(network: Addr, netmask: Addr, gateway: Addr, dev: nat, metric: int)

  const NO_ROUTE: Route := Route(Addr(0, 0, 0, 0), Addr(0, 0, 0, 0), Addr(0, 0, 0, 0), 0, 0)

  // ----- Matching -----

  /** The number of mask bits. */
  function MaskLen(mask: Addr): nat {
    PopCount(mask.b0) + PopCount(mask.b1) + PopCount(mask.b2) + PopCount(mask.b3)
  }

  predicate Matches(r: Route, addr: Addr) {
    forall j :: 0 <= j < 4 ==> And(addr.At(j), r.netmask.At(j)) == r.network.At(j)
  }

  /** Route k is the earliest of the matching routes with the most mask bits. */
  ghost predicate IsBest(routes: seq<Route>, addr: Addr, k: nat) {
    && k < |routes| && Matches(routes[k], addr)
    && (forall i :: 0 <= i < |routes| && Matches(routes[i], addr) ==> MaskLen(routes[i].netmask) <= MaskLen(routes[k].netmask))
    && (forall i :: 0 <= i < k && Matches(routes[i], addr) ==> MaskLen(routes[i].netmask) < MaskLen(routes[k].netmask))
  }

  ghost predicate NoneMatches(routes: seq<Route>, addr: Addr) {
    forall i :: 0 <= i < |routes| ==> !Matches(routes[i], addr)
  }

  /** The result of a lookup is determined by the table. */
  lemma BestIsUnique(routes: seq<Route>, addr: Addr, j: nat, k: nat)
    requires IsBest(routes, addr, j) && IsBest(routes, addr, k)
    ensures j == k && !NoneMatches(routes, addr)
  {
    assert !(j < k) && !(k < j);
  }

  /** What route_lookup returns: an index, or -1. */
  ghost predicate IsResult(routes: seq<Route>, addr: Addr, best: int) {
    if best == -1 then NoneMatches(routes, addr) else 0 <= best && IsBest(routes, addr, best)
  }

  lemma Nothing(routes: seq<Route>, addr: Addr)
    requires routes == []
    ensures IsResult(routes, addr, -1)
  {
  }

  /** One more route: it wins if it matches with more bits than the best so far. */
  lemma OneMore(routes: seq<Route>, r: Route, addr: Addr, best: int)
    requires IsResult(routes, addr, best)
    ensures best != -1 ==> 0 <= best < |routes|
    ensures var wins := Matches(r, addr) && (best == -1 || MaskLen(r.netmask) > MaskLen(routes[best].netmask));
            IsResult(routes + [r], addr, if wins then |routes| else best)
  {
    hide Matches, MaskLen;
    var all := routes + [r];
    assert forall i :: 0 <= i < |routes| ==> all[i] == routes[i];
  }

  // ----- Contiguous masks -----

  /** The byte with its k highest bits set. */
  function PrefixByte(k: int): nat {
    if k <= 0 then 0 else if k >= 8 then 255
    else [0, 128, 192, 224, 240, 248, 252, 254][k]
  }

  function PrefixMask(n: nat): Addr {
    Addr(PrefixByte(n), PrefixByte(n - 8), PrefixByte(n - 16), PrefixByte(n - 24))
  }

  ghost predicate Contiguous(mask: Addr) {
    exists n: nat :: n <= 32 && mask == PrefixMask(n)
  }

  lemma {:induction false} Doubled(w: nat)
    requires w > 0
    ensures PopCount(2 * w) == PopCount(w) && PopCount(2 * w + 1) == PopCount(w) + 1
  {
    assert (2 * w) / 2 == w && (2 * w + 1) / 2 == w;
  }

  /** A byte that is a prefix of ones, shifted left bit by bit. */
  lemma Doublings(w: nat)
    requires w > 0
    ensures PopCount(2 * w) == PopCount(4 * w) == PopCount(8 * w) == PopCount(16 * w) == PopCount(w)
    ensures PopCount(32 * w) == PopCount(64 * w) == PopCount(128 * w) == PopCount(w)
  {
    hide PopCount;
    Doubled(w);
    Doubled(2 * w);
    Doubled(4 * w);
    Doubled(8 * w);
    Doubled(16 * w);
    Doubled(32 * w);
    Doubled(64 * w);
  }

  lemma PrefixByteCount(k: int)
    ensures PopCount(PrefixByte(k)) == if k <= 0 then 0 else if k >= 8 then 8 else k
  {
    assert PopCount(1) == 1;
    Doubled(1);
    Doubled(3);
    Doubled(7);
    Doubled(15);
    Doubled(31);
    Doubled(63);
    Doubled(127);
    Doublings(1);
    Doublings(3);
    Doublings(7);
    Doublings(15);
    Doublings(31);
    Doublings(63);
    Doublings(127);
    hide PopCount;
  }

  lemma PrefixMaskLen(n: nat)
    requires n <= 32
    ensures MaskLen(PrefixMask(n)) == n
  {
    PrefixByteCount(n);
    PrefixByteCount(n - 8);
    PrefixByteCount(n - 16);
    PrefixByteCount(n - 24);
  }

  // ----- Addresses as numbers -----

  ghost predicate IsAddress(a: Addr) {
    forall j :: 0 <= j < 4 ==> a.At(j) < 256
  }

  /** The 32-bit number in network order. */
  function Value(a: Addr): nat {
    ((a.b0 * 256 + a.b1) * 256 + a.b2) * 256 + a.b3
  }

  lemma AppendByte(high: nat, b: nat, j: nat)
    requires b < 256
    ensures TestBit(high * 256 + b, j) == if j < 8 then TestBit(b, j) else TestBit(high, j - 8)
  {
    assert Pow2(8) == 256;
    TestCut(high * 256 + b, 8, high, b, j);
  }

  lemma ValueBit(a: Addr, j: nat)
    requires IsAddress(a) && j < 32
    ensures TestBit(Value(a), j) == TestBit(a.At(3 - j / 8), j % 8)
  {
    assert a.At(0) < 256 && a.At(1) < 256 && a.At(2) < 256 && a.At(3) < 256;
    var v1 := a.b0 * 256 + a.b1;
    var v2 := v1 * 256 + a.b2;
    AppendByte(v2, a.b3, j);
    if j >= 8 {
      AppendByte(v1, a.b2, j - 8);
    }
    if j >= 16 {
      AppendByte(a.b0, a.b1, j - 16);
    }
  }

  lemma ValueBelow(a: Addr)
    requires IsAddress(a)
    ensures Value(a) < Pow2(32)
  {
    assert a.At(0) < 256 && a.At(1) < 256 && a.At(2) < 256 && a.At(3) < 256;
    assert Pow2(8) == 256;
    Pow2Sum(8, 8);
    Pow2Sum(16, 16);
  }

  lemma {:induction false} AndAtMost(a: nat, b: nat)
    ensures And(a, b) <= a
  {
    if a != 0 && b != 0 {
      AndAtMost(a / 2, b / 2);
    }
  }

  ghost predicate BitsMatch(a: nat, mask: nat, x: nat) {
    forall b: nat :: b < 8 ==> TestBit(x, b) == (TestBit(a, b) && TestBit(mask, b))
  }

  lemma ByteMatches(a: nat, mask: nat, x: nat)
    requires a < 256 && x < 256
    ensures And(a, mask) == x <==> BitsMatch(a, mask, x)
  {
    assert Pow2(8) == 256;
    AndAtMost(a, mask);
    forall b: nat | b < 8 ensures TestBit(And(a, mask), b) == (TestBit(a, b) && TestBit(mask, b)) {
      TestAnd(a, mask, b);
    }
    if BitsMatch(a, mask, x) {
      BitsDetermine(And(a, mask), x, 8);
    }
  }

  /** Bit j of the network is that of the address where the mask has a one, and zero elsewhere. */
  ghost predicate BitMatches(r: Route, addr: Addr, j: nat) {
    TestBit(Value(r.network), j) == (TestBit(Value(addr), j) && TestBit(Value(r.netmask), j))
  }

  lemma BitOfByte(r: Route, addr: Addr, i: nat, b: nat)
    requires IsAddress(addr) && IsAddress(r.netmask) && IsAddress(r.network) && i < 4 && b < 8
    ensures BitMatches(r, addr, 8 * (3 - i) + b) <==>
            TestBit(r.network.At(i), b) == (TestBit(addr.At(i), b) && TestBit(r.netmask.At(i), b))
  {
    var j := 8 * (3 - i) + b;
    assert 3 - j / 8 == i && j % 8 == b;
    ValueBit(r.network, j);
    ValueBit(addr, j);
    ValueBit(r.netmask, j);
  }

  /** Byte by byte is bit by bit: a route matches if the 32-bit address under its mask is its network. */
  lemma MatchesBits(r: Route, addr: Addr)
    requires IsAddress(addr) && IsAddress(r.netmask) && IsAddress(r.network)
    ensures Matches(r, addr) <==> forall j: nat :: j < 32 ==> BitMatches(r, addr, j)
  {
    hide BitMatches, And, TestBit;
    if Matches(r, addr) {
      forall j: nat | j < 32 ensures BitMatches(r, addr, j) {
        var i := 3 - j / 8;
        assert And(addr.At(i), r.netmask.At(i)) == r.network.At(i);
        ByteMatches(addr.At(i), r.netmask.At(i), r.network.At(i));
        BitOfByte(r, addr, i, j % 8);
        assert j == 8 * (3 - i) + j % 8;
      }
    }
    if forall j: nat :: j < 32 ==> BitMatches(r, addr, j) {
      forall i | 0 <= i < 4 ensures And(addr.At(i), r.netmask.At(i)) == r.network.At(i) {
        ByteMatches(addr.At(i), r.netmask.At(i), r.network.At(i));
        forall b: nat | b < 8
          ensures TestBit(r.network.At(i), b) == (TestBit(addr.At(i), b) && TestBit(r.netmask.At(i), b))
        {
          BitOfByte(r, addr, i, b);
        }
        assert BitsMatch(addr.At(i), r.netmask.At(i), r.network.At(i));
      }
    }
  }

  lemma {:induction false} PrefixByteBit(k: int, b: nat)
    requires b < 8
    ensures PrefixByte(k) < 256 && (TestBit(PrefixByte(k), b) <==> 8 - k <= b)
  {
    if k <= 0 {
      TestZero(b);
    } else if k >= 8 {
      assert Ones(8) == 255;
      TestOnes(8, b);
    } else {
      assert PrefixByte(k) == Pow2(8 - k) * Ones(k);
      TestCut(PrefixByte(k), 8 - k, Ones(k), 0, b);
      TestZero(b);
      if b >= 8 - k {
        TestOnes(k, b - (8 - k));
      }
    }
  }

  /** The mask of length n has its n highest bits set and no other. */
  lemma PrefixMaskBit(n: nat, j: nat)
    requires n <= 32 && j < 32
    ensures IsAddress(PrefixMask(n)) && (TestBit(Value(PrefixMask(n)), j) <==> 32 - n <= j)
  {
    PrefixByteBit(n, j % 8);
    PrefixByteBit(n - 8, j % 8);
    PrefixByteBit(n - 16, j % 8);
    PrefixByteBit(n - 24, j % 8);
    hide PrefixByte;
    ValueBit(PrefixMask(n), j);
  }

  /** The n highest of 32 bits agree, and the network has no other. */
  ghost predicate InPrefix(network: Addr, n: nat, addr: Addr)
    requires n <= 32
  {
    Value(addr) / Pow2(32 - n) == Value(network) / Pow2(32 - n) && Value(network) % Pow2(32 - n) == 0
  }

  /** The bits of `w` are those of `v` from bit k on. */
  ghost predicate CutBits(v: nat, w: nat, k: nat) {
    forall j: nat :: j < 32 ==> TestBit(w, j) == (k <= j && TestBit(v, j))
  }

  lemma CutBit(v: nat, cut: nat, k: nat, high: nat, low: nat)
    requires cut == Pow2(k) * high && v == cut + low && low < Pow2(k)
    ensures CutBits(v, cut, k)
  {
    forall j: nat | j < 32 ensures TestBit(cut, j) == (k <= j && TestBit(v, j)) {
      TestCut(v, k, high, low, j);
      TestCut(cut, k, high, 0, j);
      if j < k {
        TestZero(j);
      }
    }
  }

  lemma SameBits(v: nat, w: nat, cut: nat, k: nat)
    requires CutBits(v, w, k) && CutBits(v, cut, k) && w < Pow2(32) && cut < Pow2(32)
    ensures w == cut
  {
    hide TestBit, Pow2;
    BitsDetermine(w, cut, 32);
  }

  lemma Multiple(w: nat, p: nat, q: nat)
    requires 0 < p
    ensures w == p * q <==> w / p == q && w % p == 0
  {
    if w == p * q {
      DivisionIsUnique(w, p, q, 0);
    } else {
      assert w == p * (w / p) + w % p;
    }
  }

  lemma PrefixBits(r: Route, addr: Addr, n: nat)
    requires IsAddress(addr) && IsAddress(r.network) && n <= 32 && r.netmask == PrefixMask(n)
    ensures Matches(r, addr) <==> CutBits(Value(addr), Value(r.network), 32 - n)
  {
    PrefixMaskBit(n, 0);
    MatchesBits(r, addr);
    forall j: nat | j < 32 ensures TestBit(Value(r.netmask), j) <==> 32 - n <= j {
      PrefixMaskBit(n, j);
    }
    hide Value, PrefixMask;
    if Matches(r, addr) {
      forall j: nat | j < 32
        ensures TestBit(Value(r.network), j) == (32 - n <= j && TestBit(Value(addr), j))
      {
        assert BitMatches(r, addr, j);
      }
    }
  }

  /** With a mask of length n a route matches exactly the addresses that begin with the n bits of its network. */
  lemma MatchesPrefix(r: Route, addr: Addr, n: nat)
    requires IsAddress(addr) && IsAddress(r.network) && n <= 32 && r.netmask == PrefixMask(n)
    ensures Matches(r, addr) <==> InPrefix(r.network, n, addr)
  {
    hide Value, CutBits, Matches, PrefixMask, Pow2;
    ValueBelow(addr);
    ValueBelow(r.network);
    PrefixBits(r, addr, n);
    var p, v, w := Pow2(32 - n), Value(addr), Value(r.network);
    var cut := p * (v / p);
    CutBit(v, cut, 32 - n, v / p, v % p);
    if CutBits(v, w, 32 - n) {
      SameBits(v, w, cut, 32 - n);
    }
    Multiple(w, p, v / p);
  }

  /** A default route, 0.0.0.0 with mask 0.0.0.0, matches every address; no other network matches under that mask. */
  lemma DefaultRoute(r: Route, addr: Addr)
    requires IsAddress(addr) && IsAddress(r.network) && r.netmask == Addr(0, 0, 0, 0)
    ensures Matches(r, addr) <==> r.network == Addr(0, 0, 0, 0)
  {
    MatchesPrefix(r, addr, 0);
    ValueBelow(addr);
    ValueBelow(r.network);
    ZeroValue(r.network);
    hide Matches, Value;
    DivisionIsUnique(Value(addr), Pow2(32), 0, Value(addr));
    DivisionIsUnique(Value(r.network), Pow2(32), 0, Value(r.network));
  }

  /** A host route, with mask 255.255.255.255, matches its own address only. */
  lemma HostRoute(r: Route, addr: Addr)
    requires IsAddress(addr) && IsAddress(r.network) && r.netmask == Addr(255, 255, 255, 255)
    ensures Matches(r, addr) <==> r.network == addr
  {
    MatchesPrefix(r, addr, 32);
    ValueDetermines(r.network, addr);
    hide Matches, Value;
  }

  lemma ZeroValue(a: Addr)
    ensures Value(a) == 0 <==> a == Addr(0, 0, 0, 0)
  {
  }

  lemma ValueDetermines(a: Addr, b: Addr)
    requires IsAddress(a) && IsAddress(b)
    ensures Value(a) == Value(b) <==> a == b
  {
    assert a.At(0) < 256 && a.At(1) < 256 && a.At(2) < 256 && a.At(3) < 256;
    assert b.At(0) < 256 && b.At(1) < 256 && b.At(2) < 256 && b.At(3) < 256;
    if Value(a) == Value(b) {
      QuotientIsUnique(256, (a.b0 * 256 + a.b1) * 256 + a.b2, a.b3, (b.b0 * 256 + b.b1) * 256 + b.b2, b.b3);
      QuotientIsUnique(256, a.b0 * 256 + a.b1, a.b2, b.b0 * 256 + b.b1, b.b2);
      QuotientIsUnique(256, a.b0, a.b1, b.b0, b.b1);
    }
  }

  /** Every mask is that of a length, and every network an address. */
  ghost predicate HasLengths(routes: seq<Route>, lens: seq<nat>) {
    |lens| == |routes| && forall i :: 0 <= i < |routes| ==>
      lens[i] <= 32 && routes[i].netmask == PrefixMask(lens[i]) && IsAddress(routes[i].network)
  }

  /** The first of the routes with the longest prefix of the address, or -1 if there is none. */
  ghost predicate IsLongestPrefix(routes: seq<Route>, lens: seq<nat>, addr: Addr, best: int)
    requires HasLengths(routes, lens)
  {
    if best == -1 then forall i :: 0 <= i < |routes| ==> !InPrefix(routes[i].network, lens[i], addr)
    else
      && 0 <= best < |routes| && InPrefix(routes[best].network, lens[best], addr)
      && forall i :: 0 <= i < |routes| && InPrefix(routes[i].network, lens[i], addr) ==>
           lens[i] <= lens[best] && (i < best ==> lens[i] < lens[best])
  }

  /** What a lookup returns, in terms of prefixes of 32-bit numbers. */
  lemma LookupIsLongestPrefix(routes: seq<Route>, lens: seq<nat>, addr: Addr, best: int)
    requires HasLengths(routes, lens) && IsAddress(addr)
    ensures IsResult(routes, addr, best) <==> IsLongestPrefix(routes, lens, addr, best)
  {
    forall i | 0 <= i < |routes|
      ensures Matches(routes[i], addr) <==> InPrefix(routes[i].network, lens[i], addr)
      ensures MaskLen(routes[i].netmask) == lens[i]
    {
      MatchesPrefix(routes[i], addr, lens[i]);
      PrefixMaskLen(lens[i]);
    }
    hide Matches, InPrefix, MaskLen, PrefixMask, IsAddress;
  }

  /** Routes with contiguous masks of one length that match one address have one network and mask. */
  lemma SamePrefix(r: Route, s: Route, addr: Addr)
    requires Matches(r, addr) && Matches(s, addr) && Contiguous(r.netmask) && Contiguous(s.netmask)
    requires MaskLen(r.netmask) == MaskLen(s.netmask)
    ensures r.netmask == s.netmask && r.network == s.network
  {
    var n: nat :| n <= 32 && r.netmask == PrefixMask(n);
    var m: nat :| m <= 32 && s.netmask == PrefixMask(m);
    PrefixMaskLen(n);
    PrefixMaskLen(m);
    forall j | 0 <= j < 4 ensures r.network.At(j) == s.network.At(j) {
      assert And(addr.At(j), r.netmask.At(j)) == r.network.At(j);
      assert And(addr.At(j), s.netmask.At(j)) == s.network.At(j);
    }
    assert r.network.At(0) == s.network.At(0) && r.network.At(1) == s.network.At(1);
    assert r.network.At(2) == s.network.At(2) && r.network.At(3) == s.network.At(3);
  }

  ghost predicate AllContiguous(routes: seq<Route>) {
    forall i :: 0 <= i < |routes| ==> Contiguous(routes[i].netmask)
  }

  /** With contiguous masks the chosen prefix does not depend on the order of insertion. */
  lemma OrderIndependence(routes: seq<Route>, other: seq<Route>, addr: Addr, j: nat, k: nat)
    requires multiset(routes) == multiset(other) && AllContiguous(routes)
    requires IsBest(routes, addr, j) && IsBest(other, addr, k)
    ensures routes[j].network == other[k].network && routes[j].netmask == other[k].netmask
  {
    hide Matches, MaskLen, Contiguous;
    var i := Elsewhere(routes, other, k);
    var l := Elsewhere(other, routes, j);
    SamePrefix(routes[j], other[k], addr);
  }

  lemma Elsewhere(routes: seq<Route>, other: seq<Route>, k: nat) returns (i: nat)
    requires multiset(routes) == multiset(other) && k < |other|
    ensures i < |routes| && routes[i] == other[k]
  {
    assert other[k] in multiset(routes);
    i :| 0 <= i < |routes| && routes[i] == other[k];
  }

  lemma OrderIndependenceOfFailure(routes: seq<Route>, other: seq<Route>, addr: Addr)
    requires multiset(routes) == multiset(other)
    ensures NoneMatches(routes, addr) <==> NoneMatches(other, addr)
  {
    hide Matches;
    if NoneMatches(routes, addr) {
      forall k | 0 <= k < |other| ensures !Matches(other[k], addr) {
        var i := Elsewhere(routes, other, k);
      }
    }
    if NoneMatches(other, addr) {
      forall k | 0 <= k < |routes| ensures !Matches(routes[k], addr) {
        var i := Elsewhere(other, routes, k);
      }
    }
  }

  // ----- Deletion -----

  predicate SameNet(r: Route, network: Addr, netmask: Addr) {
    r.network == network && r.netmask == netmask
  }

  /** The table without its first route for this network and mask. */
  function Deleted(routes: seq<Route>, network: Addr, netmask: Addr): seq<Route> {
    if routes == [] then []
    else if SameNet(routes[0], network, netmask) then routes[1..]
    else [routes[0]] + Deleted(routes[1..], network, netmask)
  }

  lemma {:induction false} DeletedAt(routes: seq<Route>, network: Addr, netmask: Addr, k: nat)
    requires k <= |routes| && (forall i :: 0 <= i < k ==> !SameNet(routes[i], network, netmask))
    requires k < |routes| ==> SameNet(routes[k], network, netmask)
    ensures Deleted(routes, network, netmask) == if k < |routes| then routes[..k] + routes[k + 1..] else routes
  {
    if routes != [] && k > 0 {
      DeletedAt(routes[1..], network, netmask, k - 1);
    }
  }

  // ----- The table in place -----

  class RouteTable {
    const routes: array<Route>
    var count: nat

    ghost predicate Valid()
      reads this
    {
      routes.Length == MAX_ROUTES && count <= MAX_ROUTES
    }

    ghost function Contents(): seq<Route>
      requires Valid()
      reads this, routes
    {
      routes[..count]
    }

    /** route_init */
    constructor ()
      ensures Valid() && Contents() == [] && fresh(routes)
    {
      routes := new Route[MAX_ROUTES](_ => NO_ROUTE);
      count := 0;
    }

    /** route_add: without a gateway the slot keeps the one it had. */
    method Add(network: Addr, netmask: Addr, gateway: Option<Addr>, dev: nat, metric: int) returns (ret: int)
      requires Valid()
      modifies this, routes
      ensures Valid() && ret == (if |old(Contents())| < 32 then 0 else -1)
      ensures ret == -1 ==> Contents() == old(Contents())
      ensures ret == 0 ==> exists g :: (gateway.Some? ==> g == gateway.value)
                                       && Contents() == old(Contents()) + [Route(network, netmask, g, dev, metric)]
    {
      if count >= MAX_ROUTES {
        return -1;
      }
      var g := if gateway.Some? then gateway.value else routes[count].gateway;
      routes[count] := Route(network, netmask, g, dev, metric);
      count := count + 1;
      assert Contents() == old(Contents()) + [Route(network, netmask, g, dev, metric)];
      return 0;
    }

    /** route_del */
    method Delete(network: Addr, netmask: Addr) returns (ret: int)
      requires Valid()
      modifies this, routes
      ensures Valid() && Contents() == Deleted(old(Contents()), network, netmask)
      ensures ret == if exists r :: r in old(Contents()) && SameNet(r, network, netmask) then 0 else -1
    {
      ghost var was := Contents();
      var i := 0;
      while i < count
        invariant 0 <= i <= count && Contents() == was && Valid()
        invariant forall k :: 0 <= k < i ==> !SameNet(was[k], network, netmask)
      {
        if routes[i].network == network && routes[i].netmask == netmask {
          assert was[i] in was;
          DeletedAt(was, network, netmask, i);
          ShiftDown(i);
          return 0;
        }
        i := i + 1;
      }
      DeletedAt(was, network, netmask, i);
      return -1;
    }

    /** Shifts the routes behind slot `i` down by one. */
    method ShiftDown(i: nat)
      requires Valid() && i < count
      modifies this, routes
      ensures Valid() && Contents() == old(Contents())[..i] + old(Contents())[i + 1..]
    {
      ghost var was := Contents();
      var j := i;
      while j < count - 1
        invariant i <= j < count && count == old(count) && Valid()
        invariant forall k :: 0 <= k < i ==> routes[k] == was[k]
        invariant forall k :: i <= k < j ==> routes[k] == was[k + 1]
        invariant forall k :: j <= k < count ==> routes[k] == was[k]
      {
        routes[j] := routes[j + 1];
        j := j + 1;
      }
      count := count - 1;
    }

    /** The inner loops of route_lookup that count the mask bits of one byte. */
    static method CountBits(byte: nat) returns (len: nat)
      ensures len == PopCount(byte)
    {
      var mask: nat := byte;
      len := 0;
      while mask != 0
        invariant len + PopCount(mask) == PopCount(byte)
        decreases mask
      {
        len := len + mask % 2;
        mask := mask / 2;
      }
    }

    static method PrefixLength(netmask: Addr) returns (len: nat)
      ensures len == MaskLen(netmask)
    {
      var a := CountBits(netmask.b0);
      var b := CountBits(netmask.b1);
      var c := CountBits(netmask.b2);
      var d := CountBits(netmask.b3);
      len := a + b + c + d;
    }

    static method Match(r: Route, addr: Addr) returns (matches: bool)
      ensures matches == Matches(r, addr)
    {
      var j := 0;
      while j < 4
        invariant 0 <= j <= 4 && forall k :: 0 <= k < j ==> And(addr.At(k), r.netmask.At(k)) == r.network.At(k)
      {
        if And(addr.At(j), r.netmask.At(j)) != r.network.At(j) {
          return false;
        }
        j := j + 1;
      }
      return true;
    }

    /** route_lookup: the index of the best route, or -1 (NULL) exactly when none matches. */
    method Lookup(addr: Addr) returns (best: int)
      requires Valid()
      ensures IsResult(Contents(), addr, best)
      ensures forall lens :: HasLengths(Contents(), lens) && IsAddress(addr) ==>
                IsLongestPrefix(Contents(), lens, addr, best)
    {
      hide Matches, MaskLen, IsResult;
      Nothing(Contents()[..0], addr);
      best := -1;
      var bestLen: int := -1;
      var i := 0;
      while i < count
        invariant 0 <= i <= count && -1 <= best < i
        invariant bestLen == (if best == -1 then -1 else MaskLen(routes[best].netmask))
        invariant IsResult(Contents()[..i], addr, best)
      {
        OneMore(Contents()[..i], routes[i], addr, best);
        assert Contents()[..i + 1] == Contents()[..i] + [routes[i]];
        var len := PrefixLength(routes[i].netmask);
        var matches := Match(routes[i], addr);
        if matches && len > bestLen {
          best, bestLen := i, len;
        }
        i := i + 1;
      }
      assert Contents()[..i] == Contents();
      forall lens | HasLengths(Contents(), lens) && IsAddress(addr)
        ensures IsLongestPrefix(Contents(), lens, addr, best)
      {
        LookupIsLongestPrefix(Contents(), lens, addr, best);
      }
    }
  }
}
