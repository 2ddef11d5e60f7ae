/** The Internet checksum of kernel/net/tcpip.c: RFC 1071, sections 1 and 2, and RFC 791, section 3.1. */
module InternetChecksum {
  import opened Prelude

  const TWO_16: nat := 0x1_0000
  const TWO_32: nat := 0x1_0000_0000

  type Word = x: nat | x < 0x1_0000

  // ----- Words and their sum -----

  /** A 16-bit load on a little-endian machine. */
  function Load(lo: Byte, hi: Byte): nat {
    lo + 256 * hi
  }

  /** The words of a buffer; a last odd byte counts as a word of its own. */
  function Words(data: seq<Byte>): seq<nat> {
    if |data| == 0 then []
    else if |data| == 1 then [data[0]]
    else [Load(data[0], data[1])] + Words(data[2..])
  }

  lemma {:induction false} WordsAreShort(data: seq<Byte>, i: nat)
    requires i < |Words(data)|
    ensures Words(data)[i] < TWO_16
    decreases |data|
  {
    if i > 0 {
      WordsAreShort(data[2..], i - 1);
    }
  }

  function Sum(ws: seq<nat>): nat {
    if ws == [] then 0 else ws[0] + Sum(ws[1..])
  }

  // ----- Folding -----

  /** One's-complement representative: congruent modulo 65535, and 0 only for 0. */
  function Fold(sum: nat): (r: Word) {
    if sum == 0 then 0 else (sum - 1) % 65535 + 1
  }

  lemma FoldStep(sum: nat)
    ensures Fold(sum % TWO_16 + sum / TWO_16) == Fold(sum)
  {
    var hi, lo := sum / TWO_16, sum % TWO_16;
    assert sum == hi * 65535 + (hi + lo);
    if sum > 0 {
      ModShift(hi + lo - 1, hi);
    }
  }

  lemma ModShift(x: nat, k: nat)
    ensures (x + k * 65535) % 65535 == x % 65535
  {
  }

  lemma FoldSmall(sum: nat)
    requires sum < TWO_16
    ensures Fold(sum) == sum
  {
  }

  /** What characterises the fold. */
  lemma FoldIsUnique(sum: nat, r: Word)
    ensures Fold(sum) % 65535 == sum % 65535 && (Fold(sum) == 0 <==> sum == 0)
    ensures r % 65535 == sum % 65535 && (r == 0 <==> sum == 0) ==> r == Fold(sum)
  {
  }

  // ----- ip_checksum -----

  /** The 32-bit accumulator wraps around. */
  function Checksum(data: seq<Byte>): Word {
    65535 - Fold(Sum(Words(data)) % TWO_32)
  }

  /** The sum of the words fits the 32-bit accumulator, as it does for up to 131074 bytes. */
  predicate NoOverflow(data: seq<Byte>) {
    Sum(Words(data)) < TWO_32
  }

  /** The fold loop: it ends, in range, congruent to the sum, and at zero only for zero. */
  method FoldLoop(start: nat) returns (sum: Word)
    ensures sum == Fold(start)
    ensures sum % 65535 == start % 65535 && (sum == 0 <==> start == 0)
  {
    var s: nat := start;
    while s / TWO_16 != 0
      invariant Fold(s) == Fold(start)
      decreases s
    {
      FoldStep(s);
      s := s % TWO_16 + s / TWO_16;
    }
    FoldSmall(s);
    FoldIsUnique(start, s);
    sum := s;
  }

  lemma SumStep(data: seq<Byte>, i: nat)
    requires i <= |data|
    ensures |data| - i >= 2 ==> Sum(Words(data[i..])) == Load(data[i], data[i + 1]) + Sum(Words(data[i + 2..]))
    ensures |data| - i == 1 ==> Sum(Words(data[i..])) == data[i]
    ensures |data| == i ==> Sum(Words(data[i..])) == 0
  {
    var d := data[i..];
    if |d| >= 2 {
      assert d[2..] == data[i + 2..];
      assert Words(d)[1..] == Words(d[2..]);
    } else if |d| == 1 {
      assert Words(d)[1..] == [];
    }
  }

  /** What is summed up and what is left make the total, in 32 bits. */
  ghost predicate Pending(acc: nat, left: nat, total: nat) {
    acc < TWO_32 && (acc + left) % TWO_32 == total % TWO_32
  }

  function Add32(a: nat, b: nat): nat {
    (a + b) % TWO_32
  }

  lemma PendingStart(total: nat)
    ensures Pending(0, total, total)
  {
  }

  lemma PendingStep(acc: nat, w: nat, left: nat, total: nat)
    requires Pending(acc, w + left, total)
    ensures Pending(Add32(acc, w), left, total)
  {
  }

  lemma PendingEnd(acc: nat, total: nat)
    requires Pending(acc, 0, total)
    ensures acc == total % TWO_32
  {
  }

  /** ip_checksum */
  method IpChecksum(data: seq<Byte>) returns (sum: Word)
    ensures sum == Checksum(data)
  {
    hide Pending, Add32, Words, Sum, Load, Fold;
    ghost var total := Sum(Words(data));
    var acc: nat := 0;
    var i := 0;
    assert data[0..] == data;
    PendingStart(total);
    while |data| - i > 1
      invariant 0 <= i <= |data| && Pending(acc, Sum(Words(data[i..])), total)
    {
      SumStep(data, i);
      PendingStep(acc, Load(data[i], data[i + 1]), Sum(Words(data[i + 2..])), total);
      acc := Add32(acc, Load(data[i], data[i + 1]));
      i := i + 2;
    }
    SumStep(data, i);
    if i < |data| {
      PendingStep(acc, data[i], 0, total);
      acc := Add32(acc, data[i]);
    }
    PendingEnd(acc, total);
    var folded := FoldLoop(acc);
    sum := 65535 - folded;
  }

  lemma ChecksumPlain(data: seq<Byte>)
    requires NoOverflow(data)
    ensures Checksum(data) == 65535 - Fold(Sum(Words(data)))
  {
    hide Words, Sum, Fold;
    var s := Sum(Words(data));
    assert s % TWO_32 == s;
  }

  /** A last odd byte counts as if a zero byte followed it (section 1 of RFC 1071). */
  lemma {:induction false} OddByteIsPadded(data: seq<Byte>)
    requires |data| % 2 == 1
    ensures Words(data) == Words(data + [0]) && Checksum(data) == Checksum(data + [0])
    decreases |data|
  {
    if |data| > 1 {
      OddByteIsPadded(data[2..]);
      assert (data + [0])[2..] == data[2..] + [0];
    } else {
      assert (data + [0])[2..] == [];
    }
  }

  /** A buffer verifies exactly when its words sum to a nonzero multiple of 65535. */
  lemma VerifiesIff(data: seq<Byte>)
    requires NoOverflow(data)
    ensures Checksum(data) == 0 <==> Sum(Words(data)) > 0 && Sum(Words(data)) % 65535 == 0
  {
    ChecksumPlain(data);
    FoldIsUnique(Sum(Words(data)), 65535);
    hide Checksum, NoOverflow, Words, Sum;
  }

  // ----- Changing one word -----

  lemma {:induction false} SumUpdate(ws: seq<nat>, i: nat, w: nat)
    requires i < |ws|
    ensures Sum(ws[i := w]) == Sum(ws) - ws[i] + w
  {
    if i == 0 {
      assert ws[0 := w][1..] == ws[1..];
    } else {
      assert ws[i := w][1..] == ws[1..][i - 1 := w];
      SumUpdate(ws[1..], i - 1, w);
    }
  }

  /**
   * A change of one word of a verifying buffer goes undetected if and only if it swaps 0x0000 and
   * 0xFFFF and leaves some word nonzero.
   */
  lemma SingleWordDetection(data: seq<Byte>, changed: seq<Byte>, i: nat)
    requires NoOverflow(data) && NoOverflow(changed) && Checksum(data) == 0
    requires |Words(changed)| == |Words(data)| && i < |Words(data)|
    requires Words(changed) == Words(data)[i := Words(changed)[i]] && Words(changed)[i] != Words(data)[i]
    ensures Checksum(changed) == 0 <==>
            {Words(data)[i], Words(changed)[i]} == {0, 65535} && Sum(Words(changed)) > 0
  {
    var w, w' := Words(data)[i], Words(changed)[i];
    WordsAreShort(data, i);
    WordsAreShort(changed, i);
    SumUpdate(Words(data), i, w');
    SumContains(Words(data), i);
    VerifiesIff(data);
    VerifiesIff(changed);
    CloseMultiples(Sum(Words(data)), w, w');
    hide Checksum, Words, Sum, NoOverflow;
  }

  lemma {:induction false} SumContains(ws: seq<nat>, i: nat)
    requires i < |ws|
    ensures ws[i] <= Sum(ws)
  {
    if i > 0 {
      SumContains(ws[1..], i - 1);
    }
  }

  lemma CloseMultiples(s: nat, w: Word, w': Word)
    requires s % 65535 == 0 && w <= s && w != w'
    ensures (s - w + w') % 65535 == 0 <==> {w, w'} == {0, 65535}
  {
    var k := s / 65535;
    assert s == k * 65535;
    if {w, w'} == {0, 65535} {
      assert s - w + w' == (k + 1) * 65535 || s - w + w' == (k - 1) * 65535;
    } else {
      var d := w' - w;
      assert -65535 < d < 65535 && d != 0;
      assert d > 0 ==> (k * 65535 + d) % 65535 == d;
      assert d < 0 ==> (k * 65535 + d) % 65535 == d + 65535;
    }
  }

  // ----- Byte order and word order -----

  function Swap(w: nat): nat {
    w % 256 * 256 + w / 256
  }

  /** The buffer with the two bytes of each word exchanged. */
  function Swapped(data: seq<Byte>): (r: seq<Byte>)
    requires |data| % 2 == 0
    ensures |r| == |data|
  {
    if data == [] then [] else [data[1], data[0]] + Swapped(data[2..])
  }

  predicate Congruent(a: nat, b: nat) {
    a % 65535 == b % 65535
  }

  lemma SwapIsTimes256(w: nat)
    ensures Congruent(Swap(w), 256 * w) && (Swap(w) == 0 <==> w == 0)
  {
    var h, l := w / 256, w % 256;
    assert 256 * w == (l * 256 + h) + h * 65535;
    ModShift(l * 256 + h, h);
  }

  lemma SwapComplement(w: nat)
    requires w < TWO_16
    ensures Swap(65535 - w) == 65535 - Swap(w)
  {
    assert (65535 - w) / 256 == 255 - w / 256;
    assert (65535 - w) % 256 == 255 - w % 256;
  }

  lemma AddCongruent(a: nat, a': nat, b: nat, b': nat)
    requires Congruent(a, a') && Congruent(b, b')
    ensures Congruent(a + b, a' + b')
  {
    var x, x', y, y' := a / 65535, a' / 65535, b / 65535, b' / 65535;
    assert a + b == (a % 65535 + b % 65535) + (x + y) * 65535;
    assert a' + b' == (a % 65535 + b % 65535) + (x' + y') * 65535;
    ModShift(a % 65535 + b % 65535, x + y);
    ModShift(a % 65535 + b % 65535, x' + y');
  }

  lemma TimesCongruent(a: nat, b: nat)
    requires Congruent(a, b)
    ensures Congruent(256 * a, 256 * b)
  {
    var x, y := a / 65535, b / 65535;
    assert 256 * a == 256 * (a % 65535) + (256 * x) * 65535;
    assert 256 * b == 256 * (a % 65535) + (256 * y) * 65535;
    ModShift(256 * (a % 65535), 256 * x);
    ModShift(256 * (a % 65535), 256 * y);
  }

  lemma SwapLoad(lo: Byte, hi: Byte)
    ensures Swap(Load(lo, hi)) == Load(hi, lo)
  {
    assert (lo + 256 * hi) % 256 == lo && (lo + 256 * hi) / 256 == hi;
  }

  function SwapAll(ws: seq<nat>): seq<nat> {
    if ws == [] then [] else [Swap(ws[0])] + SwapAll(ws[1..])
  }

  lemma {:induction false} WordsOfSwapped(data: seq<Byte>)
    requires |data| % 2 == 0
    ensures Words(Swapped(data)) == SwapAll(Words(data))
    decreases |data|
  {
    if data != [] {
      SwapLoad(data[0], data[1]);
      WordsOfSwapped(data[2..]);
      hide Swap, Load;
      assert Swapped(data)[2..] == Swapped(data[2..]);
      assert Words(data)[1..] == Words(data[2..]);
    }
  }

  lemma {:induction false} SumOfSwapAll(ws: seq<nat>)
    ensures Congruent(Sum(SwapAll(ws)), 256 * Sum(ws)) && (Sum(SwapAll(ws)) == 0 <==> Sum(ws) == 0)
  {
    if ws != [] {
      hide Congruent, Swap;
      SumOfSwapAll(ws[1..]);
      SwapIsTimes256(ws[0]);
      AddCongruent(Swap(ws[0]), 256 * ws[0], Sum(SwapAll(ws[1..])), 256 * Sum(ws[1..]));
      assert SwapAll(ws)[1..] == SwapAll(ws[1..]);
    }
  }

  /** Byte-order independence: the checksum of the byte-swapped buffer is the byte-swapped checksum. */
  lemma ByteOrderIndependence(data: seq<Byte>)
    requires |data| % 2 == 0 && NoOverflow(data) && NoOverflow(Swapped(data))
    ensures Checksum(Swapped(data)) == Swap(Checksum(data))
  {
    hide Checksum, NoOverflow, Swap, Fold, Words, Sum, Congruent;
    ChecksumPlain(data);
    ChecksumPlain(Swapped(data));
    WordsOfSwapped(data);
    SumOfSwapAll(Words(data));
    SwappedFold(Sum(Words(data)), Sum(Words(Swapped(data))));
    SwapComplement(Fold(Sum(Words(data))));
  }

  lemma SwappedFold(s: nat, s': nat)
    requires Congruent(s', 256 * s) && (s' == 0 <==> s == 0)
    ensures Fold(s') == Swap(Fold(s))
  {
    FoldIsUnique(s, 0);
    SwapIsTimes256(Fold(s));
    TimesCongruent(Fold(s), s);
    FoldIsUnique(s', Swap(Fold(s)));
  }

  lemma {:induction false} SumOfConcat(a: seq<nat>, b: seq<nat>)
    ensures Sum(a + b) == Sum(a) + Sum(b)
  {
    if a == [] {
      assert a + b == b;
    } else {
      assert (a + b)[1..] == a[1..] + b;
      SumOfConcat(a[1..], b);
    }
  }

  lemma SplitAt<T>(b: seq<T>, i: nat)
    requires i < |b|
    ensures b == b[..i] + ([b[i]] + b[i + 1..])
    ensures multiset(b[..i] + b[i + 1..]) == multiset(b) - multiset{b[i]}
  {
    assert b == b[..i] + ([b[i]] + b[i + 1..]);
    assert multiset(b) == multiset(b[..i]) + multiset{b[i]} + multiset(b[i + 1..]);
  }

  lemma SumWithout(b: seq<nat>, i: nat)
    requires i < |b|
    ensures Sum(b[..i] + b[i + 1..]) == Sum(b) - b[i]
  {
    SplitAt(b, i);
    SumOfConcat(b[..i], [b[i]] + b[i + 1..]);
    SumOfConcat(b[..i], b[i + 1..]);
  }

  lemma HeadElsewhere(a: seq<nat>, b: seq<nat>) returns (i: nat)
    requires multiset(a) == multiset(b) && a != []
    ensures i < |b| && b[i] == a[0] && multiset(a[1..]) == multiset(b[..i] + b[i + 1..])
  {
    assert a[0] in multiset(b);
    i :| 0 <= i < |b| && b[i] == a[0];
    SplitAt(b, i);
    SplitAt(a, 0);
    assert a[..0] + a[1..] == a[1..];
  }

  lemma {:induction false} SumIgnoresOrder(a: seq<nat>, b: seq<nat>)
    requires multiset(a) == multiset(b)
    ensures Sum(a) == Sum(b)
    decreases |a|
  {
    if a != [] {
      var i := HeadElsewhere(a, b);
      SumWithout(b, i);
      SumIgnoresOrder(a[1..], b[..i] + b[i + 1..]);
    } else {
      assert |multiset(b)| == 0;
    }
  }

  /** Any permutation of the words leaves the checksum unchanged. */
  lemma WordOrderIndependence(data: seq<Byte>, other: seq<Byte>)
    requires multiset(Words(data)) == multiset(Words(other))
    ensures Checksum(data) == Checksum(other)
  {
    SumIgnoresOrder(Words(data), Words(other));
  }
}
