/**
 * Physical memory under the slab allocator (kernel/mm/slab.c), byte by byte: 64-bit loads and
 * stores, and the free list a slab threads through the first eight bytes of its free objects.
 */
module SlabMemory {
  import opened Prelude
  import opened SlabLayout

  type Mem = seq<Byte>

  // ----- Little-endian words -----

  function Pow256(n: nat): nat {
    if n == 0 then 1 else 256 * Pow256(n - 1)
  }

  function Load(m: Mem, a: nat, n: nat): nat
    requires a + n <= |m|
    decreases n
  {
    if n == 0 then 0 else m[a] + 256 * Load(m, a + 1, n - 1)
  }

  function Store(m: Mem, a: nat, w: nat, n: nat): (r: Mem)
    requires a + n <= |m|
    ensures |r| == |m|
    decreases n
  {
    if n == 0 then m else Store(m[a := w % 256], a + 1, w / 256, n - 1)
  }

  function LoadWord(m: Mem, a: nat): nat
    requires a + LINK_SIZE <= |m|
  {
    Load(m, a, LINK_SIZE)
  }

  function StoreWord(m: Mem, a: nat, w: nat): (r: Mem)
    requires a + LINK_SIZE <= |m|
    ensures |r| == |m|
  {
    Store(m, a, w, LINK_SIZE)
  }

  /** The two memories have the same `n` bytes from `a` on. */
  ghost predicate Same(m: Mem, m': Mem, a: nat, n: nat) {
    |m'| == |m| && a + n <= |m| && forall i :: a <= i < a + n ==> m'[i] == m[i]
  }

  lemma {:induction false} LoadSame(m: Mem, m': Mem, a: nat, n: nat)
    requires Same(m, m', a, n)
    ensures Load(m', a, n) == Load(m, a, n)
    decreases n
  {
    if n != 0 {
      LoadSame(m, m', a + 1, n - 1);
    }
  }

  lemma WordSame(m: Mem, m': Mem, a: nat)
    requires Same(m, m', a, LINK_SIZE)
    ensures LoadWord(m', a) == LoadWord(m, a)
  {
    LoadSame(m, m', a, LINK_SIZE);
  }

  lemma {:induction false} StoreElsewhere(m: Mem, a: nat, w: nat, n: nat, i: nat)
    requires a + n <= |m| && i < |m| && !(a <= i < a + n)
    ensures Store(m, a, w, n)[i] == m[i]
    decreases n
  {
    if n != 0 {
      StoreElsewhere(m[a := w % 256], a + 1, w / 256, n - 1, i);
    }
  }

  lemma {:induction false} LoadStore(m: Mem, a: nat, w: nat, n: nat)
    requires a + n <= |m| && w < Pow256(n)
    ensures Load(Store(m, a, w, n), a, n) == w
    decreases n
  {
    if n != 0 {
      LoadStore(m[a := w % 256], a + 1, w / 256, n - 1);
      StoreElsewhere(m[a := w % 256], a + 1, w / 256, n - 1, a);
    }
  }

  lemma WordRange()
    ensures Pow256(LINK_SIZE) == TWO_64
  {
    assert Pow256(4) == 256 * Pow256(3) && Pow256(2) == 256 * Pow256(1);
    assert Pow256(8) == 256 * Pow256(7) && Pow256(6) == 256 * Pow256(5);
  }

  /** A word reads back as it was stored, and the store leaves every other byte alone. */
  lemma WordStored(m: Mem, a: nat, w: nat)
    requires a + LINK_SIZE <= |m| && w < TWO_64
    ensures LoadWord(StoreWord(m, a, w), a) == w
    ensures forall i :: 0 <= i < |m| && !(a <= i < a + LINK_SIZE) ==> StoreWord(m, a, w)[i] == m[i]
  {
    WordRange();
    LoadStore(m, a, w, LINK_SIZE);
    forall i | 0 <= i < |m| && !(a <= i < a + LINK_SIZE) ensures StoreWord(m, a, w)[i] == m[i] {
      StoreElsewhere(m, a, w, LINK_SIZE, i);
    }
  }

  function NthByte(w: nat, k: nat): nat {
    if k == 0 then w % 256 else NthByte(w / 256, k - 1)
  }

  lemma {:induction false} LoadByte(m: Mem, a: nat, n: nat, k: nat)
    requires a + n <= |m| && k < n
    ensures m[a + k] == NthByte(Load(m, a, n), k)
    decreases n
  {
    if k != 0 {
      LoadByte(m, a + 1, n - 1, k - 1);
      assert Load(m, a, n) / 256 == Load(m, a + 1, n - 1);
    }
  }

  // ----- The free list in memory -----

  /** Following the links from `head` visits exactly the objects of `free`, in order, and ends there. */
  ghost predicate Chain(m: Mem, head: nat, free: seq<nat>)
    decreases |free|
  {
    if free == [] then head == 0
    else head == free[0] && 0 < head && head + LINK_SIZE <= |m| && Chain(m, LoadWord(m, head), free[1..])
  }

  /** Memory and head determine the list. */
  lemma {:induction false} ChainIsUnique(m: Mem, head: nat, free: seq<nat>, other: seq<nat>)
    requires Chain(m, head, free) && Chain(m, head, other)
    ensures free == other
    decreases |free|
  {
    if free != [] {
      ChainIsUnique(m, LoadWord(m, head), free[1..], other[1..]);
      assert free == [free[0]] + free[1..] && other == [other[0]] + other[1..];
    }
  }

  /** Changes outside the links leave the list alone. */
  lemma {:induction false} ChainSame(m: Mem, m': Mem, head: nat, free: seq<nat>)
    requires Chain(m, head, free) && |m'| == |m| && forall y :: y in free ==> Same(m, m', y, LINK_SIZE)
    ensures Chain(m', head, free)
    decreases |free|
  {
    if free != [] {
      assert head in free;
      WordSame(m, m', head);
      ChainSame(m, m', LoadWord(m, head), free[1..]);
    }
  }

  lemma ChainHead(m: Mem, head: nat, free: seq<nat>)
    requires Chain(m, head, free) && |m| <= TWO_64
    ensures head < TWO_64
  {
  }

  /** Storing the head in an object outside the list puts the object in front. */
  lemma ChainPush(m: Mem, head: nat, free: seq<nat>, x: nat)
    requires Chain(m, head, free) && 0 < x && x + LINK_SIZE <= |m| <= TWO_64
    requires forall y :: y in free ==> y + LINK_SIZE <= x || x + LINK_SIZE <= y
    ensures Chain(StoreWord(m, x, head), x, [x] + free)
  {
    ChainHead(m, head, free);
    WordStored(m, x, head);
    forall y | y in free ensures Same(m, StoreWord(m, x, head), y, LINK_SIZE) {
      InMemory(m, head, free, y);
    }
    ChainSame(m, StoreWord(m, x, head), head, free);
    assert ([x] + free)[1..] == free;
  }

  lemma {:induction false} InMemory(m: Mem, head: nat, free: seq<nat>, y: nat)
    requires Chain(m, head, free) && y in free
    ensures 0 < y && y + LINK_SIZE <= |m|
    decreases |free|
  {
    if y != free[0] {
      InMemory(m, LoadWord(m, head), free[1..], y);
    }
  }

  // ----- Which bytes belong to whom -----

  lemma LinkInPage(objSize: nat, page: nat, i: nat)
    requires i < NumObjs(objSize)
    ensures page + SLAB_HEADER <= SlotAddr(objSize, page, i)
    ensures SlotAddr(objSize, page, i) + LINK_SIZE <= page + PAGE_SIZE
  {
    NumObjsFits(objSize);
    Ordered(i, NumObjs(objSize), objSize);
  }

  /** No byte of the object at `x`, nor of its own link, belongs to the link of the object at `y`. */
  predicate Clear(size: nat, x: nat, y: nat) {
    y + LINK_SIZE <= x || x + Max(size, LINK_SIZE) <= y
  }

  /** So it is for any two slots, of one slab or of two. */
  ghost predicate Separate(objSize: nat) {
    forall p: nat, q: nat, i: nat, j: nat ::
      p % PAGE_SIZE == 0 && q % PAGE_SIZE == 0 && i < NumObjs(objSize) && j < NumObjs(objSize) && (p != q || i != j) ==>
      Clear(objSize, SlotAddr(objSize, p, i), SlotAddr(objSize, q, j))
  }

  /** Up to the size of a page, objects and links of different slots are separate. */
  lemma SlotsSeparate(objSize: nat, p: nat, i: nat, q: nat, j: nat)
    requires MIN_OBJ_SIZE <= objSize && p % PAGE_SIZE == 0 && q % PAGE_SIZE == 0
    requires i < NumObjs(objSize) && j < NumObjs(objSize) && (p != q || i != j)
    ensures Clear(Min(objSize, PAGE_SIZE), SlotAddr(objSize, p, i), SlotAddr(objSize, q, j))
  {
    if p == q {
      if i < j {
        SlotsApart(objSize, p, i, j);
      } else {
        SlotsApart(objSize, p, j, i);
      }
    } else {
      SlotStartsInPage(objSize, p, i);
      LinkInPage(objSize, p, i);
      LinkInPage(objSize, q, j);
      PagesApart(p, q);
      if NumObjs(objSize) == 1 {
        assert SlotAddr(objSize, p, i) == p + SLAB_HEADER && SlotAddr(objSize, q, j) == q + SLAB_HEADER;
      }
    }
  }

  lemma PagesApart(p: nat, q: nat)
    requires p % PAGE_SIZE == 0 && q % PAGE_SIZE == 0 && p != q
    ensures p + PAGE_SIZE <= q || q + PAGE_SIZE <= p
  {
  }

  /** Exactly for these sizes no client can touch a link by writing to its own object. */
  lemma SeparateIff(objSize: nat)
    ensures Separate(objSize) <==> MIN_OBJ_SIZE <= objSize <= PAGE_SIZE
  {
    if objSize < MIN_OBJ_SIZE {
      ManySmallSlots(objSize);
      assert !Clear(objSize, SlotAddr(objSize, 0, 1), SlotAddr(objSize, 0, 0));
    } else if objSize > PAGE_SIZE {
      assert !Clear(objSize, SlotAddr(objSize, 0, 0), SlotAddr(objSize, PAGE_SIZE, 0));
    } else {
      forall p: nat, q: nat, i: nat, j: nat |
        p % PAGE_SIZE == 0 && q % PAGE_SIZE == 0 && i < NumObjs(objSize) && j < NumObjs(objSize) && (p != q || i != j)
        ensures Clear(objSize, SlotAddr(objSize, p, i), SlotAddr(objSize, q, j))
      {
        SlotsSeparate(objSize, p, i, q, j);
      }
    }
  }

  lemma ManySmallSlots(objSize: nat)
    requires objSize < MIN_OBJ_SIZE
    ensures NumObjs(objSize) > 200
  {
  }

  /** The same for two objects given by their addresses. */
  lemma ObjectsSeparate(objSize: nat, p: nat, x: nat, q: nat, y: nat)
    requires MIN_OBJ_SIZE <= objSize && p % PAGE_SIZE == 0 && q % PAGE_SIZE == 0
    requires x in Slots(objSize, p) && y in Slots(objSize, q) && x != y
    ensures Clear(Min(objSize, PAGE_SIZE), x, y)
  {
    var i :| 0 <= i < NumObjs(objSize) && x == SlotAddr(objSize, p, i);
    var j :| 0 <= j < NumObjs(objSize) && y == SlotAddr(objSize, q, j);
    SlotsSeparate(objSize, p, i, q, j);
  }

  // ----- The loop of slab_create -----

  /** Memory after iterations 0 to i: the link of each slot but the last so far is the next slot. */
  function LinkUp(m: Mem, objSize: nat, page: nat, i: nat): (r: Mem)
    requires page + PAGE_SIZE <= |m| && i < NumObjs(objSize)
    ensures |r| == |m|
  {
    if i == 0 then m
    else
      LinkInPage(objSize, page, i - 1);
      StoreWord(LinkUp(m, objSize, page, i - 1), SlotAddr(objSize, page, i - 1), SlotAddr(objSize, page, i))
  }

  /** Memory after the loop and the store that ends the list. */
  function Threaded(m: Mem, objSize: nat, page: nat): (r: Mem)
    requires page + PAGE_SIZE <= |m|
    ensures |r| == |m|
  {
    var last := NumObjs(objSize) - 1;
    LinkInPage(objSize, page, last);
    StoreWord(LinkUp(m, objSize, page, last), SlotAddr(objSize, page, last), 0)
  }

  lemma SlotLinksApart(objSize: nat, page: nat, j: nat, i: nat)
    requires MIN_OBJ_SIZE <= objSize && j < i < NumObjs(objSize)
    ensures SlotAddr(objSize, page, j) + LINK_SIZE <= SlotAddr(objSize, page, i)
  {
    LinksApart(objSize, page);
  }

  lemma {:induction false} LinkUpWords(m: Mem, objSize: nat, page: nat, i: nat, j: nat)
    requires page + PAGE_SIZE <= |m| <= TWO_64 && MIN_OBJ_SIZE <= objSize && j < i < NumObjs(objSize)
    ensures SlotAddr(objSize, page, j) + LINK_SIZE <= |m|
    ensures LoadWord(LinkUp(m, objSize, page, i), SlotAddr(objSize, page, j)) == SlotAddr(objSize, page, j + 1)
    decreases i
  {
    hide NumObjs, LoadWord, StoreWord;
    LinkInPage(objSize, page, i);
    LinkInPage(objSize, page, i - 1);
    LinkInPage(objSize, page, j);
    var before := LinkUp(m, objSize, page, i - 1);
    WordStored(before, SlotAddr(objSize, page, i - 1), SlotAddr(objSize, page, i));
    if j < i - 1 {
      LinkUpWords(m, objSize, page, i - 1, j);
      SlotLinksApart(objSize, page, j, i - 1);
      WordSame(before, LinkUp(m, objSize, page, i), SlotAddr(objSize, page, j));
    }
  }

  /** The loop writes nothing but the links of the slots. */
  lemma {:induction false} LinkUpElsewhere(m: Mem, objSize: nat, page: nat, i: nat, b: nat)
    requires page + PAGE_SIZE <= |m| && i < NumObjs(objSize) && b < |m|
    requires forall y :: y in Slots(objSize, page) ==> !(y <= b < y + LINK_SIZE)
    ensures LinkUp(m, objSize, page, i)[b] == m[b]
    decreases i
  {
    if i != 0 {
      LinkUpElsewhere(m, objSize, page, i - 1, b);
      LinkInPage(objSize, page, i - 1);
      assert SlotAddr(objSize, page, i - 1) in Slots(objSize, page);
      StoreElsewhere(LinkUp(m, objSize, page, i - 1), SlotAddr(objSize, page, i - 1), SlotAddr(objSize, page, i), LINK_SIZE, b);
    }
  }

  lemma ThreadedElsewhere(m: Mem, objSize: nat, page: nat, b: nat)
    requires page + PAGE_SIZE <= |m| && b < |m|
    requires forall y :: y in Slots(objSize, page) ==> !(y <= b < y + LINK_SIZE)
    ensures Threaded(m, objSize, page)[b] == m[b]
  {
    var last := NumObjs(objSize) - 1;
    LinkInPage(objSize, page, last);
    LinkUpElsewhere(m, objSize, page, last, b);
    assert SlotAddr(objSize, page, last) in Slots(objSize, page);
    StoreElsewhere(LinkUp(m, objSize, page, last), SlotAddr(objSize, page, last), 0, LINK_SIZE, b);
  }

  lemma ThreadedWord(m: Mem, objSize: nat, page: nat, j: nat)
    requires page + PAGE_SIZE <= |m| <= TWO_64 && MIN_OBJ_SIZE <= objSize && j < NumObjs(objSize)
    ensures SlotAddr(objSize, page, j) + LINK_SIZE <= |m|
    ensures LoadWord(Threaded(m, objSize, page), SlotAddr(objSize, page, j)) ==
            if j + 1 < NumObjs(objSize) then SlotAddr(objSize, page, j + 1) else 0
  {
    var last := NumObjs(objSize) - 1;
    hide NumObjs, LoadWord, StoreWord;
    LinkInPage(objSize, page, last);
    LinkInPage(objSize, page, j);
    var before := LinkUp(m, objSize, page, last);
    WordStored(before, SlotAddr(objSize, page, last), 0);
    if j < last {
      LinkUpWords(m, objSize, page, last, j);
      SlotLinksApart(objSize, page, j, last);
      WordSame(before, Threaded(m, objSize, page), SlotAddr(objSize, page, j));
    }
  }

  lemma {:induction false} ThreadedChainFrom(m: Mem, objSize: nat, page: nat, j: nat)
    requires page + PAGE_SIZE <= |m| <= TWO_64 && MIN_OBJ_SIZE <= objSize && j <= NumObjs(objSize)
    ensures var n := NumObjs(objSize);
            Chain(Threaded(m, objSize, page), if j < n then SlotAddr(objSize, page, j) else 0, SlotList(objSize, page, n)[j..])
    decreases NumObjs(objSize) - j
  {
    hide NumObjs, LoadWord, Threaded;
    var l := SlotList(objSize, page, NumObjs(objSize));
    if j < NumObjs(objSize) {
      ThreadedChainFrom(m, objSize, page, j + 1);
      ThreadedWord(m, objSize, page, j);
      assert l[j..][0] == l[j] && l[j..][1..] == l[j + 1..];
    }
  }

  // ----- Objects too small for a link -----

  lemma {:induction false} ChainWord(m: Mem, head: nat, l: seq<nat>, j: nat)
    requires Chain(m, head, l) && j + 1 < |l|
    ensures l[j] + LINK_SIZE <= |m| && LoadWord(m, l[j]) == l[j + 1]
    decreases |l|
  {
    if j > 0 {
      ChainWord(m, LoadWord(m, head), l[1..], j - 1);
    } else {
      assert Chain(m, LoadWord(m, head), l[1..]);
    }
  }

  lemma {:induction false} ChainEnd(m: Mem, head: nat, l: seq<nat>)
    requires Chain(m, head, l) && l != []
    ensures l[|l| - 1] + LINK_SIZE <= |m| && LoadWord(m, l[|l| - 1]) == 0
    decreases |l|
  {
    if |l| > 1 {
      ChainEnd(m, LoadWord(m, head), l[1..]);
    }
  }

  /** Links that overlap share bytes. */
  lemma OverlappingLinks(m: Mem, x: nat, y: nat, z: nat, d: nat)
    requires 0 < d < LINK_SIZE && y == x + d && y + LINK_SIZE <= |m|
    requires LoadWord(m, x) == y && LoadWord(m, y) == z
    ensures NthByte(y, d) == z % 256
  {
    LoadByte(m, x, LINK_SIZE, d);
    LoadByte(m, y, LINK_SIZE, 0);
  }

  /** Addresses that differ in the lowest byte only. */
  lemma SameHighBytes(q: nat, r: nat, r': nat, d: nat)
    requires r < 256 && r' < 256 && 0 < d
    ensures NthByte(256 * q + r, d) == NthByte(256 * q + r', d)
    ensures (256 * q + r) % 256 == r
  {
    assert (256 * q + r) / 256 == q && (256 * q + r') / 256 == q;
  }

  /** So after two links in a row, less than eight bytes apart, the third cannot lead on. */
  lemma CloseLinksClash(m: Mem, q: nat, d: nat)
    requires 0 < d < LINK_SIZE && 256 * q + (48 + 2 * d) + LINK_SIZE <= |m|
    requires LoadWord(m, 256 * q + 48) == 256 * q + (48 + d)
    requires LoadWord(m, 256 * q + (48 + d)) == 256 * q + (48 + 2 * d)
    ensures LoadWord(m, 256 * q + (48 + 2 * d)) != 256 * q + (48 + 3 * d)
  {
    hide LoadWord, NthByte;
    OverlappingLinks(m, 256 * q + 48, 256 * q + (48 + d), 256 * q + (48 + 2 * d), d);
    OverlappingLinks(m, 256 * q + (48 + d), 256 * q + (48 + 2 * d), LoadWord(m, 256 * q + (48 + 2 * d)), d);
    SameHighBytes(q, 48 + d, 48 + 2 * d, d);
    SameHighBytes(q, 48 + 2 * d, 0, d);
    SameHighBytes(q, 48 + 3 * d, 0, d);
  }

  lemma FirstSlots(objSize: nat, page: nat) returns (q: nat)
    requires page % PAGE_SIZE == 0 && objSize < MIN_OBJ_SIZE
    ensures var l := SlotList(objSize, page, NumObjs(objSize));
            && |l| > 4 && l[0] == SlotAddr(objSize, page, 0) == 256 * q + 48 && l[1] == 256 * q + (48 + objSize)
            && l[2] == 256 * q + (48 + 2 * objSize) && l[3] == 256 * q + (48 + 3 * objSize)
            && (objSize == 0 ==> l[|l| - 1] == l[0])
  {
    ManySmallSlots(objSize);
    q := page / 256;
    hide NumObjs;
  }

  /** In no memory whatever can slots of less than eight bytes be linked one to the next. */
  lemma SmallSlotsHaveNoChain(m: Mem, objSize: nat, page: nat)
    requires page % PAGE_SIZE == 0 && objSize < MIN_OBJ_SIZE
    ensures !Chain(m, SlotAddr(objSize, page, 0), SlotList(objSize, page, NumObjs(objSize)))
  {
    var q := FirstSlots(objSize, page);
    hide Chain, LoadWord, SlotList, NumObjs, SlotAddr;
    var l := SlotList(objSize, page, NumObjs(objSize));
    if Chain(m, l[0], l) {
      ChainWord(m, l[0], l, 0);
      ChainWord(m, l[0], l, 1);
      ChainWord(m, l[0], l, 2);
      if objSize == 0 {
        ChainEnd(m, l[0], l);
      } else {
        CloseLinksClash(m, q, objSize);
      }
    }
  }

  /** The loop of slab_create makes a list of all slots, in order, if and only if objects have at least eight bytes. */
  lemma ThreadedIsChainIff(m: Mem, objSize: nat, page: nat)
    requires 0 < page && page % PAGE_SIZE == 0 && page + PAGE_SIZE <= |m| <= TWO_64
    ensures Chain(Threaded(m, objSize, page), SlotAddr(objSize, page, 0), SlotList(objSize, page, NumObjs(objSize)))
            <==> MIN_OBJ_SIZE <= objSize
  {
    if MIN_OBJ_SIZE <= objSize {
      ThreadedChainFrom(m, objSize, page, 0);
      var l := SlotList(objSize, page, NumObjs(objSize));
      assert l[0..] == l;
    } else {
      SmallSlotsHaveNoChain(Threaded(m, objSize, page), objSize, page);
    }
  }
}
