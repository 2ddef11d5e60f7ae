/** Ranges of pages, and every run of frame and mapping operations (kernel/mm/paging_impl.c). */
module PagingRuns {
  import opened Prelude
  import opened FrameAllocatorSpec
  import opened PageTables
  import opened PagingSpec

  // ----- Ranges -----

  datatype Flags = Flags(writable: bool, user: bool, nx: bool)

  /** The i-th address of a range, in 64-bit arithmetic. */
  function Nth(start: nat, i: nat): (r: U64) {
    (start + i * 4096) % TWO_64
  }

  function NthPte(phys: nat, i: nat, fl: Flags): nat {
    MakePte(Nth(phys, i), true, fl.writable, fl.user, fl.nx)
  }

  /** The i-th iteration of paging_map_range. */
  ghost function MapNth(s: Space, virt: nat, phys: nat, i: nat, fl: Flags): (Space, bool)
    requires Inv(s)
  {
    MapPage(s, PageNumber(Nth(virt, i)), NthPte(phys, i, fl))
  }

  lemma MapNthEffect(s: Space, virt: nat, phys: nat, i: nat, fl: Flags)
    requires Inv(s)
    ensures var (t, ok) := MapNth(s, virt, phys, i, fl);
            && Inv(t) && t.root == s.root
            && Flat(t) == if ok then Flat(s)[PageNumber(Nth(virt, i)) := NthPte(phys, i, fl)] else Flat(s)
  {
    PteAddress(Nth(phys, i), fl.writable, fl.user, fl.nx);
    MapPageEffect(s, PageNumber(Nth(virt, i)), NthPte(phys, i, fl));
  }

  /** paging_map_range after n iterations: the state and how many pages got mapped. */
  ghost function MapRange(s: Space, virt: nat, phys: nat, n: nat, fl: Flags): (r: (Space, nat))
    requires Inv(s)
    ensures Inv(r.0) && r.1 <= n
  {
    if n == 0 then (s, 0)
    else
      var (s1, k) := MapRange(s, virt, phys, n - 1, fl);
      if k < n - 1 then (s1, k)
      else
        MapNthEffect(s1, virt, phys, k, fl);
        var (s2, ok) := MapNth(s1, virt, phys, k, fl);
        (s2, if ok then n else n - 1)
  }

  /** The flat map with the first k pages of the range entered. */
  ghost function FlatRange(m: map<nat, nat>, virt: nat, phys: nat, k: nat, fl: Flags): map<nat, nat> {
    if k == 0 then m
    else FlatRange(m, virt, phys, k - 1, fl)[PageNumber(Nth(virt, k - 1)) := NthPte(phys, k - 1, fl)]
  }

  /** A range enters exactly the pages it reports, also when it stops half-way. */
  lemma {:induction false} MapRangeEffect(s: Space, virt: nat, phys: nat, n: nat, fl: Flags)
    requires Inv(s)
    ensures var (t, k) := MapRange(s, virt, phys, n, fl);
            Flat(t) == FlatRange(Flat(s), virt, phys, k, fl) && t.root == s.root
  {
    hide Inv, MapNth, Nth, NthPte, Flat;
    if n != 0 {
      MapRangeEffect(s, virt, phys, n - 1, fl);
      var (s1, k) := MapRange(s, virt, phys, n - 1, fl);
      if k == n - 1 {
        MapNthEffect(s1, virt, phys, k, fl);
      }
    }
  }

  lemma MapNthIff(s: Space, virt: nat, phys: nat, i: nat, fl: Flags)
    requires Inv(s)
    ensures var page := PageNumber((virt + i * 4096) % TWO_64);
            page / 512 < Size(3) && (MapNth(s, virt, phys, i, fl).1 <==> EnoughFrames(s.a, Missing(s, 3, page / 512)))
  {
    MapPageIff(s, PageNumber(Nth(virt, i)), NthPte(phys, i, fl));
    hide Inv, EnoughFrames, Missing, MapPage;
  }

  lemma MapRangeUnfold(s: Space, virt: nat, phys: nat, n: nat, fl: Flags)
    requires Inv(s) && 0 < n
    ensures var (s1, k) := MapRange(s, virt, phys, n - 1, fl);
            MapRange(s, virt, phys, n, fl) ==
            if k < n - 1 then (s1, k)
            else var (s2, ok) := MapNth(s1, virt, phys, k, fl); (s2, if ok then n else n - 1)
  {
    hide Inv, MapNth;
  }

  /** A range stops before its end only where the page it got to cannot be mapped for want of frames. */
  lemma {:induction false} MapRangeStops(s: Space, virt: nat, phys: nat, n: nat, fl: Flags)
    requires Inv(s) && MapRange(s, virt, phys, n, fl).1 < n
    ensures var (t, k) := MapRange(s, virt, phys, n, fl);
            var (before, mapped) := MapRange(s, virt, phys, k, fl);
            var page := PageNumber((virt + k * 4096) % TWO_64);
            && mapped == k && page / 512 < Size(3)
            && MapNth(before, virt, phys, k, fl) == (t, false)
            && !EnoughFrames(before.a, Missing(before, 3, page / 512))
  {
    hide Inv, EnoughFrames, Missing, MapNth, MapRange, PageNumber;
    MapRangeUnfold(s, virt, phys, n, fl);
    var (s1, k) := MapRange(s, virt, phys, n - 1, fl);
    if k < n - 1 {
      MapRangeStops(s, virt, phys, n - 1, fl);
    } else {
      MapNthIff(s1, virt, phys, k, fl);
    }
  }

  /** The page numbers of a range are consecutive, modulo the 2^36 there are. */
  lemma NthPage(virt: nat, i: nat)
    ensures PageNumber(Nth(virt, i)) == (virt / 4096 + i) % PAGES
  {
    var x := virt + i * 4096;
    assert x / 4096 == virt / 4096 + i;
    var q := x / TWO_64;
    assert x == q * TWO_64 + x % TWO_64;
    assert x / 4096 == q * 0x10_0000_0000_0000 + (x % TWO_64) / 4096;
    assert q * 0x10_0000_0000_0000 == (q * 0x1_0000) * PAGES;
    ModPlusMultiple((x % TWO_64) / 4096, q * 0x1_0000);
  }

  lemma ModPlusMultiple(x: nat, k: nat)
    ensures (x + k * PAGES) % PAGES == x % PAGES
  {
  }

  lemma NthPagesDistinct(virt: nat, i: nat, j: nat)
    requires i < j < i + PAGES
    ensures PageNumber(Nth(virt, i)) != PageNumber(Nth(virt, j))
  {
    NthPage(virt, i);
    NthPage(virt, j);
    CloseResiduesDiffer(virt / 4096 + i, virt / 4096 + j);
  }

  lemma CloseResiduesDiffer(x: nat, y: nat)
    requires x < y < x + PAGES
    ensures x % PAGES != y % PAGES
  {
    assert y - x == (y / PAGES - x / PAGES) * PAGES + (y % PAGES - x % PAGES);
  }

  /** Entry by entry: each page of the range has its own frame, every other page its old entry. */
  lemma {:induction false} FlatRangeContents(m: map<nat, nat>, virt: nat, phys: nat, k: nat, fl: Flags)
    requires k <= PAGES
    ensures var r := FlatRange(m, virt, phys, k, fl);
            && (forall i: nat :: i < k ==> PageNumber(Nth(virt, i)) in r && r[PageNumber(Nth(virt, i))] == NthPte(phys, i, fl))
            && (forall v :: (forall i: nat :: i < k ==> v != PageNumber(Nth(virt, i))) ==>
                 (v in r <==> v in m) && (v in m ==> r[v] == m[v]))
  {
    if k != 0 {
      FlatRangeContents(m, virt, phys, k - 1, fl);
      forall i: nat | i < k - 1 ensures PageNumber(Nth(virt, i)) != PageNumber(Nth(virt, k - 1)) {
        NthPagesDistinct(virt, i, k - 1);
      }
    }
  }

  /** After a range of n pages is mapped, its i-th page has an entry for the i-th frame with the flags of the range. */
  lemma RangeEntry(s: Space, virt: nat, phys: nat, n: nat, fl: Flags, i: nat)
    requires Inv(s) && i < n <= PAGES && MapRange(s, virt, phys, n, fl).1 == n
    ensures var page, m := PageNumber((virt + i * 4096) % TWO_64), Flat(MapRange(s, virt, phys, n, fl).0);
            page in m && IsEntry(m[page], (phys + i * 4096) % TWO_64, true, fl.writable, fl.user, fl.nx)
  {
    hide IsEntry, Flat, FlatRange, MapRange;
    MapRangeEffect(s, virt, phys, n, fl);
    FlatRangeContents(Flat(s), virt, phys, n, fl);
    assert PageNumber((virt + i * 4096) % TWO_64) == PageNumber(Nth(virt, i));
    PteBits(Nth(phys, i), true, fl.writable, fl.user, fl.nx, NthPte(phys, i, fl));
  }

  /**
   * After a range of n pages is mapped, every address of its i-th page translates to the i-th
   * frame plus its offset, if and only if NX was not asked for (or bit 63 is in the frame).
   */
  lemma RangeTranslation(s: Space, virt: nat, phys: nat, n: nat, fl: Flags, i: nat, addr: nat)
    requires Inv(s) && i < n <= PAGES && MapRange(s, virt, phys, n, fl).1 == n
    requires PageNumber(addr) == PageNumber(Nth(virt, i))
    ensures var f := Nth(phys, i);
            VirtToPhys(MapRange(s, virt, phys, n, fl).0, addr) == f - f % 4096 + addr % 4096 <==> !fl.nx || f >= TWO_63
  {
    MapRangeEffect(s, virt, phys, n, fl);
    FlatRangeContents(Flat(s), virt, phys, n, fl);
    PteAddress(Nth(phys, i), fl.writable, fl.user, fl.nx);
    TranslationFromFlat(MapRange(s, virt, phys, n, fl).0, addr, NthPte(phys, i, fl));
  }

  // ----- Runs -----

  datatype Op =
    | TakeFrames(count: nat)
    | GiveFrames(start: nat, count: nat)
    | ReserveFrames(start: nat, count: nat)
    | Map(v: nat, w: nat)
    | Unmap(v: nat)
    | WriteFrame(f: nat, i: nat, w: nat) // a client writing to memory it was given

  /** Callers free and write no table frame, and map present entries of existing pages. */
  ghost predicate Legal(s: Space, op: Op)
    requires Inv(s)
  {
    match op
    case TakeFrames(_) => true
    case GiveFrames(p, n) => forall g :: p <= g < p + n ==> NotATable(s, g)
    case ReserveFrames(_, _) => true
    case Map(v, w) => v < PAGES && Present(w)
    case Unmap(v) => v < PAGES
    case WriteFrame(f, i, _) => f < |s.mem| && i < 512 && NotATable(s, f)
  }

  /** One operation and whether it returned 0; an illegal one does not happen. */
  ghost function Step(s: Space, op: Op): (Space, bool)
    requires Inv(s)
  {
    if !Legal(s, op) then (s, false) else
      match op
      case TakeFrames(n) => (s.(a := AllocRun(s.a, n).0), true)
      case GiveFrames(p, n) => (s.(a := FreeRun(s.a, p, n)), true)
      case ReserveFrames(p, n) => (s.(a := ReserveRun(s.a, p, n)), true)
      case Map(v, w) => MapPage(s, v, w)
      case Unmap(v) => UnmapPage(s, v)
      case WriteFrame(f, i, w) => (s.(mem := Store(s.mem, f, i, w)), true)
  }

  /** The same operation on the flat map. */
  ghost function FlatStep(m: map<nat, nat>, op: Op, ok: bool): map<nat, nat> {
    match op
    case Map(v, w) => if ok then m[v := w] else m
    case Unmap(v) => m - {v}
    case _ => m
  }

  lemma GiveFramesKeeps(s: Space, p: nat, n: nat)
    requires Inv(s) && Legal(s, GiveFrames(p, n))
    ensures Inv(s.(a := FreeRun(s.a, p, n)))
  {
    FreeRunBits(s.a, p, n);
    FreeRunKeeps(s.a, p, n);
    var t := s.(a := FreeRun(s.a, p, n));
    assert IsTable(s, 0, 0, s.root);
    forall l: nat, q: nat, f: nat | IsTable(t, l, q, f)
      ensures IsTable(s, l, q, f) && !(p <= f < p + n)
    {
      assert p <= f < p + n ==> NotATable(s, f);
      assert IsTable(s, l, q, f);
    }
  }

  lemma WriteFrameKeeps(s: Space, f: nat, i: nat, w: nat)
    requires Inv(s) && Legal(s, WriteFrame(f, i, w))
    ensures var t := s.(mem := Store(s.mem, f, i, w)); Inv(t) && Flat(t) == Flat(s)
  {
    StoreRead(s.mem, f, i, w, f, 0);
    var words: seq<nat> := s.mem[f];
    var written: seq<nat> := words[i := w];
    var t := s.(mem := s.mem[f := written]);
    forall l: nat, q: nat, h: nat | IsTable(t, l, q, h) ensures IsTable(s, l, q, h) {
      WriteElsewhere(s, f, written, l, q);
    }
    forall v: nat | v < PAGES ensures Lookup(t.mem, t.root, v) == Lookup(s.mem, s.root, v) {
      WriteElsewhereKeepsLookup(s, f, written, v);
    }
    SameLookupsSameFlat(s, t);
  }

  lemma UseMoreKeeps(s: Space, a: Alloc)
    requires Inv(s) && WellFormed(a) && a.maxPages == s.a.maxPages
    requires forall f :: 0 <= f < a.maxPages && s.a.bits[f] ==> a.bits[f]
    ensures Inv(s.(a := a)) && Flat(s.(a := a)) == Flat(s)
  {
    UseFrame(s, a);
    SameLookupsSameFlat(s, s.(a := a));
  }

  /** The return code of an unmap says whether the page was mapped. */
  ghost predicate CodeFits(m: map<nat, nat>, op: Op, ok: bool) {
    op.Unmap? ==> (ok <==> op.v in m)
  }

  lemma StepRefines(s: Space, op: Op)
    requires Inv(s)
    ensures var (t, ok) := Step(s, op);
            && Inv(t) && Flat(t) == FlatStep(Flat(s), op, ok) && CodeFits(Flat(s), op, ok)
            && Slack(t.a) == Slack(s.a)
  {
    if Legal(s, op) {
      match op
      case TakeFrames(n) =>
        AllocRunEffect(s.a, n);
        UseMoreKeeps(s, AllocRun(s.a, n).0);
      case GiveFrames(p, n) =>
        GiveFramesKeeps(s, p, n);
        FreeRunKeeps(s.a, p, n);
        SameLookupsSameFlat(s, s.(a := FreeRun(s.a, p, n)));
      case ReserveFrames(p, n) =>
        ReserveRunBits(s.a, p, n);
        ReserveRunKeeps(s.a, p, n);
        UseMoreKeeps(s, ReserveRun(s.a, p, n));
      case Map(v, w) => MapPageEffect(s, v, w);
      case Unmap(v) => UnmapPageEffect(s, v);
      case WriteFrame(f, i, w) => WriteFrameKeeps(s, f, i, w);
    }
  }

  /** The state after a run, and the return code of each operation. */
  ghost function Exec(s: Space, ops: seq<Op>): (Space, seq<bool>)
    requires Inv(s)
    decreases |ops|
  {
    if ops == [] then (s, [])
    else
      StepRefines(s, ops[0]);
      var (s1, ok) := Step(s, ops[0]);
      var (t, oks) := Exec(s1, ops[1..]);
      (t, [ok] + oks)
  }

  ghost function FlatExec(m: map<nat, nat>, ops: seq<Op>, oks: seq<bool>): map<nat, nat>
    requires |oks| == |ops|
    decreases |ops|
  {
    if ops == [] then m else FlatExec(FlatStep(m, ops[0], oks[0]), ops[1..], oks[1..])
  }

  /** The return codes of a run fit the flat map at their time. */
  ghost predicate CodesFit(m: map<nat, nat>, ops: seq<Op>, oks: seq<bool>)
    requires |oks| == |ops|
    decreases |ops|
  {
    ops != [] ==> CodeFits(m, ops[0], oks[0]) && CodesFit(FlatStep(m, ops[0], oks[0]), ops[1..], oks[1..])
  }

  /**
   * Over every run in which callers free and write no table frame, page-table frames stay
   * distinct and used, and the four-level walk stays equal to the flat map that performs the
   * same maps and unmaps: unmaps succeed exactly on mapped pages, and a failed map changes
   * nothing. The frame count stays in step with the bitmap.
   */
  lemma {:induction false} ExecRefines(s: Space, ops: seq<Op>)
    requires Inv(s)
    ensures var (t, oks) := Exec(s, ops);
            && Inv(t) && |oks| == |ops| && Flat(t) == FlatExec(Flat(s), ops, oks)
            && CodesFit(Flat(s), ops, oks) && Slack(t.a) == Slack(s.a)
    decreases |ops|
  {
    if ops != [] {
      StepRefines(s, ops[0]);
      var (s1, ok) := Step(s, ops[0]);
      ExecRefines(s1, ops[1..]);
      var (t, oks) := Exec(s1, ops[1..]);
      assert ([ok] + oks)[1..] == oks;
    }
  }
}
