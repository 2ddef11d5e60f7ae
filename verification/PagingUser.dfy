/**
 * Which pages user mode can reach. The processor asks for U/S in every entry on the way to a page
 * (section 4.6 of the Intel SDM, Volume 3A), and paging_map_page links its tables without.
 */
module PagingUser {
  import opened Prelude
  import opened Bits
  import opened FrameAllocatorSpec
  import opened PageTables
  import opened PagingSpec
  import opened PagingRuns
  import opened PagingBoot

  /** Every entry on the way to what is at `level` for prefix `p` is there and has U/S. */
  ghost predicate UserWay(m: Mem, root: nat, level: nat, p: nat)
    requires WellFormedMem(m)
  {
    level == 0 ||
    (var parent := Table(m, root, level - 1, p / 512);
     && parent.Some? && parent.value < |m|
     && Present(m[parent.value][p % 512]) && TestBit(m[parent.value][p % 512], 2)
     && UserWay(m, root, level - 1, p / 512))
  }

  /** User mode reaches page number `v`. */
  ghost predicate UserPage(s: Space, v: nat)
    requires WellFormedMem(s.mem)
  {
    UserWay(s.mem, s.root, 4, v)
  }

  // ----- Linking tables opens no way -----

  lemma {:induction false} LinkOpensNoWay(s: Space, level: nat, p: nat, f: nat, i: nat, g: nat, l: nat, q: nat)
    requires CanLink(s, level, p, f, i, g) && l <= 3 && q < Size(l)
    requires WellFormedMem(Linked(s.mem, f, i, g)) && UserWay(Linked(s.mem, f, i, g), s.root, l, q)
    ensures UserWay(s.mem, s.root, l, q)
  {
    if l > 0 {
      LinkTargetsDiffer(s, level, p, f, i, g);
      LinkOpensNoWay(s, level, p, f, i, g, l - 1, q / 512);
      LinkAddsOneTable(s, level, p, f, i, g, l - 1, q / 512);
      LinkIsPte(g);
      var parent := Table(Linked(s.mem, f, i, g), s.root, l - 1, q / 512).value;
      LinkedRead(s.mem, f, i, g, parent, q % 512);
    }
  }

  lemma DescendOpensNoWay(s: Space, level: nat, p: nat, f: nat, i: nat, l: nat, q: nat)
    requires Inv(s) && level < 3 && IsTable(s, level, p, f) && f < |s.mem| && i < 512 && l <= 3 && q < Size(l)
    requires Inv(Descend(s, f, i).0) && UserWay(Descend(s, f, i).0.mem, s.root, l, q)
    ensures UserWay(s.mem, s.root, l, q)
  {
    AllocTableEffect(s);
    if !Present(s.mem[f][i]) && AllocTable(s).1.Some? {
      var g := AllocTable(s).1.value;
      FreeFrameIsNoTable(s, g);
      LinkOpensNoWay(s, level, p, f, i, g, l, q);
    }
  }

  lemma {:induction false} ReachOpensNoWay(s: Space, level: nat, p: nat, l: nat, q: nat)
    requires Inv(s) && level <= 3 && p < Size(level) && l <= 3 && q < Size(l)
    requires Inv(Reach(s, level, p).0) && UserWay(Reach(s, level, p).0.mem, s.root, l, q)
    ensures UserWay(s.mem, s.root, l, q)
  {
    if level > 0 {
      ReachEffect(s, level - 1, p / 512);
      var (s1, parent) := Reach(s, level - 1, p / 512);
      if parent.Some? {
        DescendOpensNoWay(s1, level - 1, p / 512, parent.value, p % 512, l, q);
      }
      ReachOpensNoWay(s, level - 1, p / 512, l, q);
    }
  }

  // ----- Leaf entries -----

  lemma {:induction false} LeafWriteKeepsWays(s: Space, page: nat, f: nat, w: nat, l: nat, q: nat)
    requires Inv(s) && page < PAGES && f < |s.mem| && Table(s.mem, s.root, 3, page / 512) == Some(f)
    requires WellFormedMem(Store(s.mem, f, page % 512, w)) && l <= 3 && q < Size(l)
    ensures UserWay(Store(s.mem, f, page % 512, w), s.root, l, q) <==> UserWay(s.mem, s.root, l, q)
  {
    SizeOfLevels();
    if l > 0 {
      LeafWriteKeepsWays(s, page, f, w, l - 1, q / 512);
      assert IsTable(s, 3, page / 512, f);
      LeafWriteKeepsTables(s, page / 512, f, page % 512, w, l - 1, q / 512);
      var parent := Table(s.mem, s.root, l - 1, q / 512);
      if parent.Some? && parent.value < |s.mem| {
        assert IsTable(s, l - 1, q / 512, parent.value);
        StoreRead(s.mem, f, page % 512, w, parent.value, q % 512);
      }
    }
  }

  /** A way that exists needs no new table. */
  lemma {:induction false} WayIsThere(s: Space, l: nat, q: nat)
    requires WellFormedMem(s.mem) && UserWay(s.mem, s.root, l, q)
    ensures Table(s.mem, s.root, l, q).Some? && Missing(s, l, q) == 0
  {
  }

  /**
   * After a successful map user mode reaches the page if and only if U/S was asked for and the tables on
   * the way were there before, with U/S in their entries: never through a table that the map created.
   */
  lemma UserPageIff(s: Space, v: nat, phys: U64, writable: bool, user: bool, nx: bool)
    requires Inv(s) && v < PAGES && MapPage(s, v, MakePte(phys, true, writable, user, nx)).1
    ensures var t := MapPage(s, v, MakePte(phys, true, writable, user, nx)).0;
            Inv(t) && (UserPage(t, v) <==> user && UserWay(s.mem, s.root, 3, v / 512))
  {
    var w := MakePte(phys, true, writable, user, nx);
    PteBits(phys, true, writable, user, nx, w);
    MapPageEffect(s, v, w);
    SizeOfLevels();
    ReachEffect(s, 3, v / 512);
    var (s1, pt) := Reach(s, 3, v / 512);
    var t := MapPage(s, v, w).0;
    LeafWriteKeepsWays(s1, v, pt.value, w, 3, v / 512);
    assert IsTable(s1, 3, v / 512, pt.value);
    LeafWriteKeepsTables(s1, v / 512, pt.value, v % 512, w, 3, v / 512);
    StoreRead(s1.mem, pt.value, v % 512, w, pt.value, v % 512);
    if UserWay(s1.mem, s.root, 3, v / 512) {
      ReachOpensNoWay(s, 3, v / 512, 3, v / 512);
    }
    if UserWay(s.mem, s.root, 3, v / 512) {
      WayIsThere(s, 3, v / 512);
      ReachSpends(s, 3, v / 512);
    }
  }

  // ----- Runs -----

  /** No table below the root is open to user mode. */
  ghost predicate NoUserTables(s: Space)
    requires WellFormedMem(s.mem)
  {
    forall p: nat :: p < Size(1) ==> !UserWay(s.mem, s.root, 1, p)
  }

  lemma {:induction false} NoUserBelow(s: Space, l: nat, q: nat)
    requires WellFormedMem(s.mem) && NoUserTables(s) && 1 <= l && q < Size(l)
    ensures !UserWay(s.mem, s.root, l, q)
  {
    if l > 1 {
      NoUserBelow(s, l - 1, q / 512);
    }
  }

  lemma MapKeepsNoUser(s: Space, v: nat, w: nat)
    requires Inv(s) && NoUserTables(s) && v < PAGES && Present(w)
    ensures Inv(MapPage(s, v, w).0) && NoUserTables(MapPage(s, v, w).0)
  {
    MapPageEffect(s, v, w);
    SizeOfLevels();
    ReachEffect(s, 3, v / 512);
    var (s1, pt) := Reach(s, 3, v / 512);
    forall p: nat | p < Size(1) ensures !UserWay(MapPage(s, v, w).0.mem, s.root, 1, p) {
      if UserWay(s1.mem, s.root, 1, p) {
        ReachOpensNoWay(s, 3, v / 512, 1, p);
      }
      if pt.Some? {
        LeafWriteKeepsWays(s1, v, pt.value, w, 1, p);
      }
    }
  }

  lemma UnmapKeepsNoUser(s: Space, v: nat)
    requires Inv(s) && NoUserTables(s) && v < PAGES
    ensures Inv(UnmapPage(s, v).0) && NoUserTables(UnmapPage(s, v).0)
  {
    UnmapPageEffect(s, v);
    if Lookup(s.mem, s.root, v).Some? {
      forall p: nat | p < Size(1) ensures !UserWay(UnmapPage(s, v).0.mem, s.root, 1, p) {
        LeafWriteKeepsWays(s, v, Table(s.mem, s.root, 3, v / 512).value, 0, 1, p);
      }
    }
  }

  lemma FirstEntry(m: Mem, root: nat, p: nat)
    requires WellFormedMem(m) && root < |m|
    ensures UserWay(m, root, 1, p) <==> Present(m[root][p % 512]) && TestBit(m[root][p % 512], 2)
  {
    assert Table(m, root, 0, p / 512) == Some(root) && UserWay(m, root, 0, p / 512);
  }

  lemma RootDecides(s: Space, t: Space)
    requires WellFormedMem(s.mem) && WellFormedMem(t.mem) && s.root == t.root < |s.mem| == |t.mem|
    requires t.mem[s.root] == s.mem[s.root] && NoUserTables(s)
    ensures NoUserTables(t)
  {
    forall p: nat | p < Size(1) ensures !UserWay(t.mem, t.root, 1, p) {
      FirstEntry(s.mem, s.root, p);
      FirstEntry(t.mem, t.root, p);
      assert !UserWay(s.mem, s.root, 1, p);
    }
  }

  lemma StepKeepsNoUser(s: Space, op: Op)
    requires Inv(s) && NoUserTables(s)
    ensures Inv(Step(s, op).0) && NoUserTables(Step(s, op).0)
  {
    StepRefines(s, op);
    if Legal(s, op) {
      match op
      case Map(v, w) => MapKeepsNoUser(s, v, w);
      case Unmap(v) => UnmapKeepsNoUser(s, v);
      case WriteFrame(f, i, w) =>
        assert IsTable(s, 0, 0, s.root);
        RootDecides(s, Step(s, op).0);
      case _ => RootDecides(s, Step(s, op).0);
    }
  }

  lemma {:induction false} RunKeepsNoUser(s: Space, ops: seq<Op>)
    requires Inv(s) && NoUserTables(s)
    ensures Inv(Exec(s, ops).0) && NoUserTables(Exec(s, ops).0)
    decreases |ops|
  {
    if ops != [] {
      StepKeepsNoUser(s, ops[0]);
      RunKeepsNoUser(Step(s, ops[0]).0, ops[1..]);
    }
  }

  /**
   * From an empty PML4 no run of maps, unmaps, frame operations and client writes makes any page reachable
   * for user mode, whatever flags the maps ask for.
   */
  lemma NoPageForUserMode(s: Space, ops: seq<Op>, v: nat)
    requires Inv(s) && s.mem[s.root] == Zeros() && v < PAGES
    ensures Inv(Exec(s, ops).0) && !UserPage(Exec(s, ops).0, v)
  {
    assert NoUserTables(s);
    RunKeepsNoUser(s, ops);
    SizeOfLevels();
    NoUserBelow(Exec(s, ops).0, 4, v);
  }
}
