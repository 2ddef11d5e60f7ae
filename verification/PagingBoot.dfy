/**
 * Where paging starts from (kernel/mm/paging_impl.c, kernel/mm/memory.c): the PML4 of the boot code,
 * and whether the frame allocator keeps its hands off it.
 */
module PagingBoot {
  import opened Prelude
  import opened FrameAllocatorSpec
  import opened FrameBitmap
  import opened PageTables
  import opened PagingSpec

  /** With an all-zero PML4 the root is the only table and nothing is mapped. */
  lemma EmptyRoot(s: Space)
    requires Sized(s) && s.mem[s.root] == Zeros()
    ensures Flat(s) == map[] && (Inv(s) <==> RootKept(s))
  {
    forall l: nat, p: nat | 0 < l <= 3 ensures Table(s.mem, s.root, l, p) == None {
      NoTables(s, l, p);
    }
    forall v: nat ensures Lookup(s.mem, s.root, v) == None {
      NoTables(s, 3, v / 512);
    }
  }

  lemma {:induction false} NoTables(s: Space, l: nat, p: nat)
    requires Sized(s) && s.mem[s.root] == Zeros() && 0 < l
    ensures Table(s.mem, s.root, l, p) == None
  {
    if l > 1 {
      NoTables(s, l - 1, p / 512);
    }
  }

  // ----- The kernel's own start -----

  /**
   * After memory_manager_init with the built-in map, frame 1, where paging_init says the PML4 is, and
   * every frame from the load address of the kernel up to the bitmap are free. Nothing reserves them.
   */
  lemma BootFramesAreFree(p: nat)
    requires p == 1 || 256 <= p < 512
    ensures StartsFree(QEMU_MAP, BytesToPages(TotalFree(QEMU_MAP)), p)
  {
    QemuMapHasGuards();
    assert QEMU_MAP[0].Covers(1);
    assert p > 1 ==> QEMU_MAP[2].Covers(p);
  }

  // ----- Whether the root can be handed out -----

  /** What users of frames do; nobody frees the frame of the root. */
  datatype FrameOp = Take(count: nat) | Give(start: nat, count: nat) | Keep(start: nat, count: nat)

  ghost function FrameStep(a: Alloc, root: nat, op: FrameOp): Alloc
    requires WellFormed(a)
  {
    match op
    case Take(n) => AllocRun(a, n).0
    case Give(p, n) => if p <= root < p + n then a else FreeRun(a, p, n)
    case Keep(p, n) => ReserveRun(a, p, n)
  }

  lemma FrameStepKeeps(a: Alloc, root: nat, op: FrameOp)
    requires WellFormed(a)
    ensures var r := FrameStep(a, root, op);
            && WellFormed(r) && r.maxPages == a.maxPages
            && (root < a.maxPages && a.bits[root] ==> r.bits[root])
  {
    match op
    case Take(n) => AllocRunEffect(a, n);
    case Give(p, n) =>
      FreeRunKeeps(a, p, n);
      FreeRunBits(a, p, n);
    case Keep(p, n) =>
      ReserveRunKeeps(a, p, n);
      ReserveRunBits(a, p, n);
  }

  ghost function After(a: Alloc, root: nat, ops: seq<FrameOp>): (r: Alloc)
    requires WellFormed(a)
    ensures WellFormed(r) && r.maxPages == a.maxPages
    decreases |ops|
  {
    if ops == [] then a
    else
      FrameStepKeeps(a, root, ops[0]);
      After(FrameStep(a, root, ops[0]), root, ops[1..])
  }

  lemma {:induction false} AfterKeepsRoot(a: Alloc, root: nat, ops: seq<FrameOp>)
    requires WellFormed(a) && root < a.maxPages && a.bits[root]
    ensures After(a, root, ops).bits[root]
    decreases |ops|
  {
    if ops != [] {
      FrameStepKeeps(a, root, ops[0]);
      AfterKeepsRoot(FrameStep(a, root, ops[0]), root, ops[1..]);
    }
  }

  /** After these operations, the next table is the frame of the root. */
  ghost predicate HandsOutRoot(s: Space, ops: seq<FrameOp>)
    requires Sized(s)
  {
    AllocTable(s.(a := After(s.a, s.root, ops))).1 == Some(s.root)
  }

  /** A one-page search finds the first free frame. */
  lemma {:induction false} FindsFirst(a: Alloc, p: nat, i: nat)
    requires i <= p < a.maxPages <= |a.bits| && !a.bits[p] && forall j :: 0 <= j < p ==> a.bits[j]
    ensures FindFrom(a, 1, i) == Some(p)
    decreases p - i
  {
    if i < p {
      FindsFirst(a, p, i + 1);
      assert a.bits[i] && !ClearRun(a.bits, i, 1);
    }
  }

  /**
   * No run of frame operations makes the frame of the root the next table if and only if that frame is
   * not managed or is marked used. (Frame 0 is never handed out as a table.)
   */
  lemma RootIsSafeIff(s: Space)
    requires Sized(s) && 0 < s.root
    ensures (forall ops :: !HandsOutRoot(s, ops)) <==> RootKept(s)
  {
    if RootKept(s) {
      forall ops ensures !HandsOutRoot(s, ops) {
        if s.root < s.a.maxPages {
          AfterKeepsRoot(s.a, s.root, ops);
        }
        AllocRunEffect(After(s.a, s.root, ops), 1);
      }
    } else {
      var a := ReserveRun(s.a, 0, s.root);
      ReserveRunKeeps(s.a, 0, s.root);
      ReserveRunBits(s.a, 0, s.root);
      FindsFirst(a, s.root, 0);
      assert After(s.a, s.root, [Keep(0, s.root)]) == a by {
        assert [Keep(0, s.root)][1..] == [];
      }
      assert HandsOutRoot(s, [Keep(0, s.root)]);
    }
  }

  /** A root that is handed out as a table is cleared, and every translation is lost. */
  lemma HandingOutRootIsFatal(s: Space)
    requires Sized(s) && AllocTable(s).1 == Some(s.root)
    ensures WellFormedMem(AllocTable(s).0.mem) && Flat(AllocTable(s).0) == map[]
  {
    AllocRunEffect(s.a, 1);
    EmptyRoot(AllocTable(s).0);
  }
}
