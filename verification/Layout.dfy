/** Where `page_init` puts the page array and the bootstrap tables, and why those
    frames are never handed out. */
module Layout {
  import opened Sizes
  import Words
  import opened Frames
  import opened FrameRuns
  import opened Marking
  import opened MarkRuns
  import opened PageRuns

  const STRUCT_SIZE: nat := 64
  const INITIAL_TOP: nat := 0x40_0000   // V2P of the end of the window mapped at boot
  const LARGE_PAGE: nat := 0x20_0000

  /** `numpages` structs from physical address `structs` on, in `frames` frames.  With
      `bootstrap`, three table frames lie from `tables` on, and `mapped` bytes are
      given to `mmu_bootstrap`. */
  datatype Plan = Plan(numpages: nat, frames: nat, bootstrap: bool, tables: nat, structs: nat, mapped: nat)

  function PlanFor(memory: nat, table: nat): Plan {
    var start := RoundUp(table);
    var numpages := RoundUp(memory) / PAGE_SIZE;
    var frames := RoundUp(numpages * STRUCT_SIZE) / PAGE_SIZE;
    var top := frames * PAGE_SIZE + start;
    Plan(numpages, frames, top > INITIAL_TOP, start,
         if top > INITIAL_TOP then start + 3 * PAGE_SIZE else start,
         (top + LARGE_PAGE) / LARGE_PAGE * LARGE_PAGE)
  }

  /** The plan in plain arithmetic, where nothing wraps. */
  lemma PlanIs(memory: nat, table: nat)
    requires memory < WORD / 2 && table < WORD / 2
    ensures var numpages, start := memory / PAGE_SIZE + 1, (table / PAGE_SIZE + 1) * PAGE_SIZE;
            var frames := numpages * STRUCT_SIZE / PAGE_SIZE + 1;
            var top := frames * PAGE_SIZE + start;
            var bootstrap := top > INITIAL_TOP;
            PlanFor(memory, table) == Plan(numpages, frames, bootstrap, start,
                                           if bootstrap then start + 3 * PAGE_SIZE else start,
                                           (top / LARGE_PAGE + 1) * LARGE_PAGE)
  {
    hide RoundUp;
    RoundUpIs(memory);
    RoundUpIs(table);
    RoundUpIs((memory / PAGE_SIZE + 1) * STRUCT_SIZE);
  }

  predicate HoldsArray(plan: Plan, p: nat) {
    plan.structs / PAGE_SIZE <= p < plan.structs / PAGE_SIZE + plan.frames
  }

  predicate HoldsTable(plan: Plan, p: nat) {
    plan.bootstrap && plan.tables / PAGE_SIZE <= p < plan.tables / PAGE_SIZE + 3
  }

  /** The flags after `page_init`, which does not clear the others. */
  function InitialFlags(plan: Plan, before: nat -> bv64): nat -> bv64 {
    (p: nat) =>
      if HoldsArray(plan, p) then P_IMMUTABLE | P_PHYS | P_KERNEL
      else if HoldsTable(plan, p) then P_IMMUTABLE | P_VIRT | P_KERNEL
      else before(p)
  }

  /** The reserved frames cover every byte of the page array. */
  lemma ArrayIsReserved(memory: nat, table: nat, before: nat -> bv64, byte: nat)
    requires memory < WORD - PAGE_SIZE && table < WORD - PAGE_SIZE
    requires var plan := PlanFor(memory, table); plan.structs <= byte < plan.structs + plan.numpages * STRUCT_SIZE
    ensures Protected(InitialFlags(PlanFor(memory, table), before)(byte / PAGE_SIZE))
  {
    var plan := PlanFor(memory, table);
    RoundUpMonotone(memory, memory);
    RoundUpMonotone(table, table);
    RoundUpMonotone(plan.numpages * STRUCT_SIZE, plan.numpages * STRUCT_SIZE);
    assert plan.structs % PAGE_SIZE == 0;
    assert HoldsArray(plan, byte / PAGE_SIZE);
    assert P_IMMUTABLE | P_PHYS | P_KERNEL == 0x3C000;
  }

  /** The flags after `page_init` in plain numbers.  The array has 64 bytes for each page up to
      that of the memory's end, and goes behind the kernel's last page, with three tables in
      front if it would not end within 4 MB. */
  lemma FlagsInit(memory: nat, table: nat, before: nat -> bv64, p: nat)
    requires memory < WORD / 2 && table < WORD / 2
    ensures var first, frames := table / 0x1000 + 1, (memory / 0x1000 + 1) * 64 / 0x1000 + 1;
            var tables := if (first + frames) * 0x1000 > 0x40_0000 then 3 else 0;
            InitialFlags(PlanFor(memory, table), before)(p) ==
            if first <= p < first + tables then 0x3_4000
            else if first + tables <= p < first + tables + frames then 0x3_C000
            else before(p)
  {
    assert P_IMMUTABLE | P_PHYS | P_KERNEL == 0x3_C000 && P_IMMUTABLE | P_VIRT | P_KERNEL == 0x3_4000;
    hide PlanFor;
    PlanIs(memory, table);
    var plan := PlanFor(memory, table);
    assert plan.tables / PAGE_SIZE == table / PAGE_SIZE + 1;
  }

  lemma ReservedIsProtected(plan: Plan, before: nat -> bv64, p: nat)
    requires HoldsArray(plan, p) || HoldsTable(plan, p)
    ensures Protected(InitialFlags(plan, before)(p))
  {
    assert (P_IMMUTABLE | P_PHYS | P_KERNEL) & (P_PHYS | P_VIRT) == 0x18000;
    assert (P_IMMUTABLE | P_VIRT | P_KERNEL) & (P_PHYS | P_VIRT) == 0x10000;
  }

  /** Allocating and freeing only move pages between the two lists. */
  lemma {:induction false} RunKeepsPages(l: Lists, ops: seq<Op>, p: nat)
    requires p !in l.free && p !in l.used && Legal(l, ops)
    ensures Page(p) !in RunLists(l, ops).1
    decreases |ops|
  {
    if ops != [] {
      var (l1, out) := StepLists(l, ops[0]);
      assert p !in l1.free && p !in l1.used && Page(p) !in out by {
        StepKeepsPages(l, ops[0], p);
      }
      RunKeepsPages(l1, ops[1..], p);
    }
  }

  lemma StepKeepsPages(l: Lists, op: Op, p: nat)
    requires p !in l.free && p !in l.used && (op.Free? ==> op.page in l.used)
    ensures var (l1, out) := StepLists(l, op); p !in l1.free && p !in l1.used && Page(p) !in out
  {
    if op.Free? {
      RemoveSubset(l.used, op.page);
    }
  }

  lemma {:induction false} RemoveSubset<T>(s: seq<T>, x: T)
    ensures forall y :: y in Remove(s, x) ==> y in s
  {
    if s != [] {
      RemoveSubset(s[1..], x);
    }
  }

  /** No run of marks, allocations and frees of used pages ever returns a frame that
      holds part of the page array or one of the three bootstrap tables. */
  lemma {:induction false} ReservedNeverHandedOut(s: Pool, plan: Plan, before: nat -> bv64, calls: seq<Call>,
                                                  ops: seq<Op>, p: nat)
    requires (forall q: nat :: s.flags(q) == InitialFlags(plan, before)(q)) && Placed(s.m, EMPTY, plan.numpages)
    requires forall c :: c in calls ==> PastPage(c) <= plan.numpages
    requires Legal(ApplyMarks(EMPTY, LogAll(s, calls)), ops)
    requires HoldsArray(plan, p) || HoldsTable(plan, p)
    ensures Page(p) !in RunPool(MarkAll(s, calls), ops).1
  {
    var s', l := MarkAll(s, calls), ApplyMarks(EMPTY, LogAll(s, calls));
    hide MarkAll, LogAll, ApplyMarks, InitialFlags, FateAfter, Legal, PagesOk, Placed, PastPage, Protected;
    MarkedPagesOk(s, plan.numpages, calls);
    MarkAllFate(s, EMPTY, plan.numpages, calls, p);
    ReservedIsProtected(plan, before, p);
    ProtectedFate(FateOf(s, EMPTY, p), calls, p);
    PagesRunRefines(s', l, plan.numpages, ops);
    RunKeepsPages(l, ops, p);
  }

  function PageOfByte(b: nat): nat {
    b / PAGE_SIZE
  }

  /** The loop of `page_init` over the structs writes to the page. */
  ghost predicate Overwritten(plan: Plan, p: nat) {
    exists b: nat :: plan.structs <= b < plan.structs + plan.numpages * STRUCT_SIZE && PageOfByte(b) == p
  }

  /** The structs take up the pages from that of their first byte to that of their last.  The
      array's last frame may be past them. */
  lemma OverwrittenIff(plan: Plan, p: nat)
    requires plan.numpages > 0
    ensures Overwritten(plan, p) <==>
            plan.structs / PAGE_SIZE <= p <= (plan.structs + plan.numpages * STRUCT_SIZE - 1) / PAGE_SIZE
  {
    var first, last := plan.structs, plan.structs + plan.numpages * STRUCT_SIZE - 1;
    if first / PAGE_SIZE <= p <= last / PAGE_SIZE {
      var b := if p == first / PAGE_SIZE then first else p * PAGE_SIZE;
      assert PageOfByte(b) == p && first <= b <= last;
    }
  }

  /** Three more frames, less the unused end of the array's last one, fit below the next
      large-page boundary: `mmu_bootstrap` is told how much to map before the tables are put
      in front of the array. */
  predicate RoomForTables(plan: Plan) {
    var top := plan.frames * PAGE_SIZE + plan.tables;
    var unused := plan.frames * PAGE_SIZE - plan.numpages * STRUCT_SIZE;
    top % LARGE_PAGE + 3 * PAGE_SIZE - unused <= LARGE_PAGE
  }

  /** `page_request`: the comparison lets the index one past the array through. */
  function PageRequest(numpages: nat, address: nat): Words.Option<nat> {
    var index := RoundDown(address) / PAGE_SIZE;
    if index > numpages then Words.None else Words.Some(index)
  }

  /** For every address up to the highest one, `page_request` returns the struct whose
      address is that address rounded down to a page. */
  lemma PageRequestFinds(memory: nat, address: nat)
    requires address <= memory < WORD - PAGE_SIZE
    ensures var n := RoundUp(memory) / PAGE_SIZE;
            var r := PageRequest(n, address);
            r.Some? && r.value < n && r.value * PAGE_SIZE == RoundDown(address)
  {
    RoundUpMonotone(memory, memory);
  }

  /** The result is outside the array exactly for the addresses in the first page
      above it. */
  lemma PageRequestOverruns(numpages: nat, address: nat)
    ensures PageRequest(numpages, address) == Words.Some(numpages)
       <==> numpages * PAGE_SIZE <= address < (numpages + 1) * PAGE_SIZE
    ensures PageRequest(numpages, address) == Words.None <==> (numpages + 1) * PAGE_SIZE <= address
  {
  }
}
