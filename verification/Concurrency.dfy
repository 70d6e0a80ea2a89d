/** `page_alloc` and `page_free` on several CPUs.  Every load, store, test-and-set and
    clear is a step of its own, and steps of different CPUs interleave freely.
    Any number of CPUs may free pages that they own and call `page_alloc`.  The calls are
    safe as long as no more of them are under way than pages are free, or only one is. */
module Concurrency {
  import opened Rings
  import opened Frames
  import opened FrameRuns

  /** Registers of a CPU inside the critical section: the entry it works on and the
      two neighbours it has loaded. */
  datatype Regs = Regs(entry: Ptr, a: Ptr, b: Ptr)

  /** Where a CPU is.  `AllocSpin` has passed the unlocked emptiness test. */
  datatype Pc =
    | Idle
    | AllocSpin
    | AllocRun(at: nat, regs: Regs)
    | FreeSpin(page: nat)
    | FreeRun(page: nat, at: nat, regs: Regs)

  datatype Cpu = Cpu(pc: Pc, own: set<nat>)

  /** `avail` is kept for the specification only: how many pages were free when the lock
      was last released. */
  datatype State = State(pool: Pool, locked: bool, cpus: seq<Cpu>, avail: int)

  const ALLOC_END: nat := 17
  const FREE_END: nat := 15

  // ----- the instructions of the two critical sections -----

  /** The lru node of the page whose pages node is `e`.  It comes 16 bytes earlier, also
      when `e` is really the free head; the model keeps those bytes apart from all nodes. */
  function LruNode(e: Ptr): Ptr {
    match e
    case PagesOf(p) => LruOf(p)
    case _ => InFrontOfFree
  }

  function WriteNext(s: Pool, p: Ptr, q: Ptr): Pool {
    s.(m := SetNext(s.m, p, q))
  }

  function WritePrev(s: Pool, p: Ptr, q: Ptr): Pool {
    s.(m := SetPrev(s.m, p, q))
  }

  /** Instruction `at` of `page_alloc` after the lock is taken. */
  function AllocInstruction(s: Pool, r: Regs, at: nat): (Pool, Regs) {
    var e, n := r.entry, LruNode(r.entry);
    match at
    // list_first_entry(&free)
    case 0 => (s, r.(entry := s.m.next(FreeHead)))
    // list_add_tail(&lru, &p->lru)
    case 1 => (s, r.(a := s.m.prev(LruHead)))
    case 2 => (WritePrev(s, LruHead, n), r)
    case 3 => (WriteNext(s, n, LruHead), r)
    case 4 => (WritePrev(s, n, r.a), r)
    case 5 => (WriteNext(s, r.a, n), r)
    // list_move(&used, &p->pages)
    case 6 => (s, r.(a := s.m.prev(e)))
    case 7 => (s, r.(b := s.m.next(e)))
    case 8 => (WritePrev(s, r.b, r.a), r)
    case 9 => (WriteNext(s, r.a, r.b), r)
    case 10 => (s, r.(b := s.m.next(UsedHead)))
    case 11 => (WritePrev(s, r.b, e), r)
    case 12 => (WriteNext(s, e, r.b), r)
    case 13 => (WritePrev(s, e, UsedHead), r)
    case 14 => (WriteNext(s, UsedHead, e), r)
    case 15 => (s.(numUsed := s.numUsed + 1), r)
    case 16 => (s.(numFree := s.numFree - 1), r)
    case _ => (s, r)
  }

  /** Instruction `at` of `page_free(p)` after the lock is taken. */
  function FreeInstruction(s: Pool, r: Regs, p: nat, at: nat): (Pool, Regs) {
    var e, n := PagesOf(p), LruOf(p);
    match at
    // list_move_tail(&free, &p->pages)
    case 0 => (s, r.(a := s.m.prev(e)))
    case 1 => (s, r.(b := s.m.next(e)))
    case 2 => (WritePrev(s, r.b, r.a), r)
    case 3 => (WriteNext(s, r.a, r.b), r)
    case 4 => (s, r.(a := s.m.prev(FreeHead)))
    case 5 => (WritePrev(s, FreeHead, e), r)
    case 6 => (WriteNext(s, e, FreeHead), r)
    case 7 => (WritePrev(s, e, r.a), r)
    case 8 => (WriteNext(s, r.a, e), r)
    // list_del(&p->lru)
    case 9 => (s, r.(a := s.m.prev(n)))
    case 10 => (s, r.(b := s.m.next(n)))
    case 11 => (WritePrev(s, r.b, r.a), r)
    case 12 => (WriteNext(s, r.a, r.b), r)
    case 13 => (s.(numUsed := s.numUsed - 1), r)
    case 14 => (s.(numFree := s.numFree + 1), r)
    case _ => (s, r)
  }

  // ----- the machine -----

  datatype Label = StartAlloc(cpu: nat) | StartFree(cpu: nat, page: nat) | Advance(cpu: nat)

  predicate Allocating(pc: Pc) {
    pc.AllocSpin? || pc.AllocRun?
  }

  predicate Inside(pc: Pc) {
    pc.AllocRun? || pc.FreeRun?
  }

  /** How many CPUs are past the test of `page_alloc` and not yet out of it. */
  function Callers(cpus: seq<Cpu>): nat {
    if cpus == [] then 0 else
    Callers(cpus[..|cpus| - 1]) + if Allocating(cpus[|cpus| - 1].pc) then 1 else 0
  }

  /** What a CPU can do: start a call when idle, free a page it owns, go on with a call. */
  predicate Possible(st: State, lbl: Label) {
    && lbl.cpu < |st.cpus|
    && match lbl
       case StartAlloc(c) => st.cpus[c].pc.Idle?
       case StartFree(c, p) => st.cpus[c].pc.Idle? && p in st.cpus[c].own
       case Advance(c) => !st.cpus[c].pc.Idle?
  }

  /** What keeps the lists safe: a CPU enters `page_alloc` only while nobody else is in it,
      or while fewer calls are under way than pages are free. */
  predicate Enabled(st: State, lbl: Label) {
    && Possible(st, lbl)
    && (lbl.StartAlloc? ==> Callers(st.cpus) == 0 || Callers(st.cpus) < st.avail)
  }

  const START: Regs := Regs(FreeHead, FreeHead, FreeHead)

  /** One step of one CPU. */
  function Step(st: State, lbl: Label): (st': State)
    requires lbl.cpu < |st.cpus|
    ensures |st'.cpus| == |st.cpus|
  {
    var c := lbl.cpu;
    var me := st.cpus[c];
    match lbl
    case StartAlloc(_) =>
      if st.pool.m.next(FreeHead) == FreeHead then st
      else st.(cpus := st.cpus[c := me.(pc := AllocSpin)])
    case StartFree(_, p) =>
      st.(cpus := st.cpus[c := Cpu(FreeSpin(p), me.own - {p})])
    case Advance(_) =>
      match me.pc
      case Idle => st
      case AllocSpin =>
        if st.locked then st
        else st.(locked := true, cpus := st.cpus[c := me.(pc := AllocRun(0, START))])
      case FreeSpin(p) =>
        if st.locked then st
        else st.(locked := true, cpus := st.cpus[c := me.(pc := FreeRun(p, 0, START))])
      case AllocRun(at, regs) =>
        if at >= ALLOC_END then
          var own := if regs.entry.PagesOf? then me.own + {regs.entry.page} else me.own;
          st.(locked := false, cpus := st.cpus[c := Cpu(Idle, own)], avail := st.avail - 1)
        else
          var (pool, regs') := AllocInstruction(st.pool, regs, at);
          st.(pool := pool, cpus := st.cpus[c := me.(pc := AllocRun(at + 1, regs'))])
      case FreeRun(p, at, regs) =>
        if at >= FREE_END then
          st.(locked := false, cpus := st.cpus[c := me.(pc := Idle)], avail := st.avail + 1)
        else
          var (pool, regs') := FreeInstruction(st.pool, regs, p, at);
          st.(pool := pool, cpus := st.cpus[c := me.(pc := FreeRun(p, at + 1, regs'))])
  }

  // ----- how far the holder of the lock has come -----

  /** What `page_alloc` does to the links when it takes `e` for a pages node. */
  ghost function TakenLinks(m: Links, e: Ptr): Links {
    Move(AddTail(m, LruHead, LruNode(e)), UsedHead, e)
  }

  /** The memory after the first `at` instructions of `page_alloc` on the node `e`,
      started in `m`. */
  ghost function AllocLinksAt(m: Links, e: Ptr, at: nat): Links {
    var n := LruNode(e);
    var a := m.prev(LruHead);
    var m1 := AddTail(m, LruHead, n);
    var m2 := Del(m1, e);
    match at
    case 0 => m
    case 1 => m
    case 2 => m
    case 3 => SetPrev(m, LruHead, n)
    case 4 => SetNext(SetPrev(m, LruHead, n), n, LruHead)
    case 5 => SetPrev(SetNext(SetPrev(m, LruHead, n), n, LruHead), n, a)
    case 6 => m1
    case 7 => m1
    case 8 => m1
    case 9 => SetPrev(m1, m1.next(e), m1.prev(e))
    case 10 => m2
    case 11 => m2
    case 12 => SetPrev(m2, m2.next(UsedHead), e)
    case 13 => SetNext(SetPrev(m2, m2.next(UsedHead), e), e, m2.next(UsedHead))
    case 14 => SetPrev(SetNext(SetPrev(m2, m2.next(UsedHead), e), e, m2.next(UsedHead)), e, UsedHead)
    case _ => TakenLinks(m, e)
  }

  ghost predicate AllocRegsAt(m: Links, e: Ptr, at: nat, r: Regs) {
    var m1 := AddTail(m, LruHead, LruNode(e));
    && (1 <= at ==> r.entry == e)
    && (2 <= at <= 5 ==> r.a == m.prev(LruHead))
    && (7 <= at <= 9 ==> r.a == m1.prev(e))
    && (8 <= at <= 9 ==> r.b == m1.next(e))
    && (11 <= at <= 14 ==> r.b == Del(m1, e).next(UsedHead))
  }

  ghost function AllocAt(base: Pool, e: Ptr, at: nat): Pool {
    base.(m := AllocLinksAt(base.m, e, at),
          numUsed := base.numUsed + if at >= 16 then 1 else 0,
          numFree := base.numFree - if at >= 17 then 1 else 0)
  }

  ghost function FreeLinksAt(m: Links, p: nat, at: nat): Links {
    var e, n := PagesOf(p), LruOf(p);
    var m1 := Del(m, e);
    var m2 := MoveTail(m, FreeHead, e);
    match at
    case 0 => m
    case 1 => m
    case 2 => m
    case 3 => SetPrev(m, m.next(e), m.prev(e))
    case 4 => m1
    case 5 => m1
    case 6 => SetPrev(m1, FreeHead, e)
    case 7 => SetNext(SetPrev(m1, FreeHead, e), e, FreeHead)
    case 8 => SetPrev(SetNext(SetPrev(m1, FreeHead, e), e, FreeHead), e, m1.prev(FreeHead))
    case 9 => m2
    case 10 => m2
    case 11 => m2
    case 12 => SetPrev(m2, m2.next(n), m2.prev(n))
    case _ => FreeLinks(m, p)
  }

  ghost predicate FreeRegsAt(m: Links, p: nat, at: nat, r: Regs) {
    var e, n := PagesOf(p), LruOf(p);
    var m1 := Del(m, e);
    var m2 := MoveTail(m, FreeHead, e);
    && (1 <= at <= 3 ==> r.a == m.prev(e))
    && (2 <= at <= 3 ==> r.b == m.next(e))
    && (5 <= at <= 8 ==> r.a == m1.prev(FreeHead))
    && (10 <= at <= 12 ==> r.a == m2.prev(n))
    && (11 <= at <= 12 ==> r.b == m2.next(n))
  }

  ghost function FreeAt(base: Pool, p: nat, at: nat): Pool {
    base.(m := FreeLinksAt(base.m, p, at),
          numUsed := base.numUsed - if at >= 14 then 1 else 0,
          numFree := base.numFree + if at >= 15 then 1 else 0)
  }

  lemma AllocInstructionAdvances(base: Pool, e: Ptr, at: nat, r: Regs)
    requires at < ALLOC_END && AllocRegsAt(base.m, e, at, r)
    requires base.m.next(FreeHead) == e
    ensures var (s', r') := AllocInstruction(AllocAt(base, e, at), r, at);
            s' == AllocAt(base, e, at + 1) && AllocRegsAt(base.m, e, at + 1, r')
  {
    hide SetNext, SetPrev;
  }

  lemma FreeInstructionAdvances(base: Pool, p: nat, at: nat, r: Regs)
    requires at < FREE_END && FreeRegsAt(base.m, p, at, r)
    ensures var (s', r') := FreeInstruction(FreeAt(base, p, at), r, p, at);
            s' == FreeAt(base, p, at + 1) && FreeRegsAt(base.m, p, at + 1, r')
  {
    hide SetNext, SetPrev;
  }

  // ----- the invariant -----

  /** What the proof remembers: the pool when the lock was last clear, the lists it
      represented, and who holds the lock. */
  datatype Ghost = Ghost(base: Pool, l: Lists, holder: int)

  const NOBODY := -1

  /** The pages a CPU may use, including one that it is about to give back. */
  ghost function Holds(cpu: Cpu): set<nat> {
    match cpu.pc
    case FreeSpin(p) => cpu.own + {p}
    case FreeRun(p, _, _) => cpu.own + {p}
    case _ => cpu.own
  }

  /** Pages in use by CPUs are on the used list, each with one owner. */
  ghost predicate Ownership(cpus: seq<Cpu>, used: seq<nat>) {
    && (forall c, p :: 0 <= c < |cpus| && p in Holds(cpus[c]) ==> p in used)
    && (forall c, d :: 0 <= c < |cpus| && 0 <= d < |cpus| && c != d ==> Holds(cpus[c]) !! Holds(cpus[d]))
    && (forall c :: 0 <= c < |cpus| ==>
          && (cpus[c].pc.FreeSpin? ==> cpus[c].pc.page !in cpus[c].own)
          && (cpus[c].pc.FreeRun? ==> cpus[c].pc.page !in cpus[c].own))
  }

  /** The holder of the lock, and nobody else, is inside a critical section. */
  ghost predicate Exclusive(st: State, holder: int) {
    && (st.locked <==> holder != NOBODY)
    && (holder == NOBODY || 0 <= holder < |st.cpus|)
    && forall c :: 0 <= c < |st.cpus| ==> (Inside(st.cpus[c].pc) <==> c == holder)
  }

  /** The memory is the one of the last release, changed by exactly the instructions
      that the holder has executed. */
  ghost predicate Progress(st: State, g: Ghost)
    requires Exclusive(st, g.holder)
  {
    if g.holder == NOBODY then st.pool == g.base else
    match st.cpus[g.holder].pc
    case AllocRun(at, regs) =>
      && at <= ALLOC_END && g.l.free != []
      && st.pool == AllocAt(g.base, PagesOf(g.l.free[0]), at)
      && AllocRegsAt(g.base.m, PagesOf(g.l.free[0]), at, regs)
    case FreeRun(p, at, regs) =>
      at <= FREE_END && st.pool == FreeAt(g.base, p, at) && FreeRegsAt(g.base.m, p, at, regs)
    case _ => true
  }

  /** There is a page for every CPU past the test; a single one may have seen a page that
      is still being freed. */
  ghost predicate EnoughPages(st: State) {
    Callers(st.cpus) <= st.avail || (Callers(st.cpus) == 1 && st.pool.m.next(FreeHead) != FreeHead)
  }

  ghost predicate Inv(st: State, g: Ghost) {
    && Represents(g.base.m, g.l) && Clean(g.l)
    && Ownership(st.cpus, g.l.used)
    && Exclusive(st, g.holder)
    && Progress(st, g)
    && st.avail == |g.l.free|
    && EnoughPages(st)
  }

  lemma {:induction false} CallersUpdate(cpus: seq<Cpu>, c: nat, cpu: Cpu)
    requires c < |cpus|
    ensures Callers(cpus[c := cpu]) + (if Allocating(cpus[c].pc) then 1 else 0)
         == Callers(cpus) + if Allocating(cpu.pc) then 1 else 0
  {
    var n := |cpus| - 1;
    if c < n {
      assert cpus[c := cpu][..n] == cpus[..n][c := cpu];
      CallersUpdate(cpus[..n], c, cpu);
    } else {
      assert cpus[c := cpu][..n] == cpus[..n];
    }
  }

  lemma {:induction false} CallersPositive(cpus: seq<Cpu>, c: nat)
    requires c < |cpus| && Allocating(cpus[c].pc)
    ensures Callers(cpus) >= 1
  {
    if c < |cpus| - 1 {
      CallersPositive(cpus[..|cpus| - 1], c);
    }
  }

  lemma HoldsKept(cpus: seq<Cpu>, used: seq<nat>, c: nat, cpu: Cpu)
    requires Ownership(cpus, used) && c < |cpus| && Holds(cpu) == Holds(cpus[c])
    requires cpu.pc.FreeSpin? || cpu.pc.FreeRun? ==> cpu.pc.page !in cpu.own
    ensures Ownership(cpus[c := cpu], used)
  {
  }

  lemma HoldsGained(cpus: seq<Cpu>, used: seq<nat>, c: nat, cpu: Cpu, p: nat)
    requires Ownership(cpus, used) && c < |cpus| && cpu.pc.Idle?
    requires Holds(cpu) == Holds(cpus[c]) + {p} && p !in used
    ensures Ownership(cpus[c := cpu], [p] + used)
  {
    var cpus' := cpus[c := cpu];
    assert forall d :: 0 <= d < |cpus| ==> p !in Holds(cpus[d]);
    forall d, q | 0 <= d < |cpus'| && q in Holds(cpus'[d]) ensures q in [p] + used {
      assert q == p || q in Holds(cpus[d]);
    }
  }

  lemma {:induction false} HoldsGivenUp(cpus: seq<Cpu>, used: seq<nat>, c: nat, cpu: Cpu, p: nat)
    requires Ownership(cpus, used) && c < |cpus| && cpu.pc.Idle? && Distinct(used)
    requires p in Holds(cpus[c]) && Holds(cpu) == Holds(cpus[c]) - {p}
    ensures Ownership(cpus[c := cpu], Remove(used, p))
  {
    hide Remove, Distinct, Holds;
    RemoveMembers(used, p);
  }

  /** Neither of the two nodes of a used page is linked to the head of the free list,
      also after its `pages` node has been moved. */
  lemma FreedPageNeighbours(m: Links, l: Lists, p: nat)
    requires Represents(m, l) && p in l.used && p in l.lru
    ensures m.prev(PagesOf(p)) != FreeHead
    ensures MoveTail(m, FreeHead, PagesOf(p)).prev(LruOf(p)) != FreeHead
  {
    hide Ring, Remove, MoveTail;
    RepresentsDistinct(m, l);
    var k := IndexIn(l.used, p);
    var j := IndexIn(l.lru, p);
    RingNeighbours(m, UsedHead, Pages(l.used), k);
    RingNeighbours(m, LruHead, Lrus(l.lru), j);
    PagesMembers(l.used);
    PagesMembers(l.free);
    LrusMembers(l.lru);
    NodesApart(l);
    MoveTailAcross(m, UsedHead, Pages(l.used), k, FreeHead, Pages(l.free));
  }

  /** While a page on the used list is being freed, no store empties the free list. */
  lemma FreeingKeepsNonEmpty(m: Links, l: Lists, p: nat, at: nat)
    requires Represents(m, l) && p in l.used && p in l.lru && at < FREE_END
    requires FreeLinksAt(m, p, at).next(FreeHead) != FreeHead
    ensures FreeLinksAt(m, p, at + 1).next(FreeHead) != FreeHead
  {
    hide Represents;
    FreedPageNeighbours(m, l, p);
  }

  lemma StepKeepsInv(st: State, g: Ghost, lbl: Label) returns (g': Ghost)
    requires Inv(st, g) && Enabled(st, lbl)
    ensures Inv(Step(st, lbl), g')
  {
    hide Represents, Clean, Ownership, Progress, AllocAt, FreeAt, AllocRegsAt, FreeRegsAt;
    var c := lbl.cpu;
    match lbl
    case StartAlloc(_) =>
      g' := g;
      HoldsKept(st.cpus, g.l.used, c, st.cpus[c].(pc := AllocSpin));
      CallersUpdate(st.cpus, c, st.cpus[c].(pc := AllocSpin));
      ProgressKept(st, Step(st, lbl), g);
    case StartFree(_, p) =>
      g' := g;
      CallersUpdate(st.cpus, c, Cpu(FreeSpin(p), st.cpus[c].own - {p}));
      FreeSpinOwnership(st.cpus, g.l.used, c, p);
      ProgressKept(st, Step(st, lbl), g);
    case Advance(_) =>
      g' := Advances(st, g, c);
  }

  lemma FreeSpinOwnership(cpus: seq<Cpu>, used: seq<nat>, c: nat, p: nat)
    requires Ownership(cpus, used) && c < |cpus| && cpus[c].pc.Idle? && p in cpus[c].own
    ensures Ownership(cpus[c := Cpu(FreeSpin(p), cpus[c].own - {p})], used)
  {
    hide Ownership;
    var cpu := Cpu(FreeSpin(p), cpus[c].own - {p});
    assert Holds(cpu) == Holds(cpus[c]);
    HoldsKept(cpus, used, c, cpu);
  }

  /** A step of a CPU outside the critical sections leaves the holder's progress. */
  lemma ProgressKept(st: State, st': State, g: Ghost)
    requires Exclusive(st, g.holder) && Exclusive(st', g.holder) && Progress(st, g)
    requires st'.pool == st.pool
    requires g.holder != NOBODY ==> st'.cpus[g.holder].pc == st.cpus[g.holder].pc
    ensures Progress(st', g)
  {
  }

  lemma Advances(st: State, g: Ghost, c: nat) returns (g': Ghost)
    requires Inv(st, g) && Enabled(st, Advance(c))
    ensures Inv(Step(st, Advance(c)), g')
  {
    hide Represents, Clean, Ownership;
    match st.cpus[c].pc
    case AllocSpin =>
      if st.locked {
        g' := g;
      } else {
        g' := g.(holder := c);
        SomethingFree(st, g, c);
        HoldsKept(st.cpus, g.l.used, c, st.cpus[c].(pc := AllocRun(0, START)));
        CallersUpdate(st.cpus, c, st.cpus[c].(pc := AllocRun(0, START)));
      }
    case FreeSpin(p) =>
      if st.locked {
        g' := g;
      } else {
        g' := g.(holder := c);
        FreeRunOwnership(st.cpus, g.l.used, c, 0, START);
        CallersUpdate(st.cpus, c, st.cpus[c].(pc := FreeRun(p, 0, START)));
      }
    case AllocRun(_, _) =>
      g' := AllocAdvances(st, g, c);
    case FreeRun(_, _, _) =>
      g' := FreeAdvances(st, g, c);
  }

  /** A CPU that gets the lock after passing the test finds a page. */
  lemma SomethingFree(st: State, g: Ghost, c: nat)
    requires Inv(st, g) && !st.locked && c < |st.cpus| && st.cpus[c].pc.AllocSpin?
    ensures g.l.free != []
  {
    CallersPositive(st.cpus, c);
    HeadLinks(g.base.m, FreeHead, Pages(g.l.free));
  }

  lemma FreeListHead(m: Links, l: Lists)
    requires Represents(m, l) && l.free != []
    ensures m.next(FreeHead) == PagesOf(l.free[0])
    ensures l.free[0] !in l.used
  {
    HeadLinks(m, FreeHead, Pages(l.free));
    assert l.free[0] in l.free;
  }

  /** Moving on inside `page_free` changes nobody's pages. */
  lemma FreeRunOwnership(cpus: seq<Cpu>, used: seq<nat>, c: nat, at: nat, regs: Regs)
    requires Ownership(cpus, used) && c < |cpus| && (cpus[c].pc.FreeSpin? || cpus[c].pc.FreeRun?)
    ensures Ownership(cpus[c := cpus[c].(pc := FreeRun(cpus[c].pc.page, at, regs))], used)
    ensures cpus[c].pc.page in used
  {
    HoldsKept(cpus, used, c, cpus[c].(pc := FreeRun(cpus[c].pc.page, at, regs)));
    assert cpus[c].pc.page in Holds(cpus[c]);
  }

  lemma AllocAdvances(st: State, g: Ghost, c: nat) returns (g': Ghost)
    requires Inv(st, g) && c < |st.cpus| && st.cpus[c].pc.AllocRun?
    ensures Inv(Step(st, Advance(c)), g')
  {
    hide Represents, Clean, Ownership, AllocInstruction, AllocLinksAt, AllocRegsAt;
    var AllocRun(at, regs) := st.cpus[c].pc;
    var p := g.l.free[0];
    FreeListHead(g.base.m, g.l);
    CallersPositive(st.cpus, c);
    if at < ALLOC_END {
      g' := g;
      var cpu := st.cpus[c].(pc := AllocRun(at + 1, AllocInstruction(st.pool, regs, at).1));
      AllocInstructionAdvances(g.base, PagesOf(p), at, regs);
      HoldsKept(st.cpus, g.l.used, c, cpu);
      CallersUpdate(st.cpus, c, cpu);
    } else {
      CallersUpdate(st.cpus, c, Cpu(Idle, st.cpus[c].own + {p}));
      g' := Ghost(st.pool, TakeFirst(g.l), NOBODY);
      AllocDone(g.base, p, regs);
      AllocStep(g.base, g.l);
      HoldsGained(st.cpus, g.l.used, c, Cpu(Idle, st.cpus[c].own + {p}), p);
    }
  }

  lemma AllocDone(base: Pool, p: nat, r: Regs)
    requires base.m.next(FreeHead) == PagesOf(p) && AllocRegsAt(base.m, PagesOf(p), ALLOC_END, r)
    ensures AllocAt(base, PagesOf(p), ALLOC_END) == PageAlloc(base).0 && r.entry == PagesOf(p)
  {
  }

  lemma FreeDone(base: Pool, p: nat)
    ensures FreeAt(base, p, FREE_END) == PageFree(base, p)
  {
  }

  lemma FreeAdvances(st: State, g: Ghost, c: nat) returns (g': Ghost)
    requires Inv(st, g) && c < |st.cpus| && st.cpus[c].pc.FreeRun?
    ensures Inv(Step(st, Advance(c)), g')
  {
    hide Represents, Ownership, FreeInstruction, FreeLinksAt, FreeRegsAt, Distinct, Remove;
    var FreeRun(p, at, regs) := st.cpus[c].pc;
    if at < FREE_END {
      g' := g;
      FreeInstructionAdvances(g.base, p, at, regs);
      var regs' := FreeInstruction(st.pool, regs, p, at).1;
      FreeRunOwnership(st.cpus, g.l.used, c, at + 1, regs');
      CallersUpdate(st.cpus, c, st.cpus[c].(pc := FreeRun(p, at + 1, regs')));
      if st.pool.m.next(FreeHead) != FreeHead {
        FreeingKeepsNonEmpty(g.base.m, g.l, p, at);
      }
    } else {
      g' := Ghost(st.pool, GiveBack(g.l, p), NOBODY);
      CallersUpdate(st.cpus, c, st.cpus[c].(pc := Idle));
      FreeRunOwnership(st.cpus, g.l.used, c, at, regs);
      FreeDone(g.base, p);
      FreeStep(g.base, g.l, p);
      RepresentsDistinct(g.base.m, g.l);
      assert Ownership(st.cpus[c := st.cpus[c].(pc := Idle)], Remove(g.l.used, p)) by {
        GiveUpOwnership(st.cpus, g.l.used, c);
      }
    }
  }

  lemma {:induction false} GiveUpOwnership(cpus: seq<Cpu>, used: seq<nat>, c: nat)
    requires Ownership(cpus, used) && c < |cpus| && cpus[c].pc.FreeRun? && Distinct(used)
    ensures Ownership(cpus[c := cpus[c].(pc := Idle)], Remove(used, cpus[c].pc.page))
  {
    HoldsGivenUp(cpus, used, c, cpus[c].(pc := Idle), cpus[c].pc.page);
  }

  // ----- whole interleavings -----

  ghost predicate EnabledRun(st: State, run: seq<Label>)
    decreases |run|
  {
    run != [] ==> Enabled(st, run[0]) && EnabledRun(Step(st, run[0]), run[1..])
  }

  ghost predicate PossibleRun(st: State, run: seq<Label>)
    decreases |run|
  {
    run != [] ==> Possible(st, run[0]) && PossibleRun(Step(st, run[0]), run[1..])
  }

  lemma {:induction false} EnabledIsPossible(st: State, run: seq<Label>)
    requires EnabledRun(st, run)
    ensures PossibleRun(st, run)
    decreases |run|
  {
    if run != [] {
      EnabledIsPossible(Step(st, run[0]), run[1..]);
    }
  }

  ghost function RunMachine(st: State, run: seq<Label>): (st': State)
    requires PossibleRun(st, run)
    ensures |st'.cpus| == |st.cpus|
    decreases |run|
  {
    if run == [] then st else RunMachine(Step(st, run[0]), run[1..])
  }

  /** All CPUs idle, the lists in order, and every owned page used, with one owner. */
  ghost predicate Start(st: State, l: Lists) {
    && !st.locked && Represents(st.pool.m, l) && Clean(l)
    && (forall c :: 0 <= c < |st.cpus| ==> st.cpus[c].pc.Idle?)
    && Ownership(st.cpus, l.used) && st.avail == |l.free|
  }

  lemma {:induction false} NobodyCalls(cpus: seq<Cpu>)
    requires forall c :: 0 <= c < |cpus| ==> cpus[c].pc.Idle?
    ensures Callers(cpus) == 0
  {
    if cpus != [] {
      NobodyCalls(cpus[..|cpus| - 1]);
    }
  }

  ghost predicate ListsInOrder(st: State) {
    exists l :: Represents(st.pool.m, l) && Clean(l) && Ownership(st.cpus, l.used)
  }

  /** What an observer of one state can rely on. */
  ghost predicate Safe(st: State) {
    // at most one CPU is inside a critical section, and it is there exactly while the lock is set
    && (forall c, d :: 0 <= c < |st.cpus| && 0 <= d < |st.cpus| ==>
          Inside(st.cpus[c].pc) && Inside(st.cpus[d].pc) ==> c == d)
    && (st.locked <==> exists c :: 0 <= c < |st.cpus| && Inside(st.cpus[c].pc))
    // whenever the lock is clear the three lists are well-formed rings
    && (!st.locked ==> ListsInOrder(st))
    // the entry that an allocation works on is a page, and nobody's page
    && (forall c :: 0 <= c < |st.cpus| && st.cpus[c].pc.AllocRun? && st.cpus[c].pc.at >= 1 ==>
          && st.cpus[c].pc.regs.entry.PagesOf?
          && forall d :: 0 <= d < |st.cpus| ==> st.cpus[c].pc.regs.entry.page !in Holds(st.cpus[d]))
  }

  lemma InvIsSafe(st: State, g: Ghost)
    requires Inv(st, g)
    ensures Safe(st)
  {
    hide Represents, Clean, AllocLinksAt, FreeLinksAt, FreeRegsAt;
    if !st.locked {
      assert Represents(st.pool.m, g.l) && Clean(g.l) && Ownership(st.cpus, g.l.used);
    }
    if g.holder != NOBODY && st.cpus[g.holder].pc.AllocRun? {
      FreeListHead(g.base.m, g.l);
    }
  }

  lemma {:induction false} RunKeepsInv(st: State, g: Ghost, run: seq<Label>) returns (g': Ghost)
    requires Inv(st, g) && EnabledRun(st, run)
    ensures PossibleRun(st, run) && Inv(RunMachine(st, run), g')
    decreases |run|
  {
    hide Inv, Step;
    EnabledIsPossible(st, run);
    if run == [] {
      g' := g;
    } else {
      var g1 := StepKeepsInv(st, g, run[0]);
      g' := RunKeepsInv(Step(st, run[0]), g1, run[1..]);
    }
  }

  /** Every interleaving of any length, by any number of CPUs: mutual exclusion, the
      ring invariant whenever the lock is clear, and no allocation ever takes the list
      head, or a page somebody holds, as its page, although the emptiness test is made
      without the lock. */
  lemma {:induction false} InterleavingsAreSafe(st: State, l: Lists, run: seq<Label>)
    requires Start(st, l) && EnabledRun(st, run)
    ensures PossibleRun(st, run) && Safe(RunMachine(st, run))
  {
    var g := Ghost(st.pool, l, NOBODY);
    NobodyCalls(st.cpus);
    assert Inv(st, g);
    var g' := RunKeepsInv(st, g, run);
    InvIsSafe(RunMachine(st, run), g');
  }
}
