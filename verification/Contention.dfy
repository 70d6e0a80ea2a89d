/** What happens to CPUs that are past the unlocked test of `page_alloc` when there are not
    enough pages for all of them, and exactly when that can happen. */
module Contention {
  import opened Rings
  import opened Frames
  import opened FrameRuns
  import opened Concurrency

  // ----- the turn of one CPU -----

  /** The state after `k` steps of CPU `c` alone. */
  ghost function Turn(st: State, c: nat, k: nat): (st': State)
    requires c < |st.cpus|
    ensures |st'.cpus| == |st.cpus|
  {
    if k == 0 then st else Step(Turn(st, c, k - 1), Advance(c))
  }

  /** Taking the lock, the instructions, releasing it. */
  const TURN: nat := ALLOC_END + 2

  /** A CPU that takes the lock works on whatever follows the free head. */
  lemma {:induction false} TurnAt(st: State, c: nat, k: nat) returns (regs: Regs)
    requires c < |st.cpus| && !st.locked && st.cpus[c].pc.AllocSpin? && k <= ALLOC_END
    ensures AllocRegsAt(st.pool.m, st.pool.m.next(FreeHead), k, regs)
    ensures Turn(st, c, k + 1) ==
            st.(locked := true, pool := AllocAt(st.pool, st.pool.m.next(FreeHead), k),
                cpus := st.cpus[c := st.cpus[c].(pc := AllocRun(k, regs))])
  {
    hide AllocRegsAt, AllocInstruction, AllocLinksAt;
    if k == 0 {
      regs := START;
      TurnStarts(st, c);
    } else {
      var before := TurnAt(st, c, k - 1);
      AllocInstructionAdvances(st.pool, st.pool.m.next(FreeHead), k - 1, before);
      regs := AllocInstruction(AllocAt(st.pool, st.pool.m.next(FreeHead), k - 1), before, k - 1).1;
    }
  }

  lemma {:induction false} TurnStarts(st: State, c: nat)
    requires c < |st.cpus| && !st.locked && st.cpus[c].pc.AllocSpin?
    ensures AllocRegsAt(st.pool.m, st.pool.m.next(FreeHead), 0, START)
    ensures AllocAt(st.pool, st.pool.m.next(FreeHead), 0) == st.pool
    ensures Turn(st, c, 1) == st.(locked := true, cpus := st.cpus[c := st.cpus[c].(pc := AllocRun(0, START))])
  {
    assert Turn(st, c, 0) == st;
  }

  /** The node that the CPU takes for a page. */
  lemma {:induction false} EntryTaken(st: State, c: nat)
    requires c < |st.cpus| && !st.locked && st.cpus[c].pc.AllocSpin?
    ensures var pc := Turn(st, c, 2).cpus[c].pc; pc.AllocRun? && pc.at == 1 && pc.regs.entry == st.pool.m.next(FreeHead)
  {
    var regs := TurnAt(st, c, 1);
  }

  /** The whole turn, whether the node is a page or the head. */
  lemma {:induction false} WholeTurn(st: State, c: nat)
    requires c < |st.cpus| && !st.locked && st.cpus[c].pc.AllocSpin?
    ensures var e := st.pool.m.next(FreeHead);
            && Turn(st, c, TURN).pool.m == TakenLinks(st.pool.m, e)
            && Turn(st, c, TURN) ==
               st.(pool := AllocAt(st.pool, e, ALLOC_END), avail := st.avail - 1,
                   cpus := st.cpus[c := Cpu(Idle, st.cpus[c].own + if e.PagesOf? then {e.page} else {})])
  {
    hide *;
    var regs := TurnAt(st, c, ALLOC_END);
    var e := st.pool.m.next(FreeHead);
    EntryKept(st.pool.m, e, regs);
    TurnUnfolds(st, c);
    TurnEnds(st, c, AllocAt(st.pool, e, ALLOC_END), regs);
    AllTaken(st.pool, e);
  }

  lemma {:induction false} TurnUnfolds(st: State, c: nat)
    requires c < |st.cpus|
    ensures Turn(st, c, TURN) == Step(Turn(st, c, ALLOC_END + 1), Advance(c))
  {
    hide Step;
  }

  lemma AllTaken(base: Pool, e: Ptr)
    ensures AllocAt(base, e, ALLOC_END).m == TakenLinks(base.m, e)
  {
    hide TakenLinks;
  }

  /** The release at the end of a turn. */
  lemma TurnEnds(st: State, c: nat, pool: Pool, regs: Regs)
    requires c < |st.cpus| && !st.locked
    ensures var before := st.(locked := true, pool := pool,
                              cpus := st.cpus[c := st.cpus[c].(pc := AllocRun(ALLOC_END, regs))]);
            var e, own := regs.entry, st.cpus[c].own;
            Step(before, Advance(c)) ==
            st.(pool := pool, avail := st.avail - 1,
                cpus := st.cpus[c := Cpu(Idle, own + if e.PagesOf? then {e.page} else {})])
  {
    hide AllocInstruction, FreeInstruction;
    var own, mid := st.cpus[c].own, st.cpus[c := st.cpus[c].(pc := AllocRun(ALLOC_END, regs))];
    assert own + {} == own;
    assert mid[c := Cpu(Idle, own)] == st.cpus[c := Cpu(Idle, own)];
    assert regs.entry.PagesOf? ==>
      mid[c := Cpu(Idle, own + {regs.entry.page})] == st.cpus[c := Cpu(Idle, own + {regs.entry.page})];
  }

  lemma EntryKept(m: Links, e: Ptr, regs: Regs)
    requires AllocRegsAt(m, e, ALLOC_END, regs)
    ensures regs.entry == e
  {
  }

  // ----- CPUs past the test that take turns -----

  /** CPUs 0 to `n` - 1 are past the test, and nobody holds the lock. */
  ghost predicate Waiting(st: State, l: Lists, n: nat) {
    && !st.locked && Represents(st.pool.m, l) && Clean(l) && n <= |st.cpus|
    && forall c :: 0 <= c < n ==> st.cpus[c].pc.AllocSpin?
  }

  /** The state after whole turns of CPUs 0 to `n` - 1. */
  ghost function Turns(st: State, n: nat): (st': State)
    requires n <= |st.cpus|
    ensures |st'.cpus| == |st.cpus|
  {
    if n == 0 then st else Turn(Turns(st, n - 1), n - 1, TURN)
  }

  /** CPU `c`, when its turn comes, takes the list head for a page. */
  ghost predicate TakesHead(st: State, c: nat)
    requires c < |st.cpus|
  {
    var pc := Turn(Turns(st, c), c, 2).cpus[c].pc;
    pc.AllocRun? && pc.regs.entry == FreeHead
  }

  ghost function TakeMany(l: Lists, n: nat): (l': Lists)
    requires n <= |l.free|
    ensures l'.free == l.free[n..]
    ensures n > 0 ==> l'.used != [] && l'.used[0] == l.free[n - 1]
    ensures n == 0 ==> l' == l
  {
    if n == 0 then l else TakeFirst(TakeMany(l, n - 1))
  }

  /** CPUs 0 to `k` - 1 have got a page each, in order, and the others have not moved. */
  ghost predicate Served(cpus: seq<Cpu>, cpus': seq<Cpu>, free: seq<nat>, k: nat) {
    && |cpus'| == |cpus| && k <= |free| && k <= |cpus|
    && (forall c :: 0 <= c < k ==> cpus'[c] == Cpu(Idle, cpus[c].own + {free[c]}))
    && (forall c :: k <= c < |cpus| ==> cpus'[c] == cpus[c])
  }

  lemma ServedStep(cpus: seq<Cpu>, cpus1: seq<Cpu>, free: seq<nat>, k: nat)
    requires 0 < k <= |free| && k <= |cpus| && Served(cpus, cpus1, free, k - 1)
    ensures Served(cpus, cpus1[k - 1 := Cpu(Idle, cpus1[k - 1].own + {free[k - 1]})], free, k)
  {
  }

  /** As long as pages last, they are handed out in order, each to one CPU. */
  lemma {:induction false} TurnsTakeInOrder(st: State, l: Lists, n: nat, k: nat)
    requires Waiting(st, l, n) && k <= n && k <= |l.free|
    ensures var st' := Turns(st, k);
            && !st'.locked && Represents(st'.pool.m, TakeMany(l, k)) && Clean(TakeMany(l, k))
            && Served(st.cpus, st'.cpus, l.free, k)
  {
    hide *;
    WaitingUnfolds(st, l, n);
    if k > 0 {
      TurnsTakeInOrder(st, l, n, k - 1);
      TurnsUnfold(st, l, k);
      NextServed(st, l, k, Turns(st, k - 1), TakeMany(l, k - 1));
    } else {
      FirstServed(st, l, n);
    }
  }

  lemma WaitingUnfolds(st: State, l: Lists, n: nat)
    requires Waiting(st, l, n)
    ensures !st.locked && Represents(st.pool.m, l) && Clean(l) && n <= |st.cpus|
    ensures forall c :: 0 <= c < n ==> st.cpus[c].pc.AllocSpin?
  {
  }

  lemma TurnsUnfold(st: State, l: Lists, k: nat)
    requires 0 < k <= |l.free| && k <= |st.cpus|
    ensures Turns(st, k) == Turn(Turns(st, k - 1), k - 1, TURN)
    ensures TakeMany(l, k) == TakeFirst(TakeMany(l, k - 1))
    ensures TakeMany(l, k - 1).free[0] == l.free[k - 1]
  {
    hide Turn, TakeFirst;
  }

  lemma {:induction false} FirstServed(st: State, l: Lists, n: nat)
    requires Waiting(st, l, n)
    ensures Turns(st, 0) == st && TakeMany(l, 0) == l && Served(st.cpus, st.cpus, l.free, 0)
  {
  }

  lemma NextServed(st: State, l: Lists, k: nat, st1: State, l1: Lists)
    requires 0 < k <= |l.free| && k <= |st.cpus| && st.cpus[k - 1].pc.AllocSpin?
    requires !st1.locked && Represents(st1.pool.m, l1) && Clean(l1) && Served(st.cpus, st1.cpus, l.free, k - 1)
    requires l1.free != [] && l1.free[0] == l.free[k - 1]
    ensures var st' := Turn(st1, k - 1, TURN);
            && !st'.locked && Represents(st'.pool.m, TakeFirst(l1)) && Clean(TakeFirst(l1))
            && Served(st.cpus, st'.cpus, l.free, k)
  {
    assert st1.cpus[k - 1] == st.cpus[k - 1];
    hide Represents, Clean, Turn, TakeFirst, Served;
    TakesFirstFree(st1, l1, k - 1);
    ServedStep(st.cpus, st1.cpus, l.free, k);
  }

  lemma {:induction false} TakesFirstFree(st: State, l: Lists, c: nat)
    requires c < |st.cpus| && !st.locked && st.cpus[c].pc.AllocSpin?
    requires Represents(st.pool.m, l) && Clean(l) && l.free != []
    ensures var st' := Turn(st, c, TURN);
            && !st'.locked && Represents(st'.pool.m, TakeFirst(l)) && Clean(TakeFirst(l))
            && st'.cpus == st.cpus[c := Cpu(Idle, st.cpus[c].own + {l.free[0]})]
  {
    hide Represents, Clean, Turn, AllocLinksAt;
    FreeListHead(st.pool.m, l);
    WholeTurn(st, c);
    AllocStep(st.pool, l);
  }

  /** A CPU whose turn comes when no page is free: the head itself goes to the front of
      used, so that the next one finds behind it the first page in use. */
  lemma {:induction false} TakesTheHead(st: State, l: Lists, c: nat)
    requires c < |st.cpus| && !st.locked && st.cpus[c].pc.AllocSpin?
    requires Represents(st.pool.m, l) && l.free == []
    ensures Turn(st, c, 2).cpus[c].pc.AllocRun? && Turn(st, c, 2).cpus[c].pc.regs.entry == FreeHead
    ensures l.used != [] ==> Turn(st, c, TURN).pool.m.next(FreeHead) == PagesOf(l.used[0])
  {
    HeadLinks(st.pool.m, FreeHead, Pages(l.free));
    HeadLinks(st.pool.m, UsedHead, Pages(l.used));
    HeadLinks(st.pool.m, LruHead, Lrus(l.lru));
    hide Turn, AllocAt, Represents, TakenLinks;
    EntryTaken(st, c);
    WholeTurn(st, c);
    if l.used != [] {
      HeadMoved(st.pool.m, l);
    }
  }

  lemma HeadMoved(m: Links, l: Lists)
    requires m.next(FreeHead) == FreeHead && m.prev(FreeHead) == FreeHead && l.used != []
    requires m.next(UsedHead) == PagesOf(l.used[0])
    requires m.prev(LruHead) != FreeHead && m.prev(LruHead) != UsedHead
    ensures TakenLinks(m, FreeHead).next(FreeHead) == PagesOf(l.used[0])
  {
  }

  /** With `n` CPUs past the test, the first ones get the free pages in order; if there are
      more CPUs than pages, the first one too many takes the list head, and the one after
      it will take the page that the last good one has just been given.  So all is well if
      and only if there are at least as many pages as CPUs. */
  lemma WaitersTakeTheHead(st: State, l: Lists, n: nat)
    requires Waiting(st, l, n)
    ensures forall c :: 0 <= c < n && c < |l.free| ==>
              Turns(st, c + 1).cpus[c] == Cpu(Idle, st.cpus[c].own + {l.free[c]})
    ensures (forall c :: 0 <= c < n ==> !TakesHead(st, c)) <==> n <= |l.free|
    ensures n > |l.free| ==> TakesHead(st, |l.free|)
    ensures n > |l.free| > 0 ==>
              Turns(st, |l.free| + 1).pool.m.next(FreeHead) == PagesOf(l.free[|l.free| - 1])
  {
    assert n <= |st.cpus|;
    hide Waiting, Represents, Turn, TakeMany;
    forall c | 0 <= c < n && c < |l.free|
      ensures Turns(st, c + 1).cpus[c] == Cpu(Idle, st.cpus[c].own + {l.free[c]}) && !TakesHead(st, c)
    {
      GoodTurn(st, l, n, c);
    }
    if n > |l.free| {
      BadTurn(st, l, n);
    }
  }

  lemma GoodTurn(st: State, l: Lists, n: nat, c: nat)
    requires Waiting(st, l, n) && c < n && c < |l.free|
    ensures Turns(st, c + 1).cpus[c] == Cpu(Idle, st.cpus[c].own + {l.free[c]}) && !TakesHead(st, c)
  {
    assert st.cpus[c].pc.AllocSpin?;
    hide Represents, Turn, TakeMany;
    TurnsTakeInOrder(st, l, n, c);
    TurnsTakeInOrder(st, l, n, c + 1);
    FreeListHead(Turns(st, c).pool.m, TakeMany(l, c));
    EntryTaken(Turns(st, c), c);
  }

  lemma {:induction false} BadTurn(st: State, l: Lists, n: nat)
    requires Waiting(st, l, n) && n > |l.free|
    ensures TakesHead(st, |l.free|)
    ensures |l.free| > 0 ==> Turns(st, |l.free| + 1).pool.m.next(FreeHead) == PagesOf(l.free[|l.free| - 1])
  {
    assert st.cpus[|l.free|].pc.AllocSpin?;
    hide Represents, Turn, TakeMany;
    TurnsTakeInOrder(st, l, n, |l.free|);
    TakesTheHead(Turns(st, |l.free|), TakeMany(l, |l.free|), |l.free|);
  }

  // ----- every interleaving of some number of calls -----

  function Starts(run: seq<Label>): nat {
    if run == [] then 0 else (if run[0].StartAlloc? then 1 else 0) + Starts(run[1..])
  }

  /** An interleaving of at most `k` calls of `page_alloc` and of nothing else. */
  ghost predicate Calls(st: State, run: seq<Label>, k: nat) {
    PossibleRun(st, run) && Starts(run) <= k && forall lbl :: lbl in run ==> !lbl.StartFree?
  }

  /** A step changes the number of callers and of pages so that none is missing. */
  lemma StepCounts(st: State, lbl: Label)
    requires Possible(st, lbl)
    ensures var st' := Step(st, lbl);
            Callers(st'.cpus) - st'.avail <= Callers(st.cpus) - st.avail + if lbl.StartAlloc? then 1 else 0
  {
    hide Callers, AllocInstruction, FreeInstruction;
    var c, st' := lbl.cpu, Step(st, lbl);
    CallersUpdate(st.cpus, c, st'.cpus[c]);
    assert st'.cpus == st.cpus[c := st'.cpus[c]];
  }

  lemma {:induction false} FewCalls(st: State, run: seq<Label>)
    requires PossibleRun(st, run) && Callers(st.cpus) + Starts(run) <= st.avail
    ensures EnabledRun(st, run)
    decreases |run|
  {
    hide Callers, Step;
    if run != [] {
      StepCounts(st, run[0]);
      FewCalls(Step(st, run[0]), run[1..]);
    }
  }

  lemma {:induction false} RunConcat(st: State, a: seq<Label>, b: seq<Label>)
    requires PossibleRun(st, a) && PossibleRun(RunMachine(st, a), b)
    ensures PossibleRun(st, a + b) && RunMachine(st, a + b) == RunMachine(RunMachine(st, a), b)
    decreases |a|
  {
    hide Step;
    if a == [] {
      assert a + b == b;
    } else {
      assert (a + b)[1..] == a[1..] + b;
      RunConcat(Step(st, a[0]), a[1..], b);
    }
  }

  lemma {:induction false} StartsConcat(a: seq<Label>, b: seq<Label>)
    ensures Starts(a + b) == Starts(a) + Starts(b)
  {
    if a == [] {
      assert a + b == b;
    } else {
      assert (a + b)[1..] == a[1..] + b;
      StartsConcat(a[1..], b);
    }
  }

  function Advances(c: nat, k: nat): (run: seq<Label>)
    ensures forall lbl :: lbl in run ==> lbl == Advance(c)
  {
    if k == 0 then [] else Advances(c, k - 1) + [Advance(c)]
  }

  /** The steps of a turn as a run. */
  lemma {:induction false} TurnIsRun(st: State, c: nat, k: nat)
    requires c < |st.cpus| && !st.locked && st.cpus[c].pc.AllocSpin? && k <= TURN
    ensures PossibleRun(st, Advances(c, k)) && RunMachine(st, Advances(c, k)) == Turn(st, c, k)
    ensures Starts(Advances(c, k)) == 0
  {
    hide Step, AllocAt, AllocRegsAt;
    if k > 0 {
      TurnIsRun(st, c, k - 1);
      StartsConcat(Advances(c, k - 1), [Advance(c)]);
      if k > 1 {
        var regs := TurnAt(st, c, k - 2);
      }
      OneStep(Turn(st, c, k - 1), Advance(c));
      RunConcat(st, Advances(c, k - 1), [Advance(c)]);
    }
  }

  lemma {:induction false} OneStep(st: State, lbl: Label)
    requires Possible(st, lbl)
    ensures PossibleRun(st, [lbl]) && RunMachine(st, [lbl]) == Step(st, lbl)
  {
    assert RunMachine(Step(st, lbl), [lbl][1..]) == Step(st, lbl);
  }

  /** A whole call by CPU `c`, alone. */
  function OneCall(c: nat): seq<Label> {
    [StartAlloc(c)] + Advances(c, TURN)
  }

  /** CPU 0 allocates alone while more than one page is free. */
  lemma AllocateAlone(st: State, l: Lists) returns (l': Lists)
    requires Start(st, l) && st.cpus != [] && |l.free| > 1
    ensures PossibleRun(st, OneCall(0)) && Starts(OneCall(0)) == 1
    ensures var st' := RunMachine(st, OneCall(0));
            |st'.cpus| == |st.cpus| && Start(st', l') && |l'.free| == |l.free| - 1
  {
    hide Represents, Ownership, Clean, Turn, Advances, Starts, Step, RunMachine, PossibleRun, EnabledRun, Callers;
    NobodyCalls(st.cpus);
    AloneRuns(st, l);
    FewCalls(st, OneCall(0));
    var g := RunKeepsInv(st, Ghost(st.pool, l, NOBODY), OneCall(0));
    l' := g.l;
  }

  /** The call ends with every CPU idle and the lock clear. */
  lemma {:induction false} AloneRuns(st: State, l: Lists)
    requires Start(st, l) && st.cpus != [] && l.free != []
    ensures PossibleRun(st, OneCall(0)) && Starts(OneCall(0)) == 1
    ensures var st' := RunMachine(st, OneCall(0));
            && !st'.locked && st'.avail == st.avail - 1
            && forall c :: 0 <= c < |st'.cpus| ==> st'.cpus[c].pc.Idle?
  {
    hide Represents, Ownership, Clean, Turn, Advances, Starts, Step, RunMachine, PossibleRun, AllocAt, TakenLinks;
    var st1 := Passed(st, l, 0);
    StartsConcat([StartAlloc(0)], Advances(0, TURN));
    OneStart(0);
    TurnIsRun(st1, 0, TURN);
    RunConcat(st, [StartAlloc(0)], Advances(0, TURN));
    WholeTurn(st1, 0);
  }

  /** With a free page the test is passed. */
  lemma Passed(st: State, l: Lists, c: nat) returns (st1: State)
    requires !st.locked && Represents(st.pool.m, l) && l.free != [] && c < |st.cpus| && st.cpus[c].pc.Idle?
    ensures PossibleRun(st, [StartAlloc(c)]) && RunMachine(st, [StartAlloc(c)]) == st1
    ensures st1 == st.(cpus := st.cpus[c := st.cpus[c].(pc := AllocSpin)])
  {
    hide Represents;
    FreeListHead(st.pool.m, l);
    st1 := st.(cpus := st.cpus[c := st.cpus[c].(pc := AllocSpin)]);
    OneStep(st, StartAlloc(c));
  }

  const RACE: seq<Label> := [StartAlloc(0)] + ([StartAlloc(1)] + (Advances(0, TURN) + Advances(1, 2)))

  /** One free page and two CPUs that both pass the test: the second takes the list head. */
  lemma {:induction false} LastPageRace(st: State, l: Lists)
    requires Start(st, l) && |st.cpus| >= 2 && |l.free| == 1
    ensures PossibleRun(st, RACE) && Starts(RACE) == 2
    ensures RunMachine(st, RACE).cpus[1].pc.AllocRun? && RunMachine(st, RACE).cpus[1].pc.regs.entry == FreeHead
    ensures !Safe(RunMachine(st, RACE))
  {
    hide Represents, Ownership, Clean, PossibleRun, RunMachine, Starts;
    var st1 := Passed(st, l, 0);
    var st2 := Passed(st1, l, 1);
    var tail := Advances(0, TURN) + Advances(1, 2);
    SecondTakesHead(st2, l);
    RunConcat(st1, [StartAlloc(1)], tail);
    RunConcat(st, [StartAlloc(0)], [StartAlloc(1)] + tail);
    StartsConcat([StartAlloc(1)], tail);
    StartsConcat([StartAlloc(0)], [StartAlloc(1)] + tail);
    OneStart(0);
    OneStart(1);
  }

  lemma OneStart(c: nat)
    ensures Starts([StartAlloc(c)]) == 1
  {
  }

  lemma {:induction false} SecondTakesHead(st: State, l: Lists)
    requires !st.locked && Represents(st.pool.m, l) && Clean(l) && |l.free| == 1 && |st.cpus| >= 2
    requires st.cpus[0].pc.AllocSpin? && st.cpus[1].pc.AllocSpin?
    ensures var tail := Advances(0, TURN) + Advances(1, 2);
            && PossibleRun(st, tail) && Starts(tail) == 0
            && RunMachine(st, tail).cpus[1].pc.AllocRun? && RunMachine(st, tail).cpus[1].pc.at == 1
            && RunMachine(st, tail).cpus[1].pc.regs.entry == FreeHead
  {
    hide Represents, Clean, PossibleRun, RunMachine, Turn, Advances, Starts, AllocAt;
    var st1 := Turn(st, 0, TURN);
    TurnIsRun(st, 0, TURN);
    TakesFirstFree(st, l, 0);
    TurnIsRun(st1, 1, 2);
    EntryTaken(st1, 1);
    TakesTheHead(st1, TakeFirst(l), 1);
    RunConcat(st, Advances(0, TURN), Advances(1, 2));
    StartsConcat(Advances(0, TURN), Advances(1, 2));
  }

  /** A run of one call more than there are pages that ends badly. */
  lemma {:induction false} TooManyCalls(st: State, l: Lists) returns (run: seq<Label>)
    requires Start(st, l) && |st.cpus| >= 2 && l.free != []
    ensures Calls(st, run, |l.free| + 1) && !Safe(RunMachine(st, run))
    decreases |l.free|
  {
    hide Start, Step, Safe;
    if |l.free| == 1 {
      LastPageRace(st, l);
      run := RACE;
    } else {
      var l' := AllocateAlone(st, l);
      var rest := TooManyCalls(RunMachine(st, OneCall(0)), l');
      RunConcat(st, OneCall(0), rest);
      StartsConcat(OneCall(0), rest);
      run := OneCall(0) + rest;
    }
  }

  /** With two CPUs or more and something free, every interleaving of `k` calls is safe if
      and only if there are `k` free pages. */
  lemma {:induction false} CallsAreSafeIff(st: State, l: Lists, k: nat)
    requires Start(st, l) && |st.cpus| >= 2 && l.free != []
    ensures (forall run :: Calls(st, run, k) ==> Safe(RunMachine(st, run))) <==> k <= |l.free|
  {
    hide Step, Safe, Represents, Ownership;
    if k <= |l.free| {
      forall run | Calls(st, run, k) ensures Safe(RunMachine(st, run)) {
        NobodyCalls(st.cpus);
        FewCalls(st, run);
        InterleavingsAreSafe(st, l, run);
      }
    } else {
      var run := TooManyCalls(st, l);
      assert Calls(st, run, k);
    }
  }
}
