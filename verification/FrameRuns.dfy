/** Whole runs of `page_alloc` and `page_free`. */
module FrameRuns {
  import opened Rings
  import opened Frames

  datatype Op = Alloc | Free(page: nat)

  function StepPool(s: Pool, op: Op): (Pool, seq<Taken>) {
    match op
    case Alloc => var (s', t) := PageAlloc(s); (s', [t])
    case Free(p) => (PageFree(s, p), [])
  }

  /** The state after a run of the code, and what each `page_alloc` returned. */
  function RunPool(s: Pool, ops: seq<Op>): (Pool, seq<Taken>)
    decreases |ops|
  {
    if ops == [] then (s, []) else
    var (s1, out) := StepPool(s, ops[0]);
    var (s2, outs) := RunPool(s1, ops[1..]);
    (s2, out + outs)
  }

  function StepLists(l: Lists, op: Op): (Lists, seq<Taken>) {
    match op
    case Alloc => if l.free == [] then (l, [NoPage]) else (TakeFirst(l), [Page(l.free[0])])
    case Free(p) => (GiveBack(l, p), [])
  }

  function RunLists(l: Lists, ops: seq<Op>): (Lists, seq<Taken>)
    decreases |ops|
  {
    if ops == [] then (l, []) else
    var (l1, out) := StepLists(l, ops[0]);
    var (l2, outs) := RunLists(l1, ops[1..]);
    (l2, out + outs)
  }

  /** Only used pages are freed. */
  ghost predicate Legal(l: Lists, ops: seq<Op>)
    decreases |ops|
  {
    ops != [] ==>
      && (ops[0].Free? ==> ops[0].page in l.used)
      && Legal(StepLists(l, ops[0]).0, ops[1..])
  }

  /** The counters are as far as ever from the lengths of their lists, and keep
      their sum. */
  ghost predicate SameDrift(s: Pool, l: Lists, s': Pool, l': Lists) {
    && s'.numUsed - |l'.used| == s.numUsed - |l.used|
    && s'.numFree - |l'.free| == s.numFree - |l.free|
    && s'.numUsed + s'.numFree == s.numUsed + s.numFree
  }

  /** One call: the code and the lists agree on the result and on the new state. */
  lemma StepRefines(s: Pool, l: Lists, op: Op)
    requires Represents(s.m, l) && Clean(l)
    requires op.Free? ==> op.page in l.used
    ensures var (s', out) := StepPool(s, op);
            var (l', out') := StepLists(l, op);
            && out == out' && Represents(s'.m, l') && Clean(l') && s'.flags == s.flags
            && SameDrift(s, l, s', l')
  {
    hide Represents, Clean, SameDrift, PageAlloc, PageFree, TakeFirst, GiveBack;
    match op
    case Alloc =>
      AllocStep(s, l);
    case Free(p) =>
      FreeStep(s, l, p);
  }

  lemma AllocStep(s: Pool, l: Lists)
    requires Represents(s.m, l) && Clean(l)
    ensures var (s', t) := PageAlloc(s);
            var (l', out) := StepLists(l, Alloc);
            && out == [t] && Represents(s'.m, l') && Clean(l') && s'.flags == s.flags
            && SameDrift(s, l, s', l')
  {
    hide Ring, AllocLinks;
    HeadLinks(s.m, FreeHead, Pages(l.free));
    if l.free != [] {
      assert l.free[0] in l.free;
      AllocRefines(s.m, l);
    }
  }

  lemma FreeStep(s: Pool, l: Lists, p: nat)
    requires Represents(s.m, l) && Clean(l) && p in l.used
    ensures var s', l' := PageFree(s, p), GiveBack(l, p);
            && Represents(s'.m, l') && Clean(l') && s'.flags == s.flags
            && SameDrift(s, l, s', l')
  {
    hide Ring, FreeLinks, Remove;
    RepresentsDistinct(s.m, l);
    FreeRefines(s.m, l, p);
    RemoveMembers(l.used, p);
    RemoveMembers(l.lru, p);
    var k := IndexIn(l.used, p);
  }

  /** Every run of allocations and frees of used pages, from a state whose lru list
      holds exactly the used pages: the three lists stay well-formed rings, free and
      used stay disjoint and without repeats, lru stays the used pages, every
      allocation returns what the queue says (never a list head), the counters keep
      their sum and each keeps its distance from the length of its list. */
  lemma {:induction false} RunRefines(s: Pool, l: Lists, ops: seq<Op>)
    requires Represents(s.m, l) && Clean(l) && Legal(l, ops)
    ensures var (s', outs) := RunPool(s, ops);
            var (l', outs') := RunLists(l, ops);
            && outs == outs' && Represents(s'.m, l') && Clean(l') && s'.flags == s.flags
            && Distinct(l'.free) && Distinct(l'.used) && Distinct(l'.lru)
            && SameDrift(s, l, s', l')
    decreases |ops|
  {
    hide Represents, Clean, StepPool, StepLists;
    if ops == [] {
      RepresentsDistinct(s.m, l);
    } else {
      var s1, l1 := StepPool(s, ops[0]).0, StepLists(l, ops[0]).0;
      StepRefines(s, l, ops[0]);
      RunRefines(s1, l1, ops[1..]);
    }
  }

  // ----- the free list is a queue -----

  ghost function Handed(outs: seq<Taken>): seq<nat> {
    if outs == [] then [] else
    (if outs[0].Page? then [outs[0].page] else []) + Handed(outs[1..])
  }

  ghost function Freed(ops: seq<Op>): seq<nat> {
    if ops == [] then [] else
    (if ops[0].Free? then [ops[0].page] else []) + Freed(ops[1..])
  }

  lemma Regroup<T>(a: seq<T>, b: seq<T>, f: seq<T>, g: seq<T>, c: seq<T>, d: seq<T>, h: seq<T>)
    requires a + b == f + g && c + d == b + h
    ensures (a + c) + d == f + (g + h)
  {
    assert (a + c) + d == a + (c + d);
    assert a + (b + h) == (a + b) + h;
    assert (f + g) + h == f + (g + h);
  }

  lemma {:induction false} FreedHead(ops: seq<Op>)
    requires ops != []
    ensures Freed(ops) == Freed([ops[0]]) + Freed(ops[1..])
  {
    assert Freed([ops[0]]) == if ops[0].Free? then [ops[0].page] else [];
  }

  lemma QueueStep(l: Lists, op: Op)
    ensures var (l', out) := StepLists(l, op);
            Handed(out) + l'.free == l.free + Freed([op])
  {
    if op.Alloc? && l.free != [] {
      assert Handed([Page(l.free[0])]) == [l.free[0]];
    }
  }

  /** Conservation, in order: the pages handed out followed by those still free are
      the pages free at the start followed by those freed since. */
  lemma {:induction false} FreeListIsQueue(l: Lists, ops: seq<Op>)
    ensures var (l', outs) := RunLists(l, ops);
            Handed(outs) + l'.free == l.free + Freed(ops)
    decreases |ops|
  {
    if ops != [] {
      hide Handed, StepLists, Freed;
      var (l1, out) := StepLists(l, ops[0]);
      var (l2, outs) := RunLists(l1, ops[1..]);
      QueueStep(l, ops[0]);
      FreeListIsQueue(l1, ops[1..]);
      HandedConcat(out, outs);
      FreedHead(ops);
      Regroup(Handed(out), l1.free, l.free, Freed([ops[0]]), Handed(outs), l2.free, Freed(ops[1..]));
    }
  }

  /** A page that has just been freed is handed out again only after every page that
      was free at that moment. */
  lemma {:induction false} FreedPageWaits(l: Lists, p: nat, ops: seq<Op>, i: nat)
    requires p !in l.free
    requires var h := Handed(RunLists(GiveBack(l, p), ops).1); i < |h| && h[i] == p
    ensures var h := Handed(RunLists(GiveBack(l, p), ops).1); |l.free| <= i && h[..|l.free|] == l.free
  {
    var (l', outs) := RunLists(GiveBack(l, p), ops);
    var h := Handed(outs);
    FreeListIsQueue(GiveBack(l, p), ops);
    var all := h + l'.free;
    assert all == (l.free + [p]) + Freed(ops);
    assert all[i] == p && all[..|l.free|] == l.free;
    assert h[..|l.free|] == all[..|l.free|] == l.free;
  }

  // ----- the lru list is in order of allocation -----

  /** The position of the last occurrence of `x`. */
  ghost function Last<T>(log: seq<T>, x: T): nat
    requires x in log
  {
    if log[|log| - 1] == x then |log| - 1 else Last(log[..|log| - 1], x)
  }

  /** `s` lists elements of `log` in the order of their last occurrences. */
  ghost predicate InOrder<T>(s: seq<T>, log: seq<T>) {
    && (forall x :: x in s ==> x in log)
    && forall i, j :: 0 <= i < j < |s| ==> Last(log, s[i]) < Last(log, s[j])
  }

  lemma {:induction false} LastAppend<T>(log: seq<T>, x: T, y: T)
    requires x in log + [y]
    ensures Last(log + [y], x) == if x == y then |log| else Last(log, x)
  {
    assert (log + [y])[..|log|] == log;
  }

  lemma {:induction false} LastBound<T>(log: seq<T>, x: T)
    requires x in log
    ensures Last(log, x) < |log| && log[Last(log, x)] == x
  {
    if log[|log| - 1] != x {
      LastBound(log[..|log| - 1], x);
    }
  }

  lemma InOrderPush<T>(s: seq<T>, log: seq<T>, x: T)
    requires InOrder(s, log) && x !in s
    ensures InOrder(s + [x], log + [x])
  {
    var s' := s + [x];
    forall y | y in s' ensures y in log + [x] && Last(log + [x], y) == if y == x then |log| else Last(log, y) {
      LastAppend(log, y, x);
    }
    forall i, j | 0 <= i < j < |s'| ensures Last(log + [x], s'[i]) < Last(log + [x], s'[j]) {
      assert s'[i] in s;
      LastBound(log, s'[i]);
    }
  }

  lemma InOrderExtend<T>(s: seq<T>, log: seq<T>, x: T)
    requires InOrder(s, log) && x !in s
    ensures InOrder(s, log + [x])
  {
    forall y | y in s ensures y in log + [x] && Last(log + [x], y) == Last(log, y) {
      LastAppend(log, y, x);
    }
  }

  lemma {:induction false} InOrderRemove<T>(s: seq<T>, log: seq<T>, x: T)
    requires InOrder(s, log) && Distinct(s)
    ensures InOrder(Remove(s, x), log)
  {
    if x in s {
      var k := IndexIn(s, x);
    } else {
      RemoveAbsent(s, x);
    }
  }

  lemma {:induction false} LastOfDistinct<T>(s: seq<T>, i: nat)
    requires Distinct(s) && i < |s|
    ensures Last(s, s[i]) == i
  {
    LastBound(s, s[i]);
  }

  /** One call keeps the lru list in the order of a log that it extends. */
  lemma LruStep(l: Lists, op: Op, log: seq<nat>)
    requires Distinct(l.lru) && Distinct(l.free) && Disjoint(l.free, l.lru) && InOrder(l.lru, log)
    ensures var (l', out) := StepLists(l, op); InOrder(l'.lru, log + Handed(out))
  {
    var (l', out) := StepLists(l, op);
    match op
    case Alloc =>
      if l.free == [] {
        assert log + Handed(out) == log;
      } else {
        assert l.free[0] in l.free;
        assert Handed(out) == [l.free[0]];
        InOrderPush(l.lru, log, l.free[0]);
      }
    case Free(p) =>
      assert log + Handed(out) == log;
      InOrderRemove(l.lru, log, p);
  }

  lemma {:induction false} HandedConcat(a: seq<Taken>, b: seq<Taken>)
    ensures Handed(a + b) == Handed(a) + Handed(b)
  {
    if a == [] {
      assert a + b == b;
    } else {
      var first := if a[0].Page? then [a[0].page] else [];
      assert (a + b)[1..] == a[1..] + b && Handed(a) == first + Handed(a[1..]);
      HandedConcat(a[1..], b);
      assert first + (Handed(a[1..]) + Handed(b)) == first + Handed(a[1..]) + Handed(b);
    }
  }

  lemma {:induction false} LruFollowsLog(s: Pool, l: Lists, ops: seq<Op>, log: seq<nat>)
    requires Represents(s.m, l) && Clean(l) && Legal(l, ops) && InOrder(l.lru, log)
    ensures var (l', outs) := RunLists(l, ops); InOrder(l'.lru, log + Handed(outs))
    decreases |ops|
  {
    hide Represents, InOrder, StepPool, StepLists;
    if ops == [] {
      assert log + Handed([]) == log;
    } else {
      var (l1, out) := StepLists(l, ops[0]);
      var (l2, outs) := RunLists(l1, ops[1..]);
      RepresentsDistinct(s.m, l);
      assert Disjoint(l.free, l.lru) by { RepresentsDisjoint(s.m, l); }
      LruStep(l, ops[0], log);
      StepRefines(s, l, ops[0]);
      LruFollowsLog(StepPool(s, ops[0]).0, l1, ops[1..], log + Handed(out));
      HandedConcat(out, outs);
      assert (log + Handed(out)) + Handed(outs) == log + Handed(out + outs);
    }
  }

  lemma RepresentsDisjoint(m: Links, l: Lists)
    requires Represents(m, l) && Clean(l)
    ensures Disjoint(l.free, l.lru)
  {
  }

  /** After any run, the lru list names the pages in the order in which they were
      last allocated, behind the pages that were used at the start, which keep their
      own order. */
  lemma {:induction false} LruIsAllocationOrder(s: Pool, l: Lists, ops: seq<Op>)
    requires Represents(s.m, l) && Clean(l) && Legal(l, ops)
    ensures var (l', outs) := RunLists(l, ops); InOrder(l'.lru, l.lru + Handed(outs))
  {
    RepresentsDistinct(s.m, l);
    forall i | 0 <= i < |l.lru| ensures Last(l.lru, l.lru[i]) == i {
      LastOfDistinct(l.lru, i);
    }
    LruFollowsLog(s, l, ops, l.lru);
  }

  // ----- the used list is lru, newest first -----

  ghost function Backwards<T>(s: seq<T>): (r: seq<T>)
    ensures |r| == |s| && forall i :: 0 <= i < |s| ==> r[i] == s[|s| - 1 - i]
  {
    seq(|s|, i requires 0 <= i < |s| => s[|s| - 1 - i])
  }

  /** The pages in use at boot and those allocated since: lru has the first and then the second,
      the used list has the second backwards and then the first. */
  ghost predicate NewestFirst(l: Lists, boot: seq<nat>, since: seq<nat>) {
    l.lru == boot + since && l.used == Backwards(since) + boot
  }

  lemma AllocNewest(l: Lists, boot: seq<nat>, since: seq<nat>)
    requires l.free != [] && NewestFirst(l, boot, since)
    ensures NewestFirst(TakeFirst(l), boot, since + [l.free[0]])
  {
    var p := l.free[0];
    assert boot + since + [p] == boot + (since + [p]);
    assert Backwards(since + [p]) == [p] + Backwards(since);
    assert [p] + (Backwards(since) + boot) == [p] + Backwards(since) + boot;
  }

  lemma WithoutLeft<T>(a: seq<T>, b: seq<T>, i: nat)
    requires i < |a|
    ensures Without(a + b, i) == Without(a, i) + b && (a + b)[i] == a[i]
  {
  }

  lemma WithoutRight<T>(a: seq<T>, b: seq<T>, i: nat)
    requires i < |b|
    ensures Without(a + b, |a| + i) == a + Without(b, i) && (a + b)[|a| + i] == b[i]
  {
  }

  lemma BackwardsWithout<T>(s: seq<T>, i: nat)
    requires i < |s|
    ensures Without(Backwards(s), |s| - 1 - i) == Backwards(Without(s, i))
  {
  }

  lemma {:induction false} RemoveAt<T>(s: seq<T>, k: nat, x: T)
    requires Distinct(s) && k < |s| && s[k] == x
    ensures Remove(s, x) == Without(s, k)
  {
    assert s[k] !in s[..k];
    hide *;
    RemoveIsWithout(s, k);
  }

  lemma FreeBootPage(l: Lists, boot: seq<nat>, since: seq<nat>, i: nat)
    requires Distinct(l.used) && Distinct(l.lru) && NewestFirst(l, boot, since) && i < |boot|
    ensures NewestFirst(GiveBack(l, boot[i]), Without(boot, i), since)
  {
    hide Distinct, Remove, Without, Backwards;
    WithoutLeft(boot, since, i);
    RemoveAt(l.lru, i, boot[i]);
    WithoutRight(Backwards(since), boot, i);
    RemoveAt(l.used, |since| + i, boot[i]);
  }

  lemma FreeNewPage(l: Lists, boot: seq<nat>, since: seq<nat>, i: nat)
    requires Distinct(l.used) && Distinct(l.lru) && NewestFirst(l, boot, since) && i < |since|
    ensures NewestFirst(GiveBack(l, since[i]), boot, Without(since, i))
  {
    assert Backwards(since)[|since| - 1 - i] == since[i];
    hide Distinct, Remove, Without, Backwards;
    WithoutRight(boot, since, i);
    RemoveAt(l.lru, |boot| + i, since[i]);
    WithoutLeft(Backwards(since), boot, |since| - 1 - i);
    BackwardsWithout(since, i);
    RemoveAt(l.used, |since| - 1 - i, since[i]);
  }

  lemma MemberOf(l: Lists, boot: seq<nat>, since: seq<nat>, p: nat)
    requires p in l.used && NewestFirst(l, boot, since)
    ensures p in boot || p in since
  {
    var j :| 0 <= j < |l.used| && l.used[j] == p;
    assert p == if j < |since| then since[|since| - 1 - j] else boot[j - |since|];
  }

  lemma StepNewest(s: Pool, l: Lists, op: Op, boot: seq<nat>, since: seq<nat>)
    returns (boot': seq<nat>, since': seq<nat>)
    requires Represents(s.m, l) && NewestFirst(l, boot, since) && (op.Free? ==> op.page in l.used)
    ensures NewestFirst(StepLists(l, op).0, boot', since')
  {
    RepresentsDistinct(s.m, l);
    hide Represents, NewestFirst, TakeFirst, GiveBack, Distinct, Without;
    boot', since' := boot, since;
    match op
    case Alloc =>
      if l.free != [] {
        AllocNewest(l, boot, since);
        since' := since + [l.free[0]];
      }
    case Free(p) =>
      MemberOf(l, boot, since, p);
      if p in boot {
        var i :| 0 <= i < |boot| && boot[i] == p;
        FreeBootPage(l, boot, since, i);
        boot' := Without(boot, i);
      } else {
        var i :| 0 <= i < |since| && since[i] == p;
        FreeNewPage(l, boot, since, i);
        since' := Without(since, i);
      }
  }

  /** Over every run the used list stays that way: newest first, and behind the new pages those
      of the boot. */
  lemma {:induction false} UsedIsNewestFirst(s: Pool, l: Lists, ops: seq<Op>, boot: seq<nat>, since: seq<nat>)
    requires Represents(s.m, l) && Clean(l) && Legal(l, ops) && NewestFirst(l, boot, since)
    ensures exists boot', since' :: NewestFirst(RunLists(l, ops).0, boot', since')
    decreases |ops|
  {
    hide Represents, Clean, NewestFirst, TakeFirst, GiveBack, PageAlloc, PageFree;
    if ops == [] {
      assert NewestFirst(RunLists(l, ops).0, boot, since);
    } else {
      var s1, l1 := StepPool(s, ops[0]).0, StepLists(l, ops[0]).0;
      StepRefines(s, l, ops[0]);
      var boot1, since1 := StepNewest(s, l, ops[0], boot, since);
      UsedIsNewestFirst(s1, l1, ops[1..], boot1, since1);
      assert RunLists(l, ops).0 == RunLists(l1, ops[1..]).0;
    }
  }
}
