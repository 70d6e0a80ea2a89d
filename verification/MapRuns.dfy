/** `mmu_req_page`, and whole runs of `mmu_map_page` and `mmu_req_page`. */
module MapRuns {
  import opened Words
  import opened Paging
  import opened Tables
  import opened Mapping
  import Rings

  /** What `mmu_req_page` leaves and returns: the frame, or `None` for NULL. */
  datatype Request = Request(mem: Memory, rest: seq<bv64>, page: Option<bv64>)

  /** `mmu_req_page`: the first spare frame is mapped at the page of `address`.  The
      result is judged by `data`, which is 0 when nothing was mapped. */
  function ReqPage(mem: Memory, cr3: bv64, spare: seq<bv64>, address: bv64, flags: bv64): Option<Request> {
    if spare == [] then None else
    var page := PageBase(address);
    match MapPage(mem, cr3, spare[1..], page, LeafEntry(spare[0], flags))
    case None => None
    case Some(r) =>
      var data := if r.done then page else 0;
      Some(Request(r.mem, r.rest, if data != page then None else Some(spare[0])))
  }

  lemma BitsRoundDown(v: bv64)
    ensures ((v & !(0x1000 - 1)) >> 39) & 0x1FF == (v >> 39) & 0x1FF
    ensures ((v & !(0x1000 - 1)) >> 30) & 0x1FF == (v >> 30) & 0x1FF
    ensures ((v & !(0x1000 - 1)) >> 21) & 0x1FF == (v >> 21) & 0x1FF
    ensures ((v & !(0x1000 - 1)) >> 12) & 0x1FF == (v >> 12) & 0x1FF
  {
  }

  lemma PageBaseIndices(v: bv64)
    ensures Pml4e(PageBase(v)) == Pml4e(v) && Pdpte(PageBase(v)) == Pdpte(v)
    ensures Pde(PageBase(v)) == Pde(v) && Pte(PageBase(v)) == Pte(v)
  {
    BitsRoundDown(v);
  }

  /** All addresses of a page have the same walk. */
  lemma PageBaseWalk(mem: Memory, cr3: bv64, v: bv64)
    ensures Walk(mem, cr3, PageBase(v)) == Walk(mem, cr3, v)
  {
    hide Slot, Present, Large, Frame, Pml4e, Pdpte, Pde, Pte, PageBase;
    PageBaseIndices(v);
  }

  /** The reserved bit of the PML4 entries is clear in sound tables. */
  lemma SoundPml4(mem: Memory, cr3: bv64, level: Levels, spare: seq<bv64>, va: bv64)
    requires Sound(mem, cr3, level, spare)
    ensures var e := mem(Slot(Frame(cr3), Pml4e(va))); Present(e) ==> !Large(e)
  {
    hide Slot, Present, Large, Frame, IsFrame, IsIndex, ZeroFrame, Pml4e;
    IndexBounds(va);
    if Pml4e(va) != MMU_RE {
      assert EntryFits(mem(Slot(Frame(cr3), Pml4e(va))), level, 4);
    }
  }

  lemma SpareTail(mem: Memory, cr3: bv64, level: Levels, spare: seq<bv64>)
    requires Sound(mem, cr3, level, spare) && spare != []
    ensures Sound(mem, cr3, level, spare[1..]) && spare[0] !in spare[1..] && level(spare[0]) == 0
  {
    hide Leveled, SelfMapped, ZeroFrame, IsFrame;
    var f := spare[0];
    assert f in spare;
  }

  /** The effects of the mapping inside `mmu_req_page`. */
  lemma ReqEffects(mem: Memory, cr3: bv64, level: Levels, spare: seq<bv64>, address: bv64, flags: bv64)
      returns (r: Result, level': Levels, slot: bv64, taken: seq<bv64>)
    requires Sound(mem, cr3, level, spare) && Pml4e(address) != MMU_RE && No1G(mem, cr3, address)
    requires ReqPage(mem, cr3, spare, address, flags).Some?
    ensures spare != [] && MapPage(mem, cr3, spare[1..], PageBase(address), LeafEntry(spare[0], flags)) == Some(r)
    ensures Effects(mem, level, spare[1..], cr3, PageBase(address), LeafEntry(spare[0], flags), r, level', slot, taken)
  {
    hide Sound, Walk, Frame, Pml4e, MapPage, No1G, PageBase, Effects;
    PageBaseIndices(address);
    RoundDownNo1G(mem, cr3, address);
    SpareTail(mem, cr3, level, spare);
    level', slot, taken := MapPageEffects(mem, cr3, level, spare[1..], PageBase(address), LeafEntry(spare[0], flags));
    r := MapPage(mem, cr3, spare[1..], PageBase(address), LeafEntry(spare[0], flags)).value;
  }

  lemma EffectsUnfold(mem: Memory, level: Levels, spare: seq<bv64>, cr3: bv64, address: bv64, entry: bv64,
                      r: Result, level': Levels, slot: bv64, taken: seq<bv64>)
    requires Effects(mem, level, spare, cr3, PageBase(address), entry, r, level', slot, taken)
    ensures |spare| - |r.rest| == Needed(Walk(mem, cr3, address)) <= 3
    ensures r.done <==> !CoveredBy2M(mem, cr3, address)
    ensures !r.done ==> r.mem == mem
    ensures r.done ==> VirtToPhys(r.mem, cr3, address) == Some((entry, 0))
    ensures r.done ==> Walk(r.mem, cr3, address) == Leaf(1, slot, entry) && Leveled(r.mem, Frame(cr3), level')
  {
    assert Leveled(r.mem, Frame(cr3), level');
    hide Sound, Leveled, Frame, Walk, PageBase, LevelsGrow, ParentsGrow, MapsOnly, VirtToPhys;
    PageBaseWalk(mem, cr3, address);
    WalkOutcomes(mem, cr3, address);
    if r.done {
      MappedView(mem, r.mem, cr3, level', r.rest, address, slot, entry);
    }
  }

  /** `mmu_req_page` returns a page exactly when the leaf was written or the page asked
      for is page 0.  When the leaf was written, `mmu_virt_to_phys` then finds exactly the
      frame and the flags, without error, and the processor translates the page to that frame.
      It uses one frame, plus one for each missing
      table: never more than four. */
  lemma ReqPageMaps(mem: Memory, cr3: bv64, level: Levels, spare: seq<bv64>, address: bv64, flags: bv64)
    requires Sound(mem, cr3, level, spare) && Pml4e(address) != MMU_RE && No1G(mem, cr3, address)
    requires ReqPage(mem, cr3, spare, address, flags).Some?
    ensures var r := ReqPage(mem, cr3, spare, address, flags).value;
            && |spare| - |r.rest| == 1 + Needed(Walk(mem, cr3, address)) <= 4
            && (r.page.Some? <==> !CoveredBy2M(mem, cr3, address) || PageBase(address) == 0)
            && (r.page.Some? ==> r.page.value == spare[0])
            && (!CoveredBy2M(mem, cr3, address) ==>
               MapsTo(r.mem, cr3, address, spare[0], flags))
            && (CoveredBy2M(mem, cr3, address) ==> r.mem == mem)
  {
    hide Sound, Walk, Frame, Pml4e, MapPage, No1G, PageBase, VirtToPhys, Effects, CoveredBy2M, Needed, Leveled, MapsTo,
      LeafEntry;
    var r, level', slot, taken := ReqEffects(mem, cr3, level, spare, address, flags);
    EffectsUnfold(mem, level, spare[1..], cr3, address, LeafEntry(spare[0], flags), r, level', slot, taken);
    if r.done {
      EntryMapsTo(r.mem, cr3, level', address, slot, spare[0], flags);
    }
  }

  // ----- what the leaf means -----

  /** `mmu_virt_to_phys` finds the frame and the flags at the address, and the processor finds
      each byte of that page at its place in the frame if PRESENT is among the flags, and faults
      if it is not. */
  ghost predicate MapsTo(mem: Memory, cr3: bv64, address: bv64, frame: bv64, flags: bv64) {
    && VirtToPhys(mem, cr3, address) == Some((frame | flags, 0))
    && (IsFrame(frame) && flags < 0x1000 ==>
       && Frame(frame | flags) == frame && Offset(frame | flags) == flags
       && forall va :: Canonical(va) && PageBase(va) == PageBase(address) ==>
            Translate(mem, cr3, va) == if flags & PRESENT != 0 then Some(frame | Offset(va)) else None)
  }

  lemma BitsLeafFrame(frame: bv64, flags: bv64)
    requires frame & 0x000F_FFFF_FFFF_F000 == frame && flags < 0x1000
    ensures (frame | flags) & 0x000F_FFFF_FFFF_F000 == frame
  {
  }

  lemma BitsLeafFlags(frame: bv64, flags: bv64)
    requires frame & 0x000F_FFFF_FFFF_F000 == frame && flags < 0x1000
    ensures (frame | flags) & 0xFFF == flags
  {
  }

  lemma BitsLeafPresent(frame: bv64, flags: bv64)
    requires frame & 0x000F_FFFF_FFFF_F000 == frame
    ensures (frame | flags) & 0x1 == flags & 0x1
  {
  }

  /** The processor reads a leaf of the last level as the walk does. */
  lemma LeafTranslates(mem: Memory, cr3: bv64, level: Levels, va: bv64, slot: bv64, e: bv64)
    requires Leveled(mem, Frame(cr3), level) && Canonical(va) && Pml4e(va) != MMU_RE
    requires Walk(mem, cr3, va) == Leaf(1, slot, e)
    ensures Translate(mem, cr3, va) == if Present(e) then Some(Join(Frame(e), Offset(va))) else None
  {
    hide Slot, Frame, Pml4e, Pdpte, Pde, Pte, Leveled, Present, Large, Canonical, Join, Offset;
    var e4 := mem(Slot(Frame(cr3), Pml4e(va)));
    var e3 := mem(Slot(Frame(e4), Pdpte(va)));
    WalkLevels(mem, Frame(cr3), level, va, e4, e3, mem(Slot(Frame(e3), Pde(va))));
  }

  lemma PageTranslates(mem: Memory, cr3: bv64, level: Levels, address: bv64, slot: bv64, frame: bv64, flags: bv64,
                       va: bv64)
    requires Leveled(mem, Frame(cr3), level) && Pml4e(address) != MMU_RE && IsFrame(frame) && flags < 0x1000
    requires Walk(mem, cr3, address) == Leaf(1, slot, frame | flags)
    requires Canonical(va) && PageBase(va) == PageBase(address)
    ensures Translate(mem, cr3, va) == if flags & PRESENT != 0 then Some(frame | Offset(va)) else None
  {
    hide *;
    LeafBits(frame, flags, Offset(va));
    SamePage(mem, cr3, address, va);
    LeafTranslates(mem, cr3, level, va, slot, frame | flags);
  }

  lemma LeafBits(frame: bv64, flags: bv64, off: bv64)
    requires IsFrame(frame) && flags < 0x1000
    ensures Frame(frame | flags) == frame && Offset(frame | flags) == flags
    ensures Present(frame | flags) <==> flags & PRESENT != 0
    ensures Join(frame, off) == frame | off
  {
    hide *;
    LeafFrame(frame, flags);
    LeafFlags(frame, flags);
    LeafPresent(frame, flags);
    JoinIs(frame, off);
  }

  lemma LeafFrame(frame: bv64, flags: bv64)
    requires IsFrame(frame) && flags < 0x1000
    ensures Frame(frame | flags) == frame
  {
    BitsLeafFrame(frame, flags);
  }

  lemma LeafFlags(frame: bv64, flags: bv64)
    requires IsFrame(frame) && flags < 0x1000
    ensures Offset(frame | flags) == flags
  {
    BitsLeafFlags(frame, flags);
  }

  lemma LeafPresent(frame: bv64, flags: bv64)
    requires IsFrame(frame)
    ensures Present(frame | flags) <==> flags & PRESENT != 0
  {
    BitsLeafPresent(frame, flags);
  }

  lemma JoinIs(frame: bv64, off: bv64)
    ensures Join(frame, off) == frame | off
  {
  }

  lemma SamePage(mem: Memory, cr3: bv64, v: bv64, w: bv64)
    requires PageBase(v) == PageBase(w)
    ensures Pml4e(v) == Pml4e(w) && Walk(mem, cr3, v) == Walk(mem, cr3, w)
  {
    hide *;
    PageBaseIndices(v);
    PageBaseIndices(w);
    PageBaseWalk(mem, cr3, v);
    PageBaseWalk(mem, cr3, w);
  }

  /** A leaf with that entry is such a mapping. */
  lemma LeafMapsTo(mem: Memory, cr3: bv64, level: Levels, address: bv64, slot: bv64, frame: bv64, flags: bv64)
    requires Leveled(mem, Frame(cr3), level) && Pml4e(address) != MMU_RE
    requires Walk(mem, cr3, address) == Leaf(1, slot, frame | flags)
    requires VirtToPhys(mem, cr3, address) == Some((frame | flags, 0))
    ensures MapsTo(mem, cr3, address, frame, flags)
  {
    hide Leveled, Translate, Walk, VirtToPhys, Canonical, PageBase, Pml4e, IsFrame, Frame, Offset;
    if IsFrame(frame) && flags < 0x1000 {
      LeafBits(frame, flags, 0);
      forall va | Canonical(va) && PageBase(va) == PageBase(address)
        ensures Translate(mem, cr3, va) == if flags & PRESENT != 0 then Some(frame | Offset(va)) else None
      {
        PageTranslates(mem, cr3, level, address, slot, frame, flags, va);
      }
    }
  }

  lemma EntryMapsTo(mem: Memory, cr3: bv64, level: Levels, address: bv64, slot: bv64, frame: bv64, flags: bv64)
    requires Leveled(mem, Frame(cr3), level) && Pml4e(address) != MMU_RE
    requires Walk(mem, cr3, address) == Leaf(1, slot, LeafEntry(frame, flags))
    requires VirtToPhys(mem, cr3, address) == Some((LeafEntry(frame, flags), 0))
    ensures MapsTo(mem, cr3, address, frame, flags)
  {
    assert LeafEntry(frame, flags) == frame | flags;
    hide *;
    LeafMapsTo(mem, cr3, level, address, slot, frame, flags);
  }

  /** What `mmu_map_page` does when no 2 MB page is in the way. */
  lemma MapPageMapsTo(mem: Memory, level: Levels, spare: seq<bv64>, cr3: bv64, address: bv64, frame: bv64,
                      flags: bv64, r: Result, level': Levels, slot: bv64, taken: seq<bv64>)
    requires Effects(mem, level, spare, cr3, address, LeafEntry(frame, flags), r, level', slot, taken)
    requires !CoveredBy2M(mem, cr3, address) && Pml4e(address) != MMU_RE
    ensures r.done && MapsTo(r.mem, cr3, address, frame, flags)
  {
    hide *;
    EffectsWalk(mem, level, spare, cr3, address, LeafEntry(frame, flags), r, level', slot, taken);
    WalkView(r.mem, cr3, level', r.rest, address, slot, LeafEntry(frame, flags));
    EntryMapsTo(r.mem, cr3, level', address, slot, frame, flags);
  }

  lemma EffectsWalk(mem: Memory, level: Levels, spare: seq<bv64>, cr3: bv64, address: bv64, entry: bv64, r: Result,
                    level': Levels, slot: bv64, taken: seq<bv64>)
    requires Effects(mem, level, spare, cr3, address, entry, r, level', slot, taken)
    requires !CoveredBy2M(mem, cr3, address)
    ensures r.done && Walk(r.mem, cr3, address) == Leaf(1, slot, entry)
    ensures Sound(r.mem, cr3, level', r.rest) && Leveled(r.mem, Frame(cr3), level')
  {
    hide Walk, Leveled, LevelsGrow, ParentsGrow, Frame;
  }

  lemma RoundDownNo1G(mem: Memory, cr3: bv64, v: bv64)
    ensures No1G(mem, cr3, PageBase(v)) == No1G(mem, cr3, v)
  {
    hide Walk, PageBase;
    PageBaseWalk(mem, cr3, v);
  }

  lemma MappedView(mem: Memory, mem': Memory, cr3: bv64, level: Levels, rest: seq<bv64>, address: bv64, slot: bv64,
                   entry: bv64)
    requires Sound(mem', cr3, level, rest) && MapsOnly(mem, mem', cr3, PageBase(address), slot, entry)
    ensures VirtToPhys(mem', cr3, address) == Some((entry, 0)) && Walk(mem', cr3, address) == Leaf(1, slot, entry)
  {
    assert Walk(mem', cr3, PageBase(address)) == Leaf(1, slot, entry);
    hide Sound, Walk, Slot, Present, Large, Frame, Pml4e, PageBase, VirtToPhys, MapsOnly;
    PageBaseWalk(mem', cr3, address);
    WalkView(mem', cr3, level, rest, address, slot, entry);
  }

  /** `mmu_virt_to_phys` returns the leaf that the walk ends in. */
  lemma WalkView(mem: Memory, cr3: bv64, level: Levels, rest: seq<bv64>, address: bv64, slot: bv64, entry: bv64)
    requires Sound(mem, cr3, level, rest) && Walk(mem, cr3, address) == Leaf(1, slot, entry)
    ensures VirtToPhys(mem, cr3, address) == Some((entry, 0))
  {
    assert SelfMapped(mem, cr3);
    hide Sound, Walk, Slot, Present, Large, Frame, Pml4e, VirtToPhys, SelfMapped;
    SoundPml4(mem, cr3, level, rest, address);
    RecursiveViewIsWalk(mem, cr3, address);
  }

  // ----- runs -----

  datatype Op = MapOp(frame: bv64, address: bv64, flags: bv64) | ReqOp(address: bv64, flags: bv64)

  /** Memory, spare frames in the order they will be allocated, and the frames that
      `mmu_req_page` has returned so far. */
  datatype Machine = Machine(mem: Memory, spare: seq<bv64>, handed: seq<bv64>)

  function StepMachine(s: Machine, cr3: bv64, op: Op): Option<Machine> {
    match op
    case MapOp(frame, address, flags) =>
      (match MapPage(s.mem, cr3, s.spare, address, LeafEntry(frame, flags))
       case None => None
       case Some(r) => Some(Machine(r.mem, r.rest, s.handed)))
    case ReqOp(address, flags) =>
      (match ReqPage(s.mem, cr3, s.spare, address, flags)
       case None => None
       case Some(r) => Some(Machine(r.mem, r.rest, s.handed + if r.page.Some? then [r.page.value] else [])))
  }

  function RunMachine(s: Machine, cr3: bv64, ops: seq<Op>): Option<Machine>
    decreases |ops|
  {
    if ops == [] then Some(s) else
    match StepMachine(s, cr3, ops[0])
    case None => None
    case Some(s1) => RunMachine(s1, cr3, ops[1..])
  }

  /** Each call is for an address outside slot 0x180 that no 1 GB page covers, and finds
      the frames it needs. */
  ghost predicate AllowedRun(s: Machine, cr3: bv64, ops: seq<Op>)
    decreases |ops|
  {
    ops != [] ==>
      && Pml4e(ops[0].address) != MMU_RE && No1G(s.mem, cr3, ops[0].address)
      && StepMachine(s, cr3, ops[0]).Some?
      && AllowedRun(StepMachine(s, cr3, ops[0]).value, cr3, ops[1..])
  }

  /** The frames handed out are distinct, none of them is a table, and none of them will
      be handed out again or become a table. */
  ghost predicate Held(level: Levels, s: Machine) {
    Rings.Distinct(s.handed) && forall h :: h in s.handed ==> level(h) == 0 && h !in s.spare
  }

  /** What a run keeps between two states: tables keep their level and their parent
      slots, each new table was a spare frame and has exactly one parent slot. */
  ghost predicate Extends(s: Machine, level: Levels, s': Machine, level': Levels, root: bv64) {
    && (forall t :: level(t) > 0 ==> level'(t) == level(t))
    && (forall t :: level'(t) > 0 && level(t) == 0 ==> t in s.spare)
    && (forall f :: f in s'.spare ==> f in s.spare)
    && ParentsGrow(s.mem, level, s'.mem, level', root)
    && s.handed <= s'.handed
  }

  lemma TakenHeld(s: Machine, level: Levels, rest: seq<bv64>, level': Levels, taken: seq<bv64>, mem: Memory)
    requires Held(level, s) && LevelsGrow(level, level', taken) && s.spare == taken + rest
    ensures Held(level', Machine(mem, rest, s.handed))
    ensures forall t :: level'(t) > 0 && level(t) == 0 ==> t in s.spare
    ensures forall f :: f in rest ==> f in s.spare
  {
    forall h | h in s.handed ensures level'(h) == 0 && h !in rest {
      assert h !in s.spare;
      assert h in taken ==> h in s.spare;
    }
  }

  lemma MapStep(s: Machine, cr3: bv64, level: Levels, op: Op) returns (level': Levels)
    requires Sound(s.mem, cr3, level, s.spare) && Held(level, s) && op.MapOp?
    requires Pml4e(op.address) != MMU_RE && No1G(s.mem, cr3, op.address) && StepMachine(s, cr3, op).Some?
    ensures var s' := StepMachine(s, cr3, op).value;
            Sound(s'.mem, cr3, level', s'.spare) && Held(level', s') && Extends(s, level, s', level', Frame(cr3))
  {
    hide Sound, Walk, Frame, Pml4e, MapPage, No1G, ParentsGrow, MapsOnly, Held;
    var entry := LeafEntry(op.frame, op.flags);
    var slot, taken;
    level', slot, taken := MapPageEffects(s.mem, cr3, level, s.spare, op.address, entry);
    var r := MapPage(s.mem, cr3, s.spare, op.address, entry).value;
    TakenHeld(s, level, r.rest, level', taken, r.mem);
  }

  /** Taking the first spare frame out keeps what is held. */
  lemma FirstHeld(s: Machine, level: Levels)
    requires Held(level, s) && s.spare != [] && Rings.Distinct(s.spare) && level(s.spare[0]) == 0
    ensures Held(level, Machine(s.mem, s.spare[1..], s.handed + [s.spare[0]]))
    ensures Held(level, Machine(s.mem, s.spare[1..], s.handed))
  {
    var f := s.spare[0];
    assert f in s.spare;
    assert forall h :: h in s.handed ==> h != f;
    assert f !in s.spare[1..];
    assert forall h :: h in s.spare[1..] ==> h in s.spare;
  }

  lemma FirstTaken(s: Machine, cr3: bv64, level: Levels, handed: seq<bv64>)
    requires Sound(s.mem, cr3, level, s.spare) && Held(level, s) && s.spare != []
    requires handed == s.handed || handed == s.handed + [s.spare[0]]
    ensures Held(level, Machine(s.mem, s.spare[1..], handed))
  {
    SpareTail(s.mem, cr3, level, s.spare);
    assert Rings.Distinct(s.spare);
    hide Sound, Held;
    FirstHeld(s, level);
  }

  /** The new state, whether or not the frame is returned. */
  lemma ReqHeld(s: Machine, cr3: bv64, level: Levels, address: bv64, entry: bv64, r: Result, level': Levels,
                slot: bv64, taken: seq<bv64>, handed: seq<bv64>)
    requires Sound(s.mem, cr3, level, s.spare) && Held(level, s) && s.spare != []
    requires Effects(s.mem, level, s.spare[1..], cr3, address, entry, r, level', slot, taken)
    requires handed == s.handed || handed == s.handed + [s.spare[0]]
    ensures var s' := Machine(r.mem, r.rest, handed);
            Sound(s'.mem, cr3, level', s'.spare) && Held(level', s') && Extends(s, level, s', level', Frame(cr3))
  {
    var s1 := Machine(s.mem, s.spare[1..], handed);
    FirstTaken(s, cr3, level, handed);
    hide Sound, Walk, Frame, ParentsGrow, MapsOnly, Held, Rings.Distinct, PresentKept, SameMeaning, LevelsGrow;
    TakenHeld(s1, level, r.rest, level', taken, r.mem);
    TakenExtends(s, level, handed, r.rest, level', taken, r.mem, Frame(cr3));
  }

  lemma TakenExtends(s: Machine, level: Levels, handed: seq<bv64>, rest: seq<bv64>, level': Levels,
                     taken: seq<bv64>, mem: Memory, root: bv64)
    requires s.spare != [] && s.spare[1..] == taken + rest && LevelsGrow(level, level', taken)
    requires ParentsGrow(s.mem, level, mem, level', root) && s.handed <= handed
    ensures Extends(s, level, Machine(mem, rest, handed), level', root)
  {
    hide ParentsGrow;
    assert forall f :: f in taken + rest ==> f in s.spare;
  }

  lemma ReqShape(mem: Memory, cr3: bv64, spare: seq<bv64>, address: bv64, flags: bv64, r: Result)
    requires spare != [] && MapPage(mem, cr3, spare[1..], PageBase(address), LeafEntry(spare[0], flags)) == Some(r)
    ensures var q := ReqPage(mem, cr3, spare, address, flags);
            && q.Some? && q.value.mem == r.mem && q.value.rest == r.rest
            && q.value.page ==
               if (if r.done then PageBase(address) else 0) != PageBase(address) then None else Some(spare[0])
  {
    hide MapPage, PageBase;
  }

  lemma ReqStep(s: Machine, cr3: bv64, level: Levels, op: Op) returns (level': Levels)
    requires Sound(s.mem, cr3, level, s.spare) && Held(level, s) && op.ReqOp?
    requires Pml4e(op.address) != MMU_RE && No1G(s.mem, cr3, op.address) && StepMachine(s, cr3, op).Some?
    ensures var s' := StepMachine(s, cr3, op).value;
            Sound(s'.mem, cr3, level', s'.spare) && Held(level', s') && Extends(s, level, s', level', Frame(cr3))
  {
    hide Sound, Frame, Pml4e, MapPage, No1G, Held, PageBase, Effects, Extends, ReqPage;
    var r, slot, taken;
    r, level', slot, taken := ReqEffects(s.mem, cr3, level, s.spare, op.address, op.flags);
    ReqShape(s.mem, cr3, s.spare, op.address, op.flags, r);
    assert s.handed + [] == s.handed;
    ReqHeld(s, cr3, level, PageBase(op.address), LeafEntry(s.spare[0], op.flags), r, level', slot, taken,
        StepMachine(s, cr3, op).value.handed);
  }

  lemma ExtendsThen(s: Machine, level: Levels, s1: Machine, level1: Levels, s2: Machine, level2: Levels, root: bv64)
    requires Extends(s, level, s1, level1, root) && Extends(s1, level1, s2, level2, root)
    ensures Extends(s, level, s2, level2, root)
  {
    hide ParentsGrow;
    ParentsGrowThen(s.mem, level, s1.mem, level1, s2.mem, level2, root);
    assert forall t :: level2(t) > 0 && level(t) == 0 && level1(t) == 0 ==> t in s1.spare;
  }

  lemma ExtendsSelf(s: Machine, cr3: bv64, level: Levels)
    ensures Extends(s, level, s, level, Frame(cr3))
  {
    hide ParentsGrow, Frame;
    GrownNothing(s.mem, level, cr3);
    GrownUnfolds(s.mem, level, s.mem, level, cr3, []);
  }

  /** Every run of `mmu_map_page` and `mmu_req_page`: each table frame stays at one level,
      every added table has exactly one parent slot, no table is spare, slot 0x180 stays
      on the PML4, and the frames returned by `mmu_req_page` are distinct and no tables. */
  lemma {:induction false} RunKeepsTables(s: Machine, cr3: bv64, level: Levels, ops: seq<Op>) returns (level': Levels)
    requires Sound(s.mem, cr3, level, s.spare) && Held(level, s) && AllowedRun(s, cr3, ops)
    ensures RunMachine(s, cr3, ops).Some?
    ensures var s' := RunMachine(s, cr3, ops).value;
            Sound(s'.mem, cr3, level', s'.spare) && Held(level', s') && Extends(s, level, s', level', Frame(cr3))
    decreases |ops|
  {
    hide Sound, Held, Extends, StepMachine, Frame, Pml4e, No1G;
    if ops == [] {
      level' := level;
      ExtendsSelf(s, cr3, level);
    } else {
      var level1;
      if ops[0].MapOp? {
        level1 := MapStep(s, cr3, level, ops[0]);
      } else {
        level1 := ReqStep(s, cr3, level, ops[0]);
      }
      var s1 := StepMachine(s, cr3, ops[0]).value;
      level' := RunKeepsTables(s1, cr3, level1, ops[1..]);
      ExtendsThen(s, level, s1, level1, RunMachine(s1, cr3, ops[1..]).value, level', Frame(cr3));
    }
  }
}
