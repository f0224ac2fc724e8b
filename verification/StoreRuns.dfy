/** Whole runs of stores, loads and invalidations on one DPU. */
module StoreRuns {
  import opened Bytes
  import opened Directory
  import opened DirectoryInvariant
  import opened DirectoryTheorems
  import opened PageStore

  /** One launch of a DPU program, with the id word and the page the host transferred before it. */
  datatype Op =
    | StoreOp(word: nat, page: seq<byte>, heapOk: bool, junk: uint32)
    | LoadOp(word: nat)
    | DropOp(word: nat)

  /** Stores come with whole pages, and nothing compresses to zero bytes. */
  predicate WholePage(codec: Codec, op: Op) {
    op.StoreOp? ==> Whole(codec, op.page)
  }

  function Exec(codec: Codec, m: Machine, op: Op): (r: (Machine, Reply))
    requires m.Shape() && WholePage(codec, op)
    ensures r.0.Shape() && |r.0.storage| == |m.storage|
  {
    match op
    case StoreOp(word, page, heapOk, junk) => Store(codec, m, word, page, heapOk, junk)
    case LoadOp(word) => (m, Load(codec, m, word))
    case DropOp(word) => (Drop(m, word), Done)
  }

  ghost predicate Step(codec: Codec, m: Machine, op: Op, m': Machine, reply: Reply) {
    m.Shape() && WholePage(codec, op) && (m', reply) == Exec(codec, m, op)
  }

  /** A run, safe or not: the states it goes through and the replies it gives. */
  ghost predicate IsRun(codec: Codec, states: seq<Machine>, ops: seq<Op>, replies: seq<Reply>) {
    && |states| == |ops| + 1 && |replies| == |ops| && states[0].Shape()
    && forall i :: 0 <= i < |ops| ==> Step(codec, states[i], ops[i], states[i + 1], replies[i])
  }

  // ---- exactly which runs keep the invariant ----

  ghost predicate OpSafe(codec: Codec, m: Machine, op: Op)
    requires m.Shape()
  {
    op.StoreOp? ==> StoreSafe(codec, m, op.word, op.page, op.heapOk, op.junk)
  }

  /** Every store of the run is safe in the state it meets; loads and invalidations always are. */
  ghost predicate AllSafe(codec: Codec, states: seq<Machine>, ops: seq<Op>)
    requires |ops| <= |states|
  {
    forall i :: 0 <= i < |ops| ==> states[i].Shape() && OpSafe(codec, states[i], ops[i])
  }

  lemma StepKeepsInvExactly(codec: Codec, m: Machine, op: Op)
    requires m.Shape() && Inv(m.dir) && WholePage(codec, op)
    ensures Inv(Exec(codec, m, op).0.dir) <==> OpSafe(codec, m, op)
  {
    hide Inv, Alloc, AllocSafe, Invalidate, Load;
    match op
    case StoreOp(word, page, heapOk, junk) =>
      if word >= PAGE_VALID && heapOk {
        var id, length := word - PAGE_VALID, Payload(codec, page).0;
        CountKeepsInv(m.dir, length);
        SafeUnlessCounted(m.dir, length, id, junk);
        AllocKeepsInvExactly(CountUncompressable(m.dir, length), id, length, junk);
      }
    case LoadOp(_) =>
    case DropOp(word) => if word >= PAGE_VALID { InvalidateKeepsInv(m.dir, word - PAGE_VALID); }
  }

  lemma {:induction false} RunKeepsInv(codec: Codec, states: seq<Machine>, ops: seq<Op>, replies: seq<Reply>, n: nat)
    requires IsRun(codec, states, ops, replies) && Inv(states[0].dir) && n <= |ops| && AllSafe(codec, states, ops)
    ensures forall i :: 0 <= i <= n ==> states[i].Shape() && Inv(states[i].dir)
  {
    hide Inv, Exec, OpSafe, WholePage;
    if n > 0 {
      RunKeepsInv(codec, states, ops, replies, n - 1);
      assert Step(codec, states[n - 1], ops[n - 1], states[n], replies[n - 1]);
      StepKeepsInvExactly(codec, states[n - 1], ops[n - 1]);
    }
  }

  /** A run that starts from an invariant directory goes through invariant directories only, exactly when every store in
      it is safe in the state it meets. */
  lemma RunKeepsInvExactly(codec: Codec, states: seq<Machine>, ops: seq<Op>, replies: seq<Reply>)
    requires IsRun(codec, states, ops, replies) && Inv(states[0].dir)
    ensures (forall i :: 0 <= i <= |ops| ==> Inv(states[i].dir)) <==> AllSafe(codec, states, ops)
  {
    hide Inv, Exec, OpSafe, WholePage;
    if AllSafe(codec, states, ops) {
      RunKeepsInv(codec, states, ops, replies, |ops|);
    }
    if forall i :: 0 <= i <= |ops| ==> Inv(states[i].dir) {
      forall i | 0 <= i < |ops| ensures states[i].Shape() && OpSafe(codec, states[i], ops[i]) {
        assert Step(codec, states[i], ops[i], states[i + 1], replies[i]);
        StepKeepsInvExactly(codec, states[i], ops[i]);
        assert Inv(states[i + 1].dir);
      }
    }
  }

  /** The uninitialised first block is not read by this operation. */
  predicate NoJunk(m: Machine, op: Op)
    requires m.Shape()
  {
    op.StoreOp? && op.word >= PAGE_VALID && op.heapOk ==> !ReadsJunk(m.dir, op.junk)
  }

  /** The page of a store, if this operation is one, does not reach beyond the memory of the DPU. */
  ghost predicate OpFits(codec: Codec, m: Machine, op: Op)
    requires m.Shape()
  {
    op.StoreOp? ==> StoreFits(codec, m, op.word, op.page, op.heapOk)
  }

  ghost predicate AllOpsFit(codec: Codec, states: seq<Machine>, ops: seq<Op>)
    requires |ops| <= |states|
  {
    forall i :: 0 <= i < |ops| ==> states[i].Shape() && OpFits(codec, states[i], ops[i])
  }

  lemma StepStaysInside(codec: Codec, m: Machine, op: Op)
    requires m.Shape() && Confined(m.dir) && WholePage(codec, op) && NoJunk(m, op)
    ensures var (m', reply) := Exec(codec, m, op);
            && Confined(m'.dir) && (op.StoreOp? ==> (reply == Overrun <==> !OpFits(codec, m, op)))
            && (AllInMemory(m) && OpFits(codec, m, op) ==> AllInMemory(m') && reply != Overrun)
  {
    match op
    case StoreOp(word, page, heapOk, junk) =>
      StoreStaysInside(codec, m, word, page, heapOk, junk);
      hide Confined, AllInMemory, Store, StoreFits;
    case LoadOp(word) =>
      hide Confined, AllInMemory, Load;
    case DropOp(word) =>
      DropStaysInside(m, word);
      hide Confined, AllInMemory, Drop;
  }

  lemma StoreStaysInside(codec: Codec, m: Machine, word: nat, page: seq<byte>, heapOk: bool, junk: uint32)
    requires m.Shape() && Confined(m.dir) && Whole(codec, page)
    requires word >= PAGE_VALID && heapOk ==> !ReadsJunk(m.dir, junk)
    ensures var (m', reply) := Store(codec, m, word, page, heapOk, junk);
            && Confined(m'.dir) && (reply == Overrun <==> !StoreFits(codec, m, word, page, heapOk))
            && (AllInMemory(m) && reply != Overrun ==> AllInMemory(m'))
  {
    hide StoreFits, Alloc, AllFit, Summarised, AllInMemory, Slot;
    OverrunsExactly(codec, m, word, page, heapOk, junk);
    if word >= PAGE_VALID && heapOk {
      var id, length := word - PAGE_VALID, Payload(codec, page).0;
      var d := CountUncompressable(m.dir, length);
      AllocConfined(d, id, length, junk);
      if Alloc(d, id, length, junk).1.None? {
        NoSpaceKeeps(d, id, length, junk);
        SameIndex(m, Store(codec, m, word, page, heapOk, junk).0);
      } else {
        AllocCounts(d, id, length, junk);
        PlacedInMemory(m, Store(codec, m, word, page, heapOk, junk).0, id, Alloc(d, id, length, junk).1.value, length);
      }
    }
  }

  lemma SameIndex(m: Machine, m': Machine)
    requires m'.dir.table == m.dir.table && |m'.storage| == |m.storage|
    ensures AllInMemory(m) ==> AllInMemory(m')
  {
  }

  lemma PlacedInMemory(m: Machine, m': Machine, id: nat, first: uint32, length: nat)
    requires m.Shape() && m'.Shape() && |m'.storage| == |m.storage| && length < TWO_16
    requires m'.dir.table == Insert(m.dir.table, id, first, length)
    ensures AllInMemory(m) && Address(first) + Align8(length) <= |m.storage| ==> AllInMemory(m')
  {
    hide Slot, Tag, Address, Align8;
  }

  lemma DropStaysInside(m: Machine, word: nat)
    requires m.Shape() && Confined(m.dir)
    ensures Confined(Drop(m, word).dir) && (AllInMemory(m) ==> AllInMemory(Drop(m, word)))
  {
    hide AllFit, Summarised, Invalidate, Slot, Tag, Address;
    if word >= PAGE_VALID {
      InvalidateConfined(m.dir, word - PAGE_VALID);
      InvalidateTable(m.dir, word - PAGE_VALID);
    }
  }

  ghost predicate NoJunkRun(states: seq<Machine>, ops: seq<Op>)
    requires |ops| <= |states|
  {
    forall i :: 0 <= i < |ops| ==> states[i].Shape() && NoJunk(states[i], ops[i])
  }

  /** A run of any stores that read no junk, even those that carry a count or meet a taken slot: every entry stays
      inside one section, so that freeing never meets the end of a section; a store leaves the memory of the DPU exactly
      when it does not fit; and as long as all stores fit, no transfer of any program leaves that memory. */
  lemma {:induction false} RunStaysInside(codec: Codec, states: seq<Machine>, ops: seq<Op>, replies: seq<Reply>, i: nat)
    requires IsRun(codec, states, ops, replies) && NoJunkRun(states, ops) && i <= |ops|
    requires Confined(states[0].dir) && AllInMemory(states[0])
    ensures forall k :: 0 <= k <= i ==> states[k].Shape() && Confined(states[k].dir)
    ensures i < |ops| && ops[i].StoreOp? ==> (replies[i] == Overrun <==> !OpFits(codec, states[i], ops[i]))
    ensures (forall k :: 0 <= k < i ==> OpFits(codec, states[k], ops[k])) ==> AllInMemory(states[i])
    ensures i < |ops| && (forall k :: 0 <= k <= i ==> OpFits(codec, states[k], ops[k])) ==> replies[i] != Overrun
  {
    hide Confined, AllInMemory, Exec, WholePage, NoJunk, OpFits;
    if i > 0 {
      RunStaysInside(codec, states, ops, replies, i - 1);
      assert Step(codec, states[i - 1], ops[i - 1], states[i], replies[i - 1]);
      StepStaysInside(codec, states[i - 1], ops[i - 1]);
    }
    if i < |ops| {
      assert Step(codec, states[i], ops[i], states[i + 1], replies[i]);
      StepStaysInside(codec, states[i], ops[i]);
    }
  }

  /** In such a run no transfer leaves the memory of the DPU if and only if every store fits, which the bitmap it meets
      tells beforehand. */
  lemma RunStaysInMemoryExactly(codec: Codec, states: seq<Machine>, ops: seq<Op>, replies: seq<Reply>)
    requires IsRun(codec, states, ops, replies) && NoJunkRun(states, ops)
    requires Confined(states[0].dir) && AllInMemory(states[0])
    ensures (forall i :: 0 <= i < |ops| ==> replies[i] != Overrun) <==> AllOpsFit(codec, states, ops)
  {
    hide Confined, AllInMemory, Step, NoJunk, StoreFits;
    forall i | 0 <= i < |ops|
      ensures states[i].Shape() && (replies[i] != Overrun ==> OpFits(codec, states[i], ops[i]))
      ensures AllOpsFit(codec, states, ops) ==> replies[i] != Overrun
    {
      RunStaysInside(codec, states, ops, replies, i);
    }
  }

  // ---- the cumulative counters of any run ----

  /** A store that was given blocks, whether or not its transfer stayed in memory. */
  predicate IsGiven(op: Op, reply: Reply) {
    op.StoreOp? && (reply == Stored || reply == Overrun)
  }

  /** An invalidation whose id is found in the index it meets. */
  predicate IsFound(m: Machine, op: Op)
    requires m.Shape()
  {
    op.DropOp? && op.word >= PAGE_VALID && Lookup(m.dir.table, op.word - PAGE_VALID).Some?
  }

  /** A store of a page that the codec refuses, or shrinks to more than 4032 bytes. */
  predicate IsUnshrunk(codec: Codec, op: Op) {
    && op.StoreOp? && op.word >= PAGE_VALID && op.heapOk
    && var c := codec.compress(op.page); !c.ok || c.length > 4032
  }

  function GivenIn(ops: seq<Op>, replies: seq<Reply>, k: nat): nat
    requires k <= |ops| == |replies|
    decreases k, ops
  {
    if k == 0 then 0 else GivenIn(ops, replies, k - 1) + if IsGiven(ops[k - 1], replies[k - 1]) then 1 else 0
  }

  ghost function FoundIn(states: seq<Machine>, ops: seq<Op>, k: nat): nat
    requires k <= |ops| <= |states| && forall i :: 0 <= i < |ops| ==> states[i].Shape()
    decreases k, ops
  {
    if k == 0 then 0 else FoundIn(states, ops, k - 1) + if IsFound(states[k - 1], ops[k - 1]) then 1 else 0
  }

  function UnshrunkIn(codec: Codec, ops: seq<Op>, k: nat): nat
    requires k <= |ops|
    decreases k, ops
  {
    if k == 0 then 0 else UnshrunkIn(codec, ops, k - 1) + if IsUnshrunk(codec, ops[k - 1]) then 1 else 0
  }

  lemma StepCounts(codec: Codec, m: Machine, op: Op)
    requires m.Shape() && WholePage(codec, op)
    ensures var (m', reply) := Exec(codec, m, op); var st, st' := m.dir.stats, m'.dir.stats;
            && st'.allocs == Plus(st.allocs, if IsGiven(op, reply) then 1 else 0, TWO_64)
            && st'.frees == Plus(st.frees, if IsFound(m, op) then 1 else 0, TWO_64)
            && st'.uncompressable == Plus(st.uncompressable, if IsUnshrunk(codec, op) then 1 else 0, TWO_32)
            && (st.pages == Minus(st.allocs, st.frees, TWO_64) ==> st'.pages == Minus(st'.allocs, st'.frees, TWO_64))
  {
    match op
    case StoreOp(word, page, heapOk, junk) => StoreCounts(codec, m, op);
    case LoadOp(_) => hide PageAt, Store, Drop;
    case DropOp(word) => DropCounts(codec, m, op);
  }

  lemma StoreCounts(codec: Codec, m: Machine, op: Op)
    requires m.Shape() && op.StoreOp? && Whole(codec, op.page)
    ensures var (m', reply) := Store(codec, m, op.word, op.page, op.heapOk, op.junk);
            var st, st' := m.dir.stats, m'.dir.stats;
            && st'.allocs == Plus(st.allocs, if IsGiven(op, reply) then 1 else 0, TWO_64)
            && st'.frees == st.frees
            && st'.uncompressable == Plus(st.uncompressable, if IsUnshrunk(codec, op) then 1 else 0, TWO_32)
            && (st.pages == Minus(st.allocs, st.frees, TWO_64) ==> st'.pages == Minus(st'.allocs, st'.frees, TWO_64))
  {
    if op.word >= PAGE_VALID && op.heapOk {
      hide Alloc, Blocks;
      var id, length := op.word - PAGE_VALID, Payload(codec, op.page).0;
      var d := CountUncompressable(m.dir, length);
      if Alloc(d, id, length, op.junk).1.Some? {
        AllocCounts(d, id, length, op.junk);
      } else {
        NoSpaceKeeps(d, id, length, op.junk);
      }
    }
  }

  lemma DropCounts(codec: Codec, m: Machine, op: Op)
    requires m.Shape() && op.DropOp?
    ensures var st, st' := m.dir.stats, Drop(m, op.word).dir.stats;
            && st'.allocs == st.allocs && st'.uncompressable == st.uncompressable
            && st'.frees == Plus(st.frees, if IsFound(m, op) then 1 else 0, TWO_64)
            && (st.pages == Minus(st.allocs, st.frees, TWO_64) ==> st'.pages == Minus(st'.allocs, st'.frees, TWO_64))
  {
    hide Invalidate, Slot, Tag, Blocks;
    if op.word >= PAGE_VALID { InvalidateCounts(m.dir, op.word - PAGE_VALID); }
  }

  lemma InvalidateCounts(d: Dir, id: nat)
    requires d.Shape()
    ensures Invalidate(d, id).stats ==
            match Lookup(d.table, id)
            case Some(e) => CountFree(d.stats, e.length)
            case None => d.stats
  {
    hide Slot, Tag, Insert, Blocks;
  }

  lemma PlusOne64(n: nat, more: nat)
    requires more <= 1
    ensures Plus(n % TWO_64, more, TWO_64) == (n + more) % TWO_64
  {
  }

  lemma PlusOne32(n: nat, more: nat)
    requires more <= 1
    ensures Plus(n % TWO_32, more, TWO_32) == (n + more) % TWO_32
  {
  }

  /** In every run on a new DPU, safe or not, the cumulative counters count what their names say, each modulo the width
      of its field, and the current pages are the allocations less the frees. */
  lemma {:induction false} RunCounts(codec: Codec, states: seq<Machine>, ops: seq<Op>, replies: seq<Reply>, i: nat)
    requires IsRun(codec, states, ops, replies) && states[0] == NewMachine() && i <= |ops|
    ensures forall k :: 0 <= k <= |ops| ==> states[k].Shape()
    ensures var st := states[i].dir.stats;
            && st.allocs == GivenIn(ops, replies, i) % TWO_64
            && st.frees == FoundIn(states, ops, i) % TWO_64
            && st.uncompressable == UnshrunkIn(codec, ops, i) % TWO_32
            && st.pages == Minus(st.allocs, st.frees, TWO_64)
    decreases i
  {
    hide Exec, WholePage, IsGiven, IsFound, IsUnshrunk, Plus;
    forall k | 0 <= k <= |ops| ensures states[k].Shape() {
      if k > 0 { assert Step(codec, states[k - 1], ops[k - 1], states[k], replies[k - 1]); }
    }
    if i > 0 {
      RunCounts(codec, states, ops, replies, i - 1);
      assert Step(codec, states[i - 1], ops[i - 1], states[i], replies[i - 1]);
      StepCounts(codec, states[i - 1], ops[i - 1]);
      PlusOne64(GivenIn(ops, replies, i - 1), if IsGiven(ops[i - 1], replies[i - 1]) then 1 else 0);
      PlusOne64(FoundIn(states, ops, i - 1), if IsFound(states[i - 1], ops[i - 1]) then 1 else 0);
      PlusOne32(UnshrunkIn(codec, ops, i - 1), if IsUnshrunk(codec, ops[i - 1]) then 1 else 0);
    }
  }

  // ---- the same run on the map ----

  function MapStep(a: Contents, op: Op, reply: Reply): Contents {
    match op
    case StoreOp(word, page, _, _) =>
      if reply == Stored && word >= PAGE_VALID then Enter(a, word - PAGE_VALID, page) else a
    case LoadOp(_) => a
    case DropOp(word) => if word < PAGE_VALID then a else Remove(a, word - PAGE_VALID)
  }

  function MapRun(a: Contents, ops: seq<Op>, replies: seq<Reply>): Contents
    requires |ops| == |replies|
    decreases |ops|
  {
    if ops == [] then a else MapRun(MapStep(a, ops[0], replies[0]), ops[1..], replies[1..])
  }

  /** What a load answers if the map holds this page, or none. */
  function Answer(found: Option<seq<byte>>): Reply {
    match found
    case Some(page) => Loaded(page)
    case None => Missing
  }

  /** Every load answers with what the map holds at that moment. */
  ghost predicate LoadsAgree(a: Contents, ops: seq<Op>, replies: seq<Reply>)
    requires |ops| == |replies|
    decreases |ops|
  {
    if ops == [] then true
    else
      && (ops[0].LoadOp? ==> replies[0] == Answer(Find(a, ops[0].word)))
      && LoadsAgree(MapStep(a, ops[0], replies[0]), ops[1..], replies[1..])
  }

  lemma ExecRefines(codec: Codec, m: Machine, a: Contents, op: Op)
    requires Represents(codec, m, a) && Inverts(codec) && WholePage(codec, op)
    requires OpSafe(codec, m, op) && OpFits(codec, m, op)
    ensures var (m', reply) := Exec(codec, m, op);
            && Represents(codec, m', MapStep(a, op, reply))
            && (op.LoadOp? ==> reply == Answer(Find(a, op.word)))
  {
    hide Inv, Store, Drop, Load, Represents, Find, Remove, Slot, Tag, Payload, StoreSafe, StoreFits;
    match op
    case StoreOp(word, page, heapOk, junk) => StoreRefines(codec, m, a, word, page, heapOk, junk);
    case LoadOp(word) => LoadFinds(codec, m, a, word);
    case DropOp(word) => DropRefines(codec, m, a, word);
  }

  /** A run whose stores are all safe and stay in memory, which can be told from the state each of them meets. */
  ghost predicate GoodRun(codec: Codec, states: seq<Machine>, ops: seq<Op>, replies: seq<Reply>) {
    && IsRun(codec, states, ops, replies)
    && AllSafe(codec, states, ops) && AllOpsFit(codec, states, ops)
  }

  lemma RunTail(codec: Codec, states: seq<Machine>, ops: seq<Op>, replies: seq<Reply>)
    requires GoodRun(codec, states, ops, replies) && ops != []
    ensures states[0].Shape() && WholePage(codec, ops[0])
    ensures OpSafe(codec, states[0], ops[0]) && OpFits(codec, states[0], ops[0])
    ensures (states[1], replies[0]) == Exec(codec, states[0], ops[0])
    ensures GoodRun(codec, states[1..], ops[1..], replies[1..])
  {
    hide Exec, OpSafe, OpFits, WholePage;
    assert Step(codec, states[0], ops[0], states[1], replies[0]);
  }

  /** The page store refines the map over every run whose stores are safe and stay in memory. */
  lemma {:induction false} RunRefines(codec: Codec, states: seq<Machine>, ops: seq<Op>, replies: seq<Reply>,
                                      a: Contents)
    requires GoodRun(codec, states, ops, replies)
    requires Represents(codec, states[0], a) && Inverts(codec)
    ensures Represents(codec, states[|ops|], MapRun(a, ops, replies)) && LoadsAgree(a, ops, replies)
    decreases |ops|
  {
    hide Inverts, Exec, OpSafe, OpFits, WholePage, MapStep, Represents, Find, Step;
    if ops != [] {
      RunTail(codec, states, ops, replies);
      ExecRefines(codec, states[0], a, ops[0]);
      RunRefines(codec, states[1..], ops[1..], replies[1..], MapStep(a, ops[0], replies[0]));
    }
  }

  // ---- what one id sees ----

  /** The page last stored under `id`, if it was not invalidated since. */
  function Held(held: Option<seq<byte>>, ops: seq<Op>, replies: seq<Reply>, id: nat): Option<seq<byte>>
    requires |ops| == |replies|
    decreases |ops|
  {
    if ops == [] then held else Held(HeldStep(held, ops[0], replies[0], id), ops[1..], replies[1..], id)
  }

  function HeldStep(held: Option<seq<byte>>, op: Op, reply: Reply, id: nat): Option<seq<byte>> {
    match op
    case StoreOp(word, page, _, _) => if reply == Stored && word == PAGE_VALID + id then Some(page) else held
    case LoadOp(_) => held
    case DropOp(word) => if word == PAGE_VALID + id then None else held
  }

  predicate SparesOp(op: Op, id: nat) {
    !op.LoadOp? && op.word >= PAGE_VALID && Aliases(op.word - PAGE_VALID, id) ==> op.word == PAGE_VALID + id
  }

  /** No other id that is stored or invalidated is an alias of `id`. */
  predicate Spares(ops: seq<Op>, id: nat) {
    forall i :: 0 <= i < |ops| ==> SparesOp(ops[i], id)
  }

  /** A safe store that finds room meets an empty slot, so that it hides no page of another id. */
  lemma StoredIntoEmpty(codec: Codec, m: Machine, a: Contents, op: Op)
    requires Represents(codec, m, a) && op.StoreOp? && WholePage(codec, op) && OpSafe(codec, m, op)
    ensures Exec(codec, m, op).1 == Stored ==> op.word >= PAGE_VALID && Slot(op.word - PAGE_VALID) !in a
  {
    hide PageAt, Alloc, NoRoom, Uncarried, Disjoint, Accounted, Tallied, AllFit, Summarised, Slot;
    if op.word >= PAGE_VALID && op.heapOk {
      var length := Payload(codec, op.page).0;
      CountKeepsInv(m.dir, length);
      AllocFinds(CountUncompressable(m.dir, length), op.word - PAGE_VALID, length, op.junk);
    }
  }

  lemma RemovedFound(a: Contents, x: nat, id: nat)
    requires Aliases(x, id) ==> x == id
    ensures Find(Remove(a, x), id) == if x == id then None else Find(a, id)
  {
  }

  lemma EnteredFound(a: Contents, x: nat, page: seq<byte>, id: nat)
    requires Slot(x) !in a && (Aliases(x, id) ==> x == id)
    ensures Find(Enter(a, x, page), id) == if x == id then Some(page) else Find(a, id)
  {
  }

  lemma HeldStepFound(codec: Codec, m: Machine, a: Contents, op: Op, id: nat)
    requires m.Shape() && Represents(codec, m, a) && WholePage(codec, op) && OpSafe(codec, m, op) && SparesOp(op, id)
    ensures var reply := Exec(codec, m, op).1; Find(MapStep(a, op, reply), id) == HeldStep(Find(a, id), op, reply, id)
  {
    hide Represents, Exec, WholePage, OpSafe, Slot, Tag, Find, Remove, Aliases;
    match op
    case StoreOp(word, page, _, _) =>
      StoredIntoEmpty(codec, m, a, op);
      if Exec(codec, m, op).1 == Stored { EnteredFound(a, word - PAGE_VALID, page, id); }
    case LoadOp(_) =>
    case DropOp(word) => if word >= PAGE_VALID { RemovedFound(a, word - PAGE_VALID, id); }
  }

  lemma {:induction false} HeldIsFound(codec: Codec, states: seq<Machine>, ops: seq<Op>, replies: seq<Reply>,
                                       a: Contents, id: nat)
    requires GoodRun(codec, states, ops, replies)
    requires Represents(codec, states[0], a) && Inverts(codec) && Spares(ops, id)
    ensures Find(MapRun(a, ops, replies), id) == Held(Find(a, id), ops, replies, id)
    decreases |ops|
  {
    hide Inverts, Exec, OpSafe, OpFits, WholePage, MapStep, Represents, Find, Step, HeldStep, SparesOp;
    if ops != [] {
      RunTail(codec, states, ops, replies);
      ExecRefines(codec, states[0], a, ops[0]);
      HeldStepFound(codec, states[0], a, ops[0], id);
      HeldIsFound(codec, states[1..], ops[1..], replies[1..], MapStep(a, ops[0], replies[0]), id);
    }
  }

  /** A new DPU: zeroed memory. */
  function NewMachine(): Machine {
    Machine(EmptyDir(), seq(STORAGE_BYTES, _ => 0))
  }

  lemma NewIsInside()
    ensures Confined(NewMachine().dir) && AllInMemory(NewMachine())
  {
    EmptyInv();
  }

  /** A machine with an empty directory represents the empty map, whatever the codec. */
  lemma EmptyRepresents(m: Machine)
    requires m.Shape() && m.dir == EmptyDir()
    ensures forall codec: Codec :: Represents(codec, m, map[])
  {
    EmptyInv();
    hide Inv, PageAt;
  }

  /** After every run on a new DPU whose stores are safe and stay in memory, loading an id yields the page last stored
      under it, byte for byte, and misses if there is none, provided that no other id the run stores or invalidates is
      an alias of it. */
  lemma PageStoreIsMap(codec: Codec, states: seq<Machine>, ops: seq<Op>, replies: seq<Reply>, id: nat)
    requires GoodRun(codec, states, ops, replies) && states[0] == NewMachine()
    requires Inverts(codec) && Spares(ops, id)
    ensures forall i :: 0 <= i <= |ops| ==> states[i].Shape() && Inv(states[i].dir)
    ensures Load(codec, states[|ops|], id) == Answer(Held(None, ops, replies, id))
  {
    hide Inv, Step, OpSafe, OpFits, NewMachine, Load, MapRun, Held, Inverts, Spares;
    EmptyRepresents(NewMachine());
    assert Represents(codec, states[0], map[]);
    RunKeepsInv(codec, states, ops, replies, |ops|);
    RunRefines(codec, states, ops, replies, map[]);
    LoadFinds(codec, states[|ops|], MapRun(map[], ops, replies), id);
    HeldIsFound(codec, states, ops, replies, map[], id);
  }

  // ---- aliases ----

  /** 377313 times 16929 is one more than a multiple of 65536, so only multiples of 65536 have multiples of 65536. */
  lemma OddMultiple(q: int, k: int)
    requires HASH_ENTRIES * q == TWO_16 * k && -q < TWO_16 && q < TWO_16
    ensures q == 0
  {
    assert q == TWO_16 * (16929 * k - 97466 * q);
  }

  lemma Quotients(x: nat, y: nat)
    requires x % TWO_16 == y % TWO_16 && x % HASH_ENTRIES % TWO_16 == y % HASH_ENTRIES % TWO_16
    requires x < TWO_32 && y < TWO_32
    ensures x / HASH_ENTRIES == y / HASH_ENTRIES
  {
    var q := x / HASH_ENTRIES - y / HASH_ENTRIES;
    var j := x % HASH_ENTRIES / TWO_16 - y % HASH_ENTRIES / TWO_16;
    OddMultiple(q, x / TWO_16 - y / TWO_16 - j);
  }

  lemma Remainders(x: nat, y: nat)
    requires x % TWO_16 == y % TWO_16 && x / HASH_ENTRIES == y / HASH_ENTRIES
    ensures x % HASH_ENTRIES % TWO_16 == y % HASH_ENTRIES % TWO_16
  {
    SameRemainder(x % HASH_ENTRIES, y % HASH_ENTRIES, x / TWO_16 - y / TWO_16);
  }

  lemma SameRemainder(r: nat, s: nat, k: int)
    requires r == s + TWO_16 * k
    ensures r % TWO_16 == s % TWO_16
  {
  }

  /** Two ids are aliases exactly when they agree in the quotient by 377313 and in the remainder by 65536: below 377313,
      that is, modulo 65536. */
  lemma AliasesExactly(x: uint32, y: uint32)
    ensures Aliases(x, y) <==> x / HASH_ENTRIES == y / HASH_ENTRIES && x % TWO_16 == y % TWO_16
  {
    if Aliases(x, y) {
      Quotients(x, y);
    } else if x / HASH_ENTRIES == y / HASH_ENTRIES && x % TWO_16 == y % TWO_16 {
      Remainders(x, y);
    }
  }

  /** The ids that go to slot `s`, for every id: 377313 slots repeat, and of their numbers 16 bits are kept. */
  lemma SlotExactly(s: nat, j: nat, k: nat)
    requires s < TWO_16 && TWO_16 * j + s < HASH_ENTRIES
    ensures Slot(HASH_ENTRIES * k + TWO_16 * j + s) == s
  {
    assert (HASH_ENTRIES * k + TWO_16 * j + s) % HASH_ENTRIES == TWO_16 * j + s;
  }

  /** Ids below 65536 have no aliases among themselves. */
  lemma SmallIdsSpare(ops: seq<Op>, id: nat)
    requires id < TWO_16 && forall i :: 0 <= i < |ops| && !ops[i].LoadOp? ==> ops[i].word < PAGE_VALID + TWO_16
    ensures Spares(ops, id)
  {
  }
}
