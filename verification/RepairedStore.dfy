/** The allocator with its two defects repaired: the count starts anew behind a full byte, and `first_block` starts out
    as UINT_MAX. What holds for the code under conditions then holds for every directory and, once the memory layout
    counts the status word too, for every run. */
module RepairedStore {
  import opened Bytes
  import opened Bitmap
  import opened SectionScan
  import opened Directory
  import opened DirectoryInvariant
  import opened DirectoryTheorems
  import opened PageStore
  import opened StoreRuns

  // ---- the search of a section ----

  /** `ScanFrom` with `found = 0` in front of the `continue`. */
  function ResetScanFrom(section: seq<bv8>, n: nat, p: nat, found: nat, first: nat): (r: Option<Run>)
    requires |section| == SECTION_BYTES && p <= SECTION_BLOCKS
    ensures r.Some? ==> p <= r.value.last < SECTION_BLOCKS
    decreases SECTION_BLOCKS - p, section
  {
    if p == SECTION_BLOCKS then None
    else if p % 8 == 0 && section[p / 8] == FULL then ResetScanFrom(section, n, p + 8, 0, first)
    else if Used(section, p) then ResetScanFrom(section, n, p + 1, 0, first)
    else
      var first' := if found == 0 then p else first;
      if found + 1 == n then Some(Run(first', p)) else ResetScanFrom(section, n, p + 1, found + 1, first')
  }

  function ResetScan(section: seq<bv8>, n: nat): (r: Option<Run>)
    requires |section| == SECTION_BYTES
    ensures r.Some? ==> r.value.last < SECTION_BLOCKS
  {
    ResetScanFrom(section, n, 0, 0, 0)
  }

  /** No run of `n` free blocks begins before `from`. */
  ghost predicate NoRunBefore(section: seq<bv8>, n: nat, from: nat)
    requires |section| == SECTION_BYTES
  {
    forall a: nat :: a < from && a + n <= SECTION_BLOCKS ==> !FreeRun(section, a, n)
  }

  /** The first run of `n` free blocks, or nothing if there is none. */
  ghost predicate FirstRun(section: seq<bv8>, n: nat, r: Option<Run>)
    requires |section| == SECTION_BYTES
  {
    match r
    case None => NoRunBefore(section, n, SECTION_BLOCKS)
    case Some(run) =>
      && run.last < SECTION_BLOCKS && run.last + 1 == run.first + n
      && FreeRun(section, run.first, n) && NoRunBefore(section, n, run.first)
  }

  lemma UsedEndsRuns(section: seq<bv8>, n: nat, p: nat, k: nat, from: nat)
    requires |section| == SECTION_BYTES && p + k <= SECTION_BLOCKS && NoRunBefore(section, n, from) && n > 0
    requires from <= p < from + n && forall b :: p <= b < p + k ==> Used(section, b)
    ensures k > 0 ==> NoRunBefore(section, n, p + k) && FreeRun(section, p + k, 0)
  {
    hide Used;
    forall a: nat | from <= a < p + k && a + n <= SECTION_BLOCKS && k > 0 ensures !FreeRun(section, a, n) {
      assert Used(section, if a < p then p else a);
    }
  }

  lemma {:induction false} ResetScanFromFirst(section: seq<bv8>, n: nat, p: nat, found: nat, first: nat)
    requires |section| == SECTION_BYTES && p <= SECTION_BLOCKS
    requires found < n && found <= p && (found > 0 ==> first == p - found)
    requires FreeRun(section, p - found, found) && NoRunBefore(section, n, p - found)
    ensures FirstRun(section, n, ResetScanFrom(section, n, p, found, first))
    decreases SECTION_BLOCKS - p
  {
    hide Used, FreeRun, NoRunBefore;
    if p == SECTION_BLOCKS {
      NoRunAtEnd(section, n, p - found);
    } else if p % 8 == 0 && section[p / 8] == FULL {
      forall b | p <= b < p + 8 ensures Used(section, b) { FullByteUsed(section, p, b); }
      UsedEndsRuns(section, n, p, 8, p - found);
      ResetScanFromFirst(section, n, p + 8, 0, first);
    } else if Used(section, p) {
      UsedEndsRuns(section, n, p, 1, p - found);
      ResetScanFromFirst(section, n, p + 1, 0, first);
    } else {
      LongerRun(section, p, found);
      if found + 1 < n { ResetScanFromFirst(section, n, p + 1, found + 1, if found == 0 then p else first); }
    }
  }

  lemma LongerRun(section: seq<bv8>, p: nat, found: nat)
    requires found <= p < 8 * |section| && FreeRun(section, p - found, found) && !Used(section, p)
    ensures FreeRun(section, p - found, found + 1)
  {
    hide Used;
  }

  lemma NoRunAtEnd(section: seq<bv8>, n: nat, from: nat)
    requires |section| == SECTION_BYTES && NoRunBefore(section, n, from) && from + n > SECTION_BLOCKS
    ensures NoRunBefore(section, n, SECTION_BLOCKS)
  {
    hide Used, FreeRun;
  }

  /** Skipping full bytes finds what a search bit by bit would find: the lowest run of free blocks, if there is one. */
  lemma ResetScanExactly(section: seq<bv8>, n: nat)
    requires |section| == SECTION_BYTES && n > 0
    ensures FirstRun(section, n, ResetScan(section, n))
  {
    hide Used, ResetScanFrom, FirstRun;
    assert FreeRun(section, 0, 0);
    ResetScanFromFirst(section, n, 0, 0, 0);
  }

  // ---- the search of the directory ----

  function ResetPick(d: Dir, n: nat, s: nat): (r: Option<(nat, Run)>)
    requires d.Shape() && s <= SECTIONS
    ensures r.Some? ==> s <= r.value.0 < SECTIONS && !Used(d.l1, r.value.0)
    ensures r.Some? ==> ResetScan(Section(d.l2, r.value.0), n) == Some(r.value.1)
    decreases SECTIONS - s, d
  {
    if s == SECTIONS then None
    else if !Used(d.l1, s) && ResetScan(Section(d.l2, s), n).Some? then Some((s, ResetScan(Section(d.l2, s), n).value))
    else ResetPick(d, n, s + 1)
  }

  lemma {:induction false} ResetPickComplete(d: Dir, n: nat, s: nat, b: nat)
    requires d.Shape() && Summarised(d.l1, d.l2) && 0 < n
    requires s <= b / SECTION_BLOCKS && b < NUM_BLOCKS && FreeRunAt(d.l2, b, n)
    ensures var r := ResetPick(d, n, s);
            r.Some? && SECTION_BLOCKS * r.value.0 + r.value.1.first <= b
    decreases SECTIONS - s
  {
    hide Used, Section, ResetScan, Summarised, FreeRun;
    var sb, p := b / SECTION_BLOCKS, b % SECTION_BLOCKS;
    RunInSection(d.l2, sb, p, n);
    ResetScanExactly(Section(d.l2, s), n);
    if s < sb {
      ResetPickComplete(d, n, s + 1, b);
    } else if Used(d.l1, s) {
      FullHasNoRun(d, s, p, n);
    }
  }

  /** First fit, without a condition: the search fails exactly when no section has a free run, and otherwise reports the
      lowest one there is. */
  lemma ResetFirstFit(d: Dir, n: nat)
    requires d.Shape() && Summarised(d.l1, d.l2) && 0 < n <= 64
    ensures match ResetPick(d, n, 0)
      case None => forall b: nat :: b < NUM_BLOCKS ==> !FreeRunAt(d.l2, b, n)
      case Some((s, run)) =>
        var first := SECTION_BLOCKS * s + run.first;
        FreeRunAt(d.l2, first, n) && forall b: nat :: b < NUM_BLOCKS && FreeRunAt(d.l2, b, n) ==> first <= b
  {
    hide Used, Section, ResetScan, Summarised, FreeRun, ResetPick;
    var r := ResetPick(d, n, 0);
    if r.Some? {
      var (s, run) := r.value;
      ResetScanExactly(Section(d.l2, s), n);
      RunInSection(d.l2, s, run.first, n);
      var first := SECTION_BLOCKS * s + run.first;
      assert first / SECTION_BLOCKS == s && first % SECTION_BLOCKS == run.first;
    }
    forall b: nat | b < NUM_BLOCKS && FreeRunAt(d.l2, b, n)
      ensures r.Some? && SECTION_BLOCKS * r.value.0 + r.value.1.first <= b
    {
      ResetPickComplete(d, n, 0, b);
    }
  }

  // ---- allocation ----

  function ResetAlloc(d: Dir, id: nat, length: nat): (r: (Dir, Option<uint32>))
    requires d.Shape() && 1 <= length <= PAGE_SIZE
    ensures r.0.Shape()
  {
    match ResetPick(d, Blocks(length), 0)
    case None => (d, None)
    case Some((s, run)) =>
      ResetScanExactly(Section(d.l2, s), Blocks(length));
      Take(d, id, length, s, run)
  }

  lemma ResetAllocEnters(d: Dir, id: nat, length: nat)
    requires d.Shape() && Summarised(d.l1, d.l2) && 1 <= length <= PAGE_SIZE && d.table[Slot(id)].length == 0
    ensures var (d', r) := ResetAlloc(d, id, length);
            if r.None? then d' == d else Entered(d, d', id, length, r.value)
  {
    hide Used, Section, ResetScan, Summarised, FreeRun, ResetPick, Take, Entered;
    var r := ResetPick(d, Blocks(length), 0);
    if r.Some? {
      var (s, run) := r.value;
      ResetScanExactly(Section(d.l2, s), Blocks(length));
      TakeEnters(d, id, length, s, run);
    }
  }

  /** No section has `n` consecutive free blocks. */
  ghost predicate NoRun(l2: seq<bv8>, n: nat)
    requires |l2| == L2_BYTES
  {
    forall b: nat :: b < NUM_BLOCKS ==> !FreeRunAt(l2, b, n)
  }

  /** Ownership and conservation: an allocation keeps the invariant exactly when no section has a free run of the length
      asked for, or the slot is empty. */
  lemma ResetAllocKeepsInvExactly(d: Dir, id: nat, length: nat)
    requires Inv(d) && 1 <= length <= PAGE_SIZE
    ensures Inv(ResetAlloc(d, id, length).0) <==> NoRun(d.l2, Blocks(length)) || d.table[Slot(id)].length == 0
    ensures ResetAlloc(d, id, length).1.None? <==> NoRun(d.l2, Blocks(length))
  {
    hide Disjoint, Accounted, AllFit, Summarised, Tallied, ResetAlloc, Entered, NoRun;
    var (d', r) := ResetAlloc(d, id, length);
    ResetAllocFinds(d, id, length);
    if d.table[Slot(id)].length == 0 {
      ResetAllocEnters(d, id, length);
      if r.Some? { EnteredKeepsInv(d, d', id, length, r.value); }
    } else {
      ResetTaken(d, id, length);
    }
  }

  /** An allocation reports the lowest free run, and nothing exactly when there is none. */
  lemma ResetAllocFinds(d: Dir, id: nat, length: nat)
    requires d.Shape() && Summarised(d.l1, d.l2) && 1 <= length <= PAGE_SIZE
    ensures var r, n := ResetAlloc(d, id, length).1, Blocks(length);
            && (r.None? <==> NoRun(d.l2, n))
            && (r.Some? ==>
                  && r.value < NUM_BLOCKS && FreeRunAt(d.l2, r.value, n)
                  && forall b: nat :: b < NUM_BLOCKS && FreeRunAt(d.l2, b, n) ==> r.value <= b)
  {
    hide Summarised, FreeRun, ResetPick, Mark, Insert;
    ResetFirstFit(d, Blocks(length));
  }

  lemma ResetTaken(d: Dir, id: nat, length: nat)
    requires Inv(d) && 1 <= length <= PAGE_SIZE && d.table[Slot(id)].length != 0
    ensures var (d', r) := ResetAlloc(d, id, length); if r.None? then d' == d else !Inv(d')
  {
    hide Used, Total, CountUsed, AllFit, Disjoint, Accounted, Summarised, ResetPick, Mark;
    var (d', r) := ResetAlloc(d, id, length);
    if r.Some? {
      PagesBound(d);
      TotalsOfUpdate(d.table, Slot(id), Entry(r.value, Tag(id), length));
    }
  }

  // ---- the programs ----

  function ResetStore(codec: Codec, m: Machine, word: nat, page: seq<byte>, heapOk: bool): (r: (Machine, Reply))
    requires m.Shape() && Whole(codec, page)
    ensures r.0.Shape() && |r.0.storage| == |m.storage|
  {
    if word < PAGE_VALID then (m, Ignored)
    else if !heapOk then (m, NoWram)
    else
      var (length, buffer) := Payload(codec, page);
      var (d, first) := ResetAlloc(CountUncompressable(m.dir, length), word - PAGE_VALID, length);
      Place(m, d, first, length, buffer)
  }

  /** The lowest free run of `n` blocks is the last one there can be. */
  ghost predicate LowestIsLast(l2: seq<bv8>, n: nat)
    requires |l2| == L2_BYTES && n <= NUM_BLOCKS
  {
    FreeRunAt(l2, NUM_BLOCKS - n, n) && forall b: nat :: b < NUM_BLOCKS - n ==> !FreeRunAt(l2, b, n)
  }

  ghost predicate ResetFits(codec: Codec, m: Machine, word: nat, page: seq<byte>, heapOk: bool)
    requires m.Shape()
  {
    word >= PAGE_VALID && heapOk && |m.storage| != STORAGE_SIZE ==>
      var length := Payload(codec, page).0;
      !LowestIsLast(m.dir.l2, Blocks(length)) || Align8(length) != BLOCK_SIZE * Blocks(length)
  }

  /** A store leaves the memory of the DPU exactly when the layout is not repaired, the lowest free run is the last one,
      and the transfer is as long as its blocks. */
  lemma ResetOverrunsExactly(codec: Codec, m: Machine, word: nat, page: seq<byte>, heapOk: bool)
    requires m.Shape() && Summarised(m.dir.l1, m.dir.l2) && Whole(codec, page)
    ensures ResetStore(codec, m, word, page, heapOk).1 == Overrun <==> !ResetFits(codec, m, word, page, heapOk)
  {
    hide ResetAlloc, FreeRunAt, Summarised, LowestIsLast, NoRun;
    if word >= PAGE_VALID && heapOk {
      var length := Payload(codec, page).0;
      var d := CountUncompressable(m.dir, length);
      var first := ResetAlloc(d, word - PAGE_VALID, length).1;
      ResetAllocFinds(d, word - PAGE_VALID, length);
      if first.None? {
        NoneIsLast(d.l2, Blocks(length));
      } else {
        LowestExactly(d.l2, Blocks(length), first.value);
        BeyondExactly(first.value, length, |m.storage|);
      }
      hide Address, Align8, Blocks;
    }
  }

  lemma NoneIsLast(l2: seq<bv8>, n: nat)
    requires |l2| == L2_BYTES && 0 < n <= 64 && NoRun(l2, n)
    ensures !LowestIsLast(l2, n)
  {
    hide FreeRunAt;
  }

  lemma LowestExactly(l2: seq<bv8>, n: nat, first: nat)
    requires |l2| == L2_BYTES && 0 < n <= 64 && FreeRunAt(l2, first, n)
    requires forall b: nat :: b < NUM_BLOCKS && FreeRunAt(l2, b, n) ==> first <= b
    ensures first + n <= NUM_BLOCKS && (first + n == NUM_BLOCKS <==> LowestIsLast(l2, n))
  {
    hide FreeRun;
  }

  lemma ResetStoreRefines(codec: Codec, m: Machine, a: Contents, word: nat, page: seq<byte>, heapOk: bool)
    requires Represents(codec, m, a) && Inverts(codec) && Whole(codec, page)
    requires word >= PAGE_VALID && heapOk ==> Slot(word - PAGE_VALID) !in a
    requires ResetFits(codec, m, word, page, heapOk)
    ensures var (m', reply) := ResetStore(codec, m, word, page, heapOk);
            Represents(codec, m', if reply == Stored then Enter(a, word - PAGE_VALID, page) else a)
    ensures ResetStore(codec, m, word, page, heapOk).1 == Stored ==> word >= PAGE_VALID
  {
    hide Inv, PageAt, Write, ResetAlloc, Entered, ResetFits;
    SummarisedOf(m.dir);
    ResetOverrunsExactly(codec, m, word, page, heapOk);
    if word >= PAGE_VALID && heapOk {
      var id, length := word - PAGE_VALID, Payload(codec, page).0;
      var d := CountUncompressable(m.dir, length);
      CountKeepsInv(m.dir, length);
      var (d', first) := ResetAlloc(d, id, length);
      ResetAllocEnters(d, id, length);
      if first.Some? {
        StoredPage(codec, m, a, id, page, d', first.value);
      }
    }
  }

  lemma SummarisedOf(d: Dir)
    requires Inv(d)
    ensures Summarised(d.l1, d.l2)
  {
  }

  function ResetExec(codec: Codec, m: Machine, op: Op): (r: (Machine, Reply))
    requires m.Shape() && WholePage(codec, op)
    ensures r.0.Shape() && |r.0.storage| == |m.storage|
  {
    if op.StoreOp? then ResetStore(codec, m, op.word, op.page, op.heapOk) else Exec(codec, m, op)
  }

  ghost predicate ResetStep(codec: Codec, m: Machine, op: Op, m': Machine, reply: Reply) {
    m.Shape() && WholePage(codec, op) && (m', reply) == ResetExec(codec, m, op)
  }

  ghost predicate IsResetRun(codec: Codec, states: seq<Machine>, ops: seq<Op>, replies: seq<Reply>) {
    && |states| == |ops| + 1 && |replies| == |ops| && states[0].Shape()
    && forall i :: 0 <= i < |ops| ==> ResetStep(codec, states[i], ops[i], states[i + 1], replies[i])
  }

  /** Every store of the run stays in memory, which the bitmap it meets tells beforehand. */
  ghost predicate AllResetFit(codec: Codec, states: seq<Machine>, ops: seq<Op>)
    requires |ops| <= |states|
  {
    forall i :: 0 <= i < |ops| && ops[i].StoreOp? ==>
      states[i].Shape() && ResetFits(codec, states[i], ops[i].word, ops[i].page, ops[i].heapOk)
  }

  // ---- runs, as seen by ids ----

  /** The pages held under ids. */
  type Pages = map<nat, seq<byte>>

  /** No two of these ids share a slot. */
  predicate Spread(ids: set<nat>) {
    forall x, y :: x in ids && y in ids && Slot(x) == Slot(y) ==> x == y
  }

  function IdStep(p: Pages, op: Op, reply: Reply): Pages {
    match op
    case StoreOp(word, page, _, _) => if reply == Stored && word >= PAGE_VALID then p[word - PAGE_VALID := page] else p
    case LoadOp(_) => p
    case DropOp(word) => if word < PAGE_VALID then p else p - {word - PAGE_VALID}
  }

  function IdRun(p: Pages, ops: seq<Op>, replies: seq<Reply>): Pages
    requires |ops| == |replies|
    decreases |ops|
  {
    if ops == [] then p else IdRun(IdStep(p, ops[0], replies[0]), ops[1..], replies[1..])
  }

  /** The operation concerns one of these ids, and a store comes with an id that holds no page. */
  predicate Proper(p: Pages, op: Op, ids: set<nat>) {
    && (op.LoadOp? ==> op.word in ids)
    && (!op.LoadOp? && op.word >= PAGE_VALID ==> op.word - PAGE_VALID in ids)
    && (op.StoreOp? && op.word >= PAGE_VALID ==> op.word - PAGE_VALID !in p)
  }

  /** Every operation of the run is proper when it comes. */
  predicate ProperRun(p: Pages, ops: seq<Op>, replies: seq<Reply>, ids: set<nat>)
    requires |ops| == |replies|
    decreases |ops|
  {
    ops == [] || (Proper(p, ops[0], ids) && ProperRun(IdStep(p, ops[0], replies[0]), ops[1..], replies[1..], ids))
  }

  function HeldBy(p: Pages, x: nat): Option<seq<byte>> {
    if x in p then Some(p[x]) else None
  }

  /** Every load answers with the page held under its id at that moment. */
  predicate IdLoadsAgree(p: Pages, ops: seq<Op>, replies: seq<Reply>)
    requires |ops| == |replies|
    decreases |ops|
  {
    if ops == [] then true
    else
      && (ops[0].LoadOp? ==> replies[0] == Answer(HeldBy(p, ops[0].word)))
      && IdLoadsAgree(IdStep(p, ops[0], replies[0]), ops[1..], replies[1..])
  }

  /** The slots hold exactly the pages of the ids. */
  ghost predicate Matches(a: Contents, p: Pages, ids: set<nat>) {
    && (forall x :: x in p ==> x in ids && Slot(x) in a && a[Slot(x)] == (Tag(x), p[x]))
    && (forall s :: s in a ==> exists x :: x in p && Slot(x) == s)
  }

  lemma MatchedFind(a: Contents, p: Pages, ids: set<nat>, x: nat)
    requires Matches(a, p, ids) && Spread(ids) && x in ids
    ensures Find(a, x) == HeldBy(p, x)
    ensures x !in p ==> Slot(x) !in a
  {
    hide Slot, Tag;
    assert forall y :: y in p && Slot(y) == Slot(x) ==> y == x;
  }

  lemma EnterMatches(a: Contents, p: Pages, ids: set<nat>, x: nat, page: seq<byte>)
    requires Matches(a, p, ids) && Spread(ids) && x in ids && x !in p
    ensures Matches(Enter(a, x, page), p[x := page], ids)
  {
    hide Slot, Tag;
    var a', p' := Enter(a, x, page), p[x := page];
    OthersApart(p, ids, x);
    hide Spread;
    assert forall y :: y in p' ==> if y == x then a'[Slot(y)] == (Tag(x), page) else a'[Slot(y)] == a[Slot(y)];
    forall s | s in a' ensures exists y :: y in p' && Slot(y) == s {
      if s == Slot(x) {
        assert x in p';
      } else {
        var y :| y in p && Slot(y) == s;
        assert y in p';
      }
    }
  }

  lemma OthersApart(p: Pages, ids: set<nat>, x: nat)
    requires (forall y :: y in p ==> y in ids) && Spread(ids) && x in ids && x !in p
    ensures forall y :: y in p ==> Slot(y) != Slot(x)
  {
    hide Slot;
  }

  lemma RemoveMatches(a: Contents, p: Pages, ids: set<nat>, x: nat)
    requires Matches(a, p, ids) && Spread(ids) && x in ids
    ensures Matches(Remove(a, x), p - {x}, ids)
  {
    MatchedFind(a, p, ids, x);
    hide Slot, Tag, Find, Spread;
    if x in p {
      assert forall y :: y in p && Slot(y) == Slot(x) ==> y == x by { OneOfSlot(p, ids, x); }
      RemovedMatches(a, p, ids, x);
    } else {
      assert p - {x} == p;
    }
  }

  lemma OneOfSlot(p: Pages, ids: set<nat>, x: nat)
    requires p.Keys <= ids && Spread(ids) && x in ids
    ensures forall y :: y in p && Slot(y) == Slot(x) ==> y == x
  {
    hide Slot;
  }

  lemma RemovedMatches(a: Contents, p: Pages, ids: set<nat>, x: nat)
    requires Matches(a, p, ids) && x in p && forall y :: y in p && Slot(y) == Slot(x) ==> y == x
    ensures Matches(a - {Slot(x)}, p - {x}, ids)
  {
    hide Slot, Tag;
    var p' := p - {x};
    forall s | s in a && s != Slot(x) ensures exists y :: y in p' && Slot(y) == s {
      var y :| y in p && Slot(y) == s;
      assert y in p';
    }
  }

  lemma StepMatches(a: Contents, p: Pages, ids: set<nat>, op: Op, reply: Reply)
    requires Matches(a, p, ids) && Spread(ids) && Proper(p, op, ids)
    ensures Matches(MapStep(a, op, reply), IdStep(p, op, reply), ids)
  {
    hide Matches, Spread, Slot, Tag, Remove;
    if !op.LoadOp? && op.word >= PAGE_VALID {
      var x := op.word - PAGE_VALID;
      if op.StoreOp? { EnterMatches(a, p, ids, x, op.page); } else { RemoveMatches(a, p, ids, x); }
    }
  }

  lemma ResetExecRefines(codec: Codec, m: Machine, a: Contents, p: Pages, ids: set<nat>, op: Op)
    requires m.Shape() && Represents(codec, m, a) && Inverts(codec) && WholePage(codec, op)
    requires Matches(a, p, ids) && Spread(ids) && Proper(p, op, ids)
    requires op.StoreOp? ==> ResetFits(codec, m, op.word, op.page, op.heapOk)
    ensures var (m', reply) := ResetExec(codec, m, op);
            && Represents(codec, m', MapStep(a, op, reply))
            && (op.LoadOp? ==> reply == Answer(HeldBy(p, op.word)))
  {
    hide Inverts, ResetStore, Drop, Load, Represents, Find, Remove, Slot, Tag, Payload, ResetFits;
    hide Matches, Spread, HeldBy;
    match op
    case StoreOp(word, page, heapOk, junk) =>
      if word >= PAGE_VALID { MatchedFind(a, p, ids, word - PAGE_VALID); }
      ResetStoreRefines(codec, m, a, word, page, heapOk);
    case LoadOp(word) =>
      LoadFinds(codec, m, a, word);
      MatchedFind(a, p, ids, word);
    case DropOp(word) => DropRefines(codec, m, a, word);
  }

  lemma {:induction false} ResetRunRefines(codec: Codec, states: seq<Machine>, ops: seq<Op>, replies: seq<Reply>,
                                           a: Contents, p: Pages, ids: set<nat>)
    requires IsResetRun(codec, states, ops, replies) && Represents(codec, states[0], a) && Inverts(codec)
    requires Matches(a, p, ids) && Spread(ids) && ProperRun(p, ops, replies, ids) && AllResetFit(codec, states, ops)
    ensures forall i :: 0 <= i <= |ops| ==> Inv(states[i].dir)
    ensures IdLoadsAgree(p, ops, replies)
    decreases |ops|
  {
    hide Inv, Inverts, ResetExec, WholePage, MapStep, IdStep, Proper, Spread, Matches, Find, ResetFits;
    assert Inv(states[0].dir);
    if ops != [] {
      assert ResetStep(codec, states[0], ops[0], states[1], replies[0]);
      ResetExecRefines(codec, states[0], a, p, ids, ops[0]);
      StepMatches(a, p, ids, ops[0], replies[0]);
      hide Represents;
      ResetRunRefines(codec, states[1..], ops[1..], replies[1..], MapStep(a, ops[0], replies[0]),
                      IdStep(p, ops[0], replies[0]), ids);
      forall i | 0 < i <= |ops| ensures Inv(states[i].dir) { assert states[i] == states[1..][i - 1]; }
    }
  }

  /** With both repairs of the allocator, every run on a new DPU that stores only under ids that hold no page, from any
      set of ids with slots of their own, and stays in memory keeps the invariant throughout, and every load in it
      answers as a map from ids to pages would. */
  lemma RepairedStoreIsMap(codec: Codec, states: seq<Machine>, ops: seq<Op>, replies: seq<Reply>, ids: set<nat>)
    requires IsResetRun(codec, states, ops, replies) && states[0] == NewMachine() && Inverts(codec)
    requires Spread(ids) && ProperRun(map[], ops, replies, ids) && AllResetFit(codec, states, ops)
    ensures forall i :: 0 <= i <= |ops| ==> Inv(states[i].dir)
    ensures IdLoadsAgree(map[], ops, replies)
  {
    hide Inv, ResetStep, NewMachine, Inverts, Spread, ProperRun, IdLoadsAgree, ResetFits;
    EmptyRepresents(NewMachine());
    ResetRunRefines(codec, states, ops, replies, map[], map[], ids);
  }

  /** A new DPU whose directory is four bytes smaller, so that the storage area lies inside the memory. The index loses
      no entry by that. */
  function RepairedMachine(): (m: Machine)
    ensures m.Shape() && (DIRECTORY_SIZE - 4 - L1_BYTES - L2_BYTES) / 8 == HASH_ENTRIES
    ensures STORAGE_OFFSET - 4 + |m.storage| == MRAM_SIZE
  {
    Machine(EmptyDir(), seq(STORAGE_SIZE, _ => 0))
  }

  lemma {:induction false} SameMemory(codec: Codec, states: seq<Machine>, ops: seq<Op>, replies: seq<Reply>, n: nat)
    requires IsResetRun(codec, states, ops, replies) && n <= |ops|
    ensures forall i :: 0 <= i <= n ==> |states[i].storage| == |states[0].storage| && states[i].Shape()
  {
    hide ResetExec, WholePage;
    if n > 0 {
      SameMemory(codec, states, ops, replies, n - 1);
      assert ResetStep(codec, states[n - 1], ops[n - 1], states[n], replies[n - 1]);
    }
  }

  /** With the layout repaired as well, nothing is asked of the states a run goes through. */
  lemma RepairedLayoutIsMap(codec: Codec, states: seq<Machine>, ops: seq<Op>, replies: seq<Reply>, ids: set<nat>)
    requires IsResetRun(codec, states, ops, replies) && states[0] == RepairedMachine() && Inverts(codec)
    requires Spread(ids) && ProperRun(map[], ops, replies, ids)
    ensures forall i :: 0 <= i <= |ops| ==> Inv(states[i].dir)
    ensures IdLoadsAgree(map[], ops, replies)
  {
    hide Inv, ResetStep, RepairedMachine, Inverts, Spread, ProperRun, IdLoadsAgree;
    EmptyRepresents(RepairedMachine());
    assert |states[0].storage| == STORAGE_SIZE;
    forall i | 0 <= i < |ops| && ops[i].StoreOp?
      ensures states[i].Shape() && ResetFits(codec, states[i], ops[i].word, ops[i].page, ops[i].heapOk)
    {
      SameMemory(codec, states, ops, replies, i);
    }
    hide ResetFits;
    ResetRunRefines(codec, states, ops, replies, map[], map[], ids);
  }

  /** All ids below 65536 have slots of their own. */
  lemma SmallIdsSpread(ids: set<nat>)
    requires forall x :: x in ids ==> x < TWO_16
    ensures Spread(ids)
  {
  }
}
