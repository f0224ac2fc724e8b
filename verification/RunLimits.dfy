/** A consequence of remembering positions: a run of equal bytes costs almost nothing, whatever comes before it. */
module RunLimits {
  import opened Bytes
  import opened MatchLength
  import opened Elements
  import opened BlockSpec
  import opened BlockTheorems
  import opened BlockLimits
  import opened MatchHistory

  /** From `s` to its end the block repeats one byte. */
  ghost predicate EndsInRun(b: Block, s: nat)
    requires b.Valid()
  {
    b.base <= s < b.end && b.end - b.base <= MAX_BLOCK && forall i :: s <= i < b.end ==> b.data[i] == b.data[s]
  }

  lemma RunWords(b: Block, s: nat, p: nat, q: nat)
    requires b.Valid() && EndsInRun(b, s) && s <= p && s <= q && p + 4 <= b.end && q + 4 <= b.end
    ensures Read32(b.data, p) == Read32(b.data, q) && b.HashAt(p) == b.HashAt(q)
  {
    hide Hash;
    assert b.data[p] == b.data[p + 1] == b.data[p + 2] == b.data[p + 3] == b.data[s];
    assert b.data[q] == b.data[q + 1] == b.data[q + 2] == b.data[q + 3] == b.data[s];
  }

  lemma {:induction false} RunPrefix(d: seq<byte>, s1: nat, s2: nat, limit: nat)
    requires s1 <= s2 <= limit <= |d| && forall i :: s1 <= i < limit ==> d[i] == d[s1]
    ensures CommonPrefix(d, s1, s2, limit) == limit - s2
    decreases limit - s2
  {
    if s2 < limit { RunPrefix(d, s1 + 1, s2 + 1, limit); }
  }

  /** A match inside the run reaches its end, but for three bytes at most. */
  lemma RunMatched(b: Block, s: nat, p: nat, q: nat)
    requires b.Valid() && EndsInRun(b, s) && s <= p < q < b.Limit()
    ensures q + b.Matched(p, q) >= b.end - 3
  {
    RunPrefix(b.data, p + 4, q + 4, b.end);
    MatchIsNearlyCommonPrefix(b.data, p + 4, q + 4, b.end, b.ctzOfZero);
  }

  lemma CopyAtMost(offset: nat, length: nat)
    requires 4 <= length
    ensures |EmitCopy(offset, length)| <= 3 * (length / 64) + 3
  {
    CopySize(offset, length);
    hide EmitCopy;
  }

  lemma ShortRemainder(b: Block, from: nat)
    requires b.Valid() && b.Limit() <= from <= b.end
    ensures |b.Remainder(from)| <= 17
  {
    RemainderSize(b, from);
  }

  lemma CopiesInRun(b: Block, s: nat, table: seq<uint16>, p: nat, q: nat)
    requires b.Valid() && EndsInRun(b, s) && |table| == TABLE_ENTRIES && b.base <= s <= p < q < b.Limit()
    ensures |b.Copies(table, p, q)| <= 3 * ((b.end - q) / 64) + 20
  {
    hide Hash, EmitCopy, EndsInRun, Block.Matched, Block.Copies, Block.AfterCopy, Block.Remainder;
    var matched := b.Matched(p, q);
    RunMatched(b, s, p, q);
    CopiesUnfolds(b, table, p, q);
    AfterCopyUnfolds(b, table, q + matched);
    ShortRemainder(b, q + matched);
    CopyAtMost(b.Distance(p, q), matched);
  }

  /** A copy that ends inside the run is followed by one to its end: the position before has just been remembered. */
  lemma AfterCopyInRun(b: Block, s: nat, table: seq<uint16>, next: nat)
    requires b.Valid() && EndsInRun(b, s) && |table| == TABLE_ENTRIES && b.base <= s < next <= b.end
    ensures |b.AfterCopy(table, next)| <= 3 * ((b.end - next) / 64) + 20
  {
    hide Hash, Read32, Block.Copies, Block.AfterCopy, Block.Remainder, Block.Remember, Block.Candidate;
    AfterCopyUnfolds(b, table, next);
    if next >= b.Limit() {
      ShortRemainder(b, next);
    } else {
      RunWords(b, s, next - 1, next);
      RememberExact(b, table, next - 1, next);
      CopiesInRun(b, s, b.Remember(b.Remember(table, next - 1), next), next - 1, next);
    }
  }

  // ---- before the run ----

  /** What the run may cost besides the bytes before it. */
  function Extra(b: Block, s: nat): int {
    3 * ((b.end - s) / 64) + 40
  }

  /** The step with which a search enters the run is at most `g`, if it began `s - b.base` bytes before it at most. */
  ghost predicate StepsUpTo(b: Block, s: nat, g: nat)
    requires b.Valid()
  {
    g >= 1 && 16 * (g * g + g) > s - b.base && s + 3 * g + 3 <= b.Limit()
  }

  lemma ReachAtLeast(q: nat, r: nat)
    requires r < 32
    ensures Reach(32 * q + r) >= 16 * (q * q + q)
  {
    ReachExactly(q, r);
    hide Reach;
    Factored(q, r);
  }

  lemma Factored(q: nat, r: nat)
    ensures 16 * q * (q + 1) == 16 * (q * q + q) && r * (q + 1) >= 0
  {
  }

  lemma StepOfProbe(k: nat, g: nat, room: nat)
    requires 16 * (g * g + g) > room && Reach(k) <= room
    ensures k / 32 < g
  {
    hide Reach;
    var q, r := k / 32, k % 32;
    ReachAtLeast(q, r);
    if q >= g { Monotone(g, q); }
  }

  lemma ReachOfProbe(from: nat, k: nat)
    ensures Probe(from, k) == from + 1 + Reach(k)
  {
  }

  lemma StepBound(b: Block, s: nat, g: nat, from: nat, k: nat)
    requires b.Valid() && StepsUpTo(b, s, g) && b.base <= from <= s && (k == 0 || Probe(from, k - 1) < s)
    ensures Probe(from, k) <= s + g && (32 + k) / 32 <= g + 1
  {
    hide Probe, Reach;
    if k == 0 {
      ProbeFirst(from);
    } else {
      ReachOfProbe(from, k - 1);
      StepOfProbe(k - 1, g, s - b.base);
      ProbeNext(from, k - 1);
    }
  }

  lemma Monotone(g: nat, q: nat)
    requires g <= q
    ensures g * g + g <= q * q + q
  {
    assert q * q - g * g == (q - g) * (q + g);
  }

  lemma ShortBudget(b: Block, s: nat, g: nat, curr: nat, size: nat)
    requires b.Valid() && s < b.end && curr <= s + 2 * g + 1 < b.end && size <= 3 * ((b.end - curr) / 64) + 37
    ensures size <= Bound(s + 2 * g + 1 - curr) + 3 + Extra(b, s)
  {
    if curr <= s { assert (b.end - curr) / 64 <= (b.end - s) / 64 + (s - curr) / 64 + 1; }
  }

  lemma {:induction false} CopiesBeforeRun(b: Block, s: nat, g: nat, table: seq<uint16>, c: nat, curr: nat)
    requires b.Valid() && EndsInRun(b, s) && StepsUpTo(b, s, g) && |table| == TABLE_ENTRIES
    requires b.base <= s && b.base < curr <= s + 2 * g + 1
    ensures |b.Copies(table, c, curr)| <= Bound(s + 2 * g + 1 - curr) + 3 + Extra(b, s)
    decreases b.end - curr, 0
  {
    hide Hash, EmitCopy, Bound, EndsInRun, Extra, Probe, Read32;
    hide Block.Matched, Block.Copies, Block.AfterCopy, Block.Remainder, Block.Search, Block.Remember, Block.Candidate;
    var matched := b.Matched(c, curr);
    var next := curr + matched;
    CopiesUnfolds(b, table, c, curr);
    AfterCopyUnfolds(b, table, next);
    CopyAtMost(b.Distance(c, curr), matched);
    if next > s {
      AfterCopyInRun(b, s, table, next);
      ShortBudget(b, s, g, curr, |b.Copies(table, c, curr)|);
    } else {
      var table1 := b.Remember(table, next - 1);
      var table2 := b.Remember(table1, next);
      var rest := s + 2 * g + 5 - curr;
      CopySaves(b.Distance(c, curr), matched);
      CopyBound(rest, matched);
      if Read32(b.data, next) == Read32(b.data, b.Candidate(table1, next)) {
        CopiesBeforeRun(b, s, g, table2, b.Candidate(table1, next), next);
        CopyBound(rest - matched, 4);
      } else {
        ProbeFirst(next);
        var k := 0;
        assert Entering(b, s, g, table2, next, k);
        SearchBeforeRun(b, s, g, table2, next, k);
      }
    }
  }

  /** Probe `k` is the first or second one inside the run, or lies before it; as the second one it finds the first. */
  ghost predicate Entering(b: Block, s: nat, g: nat, table: seq<uint16>, from: nat, k: nat)
    requires |table| == TABLE_ENTRIES
  {
    || k == 0 || Probe(from, k - 1) < s
    || (&& s <= Probe(from, k - 1) < Probe(from, k) <= s + 2 * g + 1 && (32 + k) / 32 <= g + 2
        && b.Candidate(table, Probe(from, k)) == Probe(from, k - 1))
  }

  lemma RoomBehind(b: Block, s: nat, g: nat)
    requires b.Valid() && StepsUpTo(b, s, g)
    ensures g >= 1 && s + 3 * g + 3 <= b.Limit()
  {
  }

  lemma EnteringBound(b: Block, s: nat, g: nat, table: seq<uint16>, from: nat, k: nat)
    requires b.Valid() && StepsUpTo(b, s, g) && |table| == TABLE_ENTRIES && b.base <= from <= s
    requires Entering(b, s, g, table, from, k)
    ensures from < Probe(from, k) <= s + 2 * g + 1 && Probe(from, k) < Probe(from, k + 1) <= b.Limit()
  {
    hide Block.Candidate, Probe, Reach, StepsUpTo, Hash;
    if k == 0 || Probe(from, k - 1) < s { StepBound(b, s, g, from, k); }
    ProbeNext(from, k);
    ReachOfProbe(from, k);
    RoomBehind(b, s, g);
  }

  /** A probe that misses is not the second one inside the run. */
  lemma EnteringNext(b: Block, s: nat, g: nat, table: seq<uint16>, from: nat, k: nat)
    requires b.Valid() && EndsInRun(b, s) && StepsUpTo(b, s, g) && |table| == TABLE_ENTRIES && b.base <= from <= s
    requires Entering(b, s, g, table, from, k)
    requires Read32(b.data, Probe(from, k)) != Read32(b.data, b.Candidate(table, Probe(from, k)))
    ensures Entering(b, s, g, b.Remember(table, Probe(from, k)), from, k + 1)
  {
    hide Block.Candidate, Block.Remember, Hash, Read32, Probe, EndsInRun, StepsUpTo;
    EnteringBound(b, s, g, table, from, k);
    RoomBehind(b, s, g);
    var curr := Probe(from, k);
    if !(k == 0 || Probe(from, k - 1) < s) {
      RunWords(b, s, Probe(from, k - 1), curr);
      assert false;
    }
    StepBound(b, s, g, from, k);
    ProbeNext(from, k);
    if curr >= s {
      RunWords(b, s, curr, Probe(from, k + 1));
      ShortBlock(b, s);
      RememberExact(b, table, curr, Probe(from, k + 1));
    }
  }

  lemma ShortBlock(b: Block, s: nat)
    requires b.Valid() && EndsInRun(b, s)
    ensures b.base <= s < b.end <= b.base + MAX_BLOCK
  {
  }

  lemma {:induction false} SearchBeforeRun(b: Block, s: nat, g: nat, table: seq<uint16>, from: nat, k: nat)
    requires b.Valid() && EndsInRun(b, s) && StepsUpTo(b, s, g) && |table| == TABLE_ENTRIES
    requires b.base <= from <= s && Entering(b, s, g, table, from, k)
    ensures from < Probe(from, k) <= b.end
    ensures |b.Search(table, from, Probe(from, k), 32 + k)| <= Bound(s + 2 * g + 5 - from) + Extra(b, s)
    decreases b.end - from, 1, b.end - Probe(from, k)
  {
    hide Hash, EmitLiteral, LiteralTag, Bound, EndsInRun, StepsUpTo, Entering, Extra, Probe, Read32;
    hide Block.Copies, Block.Remainder, Block.Search, Block.Remember, Block.Candidate, Block.Literal;
    EnteringBound(b, s, g, table, from, k);
    var curr := Probe(from, k);
    ProbeNext(from, k);
    SearchUnfolds(b, table, from, curr, 32 + k);
    var table' := b.Remember(table, curr);
    if Read32(b.data, curr) == Read32(b.data, b.Candidate(table, curr)) {
      CopiesBeforeRun(b, s, g, table', b.Candidate(table, curr), curr);
      LiteralThenCopies(b, from, curr, s + 2 * g + 5, b.Copies(table', b.Candidate(table, curr), curr), Extra(b, s));
    } else {
      EnteringNext(b, s, g, table, from, k);
      EnteringBound(b, s, g, table', from, k + 1);
      SearchBeforeRun(b, s, g, table', from, k + 1);
    }
  }

  lemma LiteralThenCopies(b: Block, from: nat, curr: nat, z: nat, copies: seq<byte>, extra: int)
    requires b.Valid() && b.base <= from < curr <= b.end && curr + 4 <= z
    requires |copies| <= Bound(z - curr - 4) + 3 + extra
    ensures |b.Literal(from, curr) + copies| <= Bound(z - from) + extra
  {
    LiteralThenCopyBound(curr - from, z - curr);
  }

  lemma CompressedSearches(b: Block) returns (table: seq<uint16>, skip: nat)
    requires b.Valid()
    ensures |table| == TABLE_ENTRIES && skip == 32 && b.Compressed() == b.Search(table, b.base, b.base + 1, skip)
  {
    hide Block.Search;
    table, skip := EmptyTable(), 32;
  }

  /** A block that ends in a run of equal bytes takes, for the run, about three bytes in 64, whatever the bytes before
      it are: the search enters the run in steps of at most `g` bytes, remembers a position there, and finds it at its
      next probe. */
  lemma RunShrinks(b: Block, s: nat, g: nat)
    requires b.Valid() && EndsInRun(b, s) && StepsUpTo(b, s, g)
    ensures |b.Compressed()| <= Bound(s + 2 * g + 5 - b.base) + 3 * ((b.end - s) / 64) + 40
  {
    hide Bound, Block.Search, Block.Compressed, Hash, Reach, Block.Candidate;
    var table, skip := CompressedSearches(b);
    var k: nat := skip - 32;
    ProbeFirst(b.base);
    SearchBeforeRun(b, s, g, table, b.base, k);
  }
}
