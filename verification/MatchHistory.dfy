/** Which matches the compressor takes, told from the positions it has remembered, without its hash table. */
module MatchHistory {
  import opened Bytes
  import opened Elements
  import opened BlockSpec
  import opened BlockTheorems

  // ---- the schedule of the probes ----

  /** How far probe `k` lies behind the first one: the step grows by one byte every 32 probes. */
  function Reach(k: nat): nat {
    if k == 0 then 0 else Reach(k - 1) + (31 + k) / 32
  }

  /** 32 steps of one byte, 32 of two, and so on, added up. */
  lemma {:induction false} ReachExactly(q: nat, r: nat)
    requires r <= 32
    ensures Reach(32 * q + r) == 16 * q * (q + 1) + r * (q + 1)
    decreases q, r
  {
    hide Reach;
    if r > 0 {
      ReachExactly(q, r - 1);
      ReachNext(32 * q + (r - 1));
      OneStep(q, r);
    } else if q > 0 {
      ReachExactly(q - 1, 32);
      assert 16 * q * (q + 1) == 16 * (q - 1) * q + 32 * q;
    } else {
      ReachFirst();
    }
  }

  lemma OneStep(q: nat, r: nat)
    requires 0 < r <= 32
    ensures (32 + (32 * q + (r - 1))) / 32 == q + 1 && r * (q + 1) == (r - 1) * (q + 1) + (q + 1)
  {
  }

  lemma ReachFirst()
    ensures Reach(0) == 0
  {
  }

  lemma ReachNext(k: nat)
    ensures Reach(k + 1) == Reach(k) + (32 + k) / 32
  {
  }

  /** The position of probe `k` of the search that begins behind `from`. */
  function Probe(from: nat, k: nat): nat {
    from + 1 + Reach(k)
  }

  lemma ProbeNext(from: nat, k: nat)
    ensures Probe(from, k + 1) == Probe(from, k) + (32 + k) / 32 > Probe(from, k)
  {
    ReachNext(k);
  }

  lemma ProbeFirst(from: nat)
    ensures Probe(from, 0) == from + 1
  {
  }

  function Probes(from: nat, n: nat): (ps: seq<nat>)
    ensures |ps| == n && forall k :: 0 <= k < n ==> ps[k] == Probe(from, k)
  {
    seq(n, k requires 0 <= k => Probe(from, k))
  }

  lemma ProbesNext(h: seq<nat>, from: nat, n: nat)
    ensures h + Probes(from, n + 1) == h + Probes(from, n) + [Probe(from, n)]
  {
  }

  // ---- the position that was remembered last ----

  /** After remembering `p`, every position with its hash has the candidate `p`, and all others the one they had. */
  lemma RememberExact(b: Block, table: seq<uint16>, p: nat, q: nat)
    requires |table| == TABLE_ENTRIES && b.base <= p < b.base + 0x1_0000
    ensures b.Candidate(b.Remember(table, p), q) == if b.HashAt(q) == b.HashAt(p) then p else b.Candidate(table, q)
  {
    hide Hash;
  }

  /** The last position of `h` with this hash, or the start of the block. */
  function Last(b: Block, h: seq<nat>, hash: nat): (p: nat)
    decreases |h|
  {
    if h == [] then b.base
    else if b.HashAt(h[|h| - 1]) == hash then h[|h| - 1]
    else Last(b, h[..|h| - 1], hash)
  }

  lemma {:induction false} LastIsLatest(b: Block, h: seq<nat>, hash: nat) returns (k: nat)
    ensures k <= |h| && forall j :: k <= j < |h| ==> b.HashAt(h[j]) != hash
    ensures if k == 0 then Last(b, h, hash) == b.base else Last(b, h, hash) == h[k - 1] && b.HashAt(h[k - 1]) == hash
    decreases |h|
  {
    hide Hash;
    if h == [] {
      k := 0;
    } else if b.HashAt(h[|h| - 1]) == hash {
      k := |h|;
    } else {
      k := LastIsLatest(b, h[..|h| - 1], hash);
    }
  }

  /** The candidate for `q`: the low 16 bits of the distance of the last position with its hash. */
  function Lookup(b: Block, h: seq<nat>, q: nat): (c: nat)
    ensures b.base <= c
  {
    b.base + (Last(b, h, b.HashAt(q)) - b.base) % 0x1_0000
  }

  /** The table holds what the history says. */
  ghost predicate Holds(b: Block, table: seq<uint16>, h: seq<nat>) {
    && |table| == TABLE_ENTRIES
    && forall k: nat :: k < TABLE_ENTRIES ==> table[k] == (Last(b, h, k) - b.base) % 0x1_0000
  }

  lemma EmptyHolds(b: Block)
    ensures Holds(b, EmptyTable(), [])
  {
  }

  lemma RememberHolds(b: Block, table: seq<uint16>, h: seq<nat>, p: nat)
    requires Holds(b, table, h) && b.base <= p
    ensures Holds(b, b.Remember(table, p), h + [p])
  {
    hide Hash;
    assert (h + [p])[..|h|] == h;
  }

  /** The candidate of the hash table is the candidate of the history. */
  lemma CandidateIsLatest(b: Block, table: seq<uint16>, h: seq<nat>, q: nat)
    requires Holds(b, table, h)
    ensures b.Candidate(table, q) == Lookup(b, h, q)
  {
    hide Hash, Last;
  }

  // ---- one search ----

  /** The four bytes at `q` repeat those at the candidate. */
  predicate Hits(b: Block, h: seq<nat>, q: nat) {
    Read32(b.data, q) == Read32(b.data, Lookup(b, h, q))
  }

  /** Probe `k` of the search behind `from` hits: the probes before it have been remembered. */
  predicate ProbeHits(b: Block, h: seq<nat>, from: nat, k: nat) {
    Hits(b, h + Probes(from, k), Probe(from, k))
  }

  ghost predicate MissesBefore(b: Block, h: seq<nat>, from: nat, n: nat) {
    forall k :: 0 <= k < n ==> !ProbeHits(b, h, from, k)
  }

  /** Probe `n` is the first that hits, and the one after it does not lie beyond the limit. */
  ghost predicate FindsAt(b: Block, h: seq<nat>, from: nat, n: nat) {
    MissesBefore(b, h, from, n) && ProbeHits(b, h, from, n) && Probe(from, n + 1) <= b.Limit()
  }

  /** The probe after probe `n` is the first that lies beyond the limit, and none before probe `n` hits. */
  ghost predicate FindsNone(b: Block, h: seq<nat>, from: nat, n: nat) {
    && MissesBefore(b, h, from, n) && (n > 0 ==> Probe(from, n) <= b.Limit())
    && Probe(from, n + 1) > b.Limit()
  }

  /** What a search amounts to: the rest as a literal, or a literal and the copies behind it. */
  ghost predicate Outcome(b: Block, table: seq<uint16>, h: seq<nat>, from: nat, n: nat, stream: seq<byte>)
    requires b.Valid() && b.base <= from < b.end
  {
    || (FindsNone(b, h, from, n) && stream == b.Remainder(from))
    || (&& FindsAt(b, h, from, n) && Probe(from, n) < b.Limit()
        && Holds(b, table, h + Probes(from, n + 1))
        && from < Probe(from, n)
        && stream == b.Literal(from, Probe(from, n))
                     + b.Copies(table, Lookup(b, h + Probes(from, n), Probe(from, n)), Probe(from, n)))
  }

  lemma {:induction false} SearchFrom(b: Block, table: seq<uint16>, h: seq<nat>, from: nat, k: nat)
    returns (n: nat, table': seq<uint16>)
    requires b.Valid() && b.base <= from < Probe(from, k) <= b.end
    requires |table| == TABLE_ENTRIES && Holds(b, table, h + Probes(from, k))
    requires MissesBefore(b, h, from, k) && (k > 0 ==> Probe(from, k) <= b.Limit())
    ensures |table'| == TABLE_ENTRIES
    ensures Outcome(b, table', h, from, n, b.Search(table, from, Probe(from, k), 32 + k))
    decreases b.end - Probe(from, k)
  {
    hide Hash, Probe, Probes, Lookup, Holds, Read32, Outcome, FindsAt, FindsNone, MissesBefore, Hits;
    hide Block.Search, Block.Copies, Block.Remember, Block.Candidate, Block.Literal, Block.Remainder;
    var curr := Probe(from, k);
    SearchUnfolds(b, table, from, curr, 32 + k);
    ProbeNext(from, k);
    n, table' := k, table;
    if Probe(from, k + 1) > b.Limit() {
      NoneFound(b, table, h, from, k);
    } else {
      var h' := h + Probes(from, k);
      CandidateIsLatest(b, table, h', curr);
      RememberHolds(b, table, h', curr);
      ProbesNext(h, from, k);
      HitsExactly(b, h', curr);
      if Hits(b, h', curr) {
        table' := b.Remember(table, curr);
        OneFound(b, table', h, from, k);
      } else {
        MissesNext(b, h, from, k);
        n, table' := SearchFrom(b, b.Remember(table, curr), h, from, k + 1);
      }
    }
  }

  lemma HitsExactly(b: Block, h: seq<nat>, q: nat)
    ensures Hits(b, h, q) <==> Read32(b.data, q) == Read32(b.data, Lookup(b, h, q))
  {
  }

  lemma MissesNext(b: Block, h: seq<nat>, from: nat, k: nat)
    requires MissesBefore(b, h, from, k) && !ProbeHits(b, h, from, k)
    ensures MissesBefore(b, h, from, k + 1)
  {
    hide ProbeHits;
  }

  lemma NoneFound(b: Block, table: seq<uint16>, h: seq<nat>, from: nat, k: nat)
    requires b.Valid() && b.base <= from < b.end && MissesBefore(b, h, from, k)
    requires (k > 0 ==> Probe(from, k) <= b.Limit()) && Probe(from, k + 1) > b.Limit()
    ensures Outcome(b, table, h, from, k, b.Remainder(from))
  {
    hide ProbeHits, Probe, MissesBefore;
  }

  lemma OneFound(b: Block, table: seq<uint16>, h: seq<nat>, from: nat, k: nat)
    requires b.Valid() && b.base <= from < Probe(from, k) < b.Limit() && MissesBefore(b, h, from, k)
    requires ProbeHits(b, h, from, k) && Probe(from, k + 1) <= b.Limit()
    requires Holds(b, table, h + Probes(from, k + 1)) && |table| == TABLE_ENTRIES
    ensures Outcome(b, table, h, from, k,
                    b.Literal(from, Probe(from, k))
                    + b.Copies(table, Lookup(b, h + Probes(from, k), Probe(from, k)), Probe(from, k)))
  {
    hide ProbeHits, Probe, MissesBefore, Holds, Lookup, Block.Copies;
  }

  // ---- the whole block ----

  /** A copy: the bytes from `from` to `at` are a literal before it, if there are any. */
  datatype Match = Match(from: nat, at: nat, candidate: nat)

  /** The matches lie in order in the block, each where it can be measured. */
  ghost predicate Ordered(b: Block, from: nat, ms: seq<Match>)
    requires b.Valid()
    decreases |ms|
  {
    && b.base <= from <= b.end
    && (ms != [] ==>
          && ms[0].from == from <= ms[0].at < b.Limit()
          && Ordered(b, ms[0].at + b.Matched(ms[0].candidate, ms[0].at), ms[1..]))
  }

  /** What a block is written as: literals and copies, and the rest. */
  ghost function Written(b: Block, from: nat, ms: seq<Match>): seq<byte>
    requires b.Valid() && Ordered(b, from, ms)
    decreases |ms|
  {
    if ms == [] then b.Remainder(from)
    else
      var at, length := ms[0].at, b.Matched(ms[0].candidate, ms[0].at);
      (if from < at then b.Literal(from, at) else [])
      + (EmitCopy(b.Distance(ms[0].candidate, at), length) + Written(b, at + length, ms[1..]))
  }

  /** With the history `h`, a search begins behind `from`: `ms` are the matches from there on. */
  ghost predicate Searched(b: Block, h: seq<nat>, from: nat, ms: seq<Match>)
    requires b.Valid()
    decreases |ms|, 2
  {
    if ms == [] then exists n: nat :: FindsNone(b, h, from, n)
    else
      exists n: nat ::
        && FindsAt(b, h, from, n) && ms[0].from == from && ms[0].at == Probe(from, n)
        && ms[0].candidate == Lookup(b, h + Probes(from, n), ms[0].at)
        && Followed(b, h + Probes(from, n + 1), ms)
  }

  /** With the history `h`, the first of the matches `ms` is copied, and the others follow behind it. */
  ghost predicate Followed(b: Block, h: seq<nat>, ms: seq<Match>)
    requires b.Valid() && ms != []
    decreases |ms|, 1
  {
    && ms[0].at < b.Limit()
    && Continued(b, h, ms[0].at + b.Matched(ms[0].candidate, ms[0].at), ms[1..])
  }

  /** A copy has ended at `next`: the position before it is remembered, `next` is looked up and remembered, and the
      first of the matches `ms` begins right there or is searched for. */
  ghost predicate Continued(b: Block, h: seq<nat>, next: nat, ms: seq<Match>)
    requires b.Valid() && next > 0
    decreases |ms|, 3
  {
    if next >= b.Limit() then ms == []
    else if Hits(b, h + [next - 1], next) then
      && ms != [] && ms[0] == Match(next, next, Lookup(b, h + [next - 1], next))
      && Followed(b, h + [next - 1] + [next], ms)
    else Searched(b, h + [next - 1] + [next], next, ms)
  }

  lemma {:induction false} SearchIsWritten(b: Block, table: seq<uint16>, h: seq<nat>, from: nat)
    returns (ms: seq<Match>)
    requires b.Valid() && b.base <= from < b.end && |table| == TABLE_ENTRIES && Holds(b, table, h)
    ensures Ordered(b, from, ms) && Searched(b, h, from, ms)
    ensures b.Search(table, from, from + 1, 32) == Written(b, from, ms)
    decreases b.end - from, 1
  {
    hide Hash, Lookup, Holds, Read32, Hits, FindsAt, FindsNone, MissesBefore, Followed, Probe, EmitCopy;
    hide Block.Search, Block.Literal, Block.Copies, Block.Matched, Block.Remainder;
    assert h + Probes(from, 0) == h;
    ProbeFirst(from);
    assert MissesBefore(b, h, from, 0) by { NoMisses(b, h, from); }
    var n, table' := SearchFrom(b, table, h, from, 0);
    if FindsNone(b, h, from, n) && b.Search(table, from, from + 1, 32) == b.Remainder(from) {
      ms := [];
      NothingMore(b, from);
    } else {
      var at := Probe(from, n);
      var c := Lookup(b, h + Probes(from, n), at);
      ms := CopiesAreWritten(b, table', h + Probes(from, n + 1), from, at, c);
    }
  }

  lemma NoMisses(b: Block, h: seq<nat>, from: nat)
    ensures MissesBefore(b, h, from, 0)
  {
  }

  lemma {:induction false} CopiesAreWritten(b: Block, table: seq<uint16>, h: seq<nat>, from: nat, at: nat, c: nat)
    returns (ms: seq<Match>)
    requires b.Valid() && b.base <= from <= at < b.Limit() && b.base < at
    requires |table| == TABLE_ENTRIES && Holds(b, table, h)
    ensures ms != [] && ms[0] == Match(from, at, c) && Ordered(b, from, ms) && Followed(b, h, ms)
    ensures Written(b, from, ms) == (if from < at then b.Literal(from, at) else []) + b.Copies(table, c, at)
    decreases b.end - at, 0
  {
    hide Hash, Lookup, Holds, Read32, EmitCopy, Ordered, Followed, Written, Searched, Hits, Block.Matched;
    hide Block.Search, Block.Literal, Block.Remainder, Block.Copies, Block.AfterCopy, Block.Remember, Block.Candidate;
    var next := at + b.Matched(c, at);
    CopiesUnfolds(b, table, c, at);
    AfterCopyUnfolds(b, table, next);
    var rest: seq<Match> := [];
    if next < b.Limit() {
      var table1 := b.Remember(table, next - 1);
      var table2 := b.Remember(table1, next);
      var h1 := h + [next - 1];
      RememberHolds(b, table, h, next - 1);
      RememberHolds(b, table1, h1, next);
      CandidateIsLatest(b, table1, h1, next);
      HitsExactly(b, h1, next);
      if Hits(b, h1, next) {
        rest := CopiesAreWritten(b, table2, h1 + [next], next, next, Lookup(b, h1, next));
      } else {
        rest := SearchIsWritten(b, table2, h1 + [next], next);
      }
    } else {
      NothingMore(b, next);
    }
    ms := [Match(from, at, c)] + rest;
    OneMoreMatch(b, h, from, at, c, rest);
  }

  lemma NothingMore(b: Block, from: nat)
    requires b.Valid() && b.base <= from <= b.end
    ensures Ordered(b, from, []) && Written(b, from, []) == b.Remainder(from)
  {
  }

  lemma OneMoreMatch(b: Block, h: seq<nat>, from: nat, at: nat, c: nat, rest: seq<Match>)
    requires b.Valid() && b.base <= from <= at < b.Limit()
    requires var next := at + b.Matched(c, at); Ordered(b, next, rest) && Continued(b, h, next, rest)
    ensures var ms := [Match(from, at, c)] + rest; var length := b.Matched(c, at);
            && Ordered(b, from, ms) && Followed(b, h, ms)
            && Written(b, from, ms) == (if from < at then b.Literal(from, at) else [])
                                       + (EmitCopy(b.Distance(c, at), length) + Written(b, at + length, rest))
  {
    hide Continued, EmitCopy, Block.Literal, Block.Matched, Block.Remainder;
    assert ([Match(from, at, c)] + rest)[1..] == rest;
  }

  /** A block is written as the literals and copies that its own history of remembered positions determines: every probe
      of a search and the last two positions of every copy are remembered, a match is taken at the first probe of the
      schedule that repeats the four bytes at the last remembered position with its hash, and directly behind a copy. */
  lemma CompressedByHistory(b: Block) returns (ms: seq<Match>)
    requires b.Valid()
    ensures Ordered(b, b.base, ms) && Searched(b, [], b.base, ms) && b.Compressed() == Written(b, b.base, ms)
  {
    hide Ordered, Searched, Written, Holds, Block.Search;
    EmptyHolds(b);
    ms := SearchIsWritten(b, EmptyTable(), [], b.base);
  }

  // ---- the matches are determined by the input ----

  lemma {:induction false} ProbesAscend(from: nat, k: nat, n: nat)
    requires k <= n
    ensures Probe(from, k) <= Probe(from, n)
    decreases n
  {
    hide Probe;
    if k < n {
      ProbeNext(from, n - 1);
      ProbesAscend(from, k, n - 1);
    }
  }

  lemma FoundOnce(b: Block, h: seq<nat>, from: nat, n: nat, n': nat)
    requires FindsAt(b, h, from, n)
    ensures FindsAt(b, h, from, n') ==> n == n'
    ensures !FindsNone(b, h, from, n')
  {
    hide ProbeHits, Probe;
    if n >= n' { ProbesAscend(from, n' + 1, n + 1); }
  }

  /** There is only one sequence of matches that the history of a block allows. */
  lemma {:induction false} SearchedOnce(b: Block, h: seq<nat>, from: nat, ms: seq<Match>, ms': seq<Match>)
    requires b.Valid() && Searched(b, h, from, ms)
    ensures Searched(b, h, from, ms') ==> ms == ms'
    decreases |ms|, 1
  {
    hide Hits, Probe, Probes, Lookup, FindsAt, FindsNone, Followed;
    if Searched(b, h, from, ms') {
      if ms != [] {
        var n: nat :| && FindsAt(b, h, from, n) && ms[0].from == from && ms[0].at == Probe(from, n)
                      && ms[0].candidate == Lookup(b, h + Probes(from, n), ms[0].at)
                      && Followed(b, h + Probes(from, n + 1), ms);
        forall n': nat ensures !FindsNone(b, h, from, n') && (FindsAt(b, h, from, n') ==> n == n') {
          FoundOnce(b, h, from, n, n');
        }
        FollowedOnce(b, h + Probes(from, n + 1), ms, ms');
      } else {
        forall n: nat, n': nat | FindsNone(b, h, from, n) ensures !FindsAt(b, h, from, n') {
          if FindsAt(b, h, from, n') { FoundOnce(b, h, from, n', n); }
        }
      }
    }
  }

  lemma {:induction false} FollowedOnce(b: Block, h: seq<nat>, ms: seq<Match>, ms': seq<Match>)
    requires b.Valid() && ms != [] && ms' != [] && ms[0] == ms'[0] && Followed(b, h, ms)
    ensures Followed(b, h, ms') ==> ms == ms'
    decreases |ms|, 0
  {
    hide Continued, Block.Matched;
    ContinuedOnce(b, h, ms[0].at + b.Matched(ms[0].candidate, ms[0].at), ms[1..], ms'[1..]);
    assert ms == [ms[0]] + ms[1..] && ms' == [ms'[0]] + ms'[1..];
  }

  lemma {:induction false} ContinuedOnce(b: Block, h: seq<nat>, next: nat, ms: seq<Match>, ms': seq<Match>)
    requires b.Valid() && next > 0 && Continued(b, h, next, ms)
    ensures Continued(b, h, next, ms') ==> ms == ms'
    decreases |ms|, 2
  {
    hide Hits, Lookup, Searched, Followed;
    if Continued(b, h, next, ms') && next < b.Limit() {
      var h' := h + [next - 1] + [next];
      if Hits(b, h + [next - 1], next) {
        FollowedOnce(b, h', ms, ms');
      } else {
        SearchedOnce(b, h', next, ms, ms');
      }
    }
  }
}
