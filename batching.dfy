/**
 * What the top-level loop of sync.py does, stated on values: the lines of
 * the result file are numbered and turned into outcomes, `islice` cuts them
 * into chunks of `BatchSize`, each chunk's records form one batch, and a
 * reward that `int()` rejects ends the run. `RunFrom` is the loop as a
 * function; the lemmas below state what it hands to `sync_batch_to_db`.
 */
module Batching {
  import opened Wrappers
  import opened Records

  /** `batch_size`: the number of lines `islice` takes per chunk. */
  const BatchSize: nat := 1000

  function Min(a: int, b: int): int { if a <= b then a else b }

  /** The per-line step: a line and the number it was given. */
  type LineStep = (string, int) -> LineOutcome

  /**
   * The number the loop gives the first line of the file: the counter
   * starts at `lastLineNumber + 1` and is incremented before its first use.
   */
  function FirstLineNumber(lastLineNumber: int): (n: int)
    ensures n > lastLineNumber + 1
  {
    lastLineNumber + 2
  }

  // ---------------------------------------------------------------------
  // lines, outcomes and records

  /** What each line yields, the line at index `i` numbered `first + i`. */
  function Outcomes(lines: seq<string>, first: int, step: LineStep): (os: seq<LineOutcome>)
    ensures |os| == |lines|
  {
    if lines == [] then []
    else Outcomes(lines[..|lines| - 1], first, step) + [step(lines[|lines| - 1], first + |lines| - 1)]
  }

  /** The line at index `i` is handled with the number `first + i`. */
  lemma {:induction false} OutcomeAt(lines: seq<string>, first: int, step: LineStep, i: nat)
    requires i < |lines|
    ensures Outcomes(lines, first, step)[i] == step(lines[i], first + i)
    decreases |lines|
  {
    if i < |lines| - 1 {
      OutcomeAt(lines[..|lines| - 1], first, step, i);
    }
  }

  /** What one line contributes to its batch. */
  function Contribution(o: LineOutcome): seq<Record>
  {
    if o.Parsed? then [o.record] else []
  }

  /** The records of the lines with index in `[lo, hi)`, in file order. */
  function RecordsBetween(os: seq<LineOutcome>, lo: nat, hi: nat): seq<Record>
    requires lo <= hi <= |os|
    decreases hi - lo
  {
    if lo == hi then [] else RecordsBetween(os, lo, hi - 1) + Contribution(os[hi - 1])
  }

  /** No line with index in `[lo, hi)` has a reward `int()` rejects. */
  predicate NoBadRewardBetween(os: seq<LineOutcome>, lo: nat, hi: nat)
    requires lo <= hi <= |os|
  {
    forall i :: lo <= i < hi ==> !os[i].BadReward?
  }

  /** None of the first `n` lines has a reward `int()` rejects. */
  predicate NoBadRewardBefore(os: seq<LineOutcome>, n: nat)
    requires n <= |os|
  {
    NoBadRewardBetween(os, 0, n)
  }

  /** The index of the first line in `[lo, hi)` whose reward `int()` rejects. */
  function FirstBad(os: seq<LineOutcome>, lo: nat, hi: nat): (r: Option<nat>)
    requires lo <= hi <= |os|
    ensures r.None? <==> NoBadRewardBetween(os, lo, hi)
    ensures r.Some? ==> lo <= r.value < hi && os[r.value].BadReward? && NoBadRewardBetween(os, lo, r.value)
    decreases hi - lo
  {
    if lo == hi then None
    else if os[lo].BadReward? then Some(lo)
    else FirstBad(os, lo + 1, hi)
  }

  /** One more line: its record, if any, goes after the records before it. */
  lemma {:induction false} RecordsStep(os: seq<LineOutcome>, lo: nat, hi: nat,
                                       batch0: seq<Record>, batch: seq<Record>)
    requires lo <= hi < |os| && batch == batch0 + RecordsBetween(os, lo, hi)
    ensures os[hi].Parsed? ==> batch + [os[hi].record] == batch0 + RecordsBetween(os, lo, hi + 1)
    ensures os[hi].Dropped? ==> batch == batch0 + RecordsBetween(os, lo, hi + 1)
  {
    AppendAssoc(batch0, RecordsBetween(os, lo, hi), Contribution(os[hi]));
    assert RecordsBetween(os, lo, hi) + [] == RecordsBetween(os, lo, hi);
  }

  /** A rejected reward with none before it from `lo` is the first one. */
  lemma {:induction false} FirstBadIs(os: seq<LineOutcome>, lo: nat, hi: nat, b: nat)
    requires lo <= b < hi <= |os|
    requires os[b].BadReward? && NoBadRewardBetween(os, lo, b)
    ensures FirstBad(os, lo, hi) == Some(b)
  {
    var r := FirstBad(os, lo, hi);
    assert !(lo <= b < r.value);
  }

  lemma AppendAssoc<T>(a: seq<T>, b: seq<T>, c: seq<T>)
    ensures (a + b) + c == a + (b + c)
  {
  }

  // ---------------------------------------------------------------------
  // chunks, batches and the loop

  /** Index just past the chunk `islice` reads from index `pos`. */
  function ChunkEnd(n: nat, pos: nat): nat
  {
    Min(pos + BatchSize, n)
  }

  /** The batches of the chunks read from index `pos` on, one per chunk. */
  function BatchesFrom(os: seq<LineOutcome>, pos: nat): seq<seq<Record>>
    requires pos <= |os|
    decreases |os| - pos
  {
    if pos == |os| then []
    else [RecordsBetween(os, pos, ChunkEnd(|os|, pos))] + BatchesFrom(os, ChunkEnd(|os|, pos))
  }

  /** The batches of the whole file, one per chunk. */
  function Batches(os: seq<LineOutcome>): seq<seq<Record>>
  {
    BatchesFrom(os, 0)
  }

  /** `ceil(n / BatchSize)`: how many chunks `islice` cuts `n` lines into. */
  function NumChunks(n: nat): nat
  {
    (n + BatchSize - 1) / BatchSize
  }

  /** The run reached the end of the file, or `int()` raised on the line with the given number. */
  datatype RunOutcome = Completed | Aborted(lineNumber: int)

  /** Every argument handed to `sync_batch_to_db`, in order, and how the run ended. */
  datatype RunResult = RunResult(calls: seq<seq<Record>>, outcome: RunOutcome)

  /**
   * The loop of sync.py from the line with index `pos` on, with `batch`
   * pending and `calls` made so far: at the end of the file the final call
   * hands over `batch`; otherwise the next chunk either holds a rejected
   * reward, which ends the run with that line's number, or its records are
   * appended to `batch`, which is handed over and reset.
   */
  function RunFrom(os: seq<LineOutcome>, first: int, pos: nat, batch: seq<Record>,
                   calls: seq<seq<Record>>): RunResult
    requires pos <= |os|
    decreases |os| - pos
  {
    if pos == |os| then RunResult(calls + [batch], Completed)
    else
      var end := ChunkEnd(|os|, pos);
      match FirstBad(os, pos, end)
      case Some(b) => RunResult(calls, Aborted(first + b))
      case None => RunFrom(os, first, end, [], calls + [batch + RecordsBetween(os, pos, end)])
  }

  /** The whole run over the outcomes of a file whose first line is numbered `first`. */
  function Run(os: seq<LineOutcome>, first: int): RunResult
  {
    RunFrom(os, first, 0, [], [])
  }

  /** The concatenation of batches. */
  function Flatten(bs: seq<seq<Record>>): seq<Record>
  {
    if bs == [] then [] else bs[0] + Flatten(bs[1..])
  }

  /** The batches that get past the `if not batch: return` guard. */
  function NonEmpty(bs: seq<seq<Record>>): seq<seq<Record>>
  {
    if bs == [] then []
    else (if bs[0] == [] then [] else [bs[0]]) + NonEmpty(bs[1..])
  }

  /**
   * The run stopped at the line with index `b`: its reward was rejected,
   * no earlier one was, and `calls` are the batches of the chunks before
   * the one holding that line.
   */
  ghost predicate StoppedAt(os: seq<LineOutcome>, b: int, calls: seq<seq<Record>>)
  {
    && 0 <= b < |os|
    && os[b].BadReward?
    && NoBadRewardBefore(os, b)
    && |calls| == b / BatchSize
    && calls <= Batches(os)
  }

  /** The lines of a chunk yield the outcomes of their places in the file. */
  lemma {:induction false} ChunkOutcomes(lines: seq<string>, first: int, step: LineStep, lo: nat, hi: nat)
    requires lo <= hi <= |lines|
    ensures forall j :: 0 <= j < hi - lo ==>
      Outcomes(lines, first, step)[lo + j] == step(lines[lo..hi][j], first + lo + j)
  {
    forall j | 0 <= j < hi - lo
      ensures Outcomes(lines, first, step)[lo + j] == step(lines[lo..hi][j], first + lo + j)
    {
      OutcomeAt(lines, first, step, lo + j);
    }
  }

  /** The guard drops an empty batch and keeps a non-empty one. */
  lemma {:induction false} NonEmptySnoc(bs: seq<seq<Record>>, b: seq<Record>)
    ensures NonEmpty(bs + [b]) == NonEmpty(bs) + (if b == [] then [] else [b])
    decreases |bs|
  {
    if bs == [] {
      assert [] + [b] == [b];
      assert [b][1..] == [];
    } else {
      assert (bs + [b])[0] == bs[0];
      assert (bs + [b])[1..] == bs[1..] + [b];
      NonEmptySnoc(bs[1..], b);
    }
  }

  /** A chunk without a rejected reward hands over the pending batch with its records. */
  lemma {:induction false} RunFromSynced(os: seq<LineOutcome>, first: int, pos: nat, end: nat,
                                         batch: seq<Record>, calls: seq<seq<Record>>, handed: seq<Record>)
    requires pos < |os| && end == ChunkEnd(|os|, pos)
    requires FirstBad(os, pos, end).None? && handed == batch + RecordsBetween(os, pos, end)
    ensures RunFrom(os, first, pos, batch, calls) == RunFrom(os, first, end, [], calls + [handed])
  {
  }

  /** A chunk with a rejected reward ends the run with that line's number. */
  lemma {:induction false} RunFromFailed(os: seq<LineOutcome>, first: int, pos: nat, end: nat,
                                         batch: seq<Record>, calls: seq<seq<Record>>, b: nat)
    requires pos < |os| && end == ChunkEnd(|os|, pos)
    requires FirstBad(os, pos, end) == Some(b)
    ensures RunFrom(os, first, pos, batch, calls) == RunResult(calls, Aborted(first + b))
  {
  }

  /** At the end of the file the final call hands over the pending batch. */
  lemma {:induction false} RunFromEnd(os: seq<LineOutcome>, first: int, batch: seq<Record>, calls: seq<seq<Record>>)
    ensures RunFrom(os, first, |os|, batch, calls) == RunResult(calls + [batch], Completed)
  {
  }

  // ---------------------------------------------------------------------
  // what the run hands over

  lemma EmptyAppend<T>(a: seq<T>)
    ensures [] + a == a
  {
  }

  /** A run from `pos` completes exactly when no later line has a rejected reward. */
  lemma {:induction false} RunFromCompletes(os: seq<LineOutcome>, first: int, pos: nat,
                                            batch: seq<Record>, calls: seq<seq<Record>>)
    requires pos <= |os|
    ensures RunFrom(os, first, pos, batch, calls).outcome.Completed? <==> NoBadRewardBetween(os, pos, |os|)
    decreases |os| - pos
  {
    if pos < |os| {
      var end := ChunkEnd(|os|, pos);
      if FirstBad(os, pos, end).None? {
        RunFromCompletes(os, first, end, [], calls + [batch + RecordsBetween(os, pos, end)]);
      }
    }
  }

  /** A completed run from `pos` hands over the batch of every later chunk, then an empty batch. */
  lemma {:induction false} RunFromCalls(os: seq<LineOutcome>, first: int, pos: nat, calls: seq<seq<Record>>)
    requires pos <= |os|
    ensures var r := RunFrom(os, first, pos, [], calls);
      r.outcome.Completed? ==> r.calls == calls + BatchesFrom(os, pos) + [[]]
    decreases |os| - pos
  {
    if pos < |os| {
      var end := ChunkEnd(|os|, pos);
      if FirstBad(os, pos, end).None? {
        var b := RecordsBetween(os, pos, end);
        EmptyAppend(b);
        RunFromCalls(os, first, end, calls + [b]);
        assert BatchesFrom(os, pos) == [b] + BatchesFrom(os, end);
        AppendAssoc(calls, [b], BatchesFrom(os, end));
      }
    } else {
      assert calls + [] == calls;
    }
  }

  lemma PrefixIsSlice<T>(a: seq<T>, b: seq<T>)
    requires a <= b
    ensures a == b[..|a|]
  {
  }

  lemma PrefixOfAppend<T>(a: seq<T>, b: seq<T>)
    ensures a <= a + b
  {
    assert (a + b)[..|a|] == a;
  }

  /**
   * A run from the chunk at `pos` that `int()` stops at the line with index
   * `b` does so at the first rejected reward after `pos`, and has handed
   * over the batches of the complete chunks before `b`.
   */
  lemma {:induction false} RunFromAborts(os: seq<LineOutcome>, first: int, pos: nat,
                                         calls: seq<seq<Record>>, b: int)
    requires pos <= |os|
    requires RunFrom(os, first, pos, [], calls).outcome == Aborted(first + b)
    ensures pos <= b < |os| && os[b].BadReward? && NoBadRewardBetween(os, pos, b)
    ensures |RunFrom(os, first, pos, [], calls).calls| == |calls| + (b - pos) / BatchSize
    ensures RunFrom(os, first, pos, [], calls).calls <= calls + BatchesFrom(os, pos)
    decreases |os| - pos
  {
    var end := ChunkEnd(|os|, pos);
    var rest := BatchesFrom(os, end);
    assert BatchesFrom(os, pos) == [RecordsBetween(os, pos, end)] + rest;
    match FirstBad(os, pos, end)
    case Some(_) =>
      PrefixOfAppend(calls, BatchesFrom(os, pos));
    case None =>
      var bt := RecordsBetween(os, pos, end);
      EmptyAppend(bt);
      RunFromAborts(os, first, end, calls + [bt], b);
      AppendAssoc(calls, [bt], rest);
  }

  /** The run completes exactly when no line of the file has a rejected reward. */
  lemma {:induction false} RunCompletes(os: seq<LineOutcome>, first: int,
                                        calls: seq<seq<Record>>, outcome: RunOutcome)
    requires RunResult(calls, outcome) == Run(os, first)
    ensures outcome.Completed? <==> NoBadRewardBefore(os, |os|)
  {
    RunFromCompletes(os, first, 0, [], []);
  }

  /** A completed run hands over the batch of every chunk, in file order, and then an empty batch. */
  lemma {:induction false} RunCompletedCalls(os: seq<LineOutcome>, first: int,
                                             calls: seq<seq<Record>>, outcome: RunOutcome)
    requires RunResult(calls, outcome) == Run(os, first)
    ensures outcome.Completed? ==> calls == Batches(os) + [[]]
  {
    RunFromCalls(os, first, 0, []);
    EmptyAppend(BatchesFrom(os, 0));
  }

  /**
   * A stopped run stops at the first rejected reward, having handed over
   * the batches of the chunks before that line's chunk.
   */
  lemma {:induction false} RunAbortedStops(os: seq<LineOutcome>, first: int,
                                           calls: seq<seq<Record>>, outcome: RunOutcome)
    requires RunResult(calls, outcome) == Run(os, first)
    ensures outcome.Aborted? ==> StoppedAt(os, outcome.lineNumber - first, calls)
  {
    if outcome.Aborted? {
      RunFromAborts(os, first, 0, [], outcome.lineNumber - first);
      EmptyAppend(BatchesFrom(os, 0));
    }
  }

  // ---------------------------------------------------------------------
  // records, chunks and batches

  /** A range of lines yields at most one record per line. */
  lemma {:induction false} RecordsBetweenLength(os: seq<LineOutcome>, lo: nat, hi: nat)
    requires lo <= hi <= |os|
    ensures |RecordsBetween(os, lo, hi)| <= hi - lo
    decreases hi - lo
  {
    if lo < hi {
      RecordsBetweenLength(os, lo, hi - 1);
    }
  }

  /** The records of two adjacent ranges of lines are the records of their union. */
  lemma {:induction false} RecordsBetweenSplit(os: seq<LineOutcome>, lo: nat, mid: nat, hi: nat)
    requires lo <= mid <= hi <= |os|
    ensures RecordsBetween(os, lo, mid) + RecordsBetween(os, mid, hi) == RecordsBetween(os, lo, hi)
    decreases hi - mid
  {
    if mid < hi {
      RecordsBetweenSplit(os, lo, mid, hi - 1);
      AppendAssoc(RecordsBetween(os, lo, mid), RecordsBetween(os, mid, hi - 1), Contribution(os[hi - 1]));
    } else {
      assert RecordsBetween(os, lo, mid) + [] == RecordsBetween(os, lo, mid);
    }
  }

  /** From `pos` on there is one batch per chunk: `ceil((|os| - pos) / BatchSize)` of them. */
  lemma {:induction false} BatchesFromCount(os: seq<LineOutcome>, pos: nat)
    requires pos <= |os|
    ensures |BatchesFrom(os, pos)| == NumChunks(|os| - pos)
    decreases |os| - pos
  {
    if pos < |os| {
      BatchesFromCount(os, ChunkEnd(|os|, pos));
    }
  }

  /** A file of `n` lines is handed over in `ceil(n / BatchSize)` batches, one per chunk. */
  lemma {:induction false} BatchCount(os: seq<LineOutcome>)
    ensures |Batches(os)| == NumChunks(|os|)
  {
    BatchesFromCount(os, 0);
  }

  /** No batch from `pos` on holds more than `BatchSize` records. */
  lemma {:induction false} BatchesFromSize(os: seq<LineOutcome>, pos: nat)
    requires pos <= |os|
    ensures forall i :: 0 <= i < |BatchesFrom(os, pos)| ==> |BatchesFrom(os, pos)[i]| <= BatchSize
    decreases |os| - pos
  {
    if pos < |os| {
      var end := ChunkEnd(|os|, pos);
      var rest := BatchesFrom(os, end);
      assert BatchesFrom(os, pos) == [RecordsBetween(os, pos, end)] + rest;
      RecordsBetweenLength(os, pos, end);
      BatchesFromSize(os, end);
      forall i | 1 <= i < |BatchesFrom(os, pos)|
        ensures |BatchesFrom(os, pos)[i]| <= BatchSize
      {
        assert BatchesFrom(os, pos)[i] == rest[i - 1];
      }
    }
  }

  /** No batch holds more than `batch_size` records. */
  lemma {:induction false} BatchSizeBound(os: seq<LineOutcome>)
    ensures forall i :: 0 <= i < |Batches(os)| ==> |Batches(os)[i]| <= BatchSize
  {
    BatchesFromSize(os, 0);
  }

  /** The batches from `pos` on, concatenated, are the records from `pos` on. */
  lemma {:induction false} FlattenBatchesFrom(os: seq<LineOutcome>, pos: nat)
    requires pos <= |os|
    ensures Flatten(BatchesFrom(os, pos)) == RecordsBetween(os, pos, |os|)
    decreases |os| - pos
  {
    if pos < |os| {
      var end := ChunkEnd(|os|, pos);
      var bs := BatchesFrom(os, pos);
      assert bs == [RecordsBetween(os, pos, end)] + BatchesFrom(os, end);
      assert bs[1..] == BatchesFrom(os, end);
      FlattenBatchesFrom(os, end);
      RecordsBetweenSplit(os, pos, end, |os|);
    }
  }

  /** The batches, concatenated, are the records of the whole file in file order. */
  lemma {:induction false} FlattenBatches(os: seq<LineOutcome>)
    ensures Flatten(Batches(os)) == RecordsBetween(os, 0, |os|)
  {
    FlattenBatchesFrom(os, 0);
  }

  /** The first `k` batches from `pos`, when they are complete chunks, hold the records of their `k * BatchSize` lines. */
  lemma {:induction false} FlattenFullChunks(os: seq<LineOutcome>, pos: nat, k: nat)
    requires pos + k * BatchSize <= |os|
    ensures k <= |BatchesFrom(os, pos)|
    ensures Flatten(BatchesFrom(os, pos)[..k]) == RecordsBetween(os, pos, pos + k * BatchSize)
    decreases k
  {
    BatchesFromCount(os, pos);
    if k > 0 {
      var end := pos + BatchSize;
      var bs := BatchesFrom(os, pos);
      var rest := BatchesFrom(os, end);
      assert ChunkEnd(|os|, pos) == end;
      assert bs == [RecordsBetween(os, pos, end)] + rest;
      FlattenFullChunks(os, end, k - 1);
      assert bs[..k] == [RecordsBetween(os, pos, end)] + rest[..k - 1];
      assert bs[..k][1..] == rest[..k - 1];
      RecordsBetweenSplit(os, pos, end, pos + k * BatchSize);
    }
  }

  /** Concatenation distributes over appending sequences of batches. */
  lemma {:induction false} FlattenAppend(a: seq<seq<Record>>, b: seq<seq<Record>>)
    ensures Flatten(a + b) == Flatten(a) + Flatten(b)
    decreases |a|
  {
    if a == [] {
      assert a + b == b;
    } else {
      assert (a + b)[0] == a[0];
      assert (a + b)[1..] == a[1..] + b;
      FlattenAppend(a[1..], b);
      AppendAssoc(a[0], Flatten(a[1..]), Flatten(b));
    }
  }

  /** Dropping the empty batches, as the guard of `sync_batch_to_db` does, loses no record. */
  lemma {:induction false} FlattenNonEmpty(bs: seq<seq<Record>>)
    ensures Flatten(NonEmpty(bs)) == Flatten(bs)
    decreases |bs|
  {
    if bs != [] {
      var head := if bs[0] == [] then [] else [bs[0]];
      FlattenNonEmpty(bs[1..]);
      FlattenAppend(head, NonEmpty(bs[1..]));
      if bs[0] != [] {
        assert [bs[0]][1..] == [];
      }
    }
  }

  /**
   * A completed run makes one call per chunk and one final call with an
   * empty batch, and the non-empty batches handed to `sync_batch_to_db`
   * hold every record of the file, in file order.
   */
  lemma {:induction false} RunCompletedWritesAll(os: seq<LineOutcome>, first: int,
                                                 calls: seq<seq<Record>>, outcome: RunOutcome)
    requires RunResult(calls, outcome) == Run(os, first)
    ensures outcome.Completed? ==>
      && |calls| == NumChunks(|os|) + 1
      && calls[|calls| - 1] == []
      && Flatten(NonEmpty(calls)) == RecordsBetween(os, 0, |os|)
  {
    if outcome.Completed? {
      RunCompletedCalls(os, first, calls, outcome);
      BatchCount(os);
      FlattenNonEmpty(calls);
      FlattenAppend(Batches(os), [[]]);
      assert Flatten([[]]) == [];
      FlattenBatches(os);
    }
  }

  /**
   * A stopped run has handed to `sync_batch_to_db` exactly the records of
   * the complete chunks before the one holding the rejected line; that
   * chunk's records are never handed over.
   */
  lemma {:induction false} RunAbortedWrites(os: seq<LineOutcome>, first: int,
                                            calls: seq<seq<Record>>, outcome: RunOutcome)
    requires RunResult(calls, outcome) == Run(os, first)
    ensures outcome.Aborted? ==>
      var b := outcome.lineNumber - first;
      0 <= b < |os| && Flatten(NonEmpty(calls)) == RecordsBetween(os, 0, b / BatchSize * BatchSize)
  {
    if outcome.Aborted? {
      var b := outcome.lineNumber - first;
      var k := b / BatchSize;
      RunAbortedStops(os, first, calls, outcome);
      ChunkStart(b);
      PrefixIsSlice(calls, Batches(os));
      assert calls == Batches(os)[..k];
      CompleteChunksWritten(os, k);
    }
  }

  /** The first line of the chunk holding the line with index `b`. */
  lemma ChunkStart(b: nat)
    ensures b / BatchSize * BatchSize <= b
  {
  }

  /** `FlattenFullChunks` from the first line of the file. */
  lemma {:induction false} FullChunksFromStart(os: seq<LineOutcome>, k: nat)
    requires k * BatchSize <= |os|
    ensures k <= |Batches(os)|
    ensures Flatten(Batches(os)[..k]) == RecordsBetween(os, 0, k * BatchSize)
  {
    FlattenFullChunks(os, 0, k);
  }

  /**
   * The first `k` batches, when they are complete chunks, are handed to
   * `sync_batch_to_db` as the records of their lines.
   */
  lemma {:induction false} CompleteChunksWritten(os: seq<LineOutcome>, k: nat)
    requires k * BatchSize <= |os|
    ensures k <= |Batches(os)|
    ensures Flatten(NonEmpty(Batches(os)[..k])) == RecordsBetween(os, 0, k * BatchSize)
  {
    FullChunksFromStart(os, k);
    FlattenNonEmpty(Batches(os)[..k]);
  }

  // ---------------------------------------------------------------------
  // line numbers

  /** Every record carries the number of the line it came from, the line at index `i` being numbered `first + i`. */
  ghost predicate NumberedFrom(os: seq<LineOutcome>, first: int)
  {
    forall i :: 0 <= i < |os| && os[i].Parsed? ==> os[i].record.lineNumber == first + i
  }

  /** `ParseLine` keeps the number it is given, so the loop numbers the line at index `i` as `first + i`. */
  lemma {:induction false} ParseLineNumbers(lines: seq<string>, first: int)
    ensures NumberedFrom(Outcomes(lines, first, ParseLine), first)
  {
    forall i | 0 <= i < |lines| && Outcomes(lines, first, ParseLine)[i].Parsed?
      ensures Outcomes(lines, first, ParseLine)[i].record.lineNumber == first + i
    {
      OutcomeAt(lines, first, ParseLine, i);
    }
  }

  /**
   * The records of the lines in `[lo, hi)` carry numbers in
   * `[first + lo, first + hi)`, strictly increasing in file order.
   */
  lemma {:induction false} RecordNumbers(os: seq<LineOutcome>, first: int, lo: nat, hi: nat)
    requires lo <= hi <= |os| && NumberedFrom(os, first)
    ensures forall k :: 0 <= k < |RecordsBetween(os, lo, hi)| ==>
      first + lo <= RecordsBetween(os, lo, hi)[k].lineNumber < first + hi
    ensures forall k, l :: 0 <= k < l < |RecordsBetween(os, lo, hi)| ==>
      RecordsBetween(os, lo, hi)[k].lineNumber < RecordsBetween(os, lo, hi)[l].lineNumber
    decreases hi - lo
  {
    if lo < hi {
      RecordNumbers(os, first, lo, hi - 1);
      var before := RecordsBetween(os, lo, hi - 1);
      var rs := RecordsBetween(os, lo, hi);
      assert rs == before + Contribution(os[hi - 1]);
      assert forall k :: 0 <= k < |before| ==> rs[k] == before[k];
      assert forall k :: |before| <= k < |rs| ==> rs[k] == os[hi - 1].record && rs[k].lineNumber == first + hi - 1;
      forall k, l | 0 <= k < l < |rs|
        ensures rs[k].lineNumber < rs[l].lineNumber
      {
        if l < |before| {
          assert rs[k].lineNumber == before[k].lineNumber;
        }
      }
    }
  }
}
