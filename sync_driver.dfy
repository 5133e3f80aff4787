/**
 * The top-level loop of sync.py: read the result file in chunks of at most
 * `BatchSize` lines, number every line, append the records of the
 * well-formed ones to `batch`, hand `batch` to `sync_batch_to_db` after
 * each chunk and reset it, and make one more call after the file is
 * exhausted.
 *
 * Each method is proved against `Batching.RunFrom`, which states the same
 * loop on values; what the run hands over is proved about `RunFrom` in
 * `Batching`. The loop is verified once for an arbitrary per-line step
 * (`RunSyncWith`) and then used with the step of sync.py (`RunSync`).
 */
module SyncDriver {
  import opened Wrappers
  import opened Records
  import opened Batching
  import opened Resume

  /** `sync_batch_to_db` seen from the loop: it keeps every non-empty batch it is given. */
  class BatchSink {
    var written: seq<seq<Record>>

    constructor ()
      ensures written == []
    {
      written := [];
    }

    method SyncBatch(batch: seq<Record>)
      modifies this
      ensures written == old(written) + (if batch == [] then [] else [batch])
    {
      if batch == [] {
        assert old(written) + [] == old(written);
        return;
      }
      written := written + [batch];
    }
  }

  /**
   * The inner `for` loop of sync.py over one chunk whose first line has
   * index `pos` in the file, appending to `batch0`. Either every line of
   * the chunk is handled, none had a rejected reward and `batch` has gained
   * their records, or `failed` and `currentLine` is the number of the first
   * line whose reward `int()` rejected.
   */
  method ReadChunk(chunk: seq<string>, lastLineNumber: int, currentLine0: int, step: LineStep,
                   batch0: seq<Record>, ghost os: seq<LineOutcome>, ghost pos: nat)
    returns (batch: seq<Record>, currentLine: int, failed: bool)
    requires currentLine0 == lastLineNumber + 1 + pos
    requires pos + |chunk| <= |os|
    requires forall j :: 0 <= j < |chunk| ==> os[pos + j] == step(chunk[j], currentLine0 + 1 + j)
    ensures !failed ==>
      && currentLine == currentLine0 + |chunk|
      && batch == batch0 + RecordsBetween(os, pos, pos + |chunk|)
      && FirstBad(os, pos, pos + |chunk|).None?
    ensures failed ==> FirstBad(os, pos, pos + |chunk|) == Some(pos + currentLine - currentLine0 - 1)
  {
    batch := batch0;
    currentLine := currentLine0;
    for j := 0 to |chunk|
      invariant currentLine == currentLine0 + j
      invariant batch == batch0 + RecordsBetween(os, pos, pos + j)
      invariant NoBadRewardBetween(os, pos, pos + j)
    {
      currentLine := currentLine + 1;
      assert currentLine > lastLineNumber;  // so the skip below never fires
      if currentLine <= lastLineNumber {
        continue;
      }
      var outcome := step(chunk[j], currentLine);
      assert outcome == os[pos + j];
      RecordsStep(os, pos, pos + j, batch0, batch);
      match outcome
      case BadReward =>
        FirstBadIs(os, pos, pos + |chunk|, pos + j);
        failed := true;
        return;
      case Parsed(r) =>
        batch := batch + [r];
      case Dropped =>
    }
    failed := false;
  }

  /** How one pass of the outer loop ended. */
  datatype ChunkResult = EndOfFile | Failed | Synced

  /**
   * The body of one pass of the outer loop of sync.py over a non-empty
   * chunk whose first line has index `pos0` in the file: run the inner
   * loop over its lines, then hand the batch to `sync_batch_to_db` and
   * reset it, a call that `int()` raising skips.
   */
  method SyncChunk(chunk: seq<string>, lastLineNumber: int, step: LineStep, sink: BatchSink,
                   pos0: nat, currentLine0: int, batch0: seq<Record>, calls0: seq<seq<Record>>,
                   ghost os: seq<LineOutcome>, ghost written0: seq<seq<Record>>)
    returns (result: ChunkResult, pos: nat, currentLine: int, batch: seq<Record>, calls: seq<seq<Record>>)
    modifies sink
    requires pos0 < |os| && pos0 + |chunk| == ChunkEnd(|os|, pos0)
    requires currentLine0 == lastLineNumber + 1 + pos0
    requires forall j :: 0 <= j < |chunk| ==> os[pos0 + j] == step(chunk[j], currentLine0 + 1 + j)
    requires sink.written == written0 + NonEmpty(calls0)
    ensures sink.written == written0 + NonEmpty(calls)
    ensures var expected := RunFrom(os, FirstLineNumber(lastLineNumber), pos0, batch0, calls0);
      && !result.EndOfFile?
      && (result.Synced? ==>
            && pos == pos0 + |chunk| && currentLine == lastLineNumber + 1 + pos
            && RunFrom(os, FirstLineNumber(lastLineNumber), pos, batch, calls) == expected)
      && (result.Failed? ==> RunResult(calls, Aborted(currentLine)) == expected)
  {
    ghost var first := FirstLineNumber(lastLineNumber);
    var failed;
    batch, currentLine, failed := ReadChunk(chunk, lastLineNumber, currentLine0, step, batch0, os, pos0);
    if failed {
      RunFromFailed(os, first, pos0, pos0 + |chunk|, batch0, calls0, pos0 + currentLine - currentLine0 - 1);
      return Failed, pos0, currentLine, batch, calls0;
    }
    RunFromSynced(os, first, pos0, pos0 + |chunk|, batch0, calls0, batch);
    sink.SyncBatch(batch);
    NonEmptySnoc(calls0, batch);
    AppendAssoc(written0, NonEmpty(calls0), if batch == [] then [] else [batch]);
    calls := calls0 + [batch];
    batch := [];
    pos := pos0 + |chunk|;
    result := Synced;
  }

  /**
   * One pass of the outer loop of sync.py: `islice` the next chunk; if it
   * is empty, stop; otherwise handle it. `written0` is what the sink held
   * before the run began.
   */
  method SyncNextChunk(lines: seq<string>, lastLineNumber: int, step: LineStep, sink: BatchSink,
                       pos0: nat, currentLine0: int, batch0: seq<Record>, calls0: seq<seq<Record>>,
                       ghost written0: seq<seq<Record>>)
    returns (result: ChunkResult, pos: nat, currentLine: int, batch: seq<Record>, calls: seq<seq<Record>>)
    modifies sink
    requires pos0 <= |lines| && currentLine0 == lastLineNumber + 1 + pos0
    requires sink.written == written0 + NonEmpty(calls0)
    ensures sink.written == written0 + NonEmpty(calls)
    ensures var os := Outcomes(lines, FirstLineNumber(lastLineNumber), step);
      var expected := RunFrom(os, FirstLineNumber(lastLineNumber), pos0, batch0, calls0);
      && (result.EndOfFile? ==> pos0 == |lines| && batch == batch0 && calls == calls0)
      && (result.Synced? ==>
            && pos0 < pos <= |lines| && currentLine == lastLineNumber + 1 + pos
            && RunFrom(os, FirstLineNumber(lastLineNumber), pos, batch, calls) == expected)
      && (result.Failed? ==> RunResult(calls, Aborted(currentLine)) == expected)
  {
    var chunk := lines[pos0..Min(pos0 + BatchSize, |lines|)];
    if chunk == [] {
      return EndOfFile, pos0, currentLine0, batch0, calls0;
    }
    ghost var os := Outcomes(lines, FirstLineNumber(lastLineNumber), step);
    ChunkOutcomes(lines, FirstLineNumber(lastLineNumber), step, pos0, pos0 + |chunk|);
    result, pos, currentLine, batch, calls :=
      SyncChunk(chunk, lastLineNumber, step, sink, pos0, currentLine0, batch0, calls0, os, written0);
  }

  /**
   * The loop of sync.py over the file's `lines`, resuming after
   * `lastLineNumber`, with `step` for the body of the per-line branch.
   * `calls` is the sequence of arguments handed to `sync_batch_to_db`;
   * the run is `Batching.Run`, whose properties the lemmas of `Batching` state.
   */
  method RunSyncWith(lines: seq<string>, lastLineNumber: int, sink: BatchSink, step: LineStep)
    returns (calls: seq<seq<Record>>, outcome: RunOutcome)
    modifies sink
    ensures sink.written == old(sink.written) + NonEmpty(calls)
    ensures RunResult(calls, outcome) == Run(Outcomes(lines, FirstLineNumber(lastLineNumber), step),
                                             FirstLineNumber(lastLineNumber))
  {
    ghost var first := FirstLineNumber(lastLineNumber);
    ghost var os := Outcomes(lines, first, step);
    ghost var written0 := sink.written;
    calls := [];
    var batch: seq<Record> := [];
    var currentLine := lastLineNumber + 1;
    var pos: nat := 0;
    assert written0 + [] == written0;
    while true
      invariant pos <= |lines| && currentLine == lastLineNumber + 1 + pos
      invariant RunFrom(os, first, pos, batch, calls) == Run(os, first)
      invariant sink.written == written0 + NonEmpty(calls)
      decreases |lines| - pos
    {
      var result;
      result, pos, currentLine, batch, calls :=
        SyncNextChunk(lines, lastLineNumber, step, sink, pos, currentLine, batch, calls, written0);
      if result.EndOfFile? {
        break;
      } else if result.Failed? {
        outcome := Aborted(currentLine);
        return;
      }
    }
    RunFromEnd(os, first, batch, calls);
    sink.SyncBatch(batch);
    NonEmptySnoc(calls, batch);
    AppendAssoc(written0, NonEmpty(calls), if batch == [] then [] else [batch]);
    calls := calls + [batch];
    outcome := Completed;
  }

  /**
   * The loop of sync.py with its own per-line step, `Records.ParseLine`:
   * its calls and outcome are those of `Batching.Run`, about which
   * `Batching.RunCompletes`, `Batching.RunCompletedCalls` and
   * `Batching.RunAbortedStops` state what the run hands over.
   */
  method RunSync(lines: seq<string>, lastLineNumber: int, sink: BatchSink)
    returns (calls: seq<seq<Record>>, outcome: RunOutcome)
    modifies sink
    ensures sink.written == old(sink.written) + NonEmpty(calls)
    ensures RunResult(calls, outcome) == Run(Outcomes(lines, FirstLineNumber(lastLineNumber), ParseLine),
                                             FirstLineNumber(lastLineNumber))
  {
    calls, outcome := RunSyncWith(lines, lastLineNumber, sink, ParseLine);
  }

  /**
   * Resuming from `get_last_line_number()` over the caller's existing line
   * numbers: every record the file yields is numbered above the resume
   * point and above every line number the caller already has, and the
   * numbers increase in file order.
   */
  lemma {:induction false} ResumedRecordsAreNew(lines: seq<string>, existing: seq<int>)
    ensures var last := ResumePoint(SelectMax(existing));
      var rs := RecordsBetween(Outcomes(lines, FirstLineNumber(last), ParseLine), 0, |lines|);
      && (forall k :: 0 <= k < |rs| ==> last < rs[k].lineNumber)
      && (forall k, e :: 0 <= k < |rs| && e in existing ==> e < rs[k].lineNumber)
      && (forall k, l :: 0 <= k < l < |rs| ==> rs[k].lineNumber < rs[l].lineNumber)
  {
    var last := ResumePoint(SelectMax(existing));
    var os := Outcomes(lines, FirstLineNumber(last), ParseLine);
    ParseLineNumbers(lines, FirstLineNumber(last));
    RecordNumbers(os, FirstLineNumber(last), 0, |lines|);
    ResumeFromRows(existing);
  }
}
