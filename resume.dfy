/**
 * `get_last_line_number()` of sync.py, with the database reduced to the
 * outcome of its one query `SELECT MAX(line_number) ... WHERE caller_address = caller`.
 */
module Resume {

  /** The query raised, the maximum was NULL (no rows), or it was `n`. */
  datatype QueryOutcome = QueryFailed | NoRows | MaxLine(n: int)

  /** The resume policy: a failed query and a NULL maximum both mean "start from 0". */
  function ResumePoint(q: QueryOutcome): int
  {
    match q
    case QueryFailed => 0
    case NoRows => 0
    case MaxLine(n) => n
  }

  /** The largest of a non-empty sequence of line numbers. */
  function Max(ns: seq<int>): (m: int)
    requires ns != []
    ensures m in ns && forall i :: 0 <= i < |ns| ==> ns[i] <= m
  {
    if |ns| == 1 then ns[0]
    else
      var rest := Max(ns[1..]);
      assert forall i :: 1 <= i < |ns| ==> ns[i] == ns[1..][i - 1];
      if ns[0] < rest then rest else ns[0]
  }

  /** What `MAX(line_number)` reports over the caller's rows, when the query succeeds. */
  function SelectMax(lineNumbers: seq<int>): QueryOutcome
  {
    if lineNumbers == [] then NoRows else MaxLine(Max(lineNumbers))
  }

  /**
   * The checkpoint of a successful query: 0 when the caller has no rows,
   * otherwise a line number the caller has written, and none it has written
   * is larger.
   */
  lemma ResumeFromRows(lineNumbers: seq<int>)
    ensures lineNumbers == [] ==> ResumePoint(SelectMax(lineNumbers)) == 0
    ensures lineNumbers != [] ==>
      ResumePoint(SelectMax(lineNumbers)) in lineNumbers
      && forall i :: 0 <= i < |lineNumbers| ==> lineNumbers[i] <= ResumePoint(SelectMax(lineNumbers))
  {
  }

  /** An error of the query (sync.py:33-35) restarts from the beginning. */
  lemma ResumeAfterFailure()
    ensures ResumePoint(QueryFailed) == 0
  {
  }
}
