/**
 * The per-line step of the sync loop: strip the line, split it on " => ",
 * keep it only when there are exactly three fields, and build the record
 * tuple `(salt, address, int(reward), total, leading, line_number)`.
 */
module Records {
  import opened Wrappers
  import opened Text
  import opened ZeroCount

  /** One row in the order of the INSERT's columns. */
  datatype Record = Record(
    salt: string,
    address: string,
    reward: int,
    totalZeroes: nat,
    leadingZeroes: nat,
    lineNumber: int)

  /**
   * What one line yields: nothing (it does not have three fields), a
   * record, or a reward that `int()` rejects, which raises and ends the run.
   */
  datatype LineOutcome = Dropped | Parsed(record: Record) | BadReward

  function ParseLine(line: string, lineNumber: int): LineOutcome
  {
    var parts := Split(Strip(StrWhitespace, line));
    if |parts| != 3 then Dropped
    else
      match ParseInt(parts[2])
      case None => BadReward
      case Some(reward) =>
        var z := CountZeroes(parts[1]);
        Parsed(Record(parts[0], parts[1], reward, z.total, z.leading, lineNumber))
  }

  /** A line is dropped exactly when its stripped text does not split into three fields. */
  lemma {:induction false} DroppedIffNotThreeFields(line: string, lineNumber: int)
    ensures ParseLine(line, lineNumber) == Dropped <==> |Split(Strip(StrWhitespace, line))| != 3
  {
  }

  /**
   * A three-field line raises exactly when `int()` rejects its third field,
   * and yields a record exactly when `int()` accepts it.
   */
  lemma {:induction false} BadRewardIff(line: string, lineNumber: int)
    ensures var parts := Split(Strip(StrWhitespace, line));
      && (ParseLine(line, lineNumber).BadReward? <==> |parts| == 3 && ParseInt(parts[2]).None?)
      && (ParseLine(line, lineNumber).Parsed? <==> |parts| == 3 && ParseInt(parts[2]).Some?)
  {
  }

  /**
   * What a record says about its line: salt and address are the first two
   * fields as split, and the stripped line is salt, address and a reward
   * text joined by the separator, none of them containing the
   * separator; the reward is that text's value, the counts are those of the
   * address (not stripped again), and the number is the one the line was given.
   */
  lemma {:induction false} ParsedRecordShape(line: string, lineNumber: int)
    requires ParseLine(line, lineNumber).Parsed?
    ensures var r := ParseLine(line, lineNumber).record;
      var parts := Split(Strip(StrWhitespace, line));
      && |parts| == 3
      && r.salt == parts[0] && r.address == parts[1]
      && Strip(StrWhitespace, line) == r.salt + Separator + r.address + Separator + parts[2]
      && NoSeparator(r.salt) && NoSeparator(r.address) && NoSeparator(parts[2])
      && ParseInt(parts[2]) == Some(r.reward)
      && CountZeroes(r.address) == ZeroCounts(r.totalZeroes, r.leadingZeroes)
      && r.lineNumber == lineNumber
  {
    ThreeParts(Strip(StrWhitespace, line));
  }

  /** Three parts are the text around the two separators that `split` cut at. */
  lemma {:induction false} ThreeParts(t: string)
    requires |Split(t)| == 3
    ensures var parts := Split(t);
      && t == parts[0] + Separator + parts[1] + Separator + parts[2]
      && NoSeparator(parts[0]) && NoSeparator(parts[1]) && NoSeparator(parts[2])
  {
    var parts := Split(t);
    SplitJoin(t);
    assert parts == [parts[0], parts[1], parts[2]];
    JoinThree(parts[0], parts[1], parts[2]);
  }

  /** The line a generator would write for a result, without its newline. */
  function FormatLine(salt: string, address: string, reward: int): string
  {
    salt + Separator + address + Separator + ShowInt(reward)
  }

  /**
   * Reading back a written line: with blank-free salt and address, the
   * first of them not starting with whitespace, and any whitespace (such as
   * the newline) after it, the line yields exactly that record.
   */
  lemma {:induction false} ParseFormattedLine(salt: string, address: string, reward: int, trail: string, lineNumber: int)
    requires salt != [] && !IsSpace(salt[0]) && NoBlank(salt) && NoBlank(address)
    requires forall k :: 0 <= k < |trail| ==> IsSpace(trail[k])
    ensures var z := CountZeroes(address);
      ParseLine(FormatLine(salt, address, reward) + trail, lineNumber)
        == Parsed(Record(salt, address, reward, z.total, z.leading, lineNumber))
  {
    var text := FormatLine(salt, address, reward);
    var shown := ShowInt(reward);
    assert text[|text| - 1] == shown[|shown| - 1];
    StripDropsTrailing(StrWhitespace, text, trail);
    SplitThreeFields(salt, address, shown);
    ParseShowInt(reward);
  }

  /** A line with only two fields contributes nothing. */
  lemma {:induction false} TwoFieldsDropped(a: string, b: string, lineNumber: int)
    requires a != [] && !IsSpace(a[0]) && NoBlank(a)
    requires b != [] && !IsSpace(b[|b| - 1]) && NoBlank(b)
    ensures ParseLine(a + Separator + b, lineNumber) == Dropped
  {
    var s := a + Separator + b;
    assert s[0] == a[0] && s[|s| - 1] == b[|b| - 1];
    StripKeeps(StrWhitespace, s);
    SplitFieldFirst(a, b);
    SplitNoBlank(b);
    assert |Split(s)| == 2;
  }
}
