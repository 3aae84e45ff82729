/**
 * The per-line decision of the main loop in shell/src/main.c: every
 * non-empty line is offered to the history first; then the line is
 * recognised as `log execute N | rest`, as `log execute N`, or as an
 * ordinary line, and is either handed to `process_line`, echoed and
 * replayed from history, or rejected with a diagnostic.
 *
 * Reading the line, the prompt, the reaper sweep and the end-of-input
 * `logout` are the surrounding I/O loop and are not modelled here.
 */
module LineLoop {
  import opened Strings
  import Parser
  import Intrinsics

  /** What the two `strtok(…, " \t")` passes make of a line. */
  datatype Request =
    | Ordinary
    | ExecutePipe(index: int, rest: string)   // `log execute N | rest`, rest non-empty
    | ExecuteAlone(index: int)                // exactly `log execute N`

  /**
   * The token-by-token recognition: "log", "execute", the index word
   * (read with `atoi`), then either nothing more, or the word "|" followed
   * by a non-empty remainder (`strtok(NULL, "")` returns the text after the
   * blank that ended "|").
   */
  function Classify(line: string): (r: Request)
    ensures r.ExecutePipe? ==> |r.rest| > 0
  {
    match Strtok(line, SpaceTab)
    case None => Ordinary
    case Some((t1, r1)) =>
      if t1 != "log" then Ordinary
      else match Strtok(r1, SpaceTab)
        case None => Ordinary
        case Some((t2, r2)) =>
          if t2 != "execute" then Ordinary
          else ClassifyExecute(r2)
  }

  /** The words after "log execute": the index word, then nothing or "|" and the remainder. */
  function ClassifyExecute(r2: string): (r: Request)
    ensures r.ExecutePipe? ==> |r.rest| > 0
  {
    match Strtok(r2, SpaceTab)
    case None => Ordinary
    case Some((t3, r3)) =>
      match Strtok(r3, SpaceTab)
      case None => ExecuteAlone(Atoi(t3))
      case Some((t4, r4)) =>
        if t4 == "|" && |r4| > 0 then ExecutePipe(Atoi(t3), r4) else Ordinary
  }

  /** `log execute N` is recognised exactly when the line has the three words "log", "execute", N. */
  lemma ClassifyAlone(line: string)
    ensures Classify(line).ExecuteAlone? <==>
      |Fields(line, SpaceTab)| == 3 && Fields(line, SpaceTab)[0] == "log" && Fields(line, SpaceTab)[1] == "execute"
    ensures Classify(line).ExecuteAlone? ==> Classify(line).index == Atoi(Fields(line, SpaceTab)[2])
  {
    FieldsStep(line, SpaceTab);
    if Strtok(line, SpaceTab).Some? {
      var (t1, r1) := Strtok(line, SpaceTab).value;
      FieldsStep(r1, SpaceTab);
      if Strtok(r1, SpaceTab).Some? {
        var (t2, r2) := Strtok(r1, SpaceTab).value;
        FieldsStep(r2, SpaceTab);
        if Strtok(r2, SpaceTab).Some? {
          var (t3, r3) := Strtok(r2, SpaceTab).value;
          FieldsStep(r3, SpaceTab);
        }
      }
    }
  }

  /**
   * `log execute N | rest`: the first four words are "log", "execute", N and
   * "|", and the words of the remainder are the rest of the line's words.
   */
  lemma ClassifyPipe(line: string)
    ensures Classify(line).ExecutePipe? ==>
      var f := Fields(line, SpaceTab);
      && |f| >= 4 && f[0] == "log" && f[1] == "execute" && f[3] == "|"
      && Classify(line).index == Atoi(f[2])
      && Fields(Classify(line).rest, SpaceTab) == f[4..]
  {
    if Classify(line).ExecutePipe? {
      var (t1, r1) := Strtok(line, SpaceTab).value;
      var (t2, r2) := Strtok(r1, SpaceTab).value;
      var (t3, r3) := Strtok(r2, SpaceTab).value;
      var (t4, r4) := Strtok(r3, SpaceTab).value;
      var f4 := Fields(r4, SpaceTab);
      FieldsCons(r3, SpaceTab, t4, r4);
      FieldsCons(r2, SpaceTab, t3, r3);
      FieldsCons(r1, SpaceTab, t2, r2);
      FieldsCons(line, SpaceTab, t1, r1);
      var f := Fields(line, SpaceTab);
      assert f == [t1, t2, t3, t4] + f4;
      assert f[4..] == f4;
      assert t1 == "log" && t2 == "execute" && t4 == "|";
      assert Classify(line).index == Atoi(t3) && Classify(line).rest == r4;
    }
  }

  /** Conversely, a fifth word after "log execute N |" leaves a non-empty remainder. */
  lemma PipeWithFiveWords(line: string)
    requires |Fields(line, SpaceTab)| >= 5
    requires Fields(line, SpaceTab)[0] == "log" && Fields(line, SpaceTab)[1] == "execute"
    requires Fields(line, SpaceTab)[3] == "|"
    ensures Classify(line).ExecutePipe?
  {
    FieldsStep(line, SpaceTab);
    var (t1, r1) := Strtok(line, SpaceTab).value;
    FieldsStep(r1, SpaceTab);
    var (t2, r2) := Strtok(r1, SpaceTab).value;
    FieldsStep(r2, SpaceTab);
    var (t3, r3) := Strtok(r2, SpaceTab).value;
    FieldsStep(r3, SpaceTab);
    var (t4, r4) := Strtok(r3, SpaceTab).value;
    FieldsStep(r4, SpaceTab);
    assert |r4| > 0;
  }

  /** The pipeline `sprintf("%s | %s", historical_cmd, remaining_pipeline)` builds. */
  function Splice(hist: string, rest: string): (r: string)
    ensures |r| == |hist| + 3 + |rest|
    ensures r[..|hist|] == hist && r[|hist| + 3..] == rest
  {
    hist + " | " + rest
  }

  /** The spliced pipeline has the historical words, a "|" word, then the words of the remainder. */
  lemma SplicedWords(hist: string, rest: string)
    ensures Fields(Splice(hist, rest), Blanks) == Fields(hist, Blanks) + ["|"] + Fields(rest, Blanks)
  {
    var tail := "|" + [' '] + rest;
    assert Splice(hist, rest) == hist + [' '] + tail;
    FieldsSplit(hist, ' ', tail, Blanks);
    BarWord(rest);
  }

  lemma BarWord(rest: string)
    ensures Fields("|" + [' '] + rest, Blanks) == ["|"] + Fields(rest, Blanks)
  {
    FieldsSplit("|", ' ', rest, Blanks);
    assert NoneIn("|", Blanks) by { assert "|"[0] == '|'; }
    FieldsOfWord("|", Blanks);
  }

  /** What the main loop does with one line. */
  datatype Reaction =
    | Nothing                           // empty line
    | Run(line: string)                 // `process_line(input)`
    | SyntaxError                       // "Invalid Syntax!"
    | RunSpliced(line: string)          // `process_line("<hist> | <rest>")`
    | SplicedInvalid                    // "Invalid Syntax in pipeline!"
    | RunHistorical(line: string)       // the entry is printed, then `process_line(entry)`
    | HistoricalInvalid(line: string)   // the entry is printed, then "Invalid Syntax in historical command!"
    | InvalidIndex                      // "log: invalid index"

  /** The path an ordinary line takes. */
  function Ordinarily(line: string): (r: Reaction)
    ensures r == Run(line) || r == SyntaxError
    ensures r == Run(line) <==> Parser.ValidSyntax(line)
  {
    if Parser.ValidSyntax(line) then Run(line) else SyntaxError
  }

  /**
   * The decision for one line, given the history before the line. The line
   * is added to the history first, so `N` is looked up in the history that
   * may already hold the line itself.
   */
  function Dispatch(line: string, h: seq<string>): (r: Reaction)
    requires |h| <= Intrinsics.MaxLogSize
    ensures r == Nothing <==> |line| == 0
    ensures r.Run? ==> r.line == line && Parser.ValidSyntax(line)
    ensures r.RunHistorical? || r.HistoricalInvalid? ==>
      && Classify(line).ExecuteAlone?
      && Intrinsics.Recent(Intrinsics.Logged(h, line), Classify(line).index) == Some(r.line)
      && (r.RunHistorical? <==> Parser.ValidSyntax(r.line))
    ensures r.RunSpliced? ==>
      && Classify(line).ExecutePipe?
      && Parser.ValidSyntax(r.line)
      && exists c :: Intrinsics.Recent(Intrinsics.Logged(h, line), Classify(line).index) == Some(c)
                     && r.line == Splice(c, Classify(line).rest)
    ensures r == InvalidIndex <==>
      && |line| > 0
      && (Classify(line).ExecutePipe? || Classify(line).ExecuteAlone?)
      && Classify(line).index > 0
      && Intrinsics.Recent(Intrinsics.Logged(h, line), Classify(line).index).None?
    ensures |line| > 0 && Classify(line).Ordinary? ==> r == Ordinarily(line)
    ensures |line| > 0 && !Classify(line).Ordinary? && Classify(line).index <= 0 ==> r == Ordinarily(line)
    ensures |line| > 0 && Classify(line).ExecuteAlone? && Classify(line).index > 0 ==>
      var found := Intrinsics.Recent(Intrinsics.Logged(h, line), Classify(line).index);
      found.Some? ==>
        r == (if Parser.ValidSyntax(found.value) then RunHistorical(found.value) else HistoricalInvalid(found.value))
    ensures |line| > 0 && Classify(line).ExecutePipe? && Classify(line).index > 0 ==>
      var found := Intrinsics.Recent(Intrinsics.Logged(h, line), Classify(line).index);
      found.Some? ==>
        var spliced := Splice(found.value, Classify(line).rest);
        r == (if Parser.ValidSyntax(spliced) then RunSpliced(spliced) else SplicedInvalid)
  {
    if |line| == 0 then Nothing
    else
      var after := Intrinsics.Logged(h, line);
      match Classify(line)
      case ExecutePipe(n, rest) =>
        if n > 0 then
          match Intrinsics.Recent(after, n)
          case None => InvalidIndex
          case Some(c) =>
            if Parser.ValidSyntax(Splice(c, rest)) then RunSpliced(Splice(c, rest)) else SplicedInvalid
        else Ordinarily(line)
      case ExecuteAlone(n) =>
        if n > 0 then
          match Intrinsics.Recent(after, n)
          case None => InvalidIndex
          case Some(c) =>
            if Parser.ValidSyntax(c) then RunHistorical(c) else HistoricalInvalid(c)
        else Ordinarily(line)
      case Ordinary => Ordinarily(line)
  }

  /** `process_line` only ever receives a line that passed `is_valid_syntax`. */
  lemma OnlyValidLinesRun(line: string, h: seq<string>)
    requires |h| <= Intrinsics.MaxLogSize
    ensures var r := Dispatch(line, h);
      (r.Run? || r.RunSpliced? || r.RunHistorical?) ==> Parser.ValidSyntax(r.line)
  {
  }

  /** A `log execute` request whose index is not positive is treated as the line it is. */
  lemma NonPositiveIndexIsOrdinary(line: string, h: seq<string>)
    requires |h| <= Intrinsics.MaxLogSize && |line| > 0
    requires (Classify(line).ExecutePipe? || Classify(line).ExecuteAlone?) && Classify(line).index <= 0
    ensures Dispatch(line, h) == Ordinarily(line)
  {
  }

  /**
   * A line starting with "log " is never recorded, so `log execute N`
   * replays the N-th most recent entry of the history as it stood before.
   */
  lemma ExecuteSeesEarlierHistory(line: string, h: seq<string>, c: string)
    requires |h| <= Intrinsics.MaxLogSize
    requires Intrinsics.IsLogCommand(line) && Classify(line).ExecuteAlone?
    requires Intrinsics.Recent(h, Classify(line).index) == Some(c)
    ensures Dispatch(line, h) == if Parser.ValidSyntax(c) then RunHistorical(c) else HistoricalInvalid(c)
  {
  }

  /**
   * A `log execute 1` that `log_add` does record (one with a leading blank,
   * say) becomes entry 1 itself, so it replays itself.
   */
  lemma RecordedRequestReplaysItself(line: string, h: seq<string>)
    requires |h| <= Intrinsics.MaxLogSize
    requires Classify(line) == ExecuteAlone(1) && !Intrinsics.IsLogCommand(line) && Parser.ValidSyntax(line)
    ensures Dispatch(line, h) == RunHistorical(line)
  {
    assert |line| > 0;
    assert Intrinsics.Recent(Intrinsics.Logged(h, line), 1) == Some(line);
  }

  /** " log execute 1" is such a request: `strtok` skips the blank, `log_add` does not. */
  lemma ClassifyReplay()
    ensures Classify(" log execute 1") == ExecuteAlone(1)
    ensures !Intrinsics.IsLogCommand(" log execute 1")
  {
    ReplayFirstWord();
    ReplaySecondWord();
    ReplayIndex();
    ClassifyThreeWords(" log execute 1", "execute 1", "1", "1", []);
    var line := " log execute 1";
    assert line[..3] != "log" by { assert line[..3][0] == ' '; }
  }

  lemma ClassifyThreeWords(line: string, r1: string, r2: string, t3: string, r3: string)
    requires Strtok(line, SpaceTab) == Some(("log", r1))
    requires Strtok(r1, SpaceTab) == Some(("execute", r2))
    requires Strtok(r2, SpaceTab) == Some((t3, r3)) && Strtok(r3, SpaceTab).None?
    ensures Classify(line) == ExecuteAlone(Atoi(t3))
  {
  }

  lemma ReplayFirstWord()
    ensures Strtok(" log execute 1", SpaceTab) == Some(("log", "execute 1"))
  {
    var line := " log execute 1";
    assert line[0] in SpaceTab && line[1..] == "log" + " " + "execute 1";
    StrtokWord("log", "execute 1");
  }

  lemma ReplaySecondWord()
    ensures Strtok("execute 1", SpaceTab) == Some(("execute", "1"))
  {
    assert "execute 1" == "execute" + " " + "1";
    StrtokWord("execute", "1");
  }

  lemma ReplayIndex()
    ensures Strtok("1", SpaceTab) == Some(("1", [])) && Atoi("1") == 1
  {
    assert NoneIn("1", SpaceTab) by { assert "1"[0] == '1'; }
    SpanOfWord("1");
    AtoiDecimal(1);
    assert Decimal(1) == "1";
  }

  lemma StrtokWord(w: string, rest: string)
    requires |w| > 0 && NoneIn(w, SpaceTab)
    ensures Strtok(w + " " + rest, SpaceTab) == Some((w, rest))
  {
    SpanAppend(w, ' ', rest, SpaceTab);
    SpanOfWord(w);
    assert w + " " + rest == w + [' '] + rest;
  }

  lemma SpanOfWord(w: string)
    requires |w| > 0 && NoneIn(w, SpaceTab)
    ensures Span(w, SpaceTab) == (w, [])
  {
  }

  /**
   * One pass of the loop body after `read_input`: the line is offered to
   * `log_add` when non-empty, then recognised and dispatched.
   */
  method HandleLine(history: Intrinsics.History, line: string) returns (r: Reaction)
    requires history.Valid()
    modifies history, history.entries
    ensures history.Valid()
    ensures history.Contents == if |line| > 0 then Intrinsics.Logged(old(history.Contents), line) else old(history.Contents)
    ensures r == Dispatch(line, old(history.Contents))
  {
    if |line| == 0 {
      return Nothing;
    }
    history.Add(line);
    var request := Classify(line);
    if request.ExecutePipe? && request.index > 0 {
      var entry := history.Get(request.index);
      if entry.None? {
        return InvalidIndex;
      }
      var spliced := Splice(entry.value, request.rest);
      var ok := Parser.IsValidSyntax(spliced);
      r := if ok then RunSpliced(spliced) else SplicedInvalid;
    } else if request.ExecuteAlone? && request.index > 0 {
      var entry := history.Get(request.index);
      if entry.None? {
        return InvalidIndex;
      }
      var ok := Parser.IsValidSyntax(entry.value);
      r := if ok then RunHistorical(entry.value) else HistoricalInvalid(entry.value);
    } else {
      var ok := Parser.IsValidSyntax(line);
      r := if ok then Run(line) else SyntaxError;
    }
  }
}
