/**
 * The command-line back end of src/executor.c: `process_line` cuts a line
 * into clauses at `;` and `&`, `execute_cmd_group` decides what to do with
 * one clause, `parse_cmd_group` turns it into at most 16 pipeline stages,
 * and `run_cmd_group` resolves each stage's redirections, decides how its
 * child ends, waits for a foreground group and registers jobs.
 *
 * Results of `open`, `execvp` and `waitpid` are inputs; pipes, `fork`,
 * process groups and the terminal are not modelled.
 */
module Executor {
  import opened Strings
  import Jobs
  import Intrinsics

  const MaxStages: nat := 16
  /** `char *argv[MAX_ARGS]`, NULL-terminated: at most 63 words. */
  const MaxArgs: nat := 64
  const MaxArgWords: nat := 63
  /** `char full_command[1024]`. */
  const FullCommandCapacity: nat := 1023

  const ClauseSeparators: set<char> := {';', '&'}
  const PipeDelimiter: set<char> := {'|'}

  datatype RedirKind = In | Out | Append

  /** A redirection; the target is missing when the operator was the stage's last token. */
  datatype Redirection = Redirection(kind: RedirKind, target: Option<string>)

  datatype SimpleCommand = SimpleCommand(argv: seq<string>, redirections: seq<Redirection>, fullCommand: string)

  // ---------------------------------------------------------------------------
  // process_line
  // ---------------------------------------------------------------------------

  /** A clause of the line and the separator that ended it, if any. */
  datatype Clause = Clause(text: string, terminator: Option<char>)

  predicate Background(c: Clause) {
    c.terminator == Some('&')
  }

  /**
   * The clauses `process_line` hands to `execute_cmd_group`, left to right:
   * each separator ends one clause; text after the last separator is a final
   * clause only when it is non-empty.
   */
  function Clauses(s: string): seq<Clause>
    decreases |s|
  {
    if |s| == 0 then []
    else
      var (t, rest) := Span(s, ClauseSeparators);
      if |t| == |s| then [Clause(s, None)]
      else [Clause(t, Some(s[|t|]))] + Clauses(rest)
  }

  /** No clause contains a separator, and each one that has a terminator ends in `;` or `&`. */
  lemma {:induction false} ClausesSeparatorFree(s: string)
    ensures forall i :: 0 <= i < |Clauses(s)| ==> NoneIn(Clauses(s)[i].text, ClauseSeparators)
    ensures forall i :: 0 <= i < |Clauses(s)| && Clauses(s)[i].terminator.Some? ==>
      Clauses(s)[i].terminator.value in ClauseSeparators
    decreases |s|
  {
    if |s| > 0 {
      var (t, rest) := Span(s, ClauseSeparators);
      if |t| != |s| {
        ClausesSeparatorFree(rest);
        var r := Clauses(s);
        assert r == [Clause(t, Some(s[|t|]))] + Clauses(rest);
        forall i | 1 <= i < |r|
          ensures r[i] == Clauses(rest)[i - 1]
        {
        }
      }
    }
  }

  /** Every clause but the last ends in a separator; a last clause without one is non-empty. */
  lemma {:induction false} ClausesTerminated(s: string)
    ensures forall i :: 0 <= i < |Clauses(s)| - 1 ==> Clauses(s)[i].terminator.Some?
    ensures |Clauses(s)| > 0 && Clauses(s)[|Clauses(s)| - 1].terminator.None? ==>
      |Clauses(s)[|Clauses(s)| - 1].text| > 0
    decreases |s|
  {
    if |s| > 0 {
      var (t, rest) := Span(s, ClauseSeparators);
      if |t| != |s| {
        ClausesTerminated(rest);
        var r := Clauses(s);
        assert r == [Clause(t, Some(s[|t|]))] + Clauses(rest);
        forall i | 1 <= i < |r|
          ensures r[i] == Clauses(rest)[i - 1]
        {
        }
      }
    }
  }

  /** The text the clauses were cut from. */
  function Rejoin(cs: seq<Clause>): string {
    if |cs| == 0 then []
    else cs[0].text + (if cs[0].terminator.Some? then [cs[0].terminator.value] else []) + Rejoin(cs[1..])
  }

  /** Cutting loses nothing: the clauses and their separators spell the line. */
  lemma {:induction false} ClausesRejoin(s: string)
    ensures Rejoin(Clauses(s)) == s
    decreases |s|
  {
    if |s| > 0 {
      var (t, rest) := Span(s, ClauseSeparators);
      if |t| != |s| {
        ClausesRejoin(rest);
        assert Clauses(s) == [Clause(t, Some(s[|t|]))] + Clauses(rest);
        assert (Clauses(s))[1..] == Clauses(rest);
      }
    }
  }

  /** The work `execute_cmd_group` does with one clause. */
  datatype GroupAction =
    | Skip                                               // blank clause, or no stage
    | InProcess(argv: seq<string>)                       // a parent builtin, run by the shell itself
    | Launch(group: seq<SimpleCommand>, background: bool) // handed to `run_cmd_group`

  /**
   * `process_line`: each clause, left to right, goes to `execute_cmd_group`
   * with its background flag.
   */
  method ProcessLine(line: string) returns (actions: seq<GroupAction>)
    requires AllExecutable(Clauses(line))
    ensures actions == ActionsOf(Clauses(line))
  {
    actions := [];
    var current := line;
    while |current| > 0
      invariant AllExecutable(Clauses(current))
      invariant ActionsOf(Clauses(line)) == actions + ActionsOf(Clauses(current))
      decreases |current|
    {
      var clause, next := NextClause(current);
      ghost var cs := Clauses(current);
      assert cs[0] == clause && cs[1..] == Clauses(next);
      var a := ExecuteCmdGroup(clause.text, clause.terminator == Some('&'));
      assert ActionsOf(cs) == [a] + ActionsOf(Clauses(next));
      AppendAssoc(actions, [a], ActionsOf(Clauses(next)));
      actions := actions + [a];
      current := next;
    }
  }

  /** One `strpbrk(current, ";&")` step of `process_line`. */
  method NextClause(current: string) returns (clause: Clause, next: string)
    requires |current| > 0
    ensures Clauses(current) == [clause] + Clauses(next)
    ensures |next| < |current|
  {
    var (t, rest) := Span(current, ClauseSeparators);
    if |t| == |current| {
      clause := Clause(current, None);
      next := [];
    } else {
      clause := Clause(t, Some(current[|t|]));
      next := rest;
    }
    ClausesUnfold(current);
  }

  /** Every clause can be parsed without overflowing `parse_cmd_group`'s arrays. */
  predicate AllExecutable(cs: seq<Clause>) {
    forall i :: 0 <= i < |cs| ==> Executable(cs[i].text)
  }

  /** `execute_cmd_group` applied to each clause in turn. */
  function ActionsOf(cs: seq<Clause>): (r: seq<GroupAction>)
    requires AllExecutable(cs)
    ensures |r| == |cs|
  {
    if |cs| == 0 then [] else [ActionOf(cs[0])] + ActionsOf(cs[1..])
  }

  /** `execute_cmd_group(clause, is_background)`. */
  function ActionOf(c: Clause): GroupAction
    requires Executable(c.text)
  {
    GroupActionOf(c.text, Background(c))
  }

  /**
   * Clauses run left to right, each exactly once: action `i` is what
   * `execute_cmd_group` does with clause `i` and its background flag.
   */
  lemma {:induction false} ActionsOfAt(cs: seq<Clause>, i: nat)
    requires AllExecutable(cs) && i < |cs|
    ensures ActionsOf(cs)[i] == ActionOf(cs[i])
    decreases i
  {
    if i > 0 {
      assert cs[1..][i - 1] == cs[i];
      ActionsOfAt(cs[1..], i - 1);
    }
  }

  lemma ClausesUnfold(s: string)
    requires |s| > 0
    ensures |Span(s, ClauseSeparators).0| == |s| ==> Clauses(s) == [Clause(s, None)] && Clauses([]) == []
    ensures |Span(s, ClauseSeparators).0| != |s| ==>
      Clauses(s) == [Clause(Span(s, ClauseSeparators).0, Some(s[|Span(s, ClauseSeparators).0|]))] + Clauses(Span(s, ClauseSeparators).1)
  {
  }

  // ---------------------------------------------------------------------------
  // execute_cmd_group and parse_cmd_group, as functions
  // ---------------------------------------------------------------------------

  function RedirKindOf(w: string): Option<RedirKind> {
    if w == "<" then Some(In)
    else if w == ">" then Some(Out)
    else if w == ">>" then Some(Append)
    else None
  }

  /** The words a list of redirections used up: the operator and, when present, its target. */
  function WordsUsed(rs: seq<Redirection>): nat {
    if |rs| == 0 then 0 else (if rs[0].target.Some? then 2 else 1) + WordsUsed(rs[1..])
  }

  /**
   * The token loop of `parse_cmd_group` without the argv cap: `<`, `>` and
   * `>>` take the next word as their target, every other word is an argument.
   */
  function Split(ws: seq<string>): (r: (seq<string>, seq<Redirection>))
    ensures forall k :: 0 <= k < |r.0| ==> RedirKindOf(r.0[k]).None?
    ensures |r.0| + WordsUsed(r.1) == |ws|
    decreases |ws|
  {
    if |ws| == 0 then ([], [])
    else match RedirKindOf(ws[0])
      case Some(k) =>
        if |ws| == 1 then ([], [Redirection(k, None)])
        else
          var (a, rs) := Split(ws[2..]);
          assert WordsUsed([Redirection(k, Some(ws[1]))] + rs) == 2 + WordsUsed(rs) by {
            assert ([Redirection(k, Some(ws[1]))] + rs)[1..] == rs;
          }
          (a, [Redirection(k, Some(ws[1]))] + rs)
      case None =>
        var (a, rs) := Split(ws[1..]);
        ([ws[0]] + a, rs)
  }

  /** Words without redirection operators are all arguments. */
  lemma {:induction false} SplitPlain(ws: seq<string>)
    requires forall k :: 0 <= k < |ws| ==> RedirKindOf(ws[k]).None?
    ensures Split(ws) == (ws, [])
    decreases |ws|
  {
    if |ws| > 0 {
      SplitPlain(ws[1..]);
      assert [ws[0]] + ws[1..] == ws;
    }
  }

  /** The first 63 arguments: `argv` has 64 slots and ends with NULL. */
  function Cap(words: seq<string>): (r: seq<string>)
    ensures |r| <= MaxArgWords && r <= words
    ensures |r| == if |words| <= MaxArgWords then |words| else MaxArgWords
    ensures |words| <= MaxArgWords ==> r == words
  {
    if |words| <= MaxArgWords then words else words[..MaxArgWords]
  }

  /** One stage from its already trimmed text. */
  function StageOf(s: string, full: string): SimpleCommand {
    var (words, redirs) := Split(Fields(s, Blanks));
    SimpleCommand(Cap(words), redirs, full)
  }

  /** The `|`-segments of a group, at most 16 of them. */
  function Segments(t: string): (r: seq<string>)
    ensures |r| <= MaxStages
  {
    var segs := Fields(t, PipeDelimiter);
    if |segs| <= MaxStages then segs else segs[..MaxStages]
  }

  /** What `parse_cmd_group` builds: only stage 0 carries the group text, cut to 1023 characters. */
  function GroupSpec(t: string): (g: seq<SimpleCommand>)
    ensures |g| == |Segments(t)|
  {
    var segs := Segments(t);
    seq(|segs|, i requires 0 <= i < |segs| =>
      StageOf(Trim(segs[i]), if i == 0 then Truncate(t, FullCommandCapacity) else ""))
  }

  /** The redirection array of every stage has room (64 entries). */
  predicate RedirectionsBounded(t: string) {
    forall i :: 0 <= i < |Segments(t)| ==> RedirectionsFit(Segments(t)[i])
  }

  /** A segment's redirections fit the 64-entry array. */
  predicate RedirectionsFit(segment: string) {
    |Split(Fields(Trim(segment), Blanks)).1| <= MaxArgs
  }

  /** A segment has a command word. */
  predicate HasCommandWord(segment: string) {
    |Split(Fields(Trim(segment), Blanks)).0| > 0
  }

  /**
   * The clauses the source handles without undefined behaviour: the
   * redirection arrays do not overflow, and a single-stage group has a
   * command word for `is_parent_builtin` to look at.
   */
  predicate Executable(text: string) {
    var t := TrimLeft(text);
    |t| > 0 ==> RedirectionsBounded(t) && (|Segments(t)| == 1 ==> HasCommandWord(Segments(t)[0]))
  }

  /** `execute_cmd_group` as a function of the clause and its background flag. */
  function GroupActionOf(text: string, background: bool): GroupAction
    requires Executable(text)
  {
    var t := TrimLeft(text);
    if |t| == 0 then Skip
    else
      var g := GroupSpec(t);
      SingleStageHasCommand(t);
      if |g| == 1 && Intrinsics.IsParentBuiltin(g[0].argv[0]) then InProcess(g[0].argv)
      else if |g| > 0 then Launch(g, background)
      else Skip
  }

  /** A single stage with a command word has a non-empty `argv`. */
  lemma SingleStageHasCommand(t: string)
    requires |Segments(t)| == 1 ==> HasCommandWord(Segments(t)[0])
    ensures |GroupSpec(t)| == 1 ==> |GroupSpec(t)[0].argv| > 0
  {
    if |GroupSpec(t)| == 1 {
      assert GroupSpec(t)[0].argv == Cap(Split(Fields(Trim(Segments(t)[0]), Blanks)).0);
    }
  }

  /** A blank clause does nothing. */
  lemma BlankClauseSkipped(text: string, background: bool)
    requires forall k :: 0 <= k < |text| ==> IsSpace(text[k])
    ensures Executable(text) && GroupActionOf(text, background) == Skip
  {
  }

  /** A lone `hop` runs in the shell whatever its separator; it never reaches `run_cmd_group`. */
  lemma ParentBuiltinInProcess(text: string, background: bool)
    requires Executable(text) && |TrimLeft(text)| > 0
    requires |GroupSpec(TrimLeft(text))| == 1 && GroupSpec(TrimLeft(text))[0].argv[0] == "hop"
    ensures GroupActionOf(text, background) == InProcess(GroupSpec(TrimLeft(text))[0].argv)
    ensures GroupActionOf(text, background) == GroupActionOf(text, !background)
  {
  }

  /** Everything else with a stage is launched, with the clause's background flag. */
  lemma OtherGroupsLaunched(text: string, background: bool)
    requires Executable(text) && |TrimLeft(text)| > 0
    requires |GroupSpec(TrimLeft(text))| > 1 ||
      (|GroupSpec(TrimLeft(text))| == 1 && GroupSpec(TrimLeft(text))[0].argv[0] != "hop")
    ensures GroupActionOf(text, background) == Launch(GroupSpec(TrimLeft(text)), background)
  {
  }

  // ---------------------------------------------------------------------------
  // execute_cmd_group and parse_cmd_group, as the source runs them
  // ---------------------------------------------------------------------------

  /** `execute_cmd_group`. */
  method ExecuteCmdGroup(text: string, background: bool) returns (action: GroupAction)
    requires Executable(text)
    ensures action == GroupActionOf(text, background)
  {
    var t := TrimLeft(text);
    if |t| == 0 {
      return Skip;
    }
    var group := ParseCmdGroup(t);
    SingleStageHasCommand(t);
    if |group| == 1 && Intrinsics.IsParentBuiltin(group[0].argv[0]) {
      action := InProcess(group[0].argv);
    } else if |group| > 0 {
      action := Launch(group, background);
    } else {
      action := Skip;
    }
  }

  /**
   * `parse_cmd_group`: successive `|`-segments, each trimmed and tokenized,
   * until the segments run out or 16 stages exist.
   */
  method ParseCmdGroup(input: string) returns (group: seq<SimpleCommand>)
    requires RedirectionsBounded(input)
    ensures group == GroupSpec(input)
  {
    group := [];
    ghost var done: seq<string> := [];
    var full := Truncate(input, FullCommandCapacity);
    var rest := input;
    var next := Strtok(rest, PipeDelimiter);
    while next.Some?
      invariant next == Strtok(rest, PipeDelimiter)
      invariant Fields(input, PipeDelimiter) == done + Fields(rest, PipeDelimiter)
      invariant |group| == |done| <= MaxStages
      invariant StagesMatch(group, done, full)
      decreases |rest|
    {
      if |group| >= MaxStages {
        break;
      }
      var (segment, after) := next.value;
      NextSegment(input, done, rest, segment, after);
      var cmd := ParseStage(Trim(segment), if |group| == 0 then full else "");
      StagesMatchSnoc(group, done, full, cmd, segment);
      group := group + [cmd];
      done := done + [segment];
      rest := after;
      next := Strtok(rest, PipeDelimiter);
    }
    FieldsStep(rest, PipeDelimiter);
    if next.None? {
      assert done == Fields(input, PipeDelimiter);
    }
    SegmentsPrefix(input, done);
    assert Segments(input) == done;
  }

  /** Stage `i` was parsed from segment `i`; only stage 0 carries the group text. */
  predicate StagesMatch(group: seq<SimpleCommand>, segs: seq<string>, full: string) {
    |group| == |segs| &&
    forall i :: 0 <= i < |group| ==> group[i] == StageOf(Trim(segs[i]), if i == 0 then full else "")
  }

  lemma StagesMatchSnoc(group: seq<SimpleCommand>, segs: seq<string>, full: string, cmd: SimpleCommand, segment: string)
    requires StagesMatch(group, segs, full)
    requires cmd == StageOf(Trim(segment), if |group| == 0 then full else "")
    ensures StagesMatch(group + [cmd], segs + [segment], full)
  {
    forall i | 0 <= i < |group| + 1
      ensures (group + [cmd])[i] == StageOf(Trim((segs + [segment])[i]), if i == 0 then full else "")
    {
      if i < |group| {
        assert (group + [cmd])[i] == group[i] && (segs + [segment])[i] == segs[i];
      }
    }
  }

  /** One `strtok` step of `parse_cmd_group`: the segment joins those done, and it fits. */
  lemma NextSegment(input: string, done: seq<string>, rest: string, segment: string, after: string)
    requires RedirectionsBounded(input) && |done| < MaxStages
    requires Fields(input, PipeDelimiter) == done + Fields(rest, PipeDelimiter)
    requires Strtok(rest, PipeDelimiter) == Some((segment, after))
    ensures Fields(input, PipeDelimiter) == (done + [segment]) + Fields(after, PipeDelimiter)
    ensures RedirectionsFit(segment)
  {
    FieldsStep(rest, PipeDelimiter);
    AppendAssoc(done, [segment], Fields(after, PipeDelimiter));
    SegmentBounded(input, done, segment);
  }

  lemma SegmentBounded(t: string, done: seq<string>, segment: string)
    requires RedirectionsBounded(t)
    requires done + [segment] <= Fields(t, PipeDelimiter) && |done| < MaxStages
    ensures RedirectionsFit(segment)
  {
    SegmentsPrefix(t, done + [segment]);
    assert Segments(t)[|done|] == segment;
  }

  /** A prefix of the `|`-segments that fits in 16 stages is a prefix of `Segments`. */
  lemma SegmentsPrefix(t: string, done: seq<string>)
    requires done <= Fields(t, PipeDelimiter)
    ensures |done| <= MaxStages ==> forall i :: 0 <= i < |done| ==> Segments(t)[i] == done[i]
    ensures |done| == MaxStages || done == Fields(t, PipeDelimiter) ==> |done| <= MaxStages ==> Segments(t) == done
  {
  }

  /** The token loop of `parse_cmd_group` for one trimmed segment. */
  method ParseStage(s: string, full: string) returns (cmd: SimpleCommand)
    requires |Split(Fields(s, Blanks)).1| <= MaxArgs
    ensures cmd == StageOf(s, full)
  {
    var argv: seq<string> := [];
    var redirs: seq<Redirection> := [];
    ghost var words: seq<string> := [];
    var rest := s;
    var next := Strtok(rest, Blanks);
    while next.Some?
      invariant next == Strtok(rest, Blanks)
      invariant Split(Fields(s, Blanks)).0 == words + Split(Fields(rest, Blanks)).0
      invariant Split(Fields(s, Blanks)).1 == redirs + Split(Fields(rest, Blanks)).1
      invariant argv == Cap(words)
      decreases |rest|
    {
      var (token, after) := next.value;
      FieldsStep(rest, Blanks);
      var kind := RedirKindOf(token);
      if kind.Some? {
        var target := Strtok(after, Blanks);
        FieldsStep(after, Blanks);
        if target.Some? {
          var r := Redirection(kind.value, Some(target.value.0));
          SplitRedirection(token, target.value.0, Fields(target.value.1, Blanks));
          AppendAssoc(redirs, [r], Split(Fields(target.value.1, Blanks)).1);
          redirs := redirs + [r];
          rest := target.value.1;
        } else {
          var r := Redirection(kind.value, None);
          SplitDangling(token);
          AppendAssoc(redirs, [r], []);
          redirs := redirs + [r];
          rest := after;
        }
      } else {
        SplitWord(token, Fields(after, Blanks));
        AppendAssoc(words, [token], Split(Fields(after, Blanks)).0);
        CapSnoc(words, token);
        if |argv| < MaxArgWords {
          argv := argv + [token];
        }
        words := words + [token];
        rest := after;
      }
      next := Strtok(rest, Blanks);
    }
    FieldsStep(rest, Blanks);
    assert words + [] == words && redirs + [] == redirs;
    cmd := SimpleCommand(argv, redirs, full);
  }

  lemma SplitWord(w: string, ws: seq<string>)
    requires RedirKindOf(w).None?
    ensures Split([w] + ws) == ([w] + Split(ws).0, Split(ws).1)
  {
    assert ([w] + ws)[1..] == ws;
  }

  lemma SplitRedirection(op: string, target: string, ws: seq<string>)
    requires RedirKindOf(op).Some?
    ensures Split([op] + ([target] + ws)) ==
      (Split(ws).0, [Redirection(RedirKindOf(op).value, Some(target))] + Split(ws).1)
  {
    assert ([op] + ([target] + ws))[2..] == ws;
  }

  lemma SplitDangling(op: string)
    requires RedirKindOf(op).Some?
    ensures Split([op]) == ([], [Redirection(RedirKindOf(op).value, None)])
  {
  }

  lemma CapSnoc(words: seq<string>, w: string)
    ensures Cap(words + [w]) == if |Cap(words)| < MaxArgWords then Cap(words) + [w] else Cap(words)
  {
    if |words| >= MaxArgWords {
      assert (words + [w])[..MaxArgWords] == words[..MaxArgWords];
    }
  }

  // ---------------------------------------------------------------------------
  // Redirections of one stage (run in the child)
  // ---------------------------------------------------------------------------

  datatype OutputFile = OutputFile(path: string, append: bool)

  /** The descriptors and error flags of the redirection loop, and what it has printed. */
  datatype IoState = IoState(
    input: Option<string>,
    output: Option<OutputFile>,
    inputError: bool,
    outputError: bool,
    diagnostics: seq<string>,
    attempted: seq<Redirection>)

  const NoRedirection: IoState := IoState(None, None, false, false, [], [])

  /** `open` succeeded; a missing target is `open(NULL, ...)`, which fails. */
  predicate Opened(r: Redirection, ok: bool) {
    ok && r.target.Some?
  }

  /** One iteration: the previous descriptor of that direction is replaced, a failure is recorded. */
  function Step(st: IoState, r: Redirection, ok: bool): IoState {
    var st := st.(attempted := st.attempted + [r]);
    if r.kind == In then
      if Opened(r, ok) then st.(input := Some(r.target.value))
      else st.(input := None, inputError := true, diagnostics := st.diagnostics + ["No such file or directory"])
    else
      if Opened(r, ok) then st.(output := Some(OutputFile(r.target.value, r.kind == Append)))
      else st.(output := None, outputError := true, diagnostics := st.diagnostics + ["Unable to create file for writing"])
  }

  /** The redirection loop over a stage's redirections, with the `open` results `oks`. */
  function Resolve(rs: seq<Redirection>, oks: seq<bool>): IoState
    requires |rs| == |oks|
  {
    if |rs| == 0 then NoRedirection
    else Step(Resolve(rs[..|rs| - 1], oks[..|rs| - 1]), rs[|rs| - 1], oks[|rs| - 1])
  }

  predicate Failed(st: IoState) {
    st.inputError || st.outputError
  }

  /** The index of the last redirection of the given direction. */
  function LastOf(rs: seq<Redirection>, input: bool): (r: Option<nat>)
    ensures r.Some? ==> r.value < |rs| && (rs[r.value].kind == In) == input
    ensures r.Some? ==> forall k :: r.value < k < |rs| ==> (rs[k].kind == In) != input
    ensures r.None? ==> forall k :: 0 <= k < |rs| ==> (rs[k].kind == In) != input
  {
    if |rs| == 0 then None
    else if (rs[|rs| - 1].kind == In) == input then Some(|rs| - 1)
    else LastOf(rs[..|rs| - 1], input)
  }

  /** The number of redirections whose `open` failed. */
  function FailedOpens(rs: seq<Redirection>, oks: seq<bool>): nat
    requires |rs| == |oks|
  {
    if |rs| == 0 then 0
    else (if Opened(rs[0], oks[0]) then 0 else 1) + FailedOpens(rs[1..], oks[1..])
  }

  lemma {:induction false} FailedOpensSnoc(rs: seq<Redirection>, oks: seq<bool>)
    requires |rs| == |oks| && |rs| > 0
    ensures FailedOpens(rs, oks) ==
      FailedOpens(rs[..|rs| - 1], oks[..|rs| - 1]) + (if Opened(rs[|rs| - 1], oks[|rs| - 1]) then 0 else 1)
    decreases |rs|
  {
    if |rs| > 1 {
      assert rs[1..][..|rs| - 2] == rs[..|rs| - 1][1..];
      assert oks[1..][..|rs| - 2] == oks[..|rs| - 1][1..];
      FailedOpensSnoc(rs[1..], oks[1..]);
    }
  }

  /** Some redirection of the given direction failed to open. */
  predicate FailedIn(rs: seq<Redirection>, oks: seq<bool>, input: bool)
    requires |rs| == |oks|
  {
    exists j :: 0 <= j < |rs| && (rs[j].kind == In) == input && !Opened(rs[j], oks[j])
  }

  lemma FailedInSnoc(rs: seq<Redirection>, oks: seq<bool>, input: bool)
    requires |rs| == |oks| && |rs| > 0
    ensures FailedIn(rs, oks, input) <==>
      FailedIn(rs[..|rs| - 1], oks[..|rs| - 1], input) ||
      ((rs[|rs| - 1].kind == In) == input && !Opened(rs[|rs| - 1], oks[|rs| - 1]))
  {
    var n := |rs| - 1;
    if FailedIn(rs, oks, input) {
      var j :| 0 <= j < |rs| && (rs[j].kind == In) == input && !Opened(rs[j], oks[j]);
      if j < n {
        assert rs[..n][j] == rs[j] && oks[..n][j] == oks[j];
      }
    }
    if FailedIn(rs[..n], oks[..n], input) {
      var j :| 0 <= j < n && (rs[..n][j].kind == In) == input && !Opened(rs[..n][j], oks[..n][j]);
      assert rs[..n][j] == rs[j] && oks[..n][j] == oks[j];
    }
  }

  /** A failed `open` of either direction is remembered even when a later one succeeds. */
  lemma {:induction false} ResolveErrors(rs: seq<Redirection>, oks: seq<bool>)
    requires |rs| == |oks|
    ensures Resolve(rs, oks).inputError <==> FailedIn(rs, oks, true)
    ensures Resolve(rs, oks).outputError <==> FailedIn(rs, oks, false)
    decreases |rs|
  {
    if |rs| > 0 {
      ResolveErrors(rs[..|rs| - 1], oks[..|rs| - 1]);
      FailedInSnoc(rs, oks, true);
      FailedInSnoc(rs, oks, false);
    }
  }

  /** The last input redirection decides standard input. */
  lemma {:induction false} ResolveLastInput(rs: seq<Redirection>, oks: seq<bool>)
    requires |rs| == |oks|
    ensures Resolve(rs, oks).input ==
      (match LastOf(rs, true)
       case None => None
       case Some(j) => if Opened(rs[j], oks[j]) then Some(rs[j].target.value) else None)
    decreases |rs|
  {
    if |rs| > 0 {
      var n := |rs| - 1;
      ResolveLastInput(rs[..n], oks[..n]);
      if rs[n].kind != In {
        match LastOf(rs[..n], true)
        case None =>
        case Some(j) => assert rs[..n][j] == rs[j] && oks[..n][j] == oks[j];
      }
    }
  }

  /** The last output redirection decides standard output, and whether it appends. */
  lemma {:induction false} ResolveLastOutput(rs: seq<Redirection>, oks: seq<bool>)
    requires |rs| == |oks|
    ensures Resolve(rs, oks).output ==
      (match LastOf(rs, false)
       case None => None
       case Some(j) => if Opened(rs[j], oks[j]) then Some(OutputFile(rs[j].target.value, rs[j].kind == Append)) else None)
    decreases |rs|
  {
    if |rs| > 0 {
      var n := |rs| - 1;
      ResolveLastOutput(rs[..n], oks[..n]);
      if rs[n].kind == In {
        match LastOf(rs[..n], false)
        case None =>
        case Some(j) => assert rs[..n][j] == rs[j] && oks[..n][j] == oks[j];
      }
    }
  }

  /** Every redirection is attempted, in order, with one diagnostic per failed `open`. */
  lemma {:induction false} ResolveAttemptsAll(rs: seq<Redirection>, oks: seq<bool>)
    requires |rs| == |oks|
    ensures Resolve(rs, oks).attempted == rs
    ensures |Resolve(rs, oks).diagnostics| == FailedOpens(rs, oks)
    decreases |rs|
  {
    if |rs| > 0 {
      var n := |rs| - 1;
      ResolveAttemptsAll(rs[..n], oks[..n]);
      FailedOpensSnoc(rs, oks);
      assert rs[..n] + [rs[n]] == rs;
    }
  }

  /** The redirection loop of `run_cmd_group`, as the child runs it. */
  method ApplyRedirections(rs: seq<Redirection>, oks: seq<bool>) returns (st: IoState)
    requires |rs| == |oks|
    ensures st == Resolve(rs, oks)
  {
    var input: Option<string> := None;
    var output: Option<OutputFile> := None;
    var hadInputError, hadOutputError := false, false;
    var diagnostics: seq<string> := [];
    var attempted: seq<Redirection> := [];
    var j := 0;
    while j < |rs|
      invariant 0 <= j <= |rs|
      invariant IoState(input, output, hadInputError, hadOutputError, diagnostics, attempted) == Resolve(rs[..j], oks[..j])
    {
      assert rs[..j + 1][..j] == rs[..j] && oks[..j + 1][..j] == oks[..j];
      var r := rs[j];
      assert Resolve(rs[..j + 1], oks[..j + 1]) == Step(Resolve(rs[..j], oks[..j]), r, oks[j]);
      if r.kind == In {
        if oks[j] && r.target.Some? {
          input := Some(r.target.value);
        } else {
          input := None;
          diagnostics := diagnostics + ["No such file or directory"];
          hadInputError := true;
        }
      } else {
        if oks[j] && r.target.Some? {
          output := Some(OutputFile(r.target.value, r.kind == Append));
        } else {
          output := None;
          diagnostics := diagnostics + ["Unable to create file for writing"];
          hadOutputError := true;
        }
      }
      attempted := attempted + [r];
      j := j + 1;
    }
    assert rs[..j] == rs && oks[..j] == oks;
    st := IoState(input, output, hadInputError, hadOutputError, diagnostics, attempted);
  }

  // ---------------------------------------------------------------------------
  // How a child ends
  // ---------------------------------------------------------------------------

  /** Where a stage's standard input or output ends up. */
  datatype Endpoint = Inherited | PipeEnd(index: nat) | InputFile(path: string) | OutputTo(file: OutputFile)

  datatype ChildOutcome =
    | RedirectionFailed(diagnostics: seq<string>)                        // exit(1)
    | RanBuiltin(which: Intrinsics.Builtin, stdin: Endpoint, stdout: Endpoint)  // then exit(0)
    | Exec(argv: seq<string>, stdin: Endpoint, stdout: Endpoint)         // the program replaces the child
    | NotFound(message: string)                                          // exit(127)

  /** Stage `i` reads pipe `i - 1` unless an input file was opened. */
  function StdinOf(i: nat, st: IoState): Endpoint {
    if st.input.Some? then InputFile(st.input.value)
    else if i > 0 then PipeEnd(i - 1)
    else Inherited
  }

  /** Stage `i` of `n` writes pipe `i` unless an output file was opened. */
  function StdoutOf(i: nat, n: nat, st: IoState): Endpoint {
    if st.output.Some? then OutputTo(st.output.value)
    else if i + 1 < n then PipeEnd(i)
    else Inherited
  }

  /**
   * The child of stage `i` of an `n`-stage group: redirections first, then
   * a builtin by name, then `execvp`, whose success is `found`.
   */
  function ChildOf(i: nat, n: nat, stage: SimpleCommand, oks: seq<bool>, found: bool): ChildOutcome
    requires |oks| == |stage.redirections|
    requires !Failed(Resolve(stage.redirections, oks)) ==> |stage.argv| > 0
  {
    var st := Resolve(stage.redirections, oks);
    if Failed(st) then RedirectionFailed(st.diagnostics)
    else match Intrinsics.IntrinsicOf(stage.argv[0])
      case Some(b) => RanBuiltin(b, StdinOf(i, st), StdoutOf(i, n, st))
      case None =>
        if found then Exec(stage.argv, StdinOf(i, st), StdoutOf(i, n, st))
        else NotFound(stage.argv[0] + ": Command not found!")
  }

  /** The exit status the child reports, when the shell's code decides it. */
  function ExitCode(o: ChildOutcome): Option<int> {
    match o
    case RedirectionFailed(_) => Some(1)
    case RanBuiltin(_, _, _) => Some(0)
    case Exec(_, _, _) => None
    case NotFound(_) => Some(127)
  }

  /**
   * Any failed redirection ends the child with 1 before the command is
   * looked at; otherwise a builtin ends with 0 and an unknown command with 127.
   */
  lemma ChildExitCodes(i: nat, n: nat, stage: SimpleCommand, oks: seq<bool>, found: bool)
    requires |oks| == |stage.redirections|
    requires !Failed(Resolve(stage.redirections, oks)) ==> |stage.argv| > 0
    ensures (exists j :: 0 <= j < |oks| && !Opened(stage.redirections[j], oks[j])) <==>
      ExitCode(ChildOf(i, n, stage, oks, found)) == Some(1)
    ensures ExitCode(ChildOf(i, n, stage, oks, found)) == Some(0) <==>
      !Failed(Resolve(stage.redirections, oks)) && Intrinsics.IntrinsicOf(stage.argv[0]).Some?
    ensures ExitCode(ChildOf(i, n, stage, oks, found)) == Some(127) <==>
      !Failed(Resolve(stage.redirections, oks)) && Intrinsics.IntrinsicOf(stage.argv[0]).None? && !found
  {
    ResolveErrors(stage.redirections, oks);
    var rs := stage.redirections;
    if exists j :: 0 <= j < |oks| && !Opened(rs[j], oks[j]) {
      var j :| 0 <= j < |oks| && !Opened(rs[j], oks[j]);
      assert FailedIn(rs, oks, rs[j].kind == In);
    }
  }

  /** A file redirection overrides the pipe on that side, in every position of the pipeline. */
  lemma FileOverridesPipe(i: nat, n: nat, rs: seq<Redirection>, oks: seq<bool>)
    requires |rs| == |oks|
    requires LastOf(rs, false).Some? && Opened(rs[LastOf(rs, false).value], oks[LastOf(rs, false).value])
    ensures StdoutOf(i, n, Resolve(rs, oks)) ==
      OutputTo(OutputFile(rs[LastOf(rs, false).value].target.value, rs[LastOf(rs, false).value].kind == Append))
  {
    ResolveLastOutput(rs, oks);
  }

  // ---------------------------------------------------------------------------
  // Foreground wait and job registration (the parent)
  // ---------------------------------------------------------------------------

  /** One result of `waitpid(-pgid, &status, WUNTRACED)`. */
  datatype WaitResult = Changed(status: Jobs.ChildStatus) | Interrupted | NoChildren | WaitFailed

  datatype WaitEnd =
    | AllDone         // every stage exited or was killed
    | JobStopped      // a stage stopped: the group becomes a stopped job
    | NoMoreChildren  // ECHILD
    | WaitError       // any other error: "waitpid" is reported
    | Pending         // the supplied results ran out while stages were still active

  /** The wait loop over the results `waitpid` returns, with `active` stages still running. */
  function Wait(active: int, rs: seq<WaitResult>): WaitEnd
    decreases |rs|
  {
    if active <= 0 then AllDone
    else if |rs| == 0 then Pending
    else match rs[0]
      case Interrupted => Wait(active, rs[1..])
      case NoChildren => NoMoreChildren
      case WaitFailed => WaitError
      case Changed(s) => if s.StoppedBy? then JobStopped else Wait(active - 1, rs[1..])
  }

  /** How many results report an exit or a kill. */
  function Exits(rs: seq<WaitResult>): nat {
    if |rs| == 0 then 0
    else (if rs[0].Changed? && !rs[0].status.StoppedBy? then 1 else 0) + Exits(rs[1..])
  }

  /** EINTR is retried: an interrupted call changes nothing. */
  lemma WaitRetriesInterrupts(active: int, rs: seq<WaitResult>)
    ensures Wait(active, [Interrupted] + rs) == Wait(active, rs)
  {
    assert ([Interrupted] + rs)[1..] == rs;
  }

  /** n exits or kills, in any order with interruptions, complete an n-stage wait. */
  lemma {:induction false} WaitCompletes(active: int, rs: seq<WaitResult>)
    requires forall k :: 0 <= k < |rs| ==> rs[k].Interrupted? || (rs[k].Changed? && !rs[k].status.StoppedBy?)
    requires Exits(rs) >= active
    ensures Wait(active, rs) == AllDone
    decreases |rs|
  {
    if active > 0 && |rs| > 0 {
      WaitCompletes(if rs[0].Interrupted? then active else active - 1, rs[1..]);
    }
  }

  /** The wait only reports completion after at least `active` exits. */
  lemma {:induction false} WaitDoneNeedsExits(active: int, rs: seq<WaitResult>)
    requires Wait(active, rs) == AllDone
    ensures Exits(rs) >= active
    decreases |rs|
  {
    if active > 0 && |rs| > 0 {
      WaitDoneNeedsExits(if rs[0].Interrupted? then active else active - 1, rs[1..]);
    }
  }

  /** A stop ends the wait at once, however many stages are still active. */
  lemma WaitStopsOnStop(active: int, sig: int, rs: seq<WaitResult>)
    requires active > 0
    ensures Wait(active, [Changed(Jobs.StoppedBy(sig))] + rs) == JobStopped
  {
  }

  /** The foreground wait loop of `run_cmd_group`, consuming `waitpid` results in order. */
  method ForegroundWait(n: int, results: seq<WaitResult>) returns (end: WaitEnd)
    ensures end == Wait(n, results)
  {
    var activeProcs := n;
    var jobStopped := false;
    var i := 0;
    end := AllDone;
    while activeProcs > 0
      invariant 0 <= i <= |results|
      invariant Wait(n, results) == Wait(activeProcs, results[i..])
      decreases |results| - i
    {
      if i == |results| {
        return Pending;
      }
      var r := results[i];
      assert results[i..][1..] == results[i + 1..];
      i := i + 1;
      match r
      case Interrupted =>
        continue;
      case NoChildren =>
        return NoMoreChildren;
      case WaitFailed =>
        return WaitError;
      case Changed(s) =>
        if s.StoppedBy? {
          jobStopped := true;
          return JobStopped;
        }
        activeProcs := activeProcs - 1;
    }
  }

  datatype RunReport =
    | LaunchedInBackground(added: Jobs.AddOutcome)
    | Waited(end: WaitEnd)
    /** A stop: the job was registered (or the table was full), then "[id]+ Stopped" with `noticeId`. */
    | StoppedInForeground(added: Jobs.AddOutcome, noticeId: int)

  /**
   * The parent's bookkeeping in `run_cmd_group` once the stages are forked:
   * a background group is registered as running; a foreground group is
   * waited for, and registered as stopped only if a stage stopped. The stop
   * notice prints `next_job_id - 1`.
   */
  method RunCmdGroup(table: Jobs.JobTable, group: seq<SimpleCommand>, background: bool, pgid: int, results: seq<WaitResult>)
    returns (report: RunReport)
    requires table.Valid() && |group| > 0
    modifies table, table.slots
    ensures table.Valid() && table.slots == old(table.slots)
    ensures background ==> report.LaunchedInBackground?
    ensures background ==>
      (table.slots[..], table.nextJobId) ==
        Jobs.Registered(old(table.slots[..]), old(table.nextJobId), pgid, group[0].fullCommand, Jobs.Running)
    ensures !background && Wait(|group|, results) != JobStopped ==>
      (report == Waited(Wait(|group|, results)) &&
       table.slots[..] == old(table.slots[..]) && table.nextJobId == old(table.nextJobId))
    ensures !background && Wait(|group|, results) == JobStopped ==>
      report.StoppedInForeground? && report.noticeId == table.nextJobId - 1
    ensures !background && Wait(|group|, results) == JobStopped ==>
      (table.slots[..], table.nextJobId) ==
        Jobs.Registered(old(table.slots[..]), old(table.nextJobId), pgid, group[0].fullCommand, Jobs.Stopped)
  {
    if background {
      var added := table.Add(pgid, group[0].fullCommand, Jobs.Running);
      return LaunchedInBackground(added);
    }
    var end := ForegroundWait(|group|, results);
    if end == JobStopped {
      var added := table.Add(pgid, group[0].fullCommand, Jobs.Stopped);
      return StoppedInForeground(added, table.nextJobId - 1);
    }
    return Waited(end);
  }

  /**
   * The stop notice names the stopped job when it was registered; when the
   * table is full nothing is registered and the notice repeats the id issued
   * last, which belongs to an earlier job.
   */
  lemma StopNoticeId(s: seq<Jobs.Job>, next: int, pgid: int, command: string)
    ensures Jobs.FirstFree(s).Some? ==>
      var (s2, next2) := Jobs.Registered(s, next, pgid, command, Jobs.Stopped);
      s2[Jobs.FirstFree(s).value].jobId == next2 - 1
    ensures Jobs.FirstFree(s).None? ==>
      var (s2, next2) := Jobs.Registered(s, next, pgid, command, Jobs.Stopped);
      s2 == s && next2 - 1 == next - 1
  {
  }
}
