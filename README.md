# A verified model of the core of a small POSIX job-control shell

The shell reads a line, records it in a 15-entry history, recognises the
history-replay forms `log execute N` and `log execute N | rest`, checks the
line's operator syntax, and hands valid lines to the executor. The executor
cuts a line into clauses at `;` and `&`, splits each clause into at most 16
`|`-stages with `<`, `>` and `>>` redirections, and runs builtins and
programs. Foreground groups are waited for, and background or stopped groups
are kept in a 64-slot job table. That table backs `activities`, `fg`, `bg`
and `ping`. A reaper sweep marks stopped jobs, and is meant to retire
finished ones; as written it never does (see "## Findings").

The model is split into seven modules:

- `Strings`: the C library behaviour the shell relies on, over `seq<char>`. That is `isspace`, `strtok`/`strtok_r` as a single step (`Strtok`) and as a whole token list (`Fields`), trimming, `strncpy` truncation, `atoi`, `printf("%d")` and the `strcmp` order.
- `Parser` (shell/src/parser.c): `is_valid_syntax` and `tokenize`. The syntax check is an imperative scan, proved equal to an independent description written over the line's "effective" characters.
- `Jobs` (shell/src/jobs.c): the job table as a class over a 64-slot `array<Job>` and the `next_job_id` counter. It covers registration, lookups, the reaper, `kill_all`, `activities` (the copy loop and the in-place bubble sort, proved sorted and a permutation), and `fg`, `bg` and `ping`.
- `Intrinsics` (shell/src/intrinsics.c): the history ring buffer as a class over a 15-slot array, with a ghost `Contents` (oldest entry first) that `log_add`, `log_get_command` and `do_log` are proved against. It also covers builtin-name dispatch, plus `reveal`'s argument parsing and target resolution.
- `Executor` (src/executor.c): `process_line`, `execute_cmd_group` and `parse_cmd_group`, each as a method proved equal to a specification function. It also models the child's redirection loop and exit codes, the foreground wait loop, and the parent's job registration in `run_cmd_group`.
- `LineLoop` (shell/src/main.c): the decision the main loop makes for one line.
- `Prompt` (shell/src/prompt.c): the prompt text and its `~` abbreviation.

The operating system's answers become parameters:

- `open` results (`oks`);
- whether `execvp` finds a program (`found`);
- the statuses `waitpid` reports, for the foreground wait and for the reaper;
- whether a pid exists;
- the process group `getpgid` reports for a collected child (`Jobs.GetpgidAfterWait`);
- the user name, host name and working directory.

Signals the shell sends are returned as values.

The code behaves as follows where a reader might expect otherwise:

- Blanks are not ignored by the syntax check. A trailing blank after `&` makes `sleep 5 &` invalid, and `>>` only counts as one operator when the two characters are adjacent (`Parser.TrailingBlankAfterAmpersand`, `Parser.AppendNeedsAdjacency`).
- A stage with no command word is not rejected by the parser. A lone such stage is excluded by `Executor.Executable`. In a multi-stage group it reaches the child, where `handle_intrinsic` reads `argv[0] == NULL`; `Executor.ChildOf` therefore requires a command word whenever the redirections succeeded.
- `fg` makes one `waitpid` call and acts on that single status; it does not run the wait loop (`Jobs.JobTable.Fg`).
- When a foreground stop finds the table full, the notice prints the id issued last, which belongs to an earlier job (`Executor.StopNoticeId`).

## Model

| member | source | states |
|---|---|---|
| Strings.FieldsAreWords | shell/src/parser.c:37-42 | every `strtok` token is non-empty and holds no delimiter |
| Strings.FieldsSplit | shell/src/parser.c:37-42 | splitting a line at any delimiter splits its token list at the same place: tokens are exactly the pieces between delimiters |
| Strings.AtoiDecimal | shell/src/jobs.c:89-90 | `atoi` reads back any integer `printf("%d")` writes |
| Strings.StrLeTotal | shell/src/jobs.c:74 | `strcmp(a, b) <= 0` or `strcmp(b, a) <= 0`, so the order the bubble sort uses is total |
| Strings.StrLeTransitive | shell/src/jobs.c:74 | the `strcmp` order is transitive |
| Strings.StrLeAntisymmetric | shell/src/jobs.c:74 | two strings ordered both ways are equal |
| Parser.IsValidSyntax | shell/src/parser.c:5-26 | the scan with `expect_command`/`last_was_special` returns exactly `ValidSyntax`: no leading pipe or `;`, no two operators in a row among the effective characters, and a trailing operator only when the raw line ends in `&` |
| Parser.ConsecutiveOperatorsInvalid | shell/src/parser.c:11-13 | an operator acted on directly after another operator makes the line invalid |
| Parser.LeadingPipeOrSemicolonInvalid | shell/src/parser.c:15 | a pipe or `;` with only skipped characters before it makes the line invalid |
| Parser.LeadingOperatorAfterBlanksInvalid | shell/src/parser.c:9-15 | a line whose first non-blank character is a pipe or `;` is invalid |
| Parser.BlankLineValid | shell/src/parser.c:9 | an empty or all-blank line is valid |
| Parser.BlankSkipped | shell/src/parser.c:9 | appending a blank does not change what the scan acts on |
| Parser.ValidityDependsOnEffective | shell/src/parser.c:5-26 | two lines with the same effective characters and the same "ends in `&`" get the same verdict |
| Parser.OperatorPairInvalid | shell/src/parser.c:11-18 | two operators separated only by blanks are invalid unless they form an adjacent `>>` |
| Parser.TrailingOperatorInvalid | shell/src/parser.c:24 | a line whose last non-blank character is an operator is invalid unless its raw last character is `&` |
| Parser.OperatorFreeValid | shell/src/parser.c:5-26 | text without operators is valid, alone and with a final `&` |
| Parser.TrailingBlankAfterAmpersand | shell/src/parser.c:24 | `sleep 5 &` is valid and `sleep 5 & ` is not: the trailing test looks at the raw last character |
| Parser.AppendNeedsAdjacency | shell/src/parser.c:18 | `a>>b` is valid and `a> >b` is not |
| Parser.Tokenize | shell/src/parser.c:29-46 | the array holds the line's `strtok` tokens on " \t\r\n" in order, `argc` is their count, and the slot after the last token is NULL |
| Prompt.DisplayPath | shell/src/prompt.c:28-36 | the displayed path fits the 4096-byte buffer |
| Prompt.DisplayAtHome | shell/src/prompt.c:29-32 | at the home directory the path is shown as `~` |
| Prompt.DisplayUnderHome | shell/src/prompt.c:29-32 | under the home directory the path is `~` and the remainder, and expanding `~` gives back the working directory |
| Prompt.DisplayOutsideHome | shell/src/prompt.c:33-36 | elsewhere the path is the working directory, cut to 4095 characters |
| Prompt.SiblingShownUnderTilde | shell/src/prompt.c:29-32 | the home test is a textual prefix test: `/home/ann2` under home `/home/ann` is shown as `~2` |
| Prompt.PromptShape | shell/src/prompt.c:39 | the prompt is `<user@host:path> ` with the displayed path in place |
| Prompt.PromptFallbacks | shell/src/prompt.c:9-25 | failed lookups fall back to "user", "system" and the empty path |
| Jobs.ActiveJobsMembers | shell/src/jobs.c:68-70 | the copied listing holds exactly the active slots |
| Jobs.FirstWhere | shell/src/jobs.c:21-22 | the result is the first slot from `from` on that satisfies the test, and none is found only when no slot does |
| Jobs.SignalRem | shell/src/jobs.c:92 | C's `sig % 32`: in [0, 32) for a non-negative dividend, in (-32, 0] for a negative one, and the dividend itself when it is already in range |
| Jobs.Ping | shell/src/jobs.c:87-94 | a wrong argument count is a usage error; with three arguments a signal is sent exactly when the pid exists, the one `atoi` reads, and it is the requested signal's C remainder modulo 32 |
| Jobs.Registered | shell/src/jobs.c:20-37 | the first free slot receives the job with id `next_job_id`, which then advances; no other slot changes; a full table is left as it was |
| Jobs.RegisteredKeepsIdsFresh | shell/src/jobs.c:24 | after registration every id is below the counter and active jobs still have distinct ids |
| Jobs.AddNotice | shell/src/jobs.c:30-36 | a notice is printed unless a stopped job was registered: exactly "[id] pgid" for a running job, exactly "shell: Error: too many background jobs" for a full table |
| Jobs.ReapAll | shell/src/jobs.c:39-55 | a sweep keeps the number of slots |
| Jobs.ReapAllRetires | shell/src/jobs.c:39-55 | a sweep never changes a job's pgid, id or command, never revives a slot, and prints exactly one "Done" notice per job it retires |
| Jobs.ReapUnknownSkipped | shell/src/jobs.c:43-44 | a child of a process group no active job owns is skipped silently |
| Jobs.ReapKnown | shell/src/jobs.c:46-53 | with the lookup by the group the child belonged to, a child of an active job: a stop marks the job Stopped, an exit or kill retires it with a "Done" notice |
| Jobs.ReapAllAsWritten | shell/src/jobs.c:39-55 | the sweep as written, looking each child up by `getpgid`'s answer after the wait, keeps the number of slots |
| Jobs.ReapAsWrittenNeverRetires | shell/src/jobs.c:42-53 | the sweep as written prints no notice and changes no slot except its state, whatever it collects |
| Jobs.FinishedJobStaysActive | shell/src/jobs.c:42-50 | a running job in group 100 whose process exits stays active and unannounced as written, and is retired with a "Done" notice by the corrected sweep |
| Jobs.JobTable.constructor | shell/src/jobs.c:6-7 | the static storage: 64 zeroed slots and `next_job_id == 1` |
| Jobs.JobTable.Init | shell/src/jobs.c:14-18 | every slot becomes inactive and nothing else changes |
| Jobs.JobTable.Add | shell/src/jobs.c:20-37 | `jobs_add` changes the table exactly as `Registered` says, and the issued ids stay strictly increasing |
| Jobs.JobTable.FindByPgid | shell/src/jobs.c:130-138 | no match for `pgid < 1`; otherwise the first active slot of that process group, and none only when there is none |
| Jobs.JobTable.FindByJid | shell/src/jobs.c:140-145 | an active slot with that job id, and none only when there is none |
| Jobs.JobTable.GetLatest | shell/src/jobs.c:147-155 | the active job with the largest id, and none only when no job is active |
| Jobs.JobTable.Reap | shell/src/jobs.c:39-55 | the corrected `jobs_reap` leaves the slots and prints the notices that `ReapAll` gives for the collected children |
| Jobs.JobTable.ReapChild | shell/src/jobs.c:43-53 | one iteration of the sweep changes the slots as `ReapOne` says |
| Jobs.JobTable.KillAll | shell/src/jobs.c:57-63 | SIGKILL goes to the process group of every active job, in slot order, and to nothing else |
| Jobs.JobTable.Activities | shell/src/jobs.c:65-85 | the listing is sorted by command under `strcmp`, is a permutation of the active jobs, and lists jobs with equal commands in slot order; one line is printed per listed job, in listing order |
| Jobs.ActivityLines | shell/src/jobs.c:81-84 | the printing loop yields exactly one `ActivityLine` per job, in order |
| Jobs.ActivityLineFields | shell/src/jobs.c:82-83 | a listing line shows the job's process group in brackets (read back by `atoi`, and not its job id), then its command, and ends in "Running" exactly for a running job |
| Jobs.SwapKeepsOrder | shell/src/jobs.c:74-78 | exchanging neighbours whose commands differ, as the bubble step does only when `strcmp` is positive, keeps the order of the jobs sharing any command |
| Jobs.JobTable.CopyActive | shell/src/jobs.c:66-70 | the copy holds the active jobs in slot order |
| Jobs.BubbleSortByCommand | shell/src/jobs.c:71-80 | the first `n` entries end sorted by command and are a permutation of what was there; the rest of the array is untouched |
| Jobs.BubblePass | shell/src/jobs.c:72-79 | one inner pass carries the greatest command to the end of the unsorted part and permutes only that part |
| Jobs.SwapAdjacent | shell/src/jobs.c:74-78 | the two neighbours are exchanged and nothing else changes |
| Jobs.JobTable.Fg | shell/src/jobs.c:96-114 | no argument picks the job with the largest id, an argument the job with id `atoi(args[1])`; with no such job nothing changes; otherwise a stopped job is continued and the reported status stops it again or retires it |
| Jobs.JobTable.Bg | shell/src/jobs.c:116-125 | a usage error exactly when there is not one argument; "no such job" exactly when no active job has that id; a running job is left alone; a stopped one is continued and marked Running, nothing else changes, and the notice is "[id] command &" for that job |
| Intrinsics.Logged | shell/src/intrinsics.c:191-201 | a `log` line or a repeat of the newest entry is not recorded; otherwise the line becomes the newest entry and, when 15 are held, the oldest is dropped |
| Intrinsics.Recent | shell/src/intrinsics.c:212-218 | index `i` gives the i-th most recent entry exactly when 1 <= i <= count |
| Intrinsics.RecentAfterLogged | shell/src/intrinsics.c:191-218 | a recorded line becomes entry 1 and every kept entry moves one place back |
| Intrinsics.LoggedIdempotent | shell/src/intrinsics.c:193 | recording the same line twice in a row records it once |
| Intrinsics.History.constructor | shell/src/intrinsics.c:9-11 | the history starts empty with `log_start == log_count == 0` |
| Intrinsics.History.Add | shell/src/intrinsics.c:191-201 | the ring buffer's contents, oldest first, become `Logged(old contents, c)`; `log_start` advances only when a full buffer records a line |
| Intrinsics.History.Record | shell/src/intrinsics.c:195-201 | storing into a full ring drops the oldest entry and advances `log_start`; otherwise the count grows by one |
| Intrinsics.History.Get | shell/src/intrinsics.c:212-218 | the ring lookup returns `Recent(contents, index)` |
| Intrinsics.History.List | shell/src/intrinsics.c:147-150 | `log` lists the entries oldest first |
| Intrinsics.History.Purge | shell/src/intrinsics.c:151-153 | `log purge` empties the history |
| Intrinsics.History.DoLog | shell/src/intrinsics.c:146-168 | no argument lists, `purge` empties, `execute N` prints entry N or reports an invalid index, anything else does nothing |
| Intrinsics.IntrinsicOf | shell/src/intrinsics.c:22-31 | the builtin found has `args[0]` as its name, and none is found only when no builtin has that name |
| Intrinsics.IntrinsicOfName | shell/src/intrinsics.c:22-31 | every builtin is dispatched under its own name |
| Intrinsics.IsParentBuiltin | shell/src/intrinsics.c:33-39 | exactly `hop` runs in the shell process |
| Intrinsics.PathArgsMembers | shell/src/intrinsics.c:87-102 | the path arguments are exactly the arguments that are not flag clusters (a bare `-` is a path) |
| Intrinsics.ParseRevealArgs | shell/src/intrinsics.c:87-102 | "Invalid Syntax" exactly when two path arguments are given; otherwise the path is the single one, if any, and `-a`/`-l` are set exactly when some flag cluster holds that letter |
| Intrinsics.ScanFlags | shell/src/intrinsics.c:94-97 | the letter loop finds `a` and `l` exactly when the cluster holds them |
| Intrinsics.LastIndexOf | shell/src/intrinsics.c:113 | `strrchr`: the index of the last occurrence, none only when the character is absent |
| Intrinsics.ParentOfChild | shell/src/intrinsics.c:111-115 | the `..` target of `d/name` is `d` |
| Intrinsics.ParentOfTopLevel | shell/src/intrinsics.c:115 | the `..` target of a top-level directory is `/` |
| Intrinsics.ParentFixedPoints | shell/src/intrinsics.c:114-115 | `/` and a path with no `/` are left alone |
| Intrinsics.RevealTargetOf | shell/src/intrinsics.c:104-118 | `-` fails exactly when no previous directory is recorded; no path and `.` mean the working directory, `~` the shell's home, `..` the cut path, any other path itself |
| Executor.ClausesSeparatorFree | src/executor.c:95-119 | no clause handed to `execute_cmd_group` contains `;` or `&`, and each clause is ended by one of them or by the end of the line |
| Executor.ClausesTerminated | src/executor.c:95-119 | every clause but the last ends at a separator, and an unterminated last clause is non-empty |
| Executor.ClausesRejoin | src/executor.c:95-119 | the clauses and their separators spell the line back: cutting loses nothing |
| Executor.ProcessLine | src/executor.c:87-125 | the clauses go to `execute_cmd_group` left to right, each once, with the background flag of its separator |
| Executor.NextClause | src/executor.c:97-117 | one `strpbrk` step takes the first clause off the line |
| Executor.ActionsOfAt | src/executor.c:95-119 | action `i` is `execute_cmd_group` applied to clause `i` |
| Executor.ExecuteCmdGroup | src/executor.c:129-149 | a blank clause is skipped, a lone `hop` runs in the shell, and any other parsed group is launched with its background flag |
| Executor.BlankClauseSkipped | src/executor.c:131-133 | a clause of white space does nothing |
| Executor.ParentBuiltinInProcess | src/executor.c:137-139 | a lone `hop` runs in the shell, and its separator makes no difference |
| Executor.OtherGroupsLaunched | src/executor.c:141-143 | every other non-empty group goes to `run_cmd_group` with the clause's background flag |
| Executor.Split | src/executor.c:185-202 | no argument is a redirection operator, and arguments plus the words the redirections consumed account for every token |
| Executor.SplitPlain | src/executor.c:197-199 | tokens without operators all become arguments, in order |
| Executor.Cap | src/executor.c:198 | `argv` keeps the first 63 arguments, and all of them when there are no more than 63 |
| Executor.Segments | src/executor.c:167-169 | a group has at most 16 stages |
| Executor.ParseCmdGroup | src/executor.c:157-208 | the stages are the first 16 pipe-separated segments, each trimmed and split into arguments and redirections; only stage 0 carries the group text, cut to 1023 characters |
| Executor.ParseStage | src/executor.c:185-202 | one segment's token loop yields the arguments (capped at 63) and the redirections of `Split` |
| Executor.SegmentsPrefix | src/executor.c:167-204 | the segments parsed so far are a prefix of the group's stages |
| Executor.ApplyRedirections | src/executor.c:266-293 | the child's redirection loop ends in the state `Resolve` gives |
| Executor.ResolveErrors | src/executor.c:270-291 | an input (output) error is recorded exactly when some input (output) redirection failed to open, even if a later one succeeds |
| Executor.ResolveLastInput | src/executor.c:270-279 | standard input comes from the last input redirection, if it opened |
| Executor.ResolveLastOutput | src/executor.c:280-291 | standard output goes to the last output redirection, if it opened, appending for `>>` |
| Executor.ResolveAttemptsAll | src/executor.c:266-293 | every redirection is attempted in order, with one diagnostic per failed `open` |
| Executor.LastOf | src/executor.c:270-291 | the index of the last redirection of one direction, none only when there is none |
| Executor.ChildExitCodes | src/executor.c:295-332 | the child exits 1 exactly when some redirection failed; otherwise 0 after a builtin and 127 when `execvp` fails |
| Executor.FileOverridesPipe | src/executor.c:255-311 | an opened output file replaces the pipe, in every position of the pipeline |
| Executor.WaitRetriesInterrupts | src/executor.c:380-382 | an EINTR result is retried and changes nothing |
| Executor.WaitCompletes | src/executor.c:371-395 | `n` exits or kills, in any order and mixed with interruptions, complete the wait for `n` stages |
| Executor.WaitDoneNeedsExits | src/executor.c:371-395 | the wait reports completion only after at least as many exits as stages |
| Executor.WaitStopsOnStop | src/executor.c:387-390 | a stop ends the wait at once |
| Executor.ForegroundWait | src/executor.c:365-395 | the wait loop ends as `Wait` says for the results `waitpid` returns |
| Executor.RunCmdGroup | src/executor.c:361-428 | a background group is registered as running; a foreground group is waited for, and the table changes only when a stage stopped, registering the group as stopped; the stop notice prints `next_job_id - 1` |
| Executor.StopNoticeId | src/executor.c:418-420 | the stop notice names the stopped job when it was registered, and the previously issued id when the table was full |
| LineLoop.Classify | shell/src/main.c:64-88 | a recognised `log execute N` with a piped remainder has a non-empty remainder |
| LineLoop.ClassifyAlone | shell/src/main.c:118-136 | `log execute N` is recognised exactly when the line's words are "log", "execute" and one more, whose `atoi` value is the index |
| LineLoop.ClassifyPipe | shell/src/main.c:64-88 | a recognised pipe request starts with the words "log", "execute", N and the pipe word, and its remainder holds the line's remaining words |
| LineLoop.PipeWithFiveWords | shell/src/main.c:77-84 | five or more words of that shape are always recognised as a pipe request |
| LineLoop.Splice | shell/src/main.c:100-101 | the spliced pipeline is the historical command, a blank, the pipe character and a blank, then the remainder |
| LineLoop.SplicedWords | shell/src/main.c:100-101 | the spliced pipeline's words are the historical words, the pipe word, then the remainder's words |
| LineLoop.Ordinarily | shell/src/main.c:156-160 | an ordinary line is run exactly when it is valid, and is otherwise rejected |
| LineLoop.Dispatch | shell/src/main.c:62-162 | an empty line does nothing; an ordinary line, or a replay request with N of 0 or less, takes the ordinary path; a found entry is run when valid and reported invalid otherwise, and a found entry spliced with the rest of the line likewise; `process_line` only sees valid text; an invalid index is reported exactly for a positive N beyond the history, looked up after the line itself is offered to the history |
| LineLoop.OnlyValidLinesRun | shell/src/main.c:104-160 | whatever reaches `process_line` passed `is_valid_syntax` |
| LineLoop.NonPositiveIndexIsOrdinary | shell/src/main.c:139-160 | a `log execute` request with an index of 0 or below is handled as an ordinary line |
| LineLoop.ExecuteSeesEarlierHistory | shell/src/main.c:92-93 | a line starting with `log ` is not recorded, so `log execute N` replays the N-th entry of the history before it |
| LineLoop.RecordedRequestReplaysItself | shell/src/main.c:92-93 | a `log execute 1` that the history does record (with a leading blank, say) replays itself |
| LineLoop.ClassifyReplay | shell/src/main.c:64-88 | " log execute 1" is recognised as a replay request, yet is not a `log` line for `log_add` |
| LineLoop.HandleLine | shell/src/main.c:62-162 | a non-empty line is offered to the history first; the reaction is `Dispatch` on the history before the line |

## Findings

| source | as written | input that shows it | evidently intended | confidence | as-written member | corrected member |
|---|---|---|---|---|---|---|
| shell/src/jobs.c:42-43 | `getpgid` is asked for the group of a child that `waitpid` has already collected; an exited or killed child no longer exists, so the answer is -1 and `find_job_by_pgid` finds no job | a background job in group 100 whose only process exits: the sweep leaves it active and prints nothing, so `activities` keeps listing it | the job is retired with a "Done" notice, as the branch at lines 46-50 does | not executed | Jobs.ReapAsWrittenNeverRetires | Jobs.ReapKnown |

## Left out

- Process control is not modelled, because it is operating-system work the verifier cannot see. That covers `pipe`, `fork`, `setpgid`, `dup2`, closing descriptors, `tcsetpgrp`, signal dispositions, `kill`, terminal setup and the `isatty` test. Results of `open`, `execvp`, `waitpid` and `getpgid` and the existence of a pid are parameters instead.
- `hop` (`do_hop`) changes the process's working directory and is not part of this model. Its only modelled trace is the "previous directory" input of `Intrinsics.RevealTargetOf`.
- The `reveal` listing (`opendir`, `readdir`, hidden-file filtering, `qsort`, printing) is left out as filesystem I/O. Argument parsing and target resolution are modelled.
- Log persistence is left out as file I/O: `log_init`, `get_log_path` and the rewrite of the log file in `log_add` and `log purge`. `log purge` also frees slots `0..count-1` rather than the occupied ring slots; that is memory only and not modelled.
- shell/src/input.c (`read_input`) is not part of this model. The line is an input of `LineLoop.HandleLine`.
- The main loop's I/O is left out: the reaper sweep and prompt before each read, the echo of a replayed entry, and end of input (`logout`, then `jobs_kill_all`, which `Jobs.JobTable.KillAll` models).
- Builtins run in a forked child when they are not `hop`, so their effects on the history and job table stay in the child. The model returns what they compute and does not propagate it back to the shell.
- The branch of `process_line` at src/executor.c:101-106 is not modelled because it is unreachable. It fires only for a last clause ending in `&`, and `strpbrk` would have found that `&`.
- The foreground wait after a non-terminal start (src/executor.c:398-416) repeats the modelled loop without the terminal hand-over, so `Executor.ForegroundWait` covers both.
- Running out of memory (`malloc`/`strdup` returning NULL) is not modelled.
- Strings.Atoi: C's behaviour on overflow is undefined; the model gives the mathematical value.
- Strings.StrLe compares Unicode code points where `strcmp` compares bytes as unsigned values. The two orders agree on every string whose bytes are its UTF-8 encoding, since UTF-8 preserves code-point order; they can differ only on byte content that is not valid UTF-8, which `seq<char>` cannot hold.
- Executor.Wait: a finite list of results can run out while stages are still active; that end is `Pending`, where the shell would block in `waitpid`.
- Parser.Tokenize requires fewer than 64 tokens, because the source writes past its 64-slot buffer beyond that.
- Executor.ProcessLine requires every clause to be `Executable`: at most 64 redirections per stage, and a command word in a single-stage group. The source overruns its redirection array or reads `argv[0] == NULL` otherwise.
- Executor.ExecuteCmdGroup requires `Executable`, for the same reasons as `Executor.ProcessLine`.
- Executor.ParseCmdGroup requires every stage's redirections to fit the 64-entry array.
- Executor.ParseStage requires at most 64 redirections in the segment.
- Executor.ChildOf requires a command word when the redirections succeed, because the source reads `argv[0] == NULL` otherwise.
- Jobs.JobTable.Fg takes the one status its single `waitpid` reports as a parameter. It does not model the printing, the terminal hand-over or the SIGCONT call, only whether SIGCONT is sent.
- Prompt.PromptText: user and host names longer than their buffers are not truncated.
- Intrinsics.RevealTargetOf: the `strncpy` into `PATH_MAX` bytes is not modelled, so paths are not truncated.
