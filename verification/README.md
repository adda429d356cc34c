# A verified model of a teaching shell's command-line logic

This project models, in Dafny, the sequential parts of a small Unix teaching
shell written in C. It leaves out the process code (fork, pipes, exec,
waitpid). What it models:

- **Tokenizer** (`Tokenizer`, from `src/shell.c`): `tokenize` turns a line
  into at most `MAXARGS` (64) tokens.
  - Blanks are spaces and tabs. Words end at a blank or at one of `| < > ; &`.
  - A quote at a token start yields the text up to the matching quote.
  - An empty token is dropped, and a line with no token yields NULL.
  - The model returns `NoTokens`, `Tokens(ts)` or `Diverges`. `Diverges` is
    where the C loop would spin for ever.
  - `TokenizeFixed` is a corrected tokenizer that emits an operator as its
    own token.
  - `is_redirection_operator`, `is_pipe_operator` and `is_chain_operator` are
    the predicates `IsRedirectionOperator`, `IsPipeOperator` and
    `IsChainOperator`.
- **Pipeline parser** (`ShellParser`, from `src/shell.c`):
  `parse_command_line` folds the tokens into at most `MAX_COMMANDS` stages.
  - Each stage has arguments, an input file, an output file with an append
    flag, and a background flag.
  - `Scan` is the token loop as a function. `ParseTokens` is the loop over
    an array of stages.
- **Chain splitter** (`Chain`, from `src/shell.c`): `execute_command_chain`
  splits at `;`, trims each piece and parses the non-empty ones.
  - The executor is a parameter, `run: Pipeline -> int`.
  - The model returns the pipelines run, in order, the final status, and
    whether the loop stops at a piece on which the tokenizer spins.
- **History** (`History`, from `src/shell.c`): the ring buffer of
  `add_to_history`, `get_history_command` and `handle_history_execution`.
  - It is a class over an array of slots, with the source's count and index.
  - `Entries()` is its view as the retained commands, oldest first.
  - `strtol` and the `long`-to-`int` conversion are written out.
- **Job table** (`Jobs`, from `src/jobs.c`): `init_jobs`, `add_job`,
  `remove_job` and `update_jobs`, as a class over the slot array and
  `job_count`.
  - The `waitpid` results come in as a sequence of reaped pids, each with
    how the child ended.
  - The job display string built in `src/shell.c` is modelled here too.
- **Variables** (`Variables`, from `src/variable.c`): the bounded name/value
  table (`set_variable`, `get_variable`), `$name` expansion of an argument
  array, the `name=value` validator and the quote stripping of the value.
  - The process environment is a `map` parameter.
- **if/then/else** (`Control`, from `src/control.c`): the `if` keyword test,
  the reader `parse_if_structure`, `execute_condition` and
  `execute_if_block`.
  - The reader pulls lines from a line source, where `None` stands for a
    NULL from readline.
  - The condition's exit status and whether its child was killed are
    parameters.
- **Alternative parser** (`AltParser`, from `src/parser.c`): the older
  `parse_command_line` and `free_pipeline`.
  - `&` anywhere sets the background flag.
  - The line is split at `|`, then at blanks.
  - Plain words after the first redirection are dropped.
  - A stage keeps at most `MAX_ARGS_PER_CMD - 1` arguments.

`Common` holds the shared pieces:

- `Option`;
- the blank tests;
- `Fields`, which models repeated `strtok_r`;
- `Take` and `IndexOf` (C's `strchr`);
- the capacities.

`MAXARGS` is 64, from include/shell.h. `MAX_COMMANDS`, `MAX_ARGS_PER_CMD`,
`HISTORY_SIZE`, `MAX_JOBS` and `MAX_VARIABLES` are not defined in any header
that is part of this model. They are symbolic positive constants, and every
property holds for any positive value.

## Model

| member | source | states |
|---|---|---|
| Common.SkipBlanks | src/shell.c:44 | the index reached is the first non-blank at or after the start; everything skipped is a space or tab |
| Common.TrimLeftShape | src/control.c:63-65 | the trimmed line is a suffix of the line; what was removed is all blanks; it starts with a non-blank unless empty |
| Common.Fields | src/shell.c:108-124 | the pieces of repeated strtok_r are non-empty and free of delimiters |
| Common.FieldsConcat | src/shell.c:108-124 | splitting `a;b` gives the pieces of `a` followed by the pieces of `b` |
| Common.IndexOf | src/variable.c:136 | strchr: found exactly when the character occurs, at its first occurrence |
| Tokenizer.QuoteEnd | src/shell.c:55-58 | the quote scan stops at the first matching quote or at the end of the line |
| Tokenizer.WordEnd | src/shell.c:62-66 | the word scan stops at the first blank or operator character, or at the end |
| Tokenizer.StepAt | src/shell.c:44-74 | a pass of the outer loop that emits a token moves the cursor forward and emits a non-empty token; a skip also moves forward |
| Tokenizer.ScanStep | src/shell.c:43-74 | the loop body over the line computes exactly the step StepAt describes, including the stuck case |
| Tokenizer.TokenizeLine | src/shell.c:26-84 | the loop returns what Tokenize says: NULL, the tokens, or divergence where the C loop would not end |
| Tokenizer.Tokenize | src/shell.c:26-84 | a token array has between 1 and MAXARGS entries, none empty |
| Tokenizer.BlankLineHasNoTokens | src/shell.c:28-80 | an empty line, a line starting with a newline, or a blank-only line gives NULL |
| Tokenizer.LeadingOperatorDiverges | src/shell.c:62-67 | an unquoted operator character where the first token starts makes the loop spin |
| Tokenizer.WordThenOperatorDiverges | src/shell.c:43-75 | a word directly followed by an operator character makes the loop spin on that operator |
| Tokenizer.QuotedToken | src/shell.c:52-59 | a quoted run after blanks is one token without its quotes, with no escape handling |
| Tokenizer.UnterminatedQuote | src/shell.c:55-59 | an unterminated quote runs to the end of the line |
| Tokenizer.EmptyQuotes | src/shell.c:52-80 | `""` or `''` yields no token, hence NULL |
| Tokenizer.PlainLineIsFieldSplit | src/shell.c:43-83 | on a line without quotes or operator characters the tokens are the first MAXARGS blank-separated words |
| Tokenizer.OperatorAt | src/shell.c:62-63 | where the source is stuck on an operator character at a token start, the corrected token is `>>` exactly when `>>` is there, else that one character; this emission has no counterpart in the source |
| Tokenizer.FixedStepAt | src/shell.c:43-74 | a step of the corrected loop is never stuck and always moves forward |
| Tokenizer.TokenizeFixed | src/shell.c:26-84 | the corrected tokenizer stops on every line and also returns 1..MAXARGS non-empty tokens |
| Tokenizer.FixedAgreesWhenOriginalStops | src/shell.c:43-75 | wherever the source's tokenizer stops, the corrected one returns the same result |
| Tokenizer.PipeWithoutBlanks | src/shell.c:62-67 | `a\|b` spins in the source and gives `a`, `\|`, `b` once corrected |
| ShellParser.ScanBounded | src/shell.c:152-162 | the token loop never closes more than MAX_COMMANDS stages |
| ShellParser.StageCountBounded | src/shell.c:152-193 | a parsed pipeline has at most MAX_COMMANDS stages |
| ShellParser.ScanPipes | src/shell.c:153-162 | every `\|` closes a stage, empty or not, until MAX_COMMANDS are closed |
| ShellParser.CurrentSlot | src/shell.c:145-157 | the slot `current_cmd` points at when the loop ends is at most MAX_COMMANDS, one past the array |
| ShellParser.PipeAtLimitOverrunsStages | src/shell.c:152-162 | MAX_COMMANDS pipe tokens leave `current_cmd` at `commands[MAX_COMMANDS]`, past the end |
| ShellParser.ParseTokens | src/shell.c:145-193 | the loop over the stage array builds exactly the pipeline of the fold, within MAX_COMMANDS stages |
| ShellParser.ParseCommandLineAsWritten | src/shell.c:132-143 | `parse_command_line` with the source's tokenizer: no result exactly when the tokenizer spins on a non-empty line; a built pipeline has at most MAX_COMMANDS stages |
| ShellParser.ParseCommandLine | src/shell.c:132-143 | over the corrected tokenizer: NULL where the source returns NULL, the source's pipeline wherever it builds one, and at most MAX_COMMANDS stages |
| ShellParser.BlankLineHasNoPipeline | src/shell.c:133-143 | a blank line yields no pipeline |
| ShellParser.ScanWords | src/shell.c:183-186 | plain words are appended to the current stage's arguments in order |
| ShellParser.PipelineOfGroups | src/shell.c:152-193 | up to MAX_COMMANDS groups of words joined by `\|` make one stage each; an empty last group does not count |
| ShellParser.PipelineTruncated | src/shell.c:152 | groups beyond the first MAX_COMMANDS are dropped without notice |
| ShellParser.ScanRedirections | src/shell.c:163-179 | each redirection sets its direction's path from the next token; `>` clears and `>>` sets the append flag; a later one overwrites |
| ShellParser.WordsThenRedirections | src/shell.c:163-186 | words followed by redirections give one stage with those words and the redirections applied in order |
| ShellParser.RedirectKeepsArgs | src/shell.c:163-179 | redirections never change the argument list |
| ShellParser.MissingPathIgnored | src/shell.c:163-179 | a redirection operator with no token after it changes nothing |
| ShellParser.TrailingAmpersand | src/shell.c:180-182 | `&` as the last token sets the stage's background flag and is dropped |
| ShellParser.InnerAmpersandIsArgument | src/shell.c:180-186 | `&` anywhere else is an ordinary argument |
| Chain.TrimTrailing | src/shell.c:112-114 | the backward scan strips trailing blanks and `;` but never the first character |
| Chain.TrimSegment | src/shell.c:111-114 | a trimmed piece starts with a non-blank and, when longer than one character, ends with neither a blank nor `;` |
| Chain.ExecuteChain | src/shell.c:102-129 | the loop runs the parsed pipelines of the trimmed pieces in order up to the first piece on which the source's tokenizer spins, and reports whether it stops there; the status is that of the last pipeline run, 0 if none |
| Chain.FirstHang | src/shell.c:108-117 | the first piece on which `parse_command_line` spins: no earlier piece does |
| Chain.RunnableAsWritten | src/shell.c:115-121 | on a piece that does not hang, the corrected parse runs what the source runs |
| Chain.PipeLineHangs | src/shell.c:108-117 | on `a\|b` the chain spins at its first and only piece and runs nothing |
| Chain.LastStatus | src/shell.c:119 | the final status is the status of the last pipeline run |
| Chain.ExecutedAppend | src/shell.c:108-125 | the pipelines of two piece lists are those of the first followed by those of the second |
| Chain.ChainOfTwo | src/shell.c:108-125 | `a;b` runs what `a` runs, then what `b` runs, whatever the statuses |
| Chain.StatusOfTwo | src/shell.c:106-128 | the status of `a;b` is that of `b` if `b` ran anything, else that of `a` |
| Chain.TrimSurrounding | src/shell.c:111-114 | blanks around a piece's text are removed |
| Chain.SeparatorsRunNothing | src/shell.c:106-128 | a line of blanks and `;` runs nothing and yields status 0 |
| Chain.SingleSegment | src/shell.c:108-122 | a line without `;` runs at most its own trimmed text |
| History.PushedNew | src/shell.c:420-428 | a new command is appended; on a full buffer the oldest entry is dropped; the count stays within HISTORY_SIZE |
| History.PushedUnchanged | src/shell.c:412-418 | the entries stay as they are exactly when the command is empty or equals the newest entry |
| History.PushedIdempotent | src/shell.c:414-418 | adding the same command twice in a row is adding it once |
| History.PushedKeepsShape | src/shell.c:411-429 | entries stay non-empty and no entry repeats its predecessor |
| History.HistoryOfAdds | src/shell.c:411-429 | from an empty history, after any sequence of adds the entries are the last HISTORY_SIZE of the commands kept, i.e. those that are non-empty and differ from the command kept before them |
| History.WindowSnoc | src/shell.c:420-428 | dropping the oldest entries down to HISTORY_SIZE and then adding one is the same as adding and then dropping |
| History.Strtol | src/shell.c:461 | nothing is converted (end 0, value 0) exactly when no digit follows the leading white space and optional sign; otherwise the end is just past the longest digit run there and the value is that run's, negated after `-` |
| History.StrtolDecimal | src/shell.c:461 | strtol reads a decimal numeral back as its value and stops at its end |
| History.StrtolSigned | src/shell.c:461 | white space, a sign and a numeral followed by a non-digit are read as the signed value, ending after the numeral |
| History.ToInt32 | src/shell.c:461 | the `int` conversion lies in the 32-bit range and agrees with the value modulo 2^32 |
| History.HistoryNumberAsWritten | src/shell.c:460-466 | the source accepts the number exactly when strtol converts something and reaches the end of the text |
| History.HistoryNumber | src/shell.c:460-466 | the same acceptance, with the exact value of the numeral |
| History.NumeralRead | src/shell.c:461-463 | a numeral in the 32-bit range is read as its value by both |
| History.FitsInt32 | src/shell.c:461 | a value in the 32-bit range survives strtol's clamp and the `int` conversion |
| History.TrailingTextRejected | src/shell.c:463 | a numeral followed by a non-digit is rejected |
| History.WrappedNumber | src/shell.c:461 | the source reads n + 2^32 as n |
| History.SignedNumber | src/shell.c:460-466 | white space, a sign and a numeral are accepted as the signed value, by the source too when it lies in the 32-bit range |
| History.HistoryBuffer.Start | src/shell.c:447 | the oldest entry's slot is `(index - count + 1 + HISTORY_SIZE) % HISTORY_SIZE` and lies in the array |
| History.HistoryBuffer.Slot | src/shell.c:448 | the (i+1)-th oldest entry sits at `(start + i) % HISTORY_SIZE` |
| History.HistoryBuffer.constructor | src/shell.c:5-7 | all slots NULL, count and index 0, no entries |
| History.HistoryBuffer.Add | src/shell.c:411-429 | `add_to_history` keeps the buffer invariant and makes the entries Pushed of the old entries |
| History.HistoryBuffer.Push | src/shell.c:420-428 | advancing the index and storing the command appends it, dropping the oldest entry of a full buffer |
| History.HistoryBuffer.EntriesInSlots | src/shell.c:437-440 | the i-th retained entry is in slot `(start + i) % HISTORY_SIZE` |
| History.HistoryBuffer.Get | src/shell.c:444-450 | `get_history_command(n)` is the n-th oldest entry for 1 <= n <= count and NULL otherwise |
| History.RecallByNumber | src/shell.c:452-479 | `!N` for a retained N is replaced by entry N |
| History.RecallSpacedNumber | src/shell.c:452-479 | blanks and a `+` after `!` are skipped, so `! 1` recalls entry 1 |
| History.RecallNegativeLeftAlone | src/shell.c:452-479 | `!-N` names no entry and leaves the line alone |
| History.HistoryBuffer.Recall | src/shell.c:452-479 | the line is replaced exactly when it is `!` and a fully valid number N in 1..count, and then by entry N; otherwise it is left as it is |
| History.HistoryBuffer.RecallAsWritten | src/shell.c:452-479 | the same with the number truncated to an `int` as the source does |
| History.RecallRejectsTrailingText | src/shell.c:463-466 | `!N` followed by a non-digit is left alone |
| History.RecallWrapped | src/shell.c:461-476 | the source replaces `!` followed by n + 2^32 with entry n; the corrected recall leaves it alone |
| Jobs.FirstWithPid | src/jobs.c:40-41 | the search finds the lowest slot holding the pid, or reports that none does |
| Jobs.FreeSlotExists | src/jobs.c:20-26 | with a correct count below MAX_JOBS a free slot exists |
| Jobs.AddKeepsCount | src/jobs.c:25-31 | `add_job` of a real pid keeps `job_count` equal to the number of occupied slots |
| Jobs.AddFillsLowestFree | src/jobs.c:20-33 | `add_job` fills the lowest free slot with job id index+1 and status 0 and changes no other slot; a full table is unchanged |
| Jobs.RemoveKeepsCount | src/jobs.c:39-52 | `remove_job` of a real pid keeps the count right |
| Jobs.RemoveFreePidMiscounts | src/jobs.c:41-49 | `remove_job(-1)` matches a free slot and still decrements the count |
| Jobs.DuplicatePids | src/jobs.c:25-41 | the same pid is accepted twice, and removing it frees only the lower slot |
| Jobs.UpdateKeepsCount | src/jobs.c:56-73 | the reap pass keeps the count right |
| Jobs.UpdateOnlyFreesReaped | src/jobs.c:60-72 | the reap pass frees only slots whose pid was reaped, changes nothing else, and gives at most one notice per pid |
| Jobs.UnknownPidIgnored | src/jobs.c:61-71 | a reaped pid that no job holds changes nothing and prints nothing |
| Jobs.KnownPidReaped | src/jobs.c:61-70 | a reaped pid frees its job's slot and prints Done or Killed by how the child ended |
| Jobs.JobTable.constructor | src/jobs.c:8-16 | every slot free, count 0 |
| Jobs.JobTable.Init | src/jobs.c:8-16 | `init_jobs` frees every slot and sets the count to 0, which satisfies the count invariant |
| Jobs.JobTable.AddJob | src/jobs.c:19-36 | the new slots and count are those of AddedJobs and AddedCount; the count invariant holds for a real pid |
| Jobs.JobTable.RemoveJob | src/jobs.c:39-53 | the new slots and count are those of RemovedJobs and RemovedCount; the count invariant holds for a real pid |
| Jobs.JobTable.ReapPid | src/jobs.c:61-71 | one reaped pid changes the table and prints as Reap says |
| Jobs.JobTable.ReapAll | src/jobs.c:60-72 | the while loop changes the table and prints as UpdateFrom says, stopping at the first pid <= 0 |
| Jobs.JobTable.UpdateJobs | src/jobs.c:56-73 | `update_jobs` gives UpdateFrom's table and notices and keeps the count invariant |
| Jobs.JobCommandConcat | src/shell.c:289-292 | the display string of joined argument lists is the concatenation of their display strings |
| Jobs.JobCommandLength | src/shell.c:288-292 | its length is the total argument length plus one per argument |
| Jobs.JobCommandOfOne | src/shell.c:338-342 | one argument is displayed followed by one space |
| Variables.FindName | src/variable.c:33-34 | the search finds the first binding with the name, or reports that none exists |
| Variables.SetThenLookup | src/variable.c:33-47 | after a set returns 0, the name reads back as the value |
| Variables.SetLeavesOthers | src/variable.c:33-47 | setting one name changes no other name's value |
| Variables.SetShape | src/variable.c:29-51 | -1 exactly for a new name in a full table, which is then unchanged; a known name keeps the size; a new name is appended; names stay distinct and within MAX_VARIABLES |
| Variables.AssignmentShape | src/variable.c:132-162 | a token is an assignment exactly when an `=` after position 0 has an identifier before it |
| Variables.AssignmentOf | src/variable.c:136-161 | an identifier, `=` and any value is an assignment split at that `=` |
| Variables.Unquote | src/variable.c:180-187 | quote stripping never lengthens the value |
| Variables.UnquoteQuoted | src/variable.c:180-187 | a quoted value loses its quotes and everything after the closing quote |
| Variables.UnquoteUnmatched | src/variable.c:180-187 | an unmatched quote, or none, leaves the value verbatim |
| Variables.VariableStore.constructor | src/variable.c:9-13 | all slots NULL and count 0, so no bindings |
| Variables.VariableStore.SetVariable | src/variable.c:29-51 | a NULL argument returns -1 and changes nothing; otherwise the table and result are SetBinding's; the invariant holds |
| Variables.VariableStore.GetVariable | src/variable.c:54-65 | NULL for a NULL name; the table's value when the name is bound; else the environment's value or NULL |
| Variables.VariableStore.ExpandVariables | src/variable.c:68-95 | each argument becomes its expansion under `get_variable`, and the count of arguments is kept |
| Variables.VariableStore.HandleVariableAssignment | src/variable.c:165-192 | 0 and no change for a non-assignment; otherwise the name before the first `=` is set to the unquoted value |
| Variables.AssignQuoted | src/variable.c:165-189 | `NAME="text"rest` stores text under NAME when there is room or NAME is known |
| Variables.ExpandAfterSet | src/variable.c:80-87 | `$n` expands to the value just stored under n, whatever the environment holds |
| Variables.ExpandUnknown | src/variable.c:88-92 | `$n` bound nowhere expands to the empty string |
| Variables.ExpandLeavesOthers | src/variable.c:77-80 | an argument that is not `$` plus at least one character, a bare `$` included, is unchanged |
| Control.IfLineShape | src/control.c:13-16 | after blanks, `if` is the keyword exactly when a blank or the end follows it |
| Control.ConditionOverread | src/control.c:49-54 | the source reads past the line exactly when fewer than two characters follow the blanks; otherwise it agrees with the corrected extraction |
| Control.ConditionOfIfLine | src/control.c:49-54 | `if cond` with blanks before and after `if` yields cond |
| Control.AppendBounded | src/control.c:75-77 | a statement list never grows beyond MAX_COMMANDS |
| Control.Step | src/control.c:59-115 | each step reads one line or leaves its loop, so the reader ends |
| Control.ParseIfStructure | src/control.c:30-118 | the three loops with their flags return the block and read position of ReadIfBlock |
| Control.MachineBounded | src/control.c:75-97 | the then-list and else-list never exceed MAX_COMMANDS, and the else-list is empty without `else` |
| Control.ReadIfBlock | src/control.c:30-118 | NULL exactly when the first read hits the end of input; otherwise the condition comes from the first line by the corrected extraction, both lists are bounded, and reading stays within the lines |
| Control.ThenStep | src/control.c:74-77 | a then-statement's trimmed text is appended while there is room |
| Control.ElseStep | src/control.c:94-97 | an else-statement, `else` included, is appended while there is room |
| Control.SkipStep | src/control.c:103-115 | the skip loop drops every line other than `fi` |
| Control.AppendAllKeepsFirst | src/control.c:75-77 | of the trimmed statements, the first MAX_COMMANDS are kept and the rest dropped silently |
| Control.ElseLine | src/control.c:67-70 | `else` in the then-phase switches to the else-phase and sets has_else |
| Control.FiLine | src/control.c:71-73 | `fi` ends whichever loop is running |
| Control.EndOfLines | src/control.c:60-61 | past the last line the then-loop stops where it is |
| Control.BlockWithoutElse | src/control.c:42-117 | if-line, statements, `fi` gives the condition and the first MAX_COMMANDS trimmed statements, with no else |
| Control.BlockWithElse | src/control.c:42-117 | with an `else`, both lists are read, each kept to MAX_COMMANDS |
| Control.ThenToElse | src/control.c:59-80 | then-statements up to `else` are appended and the else-phase begins |
| Control.ElseToFi | src/control.c:83-100 | else-statements up to `fi` are appended and reading stops after `fi` |
| Control.EndOfInputInThen | src/control.c:59-117 | end of input inside the then-part returns the partial block |
| Control.SkipAfterEndOfInput | src/control.c:102-117 | after a NULL inside the block, lines are read and dropped up to `fi` |
| Control.SkipLines | src/control.c:103-115 | the skip loop passes over any lines without `fi` |
| Control.ExecuteCondition | src/control.c:120-149 | with the condition's own exit status: anything but 1 only for a parsed, non-empty, unkilled condition, which yields its exit code |
| Control.ExecuteConditionAsWritten | src/control.c:120-149 | as written the result is 0 or 1, and equals the corrected status for a condition that always exits 0 |
| Control.ConditionAlwaysSucceeds | src/control.c:121-148 | as written every parsed condition whose child is not killed yields 0; the corrected status is the condition's exit code |
| Control.FalseConditionRunsElse | src/control.c:137-169 | for a failing condition the source takes the then-branch, the corrected status the else-branch |
| Control.ParsedAppend | src/control.c:160-168 | the pipelines of two statement lists are those of the first followed by those of the second |
| Control.DispatchRule | src/control.c:158-180 | status 0 runs the then-statements; any other status runs the else-statements, which are empty without `else` |
| Control.ExecuteIfBlock | src/control.c:152-183 | -1 and nothing run for NULL; otherwise 0, and every parsed statement of the branch chosen by the corrected condition status runs in order |
| AltParser.AltParse | src/parser.c:6-73 | NULL exactly for the empty line; background exactly when the line holds `&`; one stage for each of the first MAX_COMMANDS `\|` pieces before the first `&`, in order |
| AltParser.BeforeAmpersand | src/parser.c:14-18 | the truncated line has no `&` |
| AltParser.ParseStage | src/parser.c:24-68 | the inner word loop builds exactly the stage that ParseWords describes |
| AltParser.ParseCommandLine | src/parser.c:6-73 | the nested strtok_r loops build exactly the pipeline AltParse describes |
| AltParser.ParseWordsBounded | src/parser.c:35 | a stage never holds more than MAX_ARGS_PER_CMD - 1 arguments |
| AltParser.AltParseShape | src/parser.c:6-73 | NULL exactly for the empty line; one stage per `\|` piece up to MAX_COMMANDS; bounded arguments; background exactly when `&` occurs |
| AltParser.AfterAmpersandIgnored | src/parser.c:14-18 | text after the first `&` never matters |
| AltParser.PlainWordsTaken | src/parser.c:59-62 | plain words are arguments while argument mode is on and there is room |
| AltParser.PlainWordsDropped | src/parser.c:33-62 | after a redirection plain words are read and dropped |
| AltParser.RedirectionStep | src/parser.c:36-58 | a redirection with its path sets that direction and ends argument mode |
| AltParser.RedirectionEndsArguments | src/parser.c:32-65 | words, one redirection and more words give the first words as arguments and that redirection |
| AltParser.ArgumentCap | src/parser.c:35 | once MAX_ARGS_PER_CMD - 1 arguments are read, everything else in the stage, redirections included, is ignored |
| AltParser.LastRedirectionWins | src/parser.c:43-58 | a later output redirection replaces an earlier one, with its own append flag |
| AltParser.MissingPathIgnored | src/parser.c:36-58 | a redirection operator without a path changes nothing |
| AltParser.FreePipeline | src/parser.c:75-90 | nothing for NULL; otherwise each stage's arguments and present file names, in order |
| AltParser.ParseWordsOwns | src/parser.c:41-61 | every string a stage owns came from its word list |
| AltParser.StageOwnsWords | src/parser.c:32-61 | every string a stage owns is one of the blank-separated words of its piece |

## Left out

- Processes and file descriptors are not modelled: `execute_pipeline`, `execute_single_command`, `setup_redirection` and `cleanup_zombies`, and the fork/exec/wait of `execute_condition`. Exit statuses, whether a child was killed, and the pids `waitpid` reaps are inputs instead.
- readline is replaced by a sequence of lines. `read_cmd`, and the `rl_replace_line`/`rl_redisplay` calls of `is_control_structure`, are not modelled; only that function's keyword test is.
- Printing-only routines are not modelled: `print_history`, `print_jobs`, `print_variables`, `execute_help`. The printed notices of `update_jobs` are returned as values; the other messages are not.
- `execute_cd` and `init_variables` are not modelled, because they call chdir and getenv. Only the clearing part of `init_variables` appears, as the `VariableStore` constructor.
- src/main.c, src/execute.c and `execute` are not modelled, because they only wire the loop to the process code.
- malloc, strdup and free are left out: strings are values. The leak when a redirection path is overwritten therefore does not appear. `FreePipeline` returns the strings it would release.
- Jobs.JobCommandLength: the `char job_cmd[1024]` buffer overflow is stated only as the bound `FitsJobBuffer`. No bytes beyond the buffer are modelled.
- `MAX_COMMANDS`, `MAX_ARGS_PER_CMD`, `HISTORY_SIZE`, `MAX_JOBS` and `MAX_VARIABLES` are symbolic, because their header is not part of this model.
- `parse_command_line` in src/shell.c never sets `pipeline->background`, which stays uninitialised, so the model's `Pipeline` has no such field. Only the per-stage flag exists.
- `parse_command_line` in src/shell.c stores arguments without comparing `arg_index` to `MAX_ARGS_PER_CMD`. A stage's arguments are an unbounded sequence, so an overflow of `args[]` is not modelled; the tokenizer's MAXARGS bound limits it.
- Control's calls to `parse_command_line` are modelled with ShellParser.ParseCommandLine, which uses the corrected tokenizer. A statement on which the source's tokenizer would hang is parsed instead.
- Chain.ChainOfTwo, like the other lemmas about `Executed` (StatusOfTwo, SeparatorsRunNothing, SingleSegment), parses with the corrected tokenizer. On a line with a piece that hangs it describes the corrected chain, since the source never gets past that piece; ExecuteChain itself stops there.
- Control.ExecuteIfBlock chooses the branch by the corrected status `ExecuteCondition`. The source's always-0 child is `ExecuteConditionAsWritten`, which is `ExecuteCondition` with exit code 0 for every condition.
- Strings are sequences of characters. Multi-byte encodings and locale effects on `isspace` are not modelled; `IsSpace` is the "C" locale set.
- Control.ReadIfBlock, and ParseIfStructure with it, stores the corrected `ExtractCondition`, which is the empty condition where the source reads past the line at src/control.c:51. The over-read itself is exhibited only by `ConditionAsWritten`, as `None`; what the source then copies from memory past the line is not modelled.
- Variables.VariableStore.HandleVariableAssignment takes the token by value. The `*end_quote = '\0'` write into the caller's token (src/variable.c:184) is not modelled.
- AltParser.ParseCommandLine takes the line by value. The `*bg_ptr = '\0'` write (src/parser.c:17) and the NULs strtok_r writes into the line (src/parser.c:21, 32) are not modelled, so the caller's buffer is unchanged in the model.

## Findings

| source | as written | input that shows it | evidently intended | confidence | as-written member | corrected member |
|---|---|---|---|---|---|---|
| src/shell.c:62-67 | an unquoted `\|`, `<`, `>`, `;` or `&` at a token start moves neither `len` nor `cp`, so the loop spins for ever | `a\|b`, or `ls \| wc` | emit the operator as a token of its own | not executed | Tokenizer.PipeWithoutBlanks | Tokenizer.TokenizeFixed |
| src/shell.c:152-162 | the `\|` that makes `num_commands` reach MAX_COMMANDS points `current_cmd` at `commands[MAX_COMMANDS]` and writes four fields there | a line of MAX_COMMANDS `\|` tokens, quoted as `'\|'` so that the tokenizer passes them | stop opening stages at the limit | not executed | ShellParser.PipeAtLimitOverrunsStages | ShellParser.ParseTokens |
| src/control.c:51 | `condition += 2` is applied even when fewer than two characters follow the blanks, reading past the line | the line `x` (or an empty line) at the `if> ` prompt | skip only an `if` that is present | not executed | Control.ConditionOverread | Control.ConditionOfIfLine |
| src/control.c:137 | the condition's child always exits with 0, so every condition that parses succeeds | `if false` with an else-part | return the condition's own exit status | not executed | Control.ConditionAlwaysSucceeds | Control.FalseConditionRunsElse |
| src/shell.c:461 | the `long` from strtol is stored in an `int`, so `!` followed by n + 2^32 recalls entry n | `!4294967297` with at least one entry in the history | reject numbers outside the `int` range | not executed | History.RecallWrapped | History.RecallByNumber |
