/**
 * `parse_command_line` of src/shell.c: folds the token array into the stages
 * of a pipeline. A `|` token closes the current stage (even an empty one);
 * `<`, `>` and `>>` take the next token as a path; `&` as the very last token
 * sets the current stage's background flag; every other token is an
 * argument. The scan stops once MAX_COMMANDS stages are closed, and the last
 * stage only counts when it has an argument.
 *
 * The C code keeps `current_cmd` pointing at `commands[num_commands]`; the
 * `|` that makes num_commands reach MAX_COMMANDS re-points it one slot past
 * the end of the array and initialises that slot (`CurrentSlot`,
 * `PipeAtLimitOverrunsStages`). The method `ParseTokens` is the corrected
 * loop: it does not open a stage beyond the array.
 */
module ShellParser {
  import opened Common
  import opened Tokenizer

  /** One stage (`command_t`): arguments, redirections and the per-stage `&` flag. */
  datatype Stage = Stage(
    args: seq<string>,
    inputFile: Option<string>,
    outputFile: Option<string>,
    appendOutput: bool,
    background: bool)

  /** A parsed line; `num_commands` is `|commands|`. */
  datatype Pipeline = Pipeline(commands: seq<Stage>)

  /** A freshly (re)initialised `current_cmd`. */
  const EmptyStage: Stage := Stage([], None, None, false, false)

  /** The loop variables: the closed stages and the stage being filled. */
  datatype LoopState = LoopState(done: seq<Stage>, cur: Stage)

  const Start: LoopState := LoopState([], EmptyStage)

  /** The `for` loop of `parse_command_line` applied to the tokens still to come. */
  function Scan(toks: seq<string>, st: LoopState): LoopState
    decreases |toks|
  {
    if toks == [] || |st.done| >= MAX_COMMANDS then st
    else
      var t := toks[0];
      if IsPipeOperator(t) then
        Scan(toks[1..], LoopState(st.done + [st.cur], EmptyStage))
      else if t == "<" then
        if |toks| > 1 then Scan(toks[2..], st.(cur := st.cur.(inputFile := Some(toks[1]))))
        else Scan(toks[1..], st)
      else if t == ">" then
        if |toks| > 1 then Scan(toks[2..], st.(cur := st.cur.(outputFile := Some(toks[1]), appendOutput := false)))
        else Scan(toks[1..], st)
      else if t == ">>" then
        if |toks| > 1 then Scan(toks[2..], st.(cur := st.cur.(outputFile := Some(toks[1]), appendOutput := true)))
        else Scan(toks[1..], st)
      else if t == "&" && |toks| == 1 then
        Scan(toks[1..], st.(cur := st.cur.(background := true)))
      else
        Scan(toks[1..], st.(cur := st.cur.(args := st.cur.args + [t])))
  }

  /** "Finish the last command": it counts only when it has an argument. */
  function Close(st: LoopState): Pipeline {
    Pipeline(if |st.cur.args| > 0 then st.done + [st.cur] else st.done)
  }

  /** The pipeline built from a token array. */
  function ParseTokensSpec(toks: seq<string>): Pipeline {
    Close(Scan(toks, Start))
  }

  /**
   * The index of `commands[]` that `current_cmd` points at when the loop
   * ends; the C code has written the fields of that slot.
   */
  function CurrentSlot(toks: seq<string>): (k: nat)
    ensures k <= MAX_COMMANDS
  {
    ScanBounded(toks, Start);
    |Scan(toks, Start).done|
  }

  predicate Bounded(st: LoopState) {
    |st.done| <= MAX_COMMANDS && (|st.done| == MAX_COMMANDS ==> st.cur == EmptyStage)
  }

  lemma {:induction false} ScanBounded(toks: seq<string>, st: LoopState)
    requires Bounded(st)
    ensures Bounded(Scan(toks, st))
    decreases |toks|
  {
    if toks == [] || |st.done| >= MAX_COMMANDS {
    } else {
      var t := toks[0];
      if IsPipeOperator(t) {
        ScanBounded(toks[1..], LoopState(st.done + [st.cur], EmptyStage));
      } else if t == "<" {
        if |toks| > 1 {
          ScanBounded(toks[2..], st.(cur := st.cur.(inputFile := Some(toks[1]))));
        } else {
          ScanBounded(toks[1..], st);
        }
      } else if t == ">" {
        if |toks| > 1 {
          ScanBounded(toks[2..], st.(cur := st.cur.(outputFile := Some(toks[1]), appendOutput := false)));
        } else {
          ScanBounded(toks[1..], st);
        }
      } else if t == ">>" {
        if |toks| > 1 {
          ScanBounded(toks[2..], st.(cur := st.cur.(outputFile := Some(toks[1]), appendOutput := true)));
        } else {
          ScanBounded(toks[1..], st);
        }
      } else if t == "&" && |toks| == 1 {
        ScanBounded(toks[1..], st.(cur := st.cur.(background := true)));
      } else {
        ScanBounded(toks[1..], st.(cur := st.cur.(args := st.cur.args + [t])));
      }
    }
  }

  /** A pipeline never has more than MAX_COMMANDS stages. */
  lemma StageCountBounded(toks: seq<string>)
    ensures |ParseTokensSpec(toks).commands| <= MAX_COMMANDS
  {
    ScanBounded(toks, Start);
  }

  /** n pipe tokens. */
  function Pipes(n: nat): (r: seq<string>)
    ensures |r| == n && forall k | 0 <= k < n :: r[k] == "|"
  {
    seq(n, _ => "|")
  }

  lemma {:induction false} ScanPipes(n: nat, done: seq<Stage>)
    requires |done| <= MAX_COMMANDS
    ensures |Scan(Pipes(n), LoopState(done, EmptyStage)).done|
      == if |done| + n < MAX_COMMANDS then |done| + n else MAX_COMMANDS
  {
    if n > 0 && |done| < MAX_COMMANDS {
      assert Pipes(n)[1..] == Pipes(n - 1);
      ScanPipes(n - 1, done + [EmptyStage]);
    }
  }

  /**
   * MAX_COMMANDS pipe tokens (quoted `"|"` reaches the parser as a pipe)
   * leave `current_cmd` at `commands[MAX_COMMANDS]`, one past the array,
   * after writing its fields.
   */
  lemma PipeAtLimitOverrunsStages()
    ensures CurrentSlot(Pipes(MAX_COMMANDS)) == MAX_COMMANDS
  {
    ScanPipes(MAX_COMMANDS, []);
  }

  /**
   * The loop of `parse_command_line` over an array of MAX_COMMANDS stages,
   * with the array bound respected: after the `|` that fills the array no
   * new stage is opened.
   */
  method ParseTokens(toks: seq<string>) returns (p: Pipeline)
    ensures p == ParseTokensSpec(toks)
    ensures |p.commands| <= MAX_COMMANDS
  {
    var commands := new Stage[MAX_COMMANDS](_ => EmptyStage);
    var numCommands := 0;
    var argIndex := 0;
    commands[0] := EmptyStage;
    var i := 0;
    while i < |toks| && numCommands < MAX_COMMANDS
      invariant 0 <= i <= |toks| && 0 <= numCommands <= MAX_COMMANDS
      invariant numCommands < MAX_COMMANDS ==>
        argIndex == |commands[numCommands].args| &&
        Scan(toks[i..], LoopState(commands[..numCommands], commands[numCommands])) == Scan(toks, Start)
      invariant numCommands == MAX_COMMANDS ==>
        argIndex == 0 &&
        Scan(toks[i..], LoopState(commands[..numCommands], EmptyStage)) == Scan(toks, Start)
      decreases |toks| - i
    {
      var t := toks[i];
      ghost var rest := toks[i..];
      assert rest[0] == t;
      var cur := commands[numCommands];
      ghost var closed := commands[..numCommands];
      if IsPipeOperator(t) {
        commands[numCommands] := cur;
        numCommands := numCommands + 1;
        argIndex := 0;
        assert commands[..numCommands] == closed + [cur] by {
          assert commands[..numCommands] == commands[..numCommands - 1] + [cur];
        }
        if numCommands < MAX_COMMANDS {
          commands[numCommands] := EmptyStage;
        }
        assert rest[1..] == toks[i + 1..];
        i := i + 1;
      } else if t == "<" || t == ">" || t == ">>" {
        if i + 1 < |toks| {
          var path := toks[i + 1];
          assert rest[1] == path && rest[2..] == toks[i + 2..];
          commands[numCommands] :=
            if t == "<" then cur.(inputFile := Some(path))
            else cur.(outputFile := Some(path), appendOutput := t == ">>");
          assert commands[..numCommands] == closed;
          i := i + 2;
        } else {
          assert rest[1..] == toks[i + 1..];
          i := i + 1;
        }
      } else if t == "&" && i + 1 == |toks| {
        commands[numCommands] := cur.(background := true);
        assert commands[..numCommands] == closed;
        assert rest[1..] == toks[i + 1..];
        i := i + 1;
      } else {
        commands[numCommands] := cur.(args := cur.args + [t]);
        argIndex := argIndex + 1;
        assert commands[..numCommands] == closed;
        assert rest[1..] == toks[i + 1..];
        i := i + 1;
      }
    }
    assert toks[i..] == [] || numCommands >= MAX_COMMANDS;
    if argIndex > 0 {
      numCommands := numCommands + 1;
    }
    p := Pipeline(commands[..numCommands]);
    StageCountBounded(toks);
  }

  /** What `parse_command_line` does with the original tokenizer. */
  datatype ParseOutcome =
    | NoPipeline              // NULL
    | Built(pipeline: Pipeline)
    | Hangs                   // `tokenize` never returns

  /**
   * `parse_command_line(cmdline)` as written: NULL for an empty line or one
   * without tokens, and no result at all where `tokenize` spins.
   */
  function ParseCommandLineAsWritten(line: string): (r: ParseOutcome)
    ensures r.Hangs? <==> line != [] && Tokenize(line) == Diverges
    ensures r.Built? ==> |r.pipeline.commands| <= MAX_COMMANDS
  {
    if line == [] then NoPipeline
    else
      match Tokenize(line)
      case Tokens(ts) => StageCountBounded(ts); Built(ParseTokensSpec(ts))
      case NoTokens => NoPipeline
      case Diverges => Hangs
  }

  /**
   * `parse_command_line(cmdline)` over the corrected tokenizer: wherever the
   * original returns, this is its result.
   */
  function ParseCommandLine(line: string): (r: Option<Pipeline>)
    ensures r.Some? ==> |r.value.commands| <= MAX_COMMANDS
    ensures ParseCommandLineAsWritten(line) == NoPipeline ==> r == None
    ensures ParseCommandLineAsWritten(line).Built? ==> r == Some(ParseCommandLineAsWritten(line).pipeline)
  {
    if line == [] then None
    else
      assert Tokenize(line) != Diverges ==> TokenizeFixed(line) == Tokenize(line) by {
        if Tokenize(line) != Diverges {
          FixedAgreesWhenOriginalStops(line);
        }
      }
      match TokenizeFixed(line)
      case Tokens(ts) => StageCountBounded(ts); Some(ParseTokensSpec(ts))
      case _ => None
  }

  /** A blank line yields no pipeline. */
  lemma BlankLineHasNoPipeline(line: string)
    requires AllBlank(line)
    ensures ParseCommandLine(line) == None
  {
    BlankLineHasNoTokens(line);
    FixedAgreesWhenOriginalStops(line);
  }

  // ---------------------------------------------------------------------
  // Properties of the fold.

  /** A token with no meaning to the parser. */
  predicate IsWord(t: string) {
    t != "|" && t != "<" && t != ">" && t != ">>" && t != "&"
  }

  predicate AllWords(ws: seq<string>) {
    forall k | 0 <= k < |ws| :: IsWord(ws[k])
  }

  /** The stage that plain words make on their own. */
  function Plain(ws: seq<string>): Stage {
    Stage(ws, None, None, false, false)
  }

  function Plains(gs: seq<seq<string>>): (r: seq<Stage>)
    ensures |r| == |gs| && forall k | 0 <= k < |gs| :: r[k] == Plain(gs[k])
  {
    seq(|gs|, k requires 0 <= k < |gs| => Plain(gs[k]))
  }

  /** Word groups joined by pipe tokens: `g0 | g1 | ... | gn`. */
  function JoinPipes(gs: seq<seq<string>>): seq<string>
    requires |gs| >= 1
  {
    if |gs| == 1 then gs[0] else gs[0] + ["|"] + JoinPipes(gs[1..])
  }

  lemma {:induction false} ScanWords(ws: seq<string>, rest: seq<string>, st: LoopState)
    requires AllWords(ws) && |st.done| < MAX_COMMANDS
    ensures Scan(ws + rest, st) == Scan(rest, st.(cur := st.cur.(args := st.cur.args + ws)))
    decreases |ws|
  {
    if ws == [] {
      assert ws + rest == rest;
      assert st.cur.args + ws == st.cur.args;
    } else {
      assert (ws + rest)[0] == ws[0];
      assert (ws + rest)[1..] == ws[1..] + rest;
      var st' := st.(cur := st.cur.(args := st.cur.args + [ws[0]]));
      ScanWords(ws[1..], rest, st');
      assert st.cur.args + [ws[0]] + ws[1..] == st.cur.args + ws;
    }
  }

  lemma PlainsSlice(gs: seq<seq<string>>, m: nat)
    requires 1 <= m <= |gs|
    ensures Plains(gs[..m]) == [Plain(gs[0])] + Plains(gs[1..][..m - 1])
  {
    assert gs[1..][..m - 1] == gs[..m][1..];
  }

  /** Splitting the first group of `g0 | rest` off the token sequence. */
  lemma ScanFirstGroup(gs: seq<seq<string>>, done: seq<Stage>)
    requires |gs| >= 2 && |done| < MAX_COMMANDS && AllWords(gs[0])
    ensures Scan(JoinPipes(gs), LoopState(done, EmptyStage))
      == Scan(JoinPipes(gs[1..]), LoopState(done + [Plain(gs[0])], EmptyStage))
  {
    var g := gs[0];
    var tail := JoinPipes(gs[1..]);
    assert JoinPipes(gs) == g + (["|"] + tail);
    ScanWords(g, ["|"] + tail, LoopState(done, EmptyStage));
    assert [] + g == g;
    assert (["|"] + tail)[1..] == tail;
  }

  lemma {:induction false} ScanGroupsWithin(gs: seq<seq<string>>, done: seq<Stage>)
    requires |gs| >= 1 && |done| + |gs| - 1 < MAX_COMMANDS
    requires forall k | 0 <= k < |gs| :: AllWords(gs[k])
    ensures Scan(JoinPipes(gs), LoopState(done, EmptyStage))
      == LoopState(done + Plains(gs[..|gs| - 1]), Plain(gs[|gs| - 1]))
    decreases |gs|, 1
  {
    if |gs| == 1 {
      ScanOneGroup(gs[0], done);
      assert Plains(gs[..0]) == [];
      assert done + [] == done;
    } else {
      ScanGroupsWithinStep(gs, done);
    }
  }

  /** A single group of plain words becomes the current stage. */
  lemma ScanOneGroup(g: seq<string>, done: seq<Stage>)
    requires |done| < MAX_COMMANDS && AllWords(g)
    ensures Scan(g, LoopState(done, EmptyStage)) == LoopState(done, Plain(g))
  {
    ScanWords(g, [], LoopState(done, EmptyStage));
    assert g + [] == g;
    assert [] + g == g;
  }

  /** ScanGroupsWithin for two groups or more: the first group becomes a stage. */
  lemma {:induction false} ScanGroupsWithinStep(gs: seq<seq<string>>, done: seq<Stage>)
    requires |gs| >= 2 && |done| + |gs| - 1 < MAX_COMMANDS
    requires forall k | 0 <= k < |gs| :: AllWords(gs[k])
    ensures Scan(JoinPipes(gs), LoopState(done, EmptyStage))
      == LoopState(done + Plains(gs[..|gs| - 1]), Plain(gs[|gs| - 1]))
    decreases |gs|, 0
  {
    var done' := done + [Plain(gs[0])];
    ScanFirstGroup(gs, done);
    ScanGroupsWithin(gs[1..], done');
    PlainsSlice(gs, |gs| - 1);
    assert gs[1..][|gs| - 2] == gs[|gs| - 1];
    assert done' + Plains(gs[1..][..|gs| - 2]) == done + Plains(gs[..|gs| - 1]);
  }

  lemma {:induction false} ScanGroupsBeyond(gs: seq<seq<string>>, done: seq<Stage>)
    requires |done| <= MAX_COMMANDS < |done| + |gs|
    requires forall k | 0 <= k < |gs| :: AllWords(gs[k])
    ensures Scan(JoinPipes(gs), LoopState(done, EmptyStage))
      == LoopState(done + Plains(gs[..MAX_COMMANDS - |done|]), EmptyStage)
    decreases |gs|, 1
  {
    if |done| == MAX_COMMANDS {
      assert Plains(gs[..0]) == [];
      assert done + [] == done;
    } else {
      ScanGroupsBeyondStep(gs, done);
    }
  }

  /** ScanGroupsBeyond while the stage list still has room: the first group becomes a stage. */
  lemma {:induction false} ScanGroupsBeyondStep(gs: seq<seq<string>>, done: seq<Stage>)
    requires |done| < MAX_COMMANDS < |done| + |gs|
    requires forall k | 0 <= k < |gs| :: AllWords(gs[k])
    ensures Scan(JoinPipes(gs), LoopState(done, EmptyStage))
      == LoopState(done + Plains(gs[..MAX_COMMANDS - |done|]), EmptyStage)
    decreases |gs|, 0
  {
    var done' := done + [Plain(gs[0])];
    ScanFirstGroup(gs, done);
    ScanGroupsBeyond(gs[1..], done');
    PlainsSlice(gs, MAX_COMMANDS - |done|);
    assert done' + Plains(gs[1..][..MAX_COMMANDS - |done'|]) == done + Plains(gs[..MAX_COMMANDS - |done|]);
  }

  /**
   * `g0 | g1 | ... | gn` over plain words, at most MAX_COMMANDS groups: one
   * stage per group, in order, with exactly those arguments and no
   * redirection; an empty group in the middle is still a stage, an empty
   * last group is dropped.
   */
  lemma PipelineOfGroups(gs: seq<seq<string>>)
    requires 1 <= |gs| <= MAX_COMMANDS
    requires forall k | 0 <= k < |gs| :: AllWords(gs[k])
    ensures ParseTokensSpec(JoinPipes(gs)).commands ==
      if gs[|gs| - 1] == [] then Plains(gs[..|gs| - 1]) else Plains(gs)
  {
    var st := LoopState(Plains(gs[..|gs| - 1]), Plain(gs[|gs| - 1]));
    ScanAllGroups(gs);
    assert ParseTokensSpec(JoinPipes(gs)) == Close(st);
    if gs[|gs| - 1] != [] {
      PlainsSnoc(gs);
    }
  }

  lemma ScanAllGroups(gs: seq<seq<string>>)
    requires 1 <= |gs| <= MAX_COMMANDS
    requires forall k | 0 <= k < |gs| :: AllWords(gs[k])
    ensures Scan(JoinPipes(gs), Start) == LoopState(Plains(gs[..|gs| - 1]), Plain(gs[|gs| - 1]))
  {
    ScanGroupsWithin(gs, []);
    assert [] + Plains(gs[..|gs| - 1]) == Plains(gs[..|gs| - 1]);
  }

  lemma PlainsSnoc(gs: seq<seq<string>>)
    requires |gs| >= 1
    ensures Plains(gs) == Plains(gs[..|gs| - 1]) + [Plain(gs[|gs| - 1])]
  {
  }

  /** Groups beyond the first MAX_COMMANDS are cut off without notice. */
  lemma PipelineTruncated(gs: seq<seq<string>>)
    requires |gs| > MAX_COMMANDS
    requires forall k | 0 <= k < |gs| :: AllWords(gs[k])
    ensures ParseTokensSpec(JoinPipes(gs)).commands == Plains(gs[..MAX_COMMANDS])
  {
    ScanGroupsBeyond(gs, []);
    var front := Plains(gs[..MAX_COMMANDS]);
    assert Scan(JoinPipes(gs), LoopState([], EmptyStage)) == LoopState([] + front, EmptyStage);
    assert [] + front == front;
  }

  /** A redirection operator and the path that follows it. */
  datatype Redirection = Redirection(op: string, path: string)

  predicate IsRedirection(r: Redirection) {
    IsRedirectionOperator(r.op)
  }

  function RedirectionTokens(rs: seq<Redirection>): (r: seq<string>)
  {
    if rs == [] then [] else [rs[0].op, rs[0].path] + RedirectionTokens(rs[1..])
  }

  /** Apply redirections in order: each one overwrites the earlier one of its direction. */
  function Redirect(s: Stage, rs: seq<Redirection>): Stage
    decreases |rs|
  {
    if rs == [] then s
    else
      var r := rs[0];
      var s' := if r.op == "<" then s.(inputFile := Some(r.path))
                else s.(outputFile := Some(r.path), appendOutput := r.op == ">>");
      Redirect(s', rs[1..])
  }

  lemma {:induction false} ScanRedirections(rs: seq<Redirection>, st: LoopState)
    requires forall k | 0 <= k < |rs| :: IsRedirection(rs[k])
    requires |st.done| < MAX_COMMANDS
    ensures Scan(RedirectionTokens(rs), st) == st.(cur := Redirect(st.cur, rs))
    decreases |rs|
  {
    if rs != [] {
      var toks := RedirectionTokens(rs);
      assert toks[0] == rs[0].op && toks[1] == rs[0].path;
      assert toks[2..] == RedirectionTokens(rs[1..]);
      var r := rs[0];
      var c' := if r.op == "<" then st.cur.(inputFile := Some(r.path))
                else st.cur.(outputFile := Some(r.path), appendOutput := r.op == ">>");
      ScanRedirections(rs[1..], st.(cur := c'));
    }
  }

  /**
   * Words followed by redirections: one stage whose paths are the last ones
   * given for each direction; a path token is consumed even when it looks
   * like an operator.
   */
  lemma WordsThenRedirections(ws: seq<string>, rs: seq<Redirection>)
    requires ws != [] && AllWords(ws)
    requires forall k | 0 <= k < |rs| :: IsRedirection(rs[k])
    ensures ParseTokensSpec(ws + RedirectionTokens(rs)).commands == [Redirect(Plain(ws), rs)]
  {
    ScanWords(ws, RedirectionTokens(rs), Start);
    assert [] + ws == ws;
    ScanRedirections(rs, LoopState([], Plain(ws)));
    RedirectKeepsArgs(Plain(ws), rs);
  }

  lemma {:induction false} RedirectKeepsArgs(s: Stage, rs: seq<Redirection>)
    ensures Redirect(s, rs).args == s.args
    decreases |rs|
  {
    if rs != [] {
      var r := rs[0];
      var s' := if r.op == "<" then s.(inputFile := Some(r.path))
                else s.(outputFile := Some(r.path), appendOutput := r.op == ">>");
      RedirectKeepsArgs(s', rs[1..]);
    }
  }

  /** A redirection operator with no path after it is ignored. */
  lemma MissingPathIgnored(ws: seq<string>, op: string)
    requires ws != [] && AllWords(ws) && IsRedirectionOperator(op)
    ensures ParseTokensSpec(ws + [op]).commands == [Plain(ws)]
  {
    ScanWords(ws, [op], Start);
    assert [] + ws == ws;
  }

  /** `&` as the last token marks the stage as background and is dropped. */
  lemma TrailingAmpersand(ws: seq<string>)
    requires ws != [] && AllWords(ws)
    ensures ParseTokensSpec(ws + ["&"]).commands == [Plain(ws).(background := true)]
  {
    ScanWords(ws, ["&"], Start);
    assert [] + ws == ws;
  }

  /** Anywhere else `&` is an ordinary argument. */
  lemma InnerAmpersandIsArgument(ws: seq<string>, vs: seq<string>)
    requires AllWords(ws) && AllWords(vs) && vs != []
    ensures ParseTokensSpec(ws + ["&"] + vs).commands == [Plain(ws + ["&"] + vs)]
  {
    assert ws + ["&"] + vs == ws + (["&"] + vs);
    ScanWords(ws, ["&"] + vs, Start);
    assert [] + ws == ws;
    var st1 := LoopState([], Plain(ws));
    assert (["&"] + vs)[1..] == vs;
    var st2 := LoopState([], Plain(ws + ["&"]));
    assert Scan(["&"] + vs, st1) == Scan(vs, st2);
    ScanWords(vs, [], st2);
    assert vs + [] == vs;
  }
}
