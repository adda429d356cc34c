/**
 * The standalone `parse_command_line` of src/parser.c, with rules of its own:
 * the first `&` anywhere marks the pipeline as background and cuts the line
 * there; the rest is cut at `|` (strtok_r, so empty pieces vanish) into at
 * most MAX_COMMANDS stages; each stage is cut at spaces and tabs into words.
 * Plain words are arguments only until the first redirection operator, at
 * most MAX_ARGS_PER_CMD - 1 words are looked at while the argument list has
 * room, and `<`, `>`, `>>` take the following word as their path.
 * `free_pipeline` is modelled as the list of strings it releases.
 */
module AltParser {
  import opened Common
  import Tokenizer

  const Pipes: set<char> := {'|'}

  /** `command_t`; the NULL after the last argument is implicit in `args`. */
  datatype AltCommand = AltCommand(args: seq<string>, inputFile: Option<string>, outputFile: Option<string>, appendOutput: bool)

  /** `pipeline_t`. */
  datatype AltPipeline = AltPipeline(commands: seq<AltCommand>, background: bool)

  const EmptyCommand: AltCommand := AltCommand([], None, None, false)

  predicate IsRedirectionWord(w: string) {
    w == "<" || w == ">" || w == ">>"
  }

  /** The command after one redirection with its path: `>` clears the append flag, `>>` sets it. */
  function Redirected(c: AltCommand, op: string, path: string): AltCommand {
    if op == "<" then c.(inputFile := Some(path)) else c.(outputFile := Some(path), appendOutput := op == ">>")
  }

  /** The words of one stage, from a partly built command; `parsing` is `parsing_args`. */
  function ParseWords(ws: seq<string>, c: AltCommand, parsing: bool): AltCommand
    decreases |ws|
  {
    if ws == [] || |c.args| >= MAX_ARGS_PER_CMD - 1 then c
    else
      var w := ws[0];
      if IsRedirectionWord(w) then
        if |ws| == 1 then c
        else
          ParseWords(ws[2..], Redirected(c, w, ws[1]), false)
      else if parsing then ParseWords(ws[1..], c.(args := c.args + [w]), parsing)
      else ParseWords(ws[1..], c, parsing)
  }

  /** One stage of the pipeline. */
  function Stage(piece: string): AltCommand {
    ParseWords(Fields(piece, Tokenizer.Blanks), EmptyCommand, true)
  }

  function Stages(pieces: seq<string>): (r: seq<AltCommand>)
    ensures |r| == |pieces| && forall k | 0 <= k < |pieces| :: r[k] == Stage(pieces[k])
  {
    seq(|pieces|, k requires 0 <= k < |pieces| => Stage(pieces[k]))
  }

  /** The line up to its first `&`. */
  function BeforeAmpersand(line: string): (r: string)
    ensures '&' !in r
  {
    match IndexOf(line, '&')
    case None => line
    case Some(i) => line[..i]
  }

  /**
   * The result of `parse_command_line(cmdline)`: None exactly for an empty
   * line; otherwise background exactly when the line holds a `&`, and one
   * stage for each of the first MAX_COMMANDS `|` pieces of the text before
   * the first `&`, in order.
   */
  function AltParse(line: string): (r: Option<AltPipeline>)
    ensures r.None? <==> line == []
    ensures r.Some? ==> (r.value.background <==> '&' in line)
    ensures r.Some? ==>
      var pieces := Fields(BeforeAmpersand(line), Pipes);
      |r.value.commands| == (if |pieces| < MAX_COMMANDS then |pieces| else MAX_COMMANDS) &&
      forall k | 0 <= k < |r.value.commands| :: r.value.commands[k] == Stage(pieces[k])
  {
    if line == [] then None
    else
      var pieces := Fields(BeforeAmpersand(line), Pipes);
      Some(AltPipeline(Stages(Take(pieces, MAX_COMMANDS)), '&' in line))
  }

  /** The inner loop over the words of one stage. */
  method ParseStage(piece: string) returns (c: AltCommand)
    ensures c == Stage(piece)
  {
    var words := Fields(piece, Tokenizer.Blanks);
    c := EmptyCommand;
    var parsing := true;
    var j := 0;
    while j < |words| && |c.args| < MAX_ARGS_PER_CMD - 1
      invariant 0 <= j <= |words|
      invariant ParseWords(words[j..], c, parsing) == Stage(piece)
      decreases |words| - j
    {
      var w := words[j];
      assert words[j..][0] == w;
      if w == "<" || w == ">" || w == ">>" {
        parsing := false;
        j := j + 1;
        if j < |words| {
          assert words[j - 1..][2..] == words[j + 1..];
          if w == "<" {
            c := c.(inputFile := Some(words[j]));
          } else if w == ">" {
            c := c.(outputFile := Some(words[j]), appendOutput := false);
          } else {
            c := c.(outputFile := Some(words[j]), appendOutput := true);
          }
        }
      } else if parsing {
        assert words[j..][1..] == words[j + 1..];
        c := c.(args := c.args + [w]);
      } else {
        assert words[j..][1..] == words[j + 1..];
      }
      // the trailing strtok_r keeps returning NULL once the words run out
      if j < |words| {
        j := j + 1;
      }
    }
  }

  /** `parse_command_line(cmdline)`. */
  method ParseCommandLine(line: string) returns (p: Option<AltPipeline>)
    ensures p == AltParse(line)
  {
    if |line| == 0 {
      return None;
    }
    var background := false;
    var text := line;
    var amp := IndexOf(line, '&');
    if amp.Some? {
      background := true;
      text := line[..amp.value];
    }
    var pieces := Fields(text, Pipes);
    var commands: seq<AltCommand> := [];
    var i := 0;
    while i < |pieces| && |commands| < MAX_COMMANDS
      invariant 0 <= i <= |pieces| && i <= MAX_COMMANDS && |commands| == i
      invariant commands == Stages(pieces[..i])
    {
      var c := ParseStage(pieces[i]);
      commands := commands + [c];
      i := i + 1;
    }
    assert pieces[..i] == Take(pieces, MAX_COMMANDS);
    p := Some(AltPipeline(commands, background));
  }

  // ---------------------------------------------------------------------
  // What the parser guarantees.

  lemma {:induction false} ParseWordsBounded(ws: seq<string>, c: AltCommand, parsing: bool)
    requires |c.args| <= MAX_ARGS_PER_CMD - 1
    ensures |ParseWords(ws, c, parsing).args| <= MAX_ARGS_PER_CMD - 1
    decreases |ws|
  {
    if ws != [] && |c.args| < MAX_ARGS_PER_CMD - 1 {
      var w := ws[0];
      if IsRedirectionWord(w) {
        if |ws| > 1 {
          ParseWordsBounded(ws[2..], Redirected(c, w, ws[1]), false);
        }
      } else if parsing {
        ParseWordsBounded(ws[1..], c.(args := c.args + [w]), parsing);
      } else {
        ParseWordsBounded(ws[1..], c, parsing);
      }
    }
  }

  /**
   * An empty line gives NULL; otherwise one stage per `|`-piece before the
   * first `&`, up to MAX_COMMANDS, each with fewer than MAX_ARGS_PER_CMD
   * arguments so that the terminating NULL fits, and background exactly when
   * the line holds `&`.
   */
  lemma AltParseShape(line: string)
    ensures AltParse(line).None? <==> line == []
    ensures AltParse(line).Some? ==>
      var p := AltParse(line).value;
      |p.commands| == (if |Fields(BeforeAmpersand(line), Pipes)| < MAX_COMMANDS
                       then |Fields(BeforeAmpersand(line), Pipes)| else MAX_COMMANDS) &&
      (forall k | 0 <= k < |p.commands| :: |p.commands[k].args| < MAX_ARGS_PER_CMD) &&
      (p.background <==> '&' in line)
  {
    if line != [] {
      var p := AltParse(line).value;
      forall k | 0 <= k < |p.commands|
        ensures |p.commands[k].args| < MAX_ARGS_PER_CMD
      {
        var piece := Take(Fields(BeforeAmpersand(line), Pipes), MAX_COMMANDS)[k];
        ParseWordsBounded(Fields(piece, Tokenizer.Blanks), EmptyCommand, true);
      }
    }
  }

  /** Everything after the first `&` is discarded. */
  lemma AfterAmpersandIgnored(a: string, b: string, b': string)
    requires '&' !in a
    ensures AltParse(a + "&" + b) == AltParse(a + "&" + b')
    ensures AltParse(a + "&" + b) == Some(AltPipeline(Stages(Take(Fields(a, Pipes), MAX_COMMANDS)), true))
  {
    IndexOfAfter(a, '&', b);
    IndexOfAfter(a, '&', b');
    assert (a + "&" + b)[..|a|] == a;
    assert (a + "&" + b')[..|a|] == a;
    assert (a + "&" + b)[|a|] == '&';
    assert (a + "&" + b')[|a|] == '&';
  }

  /** Plain words. */
  predicate AllPlain(ws: seq<string>) {
    forall k | 0 <= k < |ws| :: !IsRedirectionWord(ws[k])
  }

  /** While the argument list has room, plain words in argument mode are all taken. */
  lemma {:induction false} PlainWordsTaken(ws: seq<string>, c: AltCommand)
    requires AllPlain(ws) && |c.args| + |ws| <= MAX_ARGS_PER_CMD - 1
    ensures ParseWords(ws, c, true) == c.(args := c.args + ws)
    decreases |ws|
  {
    if ws == [] {
      assert c.args + ws == c.args;
    } else {
      PlainWordsTaken(ws[1..], c.(args := c.args + [ws[0]]));
      assert c.args + [ws[0]] + ws[1..] == c.args + ws;
    }
  }

  /** After a redirection, plain words are read and dropped. */
  lemma {:induction false} PlainWordsDropped(ws: seq<string>, c: AltCommand)
    requires AllPlain(ws)
    ensures ParseWords(ws, c, false) == c
    decreases |ws|
  {
    if ws != [] && |c.args| < MAX_ARGS_PER_CMD - 1 {
      PlainWordsDropped(ws[1..], c);
    }
  }

  /** A redirection with its path, while the argument list has room, ends argument mode. */
  lemma RedirectionStep(op: string, path: string, more: seq<string>, c: AltCommand, parsing: bool)
    requires IsRedirectionWord(op) && |c.args| < MAX_ARGS_PER_CMD - 1
    ensures ParseWords([op, path] + more, c, parsing) == ParseWords(more, Redirected(c, op, path), false)
  {
    var ws := [op, path] + more;
    assert ws[0] == op && ws[1] == path && ws[2..] == more;
  }

  /**
   * `cmd w1 .. wn > path more..`: the arguments stop at the redirection,
   * whatever plain words follow the path.
   */
  lemma RedirectionEndsArguments(ws: seq<string>, op: string, path: string, more: seq<string>)
    requires AllPlain(ws) && AllPlain(more) && |ws| < MAX_ARGS_PER_CMD - 1
    requires IsRedirectionWord(op)
    ensures ParseWords(ws + [op, path] + more, EmptyCommand, true) ==
      if op == "<" then AltCommand(ws, Some(path), None, false)
      else AltCommand(ws, None, Some(path), op == ">>")
  {
    assert ws + [op, path] + more == ws + ([op, path] + more);
    WordsPrefix(ws, [op, path] + more, EmptyCommand);
    assert [] + ws == ws;
    var c := EmptyCommand.(args := ws);
    RedirectionStep(op, path, more, c, true);
    PlainWordsDropped(more, Redirected(c, op, path));
  }

  /** Plain words at the start of the word list are taken first. */
  lemma {:induction false} WordsPrefix(ws: seq<string>, rest: seq<string>, c: AltCommand)
    requires AllPlain(ws) && |c.args| + |ws| <= MAX_ARGS_PER_CMD - 1
    ensures ParseWords(ws + rest, c, true) == ParseWords(rest, c.(args := c.args + ws), true)
    decreases |ws|
  {
    if ws == [] {
      assert ws + rest == rest;
      assert c.args + ws == c.args;
    } else {
      assert (ws + rest)[0] == ws[0] && (ws + rest)[1..] == ws[1..] + rest;
      WordsPrefix(ws[1..], rest, c.(args := c.args + [ws[0]]));
      assert c.args + [ws[0]] + ws[1..] == c.args + ws;
    }
  }

  /**
   * Once MAX_ARGS_PER_CMD - 1 arguments are taken, nothing else of the
   * stage is looked at, redirections included.
   */
  lemma ArgumentCap(ws: seq<string>, rest: seq<string>)
    requires AllPlain(ws) && |ws| == MAX_ARGS_PER_CMD - 1
    ensures ParseWords(ws + rest, EmptyCommand, true) == AltCommand(ws, None, None, false)
  {
    WordsPrefix(ws, rest, EmptyCommand);
    assert [] + ws == ws;
  }

  /** A later redirection of the same direction replaces an earlier one. */
  lemma LastRedirectionWins(op1: string, p1: string, op2: string, p2: string, c: AltCommand, parsing: bool)
    requires |c.args| < MAX_ARGS_PER_CMD - 1
    requires op1 in {">", ">>"} && op2 in {">", ">>"}
    ensures ParseWords([op1, p1, op2, p2], c, parsing) == c.(outputFile := Some(p2), appendOutput := op2 == ">>")
  {
    assert [op1, p1, op2, p2] == [op1, p1] + [op2, p2];
    RedirectionStep(op1, p1, [op2, p2], c, parsing);
    var c' := Redirected(c, op1, p1);
    assert [op2, p2] == [op2, p2] + [];
    RedirectionStep(op2, p2, [], c', false);
  }

  /** A redirection without a path changes nothing. */
  lemma MissingPathIgnored(op: string, c: AltCommand, parsing: bool)
    requires IsRedirectionWord(op)
    ensures ParseWords([op], c, parsing) == c
  {
  }

  // ---------------------------------------------------------------------
  // `free_pipeline`.

  /** The strings one stage owns: its arguments, then the file names present. */
  function Owned(c: AltCommand): seq<string> {
    c.args +
    (if c.inputFile.Some? then [c.inputFile.value] else []) +
    (if c.outputFile.Some? then [c.outputFile.value] else [])
  }

  function OwnedAll(cs: seq<AltCommand>): seq<string> {
    if cs == [] then [] else OwnedAll(cs[..|cs| - 1]) + Owned(cs[|cs| - 1])
  }

  /** `free_pipeline(pipeline)`: the strings it releases, in order. */
  method FreePipeline(p: Option<AltPipeline>) returns (released: seq<string>)
    ensures p.None? ==> released == []
    ensures p.Some? ==> released == OwnedAll(p.value.commands)
  {
    released := [];
    if p.None? {
      return;
    }
    var cs := p.value.commands;
    var i := 0;
    while i < |cs|
      invariant 0 <= i <= |cs|
      invariant released == OwnedAll(cs[..i])
    {
      var c := cs[i];
      var j := 0;
      while j < |c.args|
        invariant 0 <= j <= |c.args|
        invariant released == OwnedAll(cs[..i]) + c.args[..j]
      {
        released := released + [c.args[j]];
        assert c.args[..j + 1] == c.args[..j] + [c.args[j]];
        j := j + 1;
      }
      assert c.args[..j] == c.args;
      if c.inputFile.Some? {
        released := released + [c.inputFile.value];
      }
      if c.outputFile.Some? {
        released := released + [c.outputFile.value];
      }
      assert cs[..i + 1][..i] == cs[..i];
      i := i + 1;
    }
    assert cs[..i] == cs;
  }

  /** Every word of a stage's word list is one of the stage's words. */
  lemma {:induction false} ParseWordsOwns(ws: seq<string>, c: AltCommand, parsing: bool)
    ensures forall w | w in Owned(ParseWords(ws, c, parsing)) :: w in Owned(c) || w in ws
    decreases |ws|
  {
    if ws != [] && |c.args| < MAX_ARGS_PER_CMD - 1 {
      var w := ws[0];
      if IsRedirectionWord(w) {
        if |ws| > 1 {
          ParseWordsOwns(ws[2..], Redirected(c, w, ws[1]), false);
          assert forall x | x in ws[2..] :: x in ws;
        }
      } else if parsing {
        ParseWordsOwns(ws[1..], c.(args := c.args + [w]), parsing);
        assert forall x | x in ws[1..] :: x in ws;
      } else {
        ParseWordsOwns(ws[1..], c, parsing);
        assert forall x | x in ws[1..] :: x in ws;
      }
    }
  }

  /**
   * Every string a stage owns (and `free_pipeline` releases) is a non-empty
   * word of its piece, free of spaces and tabs.
   */
  lemma StageOwnsWords(piece: string)
    ensures forall w | w in Owned(Stage(piece)) :: w in Fields(piece, Tokenizer.Blanks) && IsField(w, Tokenizer.Blanks)
  {
    ParseWordsOwns(Fields(piece, Tokenizer.Blanks), EmptyCommand, true);
  }
}
