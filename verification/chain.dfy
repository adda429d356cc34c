/**
 * `execute_command_chain` of src/shell.c: the line is cut at every `;`
 * (strtok_r, so empty pieces vanish), each piece is trimmed, empty pieces
 * are skipped and every other piece that parses to a non-empty pipeline is
 * run, strictly in order. The result is the status of the last pipeline
 * run, or 0 when none ran. Each piece is parsed by `parse_command_line`,
 * whose tokenizer spins on an unquoted operator at a token start; the chain
 * then stops at that piece and never returns. Running a pipeline
 * (fork/exec/wait) is the parameter `run`.
 */
module Chain {
  import opened Common
  import opened ShellParser
  import opened Tokenizer

  const Semicolons: set<char> := {';'}

  predicate IsTrailingJunk(c: char) {
    c == ' ' || c == '\t' || c == ';'
  }

  /** The backwards `end` loop: strip trailing blanks and `;`, but never the first character. */
  function TrimTrailing(t: string): (r: string)
    ensures |r| <= |t| && r == t[..|r|]
    ensures t != [] ==> r != [] && r[0] == t[0]
    ensures forall k | |r| <= k < |t| :: IsTrailingJunk(t[k])
    ensures |r| > 1 ==> !IsTrailingJunk(r[|r| - 1])
    decreases |t|
  {
    if |t| > 1 && IsTrailingJunk(t[|t| - 1]) then TrimTrailing(t[..|t| - 1]) else t
  }

  /** The trimmed text of one strtok_r piece. */
  function TrimSegment(piece: string): (r: string)
    ensures r != [] ==> !IsBlank(r[0])
    ensures |r| > 1 ==> !IsTrailingJunk(r[|r| - 1])
  {
    var t := TrimLeft(piece);
    TrimTrailing(t)
  }

  /** The pipeline a trimmed piece runs, if any. */
  function Runnable(segment: string): Option<Pipeline> {
    if segment == [] then None
    else
      match ParseCommandLine(segment)
      case Some(p) => if |p.commands| > 0 then Some(p) else None
      case None => None
  }

  /** The pipelines run for the given pieces, in order. */
  function Executed(pieces: seq<string>): seq<Pipeline> {
    if pieces == [] then []
    else
      var rest := Executed(pieces[1..]);
      match Runnable(TrimSegment(pieces[0]))
      case Some(p) => [p] + rest
      case None => rest
  }

  /** The value of `status` after the loop. */
  function FinalStatus(executed: seq<Pipeline>, run: Pipeline -> int): int {
    if executed == [] then 0 else run(executed[|executed| - 1])
  }

  /** A piece on which the original `tokenize` spins, so that the chain never gets past it. */
  predicate SegmentHangs(piece: string) {
    ParseCommandLineAsWritten(TrimSegment(piece)).Hangs?
  }

  /** The index of the first true flag, or the number of flags. */
  function FirstTrue(bs: seq<bool>): (n: nat)
    ensures n <= |bs| && (n < |bs| ==> bs[n])
    ensures forall k | 0 <= k < n :: !bs[k]
  {
    if bs == [] || bs[0] then 0
    else
      var n := FirstTrue(bs[1..]);
      assert forall k | 1 <= k < 1 + n :: bs[k] == bs[1..][k - 1];
      1 + n
  }

  /** The index of the first piece that hangs, or the number of pieces. */
  function FirstHang(pieces: seq<string>): (n: nat)
    ensures n <= |pieces|
    ensures forall k | 0 <= k < n :: !SegmentHangs(pieces[k])
    ensures n < |pieces| ==> SegmentHangs(pieces[n])
  {
    var flags := seq(|pieces|, k requires 0 <= k < |pieces| => SegmentHangs(pieces[k]));
    var n := FirstTrue(flags);
    assert forall k | 0 <= k < n :: !flags[k] && flags[k] == SegmentHangs(pieces[k]);
    n
  }

  /**
   * `execute_command_chain(cmdline)` with the executor as a parameter. The
   * pieces before the first one that hangs are run; `hangs` says whether the
   * loop then spins instead of returning `status`.
   */
  method ExecuteChain(line: string, run: Pipeline -> int) returns (executed: seq<Pipeline>, status: int, hangs: bool)
    ensures hangs <==> FirstHang(Fields(line, Semicolons)) < |Fields(line, Semicolons)|
    ensures executed == Executed(Fields(line, Semicolons)[..FirstHang(Fields(line, Semicolons))])
    ensures status == FinalStatus(executed, run)
  {
    var pieces := Fields(line, Semicolons);
    executed := [];
    status := 0;
    hangs := false;
    var i := 0;
    while i < |pieces|
      invariant 0 <= i <= FirstHang(pieces)
      invariant executed == Executed(pieces[..i])
      invariant status == FinalStatus(executed, run)
    {
      ExecutedPrefix(pieces, i);
      HangStep(pieces, i);
      var segment := TrimSegment(pieces[i]);
      if |segment| > 0 {
        var outcome := ParseCommandLineAsWritten(segment);
        if outcome.Hangs? {
          hangs := true;
          return;
        }
        RunnableAsWritten(segment);
        if outcome.Built? && |outcome.pipeline.commands| > 0 {
          LastStatus(executed, outcome.pipeline, run);
          status := run(outcome.pipeline);
          executed := executed + [outcome.pipeline];
        }
      }
      i := i + 1;
    }
    assert pieces[..|pieces|] == pieces;
  }

  /** Before the first hanging piece, a piece hangs exactly at that index. */
  lemma HangStep(pieces: seq<string>, i: nat)
    requires i < |pieces| && i <= FirstHang(pieces)
    ensures SegmentHangs(pieces[i]) <==> i == FirstHang(pieces)
  {
  }

  /** On a piece that does not hang, the corrected parse runs what the original runs. */
  lemma RunnableAsWritten(segment: string)
    requires segment != [] && !ParseCommandLineAsWritten(segment).Hangs?
    ensures Runnable(segment) ==
      match ParseCommandLineAsWritten(segment)
      case Built(p) => if |p.commands| > 0 then Some(p) else None
      case _ => None
  {
  }

  lemma LastStatus(executed: seq<Pipeline>, p: Pipeline, run: Pipeline -> int)
    ensures FinalStatus(executed + [p], run) == run(p)
  {
    assert (executed + [p])[|executed|] == p;
  }

  lemma ExecutedPrefix(pieces: seq<string>, i: nat)
    requires i < |pieces|
    ensures Executed(pieces[..i + 1]) ==
      Executed(pieces[..i]) + (match Runnable(TrimSegment(pieces[i])) case Some(p) => [p] case None => [])
  {
    assert pieces[..i + 1] == pieces[..i] + [pieces[i]];
    ExecutedAppend(pieces[..i], [pieces[i]]);
    assert [pieces[i]][1..] == [];
  }

  lemma {:induction false} ExecutedAppend(xs: seq<string>, ys: seq<string>)
    ensures Executed(xs + ys) == Executed(xs) + Executed(ys)
    decreases |xs|
  {
    if xs == [] {
      assert xs + ys == ys;
    } else {
      assert (xs + ys)[0] == xs[0];
      assert (xs + ys)[1..] == xs[1..] + ys;
      ExecutedAppend(xs[1..], ys);
    }
  }

  /** `a;b` runs what `a` runs and then what `b` runs. */
  lemma ChainOfTwo(a: string, b: string)
    ensures Executed(Fields(a + ";" + b, Semicolons))
      == Executed(Fields(a, Semicolons)) + Executed(Fields(b, Semicolons))
  {
    FieldsConcat(a, ';', b, Semicolons);
    ExecutedAppend(Fields(a, Semicolons), Fields(b, Semicolons));
  }

  /** The status of `a;b` is the status of `b` when `b` ran anything, else that of `a`. */
  lemma StatusOfTwo(a: string, b: string, run: Pipeline -> int)
    ensures FinalStatus(Executed(Fields(a + ";" + b, Semicolons)), run) ==
      if Executed(Fields(b, Semicolons)) == [] then FinalStatus(Executed(Fields(a, Semicolons)), run)
      else FinalStatus(Executed(Fields(b, Semicolons)), run)
  {
    ChainOfTwo(a, b);
    var ea := Executed(Fields(a, Semicolons));
    var eb := Executed(Fields(b, Semicolons));
    if eb == [] {
      assert ea + eb == ea;
    } else {
      assert (ea + eb)[|ea + eb| - 1] == eb[|eb| - 1];
    }
  }

  /** A piece with surrounding blanks is trimmed to its text. */
  lemma TrimSurrounding(b1: string, w: string, b2: string)
    requires AllBlank(b1) && AllBlank(b2)
    requires w != [] && !IsBlank(w[0]) && !IsTrailingJunk(w[|w| - 1])
    ensures TrimSegment(b1 + w + b2) == w
  {
    assert b1 + w + b2 == b1 + (w + b2);
    TrimLeftOfBlanks(b1, w + b2);
    TrimTrailingBlanks(w, b2);
  }

  lemma {:induction false} TrimTrailingBlanks(w: string, b: string)
    requires AllBlank(b)
    requires w != [] && !IsTrailingJunk(w[|w| - 1])
    ensures TrimTrailing(w + b) == w
    decreases |b|
  {
    if b == [] {
      assert w + b == w;
    } else {
      var t := w + b;
      assert t[|t| - 1] == b[|b| - 1];
      assert t[..|t| - 1] == w + b[..|b| - 1];
      TrimTrailingBlanks(w, b[..|b| - 1]);
    }
  }

  predicate OnlySeparators(s: string) {
    forall k | 0 <= k < |s| :: IsBlank(s[k]) || s[k] == ';'
  }

  lemma {:induction false} FieldsOfSeparators(s: string)
    requires OnlySeparators(s)
    ensures forall k | 0 <= k < |Fields(s, Semicolons)| :: AllBlank(Fields(s, Semicolons)[k])
    decreases |s|
  {
    if s == [] {
    } else if s[0] in Semicolons {
      FieldsOfSeparators(s[1..]);
    } else {
      var n := RunLength(s, Semicolons);
      assert forall k | 0 <= k < n :: s[..n][k] == s[k];
      FieldsOfSeparators(s[n..]);
    }
  }

  lemma {:induction false} BlankPiecesRunNothing(pieces: seq<string>)
    requires forall k | 0 <= k < |pieces| :: AllBlank(pieces[k])
    ensures Executed(pieces) == []
    decreases |pieces|
  {
    if pieces != [] {
      TrimLeftOfBlanks(pieces[0], []);
      assert pieces[0] + [] == pieces[0];
      BlankPiecesRunNothing(pieces[1..]);
    }
  }

  /** A line of blanks and `;` runs nothing and yields status 0. */
  lemma SeparatorsRunNothing(line: string, run: Pipeline -> int)
    requires OnlySeparators(line)
    ensures Executed(Fields(line, Semicolons)) == []
    ensures FinalStatus(Executed(Fields(line, Semicolons)), run) == 0
  {
    FieldsOfSeparators(line);
    BlankPiecesRunNothing(Fields(line, Semicolons));
  }

  /** On `a|b` the original tokenizer spins at the first piece, so the chain runs nothing and never returns. */
  lemma PipeLineHangs()
    ensures |Fields("a|b", Semicolons)| == 1 && FirstHang(Fields("a|b", Semicolons)) == 0
  {
    FieldsOfField("a|b", Semicolons);
    TrimSurrounding([], "a|b", []);
    assert [] + "a|b" + [] == "a|b";
    PipeWithoutBlanks();
  }

  /** A line without `;` runs at most its own trimmed text. */
  lemma SingleSegment(line: string)
    requires ';' !in line
    ensures Executed(Fields(line, Semicolons)) ==
      if line == [] then []
      else match Runnable(TrimSegment(line)) case Some(p) => [p] case None => []
  {
    FieldsOfField(line, Semicolons);
  }
}
