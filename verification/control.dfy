/**
 * The if/then/else/fi reader and dispatcher of src/control.c. The reader
 * pulls lines from a line source (readline; None stands for a NULL return)
 * and runs a small state machine: then-statements until `else` or `fi`,
 * else-statements until `fi`, and, after an end of input inside the block,
 * a skip phase that reads on until `fi` or the next end of input. Each
 * statement list keeps at most MAX_COMMANDS entries. The dispatcher runs
 * the then-statements when the condition succeeds, the else-statements when
 * it fails and an `else` was seen, and nothing otherwise.
 */
module Control {
  import opened Common
  import opened ShellParser

  // ---------------------------------------------------------------------
  // The keyword test of `is_control_structure`.

  /** After leading blanks, the line starts with `if` followed by a blank or its end. */
  predicate IsIfLine(line: string) {
    var t := TrimLeft(line);
    |t| >= 2 && t[0] == 'i' && t[1] == 'f' && (|t| == 2 || IsBlank(t[2]))
  }

  lemma IfLineShape(b: string, rest: string)
    requires AllBlank(b)
    ensures IsIfLine(b + "if" + rest) <==> rest == [] || IsBlank(rest[0])
  {
    assert b + "if" + rest == b + ("if" + rest);
    TrimLeftOfBlanks(b, "if" + rest);
  }

  // ---------------------------------------------------------------------
  // The condition text.

  /**
   * `condition += 2` as written: the offset into the line after the leading
   * blanks and two more characters. Past `|line|` it points beyond the
   * string's terminator, and None stands for that read.
   */
  function ConditionAsWritten(line: string): (r: Option<string>)
  {
    var off := SkipBlanks(line, 0) + 2;
    if off > |line| then None else Some(TrimLeft(line[off..]))
  }

  /** The condition with the two-character skip taken only when there are two characters. */
  function ExtractCondition(line: string): string {
    var t := TrimLeft(line);
    if |t| < 2 then [] else TrimLeft(t[2..])
  }

  /** The source reads past the end exactly when fewer than two characters follow the blanks; otherwise both agree. */
  lemma ConditionOverread(line: string)
    ensures ConditionAsWritten(line).None? <==> |TrimLeft(line)| < 2
    ensures ConditionAsWritten(line).Some? ==> ConditionAsWritten(line).value == ExtractCondition(line)
  {
    var j := SkipBlanks(line, 0);
    var t := TrimLeft(line);
    if j + 2 <= |line| {
      assert t[2..] == line[j + 2..];
    }
  }

  /** `if cond` with blanks anywhere before cond yields cond. */
  lemma ConditionOfIfLine(b1: string, b2: string, cond: string)
    requires AllBlank(b1) && AllBlank(b2) && (cond == [] || !IsBlank(cond[0]))
    ensures ExtractCondition(b1 + "if" + b2 + cond) == cond
  {
    var line := b1 + "if" + b2 + cond;
    assert line == b1 + ("if" + b2 + cond);
    TrimLeftOfBlanks(b1, "if" + b2 + cond);
    assert ("if" + b2 + cond)[2..] == b2 + cond;
    TrimLeftOfBlanks(b2, cond);
  }

  // ---------------------------------------------------------------------
  // The reader.

  /** `if_block_t`. */
  datatype IfBlock = IfBlock(condition: string, thenCmds: seq<string>, elseCmds: seq<string>, hasElse: bool)

  /** Which loop of `parse_if_structure` is running. */
  datatype Phase = InThen | InElse | Skipping | Finished

  function Rank(p: Phase): nat {
    match p
    case InThen => 3
    case InElse => 2
    case Skipping => 1
    case Finished => 0
  }

  /** `readline()` at position pos of the line source: None at a NULL or past the end. */
  function ReadLine(input: seq<Option<string>>, pos: nat): Option<string> {
    if pos < |input| then input[pos] else None
  }

  function Advance(input: seq<Option<string>>, pos: nat): nat {
    if pos < |input| then pos + 1 else pos
  }

  /** Append a statement while the list has room. */
  function AppendBounded(cmds: seq<string>, t: string): (r: seq<string>)
    ensures |cmds| <= MAX_COMMANDS ==> |r| <= MAX_COMMANDS
  {
    if |cmds| < MAX_COMMANDS then cmds + [t] else cmds
  }

  /** A state of `parse_if_structure`: the read position, the running loop and the block so far. */
  datatype Config = Config(pos: nat, phase: Phase, blk: IfBlock)

  /** How a loop of `parse_if_structure` reads a line once its leading blanks are gone. */
  datatype LineKind = BlankLine | ElseKeyword | FiKeyword | Statement

  /** `strcmp` against `else` and `fi`, then the empty test. */
  function Kind(t: string): LineKind {
    if |t| == 4 && t[0] == 'e' && t[1] == 'l' && t[2] == 's' && t[3] == 'e' then ElseKeyword
    else if |t| == 2 && t[0] == 'f' && t[1] == 'i' then FiKeyword
    else if |t| == 0 then BlankLine
    else Statement
  }

  /** One `readline()` and what the running loop does with the line. */
  function Step(input: seq<Option<string>>, pos: nat, phase: Phase, blk: IfBlock): (r: Config)
    requires phase != Finished
    ensures (r.pos == pos && Rank(r.phase) < Rank(phase)) || (pos < |input| && r.pos == pos + 1)
  {
    var next := Advance(input, pos);
    match ReadLine(input, pos)
    case None => Config(next, if phase == Skipping then Finished else Skipping, blk)
    case Some(l) =>
      var t := TrimLeft(l);
      var k := Kind(t);
      if k == FiKeyword then Config(next, Finished, blk)
      else if k == BlankLine || phase == Skipping then Config(next, phase, blk)
      else if phase == InElse then Config(next, InElse, blk.(elseCmds := AppendBounded(blk.elseCmds, t)))
      else if k == ElseKeyword then Config(next, InElse, blk.(hasElse := true))
      else Config(next, InThen, blk.(thenCmds := AppendBounded(blk.thenCmds, t)))
  }

  /** The state machine from position pos; the result is the block and the position after the last read. */
  function Machine(input: seq<Option<string>>, pos: nat, phase: Phase, blk: IfBlock): (IfBlock, nat)
    decreases |input| - pos, Rank(phase)
  {
    if phase == Finished then (blk, pos)
    else
      var c := Step(input, pos, phase, blk);
      Machine(input, c.pos, c.phase, c.blk)
  }

  /**
   * `parse_if_structure()`: NULL exactly when the first read hits the end of
   * input; otherwise a block whose condition is taken from the first line,
   * whose statement lists hold at most MAX_COMMANDS entries and with no
   * else-statement unless an `else` line was read. Reading stays within the
   * lines.
   */
  function ReadIfBlock(input: seq<Option<string>>): (r: (Option<IfBlock>, nat))
    ensures ReadLine(input, 0).None? <==> r.0.None?
    ensures r.0.Some? ==> Bounded(r.0.value) && r.0.value.condition == ExtractCondition(ReadLine(input, 0).value)
    ensures r.1 <= |input|
  {
    match ReadLine(input, 0)
    case None => (None, Advance(input, 0))
    case Some(l) =>
      var blk := IfBlock(ExtractCondition(l), [], [], false);
      MachineBounded(input, Advance(input, 0), InThen, blk);
      MachineStaysIn(input, Advance(input, 0), InThen, blk);
      var m := Machine(input, Advance(input, 0), InThen, blk);
      (Some(m.0), m.1)
  }

  /** `parse_if_structure()` with its three loops and flags. */
  method ParseIfStructure(input: seq<Option<string>>) returns (block: Option<IfBlock>, consumed: nat)
    ensures (block, consumed) == ReadIfBlock(input)
  {
    var pos := 0;
    var line := ReadLine(input, pos);
    pos := Advance(input, pos);
    if line.None? {
      return None, pos;
    }
    var blk := IfBlock(ExtractCondition(line.value), [], [], false);
    ghost var goal := Machine(input, pos, InThen, blk);
    ghost var phase := InThen;
    var inThen := true;
    var inElse := false;
    var ended := false;
    while inThen && !ended
      invariant pos <= |input|
      invariant Machine(input, pos, phase, blk) == goal
      invariant phase == InThen ==> inThen && !inElse && !ended
      invariant phase == InElse ==> !inThen && inElse && !ended
      invariant phase == Finished ==> !inThen && !inElse && ended
      invariant phase != Skipping
      decreases |input| - pos
    {
      line := ReadLine(input, pos);
      pos := Advance(input, pos);
      if line.None? {
        phase := Skipping;
        break;
      }
      var t := TrimLeft(line.value);
      var kind := Kind(t);
      if kind == ElseKeyword {
        inThen := false;
        inElse := true;
        blk := blk.(hasElse := true);
        phase := InElse;
      } else if kind == FiKeyword {
        inThen := false;
        ended := true;
        phase := Finished;
      } else if kind != BlankLine {
        blk := blk.(thenCmds := AppendBounded(blk.thenCmds, t));
      }
    }
    while inElse && !ended
      invariant pos <= |input|
      invariant Machine(input, pos, phase, blk) == goal
      invariant phase == InElse ==> inElse && !ended
      invariant phase == Finished ==> ended
      invariant phase == Skipping ==> !ended && !inElse
      invariant phase != InThen
      decreases |input| - pos
    {
      line := ReadLine(input, pos);
      pos := Advance(input, pos);
      if line.None? {
        phase := Skipping;
        break;
      }
      var t := TrimLeft(line.value);
      var kind := Kind(t);
      if kind == FiKeyword {
        inElse := false;
        ended := true;
        phase := Finished;
      } else if kind != BlankLine {
        blk := blk.(elseCmds := AppendBounded(blk.elseCmds, t));
      }
    }
    while !ended
      invariant pos <= |input|
      invariant Machine(input, pos, phase, blk) == goal
      invariant phase == Finished <==> ended
      invariant phase == Skipping || phase == Finished
      decreases |input| - pos
    {
      line := ReadLine(input, pos);
      pos := Advance(input, pos);
      if line.None? {
        phase := Finished;
        break;
      }
      if Kind(TrimLeft(line.value)) == FiKeyword {
        ended := true;
        phase := Finished;
      }
    }
    block := Some(blk);
    consumed := pos;
  }

  // ---------------------------------------------------------------------
  // What the reader guarantees.

  predicate Bounded(blk: IfBlock) {
    |blk.thenCmds| <= MAX_COMMANDS && |blk.elseCmds| <= MAX_COMMANDS &&
    (!blk.hasElse ==> blk.elseCmds == [])
  }

  /** The then-phase has seen no `else`, the else-phase has. */
  predicate Consistent(phase: Phase, blk: IfBlock) {
    Bounded(blk) && (phase == InThen ==> !blk.hasElse) && (phase == InElse ==> blk.hasElse)
  }

  lemma StepConsistent(input: seq<Option<string>>, pos: nat, phase: Phase, blk: IfBlock)
    requires phase != Finished && Consistent(phase, blk)
    ensures Consistent(Step(input, pos, phase, blk).phase, Step(input, pos, phase, blk).blk)
    ensures Step(input, pos, phase, blk).blk.condition == blk.condition
  {
  }

  lemma {:induction false} MachineBounded(input: seq<Option<string>>, pos: nat, phase: Phase, blk: IfBlock)
    requires Consistent(phase, blk)
    ensures Bounded(Machine(input, pos, phase, blk).0)
    ensures Machine(input, pos, phase, blk).0.condition == blk.condition
    decreases |input| - pos, Rank(phase)
  {
    if phase != Finished {
      var c := Step(input, pos, phase, blk);
      StepConsistent(input, pos, phase, blk);
      MachineBounded(input, c.pos, c.phase, c.blk);
    }
  }

  lemma {:induction false} MachineStaysIn(input: seq<Option<string>>, pos: nat, phase: Phase, blk: IfBlock)
    requires pos <= |input|
    ensures Machine(input, pos, phase, blk).1 <= |input|
    decreases |input| - pos, Rank(phase)
  {
    if phase != Finished {
      var c := Step(input, pos, phase, blk);
      MachineStaysIn(input, c.pos, c.phase, c.blk);
    }
  }

  /** The statements the lines give after the trim, each appended while there is room. */
  function AppendAll(cmds: seq<string>, ls: seq<string>): seq<string>
    decreases |ls|
  {
    if ls == [] then cmds else AppendAll(AppendBounded(cmds, TrimLeft(ls[0])), ls[1..])
  }

  /** A then-statement: non-empty after the trim, and neither `else` nor `fi`. */
  predicate IsThenStatement(l: string) {
    Kind(TrimLeft(l)) == Statement
  }

  /** An else-statement: non-empty after the trim and not `fi` (so `else` is one). */
  predicate IsElseStatement(l: string) {
    Kind(TrimLeft(l)) == Statement || Kind(TrimLeft(l)) == ElseKeyword
  }

  /** One then-statement line: its trimmed text is appended and the then-phase goes on. */
  lemma ThenStep(input: seq<Option<string>>, pos: nat, l: string, blk: IfBlock)
    requires pos < |input| && input[pos] == Some(l) && IsThenStatement(l)
    ensures Machine(input, pos, InThen, blk) ==
      Machine(input, pos + 1, InThen, blk.(thenCmds := AppendBounded(blk.thenCmds, TrimLeft(l))))
  {
  }

  /** One else-statement line: its trimmed text is appended and the else-phase goes on. */
  lemma ElseStep(input: seq<Option<string>>, pos: nat, l: string, blk: IfBlock)
    requires pos < |input| && input[pos] == Some(l) && IsElseStatement(l)
    ensures Machine(input, pos, InElse, blk) ==
      Machine(input, pos + 1, InElse, blk.(elseCmds := AppendBounded(blk.elseCmds, TrimLeft(l))))
  {
  }

  /** One line other than `fi` in the skip phase is dropped. */
  lemma SkipStep(input: seq<Option<string>>, pos: nat, l: string, blk: IfBlock)
    requires pos < |input| && input[pos] == Some(l) && Kind(TrimLeft(l)) != FiKeyword
    ensures Machine(input, pos, Skipping, blk) == Machine(input, pos + 1, Skipping, blk)
  {
  }

  /** Every line is a then-statement. */
  predicate AllThen(ls: seq<string>) {
    forall k | 0 <= k < |ls| :: IsThenStatement(ls[k])
  }

  /** Every line is an else-statement. */
  predicate AllElse(ls: seq<string>) {
    forall k | 0 <= k < |ls| :: IsElseStatement(ls[k])
  }

  /** No line is `fi` after the trim. */
  predicate NoFi(ls: seq<string>) {
    forall k | 0 <= k < |ls| :: Kind(TrimLeft(ls[k])) != FiKeyword
  }

  /** The line source holds the lines ls from position pos on. */
  predicate LinesAt(input: seq<Option<string>>, pos: nat, ls: seq<string>)
    decreases |ls|
  {
    ls == [] || (pos < |input| && input[pos] == Some(ls[0]) && LinesAt(input, pos + 1, ls[1..]))
  }

  lemma {:induction false} ThenStatements(input: seq<Option<string>>, pos: nat, ls: seq<string>, blk: IfBlock, end: nat)
    requires end == pos + |ls| && LinesAt(input, pos, ls)
    requires AllThen(ls)
    ensures Machine(input, pos, InThen, blk) ==
      Machine(input, end, InThen, blk.(thenCmds := AppendAll(blk.thenCmds, ls)))
    decreases |ls|
  {
    if ls != [] {
      var blk' := blk.(thenCmds := AppendBounded(blk.thenCmds, TrimLeft(ls[0])));
      ThenStep(input, pos, ls[0], blk);
      ThenStatements(input, pos + 1, ls[1..], blk', end);
      assert AppendAll(blk.thenCmds, ls) == AppendAll(blk'.thenCmds, ls[1..]);
    }
  }

  lemma {:induction false} ElseStatements(input: seq<Option<string>>, pos: nat, ls: seq<string>, blk: IfBlock, end: nat)
    requires end == pos + |ls| && LinesAt(input, pos, ls)
    requires AllElse(ls)
    ensures Machine(input, pos, InElse, blk) ==
      Machine(input, end, InElse, blk.(elseCmds := AppendAll(blk.elseCmds, ls)))
    decreases |ls|
  {
    if ls != [] {
      var blk' := blk.(elseCmds := AppendBounded(blk.elseCmds, TrimLeft(ls[0])));
      ElseStep(input, pos, ls[0], blk);
      ElseStatements(input, pos + 1, ls[1..], blk', end);
      assert AppendAll(blk.elseCmds, ls) == AppendAll(blk'.elseCmds, ls[1..]);
    }
  }

  /** The trimmed statements, of which the first MAX_COMMANDS are kept. */
  lemma {:induction false} AppendAllKeepsFirst(cmds: seq<string>, ls: seq<string>)
    requires |cmds| <= MAX_COMMANDS
    ensures AppendAll(cmds, ls) == Take(cmds + Trimmed(ls), MAX_COMMANDS)
    decreases |ls|
  {
    if ls == [] {
      assert cmds + Trimmed(ls) == cmds;
    } else {
      var t := TrimLeft(ls[0]);
      var c' := AppendBounded(cmds, t);
      assert AppendAll(cmds, ls) == AppendAll(c', ls[1..]);
      AppendAllKeepsFirst(c', ls[1..]);
      if |cmds| < MAX_COMMANDS {
        assert c' == cmds + [t];
        assert c' + Trimmed(ls[1..]) == cmds + ([t] + Trimmed(ls[1..]));
      } else {
        assert c' == cmds;
        TakeOfLong(cmds, Trimmed(ls[1..]));
        TakeOfLong(cmds, Trimmed(ls));
      }
    }
  }

  lemma TakeOfLong(cmds: seq<string>, more: seq<string>)
    requires |cmds| == MAX_COMMANDS
    ensures Take(cmds + more, MAX_COMMANDS) == cmds
  {
    assert (cmds + more)[..|cmds|] == cmds;
  }

  function Trimmed(ls: seq<string>): (r: seq<string>)
    ensures |r| == |ls|
  {
    if ls == [] then [] else [TrimLeft(ls[0])] + Trimmed(ls[1..])
  }

  /** The keyword lines are their own trimmed text. */
  lemma KeywordsTrimmed()
    ensures Kind(TrimLeft("else")) == ElseKeyword && Kind(TrimLeft("fi")) == FiKeyword
  {
    TrimLeftOfBlanks([], "else");
    TrimLeftOfBlanks([], "fi");
    assert [] + "else" == "else" && [] + "fi" == "fi";
  }

  lemma FirstRead(input: seq<Option<string>>, l: string)
    requires input != [] && input[0] == Some(l)
    ensures
      var m := Machine(input, 1, InThen, IfBlock(ExtractCondition(l), [], [], false));
      ReadIfBlock(input) == (Some(m.0), m.1)
  {
  }

  /** `else` in the then-phase switches to the else-phase. */
  lemma ElseLine(input: seq<Option<string>>, pos: nat, blk: IfBlock)
    requires pos < |input| && input[pos] == Some("else")
    ensures Machine(input, pos, InThen, blk) == Machine(input, pos + 1, InElse, blk.(hasElse := true))
  {
    KeywordsTrimmed();
  }

  /** `fi` ends every phase. */
  lemma FiLine(input: seq<Option<string>>, pos: nat, phase: Phase, blk: IfBlock)
    requires pos < |input| && input[pos] == Some("fi")
    ensures Machine(input, pos, phase, blk) == (blk, if phase == Finished then pos else pos + 1)
  {
    KeywordsTrimmed();
  }

  /** Past the end of the line source the then-phase stops where it is. */
  lemma EndOfLines(input: seq<Option<string>>, blk: IfBlock)
    ensures Machine(input, |input|, InThen, blk) == (blk, |input|)
  {
    assert Machine(input, |input|, InThen, blk) == Machine(input, |input|, Skipping, blk);
  }

  /**
   * `if` line, then-lines, `fi`: the block holds the first MAX_COMMANDS
   * trimmed statements, and reading stops right after `fi`.
   */
  lemma BlockWithoutElse(input: seq<Option<string>>, ifLine: string, ts: seq<string>, fiPos: nat)
    requires fiPos == 1 + |ts| && fiPos < |input|
    requires input[0] == Some(ifLine) && LinesAt(input, 1, ts) && input[fiPos] == Some("fi")
    requires AllThen(ts)
    ensures ReadIfBlock(input) ==
      (Some(IfBlock(ExtractCondition(ifLine), Take(Trimmed(ts), MAX_COMMANDS), [], false)), fiPos + 1)
  {
    var blk0 := IfBlock(ExtractCondition(ifLine), [], [], false);
    var blk1 := blk0.(thenCmds := Take(Trimmed(ts), MAX_COMMANDS));
    ThenStatements(input, 1, ts, blk0, fiPos);
    AppendAllKeepsFirst([], ts);
    assert [] + Trimmed(ts) == Trimmed(ts);
    FiLine(input, fiPos, InThen, blk1);
    FirstRead(input, ifLine);
  }

  /**
   * `if` line, then-lines, `else` at elsePos, else-lines, `fi` at fiPos: both
   * lists hold their first MAX_COMMANDS trimmed statements (an `else` among
   * the else-lines is one of them), and reading stops right after `fi`.
   */
  lemma BlockWithElse(input: seq<Option<string>>, ifLine: string, ts: seq<string>, es: seq<string>, elsePos: nat, fiPos: nat)
    requires elsePos == 1 + |ts| && fiPos == elsePos + 1 + |es| && fiPos < |input|
    requires input[0] == Some(ifLine) && LinesAt(input, 1, ts) && input[elsePos] == Some("else")
    requires LinesAt(input, elsePos + 1, es) && input[fiPos] == Some("fi")
    requires AllThen(ts) && AllElse(es)
    ensures ReadIfBlock(input) ==
      (Some(IfBlock(ExtractCondition(ifLine), Take(Trimmed(ts), MAX_COMMANDS), Take(Trimmed(es), MAX_COMMANDS), true)),
       fiPos + 1)
  {
    var cond := ExtractCondition(ifLine);
    var blk2 := IfBlock(cond, Take(Trimmed(ts), MAX_COMMANDS), [], true);
    ThenPartOfBlock(input, ts, cond, elsePos);
    ElsePartOfBlock(input, elsePos + 1, es, blk2, fiPos);
    FirstRead(input, ifLine);
  }

  lemma ThenPartOfBlock(input: seq<Option<string>>, ts: seq<string>, cond: string, elsePos: nat)
    requires elsePos == 1 + |ts| && elsePos < |input|
    requires LinesAt(input, 1, ts) && input[elsePos] == Some("else") && AllThen(ts)
    ensures Machine(input, 1, InThen, IfBlock(cond, [], [], false)) ==
      Machine(input, elsePos + 1, InElse, IfBlock(cond, Take(Trimmed(ts), MAX_COMMANDS), [], true))
  {
    ThenToElse(input, 1, ts, IfBlock(cond, [], [], false), elsePos);
    AppendAllKeepsFirst([], ts);
    assert [] + Trimmed(ts) == Trimmed(ts);
  }

  lemma ElsePartOfBlock(input: seq<Option<string>>, pos: nat, es: seq<string>, blk: IfBlock, fiPos: nat)
    requires fiPos == pos + |es| && fiPos < |input|
    requires LinesAt(input, pos, es) && input[fiPos] == Some("fi") && AllElse(es) && blk.elseCmds == []
    ensures Machine(input, pos, InElse, blk) == (blk.(elseCmds := Take(Trimmed(es), MAX_COMMANDS)), fiPos + 1)
  {
    ElseToFi(input, pos, es, blk, fiPos);
    AppendAllKeepsFirst([], es);
    assert [] + Trimmed(es) == Trimmed(es);
  }

  lemma ThenToElse(input: seq<Option<string>>, pos: nat, ts: seq<string>, blk: IfBlock, elsePos: nat)
    requires elsePos == pos + |ts| && elsePos < |input|
    requires LinesAt(input, pos, ts) && input[elsePos] == Some("else") && AllThen(ts)
    ensures Machine(input, pos, InThen, blk) ==
      Machine(input, elsePos + 1, InElse, blk.(thenCmds := AppendAll(blk.thenCmds, ts), hasElse := true))
  {
    ThenStatements(input, pos, ts, blk, elsePos);
    ElseLine(input, elsePos, blk.(thenCmds := AppendAll(blk.thenCmds, ts)));
  }

  lemma ElseToFi(input: seq<Option<string>>, pos: nat, es: seq<string>, blk: IfBlock, fiPos: nat)
    requires fiPos == pos + |es| && fiPos < |input|
    requires LinesAt(input, pos, es) && input[fiPos] == Some("fi") && AllElse(es)
    ensures Machine(input, pos, InElse, blk) == (blk.(elseCmds := AppendAll(blk.elseCmds, es)), fiPos + 1)
  {
    ElseStatements(input, pos, es, blk, fiPos);
    FiLine(input, fiPos, InElse, blk.(elseCmds := AppendAll(blk.elseCmds, es)));
  }

  /** End of input inside the then-part returns the statements read so far. */
  lemma EndOfInputInThen(input: seq<Option<string>>, ifLine: string, ts: seq<string>)
    requires |input| == 1 + |ts| && input[0] == Some(ifLine) && LinesAt(input, 1, ts)
    requires AllThen(ts)
    ensures ReadIfBlock(input) ==
      (Some(IfBlock(ExtractCondition(ifLine), Take(Trimmed(ts), MAX_COMMANDS), [], false)), |input|)
  {
    var blk0 := IfBlock(ExtractCondition(ifLine), [], [], false);
    ThenToEnd(input, 1, ts, blk0);
    AppendAllKeepsFirst([], ts);
    assert [] + Trimmed(ts) == Trimmed(ts);
    FirstRead(input, ifLine);
  }

  lemma ThenToEnd(input: seq<Option<string>>, pos: nat, ts: seq<string>, blk: IfBlock)
    requires pos + |ts| == |input| && LinesAt(input, pos, ts) && AllThen(ts)
    ensures Machine(input, pos, InThen, blk) == (blk.(thenCmds := AppendAll(blk.thenCmds, ts)), |input|)
  {
    var blk' := blk.(thenCmds := AppendAll(blk.thenCmds, ts));
    ThenStatements(input, pos, ts, blk, |input|);
    EndOfLines(input, blk');
  }

  /** After a NULL inside the block, lines are read and dropped up to `fi`. */
  lemma SkipAfterEndOfInput(input: seq<Option<string>>, ifLine: string, junk: seq<string>, fiPos: nat)
    requires fiPos == 2 + |junk| && fiPos < |input|
    requires input[0] == Some(ifLine) && input[1] == None
    requires LinesAt(input, 2, junk) && input[fiPos] == Some("fi")
    requires NoFi(junk)
    ensures ReadIfBlock(input) == (Some(IfBlock(ExtractCondition(ifLine), [], [], false)), fiPos + 1)
  {
    var blk := IfBlock(ExtractCondition(ifLine), [], [], false);
    assert Machine(input, 1, InThen, blk) == Machine(input, 2, Skipping, blk);
    SkipLines(input, 2, junk, blk, fiPos);
    FiLine(input, fiPos, Skipping, blk);
    FirstRead(input, ifLine);
  }

  lemma {:induction false} SkipLines(input: seq<Option<string>>, pos: nat, ls: seq<string>, blk: IfBlock, end: nat)
    requires end == pos + |ls| && LinesAt(input, pos, ls)
    requires NoFi(ls)
    ensures Machine(input, pos, Skipping, blk) == Machine(input, end, Skipping, blk)
    decreases |ls|
  {
    if ls != [] {
      SkipStep(input, pos, ls[0], blk);
      SkipLines(input, pos + 1, ls[1..], blk, end);
    }
  }

  // ---------------------------------------------------------------------
  // The condition and the dispatcher.

  /**
   * `execute_condition` with the child exiting with the condition's own
   * status `exitCode`: 1 for an empty condition, one without a pipeline or a
   * killed child, otherwise the pipeline's status.
   */
  function ExecuteCondition(condition: string, exitCode: Pipeline -> int, killed: bool): (r: int)
    ensures r != 1 ==> !killed && ParseCommandLine(condition).Some? && |ParseCommandLine(condition).value.commands| > 0
    ensures !killed && ParseCommandLine(condition).Some? && |ParseCommandLine(condition).value.commands| > 0 ==>
      r == exitCode(ParseCommandLine(condition).value)
  {
    if condition == [] then 1
    else
      match ParseCommandLine(condition)
      case None => 1
      case Some(p) => if |p.commands| == 0 then 1 else if killed then 1 else exitCode(p)
  }

  /**
   * `execute_condition` as written: the child always calls `exit(0)`, so the
   * result is the corrected one for a condition that always exits 0.
   */
  function ExecuteConditionAsWritten(condition: string, killed: bool): (r: int)
    ensures r == 0 || r == 1
    ensures r == ExecuteCondition(condition, _ => 0, killed)
  {
    if condition == [] then 1
    else
      match ParseCommandLine(condition)
      case None => 1
      case Some(p) => if |p.commands| == 0 then 1 else if killed then 1 else 0
  }

  /** As written, every condition that parses and is not killed counts as success. */
  lemma ConditionAlwaysSucceeds(condition: string, exitCode: Pipeline -> int)
    requires ParseCommandLine(condition).Some? && |ParseCommandLine(condition).value.commands| > 0
    ensures ExecuteConditionAsWritten(condition, false) == 0
    ensures ExecuteCondition(condition, exitCode, false) == exitCode(ParseCommandLine(condition).value)
  {
  }

  /** A failing condition: the source still runs the then-statements, the corrected status the else-statements. */
  lemma FalseConditionRunsElse(blk: IfBlock, exitCode: Pipeline -> int)
    requires blk.hasElse
    requires ParseCommandLine(blk.condition).Some? && |ParseCommandLine(blk.condition).value.commands| > 0
    requires exitCode(ParseCommandLine(blk.condition).value) != 0
    ensures ChosenBranch(blk, ExecuteConditionAsWritten(blk.condition, false)) == blk.thenCmds
    ensures ChosenBranch(blk, ExecuteCondition(blk.condition, exitCode, false)) == blk.elseCmds
  {
    ConditionAlwaysSucceeds(blk.condition, exitCode);
  }

  /** The statements `execute_if_block` runs for a condition result. */
  function ChosenBranch(blk: IfBlock, conditionResult: int): seq<string> {
    if conditionResult == 0 then blk.thenCmds
    else if blk.hasElse then blk.elseCmds
    else []
  }

  /** The pipelines of those statements that parse, in order. */
  function Parsed(stmts: seq<string>): seq<Pipeline> {
    if stmts == [] then []
    else
      var rest := Parsed(stmts[1..]);
      match ParseCommandLine(stmts[0])
      case None => rest
      case Some(p) => [p] + rest
  }

  lemma {:induction false} ParsedAppend(a: seq<string>, b: seq<string>)
    ensures Parsed(a + b) == Parsed(a) + Parsed(b)
    decreases |a|
  {
    if a == [] {
      assert a + b == b;
    } else {
      assert (a + b)[0] == a[0] && (a + b)[1..] == a[1..] + b;
      ParsedAppend(a[1..], b);
    }
  }

  /** One more statement adds its pipeline when it parses. */
  lemma ParsedPrefix(stmts: seq<string>, i: nat)
    requires i < |stmts|
    ensures Parsed(stmts[..i + 1]) ==
      Parsed(stmts[..i]) + (if ParseCommandLine(stmts[i]).Some? then [ParseCommandLine(stmts[i]).value] else [])
  {
    assert stmts[..i + 1] == stmts[..i] + [stmts[i]];
    ParsedAppend(stmts[..i], [stmts[i]]);
    assert [stmts[i]][1..] == [];
  }

  /** Exactly one branch runs, or none: success runs the then-statements, failure the else-statements if any. */
  lemma DispatchRule(blk: IfBlock, c: int)
    requires Bounded(blk)
    ensures c == 0 ==> Parsed(ChosenBranch(blk, c)) == Parsed(blk.thenCmds)
    ensures c != 0 ==> Parsed(ChosenBranch(blk, c)) == Parsed(blk.elseCmds)
    ensures |Parsed(ChosenBranch(blk, c))| <= MAX_COMMANDS
  {
    ParsedLength(ChosenBranch(blk, c));
  }

  lemma {:induction false} ParsedLength(stmts: seq<string>)
    ensures |Parsed(stmts)| <= |stmts|
  {
    if stmts != [] {
      ParsedLength(stmts[1..]);
    }
  }

  /**
   * `execute_if_block(block)`: -1 for NULL; otherwise the pipelines run, in
   * order, and 0. Statement failures do not stop later statements.
   */
  method ExecuteIfBlock(block: Option<IfBlock>, exitCode: Pipeline -> int, killed: bool)
    returns (ran: seq<Pipeline>, r: int)
    ensures block.None? ==> r == -1 && ran == []
    ensures block.Some? ==> r == 0
    ensures block.Some? ==>
      ran == Parsed(ChosenBranch(block.value, ExecuteCondition(block.value.condition, exitCode, killed)))
  {
    if block.None? {
      return [], -1;
    }
    var blk := block.value;
    var c := ExecuteCondition(blk.condition, exitCode, killed);
    var stmts := if c == 0 then blk.thenCmds else if blk.hasElse then blk.elseCmds else [];
    ran := [];
    var i := 0;
    while i < |stmts|
      invariant 0 <= i <= |stmts|
      invariant ran == Parsed(stmts[..i])
    {
      ParsedPrefix(stmts, i);
      var p := ParseCommandLine(stmts[i]);
      if p.Some? {
        ran := ran + [p.value];
      }
      i := i + 1;
    }
    assert stmts[..|stmts|] == stmts;
    r := 0;
  }
}
