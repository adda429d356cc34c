/**
 * The line tokenizer of src/shell.c (`tokenize`) and the token classifiers
 * `is_redirection_operator`, `is_pipe_operator` and `is_chain_operator`.
 *
 * The C loop never advances when an unquoted operator character (| < > ; &)
 * stands where a token should start: the word scanner stops at once, no
 * token is emitted, and the outer loop comes back to the same character for
 * ever. The model makes that visible as the outcome `Diverges`. The
 * corrected tokenizer `TokenizeFixed` emits such a character (or `>>`) as a
 * token of its own, and agrees with the original whenever the original stops.
 */
module Tokenizer {
  import opened Common

  /** What `tokenize` does with a line: NULL, a token array, or loop for ever. */
  datatype Outcome = NoTokens | Tokens(tokens: seq<string>) | Diverges

  predicate IsQuote(c: char) {
    c == '"' || c == '\''
  }

  /** The characters that end an unquoted word. */
  predicate IsOperatorChar(c: char) {
    c == '|' || c == '<' || c == '>' || c == ';' || c == '&'
  }

  predicate EndsWord(c: char) {
    IsBlank(c) || IsOperatorChar(c)
  }

  predicate IsRedirectionOperator(token: string) {
    token == "<" || token == ">" || token == ">>"
  }

  predicate IsPipeOperator(token: string) {
    token == "|"
  }

  predicate IsChainOperator(token: string) {
    token == ";"
  }

  /** The index of the first q at or after i, or the end of the line. */
  function QuoteEnd(s: string, i: nat, q: char): (k: nat)
    requires i <= |s|
    ensures i <= k <= |s|
    ensures forall m | i <= m < k :: s[m] != q
    ensures k < |s| ==> s[k] == q
    decreases |s| - i
  {
    if i < |s| && s[i] != q then QuoteEnd(s, i + 1, q) else i
  }

  /** The index of the first blank or operator character at or after i. */
  function WordEnd(s: string, i: nat): (k: nat)
    requires i <= |s|
    ensures i <= k <= |s|
    ensures forall m | i <= m < k :: !EndsWord(s[m])
    ensures k < |s| ==> EndsWord(s[k])
    decreases |s| - i
  {
    if i < |s| && !EndsWord(s[i]) then WordEnd(s, i + 1) else i
  }

  /** The final `argnum == 0` test: no token at all means NULL. */
  function Finish(toks: seq<string>): Outcome {
    if toks == [] then NoTokens else Tokens(toks)
  }

  /** What one pass of the outer loop of `tokenize` does from cursor i. */
  datatype Step =
    | Done                           // only blanks remain: `break`
    | Skip(next: nat)                // an empty quote pair: no token
    | Token(tok: string, next: nat)  // a token and the new cursor
    | Stuck                          // operator at a token start: nothing moves

  function StepAt(line: string, i: nat): (s: Step)
    requires i < |line|
    ensures s.Token? ==> i < s.next <= |line| && s.tok != []
    ensures s.Skip? ==> i < s.next <= |line|
  {
    var j := SkipBlanks(line, i);
    if j == |line| then Done
    else if IsQuote(line[j]) then
      var k := QuoteEnd(line, j + 1, line[j]);
      var next := if k < |line| then k + 1 else k;
      if k == j + 1 then Skip(next) else Token(line[j + 1..k], next)
    else
      var k := WordEnd(line, j);
      if k == j then Stuck else Token(line[j..k], k)
  }

  /**
   * The outer loop of `tokenize` entered with the cursor at i and the tokens
   * toks collected so far.
   */
  function TokenizeFrom(line: string, i: nat, toks: seq<string>): Outcome
    requires i <= |line|
    decreases |line| - i
  {
    if i == |line| || |toks| >= MAXARGS then Finish(toks)
    else
      match StepAt(line, i)
      case Done => Finish(toks)
      case Skip(n) => TokenizeFrom(line, n, toks)
      case Token(t, n) => TokenizeFrom(line, n, toks + [t])
      case Stuck => Diverges
  }

  /** `tokenize(cmdline)`, as written: a token array has 1..MAXARGS entries, none of them empty. */
  function Tokenize(line: string): (r: Outcome)
    ensures r.Tokens? ==> 1 <= |r.tokens| <= MAXARGS && NonEmptyTokens(r.tokens)
  {
    if line == [] || line[0] == '\n' then NoTokens
    else
      TokenizeFromWellFormed(line, 0, []);
      TokenizeFrom(line, 0, [])
  }

  /**
   * One pass of the body of the outer loop of `tokenize`: skip blanks, then
   * scan a quoted run or a word.
   */
  method ScanStep(line: string, entry: nat) returns (s: Step)
    requires entry < |line|
    ensures s == StepAt(line, entry)
  {
    var cp := entry;
    while cp < |line| && IsBlank(line[cp])
      invariant entry <= cp <= |line|
      invariant SkipBlanks(line, cp) == SkipBlanks(line, entry)
    {
      cp := cp + 1;
    }
    if cp == |line| {
      return Done;
    }
    var start := cp;
    var len := 0;
    if IsQuote(line[cp]) {
      var inQuotes := line[cp];
      cp := cp + 1;
      start := cp;
      while cp < |line| && line[cp] != inQuotes
        invariant start <= cp <= |line| && len == cp - start
        invariant QuoteEnd(line, cp, inQuotes) == QuoteEnd(line, start, inQuotes)
      {
        len := len + 1;
        cp := cp + 1;
      }
      if cp < |line| {
        cp := cp + 1;  // the closing quote
      }
      s := if len == 0 then Skip(cp) else Token(line[start..start + len], cp);
    } else {
      while cp < |line| && !EndsWord(line[cp])
        invariant start <= cp <= |line| && len == cp - start
        invariant WordEnd(line, cp) == WordEnd(line, start)
      {
        len := len + 1;
        cp := cp + 1;
      }
      // With len == 0 neither len nor cp moved: the C loop comes back to
      // this character for ever.
      s := if len == 0 then Stuck else Token(line[start..start + len], cp);
    }
  }

  /** The C loop of `tokenize`; where the C code would spin it reports `Diverges`. */
  method TokenizeLine(line: string) returns (r: Outcome)
    ensures r == Tokenize(line)
  {
    if line == [] || line[0] == '\n' {
      return NoTokens;
    }
    var arglist: seq<string> := [];
    var cp := 0;
    while cp < |line| && |arglist| < MAXARGS
      invariant cp <= |line|
      invariant TokenizeFrom(line, cp, arglist) == Tokenize(line)
      decreases |line| - cp
    {
      var step := ScanStep(line, cp);
      match step
      case Done =>
        break;
      case Skip(n) =>
        cp := n;
      case Token(t, n) =>
        arglist := arglist + [t];
        cp := n;
      case Stuck =>
        return Diverges;
    }
    r := Finish(arglist);
  }

  /** Tokens are never empty. */
  predicate NonEmptyTokens(toks: seq<string>) {
    forall k | 0 <= k < |toks| :: |toks[k]| > 0
  }

  lemma {:induction false} TokenizeFromWellFormed(line: string, i: nat, toks: seq<string>)
    requires i <= |line| && |toks| <= MAXARGS && NonEmptyTokens(toks)
    ensures TokenizeFrom(line, i, toks).Tokens? ==>
      var ts := TokenizeFrom(line, i, toks).tokens;
      1 <= |ts| <= MAXARGS && NonEmptyTokens(ts)
    decreases |line| - i
  {
    if i < |line| && |toks| < MAXARGS {
      match StepAt(line, i)
      case Done =>
      case Skip(n) => TokenizeFromWellFormed(line, n, toks);
      case Token(t, n) => TokenizeFromWellFormed(line, n, toks + [t]);
      case Stuck =>
    }
  }

  /** An empty line, a line starting with a newline, or blanks only: NULL. */
  lemma BlankLineHasNoTokens(line: string)
    requires line == [] || line[0] == '\n' || AllBlank(line)
    ensures Tokenize(line) == NoTokens
  {
    if line != [] && line[0] != '\n' {
      SkipBlanksOver(line, [], 0);
      assert line + [] == line;
      assert StepAt(line, 0) == Done;
    }
  }

  /** An operator character where the first token should start hangs the loop. */
  lemma LeadingOperatorDiverges(b: string, c: char, rest: string)
    requires AllBlank(b) && IsOperatorChar(c)
    ensures Tokenize(b + [c] + rest) == Diverges
  {
    var line := b + [c] + rest;
    assert line == b + ([c] + rest);
    SkipBlanksOver(b, [c] + rest, 0);
    assert line[|b|] == c;
    if b != [] {
      assert line[0] == b[0];
    }
    assert WordEnd(line, |b|) == |b|;
    assert StepAt(line, 0) == Stuck;
  }

  lemma {:induction false} WordEndAt(s: string, i: nat, k: nat)
    requires i <= k <= |s|
    requires forall m | i <= m < k :: !EndsWord(s[m])
    requires k < |s| ==> EndsWord(s[k])
    ensures WordEnd(s, i) == k
    decreases k - i
  {
    if i < k {
      WordEndAt(s, i + 1, k);
    }
  }

  lemma {:induction false} QuoteEndAt(s: string, i: nat, q: char, k: nat)
    requires i <= k <= |s|
    requires forall m | i <= m < k :: s[m] != q
    requires k < |s| ==> s[k] == q
    ensures QuoteEnd(s, i, q) == k
    decreases k - i
  {
    if i < k {
      QuoteEndAt(s, i + 1, q, k);
    }
  }

  /** A word followed directly by an operator hangs the loop on that operator. */
  lemma WordThenOperatorDiverges(w: string, c: char, rest: string)
    requires w != [] && !IsQuote(w[0]) && w[0] != '\n'
    requires forall k | 0 <= k < |w| :: !EndsWord(w[k])
    requires IsOperatorChar(c)
    ensures Tokenize(w + [c] + rest) == Diverges
  {
    var line := w + [c] + rest;
    assert line[0] == w[0];
    assert line[|w|] == c;
    assert line[..|w|] == w;
    assert SkipBlanks(line, 0) == 0;
    WordEndAt(line, 0, |w|);
    assert StepAt(line, 0) == Token(w, |w|);
    assert SkipBlanks(line, |w|) == |w|;
    assert StepAt(line, |w|) == Stuck;
    assert TokenizeFrom(line, |w|, [w]) == Diverges;
    assert TokenizeFrom(line, 0, []) == TokenizeFrom(line, |w|, [] + [w]);
    assert [] + [w] == [w];
  }

  /** After leading blanks b, a quote q whose run ends at k (a closing q or the end) is one token. */
  lemma QuoteStepAt(line: string, b: string, q: char, k: nat)
    requires AllBlank(b) && IsQuote(q) && |b| < |line| && line[..|b|] == b && line[|b|] == q
    requires |b| + 1 < k <= |line| && q !in line[|b| + 1..k] && (k < |line| ==> line[k] == q)
    ensures StepAt(line, 0) == Token(line[|b| + 1..k], if k < |line| then k + 1 else k)
  {
    var j := |b|;
    var rest := line[j..];
    assert line == b + rest;
    assert rest[0] == q;
    SkipBlanksOver(b, rest, 0);
    forall m | j + 1 <= m < k
      ensures line[m] != q
    {
      assert line[m] == line[j + 1..k][m - j - 1];
    }
    QuoteEndAt(line, j + 1, q, k);
  }

  /** A closed quote run: the text between the quotes, quotes removed, as one token. */
  lemma QuotedToken(b: string, q: char, body: string)
    requires AllBlank(b) && IsQuote(q) && q !in body && body != []
    ensures Tokenize(b + [q] + body + [q]) == Tokens([body])
  {
    var line := b + [q] + body + [q];
    var k := |b| + 1 + |body|;
    assert line[..|b|] == b && line[|b|] == q && line[k] == q;
    assert line[|b| + 1..k] == body;
    QuoteStepAt(line, b, q, k);
    if b != [] {
      assert line[0] == b[0];
    }
    assert [] + [body] == [body];
    assert TokenizeFrom(line, 0, []) == TokenizeFrom(line, |line|, [body]);
    assert TokenizeFrom(line, |line|, [body]) == Tokens([body]);
  }

  /** An unterminated quote runs to the end of the line. */
  lemma UnterminatedQuote(b: string, q: char, body: string)
    requires AllBlank(b) && IsQuote(q) && q !in body && body != []
    ensures Tokenize(b + [q] + body) == Tokens([body])
  {
    var line := b + [q] + body;
    assert line[..|b|] == b && line[|b|] == q;
    assert line[|b| + 1..|line|] == body;
    QuoteStepAt(line, b, q, |line|);
    if b != [] {
      assert line[0] == b[0];
    }
    assert [] + [body] == [body];
    assert TokenizeFrom(line, 0, []) == TokenizeFrom(line, |line|, [body]);
    assert TokenizeFrom(line, |line|, [body]) == Tokens([body]);
  }

  /** An empty quote pair yields no token. */
  lemma EmptyQuotes(q: char)
    requires IsQuote(q)
    ensures Tokenize([q, q]) == NoTokens
  {
    QuoteEndAt([q, q], 1, q, 1);
    assert StepAt([q, q], 0) == Skip(2);
    assert TokenizeFrom([q, q], 2, []) == NoTokens;
  }

  /** Lines with no quote and no operator character: the loop never hangs. */
  predicate IsPlainLine(line: string) {
    forall k | 0 <= k < |line| :: !IsQuote(line[k]) && !IsOperatorChar(line[k])
  }

  const Blanks: set<char> := {' ', '\t'}

  lemma {:induction false} FieldsAfterBlanks(line: string, i: nat)
    requires i <= |line|
    ensures Fields(line[i..], Blanks) == Fields(line[SkipBlanks(line, i)..], Blanks)
    decreases |line| - i
  {
    if i < |line| && IsBlank(line[i]) {
      assert line[i..][1..] == line[i + 1..];
      FieldsAfterBlanks(line, i + 1);
    }
  }

  lemma {:induction false} WordEndIsRun(line: string, j: nat)
    requires j <= |line| && IsPlainLine(line)
    ensures WordEnd(line, j) == j + RunLength(line[j..], Blanks)
    decreases |line| - j
  {
    if j < |line| && !EndsWord(line[j]) {
      assert line[j..][1..] == line[j + 1..];
      WordEndIsRun(line, j + 1);
    }
  }

  /** On a plain line a step is the next field of the blank-split rest. */
  lemma PlainStep(line: string, i: nat)
    requires i < |line| && IsPlainLine(line)
    ensures StepAt(line, i).Done? || StepAt(line, i).Token?
    ensures StepAt(line, i).Done? ==> Fields(line[i..], Blanks) == []
    ensures StepAt(line, i).Token? ==>
      Fields(line[i..], Blanks) == [StepAt(line, i).tok] + Fields(line[StepAt(line, i).next..], Blanks)
  {
    var j := SkipBlanks(line, i);
    FieldsAfterBlanks(line, i);
    if j == |line| {
      assert line[j..] == [];
    } else {
      FieldAtWord(line, j);
    }
  }

  /** A plain word at j is the first field of the rest of the line. */
  lemma FieldAtWord(line: string, j: nat)
    requires j < |line| && IsPlainLine(line) && !IsBlank(line[j])
    ensures j < WordEnd(line, j)
    ensures Fields(line[j..], Blanks) == [line[j..WordEnd(line, j)]] + Fields(line[WordEnd(line, j)..], Blanks)
  {
    var rest := line[j..];
    var k := WordEnd(line, j);
    WordEndIsRun(line, j);
    var n := RunLength(rest, Blanks);
    assert rest[0] == line[j] && rest[0] !in Blanks;
    assert Fields(rest, Blanks) == [rest[..n]] + Fields(rest[n..], Blanks);
    assert rest[..n] == line[j..k];
    assert rest[n..] == line[k..];
  }

  lemma TakeCons<T>(t: T, rest: seq<T>, n: int)
    requires n >= 1
    ensures Take([t] + rest, n) == [t] + Take(rest, n - 1)
  {
    if n - 1 < |rest| {
      assert ([t] + rest)[..n] == [t] + rest[..n - 1];
    }
  }

  lemma TakeAfterToken(toks: seq<string>, t: string, rest: seq<string>)
    requires |toks| < MAXARGS
    ensures toks + Take([t] + rest, MAXARGS - |toks|)
      == (toks + [t]) + Take(rest, MAXARGS - |toks + [t]|)
  {
    TakeCons(t, rest, MAXARGS - |toks|);
  }

  lemma {:induction false} TokenizeFromPlain(line: string, i: nat, toks: seq<string>)
    requires i <= |line| && |toks| <= MAXARGS && IsPlainLine(line)
    ensures TokenizeFrom(line, i, toks) ==
      Finish(toks + Take(Fields(line[i..], Blanks), MAXARGS - |toks|))
    decreases |line| - i
  {
    var fs := Fields(line[i..], Blanks);
    if i == |line| {
      assert fs == [];
      assert toks + Take(fs, MAXARGS - |toks|) == toks;
    } else if |toks| >= MAXARGS {
      assert toks + Take(fs, MAXARGS - |toks|) == toks;
    } else {
      PlainStep(line, i);
      var step := StepAt(line, i);
      if step.Done? {
        assert toks + Take(fs, MAXARGS - |toks|) == toks;
      } else {
        var t, n := step.tok, step.next;
        assert TokenizeFrom(line, i, toks) == TokenizeFrom(line, n, toks + [t]);
        TokenizeFromPlain(line, n, toks + [t]);
        TakeAfterToken(toks, t, Fields(line[n..], Blanks));
      }
    }
  }

  /**
   * On a line without quotes and operators `tokenize` is strtok-style
   * splitting at spaces and tabs, cut at MAXARGS tokens.
   */
  lemma PlainLineIsFieldSplit(line: string)
    requires IsPlainLine(line) && (line == [] || line[0] != '\n')
    ensures Tokenize(line) == Finish(Take(Fields(line, Blanks), MAXARGS))
  {
    if line != [] {
      TokenizeFromPlain(line, 0, []);
      assert line[0..] == line;
    }
  }

  // ---------------------------------------------------------------------
  // Corrected tokenizer.

  /** The operator token that starts at j: `>>` if it is there, else one character. */
  function OperatorAt(line: string, j: nat): (op: string)
    requires j < |line|
    ensures 1 <= |op| <= 2 && j + |op| <= |line| && op == line[j..j + |op|]
    ensures op == ">>" <==> line[j] == '>' && j + 1 < |line| && line[j + 1] == '>'
    ensures |op| == 1 ==> op == [line[j]]
  {
    if line[j] == '>' && j + 1 < |line| && line[j + 1] == '>' then ">>" else [line[j]]
  }

  /** A step of the corrected loop: an operator at a token start becomes a token. */
  function FixedStepAt(line: string, i: nat): (s: Step)
    requires i < |line|
    ensures !s.Stuck?
    ensures s.Token? ==> i < s.next <= |line| && s.tok != []
    ensures s.Skip? ==> i < s.next <= |line|
  {
    match StepAt(line, i)
    case Stuck =>
      var j := SkipBlanks(line, i);
      var op := OperatorAt(line, j);
      Token(op, j + |op|)
    case s => s
  }

  function FixedFrom(line: string, i: nat, toks: seq<string>): Outcome
    requires i <= |line|
    decreases |line| - i
  {
    if i == |line| || |toks| >= MAXARGS then Finish(toks)
    else
      match FixedStepAt(line, i)
      case Done => Finish(toks)
      case Skip(n) => FixedFrom(line, n, toks)
      case Token(t, n) => FixedFrom(line, n, toks + [t])
      case Stuck => Diverges
  }

  /**
   * `tokenize` with an operator at a token start emitted as its own token:
   * it stops on every line, and its token arrays are as well formed as the
   * original's.
   */
  function TokenizeFixed(line: string): (r: Outcome)
    ensures r != Diverges
    ensures r.Tokens? ==> 1 <= |r.tokens| <= MAXARGS && NonEmptyTokens(r.tokens)
  {
    if line == [] || line[0] == '\n' then NoTokens
    else
      FixedFromStops(line, 0, []);
      FixedFromWellFormed(line, 0, []);
      FixedFrom(line, 0, [])
  }

  lemma {:induction false} FixedFromStops(line: string, i: nat, toks: seq<string>)
    requires i <= |line|
    ensures FixedFrom(line, i, toks) != Diverges
    decreases |line| - i
  {
    if i < |line| && |toks| < MAXARGS {
      match FixedStepAt(line, i)
      case Done =>
      case Skip(n) => FixedFromStops(line, n, toks);
      case Token(t, n) => FixedFromStops(line, n, toks + [t]);
    }
  }

  lemma {:induction false} FixedFromAgrees(line: string, i: nat, toks: seq<string>)
    requires i <= |line|
    requires TokenizeFrom(line, i, toks) != Diverges
    ensures FixedFrom(line, i, toks) == TokenizeFrom(line, i, toks)
    decreases |line| - i
  {
    if i < |line| && |toks| < MAXARGS {
      match StepAt(line, i)
      case Done =>
      case Skip(n) => FixedFromAgrees(line, n, toks);
      case Token(t, n) => FixedFromAgrees(line, n, toks + [t]);
    }
  }

  /** Wherever the original tokenizer stops, the corrected one returns the same tokens. */
  lemma FixedAgreesWhenOriginalStops(line: string)
    requires Tokenize(line) != Diverges
    ensures TokenizeFixed(line) == Tokenize(line)
  {
    if line != [] && line[0] != '\n' {
      FixedFromAgrees(line, 0, []);
    }
  }

  lemma {:induction false} FixedFromWellFormed(line: string, i: nat, toks: seq<string>)
    requires i <= |line| && |toks| <= MAXARGS && NonEmptyTokens(toks)
    ensures FixedFrom(line, i, toks).Tokens? ==>
      var ts := FixedFrom(line, i, toks).tokens;
      1 <= |ts| <= MAXARGS && NonEmptyTokens(ts)
    decreases |line| - i
  {
    if i < |line| && |toks| < MAXARGS {
      match FixedStepAt(line, i)
      case Done =>
      case Skip(n) => FixedFromWellFormed(line, n, toks);
      case Token(t, n) => FixedFromWellFormed(line, n, toks + [t]);
    }
  }

  /** `a|b`: the original hangs, the corrected tokenizer yields three tokens. */
  lemma PipeWithoutBlanks()
    ensures Tokenize("a|b") == Diverges
    ensures TokenizeFixed("a|b") == Tokens(["a", "|", "b"])
  {
    WordThenOperatorDiverges("a", '|', "b");
    assert "a" + ['|'] + "b" == "a|b";
    FixedSplitsPipe();
  }

  lemma FixedSplitsPipe()
    ensures TokenizeFixed("a|b") == Tokens(["a", "|", "b"])
  {
    var line := "a|b";
    WordEndAt(line, 0, 1);
    WordEndAt(line, 1, 1);
    WordEndAt(line, 2, 3);
    assert SkipBlanks(line, 0) == 0;
    assert SkipBlanks(line, 1) == 1;
    assert SkipBlanks(line, 2) == 2;
    assert FixedStepAt(line, 0) == Token("a", 1);
    assert FixedStepAt(line, 1) == Token("|", 2);
    assert FixedStepAt(line, 2) == Token("b", 3);
  }
}
