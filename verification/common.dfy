/**
 * Definitions shared by every part of the shell model: the Option type used
 * for C's NULL pointers, the capacity constants, and the character-level
 * helpers (blank skipping, strtok-style field splitting) that the C code
 * repeats inline in several files.
 */
module Common {

  /** A C pointer that may be NULL. */
  datatype Option<T> = None | Some(value: T) {
    function GetOr(default: T): T {
      match this
      case Some(v) => v
      case None => default
    }
  }

  type Pos = n: int | n > 0 witness 1

  /** Maximum number of tokens produced by the tokenizer (include/shell.h). */
  const MAXARGS: nat := 64

  // The remaining capacities are used by the source but defined in a header
  // that is not part of this model; they stay symbolic (any positive value).
  const MAX_COMMANDS: Pos
  const MAX_ARGS_PER_CMD: Pos
  const HISTORY_SIZE: Pos
  const MAX_JOBS: Pos
  const MAX_VARIABLES: Pos

  /** Space or tab: the only characters the shell treats as blanks. */
  predicate IsBlank(c: char) {
    c == ' ' || c == '\t'
  }

  predicate AllBlank(s: string) {
    forall k | 0 <= k < |s| :: IsBlank(s[k])
  }

  /** The index of the first non-blank character at or after i. */
  function SkipBlanks(s: string, i: nat): (j: nat)
    requires i <= |s|
    ensures i <= j <= |s|
    ensures forall k | i <= k < j :: IsBlank(s[k])
    ensures j < |s| ==> !IsBlank(s[j])
    decreases |s| - i
  {
    if i < |s| && IsBlank(s[i]) then SkipBlanks(s, i + 1) else i
  }

  /** The string without its leading spaces and tabs. */
  function TrimLeft(s: string): string {
    s[SkipBlanks(s, 0)..]
  }

  /** TrimLeft drops a run of blanks from the front and stops at the first non-blank. */
  lemma TrimLeftShape(s: string)
    ensures |TrimLeft(s)| <= |s| && TrimLeft(s) == s[|s| - |TrimLeft(s)|..]
    ensures AllBlank(s[..|s| - |TrimLeft(s)|])
    ensures TrimLeft(s) != [] ==> !IsBlank(TrimLeft(s)[0])
  {
    var j := SkipBlanks(s, 0);
    assert |s| - |TrimLeft(s)| == j;
    assert forall k | 0 <= k < j :: s[..j][k] == s[k];
  }

  /** Blanks followed by a string that does not start with one skip to that string. */
  lemma {:induction false} SkipBlanksOver(b: string, t: string, i: nat)
    requires AllBlank(b) && i <= |b|
    requires t != [] ==> !IsBlank(t[0])
    ensures SkipBlanks(b + t, i) == |b|
    decreases |b| - i
  {
    var s := b + t;
    if i < |b| {
      assert s[i] == b[i];
      SkipBlanksOver(b, t, i + 1);
    } else if t != [] {
      assert s[i] == t[0];
    }
  }

  lemma TrimLeftOfBlanks(b: string, t: string)
    requires AllBlank(b)
    requires t != [] ==> !IsBlank(t[0])
    ensures TrimLeft(b + t) == t
  {
    SkipBlanksOver(b, t, 0);
    assert (b + t)[|b|..] == t;
  }

  /** True when w can be a field of a string split at the characters of delims. */
  predicate IsField(w: string, delims: set<char>) {
    |w| > 0 && forall k | 0 <= k < |w| :: w[k] !in delims
  }

  /** Length of the longest prefix of s free of delimiters. */
  function RunLength(s: string, delims: set<char>): (n: nat)
    ensures n <= |s|
    ensures forall k | 0 <= k < n :: s[k] !in delims
    ensures n < |s| ==> s[n] in delims
  {
    if s == [] || s[0] in delims then 0 else 1 + RunLength(s[1..], delims)
  }

  /**
   * The pieces strtok_r returns when it is called repeatedly on s with the
   * delimiter set delims: the maximal non-empty runs of non-delimiters, in
   * order; empty pieces between adjacent delimiters are skipped.
   */
  function Fields(s: string, delims: set<char>): (r: seq<string>)
    ensures forall k | 0 <= k < |r| :: IsField(r[k], delims)
    decreases |s|
  {
    if s == [] then []
    else if s[0] in delims then Fields(s[1..], delims)
    else
      var n := RunLength(s, delims);
      [s[..n]] + Fields(s[n..], delims)
  }

  lemma {:induction false} RunLengthBeforeDelimiter(a: string, t: string, delims: set<char>)
    requires t != [] && t[0] in delims
    ensures RunLength(a + t, delims) == RunLength(a, delims)
  {
    if a == [] {
    } else if a[0] in delims {
    } else {
      assert (a + t)[1..] == a[1..] + t;
      RunLengthBeforeDelimiter(a[1..], t, delims);
    }
  }

  /** Splitting at a delimiter and splitting the two halves agree. */
  lemma {:induction false} FieldsConcat(a: string, d: char, b: string, delims: set<char>)
    requires d in delims
    ensures Fields(a + [d] + b, delims) == Fields(a, delims) + Fields(b, delims)
    decreases |a|
  {
    var s := a + [d] + b;
    if a == [] {
      assert s == [d] + b && s[1..] == b;
    } else if a[0] in delims {
      assert s[1..] == a[1..] + [d] + b;
      FieldsConcat(a[1..], d, b, delims);
    } else {
      assert s == a + ([d] + b);
      RunLengthBeforeDelimiter(a, [d] + b, delims);
      var n := RunLength(a, delims);
      assert s[..n] == a[..n];
      assert s[n..] == a[n..] + [d] + b;
      FieldsConcat(a[n..], d, b, delims);
    }
  }

  /** A string free of delimiters is a single field (or none when empty). */
  lemma {:induction false} FieldsOfField(w: string, delims: set<char>)
    requires forall k | 0 <= k < |w| :: w[k] !in delims
    ensures Fields(w, delims) == if w == [] then [] else [w]
  {
    if w != [] {
      RunLengthOfField(w, delims);
      assert w[..|w|] == w && w[|w|..] == [];
    }
  }

  lemma {:induction false} RunLengthOfField(w: string, delims: set<char>)
    requires forall k | 0 <= k < |w| :: w[k] !in delims
    ensures RunLength(w, delims) == |w|
  {
    if w != [] {
      RunLengthOfField(w[1..], delims);
    }
  }

  /** The first n elements of s, or all of s when it is shorter. */
  function Take<T>(s: seq<T>, n: int): (r: seq<T>)
    ensures |r| == if n <= 0 then 0 else if n < |s| then n else |s|
    ensures r == s[..|r|]
  {
    if n <= 0 then [] else if n < |s| then s[..n] else s
  }

  /** The index of the first occurrence of c in s (C's strchr). */
  function IndexOf(s: string, c: char): (r: Option<nat>)
    ensures r.Some? <==> c in s
    ensures r.Some? ==> r.value < |s| && s[r.value] == c && c !in s[..r.value]
  {
    if s == [] then None
    else if s[0] == c then Some(0)
    else
      match IndexOf(s[1..], c)
      case None => None
      case Some(k) =>
        assert s[..k + 1] == [s[0]] + s[1..][..k];
        Some(k + 1)
  }

  /** The first occurrence of c is right after a prefix free of c. */
  lemma {:induction false} IndexOfAfter(prefix: string, c: char, rest: string)
    requires c !in prefix
    ensures IndexOf(prefix + [c] + rest, c) == Some(|prefix|)
  {
    var s := prefix + [c] + rest;
    if prefix != [] {
      assert s[0] == prefix[0];
      assert s[1..] == prefix[1..] + [c] + rest;
      IndexOfAfter(prefix[1..], c, rest);
    }
  }
}
