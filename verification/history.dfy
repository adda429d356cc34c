/**
 * The command history of src/shell.c: a circular array of HISTORY_SIZE
 * string slots with `history_count` retained entries, the most recent at
 * `history_index`. `add_to_history` skips empty commands and repeats of the
 * most recent entry; `get_history_command(n)` returns the n-th oldest
 * retained entry; `handle_history_execution` replaces a `!N` line by entry N.
 */
module History {
  import opened Common

  // ---------------------------------------------------------------------
  // The abstract view: the retained entries, oldest first.

  /** The last n elements of es. */
  function Window(es: seq<string>, n: nat): (r: seq<string>)
    ensures |r| == if |es| <= n then |es| else n
    ensures r == es[|es| - |r|..]
  {
    if |es| <= n then es else es[|es| - n..]
  }

  /** The entries after `add_to_history(c)`. */
  function Pushed(es: seq<string>, c: string): seq<string> {
    if c == [] || (es != [] && es[|es| - 1] == c) then es
    else Window(es + [c], HISTORY_SIZE)
  }

  predicate NoEmptyEntry(es: seq<string>) {
    forall k | 0 <= k < |es| :: es[k] != []
  }

  /** No entry repeats the one just before it. */
  predicate NoAdjacentRepeat(es: seq<string>) {
    forall k | 0 < k < |es| :: es[k - 1] != es[k]
  }

  /** A new command is appended; when the buffer is full the oldest entry goes. */
  lemma PushedNew(es: seq<string>, c: string)
    requires |es| <= HISTORY_SIZE
    requires c != [] && (es == [] || es[|es| - 1] != c)
    ensures Pushed(es, c) == if |es| < HISTORY_SIZE then es + [c] else es[1..] + [c]
    ensures |Pushed(es, c)| <= HISTORY_SIZE
  {
    if |es| == HISTORY_SIZE {
      assert (es + [c])[1..] == es[1..] + [c];
    }
  }

  /** Adding the same command twice in a row is the same as adding it once. */
  lemma PushedIdempotent(es: seq<string>, c: string)
    ensures Pushed(Pushed(es, c), c) == Pushed(es, c)
  {
    var p := Pushed(es, c);
    if !(c == [] || (es != [] && es[|es| - 1] == c)) {
      var w := es + [c];
      assert p == w[|w| - |p|..];
      assert p[|p| - 1] == c;
    }
  }

  /** The entries stay as they are exactly when the command is empty or repeats the newest entry. */
  lemma PushedUnchanged(es: seq<string>, c: string)
    requires |es| <= HISTORY_SIZE
    ensures Pushed(es, c) == es <==> c == [] || (es != [] && es[|es| - 1] == c)
  {
    if !(c == [] || (es != [] && es[|es| - 1] == c)) {
      PushedNew(es, c);
      var p := Pushed(es, c);
      assert p[|p| - 1] == c;
      if es != [] {
        assert p != es by { assert |p| == |es| ==> p[|p| - 1] != es[|es| - 1]; }
      }
    }
  }

  /** Adding keeps every entry non-empty and no entry equal to its predecessor. */
  lemma PushedKeepsShape(es: seq<string>, c: string)
    requires NoEmptyEntry(es) && NoAdjacentRepeat(es)
    ensures NoEmptyEntry(Pushed(es, c)) && NoAdjacentRepeat(Pushed(es, c))
  {
    var p := Pushed(es, c);
    if !(c == [] || (es != [] && es[|es| - 1] == c)) {
      var w := es + [c];
      var d := |w| - |p|;
      assert p == w[d..];
      forall k | 0 <= k < |p|
        ensures p[k] != []
      {
        assert p[k] == w[d + k];
      }
      forall k | 0 < k < |p|
        ensures p[k - 1] != p[k]
      {
        assert p[k - 1] == w[d + k - 1] && p[k] == w[d + k];
        if d + k < |es| {
          assert w[d + k - 1] == es[d + k - 1] && w[d + k] == es[d + k];
        }
      }
    }
  }

  /** The entries after adding the commands cs in order to the entries es. */
  function PushedAll(es: seq<string>, cs: seq<string>): seq<string>
    decreases |cs|
  {
    if cs == [] then es else Pushed(PushedAll(es, cs[..|cs| - 1]), cs[|cs| - 1])
  }

  /** The commands `add_to_history` keeps: none empty and none equal to the one kept before it. */
  function Kept(cs: seq<string>): (r: seq<string>)
    ensures NoEmptyEntry(r) && NoAdjacentRepeat(r)
    ensures |r| <= |cs|
    decreases |cs|
  {
    if cs == [] then []
    else
      var f := Kept(cs[..|cs| - 1]);
      var c := cs[|cs| - 1];
      if c == [] || (f != [] && f[|f| - 1] == c) then f else f + [c]
  }

  /** Starting from an empty history, the entries are the last HISTORY_SIZE commands kept. */
  lemma {:induction false} HistoryOfAdds(cs: seq<string>)
    ensures PushedAll([], cs) == Window(Kept(cs), HISTORY_SIZE)
    decreases |cs|
  {
    if cs != [] {
      var init := cs[..|cs| - 1];
      var c := cs[|cs| - 1];
      var f := Kept(init);
      HistoryOfAdds(init);
      var p := PushedAll([], init);
      WindowLast(f, HISTORY_SIZE);
      if !(c == [] || (f != [] && f[|f| - 1] == c)) {
        WindowSnoc(f, c, HISTORY_SIZE);
      }
    }
  }

  /** The last n of f is empty only when f is, and ends with f's last element. */
  lemma WindowLast(f: seq<string>, n: nat)
    requires n > 0
    ensures Window(f, n) == [] <==> f == []
    ensures f != [] ==> Window(f, n)[|Window(f, n)| - 1] == f[|f| - 1]
  {
  }

  /** Taking the last n of f and then appending c keeps the last n of f + [c]. */
  lemma WindowSnoc(f: seq<string>, c: string, n: nat)
    requires n > 0
    ensures Window(Window(f, n) + [c], n) == Window(f + [c], n)
  {
    var w := Window(f, n);
    var a := Window(w + [c], n);
    var b := Window(f + [c], n);
    assert |a| == |b|;
    forall k | 0 <= k < |a|
      ensures a[k] == b[k]
    {
      if k == |a| - 1 {
      } else {
        assert a[k] == w[|w| + 1 - |a| + k];
        assert b[k] == f[|f| + 1 - |b| + k];
      }
    }
  }

  // ---------------------------------------------------------------------
  // strtol(s, &end, 10) over the text after `!`.

  /** C's isspace in the "C" locale. */
  predicate IsSpace(c: char) {
    c == ' ' || 9 <= c as int <= 13
  }

  predicate IsDigit(c: char) {
    '0' <= c <= '9'
  }

  predicate AllDigits(s: string) {
    forall k | 0 <= k < |s| :: IsDigit(s[k])
  }

  function SkipSpaces(s: string, i: nat): (j: nat)
    requires i <= |s|
    ensures i <= j <= |s| && (j < |s| ==> !IsSpace(s[j]))
    decreases |s| - i
  {
    if i < |s| && IsSpace(s[i]) then SkipSpaces(s, i + 1) else i
  }

  function DigitRun(s: string, i: nat): (j: nat)
    requires i <= |s|
    ensures i <= j <= |s| && AllDigits(s[i..j]) && (j < |s| ==> !IsDigit(s[j]))
    decreases |s| - i
  {
    if i < |s| && IsDigit(s[i]) then
      var j := DigitRun(s, i + 1);
      assert s[i..j] == [s[i]] + s[i + 1..j];
      j
    else i
  }

  /** The value of a string of decimal digits, most significant first. */
  function DigitsValue(ds: string): nat
    requires AllDigits(ds)
  {
    if ds == [] then 0
    else DigitsValue(ds[..|ds| - 1]) * 10 + (ds[|ds| - 1] as int - '0' as int)
  }

  /** What strtol computes: the exact value and the offset of `*endptr` (0 when nothing converted). */
  datatype Conversion = Conversion(value: int, end: nat)

  /** Where the digits start: after the leading white space and an optional sign. */
  function NumberStart(s: string): (d: nat)
    ensures d <= |s|
  {
    var j := SkipSpaces(s, 0);
    if j < |s| && (s[j] == '+' || s[j] == '-') then j + 1 else j
  }

  /** The sign after the leading white space is `-`. */
  predicate IsNegative(s: string) {
    var j := SkipSpaces(s, 0);
    j < |s| && s[j] == '-'
  }

  /**
   * strtol(s, &end, 10) without the clamp: nothing is converted (end 0,
   * value 0) exactly when no digit follows the white space and the sign;
   * otherwise end is just past the longest digit run there and the value is
   * that run's, with the sign.
   */
  function Strtol(s: string): (r: Conversion)
    ensures r.end <= |s|
    ensures r.end == 0 <==> NumberStart(s) == |s| || !IsDigit(s[NumberStart(s)])
    ensures r.end == 0 ==> r.value == 0
    ensures r.end != 0 ==>
      NumberStart(s) < r.end && AllDigits(s[NumberStart(s)..r.end]) && (r.end < |s| ==> !IsDigit(s[r.end])) &&
      r.value == if IsNegative(s) then -(DigitsValue(s[NumberStart(s)..r.end]) as int) else DigitsValue(s[NumberStart(s)..r.end])
  {
    var negative := IsNegative(s);
    var d := NumberStart(s);
    var k := DigitRun(s, d);
    assert k > d ==> IsDigit(s[d]) by {
      if k > d {
        assert s[d..k][0] == s[d];
      }
    }
    if k == d then Conversion(0, 0)
    else
      var v: int := DigitsValue(s[d..k]);
      Conversion(if negative then -v else v, k)
  }

  /** The decimal numeral of n, without sign or leading zeros. */
  function Decimal(n: nat): (r: string)
    ensures r != [] && AllDigits(r) && DigitsValue(r) == n
  {
    var d := [(('0' as int) + n % 10) as char];
    if n < 10 then
      assert d[..0] == [];
      d
    else
      var r := Decimal(n / 10) + d;
      assert r[..|r| - 1] == Decimal(n / 10);
      r
  }

  /** strtol reads a numeral back as its value and stops at its end. */
  lemma StrtolDecimal(n: nat)
    ensures Strtol(Decimal(n)) == Conversion(n, |Decimal(n)|)
  {
    var s := Decimal(n);
    assert !IsSpace(s[0]) && s[0] != '+' && s[0] != '-';
    DigitRunAll(s, 0);
    assert s[0..|s|] == s;
  }

  predicate AllSpaces(s: string) {
    forall k | 0 <= k < |s| :: IsSpace(s[k])
  }

  /** strtol skips white space, takes a sign and reads the numeral after it, stopping at a non-digit. */
  lemma StrtolSigned(sp: string, sign: string, n: nat, rest: string)
    requires AllSpaces(sp) && (sign == "" || sign == "+" || sign == "-")
    requires rest == [] || !IsDigit(rest[0])
    ensures Strtol(sp + sign + Decimal(n) + rest) ==
      Conversion(if sign == "-" then -(n as int) else n, |sp| + |sign| + |Decimal(n)|)
  {
    var ds := Decimal(n);
    var s := sp + sign + ds + rest;
    var d := |sp| + |sign|;
    var e := d + |ds|;
    assert s[|sp|] == if sign == "" then ds[0] else sign[0];
    SkipSpacesTo(s, 0, |sp|);
    assert NumberStart(s) == d;
    assert IsNegative(s) <==> sign == "-";
    assert s[d..e] == ds;
    assert e < |s| ==> s[e] == rest[0];
    DigitRunTo(s, d, e);
  }

  lemma {:induction false} SkipSpacesTo(s: string, i: nat, m: nat)
    requires i <= m <= |s| && (m < |s| ==> !IsSpace(s[m]))
    requires forall k | i <= k < m :: IsSpace(s[k])
    ensures SkipSpaces(s, i) == m
    decreases m - i
  {
    if i < m {
      SkipSpacesTo(s, i + 1, m);
    }
  }

  lemma {:induction false} DigitRunTo(s: string, d: nat, e: nat)
    requires d <= e <= |s| && AllDigits(s[d..e]) && (e < |s| ==> !IsDigit(s[e]))
    ensures DigitRun(s, d) == e
    decreases e - d
  {
    if d < e {
      assert s[d] == s[d..e][0];
      assert s[d + 1..e] == s[d..e][1..];
      DigitRunTo(s, d + 1, e);
    }
  }

  lemma {:induction false} DigitRunAll(s: string, i: nat)
    requires AllDigits(s) && i <= |s|
    ensures DigitRun(s, i) == |s|
    decreases |s| - i
  {
    if i < |s| {
      DigitRunAll(s, i + 1);
    }
  }

  const LONG_MIN: int := -0x8000_0000_0000_0000
  const LONG_MAX: int := 0x7fff_ffff_ffff_ffff

  /** strtol saturates at the limits of a 64-bit long. */
  function ClampLong(v: int): int {
    if v > LONG_MAX then LONG_MAX else if v < LONG_MIN then LONG_MIN else v
  }

  /** `int n = <long>`: the two's-complement truncation to 32 bits. */
  function ToInt32(v: int): (r: int)
    ensures -0x8000_0000 <= r < 0x8000_0000
    ensures (r - v) % 0x1_0000_0000 == 0
  {
    (v + 0x8000_0000) % 0x1_0000_0000 - 0x8000_0000
  }

  /** The number after `!` as the source computes it: accepted only if the whole text converts. */
  function HistoryNumberAsWritten(arg: string): (r: Option<int>)
    ensures r.Some? <==> Strtol(arg).end != 0 && Strtol(arg).end == |arg|
  {
    var c := Strtol(arg);
    if c.end == 0 || c.end != |arg| then None else Some(ToInt32(ClampLong(c.value)))
  }

  /** The number after `!` with its exact value, so that `!N` means entry N. */
  function HistoryNumber(arg: string): (r: Option<int>)
    ensures r.Some? <==> Strtol(arg).end != 0 && Strtol(arg).end == |arg|
    ensures r.Some? ==> r.value == Strtol(arg).value
  {
    var c := Strtol(arg);
    if c.end == 0 || c.end != |arg| then None else Some(c.value)
  }

  /** Both read a plain numeral in the 32-bit range as its value. */
  lemma NumeralRead(n: nat)
    requires n < 0x8000_0000
    ensures HistoryNumber(Decimal(n)) == Some(n)
    ensures HistoryNumberAsWritten(Decimal(n)) == Some(n)
  {
    StrtolDecimal(n);
    FitsInt32(n);
  }

  /** A value in the 32-bit range survives the clamp and the truncation. */
  lemma FitsInt32(v: int)
    requires -0x8000_0000 <= v < 0x8000_0000
    ensures ToInt32(ClampLong(v)) == v
  {
    assert ClampLong(v) == v;
    assert 0 <= v + 0x8000_0000 < 0x1_0000_0000;
  }

  /** Characters after the digits make the number invalid. */
  lemma TrailingTextRejected(n: nat, tail: string)
    requires tail != [] && !IsDigit(tail[0])
    ensures HistoryNumber(Decimal(n) + tail) == None
    ensures HistoryNumberAsWritten(Decimal(n) + tail) == None
  {
    var s := Decimal(n) + tail;
    var ds := Decimal(n);
    assert s[0] == ds[0];
    assert !IsSpace(s[0]) && s[0] != '+' && s[0] != '-';
    DigitRunStops(ds, tail, 0);
  }

  lemma {:induction false} DigitRunStops(ds: string, tail: string, i: nat)
    requires AllDigits(ds) && i <= |ds|
    requires tail != [] && !IsDigit(tail[0])
    ensures DigitRun(ds + tail, i) == |ds|
    decreases |ds| - i
  {
    var s := ds + tail;
    if i < |ds| {
      assert s[i] == ds[i];
      DigitRunStops(ds, tail, i + 1);
    } else {
      assert s[i] == tail[0];
    }
  }

  /** The source reads `!` followed by n + 2^32 as n. */
  lemma WrappedNumber(n: nat)
    requires n < 0x8000_0000
    ensures HistoryNumberAsWritten(Decimal(n + 0x1_0000_0000)) == Some(n)
    ensures HistoryNumber(Decimal(n + 0x1_0000_0000)) == Some(n + 0x1_0000_0000)
  {
    StrtolDecimal(n + 0x1_0000_0000);
  }

  // ---------------------------------------------------------------------
  // The ring buffer.

  class HistoryBuffer {
    /** `history[]`: None for a NULL slot. */
    const slots: array<Option<string>>
    /** `history_count`. */
    var count: int
    /** `history_index`: the slot of the most recent entry. */
    var index: int

    predicate Shaped()
      reads this
    {
      slots.Length == HISTORY_SIZE && 0 <= count <= HISTORY_SIZE && 0 <= index < HISTORY_SIZE
    }

    /** The `start` of `get_history_command`. */
    function Start(): (s: int)
      reads this
      requires Shaped()
      ensures 0 <= s < HISTORY_SIZE && s == Wrap(index - count + 1 + HISTORY_SIZE)
    {
      ModSmall(index - count + 1 + HISTORY_SIZE);
      (index - count + 1 + HISTORY_SIZE) % HISTORY_SIZE
    }

    /** The slot of the (i+1)-th oldest entry. */
    function Slot(i: int): (k: int)
      reads this
      requires Shaped() && 0 <= i < HISTORY_SIZE
      ensures 0 <= k < HISTORY_SIZE && k == Wrap(Start() + i)
    {
      ModSmall(Start() + i);
      (Start() + i) % HISTORY_SIZE
    }

    /** Every retained entry sits in a non-NULL slot. */
    predicate Filled()
      reads this, slots
    {
      Shaped() && forall i | 0 <= i < count :: slots[Slot(i)].Some?
    }

    function EntriesUpTo(n: int): (r: seq<string>)
      reads this, slots
      requires Filled() && 0 <= n <= count
      ensures |r| == n && forall i | 0 <= i < n :: r[i] == slots[Slot(i)].value
    {
      if n == 0 then [] else EntriesUpTo(n - 1) + [slots[Slot(n - 1)].value]
    }

    /** The retained commands, oldest first. */
    function Entries(): seq<string>
      reads this, slots
      requires Filled()
    {
      EntriesUpTo(count)
    }

    predicate Valid()
      reads this, slots
    {
      Filled() && NoEmptyEntry(Entries()) && NoAdjacentRepeat(Entries())
    }

    /** The initial state of the static variables: all slots NULL, nothing retained. */
    constructor ()
      ensures Valid() && fresh(slots) && count == 0 && index == 0
      ensures Entries() == []
      ensures forall k | 0 <= k < slots.Length :: slots[k] == None
    {
      slots := new Option<string>[HISTORY_SIZE](_ => None);
      count := 0;
      index := 0;
    }

    /** `add_to_history(command)`. */
    method Add(command: string)
      requires Valid()
      modifies this, slots
      ensures Valid()
      ensures Entries() == Pushed(old(Entries()), command)
    {
      if |command| == 0 {
        return;
      }
      if count > 0 {
        assert Slot(count - 1) == index;
      }
      if count > 0 && slots[index].Some? && slots[index].value == command {
        return;
      }
      Push(command);
    }

    /** The part of `add_to_history` after both early returns: advance the index and store the command. */
    method Push(command: string)
      requires Valid() && command != []
      requires count > 0 ==> Entries()[count - 1] != command
      modifies this, slots
      ensures Valid()
      ensures Entries() == Pushed(old(Entries()), command)
    {
      ghost var es := Entries();
      ghost var oldStart := Start();
      ghost var before := slots[..];
      ghost var oldIndex := index;
      ghost var oldCount := count;
      EntriesInSlots();
      ModSmall(index + 1);
      index := (index + 1) % HISTORY_SIZE;
      slots[index] := Some(command);
      if count < HISTORY_SIZE {
        count := count + 1;
      }
      PushEstablished(es, oldStart, before, command, oldIndex, oldCount);
      AddedEntries(es, oldStart, before, command);
    }

    /** Each retained entry sits in the slot Wrap(Start() + i). */
    lemma EntriesInSlots()
      requires Filled()
      ensures forall i | 0 <= i < |Entries()| :: slots[..][Wrap(Start() + i)] == Some(Entries()[i])
    {
      forall i | 0 <= i < |Entries()|
        ensures slots[..][Wrap(Start() + i)] == Some(Entries()[i])
      {
        assert Slot(i) == Wrap(Start() + i);
      }
    }

    /** The index, count and slot writes of `add_to_history` give the state AfterPush describes. */
    lemma PushEstablished(es: seq<string>, oldStart: int, before: seq<Option<string>>, command: string,
                          oldIndex: int, oldCount: int)
      requires Shaped() && 0 <= oldIndex < HISTORY_SIZE && |before| == HISTORY_SIZE
      requires |es| == oldCount && 0 <= oldCount <= HISTORY_SIZE
      requires oldStart == Wrap(oldIndex - oldCount + 1 + HISTORY_SIZE)
      requires oldCount > 0 ==> oldIndex == Wrap(oldStart + oldCount - 1)
      requires command != [] && (es == [] || es[|es| - 1] != command)
      requires index == (oldIndex + 1) % HISTORY_SIZE
      requires count == if oldCount < HISTORY_SIZE then oldCount + 1 else oldCount
      requires slots[index] == Some(command)
      requires forall j | 0 <= j < HISTORY_SIZE && j != index :: slots[j] == before[j]
      requires forall i | 0 <= i < |es| :: before[Wrap(oldStart + i)] == Some(es[i])
      ensures AfterPush(es, oldStart, before, command)
    {
      ModSmall(oldIndex + 1);
    }

    /**
     * The state right after the slot writes of a push of command onto the
     * entries es, whose oldest entry was at oldStart in the slots before.
     */
    predicate AfterPush(es: seq<string>, oldStart: int, before: seq<Option<string>>, command: string)
      reads this, slots
    {
      Shaped() && 0 <= oldStart < HISTORY_SIZE && |before| == HISTORY_SIZE &&
      |es| <= HISTORY_SIZE && command != [] && (es == [] || es[|es| - 1] != command) &&
      count == (if |es| < HISTORY_SIZE then |es| + 1 else |es|) &&
      index == Wrap(oldStart + |es|) &&
      slots[index] == Some(command) &&
      (forall j | 0 <= j < HISTORY_SIZE && j != index :: slots[j] == before[j]) &&
      (forall i | 0 <= i < |es| :: before[Wrap(oldStart + i)] == Some(es[i]))
    }

    /** The slots after a push hold the pushed entries. */
    lemma AddedEntries(es: seq<string>, oldStart: int, before: seq<Option<string>>, command: string)
      requires AfterPush(es, oldStart, before, command)
      requires NoEmptyEntry(es) && NoAdjacentRepeat(es)
      ensures Valid() && Entries() == Pushed(es, command)
    {
      PushedNew(es, command);
      var p := Pushed(es, command);
      SlotsAfterPush(es, oldStart, before, command, p);
      EntriesAre(p);
      PushedKeepsShape(es, command);
    }

    lemma SlotsAfterPush(es: seq<string>, oldStart: int, before: seq<Option<string>>, command: string, p: seq<string>)
      requires AfterPush(es, oldStart, before, command)
      requires p == if |es| < HISTORY_SIZE then es + [command] else es[1..] + [command]
      ensures |p| == count && forall i | 0 <= i < count :: slots[Slot(i)] == Some(p[i])
    {
      var st := Start();
      StartAfterPush(es, oldStart);
      forall i | 0 <= i < count
        ensures slots[Slot(i)] == Some(p[i])
      {
        SlotAfterPush(es, oldStart, before, command, st, i);
      }
    }

    /** The oldest slot moves on by one only when a full buffer drops its oldest entry. */
    lemma StartAfterPush(es: seq<string>, oldStart: int)
      requires Shaped() && 0 <= oldStart < HISTORY_SIZE && |es| <= HISTORY_SIZE
      requires count == if |es| < HISTORY_SIZE then |es| + 1 else |es|
      requires index == Wrap(oldStart + |es|)
      ensures Start() == if |es| < HISTORY_SIZE then oldStart else Wrap(oldStart + 1)
    {
    }

    /** Slots that hold p slot by slot make p the retained entries. */
    lemma EntriesAre(p: seq<string>)
      requires Shaped() && |p| == count
      requires forall i | 0 <= i < count :: slots[Slot(i)] == Some(p[i])
      ensures Filled() && Entries() == p
    {
    }

    lemma SlotAfterPush(es: seq<string>, oldStart: int, before: seq<Option<string>>, command: string, st: int, i: int)
      requires AfterPush(es, oldStart, before, command)
      requires st == Start() && st == if |es| < HISTORY_SIZE then oldStart else Wrap(oldStart + 1)
      requires 0 <= i < count
      ensures slots[Slot(i)] == Some((if |es| < HISTORY_SIZE then es + [command] else es[1..] + [command])[i])
    {
      var k := Slot(i);
      assert k == Wrap(st + i);
      if |es| < HISTORY_SIZE {
        if i < |es| {
          assert k == Wrap(oldStart + i) && k != index;
        } else {
          assert k == index;
        }
      } else {
        if i < |es| - 1 {
          assert k == Wrap(oldStart + (i + 1)) && k != index;
        } else {
          assert k == index;
        }
      }
    }

    /** `get_history_command(n)`: the n-th oldest retained entry, NULL outside 1..count. */
    function Get(n: int): (r: Option<string>)
      reads this, slots
      requires Valid()
      ensures r.Some? <==> 1 <= n <= count
      ensures r.Some? ==> r.value == Entries()[n - 1] && r.value != []
    {
      if n < 1 || n > count then None
      else
        assert Slot(n - 1) == (Start() + n - 1) % HISTORY_SIZE;
        slots[(Start() + n - 1) % HISTORY_SIZE]
    }

    /**
     * The line after `handle_history_execution(&line)`: replaced by entry N
     * exactly when it is `!` followed by a valid number N in 1..count, and
     * otherwise left as it is.
     */
    function Recall(line: string): (r: string)
      reads this, slots
      requires Valid()
      ensures r == line || (|line| > 1 && line[0] == '!' && HistoryNumber(line[1..]).Some? &&
        1 <= HistoryNumber(line[1..]).value <= count)
      ensures (|line| > 1 && line[0] == '!' && HistoryNumber(line[1..]).Some? &&
        1 <= HistoryNumber(line[1..]).value <= count) ==> r == Entries()[HistoryNumber(line[1..]).value - 1]
    {
      if line == [] || line[0] != '!' || |line| == 1 then line
      else
        match HistoryNumber(line[1..])
        case None => line
        case Some(n) => Get(n).GetOr(line)
    }

    /** The same with the number truncated to an int as the source does. */
    function RecallAsWritten(line: string): (r: string)
      reads this, slots
      requires Valid()
      ensures r == line || (|line| > 1 && line[0] == '!' && HistoryNumberAsWritten(line[1..]).Some? &&
        1 <= HistoryNumberAsWritten(line[1..]).value <= count)
      ensures (|line| > 1 && line[0] == '!' && HistoryNumberAsWritten(line[1..]).Some? &&
        1 <= HistoryNumberAsWritten(line[1..]).value <= count) ==>
        r == Entries()[HistoryNumberAsWritten(line[1..]).value - 1]
    {
      if line == [] || line[0] != '!' || |line| == 1 then line
      else
        match HistoryNumberAsWritten(line[1..])
        case None => line
        case Some(n) => Get(n).GetOr(line)
    }
  }

  /** `!N` for a retained N is replaced by entry N. */
  lemma RecallByNumber(h: HistoryBuffer, n: nat)
    requires h.Valid() && 1 <= n <= h.count
    ensures h.Recall("!" + Decimal(n)) == h.Entries()[n - 1]
  {
    var line := "!" + Decimal(n);
    assert line[1..] == Decimal(n);
    StrtolDecimal(n);
  }

  /** White space and a `+` between `!` and the number are skipped: `! 1` recalls entry 1. */
  lemma RecallSpacedNumber(h: HistoryBuffer, sp: string, sign: string, n: nat)
    requires h.Valid() && 1 <= n <= h.count && AllSpaces(sp) && (sign == "" || sign == "+")
    ensures h.Recall("!" + sp + sign + Decimal(n)) == h.Entries()[n - 1]
    ensures n < 0x8000_0000 ==> h.RecallAsWritten("!" + sp + sign + Decimal(n)) == h.Entries()[n - 1]
  {
    var t := sp + sign + Decimal(n);
    assert "!" + sp + sign + Decimal(n) == "!" + t;
    SignedNumber(sp, sign, n);
    RecallOfNumber(h, t, n);
  }

  /** `!` followed by text the number reader accepts as a retained n recalls entry n. */
  lemma RecallOfNumber(h: HistoryBuffer, t: string, n: int)
    requires h.Valid() && 1 <= n <= h.count && HistoryNumber(t) == Some(n)
    ensures h.Recall("!" + t) == h.Entries()[n - 1]
    ensures HistoryNumberAsWritten(t) == Some(n) ==> h.RecallAsWritten("!" + t) == h.Entries()[n - 1]
  {
    assert ("!" + t)[1..] == t;
  }

  /** `!-N` names no entry and leaves the line alone. */
  lemma RecallNegativeLeftAlone(h: HistoryBuffer, sp: string, n: nat)
    requires h.Valid() && AllSpaces(sp)
    ensures h.Recall("!" + sp + "-" + Decimal(n)) == "!" + sp + "-" + Decimal(n)
    ensures n <= 0x8000_0000 ==> h.RecallAsWritten("!" + sp + "-" + Decimal(n)) == "!" + sp + "-" + Decimal(n)
  {
    var line := "!" + sp + "-" + Decimal(n);
    assert line[1..] == sp + "-" + Decimal(n);
    SignedNumber(sp, "-", n);
  }

  /** The number after `!` read with white space and a sign in front, in the 32-bit range. */
  lemma SignedNumber(sp: string, sign: string, n: nat)
    requires AllSpaces(sp) && (sign == "" || sign == "+" || sign == "-")
    ensures HistoryNumber(sp + sign + Decimal(n)) == Some(if sign == "-" then -(n as int) else n)
    ensures (if sign == "-" then n <= 0x8000_0000 else n < 0x8000_0000) ==>
      HistoryNumberAsWritten(sp + sign + Decimal(n)) == Some(if sign == "-" then -(n as int) else n)
  {
    assert sp + sign + Decimal(n) + [] == sp + sign + Decimal(n);
    StrtolSigned(sp, sign, n, []);
    var v: int := if sign == "-" then -(n as int) else n;
    if -0x8000_0000 <= v < 0x8000_0000 {
      FitsInt32(v);
    }
  }

  /** `!N` followed by anything but a digit is left alone. */
  lemma RecallRejectsTrailingText(h: HistoryBuffer, n: nat, tail: string)
    requires h.Valid() && tail != [] && !IsDigit(tail[0])
    ensures h.Recall("!" + Decimal(n) + tail) == "!" + Decimal(n) + tail
  {
    var line := "!" + Decimal(n) + tail;
    assert line[1..] == Decimal(n) + tail;
    TrailingTextRejected(n, tail);
  }

  /**
   * With the int truncation of the source, `!` followed by n + 2^32 recalls
   * entry n; with the exact number it recalls nothing.
   */
  lemma RecallWrapped(h: HistoryBuffer, n: nat)
    requires h.Valid() && 1 <= n <= h.count && h.count < 0x8000_0000
    ensures h.RecallAsWritten("!" + Decimal(n + 0x1_0000_0000)) == h.Entries()[n - 1]
    ensures h.Recall("!" + Decimal(n + 0x1_0000_0000)) == "!" + Decimal(n + 0x1_0000_0000)
  {
    var line := "!" + Decimal(n + 0x1_0000_0000);
    assert line[1..] == Decimal(n + 0x1_0000_0000);
    WrappedNumber(n);
  }

  /** x reduced by HISTORY_SIZE as often as needed, for small x. */
  function Wrap(x: int): int {
    if x < HISTORY_SIZE then x else if x < 2 * HISTORY_SIZE then x - HISTORY_SIZE else x - 2 * HISTORY_SIZE
  }

  /** For 0 <= x < 3N, x % N is x, x - N or x - 2N. */
  lemma ModSmall(x: int)
    requires 0 <= x < 3 * HISTORY_SIZE
    ensures x % HISTORY_SIZE == Wrap(x)
  {
  }
}
