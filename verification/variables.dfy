/**
 * Shell variables of src/variable.c: a table of at most MAX_VARIABLES
 * name/value pairs with distinct names, `$name` substitution of whole
 * arguments, and `name=value` assignments (a quoted value loses its quotes
 * and whatever follows the closing one). The process environment that
 * `get_variable` falls back to is a parameter.
 */
module Variables {
  import opened Common

  /** A name/value pair of the table. */
  datatype Binding = Binding(name: string, value: string)

  /** `variable_t`: a slot whose pointers may be NULL. */
  datatype Slot = Slot(name: Option<string>, value: Option<string>)

  const EmptySlot: Slot := Slot(None, None)

  predicate DistinctNames(bs: seq<Binding>) {
    forall i, j | 0 <= i < j < |bs| :: bs[i].name != bs[j].name
  }

  /** The index of the first binding named n. */
  function FindName(bs: seq<Binding>, n: string): (r: Option<nat>)
    ensures r.Some? ==> r.value < |bs| && bs[r.value].name == n
    ensures r.Some? ==> forall k | 0 <= k < r.value :: bs[k].name != n
    ensures r.None? ==> forall k | 0 <= k < |bs| :: bs[k].name != n
  {
    if bs == [] then None
    else if bs[0].name == n then Some(0)
    else
      match FindName(bs[1..], n)
      case None => None
      case Some(k) => Some(k + 1)
  }

  /** The value the table holds for n. */
  function Lookup(bs: seq<Binding>, n: string): Option<string> {
    match FindName(bs, n)
    case None => None
    case Some(i) => Some(bs[i].value)
  }

  /** The table and the return value after `set_variable(n, v)` with non-NULL arguments. */
  function SetBinding(bs: seq<Binding>, n: string, v: string): (seq<Binding>, int) {
    match FindName(bs, n)
    case Some(i) => (bs[i := Binding(n, v)], 0)
    case None => if |bs| < MAX_VARIABLES then (bs + [Binding(n, v)], 0) else (bs, -1)
  }

  /** After a successful set the name reads back as the value. */
  lemma SetThenLookup(bs: seq<Binding>, n: string, v: string)
    requires SetBinding(bs, n, v).1 == 0
    ensures Lookup(SetBinding(bs, n, v).0, n) == Some(v)
  {
    var r := SetBinding(bs, n, v).0;
    match FindName(bs, n)
    case Some(i) =>
      assert r[i].name == n;
      assert forall k | 0 <= k < i :: r[k].name != n;
      assert FindName(r, n) == Some(i);
    case None =>
      assert r[|bs|].name == n;
      assert FindName(r, n) == Some(|bs|);
  }

  /** Setting one name does not change what any other name reads. */
  lemma SetLeavesOthers(bs: seq<Binding>, n: string, v: string, m: string)
    requires m != n
    ensures Lookup(SetBinding(bs, n, v).0, m) == Lookup(bs, m)
  {
    var r := SetBinding(bs, n, v).0;
    match FindName(bs, m)
    case Some(i) =>
      assert r[i] == bs[i];
      assert forall k | 0 <= k < i :: r[k].name != m;
      assert FindName(r, m) == Some(i);
    case None =>
      assert forall k | 0 <= k < |r| :: r[k].name != m;
      assert FindName(r, m) == None;
  }

  /**
   * `set_variable` fails exactly when the name is new and the table is full;
   * a known name keeps the table size, a new one grows it by one; names stay distinct.
   */
  lemma SetShape(bs: seq<Binding>, n: string, v: string)
    requires DistinctNames(bs) && |bs| <= MAX_VARIABLES
    ensures SetBinding(bs, n, v).1 == -1 <==> FindName(bs, n).None? && |bs| == MAX_VARIABLES
    ensures SetBinding(bs, n, v).1 == -1 ==> SetBinding(bs, n, v).0 == bs
    ensures FindName(bs, n).Some? ==> |SetBinding(bs, n, v).0| == |bs|
    ensures FindName(bs, n).None? && |bs| < MAX_VARIABLES ==> SetBinding(bs, n, v).0 == bs + [Binding(n, v)]
    ensures DistinctNames(SetBinding(bs, n, v).0) && |SetBinding(bs, n, v).0| <= MAX_VARIABLES
  {
    var r := SetBinding(bs, n, v).0;
    match FindName(bs, n)
    case Some(i) =>
      forall a, b | 0 <= a < b < |r|
        ensures r[a].name != r[b].name
      {
        assert r[a].name == bs[a].name && r[b].name == bs[b].name;
      }
    case None =>
  }

  // ---------------------------------------------------------------------
  // `is_variable_assignment` and the value quoting of `handle_variable_assignment`.

  predicate IsIdentStart(c: char) {
    ('a' <= c <= 'z') || ('A' <= c <= 'Z') || c == '_'
  }

  predicate IsIdentChar(c: char) {
    IsIdentStart(c) || ('0' <= c <= '9')
  }

  /** `[A-Za-z_][A-Za-z0-9_]*`. */
  predicate IsIdentifier(s: string) {
    |s| > 0 && IsIdentStart(s[0]) && forall k | 1 <= k < |s| :: IsIdentChar(s[k])
  }

  /** `is_variable_assignment(token)`: the text before the first `=` is a valid name. */
  function IsVariableAssignment(token: string): bool {
    match IndexOf(token, '=')
    case None => false
    case Some(e) => e > 0 && IsIdentifier(token[..e])
  }

  /** A token is an assignment exactly when it is an identifier, `=`, and anything. */
  lemma AssignmentShape(token: string)
    ensures IsVariableAssignment(token) <==>
      exists e | 0 < e < |token| :: token[e] == '=' && IsIdentifier(token[..e])
  {
    if exists e | 0 < e < |token| :: token[e] == '=' && IsIdentifier(token[..e]) {
      var e :| 0 < e < |token| && token[e] == '=' && IsIdentifier(token[..e]);
      IdentifierHasNoEquals(token[..e]);
      assert token == token[..e] + ['='] + token[e + 1..];
      IndexOfAfter(token[..e], '=', token[e + 1..]);
    }
  }

  /** A name, `=`, and any value is an assignment whose name is that name. */
  lemma AssignmentOf(n: string, v: string)
    requires IsIdentifier(n)
    ensures IsVariableAssignment(n + "=" + v)
    ensures IndexOf(n + "=" + v, '=') == Some(|n|)
  {
    var t := n + "=" + v;
    assert t[..|n|] == n;
    IdentifierHasNoEquals(n);
    IndexOfAfter(n, '=', v);
  }

  lemma IdentifierHasNoEquals(n: string)
    requires IsIdentifier(n)
    ensures '=' !in n
  {
    forall k | 0 <= k < |n|
      ensures n[k] != '='
    {
      assert IsIdentChar(n[k]);
    }
  }

  predicate IsQuoteChar(c: char) {
    c == '"' || c == '\''
  }

  /** The value after the `=`: a leading quote with a matching one yields the text between them. */
  function Unquote(v: string): (r: string)
    ensures |r| <= |v|
  {
    if v != [] && IsQuoteChar(v[0]) then
      match IndexOf(v[1..], v[0])
      case Some(j) => v[1..1 + j]
      case None => v
    else v
  }

  /** A quoted value loses its quotes and everything after the closing quote. */
  lemma UnquoteQuoted(q: char, body: string, rest: string)
    requires IsQuoteChar(q) && q !in body
    ensures Unquote([q] + body + [q] + rest) == body
  {
    var v := [q] + body + [q] + rest;
    assert v[1..] == body + [q] + rest;
    IndexOfAfter(body, q, rest);
    assert v[1..1 + |body|] == body;
  }

  /** An unmatched quote, or none, leaves the value as it is. */
  lemma UnquoteUnmatched(v: string)
    requires v == [] || !IsQuoteChar(v[0]) || v[0] !in v[1..]
    ensures Unquote(v) == v
  {
  }

  // ---------------------------------------------------------------------
  // `$name` expansion of one argument.

  /** The text of an argument after `expand_variables`, given what `get_variable` yields for a name. */
  function ExpandArg(arg: string, lookup: string -> Option<string>): string {
    if |arg| > 1 && arg[0] == '$' then lookup(arg[1..]).GetOr("") else arg
  }

  // ---------------------------------------------------------------------
  // The table.

  class VariableStore {
    /** `variable_list[]`. */
    const slots: array<Slot>
    /** `variable_count`. */
    var count: int

    predicate Filled()
      reads this, slots
    {
      slots.Length == MAX_VARIABLES && 0 <= count <= MAX_VARIABLES &&
      forall k | 0 <= k < count :: slots[k].name.Some? && slots[k].value.Some?
    }

    function BindingsUpTo(n: int): (r: seq<Binding>)
      reads this, slots
      requires Filled() && 0 <= n <= count
      ensures |r| == n
      ensures forall k | 0 <= k < n :: r[k] == Binding(slots[k].name.value, slots[k].value.value)
    {
      if n == 0 then [] else BindingsUpTo(n - 1) + [Binding(slots[n - 1].name.value, slots[n - 1].value.value)]
    }

    /** The table's name/value pairs, in slot order. */
    function Bindings(): seq<Binding>
      reads this, slots
      requires Filled()
    {
      BindingsUpTo(count)
    }

    predicate Valid()
      reads this, slots
    {
      Filled() && DistinctNames(Bindings())
    }

    /** The cleared table of `init_variables` (the environment defaults are not modelled). */
    constructor ()
      ensures Valid() && fresh(slots) && count == 0 && Bindings() == []
    {
      slots := new Slot[MAX_VARIABLES](_ => EmptySlot);
      count := 0;
    }

    /** `set_variable(name, value)`. */
    method SetVariable(name: Option<string>, value: Option<string>) returns (r: int)
      requires Valid()
      modifies this, slots
      ensures Valid()
      ensures name.None? || value.None? ==> r == -1 && Bindings() == old(Bindings())
      ensures name.Some? && value.Some? ==>
        (Bindings(), r) == SetBinding(old(Bindings()), name.value, value.value)
    {
      if name.None? || value.None? {
        return -1;
      }
      ghost var bs := Bindings();
      var n := name.value;
      var i := 0;
      while i < count
        invariant 0 <= i <= count
        invariant forall k | 0 <= k < i :: bs[k].name != n
      {
        if slots[i].name.Some? && slots[i].name.value == n {
          assert FindName(bs, n) == Some(i);
          slots[i] := Slot(name, value);
          assert Bindings() == bs[i := Binding(n, value.value)];
          SetShape(bs, n, value.value);
          return 0;
        }
        i := i + 1;
      }
      assert FindName(bs, n).None?;
      SetShape(bs, n, value.value);
      if count < MAX_VARIABLES {
        slots[count] := Slot(name, value);
        count := count + 1;
        assert Bindings() == bs + [Binding(n, value.value)];
        return 0;
      }
      return -1;
    }

    /** `get_variable(name)`, with the process environment as `env`. */
    function GetVariable(name: Option<string>, env: map<string, string>): (r: Option<string>)
      reads this, slots
      requires Valid()
      ensures name.None? ==> r.None?
      ensures name.Some? && Lookup(Bindings(), name.value).Some? ==> r == Lookup(Bindings(), name.value)
      ensures name.Some? && Lookup(Bindings(), name.value).None? ==>
        r == if name.value in env then Some(env[name.value]) else None
    {
      match name
      case None => None
      case Some(n) =>
        match Lookup(Bindings(), n)
        case Some(v) => Some(v)
        case None => if n in env then Some(env[n]) else None
    }

    /** What `get_variable` yields for each name, as a function. */
    function Resolver(env: map<string, string>): string -> Option<string>
      reads this, slots
      requires Valid()
    {
      var bs := Bindings();
      n => match Lookup(bs, n) case Some(v) => Some(v) case None => if n in env then Some(env[n]) else None
    }

    /** `expand_variables(&arglist)`: each `$name` argument becomes the variable's value or "". */
    method ExpandVariables(args: array<string>, env: map<string, string>)
      requires Valid()
      modifies args
      ensures forall k | 0 <= k < args.Length :: args[k] == ExpandArg(old(args[k]), Resolver(env))
    {
      var i := 0;
      while i < args.Length
        invariant 0 <= i <= args.Length
        invariant forall k | 0 <= k < i :: args[k] == ExpandArg(old(args[k]), Resolver(env))
        invariant forall k | i <= k < args.Length :: args[k] == old(args[k])
      {
        var arg := args[i];
        if |arg| > 0 && arg[0] == '$' && |arg| > 1 {
          var v := GetVariable(Some(arg[1..]), env);
          args[i] := if v.Some? then v.value else "";
        }
        i := i + 1;
      }
    }

    /** `handle_variable_assignment(token)`: 0 when it is no assignment, else the `set_variable` result. */
    method HandleVariableAssignment(token: string) returns (r: int)
      requires Valid()
      modifies this, slots
      ensures Valid()
      ensures !IsVariableAssignment(token) ==> r == 0 && Bindings() == old(Bindings())
      ensures IsVariableAssignment(token) ==>
        var e := IndexOf(token, '=').value;
        (Bindings(), r) == SetBinding(old(Bindings()), token[..e], Unquote(token[e + 1..]))
    {
      if !IsVariableAssignment(token) {
        return 0;
      }
      var e := IndexOf(token, '=').value;
      var value := Unquote(token[e + 1..]);
      r := SetVariable(Some(token[..e]), Some(value));
    }
  }

  /** `NAME="text"rest` stores text under NAME when there is room or NAME is known. */
  lemma AssignQuoted(bs: seq<Binding>, n: string, q: char, body: string, rest: string)
    requires IsIdentifier(n) && IsQuoteChar(q) && q !in body
    requires FindName(bs, n).Some? || |bs| < MAX_VARIABLES
    ensures
      var token := n + "=" + ([q] + body + [q] + rest);
      var e := IndexOf(token, '=').value;
      token[..e] == n && Unquote(token[e + 1..]) == body &&
      SetBinding(bs, n, body).1 == 0 && Lookup(SetBinding(bs, n, body).0, n) == Some(body)
  {
    var v := [q] + body + [q] + rest;
    var token := n + "=" + v;
    AssignmentOf(n, v);
    assert token[..|n|] == n && token[|n| + 1..] == v;
    UnquoteQuoted(q, body, rest);
    SetThenLookup(bs, n, body);
  }

  /** `$n` expands to the value just stored under n, whatever the environment holds. */
  lemma ExpandAfterSet(bs: seq<Binding>, n: string, v: string, env: map<string, string>, store: VariableStore)
    requires store.Valid() && n != [] && SetBinding(bs, n, v).1 == 0
    requires store.Bindings() == SetBinding(bs, n, v).0
    ensures ExpandArg("$" + n, store.Resolver(env)) == v
  {
    SetThenLookup(bs, n, v);
    assert ("$" + n)[1..] == n;
  }

  /** `$n` for a name in neither the table nor the environment expands to "". */
  lemma ExpandUnknown(n: string, env: map<string, string>, store: VariableStore)
    requires store.Valid() && n != [] && Lookup(store.Bindings(), n).None? && n !in env
    ensures ExpandArg("$" + n, store.Resolver(env)) == ""
  {
    assert ("$" + n)[1..] == n;
  }

  /** An argument that is not `$` followed by something is never changed, a bare `$` included. */
  lemma ExpandLeavesOthers(arg: string, lookup: string -> Option<string>)
    requires |arg| <= 1 || arg[0] != '$'
    ensures ExpandArg(arg, lookup) == arg
  {
  }
}
