/**
 The shell's variables, and putting their values into a line.
 */
module ShellVars {

  const VAR_MAX := 8
  const VAR_NAME := 12
  const VAR_VALUE := 32

  type Values = map<string, string>

  predicate NameChar(c: char) {
    'A' <= c <= 'Z' || 'a' <= c <= 'z' || '0' <= c <= '9' || c == '_'
  }

  /** How many of these characters a name could be made of, from the first on. */
  function NameLength(s: string): (n: nat)
    ensures n <= |s| && (forall i | 0 <= i < n :: NameChar(s[i])) && (n < |s| ==> !NameChar(s[n]))
    decreases |s|
  {
    if s == [] || !NameChar(s[0]) then 0 else 1 + NameLength(s[1..])
  }

  predicate Escapable(c: char) {
    c == '$' || c == '\\'
  }

  function ValueOf(vars: Values, name: string): string {
    if name in vars then vars[name] else []
  }

  /** A line with every name replaced by its value; an escaped dollar or backslash stands for itself. */
  function Expanded(vars: Values, s: string): string
    decreases |s|
  {
    if s == [] then []
    else if s[0] == '\\' && |s| >= 2 && Escapable(s[1]) then [s[1]] + Expanded(vars, s[2..])
    else if s[0] != '$' then [s[0]] + Expanded(vars, s[1..])
    else
      var n := NameLength(s[1..]);
      if n == 0 then [s[0]] + Expanded(vars, s[1..])
      else ValueOf(vars, s[1..1 + n]) + Expanded(vars, s[1 + n..])
  }

  /** A line written so that it comes out as it is. */
  function Escaped(s: string): string
    decreases |s|
  {
    if s == [] then []
    else if Escapable(s[0]) then ['\\', s[0]] + Escaped(s[1..])
    else [s[0]] + Escaped(s[1..])
  }

  /** Any text at all can be got through an expansion unchanged. */
  lemma {:induction false} EscapedComesBack(vars: Values, s: string)
    ensures Expanded(vars, Escaped(s)) == s
    decreases |s|
  {
    if s != [] {
      EscapedComesBack(vars, s[1..]);
      var rest := Escaped(s[1..]);
      if Escapable(s[0]) {
        assert (['\\', s[0]] + rest)[2..] == rest;
      } else {
        assert ([s[0]] + rest)[1..] == rest;
      }
    }
  }

  /** A dollar and a name are the name's value, or nothing, whatever follows that is not more of the name. */
  lemma NameIsReplaced(vars: Values, name: string, rest: string)
    requires name != []
    requires forall i | 0 <= i < |name| :: 'A' <= name[i] <= 'Z' || 'a' <= name[i] <= 'z' || '0' <= name[i] <= '9'
                                          || name[i] == '_'
    requires rest == [] || !('A' <= rest[0] <= 'Z' || 'a' <= rest[0] <= 'z' || '0' <= rest[0] <= '9' || rest[0] == '_')
    ensures Expanded(vars, "$" + name + rest) == (if name in vars then vars[name] else "") + Expanded(vars, rest)
  {
    var s := "$" + name + rest;
    assert s[1..] == name + rest;
    NameEnds(name, rest);
    assert s[1..1 + |name|] == name && s[1 + |name|..] == rest;
  }

  /** A dollar that no name follows is a dollar. */
  lemma LoneDollar(vars: Values, rest: string)
    requires rest == [] || !('A' <= rest[0] <= 'Z' || 'a' <= rest[0] <= 'z' || '0' <= rest[0] <= '9' || rest[0] == '_')
    ensures Expanded(vars, "$" + rest) == "$" + Expanded(vars, rest)
  {
    assert ("$" + rest)[1..] == rest;
  }

  /** After a backslash a dollar and a backslash stand for themselves; before anything else a backslash does. */
  lemma Backslashes(vars: Values, rest: string)
    ensures Expanded(vars, "\\$" + rest) == "$" + Expanded(vars, rest)
    ensures Expanded(vars, "\\\\" + rest) == "\\" + Expanded(vars, rest)
    ensures (rest == [] || (rest[0] != '$' && rest[0] != '\\')) ==>
              Expanded(vars, "\\" + rest) == "\\" + Expanded(vars, rest)
  {
    assert ("\\$" + rest)[2..] == rest && ("\\\\" + rest)[2..] == rest && ("\\" + rest)[1..] == rest;
  }

  /** Anything else is itself. */
  lemma PlainStays(vars: Values, c: char, rest: string)
    requires c != '$' && c != '\\'
    ensures Expanded(vars, [c] + rest) == [c] + Expanded(vars, rest)
  {
    assert ([c] + rest)[1..] == rest;
  }

  lemma {:induction false} NameEnds(name: string, rest: string)
    requires (forall i | 0 <= i < |name| :: NameChar(name[i])) && (rest == [] || !NameChar(rest[0]))
    ensures NameLength(name + rest) == |name|
    decreases |name|
  {
    if name == [] {
      assert name + rest == rest;
    } else {
      assert (name + rest)[1..] == name[1..] + rest;
      NameEnds(name[1..], rest);
    }
  }

  datatype Var = Var(name: string, value: string)

  predicate Distinct(slots: seq<Var>) {
    forall i, j | 0 <= i < j < |slots| :: slots[i].name == slots[j].name ==> slots[i].name == []
  }

  /** The first `n` slots as names and values. */
  function ByName(slots: seq<Var>, n: nat): (m: Values)
    requires n <= |slots|
    decreases n
  {
    if n == 0 then map[]
    else
      var m, v := ByName(slots, n - 1), slots[n - 1];
      if v.name == [] then m else m[v.name := v.value]
  }

  function InUse(slots: seq<Var>, n: nat): (c: nat)
    requires n <= |slots|
    ensures c <= n
    decreases n
  {
    if n == 0 then 0 else InUse(slots, n - 1) + if slots[n - 1].name == [] then 0 else 1
  }

  /** The slot of a name among the first `n`, or -1. */
  function SlotOf(slots: seq<Var>, n: nat, name: string): (r: int)
    requires n <= |slots|
    ensures -1 <= r < n
    ensures r >= 0 ==> name != [] && slots[r].name == name
    ensures r < 0 && name != [] ==> forall i | 0 <= i < n :: slots[i].name != name
    decreases n
  {
    if n == 0 then -1
    else if name != [] && slots[n - 1].name == name then n - 1
    else SlotOf(slots, n - 1, name)
  }

  lemma {:induction false} ByNameIs(slots: seq<Var>, n: nat, name: string)
    requires n <= |slots|
    ensures var m, i := ByName(slots, n), SlotOf(slots, n, name);
      (name in m <==> i >= 0) && (i >= 0 ==> m[name] == slots[i].value)
    decreases n
  {
    if n > 0 { ByNameIs(slots, n - 1, name); }
  }

  /** As many names as slots in use, when no two slots have the same name. */
  lemma {:induction false} ByNameSize(slots: seq<Var>, n: nat)
    requires n <= |slots| && Distinct(slots)
    ensures |ByName(slots, n)| == InUse(slots, n)
    ensures InUse(slots, n) == n <==> forall i | 0 <= i < n :: slots[i].name != []
    decreases n
  {
    if n > 0 {
      ByNameSize(slots, n - 1);
      var v := slots[n - 1];
      ByNameIs(slots, n - 1, v.name);
      assert v.name != [] ==> SlotOf(slots, n - 1, v.name) < 0;
    }
  }

  /** A slot written with a name no other slot has. */
  lemma Stored(slots: seq<Var>, at: nat, v: Var)
    requires at < |slots| && Distinct(slots) && v.name != []
    requires slots[at].name == v.name || slots[at].name == []
    requires forall i | 0 <= i < |slots| && i != at :: slots[i].name != v.name
    ensures Distinct(slots[at := v]) && ByName(slots[at := v], |slots|) == ByName(slots, |slots|)[v.name := v.value]
  {
    var now, n := slots[at := v], |slots|;
    var a, b := ByName(now, n), ByName(slots, n)[v.name := v.value];
    hide ByName, Distinct;
    forall k: string ensures (k in a <==> k in b) && (k in a ==> a[k] == b[k]) {
      ByNameIs(now, n, k);
      ByNameIs(slots, n, k);
      SameSlot(slots, at, v, n, k);
    }
    assert a == b;
    assert Distinct(now) by { StillDistinct(slots, at, v); }
  }

  lemma StillDistinct(slots: seq<Var>, at: nat, v: Var)
    requires at < |slots| && Distinct(slots) && forall i | 0 <= i < |slots| && i != at :: slots[i].name != v.name
    ensures Distinct(slots[at := v])
  {
  }

  lemma {:induction false} SameSlot(slots: seq<Var>, at: nat, v: Var, n: nat, k: string)
    requires at < |slots| && v.name != [] && n <= |slots|
    requires slots[at].name == v.name || slots[at].name == []
    requires forall i | 0 <= i < |slots| && i != at :: slots[i].name != v.name
    ensures k != v.name ==> SlotOf(slots[at := v], n, k) == SlotOf(slots, n, k) != at
    ensures at < n ==> SlotOf(slots[at := v], n, v.name) == at
    decreases n
  {
    if n > 0 { SameSlot(slots, at, v, n - 1, k); }
  }

  /** The table: a fixed number of slots, an empty name for a free one. */
  class Table {
    const slots: array<Var>

    ghost predicate Valid()
      reads this, slots
    {
      && slots.Length == VAR_MAX
      && (forall i | 0 <= i < VAR_MAX :: |slots[i].name| < VAR_NAME && |slots[i].value| < VAR_VALUE)
      && Distinct(slots[..])
    }

    /** The table as names and values. */
    ghost function Held(): (m: Values)
      requires Valid()
      reads this, slots
    {
      ByName(slots[..], VAR_MAX)
    }

    constructor ()
      ensures Valid() && fresh(slots) && Held() == map[]
    {
      slots := new Var[VAR_MAX](_ => Var([], []));
      new;
      ByNameSize(slots[..], VAR_MAX);
      NoneInUse(slots[..], VAR_MAX);
    }

    /** The slot of a name, or -1. */
    method Find(name: string) returns (r: int)
      requires Valid()
      ensures -1 <= r < VAR_MAX && (r >= 0 <==> name in Held())
      ensures r >= 0 ==> name != [] && slots[r].name == name && Held()[name] == slots[r].value
    {
      ghost var s := slots[..];
      hide ByName, Distinct;
      r := 0;
      while r < VAR_MAX
        invariant 0 <= r <= VAR_MAX && forall i | 0 <= i < r :: s[i].name != [] ==> s[i].name != name
      {
        if slots[r].name != [] && slots[r].name == name {
          assert s[r].name == name;
          break;
        }
        r := r + 1;
      }
      ByNameIs(s, VAR_MAX, name);
      Only(s, r, name);
      if r == VAR_MAX { r := -1; }
    }

    /** A slot for a name: its own if it has one, else the first free one, else -1. */
    method Place(name: string) returns (v: int)
      requires Valid() && name != []
      ensures -1 <= v < VAR_MAX && (v < 0 <==> name !in Held() && |Held()| == VAR_MAX)
      ensures v >= 0 ==> slots[v].name == name || slots[v].name == []
      ensures v >= 0 ==> forall i | 0 <= i < VAR_MAX && i != v :: slots[i].name != name
    {
      v := Find(name);
      ghost var s := slots[..];
      ByNameIs(s, VAR_MAX, name);
      ByNameSize(s, VAR_MAX);
      hide ByName, InUse;
      assert v >= 0 ==> s[v].name == name;
      if v < 0 {
        v := 0;
        while v < VAR_MAX && slots[v].name != []
          invariant 0 <= v <= VAR_MAX && forall i | 0 <= i < v :: s[i].name != []
        {
          assert s[v].name != [];
          v := v + 1;
        }
        assert v < VAR_MAX ==> s[v].name == [];
        if v == VAR_MAX { v := -1; }
      }
      assert forall i | 0 <= i < VAR_MAX :: slots[i] == s[i];
    }

    method Write(v: nat, name: string, value: string)
      requires Valid() && v < VAR_MAX && 0 < |name| < VAR_NAME && |value| < VAR_VALUE
      requires slots[v].name == name || slots[v].name == []
      requires forall i | 0 <= i < VAR_MAX && i != v :: slots[i].name != name
      modifies slots
      ensures Valid() && Held() == old(Held())[name := value]
    {
      ghost var was := slots[..];
      assert forall i | 0 <= i < VAR_MAX :: slots[i] == was[i];
      Stored(was, v, Var(name, value));
      hide ByName, InUse, Distinct;
      slots[v] := Var(name, value);
      assert slots[..] == was[v := Var(name, value)];
    }

    /** Gives a name a value, cut to what a slot holds; false, and nothing changed, if that cannot be. */
    method Set(name: string, value: string) returns (ok: bool)
      requires Valid()
      modifies slots
      ensures Valid()
      ensures ok <==> 0 < |name| < 12 && (name in old(Held()) || |old(Held())| < 8)
      ensures ok ==> Held() == old(Held())[name := if |value| < 32 then value else value[..31]]
      ensures !ok ==> slots[..] == old(slots[..])
    {
      ByNameSize(slots[..], VAR_MAX);
      hide ByName, InUse, Distinct;
      if |name| == 0 || |name| >= VAR_NAME { return false; }
      var v := Place(name);
      if v < 0 { return false; }
      Write(v, name, if |value| < VAR_VALUE then value else value[..VAR_VALUE - 1]);
      ok := true;
    }

    /** The next piece of a line as it comes out, and where the one after it starts. */
    method Piece(s: string, i: nat, ghost vars: Values) returns (piece: string, next: nat)
      requires Valid() && vars == Held() && i < |s|
      ensures i < next <= |s| && Expanded(vars, s[i..]) == piece + Expanded(vars, s[next..])
    {
      hide Held, Expanded, Distinct;
      if s[i] == '\\' && i + 1 < |s| && Escapable(s[i + 1]) {
        EscapeStep(vars, s, i);
        return [s[i + 1]], i + 2;
      }
      if s[i] != '$' {
        PlainStep(vars, s, i);
        return [s[i]], i + 1;
      }
      var len := NameRun(s, i + 1);
      if len == 0 {
        LoneStep(vars, s, i);
        return [s[i]], i + 1;
      }
      NameStep(vars, s, i, len);
      next := i + 1 + len;
      piece := Value(s[i + 1..next]);
    }

    method Value(name: string) returns (value: string)
      requires Valid()
      ensures value == ValueOf(Held(), name)
    {
      hide ByName, Distinct;
      var v := Find(name);
      value := if v >= 0 then slots[v].value else [];
    }

    /** Copies a line with its names replaced, or says it would not fit. */
    method Expand(s: string, cap: nat) returns (ok: bool, out: string)
      requires Valid() && cap >= 1
      ensures ok <==> |Expanded(Held(), s)| < cap
      ensures ok ==> out == Expanded(Held(), s)
    {
      ghost var vars := Held();
      ghost var all := Expanded(vars, s);
      assert s[0..] == s;
      NothingExpanded(vars);
      hide Held, Expanded;
      var i := 0;
      out := [];
      while i < |s|
        invariant 0 <= i <= |s| && |out| < cap
        invariant all == out + Expanded(vars, s[i..])
        decreases |s| - i
      {
        var piece, next := Piece(s, i, vars);
        assert out + (piece + Expanded(vars, s[next..])) == out + piece + Expanded(vars, s[next..]);
        if |out| + |piece| >= cap { return false, []; }
        out := out + piece;
        i := next;
      }
      assert s[i..] == [];
      ok := true;
    }
  }

  lemma NothingExpanded(vars: Values)
    ensures Expanded(vars, []) == []
  {
  }

  /** How long a name starts here. */
  method NameRun(s: string, k: nat) returns (len: nat)
    requires k <= |s|
    ensures len == NameLength(s[k..]) && k + len <= |s|
  {
    len := 0;
    while k + len < |s| && NameChar(s[k + len])
      invariant k + len <= |s| && NameLength(s[k..]) == len + NameLength(s[k + len..])
    {
      assert s[k + len..][1..] == s[k + len + 1..];
      len := len + 1;
    }
  }

  /** What the expansion makes of the next piece of a line. */
  lemma EscapeStep(vars: Values, s: string, i: nat)
    requires i + 1 < |s| && s[i] == '\\' && Escapable(s[i + 1])
    ensures Expanded(vars, s[i..]) == [s[i + 1]] + Expanded(vars, s[i + 2..])
  {
    assert s[i..][2..] == s[i + 2..];
  }

  lemma PlainStep(vars: Values, s: string, i: nat)
    requires i < |s| && s[i] != '$' && !(s[i] == '\\' && i + 1 < |s| && Escapable(s[i + 1]))
    ensures Expanded(vars, s[i..]) == [s[i]] + Expanded(vars, s[i + 1..])
  {
    assert s[i..][1..] == s[i + 1..];
  }

  lemma LoneStep(vars: Values, s: string, i: nat)
    requires i < |s| && s[i] == '$' && NameLength(s[i + 1..]) == 0
    ensures Expanded(vars, s[i..]) == [s[i]] + Expanded(vars, s[i + 1..])
  {
    assert s[i..][1..] == s[i + 1..];
  }

  lemma NameStep(vars: Values, s: string, i: nat, n: nat)
    requires i < |s| && s[i] == '$' && n == NameLength(s[i + 1..]) > 0
    ensures i + 1 + n <= |s|
    ensures Expanded(vars, s[i..]) == ValueOf(vars, s[i + 1..i + 1 + n]) + Expanded(vars, s[i + 1 + n..])
  {
    var t := s[i..];
    assert t[1..] == s[i + 1..];
    hide NameLength;
    assert t[1..1 + n] == s[i + 1..i + 1 + n];
    assert t[1 + n..] == s[i + 1 + n..];
  }

  lemma {:induction false} NoneInUse(slots: seq<Var>, n: nat)
    requires n <= |slots| && forall i | 0 <= i < |slots| :: slots[i].name == []
    ensures InUse(slots, n) == 0 && ByName(slots, n) == map[]
    decreases n
  {
    if n > 0 { NoneInUse(slots, n - 1); }
  }

  /** The first slot with a name is the only one. */
  lemma Only(slots: seq<Var>, r: nat, name: string)
    requires r <= |slots| && Distinct(slots) && (forall i | 0 <= i < r :: slots[i].name != [] ==> slots[i].name != name)
    requires r < |slots| ==> slots[r].name != [] && slots[r].name == name
    ensures SlotOf(slots, |slots|, name) == if r < |slots| then r else -1
  {
  }
}
