/** Variable expansion of option strings: src/expansions.rs. */
module Expansions {
  import opened Outcomes
  import opened Utf8

  /** What a template can refer to: `~name`, or `%` followed by a letter. */
  datatype Slot = Home | Var(letter: char)

  /** The passes of `expand_vars`, in the order in which they run. */
  const SLOTS: seq<Slot> := [Home, Var('h'), Var('H'), Var('u'), Var('f'), Var('U')]

  /** The environment: each lookup is deterministic and may fail. */
  datatype Lookups = Lookups(home: Bytes -> Option<Bytes>, value: char -> Option<Bytes>)

  function Join(a: Option<Bytes>, b: Option<Bytes>): Option<Bytes> {
    if a.Some? && b.Some? then Some(a.value + b.value) else None
  }

  /** The slot that starts `s`, whether or not a pass for it exists. */
  function HeadSlot(s: Bytes): Option<Slot> {
    if s == "" then None
    else if s[0] == '~' then Some(Home)
    else if s[0] == '%' && |s| > 1 then Some(Var(s[1]))
    else None
  }

  predicate StartsWith(s: Bytes, slot: Slot) {
    HeadSlot(s) == Some(slot)
  }

  /** The characters before the first '/'. */
  function UserName(s: Bytes): (name: Bytes)
    ensures |name| <= |s| && name == s[..|name|]
    ensures '/' !in name
    ensures |name| < |s| ==> s[|name|] == '/'
  {
    if s == "" || s[0] == '/' then "" else [s[0]] + UserName(s[1..])
  }

  function Span(s: Bytes, slot: Slot): (n: nat)
    requires StartsWith(s, slot)
    ensures 0 < n <= |s|
  {
    if slot.Home? then 1 + |UserName(s[1..])| else 2
  }

  function ValueAt(s: Bytes, slot: Slot, env: Lookups): Option<Bytes>
    requires StartsWith(s, slot)
  {
    if slot.Home? then env.home(UserName(s[1..])) else env.value(slot.letter)
  }

  /** Index of the first occurrence of a slot, or |s|. */
  function First(s: Bytes, slot: Slot): (i: nat)
    ensures i <= |s|
    ensures i < |s| ==> StartsWith(s[i..], slot)
    ensures forall k :: 0 <= k < i ==> !StartsWith(s[k..], slot)
  {
    if s == "" then 0
    else if StartsWith(s, slot) then
      assert s[0..] == s;
      0
    else
      assert s[0..] == s;
      assert forall k :: 1 <= k <= |s| ==> s[1..][k - 1..] == s[k..];
      1 + First(s[1..], slot)
  }

  /** One pass: the first occurrence of the slot gives way to its value. */
  function Pass(s: Bytes, slot: Slot, env: Lookups): Option<Bytes> {
    if s == "" then Some("")
    else if StartsWith(s, slot) then Join(ValueAt(s, slot, env), Some(s[Span(s, slot)..]))
    else Join(Some(s[..1]), Pass(s[1..], slot, env))
  }

  function Passes(s: Bytes, slots: seq<Slot>, env: Lookups): Option<Bytes>
    decreases |slots|
  {
    if slots == [] then Some(s)
    else
      var p := Pass(s, slots[0], env);
      if p.None? then None else Passes(p.value, slots[1..], env)
  }

  function ExpandVars(s: Bytes, env: Lookups): Option<Bytes> {
    Passes(s, SLOTS, env)
  }

  /** The slices that the code takes around index `i`. */
  function Sliced(s: Bytes, i: nat, slot: Slot, env: Lookups): Option<Bytes>
    requires i <= |s| && (i < |s| ==> StartsWith(s[i..], slot))
  {
    if i == |s| then Some(s)
    else Join(Join(Some(s[..i]), ValueAt(s[i..], slot, env)), Some(s[i + Span(s[i..], slot)..]))
  }

  lemma {:induction false} PassIsSliced(s: Bytes, slot: Slot, env: Lookups)
    ensures Pass(s, slot, env) == Sliced(s, First(s, slot), slot, env)
  {
    if s == "" {
    } else if StartsWith(s, slot) {
      SlicedAtHead(s, slot, env);
    } else {
      PassIsSliced(s[1..], slot, env);
      assert First(s, slot) == 1 + First(s[1..], slot);
      SlicedStep(s, First(s, slot), slot, env);
    }
  }

  lemma SlicedAtHead(s: Bytes, slot: Slot, env: Lookups)
    requires s != "" && StartsWith(s, slot)
    ensures s[0..] == s
    ensures Sliced(s, 0, slot, env) == Join(ValueAt(s, slot, env), Some(s[Span(s, slot)..]))
  {
    assert s[0..] == s;
    var v := ValueAt(s, slot, env);
    assert v.Some? ==> s[..0] + v.value == v.value;
  }

  lemma SlicedStep(s: Bytes, i: nat, slot: Slot, env: Lookups)
    requires 0 < i <= |s| && (i < |s| ==> StartsWith(s[i..], slot))
    ensures s[1..][i - 1..] == s[i..]
    ensures Sliced(s, i, slot, env) == Join(Some(s[..1]), Sliced(s[1..], i - 1, slot, env))
  {
    assert s[1..][i - 1..] == s[i..];
    assert s == s[..1] + s[1..];
    if i < |s| && ValueAt(s[i..], slot, env).Some? {
      var v := ValueAt(s[i..], slot, env).value;
      var n := Span(s[i..], slot);
      assert s[1..][i - 1 + n..] == s[i + n..];
      assert s[..i] == s[..1] + s[1..][..i - 1];
      assert s[..i] + v + s[i + n..] == s[..1] + (s[1..][..i - 1] + v + s[i + n..]);
    }
  }

  // ----- the code -----

  lemma {:induction false} UserNameIs(s: Bytes, n: nat)
    requires n <= |s| && '/' !in s[..n]
    requires n < |s| ==> s[n] == '/'
    ensures UserName(s) == s[..n]
  {
    if n > 0 {
      assert s[0] in s[..n];
      assert s[1..][..n - 1] == s[1..n] && s[..n] == [s[0]] + s[1..n];
      UserNameIs(s[1..], n - 1);
    }
  }

  method GetUsername(input: Bytes, idx: nat) returns (name: Bytes)
    requires idx < |input|
    ensures name == UserName(input[idx + 1..])
  {
    var rest := input[idx + 1..];
    for offset := 0 to |rest|
      invariant '/' !in rest[..offset]
    {
      if rest[offset] == '/' {
        UserNameIs(rest, offset);
        return rest[..offset];
      }
    }
    UserNameIs(rest, |rest|);
    return rest;
  }

  method ExpandVar(input: Bytes, letter: char, env: Lookups) returns (r: Option<Bytes>)
    ensures r == Pass(input, Var(letter), env)
  {
    PassIsSliced(input, Var(letter), env);
    var idx := First(input, Var(letter));
    if idx == |input| {
      return Some(input);
    }
    var output := input[..idx];
    var value := env.value(letter);
    if value.None? {
      return None;
    }
    output := output + value.value;
    output := output + input[idx + 2..];
    return Some(output);
  }

  method ExpandHomedir(input: Bytes, env: Lookups) returns (r: Option<Bytes>)
    ensures r == Pass(input, Home, env)
  {
    PassIsSliced(input, Home, env);
    var idx := First(input, Home);
    if idx == |input| {
      return Some(input);
    }
    var user := GetUsername(input, idx);
    assert input[idx..][1..] == input[idx + 1..];
    var output := input[..idx];
    var home := env.home(user);
    if home.None? {
      return None;
    }
    output := output + home.value;
    output := output + input[idx + 1 + |user|..];
    return Some(output);
  }

  method ExpandAll(input: Bytes, env: Lookups) returns (r: Option<Bytes>)
    ensures r == ExpandVars(input, env)
  {
    ghost var all := SLOTS;
    assert all[1..][1..] == all[2..] && all[2..][1..] == all[3..] && all[3..][1..] == all[4..];
    assert all[4..][1..] == all[5..] && all[5..][1..] == [];
    r := ExpandHomedir(input, env);
    if r.None? { return; }
    assert ExpandVars(input, env) == Passes(r.value, all[1..], env);
    r := ExpandVar(r.value, 'h', env);
    if r.None? { return; }
    assert ExpandVars(input, env) == Passes(r.value, all[2..], env);
    r := ExpandVar(r.value, 'H', env);
    if r.None? { return; }
    assert ExpandVars(input, env) == Passes(r.value, all[3..], env);
    r := ExpandVar(r.value, 'u', env);
    if r.None? { return; }
    assert ExpandVars(input, env) == Passes(r.value, all[4..], env);
    r := ExpandVar(r.value, 'f', env);
    if r.None? { return; }
    assert ExpandVars(input, env) == Passes(r.value, all[5..], env);
    r := ExpandVar(r.value, 'U', env);
  }
}
