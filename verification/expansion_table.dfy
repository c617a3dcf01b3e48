/** What the expansion of single variables comes to, letter by letter: which occurrence is replaced,
    in which order, and when it fails: src/expansions.rs. */
module ExpansionTable {
  import opened Outcomes
  import opened Utf8
  import opened Expansions
  import opened Simultaneous
  import opened ExpansionFacts
  import opened ArgumentFacts
  import opened Host

  /** Text that holds neither '%' nor '~'. */
  predicate Literal(s: Bytes) {
    Inert(s) && '~' !in s
  }

  // ----- the first occurrence, or nothing -----

  /** Of two occurrences of a variable the first is replaced and the second stays. */
  lemma SecondStays(a: Bytes, b: Bytes, c: Bytes, x: char, env: Lookups)
    requires x in "hHufU" && env.value(x).Some? && InertFor(env, SLOTS)
    requires Literal(a) && Literal(b) && Literal(c)
    ensures var tail := ['%', x] + c;
            ExpandVars(a + (['%', x] + (b + tail)), env) == Some(a + (env.value(x).value + (b + tail)))
  {
    LetterSlot(x);
    var tail := ['%', x] + c;
    var s := a + (['%', x] + (b + tail));
    SlotsWellOrdered();
    Spaced(a, b, c, x);
    IsolatedIsScan(s, SLOTS, env);
    var mid, rest := ['%', x] + (b + tail), Without(SLOTS, Var(x));
    assert mid[2..] == b + tail && HeadSlot(mid) == Some(Var(x));
    WithoutMembers(SLOTS, Var(x));
    ScanLiteral(a, mid, SLOTS, env);
    ScanLiteral(b, tail, rest, env);
    UsedUp(c, x, rest, env);
  }

  lemma Spaced(a: Bytes, b: Bytes, c: Bytes, x: char)
    requires x in "hHufU" && Literal(a) && Literal(b) && Literal(c)
    ensures PercentIsolated(a + (['%', x] + (b + (['%', x] + c))))
  {
    var tail := ['%', x] + c;
    var s := a + (['%', x] + (b + tail));
    var n := |a| + 2 + |b|;
    forall k | 0 <= k < |s| && k != |a| && k != n ensures s[k] !in "%~" {
      assert k < |a| ==> s[k] == a[k] && a[k] in a;
      assert k == |a| + 1 || k == n + 1 ==> s[k] == x;
      assert |a| + 1 < k < n ==> s[k] == b[k - |a| - 2] && b[k - |a| - 2] in b;
      assert k > n + 1 ==> s[k] == c[k - n - 2] && c[k - n - 2] in c;
    }
  }

  lemma UsedUp(c: Bytes, x: char, rest: seq<Slot>, env: Lookups)
    requires x !in "%~" && Literal(c) && Var(x) !in rest
    ensures Scan(['%', x] + c, rest, env) == Some(['%', x] + c)
  {
    var tail := ['%', x] + c;
    assert tail[1..] == [x] + c && tail[..1] == "%" && HeadSlot(tail) == Some(Var(x));
    assert ([x] + c) + "" == [x] + c;
    assert Literal([x] + c);
    ScanLiteral([x] + c, "", rest, env);
    assert Scan("", rest, env) == Some("");
    assert tail[..1] + ([x] + c) == tail;
  }

  /** A variable without a value makes the whole expansion fail. */
  lemma VariableFails(a: Bytes, b: Bytes, x: char, env: Lookups)
    requires x in "hHufU" && env.value(x) == None && InertFor(env, SLOTS)
    requires Literal(a) && Literal(b)
    ensures ExpandVars(a + (['%', x] + b), env) == None
  {
    LetterSlot(x);
    SlotsWellOrdered();
    OnlySlot(a, b, x);
    IsolatedIsScan(a + (['%', x] + b), SLOTS, env);
    var mid := ['%', x] + b;
    assert HeadSlot(mid) == Some(Var(x));
    ScanLiteral(a, mid, SLOTS, env);
  }

  /** So does a name without a home directory. */
  lemma HomeFails(a: Bytes, name: Bytes, b: Bytes, env: Lookups)
    requires '~' !in a && '/' !in name && (b == "" || b[0] == '/') && env.home(name) == None
    ensures ExpandVars(a + ("~" + name + b), env) == None
  {
    NoHomeAtHead(name, b, env);
    FailsLater(a, "~" + name + b, env);
  }

  lemma NoHomeAtHead(name: Bytes, b: Bytes, env: Lookups)
    requires '/' !in name && (b == "" || b[0] == '/') && env.home(name) == None
    ensures Pass("~" + name + b, Home, env) == None
  {
    var t := "~" + name + b;
    assert t[1..] == name + b && t[1..][..|name|] == name;
    UserNameIs(t[1..], |name|);
  }

  lemma {:induction false} FailsLater(a: Bytes, t: Bytes, env: Lookups)
    requires '~' !in a && Pass(t, Home, env) == None
    ensures Pass(a + t, Home, env) == None
  {
    if a == "" {
      assert a + t == t;
    } else {
      assert a[0] in a && (a + t)[1..] == a[1..] + t;
      FailsLater(a[1..], t, env);
    }
  }

  /** Text that holds nothing to replace stays, whatever the environment says. */
  lemma LiteralStays(s: Bytes, env: Lookups)
    requires Literal(s)
    ensures ExpandVars(s, env) == Some(s)
  {
    forall k | 0 <= k < |s| ensures !Active(s[k..], SLOTS) {
      assert s[k..][0] == s[k] && s[k] in s;
    }
    SlotFreeUnchanged(s, SLOTS, env);
  }

  // ----- the order of the passes -----

  /** No slot of the first `n` occurs in `s`: their passes leave it alone. */
  lemma {:induction false} SkipPasses(s: Bytes, slots: seq<Slot>, n: nat, env: Lookups)
    requires n <= |slots|
    requires forall k, i | 0 <= k < |s| && 0 <= i < n :: !StartsWith(s[k..], slots[i])
    ensures Passes(s, slots, env) == Passes(s, slots[n..], env)
    decreases n
  {
    if n > 0 {
      Untouched(s, slots[0], env);
      assert slots[1..][n - 1..] == slots[n..];
      forall k, i | 0 <= k < |s| && 0 <= i < n - 1 ensures !StartsWith(s[k..], slots[1..][i]) {
        assert slots[1..][i] == slots[i + 1];
      }
      SkipPasses(s, slots[1..], n - 1, env);
    } else {
      assert slots[0..] == slots;
    }
  }

  /** The passes run home directories first, then in the order h, H, u, f, U: a value that completes a
      '%' to another variable is read by the pass for it exactly when that comes later. */
  lemma PassOrder(i: nat, j: nat, w: Bytes, env: Lookups)
    requires i < 5 && j < 5 && i != j
    requires env.value("hHufU"[i]) == Some(["hHufU"[j]] + w) && Inert(w)
    requires env.value("hHufU"[j]).Some? && Inert(env.value("hHufU"[j]).value)
    ensures ExpandVars(['%', '%', "hHufU"[i]], env) ==
            Some(if i < j then env.value("hHufU"[j]).value + w else ['%', "hHufU"[j]] + w)
  {
    OrderOfSlots();
    PassOrderAt(SLOTS, i + 1, j + 1, "hHufU"[i], "hHufU"[j], w, env);
  }

  lemma OrderOfSlots()
    ensures SLOTS[0] == Home && |SLOTS| == 6
    ensures forall k :: 0 < k < 6 ==> SLOTS[k] == Var("hHufU"[k - 1])
    ensures forall k, m :: 0 <= k < m < 6 ==> SLOTS[k] != SLOTS[m]
    ensures '%' !in "hHufU" && '~' !in "hHufU"
  {
  }

  ghost predicate Ordered(slots: seq<Slot>) {
    && |slots| > 0 && slots[0] == Home
    && (forall k :: 0 < k < |slots| ==> slots[k].Var? && slots[k].letter !in "%~")
    && (forall k, m :: 0 <= k < m < |slots| ==> slots[k] != slots[m])
  }

  lemma PassOrderAt(slots: seq<Slot>, i: nat, j: nat, x: char, y: char, w: Bytes, env: Lookups)
    requires Ordered(slots) && 0 < i < |slots| && 0 < j < |slots| && i != j
    requires slots[i] == Var(x) && slots[j] == Var(y)
    requires env.value(x) == Some([y] + w) && Inert(w)
    requires env.value(y).Some? && Inert(env.value(y).value)
    ensures Passes(['%', '%', x], slots, env) == Some(if i < j then env.value(y).value + w else ['%', y] + w)
  {
    var s, s' := ['%', '%', x], ['%', y] + w;
    forall k, m | 0 <= k < |s| && 0 <= m < i ensures !StartsWith(s[k..], slots[m]) {
      assert s[k..][0] == s[k];
      assert k == 1 ==> s[k..] == ['%', x];
    }
    SkipPasses(s, slots, i, env);
    FirstStep(s, x, y, w, env);
    assert slots[i..][0] == slots[i] && slots[i..][1..] == slots[i + 1..];
    assert Passes(s, slots, env) == Passes(s', slots[i + 1..], env);
    SecondStep(slots, i, j, y, w, env);
  }

  lemma FirstStep(s: Bytes, x: char, y: char, w: Bytes, env: Lookups)
    requires s == ['%', '%', x] && x !in "%~" && env.value(x) == Some([y] + w)
    ensures Pass(s, Var(x), env) == Some(['%', y] + w)
  {
    var r := ['%', x];
    assert s[1..] == r && s[..1] == "%" && r[2..] == "";
    assert ([y] + w) + "" == [y] + w;
    assert Pass(r, Var(x), env) == Some([y] + w);
    assert "%" + ([y] + w) == ['%', y] + w;
  }

  lemma SecondStep(slots: seq<Slot>, i: nat, j: nat, y: char, w: Bytes, env: Lookups)
    requires Ordered(slots) && 0 < i < |slots| && 0 < j < |slots| && i != j
    requires slots[j] == Var(y) && Inert(w) && env.value(y).Some? && Inert(env.value(y).value)
    ensures Passes(['%', y] + w, slots[i + 1..], env) ==
            Some(if i < j then env.value(y).value + w else ['%', y] + w)
  {
    var s, later := ['%', y] + w, slots[i + 1..];
    forall k, m | 0 <= k < |s| && 0 <= m < |later| && later[m] != Var(y) ensures !StartsWith(s[k..], later[m]) {
      assert s[k..][0] == s[k];
      assert k >= 2 ==> s[k] == w[k - 2] && w[k - 2] in w;
      assert later[m] == slots[i + 1 + m];
    }
    if i < j {
      var n := j - i - 1;
      assert later[n] == slots[j] && later[n..][1..] == slots[j + 1..];
      SkipPasses(s, later, n, env);
      assert s[2..] == w && HeadSlot(s) == Some(Var(y));
      var z := env.value(y).value + w;
      assert Pass(s, Var(y), env) == Some(z);
      forall k | 0 <= k < |z| ensures z[k] != '%' {
        assert z[k] in env.value(y).value || z[k] in w;
      }
      LettersUntouched(z, slots[j + 1..], env);
    } else {
      SkipPasses(s, later, |later|, env);
    }
  }

  // ----- whose home directory -----

  /** '~' alone stands for the calling user's home directory, `~name` for that of `name`. */
  lemma HomesMean(system: System, user: Bytes, a: Bytes, name: Bytes, b: Bytes)
    requires Literal(a) && Inert(name) && Inert(b) && '/' !in name && (b == "" || b[0] == '/')
    ensures var home := system.homedir(if name == "" then user else name);
            && (home == None ==> ExpandVars(a + ("~" + name + b), LookupsFor(system, user)) == None)
            && (home.Some? && Inert(home.value) ==>
                  ExpandVars(a + ("~" + name + b), LookupsFor(system, user)) == Some(a + (home.value + b)))
  {
    var env := LookupsFor(system, user);
    if env.home(name).None? {
      HomeFails(a, name, b, env);
    } else if Inert(env.home(name).value) {
      HomeExpands(a, name, b, env);
    }
  }
}
