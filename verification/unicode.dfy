/** Unicode scalar values behind the bytes: what the UTF-8 automaton accepts and what trimming removes,
    by code point.  Section 3 of RFC 3629; White_Space as in the Unicode Character Database. */
module Unicode {
  import opened Utf8
  import opened Trimming

  predicate Scalar(n: nat) {
    n <= 0xD7FF || 0xE000 <= n <= 0x10FFFF
  }

  type Codes = ns: seq<nat> | forall i :: 0 <= i < |ns| ==> Scalar(ns[i])

  /** The bytes of one scalar value. */
  function Encode(n: nat): (s: Bytes)
    requires Scalar(n)
    ensures 1 <= |s| <= 4
  {
    if n < 0x80 then [n as char]
    else if n < 0x800 then [(0xC0 + n / 64) as char, (0x80 + n % 64) as char]
    else if n < 0x10000 then [(0xE0 + n / 4096) as char, (0x80 + n / 64 % 64) as char, (0x80 + n % 64) as char]
    else [(0xF0 + n / 262144) as char, (0x80 + n / 4096 % 64) as char,
          (0x80 + n / 64 % 64) as char, (0x80 + n % 64) as char]
  }

  function EncodeAll(ns: Codes): Bytes
    decreases |ns|
  {
    if ns == [] then "" else Encode(ns[0]) + EncodeAll(ns[1..])
  }

  lemma {:induction false} EncodeConcat(a: Codes, b: Codes)
    ensures EncodeAll(a + b) == EncodeAll(a) + EncodeAll(b)
    decreases |a|
  {
    if a == [] {
      assert a + b == b;
    } else {
      assert (a + b)[1..] == a[1..] + b;
      EncodeConcat(a[1..], b);
    }
  }

  lemma EncodeOne(n: nat)
    requires Scalar(n)
    ensures EncodeAll([n]) == Encode(n)
  {
    assert [n][1..] == [];
    assert Encode(n) + "" == Encode(n);
  }

  // ----- the automaton accepts exactly what is encoded -----

  lemma {:induction false} AllEncodedIsValid(ns: Codes)
    ensures Valid(EncodeAll(ns))
    decreases |ns|
  {
    if ns != [] {
      EncodedIsValid(ns[0], Encode(ns[0]));
      AllEncodedIsValid(ns[1..]);
      ValidConcat(Encode(ns[0]), EncodeAll(ns[1..]));
    }
  }

  lemma EncodedIsValid(n: nat, s: Bytes)
    requires Scalar(n) && s == Encode(n)
    ensures Valid(s)
  {
    if n < 0x80 {
      AfterUnfolds(Fresh, s);
    } else if n < 0x800 {
      LastTwo(Fresh, s);
    } else if n < 0x10000 {
      ThreeAreValid(n / 4096, n / 64 % 64, n % 64, s);
    } else {
      FourAreValid(n / 262144, n / 4096 % 64, n / 64 % 64, n % 64, s);
    }
  }

  lemma ThreeAreValid(a: nat, b: nat, c: nat, s: Bytes)
    requires a < 16 && b < 64 && c < 64 && (a == 0 ==> b >= 0x20) && (a == 13 ==> b < 0x20)
    requires s == [(0xE0 + a) as char, (0x80 + b) as char, (0x80 + c) as char]
    ensures Valid(s)
  {
    AfterUnfolds(Fresh, s);
    LastTwo(Next(Fresh, s[0] as int), s[1..]);
  }

  lemma FourAreValid(a: nat, b: nat, c: nat, d: nat, s: Bytes)
    requires a < 5 && b < 64 && c < 64 && d < 64 && (a == 0 ==> b >= 0x10) && (a == 4 ==> b < 0x10)
    requires s == [(0xF0 + a) as char, (0x80 + b) as char, (0x80 + c) as char, (0x80 + d) as char]
    ensures Valid(s)
  {
    AfterUnfolds(Fresh, s);
    var e := Next(Fresh, s[0] as int);
    AfterUnfolds(e, s[1..]);
    LastTwo(Next(e, s[1] as int), s[1..][1..]);
  }

  lemma LastTwo(e: Expect, s: Bytes)
    requires |s| == 2
    ensures After(e, s) == Next(Next(e, s[0] as int), s[1] as int)
  {
    AfterUnfolds(e, s);
    AfterUnfolds(Next(e, s[0] as int), s[1..]);
  }

  lemma AfterUnfolds(e: Expect, s: Bytes)
    requires s != ""
    ensures After(e, s) == After(Next(e, s[0] as int), s[1..])
    ensures |s| == 1 ==> After(e, s) == Next(e, s[0] as int)
  {
    if |s| == 1 {
      assert s[1..] == "";
    }
  }

  /** Inside a character another byte must follow, one that the state allows. */
  lemma GoesOn(e: Expect, s: Bytes)
    requires e != Fresh && After(e, s) == Fresh
    ensures s != "" && Next(e, s[0] as int) != Reject && After(Next(e, s[0] as int), s[1..]) == Fresh
  {
    if s != "" {
      RejectStays(s[1..]);
    }
  }

  /** A valid string starts with the bytes of a scalar value. */
  lemma FirstCode(s: Bytes) returns (n: nat, k: nat)
    requires Valid(s) && s != ""
    ensures Scalar(n) && k == |Encode(n)| <= |s| && s[..k] == Encode(n) && Valid(s[k..])
  {
    var b := s[0] as int;
    RejectStays(s[1..]);
    if b < 0x80 {
      n, k := b, 1;
    } else if b < 0xE0 {
      n := TwoBytes(s);
      k := 2;
    } else if b < 0xF0 {
      n := ThreeBytes(s);
      k := 3;
    } else {
      n := FourBytes(s);
      k := 4;
    }
  }

  lemma TwoBytes(s: Bytes) returns (n: nat)
    requires Valid(s) && s != "" && 0x80 <= s[0] as int < 0xE0
    ensures Scalar(n) && |s| >= 2 && |Encode(n)| == 2 && s[..2] == Encode(n) && Valid(s[2..])
  {
    RejectStays(s[1..]);
    GoesOn(One, s[1..]);
    n := (s[0] as int - 0xC0) * 64 + (s[1] as int - 0x80);
    assert n / 64 == s[0] as int - 0xC0 && n % 64 == s[1] as int - 0x80;
    assert s[1..][1..] == s[2..];
  }

  lemma ThreeBytes(s: Bytes) returns (n: nat)
    requires Valid(s) && s != "" && 0xE0 <= s[0] as int < 0xF0
    ensures Scalar(n) && |s| >= 3 && |Encode(n)| == 3 && s[..3] == Encode(n) && Valid(s[3..])
  {
    RejectStays(s[1..]);
    GoesOn(Next(Fresh, s[0] as int), s[1..]);
    GoesOn(One, s[1..][1..]);
    var a, b, c := s[0] as int - 0xE0, s[1] as int - 0x80, s[2] as int - 0x80;
    n := a * 4096 + b * 64 + c;
    Digits3(a, b, c);
    assert s[1..][1..][1..] == s[3..];
  }

  lemma Digits3(a: int, b: int, c: int)
    requires 0 <= a && 0 <= b < 64 && 0 <= c < 64
    ensures var n := a * 4096 + b * 64 + c; n / 4096 == a && n / 64 == a * 64 + b && n / 64 % 64 == b && n % 64 == c
  {
  }

  lemma FourBytes(s: Bytes) returns (n: nat)
    requires Valid(s) && s != "" && 0xF0 <= s[0] as int
    ensures Scalar(n) && |s| >= 4 && |Encode(n)| == 4 && s[..4] == Encode(n) && Valid(s[4..])
  {
    RejectStays(s[1..]);
    GoesOn(Next(Fresh, s[0] as int), s[1..]);
    GoesOn(Two, s[1..][1..]);
    GoesOn(One, s[1..][1..][1..]);
    var a, b, c, d := s[0] as int - 0xF0, s[1] as int - 0x80, s[2] as int - 0x80, s[3] as int - 0x80;
    n := a * 262144 + b * 4096 + c * 64 + d;
    Digits4(a, b, c, d);
    assert s[1..][1..][1..][1..] == s[4..];
  }

  lemma Digits4(a: int, b: int, c: int, d: int)
    requires 0 <= a && 0 <= b < 64 && 0 <= c < 64 && 0 <= d < 64
    ensures var n := a * 262144 + b * 4096 + c * 64 + d;
            n / 262144 == a && n / 4096 % 64 == b && n / 64 % 64 == c && n % 64 == d
  {
    Digits3(a * 64 + b, c, d);
    assert (a * 64 + b) % 64 == b;
  }

  lemma {:induction false} Decoded(s: Bytes) returns (ns: Codes)
    requires Valid(s)
    ensures EncodeAll(ns) == s
    decreases |s|
  {
    ns := [];
    if s != "" {
      var n, k := FirstCode(s);
      var rest := Decoded(s[k..]);
      ns := [n] + rest;
      assert ns[1..] == rest && s == s[..k] + s[k..];
    }
  }

  /** Valid UTF-8 is exactly what encodes some scalar values: no surrogates, nothing overlong and
      nothing above U+10FFFF. */
  lemma ValidIffEncodes(s: Bytes)
    ensures Valid(s) <==> exists ns: Codes :: EncodeAll(ns) == s
  {
    if Valid(s) {
      var ns := Decoded(s);
    }
    if ns: Codes :| EncodeAll(ns) == s {
      AllEncodedIsValid(ns);
    }
  }

  // ----- trimming by code points -----

  predicate WhiteSpace(n: nat) {
    || 0x09 <= n <= 0x0D || n == 0x20 || n == 0x85 || n == 0xA0 || n == 0x1680
    || 0x2000 <= n <= 0x200A || n == 0x2028 || n == 0x2029 || n == 0x202F || n == 0x205F || n == 0x3000
  }

  /** The last character is White_Space by its bytes exactly when its code point is, whatever is before. */
  lemma TrailingSpaceIff(a: Bytes, n: nat)
    requires Scalar(n)
    ensures TrailingSpace(a + Encode(n)) == if WhiteSpace(n) then |Encode(n)| else 0
  {
    var s, e := a + Encode(n), Encode(n);
    assert forall i | 0 <= i < |e| :: s[|a| + i] == e[i];
    if n < 0x80 {
    } else if n < 0x800 {
    } else if n < 0x10000 {
      var x, y, z := n / 4096, n / 64 % 64, n % 64;
      assert n == x * 4096 + y * 64 + z;
      assert e == [(0xE0 + x) as char, (0x80 + y) as char, (0x80 + z) as char];
    } else {
    }
  }

  /** How many of the values remain once White_Space at the end is gone. */
  function Remaining(ns: Codes): (k: nat)
    ensures k <= |ns| && (k > 0 ==> !WhiteSpace(ns[k - 1])) && forall i :: k <= i < |ns| ==> WhiteSpace(ns[i])
    decreases |ns|
  {
    if ns == [] || !WhiteSpace(ns[|ns| - 1]) then |ns| else Remaining(ns[..|ns| - 1])
  }

  /** Trimming removes the White_Space characters at the end and no others. */
  lemma {:induction false} TrimsWhiteSpace(ns: Codes)
    ensures TrimEnd(EncodeAll(ns)) == EncodeAll(ns[..Remaining(ns)])
    decreases |ns|
  {
    if ns == [] {
    } else {
      var n := |ns| - 1;
      var shorter, last := EncodeAll(ns[..n]), Encode(ns[n]);
      assert ns == ns[..n] + [ns[n]];
      EncodeConcat(ns[..n], [ns[n]]);
      EncodeOne(ns[n]);
      TrailingSpaceIff(shorter, ns[n]);
      if WhiteSpace(ns[n]) {
        assert (shorter + last)[..|shorter|] == shorter;
        TrimsWhiteSpace(ns[..n]);
        assert ns[..n][..Remaining(ns[..n])] == ns[..Remaining(ns[..n])];
      } else {
        assert ns[..|ns|] == ns;
      }
    }
  }
}
