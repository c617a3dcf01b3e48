/** Byte strings and well-formed UTF-8.

    A byte string is a `string` whose element k is the value of byte k.  The
    automaton below accepts the grammar of section 4 of RFC 3629; it rejects
    elements above 0xFF by itself. */
module Utf8 {
  type Bytes = string

  /** An absolute path. */
  predicate Absolute(path: Bytes) {
    path != "" && path[0] == '/'
  }

  predicate Between(s: Bytes, k: nat, lo: int, hi: int) {
    k < |s| && lo <= s[k] as int <= hi
  }

  predicate Tail(s: Bytes, k: nat) {
    Between(s, k, 0x80, 0xBF)
  }

  /** What may follow: a new character, so many tail bytes, or the restricted second byte
      that a lead byte asks for. */
  datatype Expect = Fresh | One | Two | Three | AfterE0 | AfterED | AfterF0 | AfterF4 | Reject

  function Lead(b: int): Expect {
    if b <= 0x7F then Fresh
    else if 0xC2 <= b <= 0xDF then One
    else if b == 0xE0 then AfterE0
    else if b == 0xED then AfterED
    else if 0xE1 <= b <= 0xEF then Two
    else if b == 0xF0 then AfterF0
    else if 0xF1 <= b <= 0xF3 then Three
    else if b == 0xF4 then AfterF4
    else Reject
  }

  function Next(e: Expect, b: int): Expect {
    match e
    case Fresh => Lead(b)
    case One => if 0x80 <= b <= 0xBF then Fresh else Reject
    case Two => if 0x80 <= b <= 0xBF then One else Reject
    case Three => if 0x80 <= b <= 0xBF then Two else Reject
    case AfterE0 => if 0xA0 <= b <= 0xBF then One else Reject
    case AfterED => if 0x80 <= b <= 0x9F then One else Reject
    case AfterF0 => if 0x90 <= b <= 0xBF then Two else Reject
    case AfterF4 => if 0x80 <= b <= 0x8F then Two else Reject
    case Reject => Reject
  }

  function After(e: Expect, s: Bytes): Expect
    decreases |s|
  {
    if s == "" then e else After(Next(e, s[0] as int), s[1..])
  }

  predicate Valid(s: Bytes) {
    After(Fresh, s) == Fresh
  }

  /** The test that string slicing makes on an index. */
  predicate Boundary(s: Bytes, i: nat) {
    i == |s| || (i < |s| && !Tail(s, i))
  }

  lemma {:induction false} AfterConcat(e: Expect, a: Bytes, b: Bytes)
    ensures After(e, a + b) == After(After(e, a), b)
    decreases |a|
  {
    if a == "" {
      assert a + b == b;
    } else {
      assert (a + b)[1..] == a[1..] + b;
      AfterConcat(Next(e, a[0] as int), a[1..], b);
    }
  }

  lemma {:induction false} RejectStays(s: Bytes)
    ensures After(Reject, s) == Reject
  {
    if s != "" {
      RejectStays(s[1..]);
    }
  }

  lemma ValidConcat(a: Bytes, b: Bytes)
    requires Valid(a) && Valid(b)
    ensures Valid(a + b)
  {
    AfterConcat(Fresh, a, b);
  }

  lemma {:induction false} AsciiIsValid(s: Bytes)
    requires forall k :: 0 <= k < |s| ==> s[k] as int < 0x80
    ensures Valid(s)
  {
    if s != "" {
      AsciiIsValid(s[1..]);
    }
  }

  /** Between two characters no tail byte comes next, and inside one nothing else does. */
  lemma NextSurvives(e: Expect, s: Bytes)
    requires s != "" && After(e, s) == Fresh
    ensures Tail(s, 0) <==> e != Fresh
  {
    RejectStays(s[1..]);
  }

  /** A slice index passes the test exactly when it cuts a valid string into two valid ones. */
  lemma BoundaryCuts(s: Bytes, i: nat)
    requires Valid(s) && i <= |s|
    ensures Boundary(s, i) <==> Valid(s[..i]) && Valid(s[i..])
  {
    assert s == s[..i] + s[i..];
    AfterConcat(Fresh, s[..i], s[i..]);
    if i < |s| {
      NextSurvives(After(Fresh, s[..i]), s[i..]);
    }
  }
}
