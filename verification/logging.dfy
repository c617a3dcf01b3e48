/** Log escaping and the per-thread debug flag: src/logging.rs.  Here a string is a sequence of
    Unicode scalar values, as in Rust's `chars()`. */
module Logging {
  import opened Outcomes

  // ----- escaping -----

  /** The control codes of section 23.1 of the Unicode Standard: general category Cc. */
  predicate IsControl(c: char) {
    c as int < 0x20 || 0x7F <= c as int <= 0x9F
  }

  function HexDigit(n: nat): (c: char)
    requires n < 16
    ensures !IsControl(c) && c != '}' && c != '\\'
  {
    if n < 10 then (n + 48) as char else (n + 87) as char
  }

  /** Lower-case hexadecimal without leading zeros, for values below 256. */
  function Hex(n: nat): (s: string)
    requires n < 256
  {
    if n < 16 then [HexDigit(n)] else [HexDigit(n / 16), HexDigit(n % 16)]
  }

  function EscapeChar(c: char): string {
    if c == '\\' then "\\\\"
    else if c == '\n' then "\\n"
    else if c == '\r' then "\\r"
    else if c == '\t' then "\\t"
    else if IsControl(c) then "\\u{" + Hex(c as int) + "}"
    else [c]
  }

  function Escape(s: string): string {
    if s == "" then "" else EscapeChar(s[0]) + Escape(s[1..])
  }

  /** The escapes, character by character: other control codes become lower-case hexadecimal without
      leading zeros, and everything else stays. */
  lemma EscapeTable(c: char)
    ensures c == '\\' ==> Escape([c]) == ['\\', '\\']
    ensures c == '\n' ==> Escape([c]) == ['\\', 'n']
    ensures c == '\r' ==> Escape([c]) == ['\\', 'r']
    ensures c == '\t' ==> Escape([c]) == ['\\', 't']
    ensures c !in "\\\n\r\t" && (c as int < 0x20 || 0x7F <= c as int <= 0x9F) ==>
              exists h :: Escape([c]) == ['\\', 'u', '{'] + h + ['}'] && LowerHex(h, c as int)
    ensures c != '\\' && 0x20 <= c as int && !(0x7F <= c as int <= 0x9F) ==> Escape([c]) == [c]
  {
    var rest := [c][1..];
    assert rest == "" && Escape(rest) == "";
    assert Escape([c]) == EscapeChar(c) + Escape(rest) == EscapeChar(c);
    if c !in "\\\n\r\t" && IsControl(c) {
      HexIsLower(c as int);
    }
  }

  /** One or two digits of the usual sixteen, the first of two not zero. */
  predicate LowerHex(h: string, n: nat) {
    var digits := "0123456789abcdef";
    if n < 16 then h == [digits[n]] else n < 256 && h == [digits[n / 16], digits[n % 16]]
  }

  lemma HexIsLower(n: nat)
    requires n < 256
    ensures LowerHex(Hex(n), n)
  {
    HexDigitIs(n % 16);
    HexDigitIs(n / 16);
  }

  lemma HexDigitIs(n: nat)
    requires n < 16
    ensures HexDigit(n) == "0123456789abcdef"[n]
  {
  }

  // ----- a decoder -----

  function HexValue(c: char): Option<nat> {
    if '0' <= c <= '9' then Some(c as int - 48)
    else if 'a' <= c <= 'f' then Some(c as int - 87)
    else None
  }

  /** The character that an escaped string starts with, and the length of its escape. */
  function DecodeHead(s: string): (r: Option<(char, nat)>)
    ensures r.Some? ==> 0 < r.value.1 <= |s|
  {
    if s == "" then None
    else if s[0] != '\\' then Some((s[0], 1))
    else if |s| < 2 then None
    else if s[1] == '\\' then Some(('\\', 2))
    else if s[1] == 'n' then Some(('\n', 2))
    else if s[1] == 'r' then Some(('\r', 2))
    else if s[1] == 't' then Some(('\t', 2))
    else if |s| >= 5 && s[..3] == "\\u{" && HexValue(s[3]).Some? then
      if s[4] == '}' then Some((HexValue(s[3]).value as char, 5))
      else if |s| >= 6 && HexValue(s[4]).Some? && s[5] == '}' then
        Some(((16 * HexValue(s[3]).value + HexValue(s[4]).value) as char, 6))
      else None
    else None
  }

  function Decode(s: string): Option<string>
    decreases |s|
  {
    if s == "" then Some("")
    else
      var head := DecodeHead(s);
      if head.None? then None
      else
        var rest := Decode(s[head.value.1..]);
        if rest.None? then None else Some([head.value.0] + rest.value)
  }

  lemma HexDigitValue(n: nat)
    requires n < 16
    ensures HexValue(HexDigit(n)) == Some(n)
  {
  }

  lemma EscapeCharShape(c: char)
    ensures 1 <= |EscapeChar(c)| <= 6
    ensures forall k :: 0 <= k < |EscapeChar(c)| ==> !IsControl(EscapeChar(c)[k])
  {
  }

  lemma DecodeEscapedHead(c: char, rest: string)
    ensures DecodeHead(EscapeChar(c) + rest) == Some((c, |EscapeChar(c)|))
  {
    var s := EscapeChar(c) + rest;
    if c != '\\' && c != '\n' && c != '\r' && c != '\t' && IsControl(c) {
      var n := c as int;
      assert s[..3] == "\\u{";
      if n < 16 {
        HexDigitValue(n);
        assert s[3] == HexDigit(n) && s[4] == '}';
      } else {
        HexDigitValue(n / 16);
        HexDigitValue(n % 16);
        assert s[3] == HexDigit(n / 16) && s[4] == HexDigit(n % 16) && s[5] == '}';
        assert 16 * (n / 16) + n % 16 == n;
      }
    }
  }

  /** Decoding undoes escaping. */
  lemma {:induction false} DecodeEscape(s: string)
    ensures Decode(Escape(s)) == Some(s)
  {
    if s != "" {
      DecodeEscapedHead(s[0], Escape(s[1..]));
      assert Escape(s)[|EscapeChar(s[0])|..] == Escape(s[1..]);
      DecodeEscape(s[1..]);
      assert [s[0]] + s[1..] == s;
    }
  }

  lemma EscapeInjective(s: string, t: string)
    requires Escape(s) == Escape(t)
    ensures s == t
  {
    DecodeEscape(s);
    DecodeEscape(t);
  }

  lemma {:induction false} EscapeConcat(s: string, t: string)
    ensures Escape(s + t) == Escape(s) + Escape(t)
  {
    if s == "" {
      assert s + t == t;
    } else {
      assert (s + t)[1..] == s[1..] + t;
      EscapeConcat(s[1..], t);
    }
  }

  /** The escaped text holds no control code, so it is a single line, at most six times as long. */
  lemma {:induction false} EscapeIsPlain(s: string)
    ensures forall k :: 0 <= k < |Escape(s)| ==> !IsControl(Escape(s)[k])
    ensures |s| <= |Escape(s)| <= 6 * |s|
  {
    if s != "" {
      EscapeCharShape(s[0]);
      EscapeIsPlain(s[1..]);
    }
  }

  /** A string without control codes and backslashes is left alone, and no other is. */
  lemma {:induction false} EscapeFixpoint(s: string)
    ensures Escape(s) == s <==> forall k :: 0 <= k < |s| ==> !IsControl(s[k]) && s[k] != '\\'
  {
    if s != "" {
      EscapeFixpoint(s[1..]);
      EscapeIsPlain(s[1..]);
      assert s == [s[0]] + s[1..];
      if IsControl(s[0]) || s[0] == '\\' {
        assert |Escape(s)| > |s|;
      } else {
        assert Escape(s)[1..] == Escape(s[1..]);
      }
    }
  }

  // ----- the formatted line -----

  const INFIX: string := ":auth): "

  function Prefix(service: string): string {
    "pam_ssh_agent(" + Escape(service) + INFIX
  }

  function Line(service: string, message: string): string {
    Prefix(service) + Escape(message)
  }

  /** What a plain record looks like. */
  lemma PlainLine(service: string, message: string)
    requires forall k :: 0 <= k < |service| ==> !IsControl(service[k]) && service[k] != '\\'
    requires forall k :: 0 <= k < |message| ==> !IsControl(message[k]) && message[k] != '\\'
    ensures Line(service, message) == "pam_ssh_agent(" + service + ":auth): " + message
  {
    EscapeFixpoint(service);
    EscapeFixpoint(message);
  }

  /** A record is one line without control codes, whatever the service and the message hold. */
  lemma LineIsPlain(service: string, message: string)
    ensures forall k :: 0 <= k < |Line(service, message)| ==> !IsControl(Line(service, message)[k])
  {
    EscapeIsPlain(service);
    EscapeIsPlain(message);
  }

  lemma InfixUnchanged()
    ensures Escape(INFIX) == INFIX
  {
    EscapeFixpoint(INFIX);
  }

  lemma EscapeAround(a: string, b: string)
    ensures Escape(a + INFIX + b) == Escape(a) + INFIX + Escape(b)
  {
    InfixUnchanged();
    EscapeConcat(a + INFIX, b);
    EscapeConcat(a, INFIX);
  }

  /** Without knowing the service the line is ambiguous: a service may contain the separator. */
  lemma LineAmbiguous(a: string, b: string, c: string)
    ensures Line(a, b + INFIX + c) == Line(a + INFIX + b, c)
  {
    EscapeAround(b, c);
    EscapeAround(a, b);
    Regrouped("pam_ssh_agent(", Escape(a), INFIX, Escape(b), Escape(c));
  }

  lemma Regrouped(p: string, x: string, i: string, y: string, z: string)
    ensures p + x + i + (y + i + z) == p + (x + i + y) + i + z
  {
  }

  predicate Contains(s: string, t: string) {
    exists k :: 0 <= k <= |s| && t <= s[k..]
  }

  /** Two occurrences of the separator in one string never overlap. */
  lemma SeparatorsApart(x: string, y: string, u: string, v: string)
    requires x + INFIX + y == u + INFIX + v && |x| < |u|
    ensures |x| + |INFIX| <= |u|
  {
    var whole := x + INFIX + y;
    assert forall k | 0 <= k < |INFIX| :: whole[|x| + k] == INFIX[k];
    assert forall k | 0 <= k < |INFIX| :: (u + INFIX + v)[|u| + k] == INFIX[k];
    assert whole[|u|] == INFIX[0] && whole[|u| + 1] == INFIX[1];
  }

  lemma SeparatorInside(x: string, y: string, u: string, v: string)
    requires x + INFIX + y == u + INFIX + v && |x| < |u|
    ensures Contains(u, INFIX)
  {
    SeparatorsApart(x, y, u, v);
    var whole := x + INFIX + y;
    var t := u[|x|..];
    assert whole[|x|..|x| + |INFIX|] == INFIX;
    assert (u + INFIX + v)[|x|..|x| + |INFIX|] == t[..|INFIX|];
  }

  lemma SeparatorAfter(x: string, y: string, u: string, v: string)
    requires x + INFIX + y == u + INFIX + v && |x| < |u|
    ensures Contains(y, INFIX)
  {
    SeparatorsApart(x, y, u, v);
    var k := |u| - |x| - |INFIX|;
    assert (u + INFIX + v)[|u|..|u| + |INFIX|] == INFIX;
    assert (x + INFIX + y)[|u|..|u| + |INFIX|] == y[k..][..|INFIX|];
  }

  lemma {:induction false} PrefixSurvives(t: string, s: string)
    requires forall k :: 0 <= k < |t| ==> !IsControl(t[k]) && t[k] != '\\'
    ensures t <= Escape(s) <==> t <= s
  {
    if t != "" && s != "" {
      PrefixSurvives(t[1..], s[1..]);
      if t[0] == s[0] {
        assert Escape(s)[1..] == Escape(s[1..]);
        assert t <= s <==> t[1..] <= s[1..];
        assert t <= Escape(s) <==> t[1..] <= Escape(s)[1..];
      } else {
        assert Escape(s)[0] == EscapeChar(s[0])[0] != t[0];
      }
    }
  }

  lemma ContainsFrom(s: string, n: nat, t: string)
    requires n <= |s| && forall k :: 0 <= k < n ==> !(t <= s[k..])
    ensures Contains(s, t) <==> Contains(s[n..], t)
  {
    if k: nat :| k <= |s| && t <= s[k..] {
      assert s[n..][k - n..] == s[k..];
    }
    if k: nat :| k <= |s| - n && t <= s[n..][k..] {
      assert s[n..][k..] == s[n + k..];
    }
  }

  /** A separator that starts with ':' and holds nothing to escape: escaping neither makes nor
      breaks one, since no escape holds a ':'. */
  lemma {:induction false} SeparatorSurvives(s: string, t: string)
    requires t != "" && t[0] == ':' && forall k :: 0 <= k < |t| ==> !IsControl(t[k]) && t[k] != '\\'
    ensures Contains(Escape(s), t) <==> Contains(s, t)
  {
    if s != "" {
      PrefixSurvives(t, s);
      var e, n := Escape(s), |EscapeChar(s[0])|;
      assert e[0..] == e && s[0..] == s && e[n..] == Escape(s[1..]);
      if !(t <= s) {
        forall k | 0 <= k < n ensures !(t <= e[k..]) {
          assert k > 0 ==> e[k..][0] == EscapeChar(s[0])[k] != ':';
        }
        ContainsFrom(e, n, t);
        ContainsFrom(s, 1, t);
        SeparatorSurvives(s[1..], t);
      } else {
        assert t <= e[0..] && t <= s[0..];
      }
    }
  }

  /** A line stands for one service and one message exactly when neither holds the separator. */
  lemma LineDecidesIff(service: string, message: string)
    ensures (forall s, m :: Line(s, m) == Line(service, message) ==> s == service && m == message) <==>
            !Contains(service, INFIX) && !Contains(message, INFIX)
  {
    if Contains(service, INFIX) {
      var a, b := SplitAtSeparator(service);
      LineAmbiguous(a, b, message);
    } else if Contains(message, INFIX) {
      var b, c := SplitAtSeparator(message);
      LineAmbiguous(service, b, c);
    } else {
      forall s, m | Line(s, m) == Line(service, message) ensures s == service && m == message {
        SameLine(service, message, s, m);
      }
    }
  }

  lemma SplitAtSeparator(s: string) returns (a: string, b: string)
    requires Contains(s, INFIX)
    ensures s == a + INFIX + b
  {
    var k :| 0 <= k <= |s| && INFIX <= s[k..];
    a, b := s[..k], s[k..][|INFIX|..];
    assert s[k..] == INFIX + b;
  }

  lemma SameLine(s: string, m: string, s': string, m': string)
    requires !Contains(s, INFIX) && !Contains(m, INFIX) && Line(s', m') == Line(s, m)
    ensures s' == s && m' == m
  {
    NotInEscape(s);
    NotInEscape(m);
    LineBody(s, m);
    LineBody(s', m');
    SameParts(Escape(s), Escape(m), Escape(s'), Escape(m'));
    EscapeInjective(s, s');
    EscapeInjective(m, m');
  }

  lemma NotInEscape(s: string)
    requires !Contains(s, INFIX)
    ensures !Contains(Escape(s), INFIX)
  {
    InfixUnchanged();
    EscapeFixpoint(INFIX);
    SeparatorSurvives(s, INFIX);
  }

  lemma SameParts(x: string, y: string, u: string, v: string)
    requires x + INFIX + y == u + INFIX + v && !Contains(x, INFIX) && !Contains(y, INFIX)
    ensures x == u && y == v
  {
    if |u| < |x| {
      SeparatorInside(u, v, x, y);
    } else if |x| < |u| {
      SeparatorAfter(x, y, u, v);
    } else {
      assert x == (x + INFIX + y)[..|x|] && u == (u + INFIX + v)[..|u|];
      assert y == (x + INFIX + y)[|x| + |INFIX|..] && v == (u + INFIX + v)[|u| + |INFIX|..];
    }
  }

  lemma LineBody(s: string, m: string)
    ensures |Line(s, m)| >= 14 && Line(s, m)[14..] == Escape(s) + INFIX + Escape(m)
  {
    var p := "pam_ssh_agent(";
    assert |p| == 14;
    assert Line(s, m) == p + (Escape(s) + INFIX + Escape(m));
  }
}
