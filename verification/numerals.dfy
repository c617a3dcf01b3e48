/** Decimal numerals as bytes, and the width of a user id. */
module Numerals {
  import opened Utf8

  predicate Digits(s: Bytes) {
    forall i :: 0 <= i < |s| ==> '0' <= s[i] <= '9'
  }

  function Decimal(s: Bytes): nat
    requires Digits(s)
  {
    if s == "" then 0 else 10 * Decimal(s[..|s| - 1]) + (s[|s| - 1] as int - '0' as int)
  }

  /** How `to_string` writes a number: no leading zero, except for 0 itself. */
  predicate Canonical(s: Bytes) {
    s != "" && Digits(s) && (|s| > 1 ==> s[0] != '0')
  }

  function DecimalText(n: nat): (s: Bytes)
    ensures Canonical(s) && (n > 0 ==> s[0] != '0')
  {
    var digit := [(n % 10 + 48) as char];
    if n < 10 then digit else DecimalText(n / 10) + digit
  }

  lemma {:induction false} DecimalRoundTrip(n: nat)
    ensures Decimal(DecimalText(n)) == n
  {
    var s := DecimalText(n);
    if n >= 10 {
      DecimalRoundTrip(n / 10);
      assert s[..|s| - 1] == DecimalText(n / 10);
    } else {
      assert s[..0] == "" && Decimal(s[..|s| - 1]) == 0;
    }
  }

  lemma {:induction false} PositiveNumeral(s: Bytes)
    requires Canonical(s) && s[0] != '0'
    ensures Decimal(s) > 0
    decreases |s|
  {
    if |s| > 1 {
      assert s[..|s| - 1][0] == s[0];
      PositiveNumeral(s[..|s| - 1]);
    }
  }

  /** Each number has one canonical numeral. */
  lemma {:induction false} CanonicalRoundTrip(s: Bytes)
    requires Canonical(s)
    ensures DecimalText(Decimal(s)) == s
    decreases |s|
  {
    var rest, last := s[..|s| - 1], s[|s| - 1];
    if |s| > 1 {
      assert rest[0] == s[0];
      CanonicalRoundTrip(rest);
      PositiveNumeral(rest);
      assert Decimal(s) / 10 == Decimal(rest);
      assert s == rest + [last];
    } else {
      assert Decimal(rest) == 0 && s == [last];
    }
  }

  lemma Appended(s: Bytes, t: Bytes)
    requires Digits(s) && Digits(t)
    ensures Digits(s + t)
    ensures t != "" ==>
              && Digits(s + t[..|t| - 1])
              && Decimal(s + t) == 10 * Decimal(s + t[..|t| - 1]) + (t[|t| - 1] as int - '0' as int)
  {
    if t != "" {
      assert (s + t)[..|s + t| - 1] == s + t[..|t| - 1];
    }
  }

  /** Appending the same digits keeps the order. */
  lemma {:induction false} DecimalMonotone(a: Bytes, a': Bytes, t: Bytes)
    requires Digits(a) && Digits(a') && Digits(t) && Decimal(a) <= Decimal(a')
    ensures Digits(a + t) && Digits(a' + t) && Decimal(a + t) <= Decimal(a' + t)
    decreases |t|
  {
    Appended(a, t);
    Appended(a', t);
    if t == "" {
      assert a + t == a && a' + t == a';
    } else {
      DecimalMonotone(a, a', t[..|t| - 1]);
    }
  }

  lemma {:induction false} AppendedTenfold(s: Bytes, t: Bytes)
    requires Digits(s) && Digits(t) && t != ""
    ensures Digits(s + t) && Decimal(s + t) >= 10 * Decimal(s)
    decreases |t|
  {
    Appended(s, t);
    if |t| == 1 {
      assert s + t[..0] == s;
    } else {
      AppendedTenfold(s, t[..|t| - 1]);
    }
  }

  lemma {:induction false} LongNumeral(s: Bytes)
    requires Canonical(s) && s[0] != '0'
    ensures Decimal(s) >= Pow10(|s| - 1)
    decreases |s|
  {
    if |s| > 1 {
      assert s[..|s| - 1][0] == s[0];
      LongNumeral(s[..|s| - 1]);
    } else {
      PositiveNumeral(s);
    }
  }

  function Pow10(n: nat): (p: nat)
    ensures p > 0
  {
    if n == 0 then 1 else 10 * Pow10(n - 1)
  }

  /** A numeral that starts with '1'. */
  lemma {:induction false} LeadingOne(s: Bytes)
    requires Digits(s)
    ensures Digits("1" + s) && Pow10(|s|) <= Decimal("1" + s) < 2 * Pow10(|s|)
    decreases |s|
  {
    Appended("1", s);
    if s == "" {
      assert "1" + s == "1" && "1"[..0] == "";
      assert Decimal("1") == 10 * Decimal("1"[..0]) + 1;
    } else {
      LeadingOne(s[..|s| - 1]);
    }
  }

  lemma {:induction false} Pow10Monotone(m: nat, n: nat)
    requires m <= n
    ensures Pow10(m) <= Pow10(n)
    decreases n
  {
    if m < n {
      Pow10Monotone(m, n - 1);
    }
  }

  // ----- user ids -----

  /** `uid_t` */
  const UID_LIMIT: nat := 0x1_0000_0000

  type Uid = n: nat | n < UID_LIMIT
}
