/** `str::trim_end` on UTF-8 bytes. */
module Trimming {
  import opened Utf8

  /** Length of the White_Space character that ends `s`, or 0. */
  function TrailingSpace(s: Bytes): (n: nat)
    ensures n <= |s|
    ensures n > 0 ==> !Tail(s, |s| - n)
  {
    var n := |s|;
    if n >= 1 && (Between(s, n - 1, 0x09, 0x0D) || Between(s, n - 1, 0x20, 0x20)) then 1
    else if n >= 2 && Between(s, n - 2, 0xC2, 0xC2) &&
            (Between(s, n - 1, 0x85, 0x85) || Between(s, n - 1, 0xA0, 0xA0)) then 2
    else if n >= 3 && WideSpace(s, n - 3) then 3
    else 0
  }

  /** U+1680, U+2000 to U+200A, U+2028, U+2029, U+202F, U+205F and U+3000. */
  predicate WideSpace(s: Bytes, k: nat)
    requires k + 3 <= |s|
  {
    || (Between(s, k, 0xE1, 0xE1) && Between(s, k + 1, 0x9A, 0x9A) && Between(s, k + 2, 0x80, 0x80))
    || (Between(s, k, 0xE2, 0xE2) && Between(s, k + 1, 0x80, 0x80) &&
        (Between(s, k + 2, 0x80, 0x8A) || Between(s, k + 2, 0xA8, 0xA9) || Between(s, k + 2, 0xAF, 0xAF)))
    || (Between(s, k, 0xE2, 0xE2) && Between(s, k + 1, 0x81, 0x81) && Between(s, k + 2, 0x9F, 0x9F))
    || (Between(s, k, 0xE3, 0xE3) && Between(s, k + 1, 0x80, 0x80) && Between(s, k + 2, 0x80, 0x80))
  }

  function TrimEnd(s: Bytes): (r: Bytes)
    ensures r <= s
    ensures TrailingSpace(r) == 0
    decreases |s|
  {
    var n := TrailingSpace(s);
    if n == 0 then s else TrimEnd(s[..|s| - n])
  }

  lemma {:induction false} TrimKeepsUtf8(s: Bytes)
    requires Valid(s)
    ensures Valid(TrimEnd(s))
    decreases |s|
  {
    var n := TrailingSpace(s);
    if n > 0 {
      BoundaryCuts(s, |s| - n);
      TrimKeepsUtf8(s[..|s| - n]);
    }
  }

  predicate AllSpace(s: Bytes)
    decreases |s|
  {
    s == "" || (TrailingSpace(s) > 0 && AllSpace(s[..|s| - TrailingSpace(s)]))
  }

  lemma SameTrailingSpace(s: Bytes, k: nat)
    requires k + TrailingSpace(s) <= |s| && TrailingSpace(s) > 0
    ensures TrailingSpace(s[k..]) == TrailingSpace(s)
  {
    var t := s[k..];
    assert forall i: nat, lo, hi | i < |t| :: Between(t, i, lo, hi) == Between(s, k + i, lo, hi);
  }

  /** Trimming removes White_Space characters and nothing else. */
  lemma {:induction false} TrimRemovesOnlySpace(s: Bytes)
    ensures AllSpace(s[|TrimEnd(s)|..])
    decreases |s|
  {
    var n := TrailingSpace(s);
    if n > 0 {
      var shorter := s[..|s| - n];
      var k := |TrimEnd(shorter)|;
      TrimRemovesOnlySpace(shorter);
      SameTrailingSpace(s, k);
      assert s[k..][..|s[k..]| - n] == shorter[k..];
      AllSpaceLonger(s[k..], n);
    }
  }

  lemma AllSpaceLonger(s: Bytes, n: nat)
    requires 0 < n == TrailingSpace(s) && AllSpace(s[..|s| - n])
    ensures AllSpace(s)
  {
  }
}
