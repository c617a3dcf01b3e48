/** Which templates tell users apart: exactly when two users can get the same expansion. */
module UserPaths {
  import opened Outcomes
  import opened Utf8
  import opened Expansions
  import opened Simultaneous
  import opened ExpansionFacts
  import opened Numerals
  import opened Outlines

  // ----- what stands between the user and the uid -----

  /** Both the user and the uid are in the template, at `i` and `j`. */
  predicate UserAndUid(p: seq<Piece>, i: nat, j: nat) {
    i < |p| && j < |p| && i != j && p[i] == Ref('u') && p[j] == Ref('U')
  }

  function Middle(p: seq<Piece>, i: nat, j: nat): seq<Piece>
    requires i < |p| && j < |p| && i != j
  {
    if i < j then p[i + 1..j] else p[j + 1..i]
  }

  /** Some number written after `d` leaves `d` at the end, and a digit more still fits a uid. */
  ghost predicate Trails(d: Bytes) {
    exists n: nat :: TrailsWith(d, n)
  }

  predicate TrailsWith(d: Bytes, n: nat) {
    0 < n && 10 * n < UID_LIMIT && (d + DecimalText(n))[|DecimalText(n)|..] == d
  }

  /** Some digits written before `d` have `d` at the start, and a '1' before them still fits a uid. */
  ghost predicate Leads(d: Bytes) {
    exists c: Bytes :: LeadsWith(d, c)
  }

  predicate LeadsWith(d: Bytes, c: Bytes) {
    c != "" && Digits("1" + c) && Decimal("1" + c) < UID_LIMIT && d <= c + d
  }

  /** The template runs the user and the uid together on a host of these names. */
  ghost predicate Confusable(t: Bytes, names: Names) {
    var p := Pieces(t, SHARED_SLOTS);
    var i, j := IndexOf(p, 'u'), IndexOf(p, 'U');
    && UserAndUid(p, i, j)
    && var d := Text(Middle(p, i, j), names);
       Digits(d) && if i < j then Trails(d) else Leads(d)
  }

  // ----- strings -----

  lemma {:induction false} DigitsFromRight(d: Bytes, c: Bytes, i: nat)
    requires c != "" && Digits(c) && (d + c)[|c|..] == d && i < |d|
    ensures '0' <= d[i] <= '9'
    decreases |d| - i
  {
    assert d[i] == (d + c)[|c| + i];
    if |c| + i < |d| {
      DigitsFromRight(d, c, |c| + i);
    }
  }

  lemma {:induction false} DigitsFromLeft(d: Bytes, c: Bytes, i: nat)
    requires c != "" && Digits(c) && d <= c + d && i < |d|
    ensures '0' <= d[i] <= '9'
    decreases i
  {
    assert d[i] == (c + d)[i];
    if i >= |c| {
      DigitsFromLeft(d, c, i - |c|);
    }
  }

  predicate UidText(y: Bytes) {
    Canonical(y) && Decimal(y) < UID_LIMIT
  }

  lemma SameLengthSameStart(x1: Bytes, z1: Bytes, x2: Bytes, z2: Bytes)
    requires x1 + z1 == x2 + z2 && (|x1| == |x2| || |z1| == |z2|)
    ensures x1 == x2 && z1 == z2
  {
    var w := x1 + z1;
    assert |x1| == |x2|;
    assert x1 == w[..|x1|] && x2 == (x2 + z2)[..|x2|];
    assert z1 == w[|x1|..] && z2 == (x2 + z2)[|x2|..];
  }

  /** Two uids of different length after the same text. */
  lemma LongerTail(x1: Bytes, d: Bytes, y1: Bytes, x2: Bytes, y2: Bytes)
    requires x1 + (d + y1) == x2 + (d + y2) && UidText(y1) && UidText(y2) && |y1| < |y2|
    ensures Digits(d) && Trails(d)
  {
    var k := |y2| - |y1|;
    var c := y2[..k];
    assert y2 == c + y2[k..];
    assert x1 + d + y1 == x1 + (d + y1) && x2 + d + c + y2[k..] == x2 + (d + y2);
    SameLengthSameStart(x1 + d, y1, x2 + d + c, y2[k..]);
    assert x2 + d + c == x2 + (d + c) && |x1| == |x2| + k;
    assert (x1 + d)[|x1|..] == d && (x2 + (d + c))[|x2| + k..] == (d + c)[k..];
    forall i | 0 <= i < |d| ensures '0' <= d[i] <= '9' {
      DigitsFromRight(d, c, i);
    }
    assert Canonical(c) && c[0] != '0';
    AppendedTenfold(c, y1);
    PositiveNumeral(c);
    CanonicalRoundTrip(c);
    assert TrailsWith(d, Decimal(c));
  }

  lemma LongerHead(y1: Bytes, d: Bytes, x1: Bytes, y2: Bytes, x2: Bytes)
    requires y1 + (d + x1) == y2 + (d + x2) && UidText(y1) && UidText(y2) && |y1| < |y2|
    ensures Digits(d) && Leads(d)
  {
    var w := y2 + (d + x2);
    var c := y2[|y1|..];
    assert y1 == w[..|y1|] == y2[..|y1|] && y2 == y1 + c;
    assert d + x1 == w[|y1|..] == c + (d + x2) == c + d + x2;
    assert d == (d + x1)[..|d|] == (c + d)[..|d|];
    forall i | 0 <= i < |d| ensures '0' <= d[i] <= '9' {
      DigitsFromLeft(d, c, i);
    }
    assert y1[0] == y2[0];
    PositiveNumeral(y1);
    OneIsLeast(y1);
    DecimalMonotone("1", y1, c);
    assert LeadsWith(d, c);
  }

  lemma OneIsLeast(y: Bytes)
    requires Digits(y) && Decimal(y) > 0
    ensures Digits("1") && Decimal("1") <= Decimal(y)
  {
    assert "1"[..0] == "";
  }

  // ----- two users -----

  /** A template with the user and no home directory, in which no value can complete a '%'. */
  predicate PerUserTemplate(t: Bytes) {
    Occurs(t, 'u') && !Occurs(t, 'h') && '~' !in t && SafeScan(t, SHARED_SLOTS)
  }

  /** What the environment of a user shares with those of others on the host. */
  ghost predicate UserEnvironment(e: Lookups, user: Bytes, uid: Option<Uid>) {
    && e.value('u') == Some(user)
    && e.value('U') == (if uid.Some? then Some(DecimalText(uid.value)) else None)
    && InertFor(e, SHARED_SLOTS)
  }

  ghost predicate SameHost(e1: Lookups, e2: Lookups) {
    e1.value('H') == e2.value('H') && e1.value('f') == e2.value('f')
  }

  /** The pieces of a template: text of the host around the user, or around both. */
  lemma PiecesOfTemplate(t: Bytes) returns (p: seq<Piece>, i: nat, j: nat)
    requires PerUserTemplate(t)
    ensures p == Pieces(t, SHARED_SLOTS) && i == IndexOf(p, 'u') < |p| && j == IndexOf(p, 'U')
    ensures forall k :: 0 <= k < |p| && p[k].Ref? && k != i && k != j ==> p[k].letter in "Hf"
    ensures j < |p| <==> Occurs(t, 'U')
  {
    p := Pieces(t, SHARED_SLOTS);
    i, j := IndexOf(p, 'u'), IndexOf(p, 'U');
    SharedWellOrdered();
    assert SHARED_SLOTS[1] == Var('u') && SHARED_SLOTS[3] == Var('U');
    OccurrenceIsRef(t, SHARED_SLOTS, 'u');
    EachRefOnce(t, SHARED_SLOTS);
    if Occurs(t, 'U') {
      OccurrenceIsRef(t, SHARED_SLOTS, 'U');
    } else if Ref('U') in p {
      RefsAreSlots(t, SHARED_SLOTS, 'U');
    }
    forall k | 0 <= k < |p| && p[k].Ref? && k != i && k != j ensures p[k].letter in "Hf" {
      assert p[k] == Ref(p[k].letter) && p[k] in p;
      RefsAreSlots(t, SHARED_SLOTS, p[k].letter);
      SharedLetters(p[k].letter);
    }
  }

  lemma SharedLetters(x: char)
    requires Var(x) in SHARED_SLOTS
    ensures x in "HufU"
  {
  }

  lemma ExpansionIsRender(t: Bytes, e: Lookups)
    requires PerUserTemplate(t) && InertFor(e, SHARED_SLOTS)
    ensures ExpandVars(t, e) == Render(Pieces(t, SHARED_SLOTS), e)
  {
    ExpansionIsSharedScan(t, e);
    ScanIsRender(t, SHARED_SLOTS, e);
  }

  lemma Cancel(a: Bytes, x1: Bytes, x2: Bytes, b: Bytes)
    requires a + (x1 + b) == a + (x2 + b)
    ensures x1 == x2
  {
    var w := a + (x1 + b);
    assert x1 + b == w[|a|..] && x2 + b == (a + (x2 + b))[|a|..];
    assert |x1| == |x2|;
    SameLengthSameStart(x1, b, x2, b);
  }

  lemma UidTextOf(uid: Uid)
    ensures UidText(DecimalText(uid))
  {
    DecimalRoundTrip(uid);
  }

  /** A template that does not run the user and the uid together gives no two users of a host the
      same expansion, whatever their home directories and uids are. */
  lemma DistinctUsersDistinctExpansions(t: Bytes, e1: Lookups, user1: Bytes, uid1: Option<Uid>,
                                        e2: Lookups, user2: Bytes, uid2: Option<Uid>)
    requires PerUserTemplate(t) && user1 != user2 && SameHost(e1, e2)
    requires UserEnvironment(e1, user1, uid1) && UserEnvironment(e2, user2, uid2)
    requires !Confusable(t, NamesOf(e1))
    ensures ExpandVars(t, e1).Some? ==> ExpandVars(t, e1) != ExpandVars(t, e2)
  {
    ExpansionIsRender(t, e1);
    ExpansionIsRender(t, e2);
    var p, i, j := PiecesOfTemplate(t);
    if Render(p, e1).Some? && Render(p, e1) == Render(p, e2) {
      if j == |p| {
        OneVariableDecides(p, i, e1, e2);
      } else {
        TwoVariablesDecide(p, i, j, e1, e2);
        UidTextOf(uid1.value);
        UidTextOf(uid2.value);
        var d := Text(Middle(p, i, j), NamesOf(e1));
        Undecided(user1, d, DecimalText(uid1.value), user2, DecimalText(uid2.value), i < j);
        assert false;
      }
    }
  }

  lemma OneVariableDecides(p: seq<Piece>, i: nat, e1: Lookups, e2: Lookups)
    requires i < |p| && OnlyHostElsewhere(p, i, i) && SameHost(e1, e2)
    requires PieceValue(p[i], e1).Some? && PieceValue(p[i], e2).Some?
    requires Render(p, e1).Some? && Render(p, e1) == Render(p, e2)
    ensures PieceValue(p[i], e1) == PieceValue(p[i], e2)
  {
    RenderOne(p, i, e1);
    RenderOne(p, i, e2);
    var n := NamesOf(e1);
    Cancel(Text(p[..i], n), PieceValue(p[i], e1).value, PieceValue(p[i], e2).value, Text(p[i + 1..], n));
  }

  function Together(x: Bytes, d: Bytes, y: Bytes, userFirst: bool): Bytes {
    if userFirst then x + (d + y) else y + (d + x)
  }

  lemma TwoVariablesDecide(p: seq<Piece>, i: nat, j: nat, e1: Lookups, e2: Lookups)
    requires i < |p| && j < |p| && i != j && OnlyHostElsewhere(p, i, j) && SameHost(e1, e2)
    requires PieceValue(p[i], e1).Some? && PieceValue(p[i], e2).Some?
    requires Render(p, e1).Some? && Render(p, e1) == Render(p, e2)
    ensures PieceValue(p[j], e1).Some? && PieceValue(p[j], e2).Some?
    ensures var d := Text(Middle(p, i, j), NamesOf(e1));
            Together(PieceValue(p[i], e1).value, d, PieceValue(p[j], e1).value, i < j) ==
            Together(PieceValue(p[i], e2).value, d, PieceValue(p[j], e2).value, i < j)
  {
    var n := NamesOf(e1);
    var first, last := if i < j then i else j, if i < j then j else i;
    RenderAroundTwo(p, first, last, e1);
    RenderAroundTwo(p, first, last, e2);
    RenderTwo(p, first, last, e1);
    RenderTwo(p, first, last, e2);
    var d := Text(Middle(p, i, j), n);
    Cancel(Text(p[..first], n), PieceValue(p[first], e1).value + (d + PieceValue(p[last], e1).value),
           PieceValue(p[first], e2).value + (d + PieceValue(p[last], e2).value), Text(p[last + 1..], n));
  }

  lemma Undecided(user1: Bytes, d: Bytes, y1: Bytes, user2: Bytes, y2: Bytes, userFirst: bool)
    requires UidText(y1) && UidText(y2) && user1 != user2
    requires Together(user1, d, y1, userFirst) == Together(user2, d, y2, userFirst)
    ensures Digits(d) && if userFirst then Trails(d) else Leads(d)
  {
    if userFirst {
      if |y1| == |y2| {
        SameLengthSameStart(user1, d + y1, user2, d + y2);
      } else if |y1| < |y2| {
        LongerTail(user1, d, y1, user2, y2);
      } else {
        LongerTail(user2, d, y2, user1, y1);
      }
    } else {
      if |y1| == |y2| {
        SameLengthSameStart(y1, d + user1, y2, d + user2);
        SameLengthSameStart(d, user1, d, user2);
      } else if |y1| < |y2| {
        LongerHead(y1, d, user1, y2, user2);
      } else {
        LongerHead(y2, d, user2, y1, user1);
      }
    }
  }

  // ----- the converse: two users that a template runs together -----

  predicate PlainNameByte(c: char) {
    'a' <= c <= 'z' || 'A' <= c <= 'Z' || '0' <= c <= '9' || c == '_' || c == '-'
  }

  predicate PlainName(name: Bytes) {
    name != "" && forall i :: 0 <= i < |name| ==> PlainNameByte(name[i])
  }

  datatype Account = Account(name: Bytes, uid: Uid)

  lemma UsersThatTrail(d: Bytes) returns (a1: Account, a2: Account)
    requires Digits(d) && Trails(d)
    ensures PlainName(a1.name) && PlainName(a2.name) && a1.name != a2.name
    ensures Together(a1.name, d, DecimalText(a1.uid), true) == Together(a2.name, d, DecimalText(a2.uid), true)
  {
    var n: nat :| TrailsWith(d, n);
    var c := DecimalText(n);
    var p := (d + c)[..|c|];
    assert d + c == p + d;
    assert DecimalText(10 * n) == c + "0" && DecimalText(0) == "0";
    a1, a2 := Account("a" + p, 0), Account("a", 10 * n);
    forall i | 0 <= i < |p| ensures '0' <= p[i] <= '9' {
      assert p[i] == (d + c)[i];
    }
    MoveOver("a", p, d, c, "0");
  }

  lemma MoveOver(x: Bytes, p: Bytes, d: Bytes, c: Bytes, y: Bytes)
    requires p + d == d + c
    ensures (x + p) + (d + y) == x + (d + (c + y))
  {
    assert (x + p) + (d + y) == x + (p + d) + y;
    assert x + (d + (c + y)) == x + (d + c) + y;
  }

  lemma UsersThatLead(d: Bytes) returns (a1: Account, a2: Account)
    requires Digits(d) && Leads(d)
    ensures PlainName(a1.name) && PlainName(a2.name) && a1.name != a2.name
    ensures Together(a1.name, d, DecimalText(a1.uid), false) == Together(a2.name, d, DecimalText(a2.uid), false)
  {
    var c :| LeadsWith(d, c);
    var p := (c + d)[|d|..];
    assert c + d == d + p;
    CanonicalRoundTrip("1" + c);
    assert DecimalText(1) == "1";
    a1, a2 := Account(p + "a", 1), Account("a", Decimal("1" + c));
    forall i | 0 <= i < |p| ensures '0' <= p[i] <= '9' {
      assert p[i] == (c + d)[|d| + i] && (|d| + i < |c| ==> c[|d| + i] == ("1" + c)[|d| + i + 1]);
    }
    MoveOver("1", c, d, p, "a");
  }

  /** The template runs these two users and their uids together to the same text. */
  ghost predicate RunsTogether(t: Bytes, names: Names, a1: Account, a2: Account) {
    var p := Pieces(t, SHARED_SLOTS);
    var i, j := IndexOf(p, 'u'), IndexOf(p, 'U');
    && UserAndUid(p, i, j)
    && var d := Text(Middle(p, i, j), names);
       Together(a1.name, d, DecimalText(a1.uid), i < j) == Together(a2.name, d, DecimalText(a2.uid), i < j)
  }

  lemma ConfusableUsers(t: Bytes, names: Names) returns (a1: Account, a2: Account)
    requires Confusable(t, names)
    ensures PlainName(a1.name) && PlainName(a2.name) && a1.name != a2.name
    ensures RunsTogether(t, names, a1, a2)
  {
    var p := Pieces(t, SHARED_SLOTS);
    var i, j := IndexOf(p, 'u'), IndexOf(p, 'U');
    if i < j {
      a1, a2 := UsersThatTrail(Text(Middle(p, i, j), names));
    } else {
      a1, a2 := UsersThatLead(Text(Middle(p, i, j), names));
    }
  }

  /** Such users have the same expansion. */
  lemma TogetherShare(t: Bytes, names: Names, a1: Account, a2: Account, e1: Lookups, e2: Lookups)
    requires PerUserTemplate(t) && RunsTogether(t, names, a1, a2)
    requires UserEnvironment(e1, a1.name, Some(a1.uid)) && UserEnvironment(e2, a2.name, Some(a2.uid))
    requires e1.value('H') == e2.value('H') == Some(names.host)
    requires e1.value('f') == e2.value('f') == Some(names.fqdn)
    ensures ExpandVars(t, e1).Some? && ExpandVars(t, e1) == ExpandVars(t, e2)
  {
    ExpansionIsRender(t, e1);
    ExpansionIsRender(t, e2);
    var p, i, j := PiecesOfTemplate(t);
    assert NamesOf(e1) == names;
    SameTogether(p, i, j, e1, e2);
  }

  lemma SameTogether(p: seq<Piece>, i: nat, j: nat, e1: Lookups, e2: Lookups)
    requires i < |p| && j < |p| && i != j && OnlyHostElsewhere(p, i, j) && SameHost(e1, e2)
    requires e1.value('H').Some? && e1.value('f').Some?
    requires PieceValue(p[i], e1).Some? && PieceValue(p[i], e2).Some?
    requires PieceValue(p[j], e1).Some? && PieceValue(p[j], e2).Some?
    requires var d := Text(Middle(p, i, j), NamesOf(e1));
             Together(PieceValue(p[i], e1).value, d, PieceValue(p[j], e1).value, i < j) ==
             Together(PieceValue(p[i], e2).value, d, PieceValue(p[j], e2).value, i < j)
    ensures Render(p, e1).Some? && Render(p, e1) == Render(p, e2)
  {
    var first, last := if i < j then i else j, if i < j then j else i;
    RenderTwo(p, first, last, e1);
    RenderTwo(p, first, last, e2);
  }

  // ----- simpler conditions -----

  /** A literal character other than a digit between the two keeps users apart on every host. */
  lemma NonDigitSetsApart(t: Bytes, k: nat, names: Names)
    requires var p := Pieces(t, SHARED_SLOTS);
             var i, j := IndexOf(p, 'u'), IndexOf(p, 'U');
             UserAndUid(p, i, j) && var m := Middle(p, i, j); k < |m| && m[k].Lit? && !('0' <= m[k].c <= '9')
    ensures !Confusable(t, names)
  {
    var p := Pieces(t, SHARED_SLOTS);
    LiteralInText(Middle(p, IndexOf(p, 'u'), IndexOf(p, 'U')), k, names);
  }

  lemma {:induction false} LiteralInText(m: seq<Piece>, k: nat, names: Names)
    requires k < |m| && m[k].Lit?
    ensures m[k].c in Text(m, names)
  {
    if k > 0 {
      LiteralInText(m[1..], k - 1, names);
    }
  }

  /** Up to eight digits between the two run them together. */
  lemma FewDigitsRunTogether(d: Bytes)
    requires Digits(d) && |d| <= 8
    ensures Trails(d) && Leads(d)
  {
    assert Pow10(8) == 100_000_000 by {
      assert Pow10(2) == 100 && Pow10(4) == 10_000 && Pow10(6) == 1_000_000;
    }
    var c := "1" + d;
    Pow10Monotone(|d|, 8);
    LeadingOne(d);
    PositiveNumeral(c);
    CanonicalRoundTrip(c);
    assert (d + c)[|c|..] == d;
    assert TrailsWith(d, Decimal(c));
    var l := d + "1";
    LeadingOne(l);
    Pow10Monotone(|l|, 9);
    assert Pow10(9) == 10 * Pow10(8);
    assert l + d == d + ("1" + d) && (l + d)[..|d|] == d;
    assert LeadsWith(d, l);
  }

  lemma NineDigits()
    ensures Pow10(9) == 1_000_000_000 && Pow10(10) == 10_000_000_000
  {
    assert Pow10(3) == 1_000 && Pow10(6) == 1_000_000;
  }

  lemma ShortNumber(n: nat)
    requires 0 < n && 10 * n < UID_LIMIT
    ensures 1 <= |DecimalText(n)| <= 9
  {
    var c := DecimalText(n);
    DecimalRoundTrip(n);
    LongNumeral(c);
    NineDigits();
    if |c| > 9 {
      Pow10Monotone(9, |c| - 1);
      assert false;
    }
  }

  lemma ShortDigits(c: Bytes)
    requires Digits("1" + c) && Decimal("1" + c) < UID_LIMIT
    ensures Digits(c) && |c| <= 9
  {
    assert forall i | 0 <= i < |c| :: ("1" + c)[i + 1] == c[i];
    LeadingOne(c);
    NineDigits();
    if |c| > 9 {
      Pow10Monotone(10, |c|);
      assert false;
    }
  }

  /** Ten digits or more do not, when the first is not among the next nine: no uid is long enough. */
  lemma FreshDigitSetsApart(d: Bytes)
    requires |d| >= 10 && forall k :: 1 <= k <= 9 ==> d[k] != d[0]
    ensures !Trails(d) && !Leads(d)
  {
    forall n: nat | 0 < n && 10 * n < UID_LIMIT ensures !TrailsWith(d, n) {
      var c := DecimalText(n);
      ShortNumber(n);
      assert (d + c)[|c|..][0] == (d + c)[|c|] == d[|c|];
    }
    forall c: Bytes | c != "" && Digits("1" + c) && Decimal("1" + c) < UID_LIMIT ensures !LeadsWith(d, c) {
      ShortDigits(c);
      assert (c + d)[|c|] == d[0];
    }
  }

  /** The literal characters between the user and the uid. */
  function Literals(m: seq<Piece>): Bytes {
    if m == [] then "" else (if m[0].Lit? then [m[0].c] else "") + Literals(m[1..])
  }

  predicate SetApart(t: Bytes) {
    var p := Pieces(t, SHARED_SLOTS);
    var i, j := IndexOf(p, 'u'), IndexOf(p, 'U');
    UserAndUid(p, i, j) ==> !Digits(Literals(Middle(p, i, j)))
  }

  predicate CloseTogether(t: Bytes) {
    var p := Pieces(t, SHARED_SLOTS);
    var i, j := IndexOf(p, 'u'), IndexOf(p, 'U');
    UserAndUid(p, i, j) ==> |Literals(Middle(p, i, j))| <= 8
  }

  lemma {:induction false} LiteralsIn(m: seq<Piece>, names: Names)
    requires Digits(Text(m, names))
    ensures Digits(Literals(m))
  {
    if m != [] {
      var head, rest := PieceText(m[0], names), Text(m[1..], names);
      forall k | 0 <= k < |rest| ensures '0' <= rest[k] <= '9' {
        assert Text(m, names)[|head| + k] == rest[k];
      }
      LiteralsIn(m[1..], names);
      if m[0].Lit? {
        assert Text(m, names)[0] == m[0].c;
      }
    }
  }

  lemma {:induction false} LiteralsAreText(m: seq<Piece>)
    ensures Text(m, Names("", "")) == Literals(m)
  {
    if m != [] {
      LiteralsAreText(m[1..]);
    }
  }

  /** With at most eight literal characters between them, a template keeps users apart on every host
      exactly when it lacks the uid or one of those characters is not a digit. */
  lemma ApartOnEveryHostIff(t: Bytes)
    requires CloseTogether(t)
    ensures SetApart(t) <==> forall names: Names :: Inert(names.host) && Inert(names.fqdn) ==> !Confusable(t, names)
  {
    var p := Pieces(t, SHARED_SLOTS);
    var i, j := IndexOf(p, 'u'), IndexOf(p, 'U');
    if UserAndUid(p, i, j) {
      var m := Middle(p, i, j);
      if SetApart(t) {
        forall names: Names ensures !Confusable(t, names) {
          if Digits(Text(m, names)) {
            LiteralsIn(m, names);
          }
        }
      } else {
        LiteralsAreText(m);
        FewDigitsRunTogether(Literals(m));
        assert Confusable(t, Names("", ""));
      }
    }
  }

  // ----- the two shortest templates -----

  lemma UserThenUid(slots: seq<Slot>)
    requires WellOrdered(slots) && Var('u') in slots && Var('U') in slots
    ensures Pieces("%u%U", slots) == [Ref('u'), Ref('U')]
    ensures Pieces("%u/%U", slots) == [Ref('u'), Lit('/'), Ref('U')]
  {
    var fewer := Without(slots, Var('u'));
    WithoutMembers(slots, Var('u'));
    OnlyUid(fewer);
    UserFirst("%u%U", "%U", slots);
    UserFirst("%u/%U", "/%U", slots);
    assert "/%U"[1..] == "%U" && Pieces("/%U", fewer) == [Lit('/')] + Pieces("%U", fewer);
  }

  lemma UserFirst(s: Bytes, rest: Bytes, slots: seq<Slot>)
    requires Var('u') in slots && s == ['%', 'u'] + rest
    ensures Pieces(s, slots) == [Ref('u')] + Pieces(rest, Without(slots, Var('u')))
  {
    assert s[2..] == rest;
  }

  lemma SharedUsers()
    ensures WellOrdered(SHARED_SLOTS) && Var('u') in SHARED_SLOTS && Var('U') in SHARED_SLOTS
  {
    SharedWellOrdered();
    assert SHARED_SLOTS[1] == Var('u') && SHARED_SLOTS[3] == Var('U');
  }

  lemma OnlyUid(slots: seq<Slot>)
    requires Var('U') in slots
    ensures Pieces("%U", slots) == [Ref('U')]
  {
    var s := "%U";
    assert s[2..] == "" && Pieces(s[2..], Without(slots, Var('U'))) == [];
  }

  /** Without anything between user and uid two users share a path, whatever the host's names are. */
  lemma UidCounterexample(names: Names)
    ensures Confusable("%u%U", names)
  {
    SharedUsers();
    UserThenUid(SHARED_SLOTS);
    var p := [Ref('u'), Ref('U')];
    assert p[0] == Ref('u') && p[1] == Ref('U') && Middle(p, 0, 1) == [];
    FewDigitsRunTogether("");
  }

  /** With a '/' between them they never do. */
  lemma SlashSetsApart(names: Names)
    ensures !Confusable("%u/%U", names)
  {
    SharedUsers();
    UserThenUid(SHARED_SLOTS);
    var p := [Ref('u'), Lit('/'), Ref('U')];
    assert p[0] == Ref('u') && p[1] == Lit('/') && p[2] == Ref('U') && Middle(p, 0, 2) == [Lit('/')];
    NonDigitSetsApart("%u/%U", 0, names);
  }
}
