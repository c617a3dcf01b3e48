/** An expansion template as a row of literal characters and variables. */
module Outlines {
  import opened Outcomes
  import opened Utf8
  import opened Expansions
  import opened Simultaneous
  import opened ExpansionFacts

  datatype Piece = Lit(c: char) | Ref(letter: char)

  function Pieces(s: Bytes, slots: seq<Slot>): seq<Piece>
    decreases |s|
  {
    if s == "" then []
    else if Active(s, slots) && s[0] == '%' then
      [Ref(s[1])] + Pieces(s[2..], Without(slots, Var(s[1])))
    else [Lit(s[0])] + Pieces(s[1..], slots)
  }

  function PieceValue(p: Piece, e: Lookups): Option<Bytes> {
    if p.Lit? then Some([p.c]) else e.value(p.letter)
  }

  function Render(p: seq<Piece>, e: Lookups): Option<Bytes> {
    if p == [] then Some("") else Join(PieceValue(p[0], e), Render(p[1..], e))
  }

  lemma {:induction false} ScanIsRender(s: Bytes, slots: seq<Slot>, e: Lookups)
    requires '~' !in s
    ensures Scan(s, slots, e) == Render(Pieces(s, slots), e)
    decreases |s|
  {
    if s != "" {
      if Active(s, slots) {
        ScanIsRender(s[2..], Without(slots, Var(s[1])), e);
      } else {
        ScanIsRender(s[1..], slots, e);
        assert s[..1] == [s[0]];
      }
    }
  }

  lemma {:induction false} RenderConcat(p: seq<Piece>, q: seq<Piece>, e: Lookups)
    ensures Render(p + q, e) == Join(Render(p, e), Render(q, e))
    decreases |p|
  {
    var r := Render(q, e);
    if p == [] {
      assert p + q == q;
      assert r.Some? ==> "" + r.value == r.value;
    } else {
      assert (p + q)[1..] == p[1..] + q;
      RenderConcat(p[1..], q, e);
      var v, t := PieceValue(p[0], e), Render(p[1..], e);
      assert v.Some? && t.Some? && r.Some? ==> v.value + (t.value + r.value) == (v.value + t.value) + r.value;
    }
  }

  lemma {:induction false} RefsAreSlots(s: Bytes, slots: seq<Slot>, x: char)
    requires WellOrdered(slots) && Ref(x) in Pieces(s, slots)
    ensures Var(x) in slots && Occurs(s, x)
    decreases |s|
  {
    if Active(s, slots) && s[0] == '%' {
      WithoutMembers(slots, Var(s[1]));
      if x != s[1] {
        RefsAreSlots(s[2..], Without(slots, Var(s[1])), x);
        OccursInRest(s, 2, x);
      }
    } else {
      RefsAreSlots(s[1..], slots, x);
      OccursInRest(s, 1, x);
    }
  }

  lemma OccursInRest(s: Bytes, n: nat, letter: char)
    requires n <= |s| && Occurs(s[n..], letter)
    ensures Occurs(s, letter)
  {
    var t := s[n..];
    var k :| 0 <= k < |t| - 1 && t[k] == '%' && t[k + 1] == letter;
    assert s[n + k] == t[k] && s[n + k + 1] == t[k + 1];
  }

  /** A variable that occurs is a piece, and only once. */
  lemma {:induction false} OccurrenceIsRef(s: Bytes, slots: seq<Slot>, x: char)
    requires WellOrdered(slots) && Var(x) in slots && Occurs(s, x)
    ensures Ref(x) in Pieces(s, slots)
    decreases |s|
  {
    var k :| 0 <= k < |s| - 1 && s[k] == '%' && s[k + 1] == x;
    if Active(s, slots) && s[0] == '%' {
      WithoutMembers(slots, Var(s[1]));
      if x == s[1] {
        assert Pieces(s, slots)[0] == Ref(x);
      } else {
        assert k >= 2 && s[2..][k - 2] == '%' && s[2..][k - 1] == x;
        OccurrenceIsRef(s[2..], Without(slots, Var(s[1])), x);
      }
    } else {
      assert k >= 1 && s[1..][k - 1] == '%' && s[1..][k] == x;
      OccurrenceIsRef(s[1..], slots, x);
    }
  }

  ghost predicate RefsOnce(p: seq<Piece>) {
    forall i, j :: 0 <= i < j < |p| && p[i].Ref? ==> p[i] != p[j]
  }

  lemma {:induction false} EachRefOnce(s: Bytes, slots: seq<Slot>)
    requires WellOrdered(slots)
    ensures RefsOnce(Pieces(s, slots))
    decreases |s|
  {
    if s != "" {
      if Active(s, slots) && s[0] == '%' {
        var fewer := Without(slots, Var(s[1]));
        WithoutMembers(slots, Var(s[1]));
        EachRefOnce(s[2..], fewer);
        if Ref(s[1]) in Pieces(s[2..], fewer) {
          RefsAreSlots(s[2..], fewer, s[1]);
        }
      } else {
        EachRefOnce(s[1..], slots);
      }
    }
  }

  /** Index of a variable, or |p|. */
  function IndexOf(p: seq<Piece>, x: char): (i: nat)
    ensures i <= |p| && (i < |p| ==> p[i] == Ref(x))
    ensures forall k :: 0 <= k < i ==> p[k] != Ref(x)
  {
    if p == [] || p[0] == Ref(x) then 0 else 1 + IndexOf(p[1..], x)
  }

  // ----- text around variables -----

  datatype Names = Names(host: Bytes, fqdn: Bytes)

  function NamesOf(e: Lookups): Names {
    Names(if e.value('H').Some? then e.value('H').value else "", if e.value('f').Some? then e.value('f').value else "")
  }

  function PieceText(p: Piece, names: Names): Bytes {
    match p
    case Lit(c) => [c]
    case Ref(x) => if x == 'H' then names.host else if x == 'f' then names.fqdn else ""
  }

  function Text(p: seq<Piece>, names: Names): Bytes {
    if p == [] then "" else PieceText(p[0], names) + Text(p[1..], names)
  }

  ghost predicate OnlyHostRefs(p: seq<Piece>) {
    forall k :: 0 <= k < |p| && p[k].Ref? ==> p[k].letter in "Hf"
  }

  lemma {:induction false} RenderIsText(p: seq<Piece>, e: Lookups)
    requires OnlyHostRefs(p)
    ensures Render(p, e).Some? ==> Render(p, e).value == Text(p, NamesOf(e))
    ensures e.value('H').Some? && e.value('f').Some? ==> Render(p, e).Some?
    decreases |p|
  {
    if p != [] {
      RenderIsText(p[1..], e);
    }
  }

  /** Rendering around the variable at `i`. */
  lemma RenderAround(p: seq<Piece>, i: nat, e: Lookups)
    requires i < |p|
    ensures Render(p, e) == Join(Render(p[..i], e), Join(PieceValue(p[i], e), Render(p[i + 1..], e)))
  {
    var rest := p[i..];
    assert p == p[..i] + rest && rest[1..] == p[i + 1..];
    RenderConcat(p[..i], rest, e);
  }

  lemma RenderAroundTwo(p: seq<Piece>, i: nat, j: nat, e: Lookups)
    requires i < j < |p|
    ensures Render(p, e) == Join(Render(p[..i], e), Join(PieceValue(p[i], e),
              Join(Render(p[i + 1..j], e), Join(PieceValue(p[j], e), Render(p[j + 1..], e)))))
  {
    RenderAround(p, i, e);
    var q := p[i + 1..];
    RenderAround(q, j - i - 1, e);
    assert q[..j - i - 1] == p[i + 1..j] && q[j - i..] == p[j + 1..];
  }

  ghost predicate OnlyHostElsewhere(p: seq<Piece>, i: nat, j: nat) {
    forall k :: 0 <= k < |p| && p[k].Ref? && k != i && k != j ==> p[k].letter in "Hf"
  }

  lemma HostRefsOf(p: seq<Piece>, from: nat, to: nat, i: nat, j: nat)
    requires from <= to <= |p| && OnlyHostElsewhere(p, i, j)
    requires !(from <= i < to) && !(from <= j < to)
    ensures OnlyHostRefs(p[from..to])
  {
    forall k | 0 <= k < to - from && p[from..to][k].Ref? ensures p[from..to][k].letter in "Hf" {
      assert p[from..to][k] == p[from + k];
    }
  }

  /** An expansion with one variable besides those of the host. */
  lemma RenderOne(p: seq<Piece>, i: nat, e: Lookups)
    requires i < |p| && OnlyHostElsewhere(p, i, i) && PieceValue(p[i], e).Some?
    ensures var n := NamesOf(e);
            Render(p, e).Some? ==>
              Render(p, e).value == Text(p[..i], n) + (PieceValue(p[i], e).value + Text(p[i + 1..], n))
  {
    RenderAround(p, i, e);
    HostRefsOf(p, 0, i, i, i);
    HostRefsOf(p, i + 1, |p|, i, i);
    assert p[0..i] == p[..i] && p[i + 1..|p|] == p[i + 1..];
    RenderIsText(p[..i], e);
    RenderIsText(p[i + 1..], e);
  }

  /** An expansion with two of them, `i` before `j`. */
  lemma RenderTwo(p: seq<Piece>, i: nat, j: nat, e: Lookups)
    requires i < j < |p| && OnlyHostElsewhere(p, i, j) && PieceValue(p[i], e).Some?
    ensures var n := NamesOf(e);
            Render(p, e).Some? ==>
              && PieceValue(p[j], e).Some?
              && Render(p, e).value == Text(p[..i], n) +
                 ((PieceValue(p[i], e).value + (Text(p[i + 1..j], n) + PieceValue(p[j], e).value)) +
                  Text(p[j + 1..], n))
    ensures e.value('H').Some? && e.value('f').Some? && PieceValue(p[j], e).Some? ==> Render(p, e).Some?
  {
    RenderAroundTwo(p, i, j, e);
    HostRefsOf(p, 0, i, i, j);
    HostRefsOf(p, i + 1, j, i, j);
    HostRefsOf(p, j + 1, |p|, i, j);
    assert p[0..i] == p[..i] && p[j + 1..|p|] == p[j + 1..];
    RenderIsText(p[..i], e);
    RenderIsText(p[i + 1..j], e);
    RenderIsText(p[j + 1..], e);
    if Render(p, e).Some? {
      Regroup(Text(p[..i], NamesOf(e)), PieceValue(p[i], e).value, Text(p[i + 1..j], NamesOf(e)),
              PieceValue(p[j], e).value, Text(p[j + 1..], NamesOf(e)));
    }
  }

  lemma Regroup(a: Bytes, x: Bytes, d: Bytes, y: Bytes, b: Bytes)
    ensures a + (x + (d + (y + b))) == a + ((x + (d + y)) + b)
  {
  }
}
