/** What strict validation asks of each path component, in terms of owner, kind and mode, at the
    moment of the component's own metadata call: src/filter.rs, validate_trust_path. */
module WalkChecks {
  import opened Outcomes
  import opened Utf8
  import opened FileSystem
  import opened TrustPath

  // ----- one component -----

  /** Root's, and a link where links may pass, or closed to group and others; only "/nix/store" may
      be open to them, and only when it is sticky. */
  predicate Safe(path: seq<Component>, i: Inode, links: bool) {
    i.uid == 0 &&
    if i.node.Symlink? then links
    else i.mode & 0x12 == 0 || (path == [Root, Normal("nix"), Normal("store")] && i.mode & 0x200 != 0)
  }

  lemma VerdictIsSafe(path: seq<Component>, m: Option<Metadata>, links: bool)
    ensures Verdict(path, m, 0, links) == None <==> m.Some? && Safe(path, m.value.inode, links)
    ensures Verdict(path, m, 0, links) == Some(NotFound) <==> m.None?
    ensures Verdict(path, m, 0, links) == Some(WrongOwner) <==> m.Some? && m.value.inode.uid != 0
    ensures Verdict(path, m, 0, links) == Some(ContainsSymlink) <==>
            m.Some? && m.value.inode.uid == 0 && m.value.inode.node.Symlink? && !links
    ensures Verdict(path, m, 0, links) == Some(OthersMayWrite) <==>
            m.Some? && m.value.inode.uid == 0 && !m.value.inode.node.Symlink? && !Safe(path, m.value.inode, links)
  {
  }

  /** Something safe is under this path now. */
  predicate SafeNow(fs: Fs, path: seq<Component>, links: bool) {
    var m := MetadataAt(fs, path, false);
    m.Some? && Safe(path, m.value.inode, links)
  }

  // ----- the world at each call -----

  /** The world after `n` system calls that open nothing. */
  function Nth(w: World, n: nat): World
    decreases n
  {
    if n == 0 then w else Nth(Advance(w), n - 1)
  }

  /** What the n-th call from `w` sees of a path, if it succeeds. */
  function Seen(w: World, n: nat, path: seq<Component>, follow: bool): Option<Metadata> {
    if Upcoming(Nth(w, n)).fault then None else MetadataAt(Nth(w, n + 1).fs, path, follow)
  }

  lemma {:induction false} NthStep(w: World, n: nat)
    ensures Nth(w, n + 1) == Advance(Nth(w, n))
    decreases n
  {
    if n > 0 {
      NthStep(Advance(w), n - 1);
    }
  }

  lemma {:induction false} NthSum(w: World, m: nat, n: nat)
    ensures Nth(w, m + n) == Nth(Nth(w, m), n)
    decreases m
  {
    if m > 0 {
      NthSum(Advance(w), m - 1, n);
    }
  }

  /** The j-th call of a walk sees the path up to its j-th component, and that is safe. */
  predicate SafeAt(w: World, path: seq<Component>, j: nat, links: bool)
    requires j < |path|
  {
    var m := Seen(w, j, path[..j + 1], false);
    m.Some? && Safe(path[..j + 1], m.value.inode, links)
  }

  ghost predicate SafeBefore(w: World, path: seq<Component>, n: nat, links: bool)
    requires n <= |path|
  {
    forall j :: 0 <= j < n ==> SafeAt(w, path, j, links)
  }

  /** What a walk gives that meets its first unsafe component at its n-th call. */
  ghost predicate StopsAt(w: World, path: seq<Component>, n: nat, links: bool, r: (Option<Refusal>, World)) {
    && n <= |path| && SafeBefore(w, path, n, links)
    && (n == |path| ==> r == (None, Nth(w, n)))
    && (n < |path| ==>
          var m := Seen(w, n, path[..n + 1], false);
          && !SafeAt(w, path, n, links)
          && r.1 == Nth(w, n + 1)
          && r.0 == Some(if m.None? then NotFound
                         else if m.value.inode.uid != 0 then WrongOwner
                         else if m.value.inode.node.Symlink? then ContainsSymlink else OthersMayWrite))
  }

  /** A walk stops at the first component that is not safe when it is looked at, and says what is
      wrong with it; without one it passes. */
  lemma WalkStops(w: World, path: seq<Component>, links: bool) returns (n: nat)
    ensures StopsAt(w, path, n, links, Walk(w, path, 0, 0, links))
  {
    n := WalkStopsFrom(w, path, 0, links);
  }

  lemma {:induction false} WalkStopsFrom(w: World, path: seq<Component>, k: nat, links: bool) returns (n: nat)
    requires k <= |path| && SafeBefore(w, path, k, links)
    ensures StopsAt(w, path, n, links, Walk(Nth(w, k), path, k, 0, links))
    decreases |path| - k
  {
    n := k;
    if k < |path| {
      NthStep(w, k);
      VerdictAt(w, path, k, links);
      if SafeAt(w, path, k, links) {
        n := WalkStopsFrom(w, path, k + 1, links);
      }
    }
  }

  lemma VerdictAt(w: World, path: seq<Component>, k: nat, links: bool)
    requires k < |path|
    ensures Lstat(Nth(w, k), path[..k + 1]) == (Seen(w, k, path[..k + 1], false), Nth(w, k + 1))
    ensures var m := Seen(w, k, path[..k + 1], false);
            var v := Verdict(path[..k + 1], m, 0, links);
            && (SafeAt(w, path, k, links) <==> v == None)
            && (v != None ==>
                  v == Some(if m.None? then NotFound
                            else if m.value.inode.uid != 0 then WrongOwner
                            else if m.value.inode.node.Symlink? then ContainsSymlink else OthersMayWrite))
  {
    NthStep(w, k);
    VerdictIsSafe(path[..k + 1], Seen(w, k, path[..k + 1], false), links);
  }

  lemma WalkPassesIff(w: World, path: seq<Component>, links: bool)
    ensures Walk(w, path, 0, 0, links).0 == None <==> SafeBefore(w, path, |path|, links)
    ensures Walk(w, path, 0, 0, links).0 == None ==> Walk(w, path, 0, 0, links).1 == Nth(w, |path|)
  {
    var n := WalkStops(w, path, links);
  }

  // ----- the whole validation -----

  /** Ends in '/' or in "/.", which the kernel takes for the name of a directory. */
  predicate EndsInSlash(raw: Bytes) {
    || (|raw| >= 1 && raw[|raw| - 1] == '/')
    || (|raw| >= 2 && raw[|raw| - 2..] == "/.")
  }

  lemma NamesDirectoryIff(raw: Bytes)
    ensures NamesDirectory(raw) <==> EndsInSlash(raw)
  {
    LastSegment(raw);
    OneSegment(raw);
    var s := Segments(raw);
    var last := s[|s| - 1];
    assert NamesDirectory(raw) <==> |s| > 1 && (last == "" || last == ".");
    assert |raw| >= 1 && last == "" ==> raw[|raw| - 1] == '/' || |s| == 1;
    assert last != "" ==> raw[|raw| - 1] == last[|last| - 1] && last[|last| - 1] in last;
    assert |last| >= 2 ==> raw[|raw| - 2] == last[|last| - 2] && last[|last| - 2] in last;
  }

  /** The last segment is what follows the last '/'. */
  lemma {:induction false} LastSegment(raw: Bytes)
    ensures var s := Segments(raw);
            var last := s[|s| - 1];
            && |last| <= |raw| && raw[|raw| - |last|..] == last && '/' !in last
            && (|s| > 1 ==> |last| < |raw| && raw[|raw| - |last| - 1] == '/')
  {
    if raw != "" {
      var tail := raw[1..];
      var n := |Segments(tail)|;
      var last := Segments(tail)[n - 1];
      LastSegment(tail);
      SegmentsStep(raw);
      OneSegment(raw);
      OneSegment(tail);
      assert tail[|tail| - |last|..] == raw[|raw| - |last|..];
      if n == 1 {
        assert last == tail && raw == [raw[0]] + tail && raw[0..] == raw;
        assert raw[0] != '/' ==> '/' !in raw;
      }
    }
  }

  lemma SegmentsStep(raw: Bytes)
    requires raw != ""
    ensures var s, rest := Segments(raw), Segments(raw[1..]);
            && |s| == |rest| + (if raw[0] == '/' then 1 else 0)
            && (raw[0] == '/' || |rest| > 1 ==> s[|s| - 1] == rest[|rest| - 1])
  {
  }

  lemma {:induction false} OneSegment(raw: Bytes)
    ensures |Segments(raw)| == 1 <==> '/' !in raw
    ensures |Segments(raw)| == 1 ==> Segments(raw) == [raw]
  {
    if raw != "" {
      OneSegment(raw[1..]);
      assert raw == [raw[0]] + raw[1..];
    }
  }

  /** The call after the written walk resolves the path to `trail`. */
  predicate ResolvesAt(w: World, n: nat, raw: Bytes, trail: seq<Name>) {
    && !Upcoming(Nth(w, n)).fault
    && var fs := Nth(w, n + 1).fs;
       var p := Locate(fs, Components(raw), true);
       && p.Some? && p.value.trail == trail
       && (EndsInSlash(raw) ==> Last(p.value) in fs.inodes && fs.inodes[Last(p.value)].node.Directory?)
  }

  /** Every check of the validation, each at the moment of its own system call. */
  ghost predicate Accepted(w: World, raw: Bytes, trail: seq<Name>) {
    var n := |Components(raw)|;
    var path := Physical(trail);
    && Absolute(raw) && ".." !in Segments(raw)
    && SafeBefore(w, Components(raw), n, true)
    && ResolvesAt(w, n, raw, trail)
    && SafeBefore(Nth(w, n + 1), path, |path|, false)
    && var m := Seen(Nth(w, n + 1), |path|, path, true);
       m.Some? && m.value.inode.node.Regular?
  }

  /** Whatever happens between the calls, validation accepts exactly what passes every check, and
      what it returns is the path of some names. */
  lemma ValidateIff(w: World, raw: Bytes, trail: seq<Name>)
    ensures Validate(w, raw, 0).0 == Ok(Physical(trail)) <==> Accepted(w, raw, trail)
    ensures Validate(w, raw, 0).0.Ok? ==> exists q :: Validate(w, raw, 0).0 == Ok(Physical(q))
  {
    var n := |Components(raw)|;
    NormalizedMeansNoParent(raw);
    WalkPassesIff(w, Components(raw), true);
    if Normalized(raw) && Walk(w, Components(raw), 0, 0, true).0 == None {
      Resolution(w, n, raw, trail);
      AfterResolution(Nth(w, n + 1), trail);
      NthSum(w, n + 1, |trail| + 1);
      var canonical := Canonicalize(Nth(w, n), raw).0;
      if canonical.Some? && canonical.value != Physical(trail) {
        var found :| canonical.value == Physical(found);
        AfterResolution(Nth(w, n + 1), found);
      }
    }
  }

  lemma Resolution(w: World, n: nat, raw: Bytes, trail: seq<Name>)
    ensures var (canonical, w2) := Canonicalize(Nth(w, n), raw);
            && w2 == Nth(w, n + 1)
            && (canonical == Some(Physical(trail)) <==> ResolvesAt(w, n, raw, trail))
            && (canonical.Some? ==> exists q :: canonical.value == Physical(q))
  {
    NthStep(w, n);
    NamesDirectoryIff(raw);
    var p := Locate(Nth(w, n + 1).fs, Components(raw), true);
    if p.Some? && Physical(p.value.trail) == Physical(trail) {
      SamePhysical(p.value.trail, trail);
    }
  }

  /** The rest of the validation once the path is resolved. */
  lemma AfterResolution(w: World, trail: seq<Name>)
    ensures var path := Physical(trail);
            var (v, w') := Walk(w, path, 0, 0, false);
            && (v == None <==> SafeBefore(w, path, |path|, false))
            && (v == None ==> Stat(w', path).0 == Seen(w, |path|, path, true))
  {
    WalkPassesIff(w, Physical(trail), false);
    NthStep(w, |trail| + 1);
  }

  lemma SamePhysical(a: seq<Name>, b: seq<Name>)
    requires Physical(a) == Physical(b)
    ensures a == b
  {
    assert |Physical(a)| == |a| + 1 && |Physical(b)| == |b| + 1;
    forall k | 0 <= k < |a| ensures a[k] == b[k] {
      assert Physical(a)[k + 1] == Normal(a[k]) && Physical(b)[k + 1] == Normal(b[k]);
    }
  }

  // ----- the identity check -----

  /** Opening succeeds exactly when the name leads to one inode at the stat and at the open, and is
      refused for a change exactly when it leads to two. */
  lemma OpenCheckedIff(w: World, path: seq<Component>, id: Id)
    ensures var expected, actual := Seen(w, 0, path, true), Seen(w, 1, path, true);
            var r := OpenChecked(w, path).0;
            var found := expected.Some? && actual.Some? &&
                         Fstat(Open(Nth(w, 1), path).1, actual.value.id).0.Some?;
            && (r == Ok(id) <==> found && expected.value.id == id && actual.value.id == id)
            && (r == Err(ChangedWhileOpening) <==> found && expected.value.id != actual.value.id)
  {
    assert Nth(w, 1) == Advance(Nth(w, 0)) && Nth(w, 2) == Advance(Nth(w, 1));
  }

  // ----- paths as they are written -----

  function Joined(segments: seq<Bytes>): Bytes
    requires segments != []
  {
    if |segments| == 1 then segments[0] else segments[0] + "/" + Joined(segments[1..])
  }

  /** Cutting at every '/' can be undone, and leaves no '/'. */
  lemma {:induction false} SegmentsAreJoined(raw: Bytes)
    ensures Joined(Segments(raw)) == raw
    ensures forall k :: 0 <= k < |Segments(raw)| ==> '/' !in Segments(raw)[k]
  {
    if raw != "" {
      var rest, s := Segments(raw[1..]), Segments(raw);
      SegmentsAreJoined(raw[1..]);
      assert raw == [raw[0]] + raw[1..];
      if raw[0] == '/' {
        assert s[1..] == rest;
      } else {
        assert s[1..] == rest[1..];
      }
    }
  }

  /** Segment by segment: empty ones and "." vanish, ".." and names stay. */
  lemma {:induction false} PartsConcat(a: seq<Bytes>, b: seq<Bytes>)
    ensures Parts(a + b) == Parts(a) + Parts(b)
    decreases |a|
  {
    if a == [] {
      assert a + b == b;
    } else {
      assert (a + b)[1..] == a[1..] + b;
      PartsConcat(a[1..], b);
    }
  }

  lemma PartsOfOne(s: Bytes)
    ensures Parts([s]) == if s == "" || s == "." then [] else if s == ".." then [Up] else [Normal(s)]
  {
    assert [s][1..] == [];
  }

  lemma {:induction false} PartsOf(segments: seq<Bytes>)
    ensures Up in Parts(segments) <==> ".." in segments
    ensures Here !in Parts(segments)
  {
    if segments != [] {
      assert segments == [segments[0]] + segments[1..];
      PartsOf(segments[1..]);
    }
  }

  /** "Normalized" means: absolute and without a ".." segment.  Empty and "." segments pass. */
  lemma NormalizedMeansNoParent(raw: Bytes)
    ensures Normalized(raw) <==> Absolute(raw) && ".." !in Segments(raw)
  {
    PartsOf(Segments(raw));
  }
}
