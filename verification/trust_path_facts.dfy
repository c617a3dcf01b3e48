/** Safety of strict validation against every interleaving of unprivileged steps, and exactly
    what it accepts when nothing interferes. */
module TrustPathFacts {
  import opened Outcomes
  import opened Utf8
  import opened FileSystem
  import opened SealedPaths
  import opened Timing
  import opened TrustPath
  import opened WalkChecks

  // ----- resolving a path without symbolic links -----

  predicate NoLinks(fs: Fs, p: Place) {
    forall k :: 0 <= k < |p.ids| ==> p.ids[k] in fs.inodes && !fs.inodes[p.ids[k]].node.Symlink?
  }

  function Prefix(p: Place, k: nat): (q: Place)
    requires Shaped(p) && k <= |p.trail|
    ensures Shaped(q)
  {
    Place(p.trail[..k], p.ids[..k + 1])
  }

  lemma {:induction false} ResolveAlong(fs: Fs, p: Place, k: nat, rest: seq<Component>, follow: bool, links: nat)
    requires Linked(fs, p) && NoLinks(fs, p) && k <= |p.trail|
    ensures Resolve(fs, Prefix(p, k), Names(p.trail[k..]) + rest, follow, links) ==
            Resolve(fs, p, rest, follow, links)
    decreases |p.trail| - k
  {
    var todo := Names(p.trail[k..]) + rest;
    if k == |p.trail| {
      assert Prefix(p, k) == p && todo == rest;
    } else {
      var at := Prefix(p, k);
      assert todo[0] == Normal(p.trail[k]);
      assert todo[1..] == Names(p.trail[k + 1..]) + rest;
      assert Child(fs, at.ids[k], p.trail[k]) == Some(p.ids[k + 1]);
      assert Place(at.trail + [p.trail[k]], at.ids + [p.ids[k + 1]]) == Prefix(p, k + 1);
      ResolveAlong(fs, p, k + 1, rest, follow, links);
    }
  }

  lemma ResolveFromRoot(fs: Fs, p: Place, rest: seq<Component>, follow: bool)
    requires Linked(fs, p) && NoLinks(fs, p)
    ensures Locate(fs, Physical(p.trail) + rest, follow) == Resolve(fs, p, rest, follow, MAX_LINKS)
  {
    StartOfPath(fs, p, rest);
    ResolveAlong(fs, p, 0, rest, follow, MAX_LINKS);
    LocateFromRoot(fs, Names(p.trail) + rest, follow);
  }

  lemma StartOfPath(fs: Fs, p: Place, rest: seq<Component>)
    requires Linked(fs, p)
    ensures p.trail[0..] == p.trail && Prefix(p, 0) == Place([], [fs.root])
    ensures Physical(p.trail) + rest == [Root] + (Names(p.trail) + rest)
  {
    assert p.ids[..1] == [fs.root];
  }

  lemma LocateFromRoot(fs: Fs, rest: seq<Component>, follow: bool)
    ensures Locate(fs, [Root] + rest, follow) == Resolve(fs, Place([], [fs.root]), rest, follow, MAX_LINKS)
  {
    assert ([Root] + rest)[0] == Root && ([Root] + rest)[1..] == rest;
  }

  lemma SealedHasNoLinks(fs: Fs, p: Place)
    requires Sealed(fs, p)
    ensures NoLinks(fs, p)
  {
    assert forall k :: 0 <= k <= |p.trail| ==> Guarded(fs, p.trail[..k], p.ids[k]);
  }

  lemma LocateSealed(fs: Fs, p: Place, follow: bool)
    requires Sealed(fs, p)
    ensures Locate(fs, Physical(p.trail), follow) == Some(p)
    ensures MetadataAt(fs, Physical(p.trail), follow) == Some(Metadata(Last(p), fs.inodes[Last(p)]))
  {
    SealedHasNoLinks(fs, p);
    ResolveFromRoot(fs, p, [], follow);
    assert Physical(p.trail) + [] == Physical(p.trail);
  }

  // ----- the canonical walk seals the path -----

  lemma StoreByNames(trail: seq<Name>)
    ensures Physical(trail) == StoreComponents() <==> trail == NIX_STORE
  {
    if Physical(trail) == StoreComponents() {
      assert Physical(trail)[1] == Normal(trail[0]) && Physical(trail)[2] == Normal(trail[1]);
    }
  }

  lemma WalkPrefix(trail: seq<Name>, k: nat)
    requires k <= |trail|
    ensures Physical(trail)[..k + 1] == Physical(trail[..k])
  {
  }

  /** One component accepted by the walk extends the sealed path, whatever happened just before. */
  lemma AcceptedComponentSeals(fs: Fs, p: Place, name: Name)
    requires Sealed(fs, p)
    requires Verdict(Physical(p.trail + [name]), MetadataAt(fs, Physical(p.trail + [name]), false), 0, false) == None
    ensures var c := Child(fs, Last(p), name);
            c.Some? && Sealed(fs, Place(p.trail + [name], p.ids + [c.value]))
  {
    var path := Physical(p.trail + [name]);
    assert path == Physical(p.trail) + [Normal(name)];
    SealedHasNoLinks(fs, p);
    ResolveFromRoot(fs, p, [Normal(name)], false);
    assert Locate(fs, path, false).Some?;
    var c := Child(fs, Last(p), name).value;
    var q := Place(p.trail + [name], p.ids + [c]);
    assert Locate(fs, path, false) == Some(q);
    StoreByNames(q.trail);
    forall k | 0 <= k <= |q.trail| ensures Guarded(fs, q.trail[..k], q.ids[k]) {
      if k <= |p.trail| {
        assert q.trail[..k] == p.trail[..k] && Guarded(fs, p.trail[..k], p.ids[k]);
      } else {
        assert q.trail[..k] == q.trail;
      }
    }
    forall k | 0 <= k < |q.trail| ensures Child(fs, q.ids[k], q.trail[k]) == Some(q.ids[k + 1]) {
      assert k < |p.trail| ==> Child(fs, p.ids[k], p.trail[k]) == Some(p.ids[k + 1]);
    }
  }

  lemma {:induction false} WalkSealsFrom(w: World, trail: seq<Name>, k: nat, p: Place) returns (q: Place)
    requires k <= |trail| && Sealed(w.fs, p) && p.trail == trail[..k]
    requires Walk(w, Physical(trail), k + 1, 0, false).0 == None
    ensures q.trail == trail && Sealed(Walk(w, Physical(trail), k + 1, 0, false).1.fs, q)
    decreases |trail| - k
  {
    if k == |trail| {
      q := p;
    } else {
      var w1 := Advance(w);
      InterferenceKeepsSealed(w.fs, Upcoming(w).moves, p);
      WalkPrefix(trail, k + 1);
      assert p.trail + [trail[k]] == trail[..k + 1];
      AcceptedComponentSeals(w1.fs, p, trail[k]);
      var c := Child(w1.fs, Last(p), trail[k]).value;
      q := WalkSealsFrom(w1, trail, k + 1, Place(p.trail + [trail[k]], p.ids + [c]));
    }
  }

  /** A canonical path that passes the walk for uid 0 is sealed at the end of the walk, whatever
      unprivileged processes did between the calls. */
  lemma WalkSeals(w: World, trail: seq<Name>) returns (q: Place)
    requires Walk(w, Physical(trail), 0, 0, false).0 == None
    ensures q.trail == trail && Sealed(Walk(w, Physical(trail), 0, 0, false).1.fs, q)
  {
    var w1 := Advance(w);
    WalkPrefix(trail, 0);
    assert trail[..0] == [];
    assert Physical([])[1..] == [];
    var root := Place([], [w1.fs.root]);
    assert Locate(w1.fs, Physical([]), false) == Some(root);
    assert root.trail[..0] == [] && [] != NIX_STORE;
    assert Guarded(w1.fs, [], w1.fs.root);
    q := WalkSealsFrom(w1, trail, 0, root);
  }

  lemma ValidateSeals(w: World, raw: Bytes) returns (q: Place)
    requires Validate(w, raw, 0).0.Ok?
    ensures Validate(w, raw, 0).0.value == Physical(q.trail)
    ensures var fs := Validate(w, raw, 0).1.fs;
            Sealed(fs, q) && fs.inodes[Last(q)].node.Regular?
  {
    var (v1, w1) := Walk(w, Components(raw), 0, 0, true);
    var (canonical, w2) := Canonicalize(w1, raw);
    var p := Locate(w2.fs, Components(raw), true).value;
    assert canonical == Some(Physical(p.trail));
    q := WalkSeals(w2, p.trail);
    var (v2, w3) := Walk(w2, Physical(p.trail), 0, 0, false);
    InterferenceKeepsSealed(w3.fs, Upcoming(w3).moves, q);
    LocateSealed(Advance(w3).fs, q, true);
  }

  // ----- opening and reading -----

  ghost predicate Faultless(w: World) {
    forall t :: t in w.turns ==> !t.fault
  }

  lemma FaultlessAdvance(w: World)
    requires Faultless(w)
    ensures !Upcoming(w).fault && Faultless(Advance(w))
  {
  }

  lemma AdvanceKeeps(w: World, q: Place)
    requires Sealed(w.fs, q)
    ensures Sealed(Advance(w).fs, q) && Kept(w.fs, Advance(w).fs, Last(q))
    ensures MetadataAt(Advance(w).fs, Physical(q.trail), true) ==
            Some(Metadata(Last(q), Advance(w).fs.inodes[Last(q)]))
  {
    InterferenceKeepsSealed(w.fs, Upcoming(w).moves, q);
    LocateSealed(Advance(w).fs, q, true);
  }

  /** On a sealed path the descriptor always refers to the inode that was checked. */
  lemma OpenSealed(w: World, q: Place)
    requires Sealed(w.fs, q)
    ensures var (r, w') := OpenChecked(w, Physical(q.trail));
            && (r == Ok(Last(q)) || r == Err(NotFound))
            && (Faultless(w) ==> r == Ok(Last(q)) && Faultless(w'))
            && Sealed(w'.fs, q) && Kept(w.fs, w'.fs, Last(q))
  {
    AdvanceKeeps(w, q);
    var w1 := Advance(w);
    AdvanceKeeps(w1, q);
    var (file, w2) := Open(w1, Physical(q.trail));
    assert Sealed(w2.fs, q) by { assert Linked(w2.fs, q); SealedIgnoresHeld(Advance(w1).fs, w2.fs, q); }
    AdvanceKeeps(w2, q);
    if Faultless(w) {
      FaultlessAdvance(w);
      FaultlessAdvance(w1);
      FaultlessAdvance(w2);
    }
  }

  lemma SealedIgnoresHeld(fs: Fs, fs': Fs, q: Place)
    requires Sealed(fs, q) && fs'.root == fs.root && fs'.inodes == fs.inodes
    ensures Sealed(fs', q)
  {
    forall k | 0 <= k < |q.trail| ensures Child(fs', q.ids[k], q.trail[k]) == Some(q.ids[k + 1]) {
      assert Child(fs, q.ids[k], q.trail[k]) == Some(q.ids[k + 1]);
    }
    forall k | 0 <= k <= |q.trail| ensures Guarded(fs', q.trail[..k], q.ids[k]) {
      assert Guarded(fs, q.trail[..k], q.ids[k]);
    }
  }

  /** One read returns the next bytes of the sealed file, or nothing at its end. */
  lemma ReadStep(w: World, q: Place, n: nat, bytes: Bytes)
    requires Sealed(w.fs, q) && w.fs.inodes[Last(q)].node == Regular(bytes) && !Writable(w.fs.inodes[Last(q)].mode)
    requires n <= |bytes| && n <= MAX_POLICY_BYTES
    ensures var (chunk, w1) := Read(w, Last(q), n, MAX_POLICY_BYTES + 1 - n);
            && w1 == Advance(w) && Sealed(w1.fs, q)
            && w1.fs.inodes[Last(q)].node == Regular(bytes) && !Writable(w1.fs.inodes[Last(q)].mode)
            && (Faultless(w) ==> chunk.Some? && Faultless(w1))
            && (chunk.Some? ==> n + |chunk.value| <= |bytes| && bytes[..n] + chunk.value == bytes[..n + |chunk.value|])
            && (chunk == Some("") ==> n == |bytes|)
  {
    AdvanceKeeps(w, q);
    if Faultless(w) {
      FaultlessAdvance(w);
    }
    var chunk := Read(w, Last(q), n, MAX_POLICY_BYTES + 1 - n).0;
    if chunk.Some? && n < |bytes| {
      assert chunk.value == bytes[n..n + |chunk.value|];
    }
  }

  lemma KeptTwice(fs: Fs, fs1: Fs, fs2: Fs, id: Id)
    requires id in fs.inodes && Kept(fs, fs1, id) && Kept(fs1, fs2, id)
    ensures Kept(fs, fs2, id)
  {
  }

  ghost predicate Holds(w: World, q: Place, bytes: Bytes) {
    && Sealed(w.fs, q)
    && w.fs.inodes[Last(q)].node == Regular(bytes) && !Writable(w.fs.inodes[Last(q)].mode)
  }

  /** Reading in pieces, with steps of others in between, gives the bytes of one moment. */
  lemma {:induction false} ReadSealed(w: World, q: Place, n: nat, bytes: Bytes)
    requires Holds(w, q, bytes) && n <= |bytes| && n <= MAX_POLICY_BYTES + 1
    ensures var r := ReadToEnd(w, Last(q), bytes[..n]).0;
            && (r.None? || r.value == bytes[..Least(|bytes|, MAX_POLICY_BYTES + 1)])
            && (Faultless(w) ==> r.Some?)
    decreases MAX_POLICY_BYTES + 1 - n
  {
    var acc, id := bytes[..n], Last(q);
    if n < MAX_POLICY_BYTES + 1 {
      var (chunk, w1) := Read(w, id, n, MAX_POLICY_BYTES + 1 - n);
      assert Holds(w1, q, bytes) && (Faultless(w) ==> chunk.Some? && Faultless(w1)) by {
        ReadStep(w, q, n, bytes);
      }
      if chunk.None? {
      } else if chunk.value == "" {
        assert n == |bytes| by { ReadStep(w, q, n, bytes); }
      } else {
        var m := n + |chunk.value|;
        assert m <= |bytes| && acc + chunk.value == bytes[..m] by { ReadStep(w, q, n, bytes); }
        assert ReadToEnd(w, id, acc) == ReadToEnd(w1, id, bytes[..m]);
        ReadSealed(w1, q, m, bytes);
      }
    }
  }

  /** What a policy's text is worth does not depend on the bytes after the limit. */
  lemma LimitedText(bytes: Bytes)
    ensures PolicyText(bytes[..Least(|bytes|, MAX_POLICY_BYTES + 1)]) == PolicyText(bytes)
  {
    if |bytes| <= MAX_POLICY_BYTES + 1 {
      assert bytes[..|bytes|] == bytes;
    }
  }

  /** After a successful validation the name stays bound to the same inode of root's, opening it
      cannot reach another one, and the read returns that file's text or refuses it. */
  lemma StrictReadIsStable(w: World, raw: Bytes) returns (q: Place)
    requires Validate(w, raw, 0).0.Ok?
    ensures Validate(w, raw, 0).0.value == Physical(q.trail)
    ensures var wv := Validate(w, raw, 0).1;
            var (r, w') := ReadStrict(w, raw, 0);
            && Sealed(wv.fs, q) && Sealed(w'.fs, q) && Kept(wv.fs, w'.fs, Last(q))
            && wv.fs.inodes[Last(q)].node.Regular?
            && r != Err(ChangedWhileOpening)
            && (Writable(wv.fs.inodes[Last(q)].mode) ==> q.trail == NIX_STORE)
            && (!Writable(wv.fs.inodes[Last(q)].mode) ==>
                  var bytes := wv.fs.inodes[Last(q)].node.bytes;
                  var text := if |bytes| > 1024 * 1024 then Err(TooLarge)
                              else if Valid(bytes) then Ok(bytes) else Err(NotUtf8);
                  && w'.fs.inodes[Last(q)].node == wv.fs.inodes[Last(q)].node
                  && (r == text || r == Err(NotFound) || r == Err(Unreadable))
                  && (Faultless(wv) ==> r == text))
  {
    q := ValidateSeals(w, raw);
    SealedReadIsStable(Validate(w, raw, 0).1, q);
  }

  lemma SealedReadIsStable(w: World, q: Place)
    requires Sealed(w.fs, q) && w.fs.inodes[Last(q)].node.Regular?
    ensures var (file, w2) := OpenChecked(w, Physical(q.trail));
            var (r, w') := if file.Err? then (Err(file.error), w2) else ReadBoundedSpec(w2, file.value);
            && Sealed(w'.fs, q) && Kept(w.fs, w'.fs, Last(q))
            && r != Err(ChangedWhileOpening)
            && (Writable(w.fs.inodes[Last(q)].mode) ==> q.trail == NIX_STORE)
            && (!Writable(w.fs.inodes[Last(q)].mode) ==>
                  var text := PolicyText(w.fs.inodes[Last(q)].node.bytes);
                  && (r == text || r == Err(NotFound) || r == Err(Unreadable))
                  && (Faultless(w) ==> r == text))
  {
    assert Guarded(w.fs, q.trail[..|q.trail|], Last(q)) && q.trail[..|q.trail|] == q.trail;
    OpenSealed(w, q);
    var (file, w2) := OpenChecked(w, Physical(q.trail));
    if file.Ok? {
      var w' := ReadToEnd(w2, Last(q), "").1;
      ReadKeepsSealed(w2, q, Last(q), "");
      if !Writable(w.fs.inodes[Last(q)].mode) {
        var bytes := w.fs.inodes[Last(q)].node.bytes;
        assert bytes[..0] == "";
        ReadSealed(w2, q, 0, bytes);
        LimitedText(bytes);
      }
      KeptTwice(w.fs, w2.fs, w'.fs, Last(q));
    }
  }

  lemma {:induction false} ReadKeepsSealed(w: World, q: Place, id: Id, acc: Bytes)
    requires Sealed(w.fs, q) && |acc| <= MAX_POLICY_BYTES + 1
    ensures var w' := ReadToEnd(w, id, acc).1; Sealed(w'.fs, q) && Kept(w.fs, w'.fs, Last(q))
    decreases MAX_POLICY_BYTES + 1 - |acc|
  {
    if |acc| < MAX_POLICY_BYTES + 1 {
      AdvanceKeeps(w, q);
      var (chunk, w1) := Read(w, id, |acc|, MAX_POLICY_BYTES + 1 - |acc|);
      if chunk.Some? && chunk.value != "" {
        ReadKeepsSealed(w1, q, id, acc + chunk.value);
      }
    }
  }

  // ----- contents: exactly when they are frozen -----

  ghost predicate ContentsFrozen(fs: Fs, id: Id)
    requires id in fs.inodes
  {
    forall moves :: var fs' := Interfere(fs, moves);
      id in fs'.inodes && fs'.inodes[id].node == fs.inodes[id].node
  }

  /** The bytes of a validated file are out of reach exactly when its mode is closed; the only
      validated path with an open mode is "/nix/store". */
  lemma ContentsFrozenIffClosed(fs: Fs, q: Place)
    requires Sealed(fs, q) && fs.inodes[Last(q)].node.Regular?
    ensures ContentsFrozen(fs, Last(q)) <==> !Writable(fs.inodes[Last(q)].mode)
    ensures Writable(fs.inodes[Last(q)].mode) ==> q.trail == NIX_STORE
  {
    var id := Last(q);
    var i := fs.inodes[id];
    assert Guarded(fs, q.trail[..|q.trail|], id) && q.trail[..|q.trail|] == q.trail;
    if Writable(i.mode) {
      var move := SomeWriter(i, id);
      assert Interfere(fs, [move]) == Interfere(Step(fs, move.who, move.action), []);
      assert Interfere(fs, [move]).inodes[id].node != i.node;
    } else {
      forall moves ensures var fs' := Interfere(fs, moves);
                           id in fs'.inodes && fs'.inodes[id].node == i.node
      {
        InterferenceKeepsSealed(fs, moves, q);
      }
    }
  }

  lemma OpenBits(mode: Mode)
    requires Writable(mode)
    ensures mode & 0x10 != 0 || mode & 0x2 != 0
  {
  }

  lemma SomeWriter(i: Inode, id: Id) returns (m: Move)
    requires i.node.Regular? && i.uid == 0 && Writable(i.mode)
    ensures m.who.uid != 0 && MayWrite(i, m.who)
    ensures m.action.Write? && m.action.target == id && m.action.bytes != i.node.bytes
  {
    OpenBits(i.mode);
    var groups := if i.mode & 0x10 != 0 then {i.gid} else {};
    m := Move(Actor(1, groups), Write(id, i.node.bytes + "x"));
  }

  // ----- without interference -----

  lemma {:induction false} ResolvePhysical(fs: Fs, at: Place, todo: seq<Component>, links: nat)
    requires Linked(fs, at) && NoLinks(fs, at)
    ensures var p := Resolve(fs, at, todo, true, links);
            p.Some? ==> Linked(fs, p.value) && NoLinks(fs, p.value)
    decreases links, |todo|
  {
    if todo != [] {
      match todo[0]
      case Root => ResolvePhysical(fs, Place([], [fs.root]), todo[1..], links);
      case Here => ResolvePhysical(fs, at, todo[1..], links);
      case Up =>
        ParentLinked(fs, at);
        ResolvePhysical(fs, Parent(at), todo[1..], links);
      case Normal(name) =>
        var child := Child(fs, Last(at), name);
        if child.Some? && child.value in fs.inodes {
          var target := LinkTarget(fs, child.value);
          if target.None? {
            var next := Place(at.trail + [name], at.ids + [child.value]);
            forall k | 0 <= k < |next.trail| ensures Child(fs, next.ids[k], next.trail[k]) == Some(next.ids[k + 1]) {
              assert k < |at.trail| ==> Child(fs, at.ids[k], at.trail[k]) == Some(at.ids[k + 1]);
            }
            ResolvePhysical(fs, next, todo[1..], links);
          } else if links > 0 {
            ResolvePhysical(fs, at, target.value + todo[1..], links - 1);
          }
        }
    }
  }

  lemma ParentLinked(fs: Fs, at: Place)
    requires Linked(fs, at) && NoLinks(fs, at)
    ensures Linked(fs, Parent(at)) && NoLinks(fs, Parent(at))
  {
    var q := Parent(at);
    forall k | 0 <= k < |q.trail| ensures Child(fs, q.ids[k], q.trail[k]) == Some(q.ids[k + 1]) {
      assert Child(fs, at.ids[k], at.trail[k]) == Some(at.ids[k + 1]);
    }
  }

  lemma {:induction false} QuietWalk(fs: Fs, path: seq<Component>, k: nat, links: bool)
    requires k <= |path|
    ensures var (v, w) := Walk(World(fs, []), path, k, 0, links);
            v.None? ==> w == World(fs, [])
    ensures Walk(World(fs, []), path, k, 0, links).0 == None <==>
            forall j :: k < j <= |path| ==> SafeNow(fs, path[..j], links)
    decreases |path| - k
  {
    if k < |path| {
      assert Advance(World(fs, [])) == World(fs, []);
      VerdictIsSafe(path[..k + 1], MetadataAt(fs, path[..k + 1], false), links);
      QuietWalk(fs, path, k + 1, links);
    }
  }

  lemma SealedPasses(fs: Fs, p: Place)
    requires Sealed(fs, p)
    ensures Walk(World(fs, []), Physical(p.trail), 0, 0, false).0 == None
  {
    SealedIsSafe(fs, p, false);
    QuietWalk(fs, Physical(p.trail), 0, false);
  }

  lemma SealedIsSafe(fs: Fs, p: Place, links: bool)
    requires Sealed(fs, p)
    ensures forall j :: 0 < j <= |p.trail| + 1 ==> SafeNow(fs, Physical(p.trail)[..j], links)
  {
    forall j | 0 < j <= |p.trail| + 1 ensures SafeNow(fs, Physical(p.trail)[..j], links) {
      var q := Prefix(p, j - 1);
      WalkPrefix(p.trail, j - 1);
      SealedPrefix(fs, p, j - 1);
      LocateSealed(fs, q, false);
      StoreByNames(q.trail);
      assert Guarded(fs, p.trail[..j - 1], p.ids[j - 1]);
      VerdictIsSafe(Physical(q.trail), Some(Metadata(Last(q), fs.inodes[Last(q)])), links);
    }
  }

  lemma SealedPrefix(fs: Fs, p: Place, k: nat)
    requires Sealed(fs, p) && k <= |p.trail|
    ensures Sealed(fs, Prefix(p, k))
  {
    var q := Prefix(p, k);
    forall j | 0 <= j <= k ensures Guarded(fs, q.trail[..j], q.ids[j]) {
      assert q.trail[..j] == p.trail[..j] && Guarded(fs, p.trail[..j], p.ids[j]);
    }
    forall j | 0 <= j < k ensures Child(fs, q.ids[j], q.trail[j]) == Some(q.ids[j + 1]) {
      assert Child(fs, p.ids[j], p.trail[j]) == Some(p.ids[j + 1]);
    }
  }

  /** Every component as written belongs to root and is a link or closed to group and others, or it
      is the sticky "/nix/store". */
  ghost predicate WrittenPathPasses(fs: Fs, path: seq<Component>) {
    forall j :: 0 < j <= |path| ==> SafeNow(fs, path[..j], true)
  }

  ghost predicate Acceptable(fs: Fs, raw: Bytes) {
    && Absolute(raw) && ".." !in Segments(raw)
    && WrittenPathPasses(fs, Components(raw))
    && var p := Locate(fs, Components(raw), true);
       && p.Some? && Sealed(fs, p.value) && fs.inodes[Last(p.value)].node.Regular?
       && !EndsInSlash(raw)
  }

  /** Left alone, validation accepts exactly the normalized paths whose written and resolved
      components all pass and that lead to a regular file, and it returns the resolved path. */
  lemma QuietValidation(fs: Fs, raw: Bytes)
    requires fs.root in fs.inodes && !fs.inodes[fs.root].node.Symlink?
    ensures Validate(World(fs, []), raw, 0).0.Ok? <==> Acceptable(fs, raw)
    ensures Acceptable(fs, raw) ==>
              Validate(World(fs, []), raw, 0).0 == Ok(Physical(Locate(fs, Components(raw), true).value.trail))
    ensures Validate(World(fs, []), raw, 0).0 != Err(ContainsSymlink)
  {
    AcceptableByWalk(fs, raw);
    ByWalk(fs, raw);
  }

  ghost predicate PassesWalk(fs: Fs, raw: Bytes) {
    && Normalized(raw)
    && Walk(World(fs, []), Components(raw), 0, 0, true).0 == None
    && var p := Locate(fs, Components(raw), true);
       && p.Some? && Sealed(fs, p.value) && fs.inodes[Last(p.value)].node.Regular?
       && !NamesDirectory(raw)
  }

  lemma AcceptableByWalk(fs: Fs, raw: Bytes)
    ensures Acceptable(fs, raw) <==> PassesWalk(fs, raw)
  {
    NormalizedMeansNoParent(raw);
    NamesDirectoryIff(raw);
    QuietWalk(fs, Components(raw), 0, true);
  }

  lemma ByWalk(fs: Fs, raw: Bytes)
    requires fs.root in fs.inodes && !fs.inodes[fs.root].node.Symlink?
    ensures Validate(World(fs, []), raw, 0).0.Ok? <==> PassesWalk(fs, raw)
    ensures PassesWalk(fs, raw) ==>
              Validate(World(fs, []), raw, 0).0 == Ok(Physical(Locate(fs, Components(raw), true).value.trail))
    ensures Validate(World(fs, []), raw, 0).0 != Err(ContainsSymlink)
  {
    var w := World(fs, []);
    assert Advance(w) == w;
    if Normalized(raw) {
      QuietWalk(fs, Components(raw), 0, true);
      NoSymlinkRefusal(fs, Components(raw), 0);
      var p := Locate(fs, Components(raw), true);
      ResolvePhysical(fs, Place([], [fs.root]), Components(raw), MAX_LINKS);
      if p.Some? {
        ResolvedWalk(fs, p.value);
      }
    }
  }

  lemma QuietWorld(fs: Fs, raw: Bytes)
    requires Validate(World(fs, []), raw, 0).0.Ok?
    ensures Validate(World(fs, []), raw, 0).1 == World(fs, [])
  {
    var w := World(fs, []);
    assert Advance(w) == w;
    QuietWalk(fs, Components(raw), 0, true);
    var canonical := Canonicalize(w, raw).0.value;
    QuietWalk(fs, canonical, 0, false);
  }

  /** Left alone, reading an accepted file gives its text, or says that it is too large or not UTF-8. */
  lemma QuietRead(fs: Fs, raw: Bytes)
    requires fs.root in fs.inodes && !fs.inodes[fs.root].node.Symlink? && Acceptable(fs, raw)
    ensures var id := Last(Locate(fs, Components(raw), true).value);
            !Writable(fs.inodes[id].mode) ==>
              var bytes := fs.inodes[id].node.bytes;
              ReadStrict(World(fs, []), raw, 0).0 ==
              if |bytes| > 1024 * 1024 then Err(TooLarge) else if Valid(bytes) then Ok(bytes) else Err(NotUtf8)
  {
    QuietValidation(fs, raw);
    QuietWorld(fs, raw);
    var p := Locate(fs, Components(raw), true).value;
    var q := StrictReadIsStable(World(fs, []), raw);
    SamePhysical(p.trail, q.trail);
    SamePlace(fs, p, q);
  }

  lemma {:induction false} NoSymlinkRefusal(fs: Fs, path: seq<Component>, k: nat)
    requires k <= |path|
    ensures Walk(World(fs, []), path, k, 0, true).0 != Some(ContainsSymlink)
    decreases |path| - k
  {
    if k < |path| {
      assert Advance(World(fs, [])) == World(fs, []);
      NoSymlinkRefusal(fs, path, k + 1);
    }
  }

  /** A resolved path passes the second walk exactly when it is sealed, and never for a link. */
  lemma ResolvedWalk(fs: Fs, p: Place)
    requires Linked(fs, p) && NoLinks(fs, p)
    ensures Walk(World(fs, []), Physical(p.trail), 0, 0, false).0 == None <==> Sealed(fs, p)
    ensures Walk(World(fs, []), Physical(p.trail), 0, 0, false).0 != Some(ContainsSymlink)
    ensures Sealed(fs, p) ==> Stat(World(fs, []), Physical(p.trail)).0 == Some(Metadata(Last(p), fs.inodes[Last(p)]))
    ensures Sealed(fs, p) ==> Walk(World(fs, []), Physical(p.trail), 0, 0, false).1 == World(fs, [])
  {
    var w := World(fs, []);
    assert Advance(w) == w;
    QuietWalk(fs, Physical(p.trail), 0, false);
    ResolvedWalkNoLink(fs, p, 0);
    if Sealed(fs, p) {
      SealedPasses(fs, p);
      LocateSealed(fs, p, true);
    } else if Walk(w, Physical(p.trail), 0, 0, false).0 == None {
      var q := WalkSeals(w, p.trail);
      SamePlace(fs, p, q);
    }
  }

  lemma {:induction false} SameTrailSamePlace(fs: Fs, p: Place, q: Place, k: nat)
    requires Linked(fs, p) && Linked(fs, q) && p.trail == q.trail && k <= |p.trail|
    ensures p.ids[..k + 1] == q.ids[..k + 1]
  {
    if k > 0 {
      SameTrailSamePlace(fs, p, q, k - 1);
      assert p.ids[..k][k - 1] == p.ids[k - 1] && q.ids[..k][k - 1] == q.ids[k - 1];
      assert Child(fs, p.ids[k - 1], p.trail[k - 1]) == Some(p.ids[k]);
      assert Child(fs, q.ids[k - 1], q.trail[k - 1]) == Some(q.ids[k]);
      assert p.ids[..k + 1] == p.ids[..k] + [p.ids[k]] && q.ids[..k + 1] == q.ids[..k] + [q.ids[k]];
    }
  }

  lemma SamePlace(fs: Fs, p: Place, q: Place)
    requires Linked(fs, p) && Linked(fs, q) && p.trail == q.trail
    ensures p == q
  {
    SameTrailSamePlace(fs, p, q, |p.trail|);
    assert p.ids[..|p.trail| + 1] == p.ids && q.ids[..|p.trail| + 1] == q.ids;
  }

  lemma {:induction false} ResolvedWalkNoLink(fs: Fs, p: Place, k: nat)
    requires Linked(fs, p) && NoLinks(fs, p) && k <= |p.trail| + 1
    ensures Walk(World(fs, []), Physical(p.trail), k, 0, false).0 != Some(ContainsSymlink)
    decreases |p.trail| + 1 - k
  {
    if k <= |p.trail| {
      assert Advance(World(fs, [])) == World(fs, []);
      ResolvedWalkNoLink(fs, p, k + 1);
      WalkPrefix(p.trail, k);
      var q := Prefix(p, k);
      PrefixLinked(fs, p, k);
      ResolveFromRoot(fs, q, [], false);
      assert Physical(q.trail) + [] == Physical(q.trail);
    }
  }

  lemma PrefixLinked(fs: Fs, p: Place, k: nat)
    requires Linked(fs, p) && NoLinks(fs, p) && k <= |p.trail|
    ensures Linked(fs, Prefix(p, k)) && NoLinks(fs, Prefix(p, k))
  {
    var q := Prefix(p, k);
    forall j | 0 <= j < k ensures Child(fs, q.ids[j], q.trail[j]) == Some(q.ids[j + 1]) {
      assert Child(fs, p.ids[j], p.trail[j]) == Some(p.ids[j + 1]);
    }
  }

  // ----- the store exception on a file -----

  const STORE_FILE_FS: Fs := Fs(Id(0, 1), map[
    Id(0, 1) := Inode(0, 0, 0x1ED, Directory(map["nix" := Id(0, 2)])),
    Id(0, 2) := Inode(0, 0, 0x1ED, Directory(map["store" := Id(0, 3)])),
    Id(0, 3) := Inode(0, 0, 0x3B6, Regular("key"))], {})

  /** A root-owned sticky file of mode 1666 at "/nix/store" is accepted, and others can rewrite it. */
  lemma StoreFileCounterexample(raw: Bytes)
    requires Absolute(raw) && Components(raw) == Physical(NIX_STORE) && !NamesDirectory(raw)
    ensures Validate(World(STORE_FILE_FS, []), raw, 0).0 == Ok(Physical(NIX_STORE))
    ensures !ContentsFrozen(STORE_FILE_FS, Id(0, 3))
  {
    var fs := STORE_FILE_FS;
    var p := Place(NIX_STORE, [Id(0, 1), Id(0, 2), Id(0, 3)]);
    StoreFileSealed(p);
    ContentsFrozenIffClosed(fs, p);
    LocateSealed(fs, p, true);
    SealedIsSafe(fs, p, true);
    QuietWalk(fs, Components(raw), 0, true);
    ByWalk(fs, raw);
  }

  /** A path of two names. */
  lemma PathOfTwo(a: Bytes, b: Bytes)
    requires '/' !in a && '/' !in b && a !in ["", ".", ".."] && b !in ["", ".", ".."]
    ensures var raw := "/" + (a + "/" + b);
            Absolute(raw) && Components(raw) == [Root, Normal(a), Normal(b)] && !NamesDirectory(raw)
  {
    var raw := "/" + (a + "/" + b);
    SegmentsOf(b);
    SegmentsThen(a, b);
    assert raw[1..] == a + "/" + b;
    assert Segments(raw) == [""] + [a, b];
    TwoParts(a, b);
  }

  lemma TwoParts(a: Bytes, b: Bytes)
    requires a !in ["", ".", ".."] && b !in ["", ".", ".."]
    ensures Parts([""] + [a, b]) == [Normal(a), Normal(b)]
  {
    assert ([""] + [a, b])[1..] == [a, b] && [a, b][1..] == [b] && [b][1..] == [];
    assert Parts([b]) == [Normal(b)] && Parts([a, b]) == [Normal(a)] + Parts([b]);
  }

  lemma {:induction false} SegmentsOf(name: Bytes)
    requires '/' !in name
    ensures Segments(name) == [name]
  {
    if name != "" {
      assert name[0] in name;
      SegmentsOf(name[1..]);
      assert [name[0]] + name[1..] == name;
    }
  }

  lemma {:induction false} SegmentsThen(name: Bytes, rest: Bytes)
    requires '/' !in name
    ensures Segments(name + "/" + rest) == [name] + Segments(rest)
  {
    var s := name + "/" + rest;
    if name == "" {
      assert s[1..] == rest;
    } else {
      assert name[0] in name && s[1..] == name[1..] + "/" + rest;
      SegmentsThen(name[1..], rest);
      assert [name[0]] + name[1..] == name;
    }
  }

  /** The counterexample at the path itself. */
  lemma StoreFileAccepted()
    ensures Validate(World(STORE_FILE_FS, []), "/nix/store", 0).0 == Ok(Physical(NIX_STORE))
    ensures !ContentsFrozen(STORE_FILE_FS, Id(0, 3))
  {
    StorePath("nix", "store", "/nix/store");
    StoreFileCounterexample("/nix/store");
  }

  lemma StorePath(a: Bytes, b: Bytes, raw: Bytes)
    requires a == "nix" && b == "store" && raw == "/nix/store"
    ensures Absolute(raw) && Components(raw) == Physical(NIX_STORE) && !NamesDirectory(raw)
  {
    PathOfTwo(a, b);
    assert raw == "/" + (a + "/" + b);
    assert Physical(NIX_STORE) == [Root, Normal(a), Normal(b)];
  }

  lemma StoreFileSealed(p: Place)
    requires p == Place(NIX_STORE, [Id(0, 1), Id(0, 2), Id(0, 3)])
    ensures Sealed(STORE_FILE_FS, p) && Writable(STORE_FILE_FS.inodes[Last(p)].mode)
  {
    var closed: Mode, open: Mode := 0x1ED, 0x3B6;
    assert !Writable(closed) && Writable(open) && Sticky(open);
    assert p.trail[..2] == NIX_STORE;
  }
}
