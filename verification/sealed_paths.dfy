/** What unprivileged steps cannot change: a path whose every component is root's and closed to
    other writers.  The induction behind src/filter.rs, validate_components. */
module SealedPaths {
  import opened Outcomes
  import opened Utf8
  import opened FileSystem

  const NIX_STORE: seq<Name> := ["nix", "store"]

  /** `validate_mode`: closed to group and others, or the sticky store directory itself. */
  predicate ModeAllowed(names: seq<Name>, mode: Mode) {
    !Writable(mode) || (names == NIX_STORE && Sticky(mode))
  }

  /** Following `trail` by name from the root passes through `ids`. */
  predicate Linked(fs: Fs, p: Place) {
    && Shaped(p) && p.ids[0] == fs.root
    && (forall k :: 0 <= k <= |p.trail| ==> p.ids[k] in fs.inodes)
    && (forall k :: 0 <= k < |p.trail| ==> Child(fs, p.ids[k], p.trail[k]) == Some(p.ids[k + 1]))
  }

  predicate Guarded(fs: Fs, names: seq<Name>, id: Id) {
    && id in fs.inodes
    && fs.inodes[id].uid == 0
    && !fs.inodes[id].node.Symlink?
    && ModeAllowed(names, fs.inodes[id].mode)
  }

  /** The whole path has passed the walk for uid 0. */
  predicate Sealed(fs: Fs, p: Place) {
    && Linked(fs, p)
    && forall k :: 0 <= k <= |p.trail| ==> Guarded(fs, p.trail[..k], p.ids[k])
  }

  // ----- one step -----

  lemma NotWritableBits(mode: Mode)
    requires !Writable(mode)
    ensures mode & 0x10 == 0 && mode & 0x2 == 0
  {
  }

  lemma ClosedToOthers(i: Inode, who: Actor)
    requires i.uid == 0 && who.uid != 0 && !Writable(i.mode)
    ensures !MayWrite(i, who)
  {
    NotWritableBits(i.mode);
  }

  /** The parts of an inode that a step leaves alone when root owns the inode. */
  ghost predicate Kept(fs: Fs, fs': Fs, id: Id)
    requires id in fs.inodes
  {
    && id in fs'.inodes
    && fs'.inodes[id].uid == fs.inodes[id].uid
    && fs'.inodes[id].mode == fs.inodes[id].mode
    && fs'.inodes[id].node.Directory? == fs.inodes[id].node.Directory?
    && fs'.inodes[id].node.Symlink? == fs.inodes[id].node.Symlink?
    && fs'.inodes[id].node.Regular? == fs.inodes[id].node.Regular?
    && (!Writable(fs.inodes[id].mode) ==> fs'.inodes[id].node == fs.inodes[id].node)
  }

  lemma BindKeeps(fs: Fs, d: Id, n: Name, c: Id, id: Id)
    requires id in fs.inodes && (id == d ==> Writable(fs.inodes[id].mode))
    ensures Kept(fs, Bind(fs, d, n, c), id)
  {
  }

  lemma UnbindKeeps(fs: Fs, d: Id, n: Name, id: Id)
    requires id in fs.inodes && (id == d ==> Writable(fs.inodes[id].mode))
    ensures Kept(fs, Unbind(fs, d, n), id)
  {
  }

  lemma StepKeepsInode(fs: Fs, who: Actor, a: Action, id: Id)
    requires id in fs.inodes && fs.inodes[id].uid == 0 && Referenced(fs, id)
    ensures Kept(fs, Step(fs, who, a), id)
    ensures Step(fs, who, a).root == fs.root && Step(fs, who, a).held == fs.held
  {
    if who.uid != 0 && Permitted(fs, who, a) {
      if !Writable(fs.inodes[id].mode) {
        ClosedToOthers(fs.inodes[id], who);
      }
      match a
      case Write(t, bytes) =>
      case SetMode(t, mode) =>
      case SetGroup(t, gid) =>
      case Create(d, n, new', gid, mode, node) =>
        BindKeeps(fs.(inodes := fs.inodes[new' := Inode(who.uid, gid, mode, node)]), d, n, new', id);
      case HardLink(d, n, t) => BindKeeps(fs, d, n, t, id);
      case Remove(d, n) => UnbindKeeps(fs, d, n, id);
      case Rename(d, n, td, tn) =>
        UnbindKeeps(fs, d, n, id);
        BindKeeps(Unbind(fs, d, n), td, tn, Child(fs, d, n).value, id);
      case Reclaim(r) =>
    }
  }

  /** A directory entry of root's directory that leads to root's inode stays, even where others
      may write to the directory, as long as the directory is then sticky. */
  lemma StepKeepsEntry(fs: Fs, who: Actor, a: Action, dir: Id, name: Name, child: Id)
    requires dir in fs.inodes && fs.inodes[dir].uid == 0 && Referenced(fs, dir)
    requires Writable(fs.inodes[dir].mode) ==> Sticky(fs.inodes[dir].mode)
    requires Child(fs, dir, name) == Some(child) && child in fs.inodes && fs.inodes[child].uid == 0
    ensures Child(Step(fs, who, a), dir, name) == Some(child)
  {
    StepKeepsInode(fs, who, a, dir);
    if !Writable(fs.inodes[dir].mode) {
    } else if who.uid != 0 && Permitted(fs, who, a) {
      assert !MayRemove(fs, dir, name, who);
      match a
      case Write(t, bytes) =>
      case SetMode(t, mode) =>
      case SetGroup(t, gid) =>
      case Create(d, n, new', gid, mode, node) =>
      case HardLink(d, n, t) =>
      case Remove(d, n) =>
      case Rename(d, n, td, tn) =>
        assert (d, n) != (dir, name) && (td, tn) != (dir, name);
      case Reclaim(r) =>
    }
  }

  lemma LinkedReferenced(fs: Fs, p: Place, k: nat)
    requires Linked(fs, p) && k <= |p.trail|
    ensures Referenced(fs, p.ids[k])
  {
    if k > 0 {
      var d := p.ids[k - 1];
      assert Child(fs, d, p.trail[k - 1]) == Some(p.ids[k]);
      assert p.trail[k - 1] in fs.inodes[d].node.entries;
    }
  }

  /** No step of an unprivileged process unseals a path or moves it to other inodes. */
  lemma StepKeepsSealed(fs: Fs, who: Actor, a: Action, p: Place)
    requires Sealed(fs, p)
    ensures Sealed(Step(fs, who, a), p)
    ensures forall k :: 0 <= k <= |p.trail| ==> Kept(fs, Step(fs, who, a), p.ids[k])
  {
    var fs' := Step(fs, who, a);
    forall k | 0 <= k <= |p.trail| ensures Kept(fs, fs', p.ids[k]) && fs'.root == fs.root {
      assert Guarded(fs, p.trail[..k], p.ids[k]);
      LinkedReferenced(fs, p, k);
      StepKeepsInode(fs, who, a, p.ids[k]);
    }
    assert fs'.root == fs.root by { assert Kept(fs, fs', p.ids[0]); }
    forall k | 0 <= k < |p.trail| ensures Child(fs', p.ids[k], p.trail[k]) == Some(p.ids[k + 1]) {
      assert Guarded(fs, p.trail[..k], p.ids[k]) && Guarded(fs, p.trail[..k + 1], p.ids[k + 1]);
      LinkedReferenced(fs, p, k);
      StepKeepsEntry(fs, who, a, p.ids[k], p.trail[k], p.ids[k + 1]);
    }
    forall k | 0 <= k <= |p.trail| ensures Guarded(fs', p.trail[..k], p.ids[k]) {
      assert Guarded(fs, p.trail[..k], p.ids[k]) && Kept(fs, fs', p.ids[k]);
    }
  }

  /** Nor does any sequence of such steps. */
  lemma {:induction false} InterferenceKeepsSealed(fs: Fs, moves: seq<Move>, p: Place)
    requires Sealed(fs, p)
    ensures Sealed(Interfere(fs, moves), p)
    ensures Kept(fs, Interfere(fs, moves), Last(p))
    decreases |moves|
  {
    if moves != [] {
      var fs1 := Step(fs, moves[0].who, moves[0].action);
      StepKeepsSealed(fs, moves[0].who, moves[0].action, p);
      InterferenceKeepsSealed(fs1, moves[1..], p);
    }
  }

  // ----- exactly which entries are out of reach -----

  /** The entry is in root's directory, and that is closed to others or keeps root's inodes. */
  predicate Firm(fs: Fs, dir: Id, name: Name, child: Id) {
    && dir in fs.inodes && fs.inodes[dir].uid == 0 && Child(fs, dir, name) == Some(child)
    && (Writable(fs.inodes[dir].mode) ==>
          Sticky(fs.inodes[dir].mode) && child in fs.inodes && fs.inodes[child].uid == 0)
  }

  lemma {:induction false} FirmStays(fs: Fs, moves: seq<Move>, dir: Id, name: Name, child: Id)
    requires Firm(fs, dir, name, child) && (dir == fs.root || dir in fs.held)
    ensures Child(Interfere(fs, moves), dir, name) == Some(child)
    decreases |moves|
  {
    if moves != [] {
      var who, a := moves[0].who, moves[0].action;
      StepKeepsInode(fs, who, a, dir);
      if Writable(fs.inodes[dir].mode) {
        assert child in fs.inodes[dir].node.entries.Values;
        StepKeepsInode(fs, who, a, child);
        StepKeepsEntry(fs, who, a, dir, name, child);
      }
      FirmStays(Step(fs, who, a), moves[1..], dir, name, child);
    }
  }

  /** Some unprivileged process that may write to an inode of root's with an open mode. */
  lemma SomeGroup(i: Inode, uid: nat) returns (who: Actor)
    requires i.uid == 0 && Writable(i.mode) && uid != 0
    ensures who.uid == uid && MayWrite(i, who)
  {
    var mode := i.mode;
    assert mode & 0x10 != 0 || mode & 0x2 != 0;
    who := Actor(uid, if mode & 0x10 != 0 then {i.gid} else {});
  }

  lemma LooseGoes(fs: Fs, dir: Id, name: Name, child: Id) returns (moves: seq<Move>)
    requires Child(fs, dir, name) == Some(child) && !Firm(fs, dir, name, child)
    ensures Child(Interfere(fs, moves), dir, name) == None
  {
    var i := fs.inodes[dir];
    var remove := Remove(dir, name);
    if i.uid != 0 {
      var who, open: Mode := Actor(i.uid, {}), 0x1FF;
      assert open & 0x80 != 0 && !Sticky(open);
      var fs1 := Step(fs, who, SetMode(dir, open));
      assert Step(fs1, who, remove) == Unbind(fs1, dir, name);
      moves := [Move(who, SetMode(dir, open)), Move(who, remove)];
      assert Interfere(fs1, moves[1..]) == Interfere(Step(fs1, who, remove), moves[1..][1..]);
    } else {
      var uid := if child in fs.inodes && fs.inodes[child].uid != 0 then fs.inodes[child].uid else 1;
      var who := SomeGroup(i, uid);
      assert Step(fs, who, remove) == Unbind(fs, dir, name);
      moves := [Move(who, remove)];
    }
  }

  /** Unprivileged processes can never change an entry of an open directory exactly when it is root's
      and closed to them, or sticky with the entry leading to an inode of root's. */
  lemma EntryStaysIff(fs: Fs, dir: Id, name: Name, child: Id)
    requires Child(fs, dir, name) == Some(child) && (dir == fs.root || dir in fs.held)
    ensures (forall moves :: Child(Interfere(fs, moves), dir, name) == Some(child)) <==>
            fs.inodes[dir].uid == 0 &&
            (fs.inodes[dir].mode & 0x12 == 0 ||
             (fs.inodes[dir].mode & 0x200 != 0 && child in fs.inodes && fs.inodes[child].uid == 0))
  {
    if Firm(fs, dir, name, child) {
      forall moves ensures Child(Interfere(fs, moves), dir, name) == Some(child) {
        FirmStays(fs, moves, dir, name, child);
      }
    } else {
      var moves := LooseGoes(fs, dir, name, child);
    }
  }
}
