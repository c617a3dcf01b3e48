/** A small Unix file system and the steps that unprivileged processes can take in it. */
module FileSystem {
  import opened Outcomes
  import opened Utf8

  type Name = Bytes
  type Mode = bv16

  datatype Component = Root | Here | Up | Normal(name: Name)

  /** Device and inode number.  Inode numbers are reused once an inode is gone. */
  datatype Id = Id(dev: nat, ino: nat)

  datatype Node =
    | Directory(entries: map<Name, Id>)
    | Regular(bytes: Bytes)
    | Symlink(target: seq<Component>)
    | Special

  datatype Inode = Inode(uid: nat, gid: nat, mode: Mode, node: Node)

  /** `held` are the inodes that the validating process has open. */
  datatype Fs = Fs(root: Id, inodes: map<Id, Inode>, held: set<Id>)

  const STICKY: Mode := 0x200           // 0o1000
  const GROUP_OR_OTHER_WRITE: Mode := 0x12  // 0o022

  predicate Writable(mode: Mode) {
    mode & GROUP_OR_OTHER_WRITE != 0
  }

  predicate Sticky(mode: Mode) {
    mode & STICKY != 0
  }

  function Child(fs: Fs, dir: Id, name: Name): Option<Id> {
    if dir in fs.inodes && fs.inodes[dir].node.Directory? && name in fs.inodes[dir].node.entries
    then Some(fs.inodes[dir].node.entries[name]) else None
  }

  // ----- path resolution -----

  /** Where a resolution has arrived: the names from the root and the inodes on the way. */
  datatype Place = Place(trail: seq<Name>, ids: seq<Id>)

  predicate Shaped(p: Place) {
    |p.ids| == |p.trail| + 1
  }

  const MAX_LINKS: nat := 40

  function LinkTarget(fs: Fs, id: Id): Option<seq<Component>> {
    if id in fs.inodes && fs.inodes[id].node.Symlink? then Some(fs.inodes[id].node.target) else None
  }

  function Parent(p: Place): (q: Place)
    requires Shaped(p)
    ensures Shaped(q)
  {
    if p.trail == [] then p else Place(p.trail[..|p.trail| - 1], p.ids[..|p.trail|])
  }

  function Resolve(fs: Fs, at: Place, todo: seq<Component>, followLast: bool, links: nat): (r: Option<Place>)
    requires Shaped(at)
    ensures r.Some? ==> Shaped(r.value)
    decreases links, |todo|
  {
    if todo == [] then Some(at)
    else
      match todo[0]
      case Root => Resolve(fs, Place([], [fs.root]), todo[1..], followLast, links)
      case Here => Resolve(fs, at, todo[1..], followLast, links)
      case Up => Resolve(fs, Parent(at), todo[1..], followLast, links)
      case Normal(name) =>
        var child := Child(fs, at.ids[|at.trail|], name);
        if child.None? || child.value !in fs.inodes then None
        else
          var target := LinkTarget(fs, child.value);
          if target.None? || (|todo| == 1 && !followLast) then
            Resolve(fs, Place(at.trail + [name], at.ids + [child.value]), todo[1..], followLast, links)
          else if links == 0 then None
          else Resolve(fs, at, target.value + todo[1..], followLast, links - 1)
  }

  function Locate(fs: Fs, path: seq<Component>, followLast: bool): (r: Option<Place>)
    ensures r.Some? ==> Shaped(r.value)
  {
    Resolve(fs, Place([], [fs.root]), path, followLast, MAX_LINKS)
  }

  function Last(p: Place): Id
    requires Shaped(p)
  {
    p.ids[|p.trail|]
  }

  // ----- what an unprivileged process may do -----

  datatype Actor = Actor(uid: nat, groups: set<nat>)

  datatype Action =
    | Write(target: Id, bytes: Bytes)
    | SetMode(target: Id, mode: Mode)
    | SetGroup(target: Id, gid: nat)
    | Create(dir: Id, name: Name, id: Id, gid: nat, mode: Mode, node: Node)
    | HardLink(dir: Id, name: Name, target: Id)
    | Remove(dir: Id, name: Name)
    | Rename(dir: Id, name: Name, toDir: Id, toName: Name)
    | Reclaim(id: Id)

  /** The write bit of the class that the actor falls in. */
  predicate MayWrite(i: Inode, who: Actor) {
    if who.uid == i.uid then i.mode & 0x80 != 0
    else if i.gid in who.groups then i.mode & 0x10 != 0
    else i.mode & 0x2 != 0
  }

  predicate MayChangeDirectory(fs: Fs, dir: Id, who: Actor) {
    dir in fs.inodes && fs.inodes[dir].node.Directory? && MayWrite(fs.inodes[dir], who)
  }

  /** In a sticky directory an entry belongs to its owner and to the owner of the directory. */
  predicate MayRemove(fs: Fs, dir: Id, name: Name, who: Actor) {
    && MayChangeDirectory(fs, dir, who)
    && Child(fs, dir, name).Some?
    && (Sticky(fs.inodes[dir].mode) ==>
          || who.uid == fs.inodes[dir].uid
          || (var c := Child(fs, dir, name).value; c !in fs.inodes || fs.inodes[c].uid == who.uid))
  }

  predicate Owns(fs: Fs, id: Id, who: Actor) {
    id in fs.inodes && fs.inodes[id].uid == who.uid
  }

  predicate Referenced(fs: Fs, id: Id) {
    || id == fs.root || id in fs.held
    || exists d :: d in fs.inodes && fs.inodes[d].node.Directory? && id in fs.inodes[d].node.entries.Values
  }

  /** Whether the kernel lets `who` take the step.  Search permission on the way to a directory
      is not asked for, and removing a non-empty directory is allowed: both make the actor stronger. */
  predicate Permitted(fs: Fs, who: Actor, a: Action) {
    match a
    case Write(t, _) => t in fs.inodes && fs.inodes[t].node.Regular? && MayWrite(fs.inodes[t], who)
    case SetMode(t, _) => Owns(fs, t, who)
    case SetGroup(t, _) => Owns(fs, t, who)
    case Create(d, n, id, _, _, node) =>
      MayChangeDirectory(fs, d, who) && Child(fs, d, n).None? && id !in fs.inodes
      && (node.Directory? ==> node.entries == map[])
    case HardLink(d, n, t) =>
      MayChangeDirectory(fs, d, who) && Child(fs, d, n).None? && t in fs.inodes && !fs.inodes[t].node.Directory?
    case Remove(d, n) => MayRemove(fs, d, n, who)
    case Rename(d, n, td, tn) =>
      && MayRemove(fs, d, n, who) && MayChangeDirectory(fs, td, who)
      && (Child(fs, td, tn).Some? ==> MayRemove(fs, td, tn, who))
    case Reclaim(id) => id in fs.inodes && !Referenced(fs, id)
  }

  function WithEntries(fs: Fs, dir: Id, entries: map<Name, Id>): Fs
    requires dir in fs.inodes
  {
    fs.(inodes := fs.inodes[dir := fs.inodes[dir].(node := Directory(entries))])
  }

  function Bind(fs: Fs, dir: Id, name: Name, id: Id): Fs {
    if dir in fs.inodes && fs.inodes[dir].node.Directory?
    then WithEntries(fs, dir, fs.inodes[dir].node.entries[name := id]) else fs
  }

  function Unbind(fs: Fs, dir: Id, name: Name): Fs {
    if dir in fs.inodes && fs.inodes[dir].node.Directory?
    then WithEntries(fs, dir, fs.inodes[dir].node.entries - {name}) else fs
  }

  function Effect(fs: Fs, who: Actor, a: Action): Fs {
    match a
    case Write(t, bytes) =>
      if t in fs.inodes then fs.(inodes := fs.inodes[t := fs.inodes[t].(node := Regular(bytes))]) else fs
    case SetMode(t, mode) =>
      if t in fs.inodes then fs.(inodes := fs.inodes[t := fs.inodes[t].(mode := mode)]) else fs
    case SetGroup(t, gid) =>
      if t in fs.inodes then fs.(inodes := fs.inodes[t := fs.inodes[t].(gid := gid)]) else fs
    case Create(d, n, id, gid, mode, node) =>
      Bind(fs.(inodes := fs.inodes[id := Inode(who.uid, gid, mode, node)]), d, n, id)
    case HardLink(d, n, t) => Bind(fs, d, n, t)
    case Remove(d, n) => Unbind(fs, d, n)
    case Rename(d, n, td, tn) =>
      var c := Child(fs, d, n);
      if c.None? then fs else Bind(Unbind(fs, d, n), td, tn, c.value)
    case Reclaim(id) => fs.(inodes := fs.inodes - {id})
  }

  /** One step of another process.  Root's own steps are outside the model, and a step that the
      kernel refuses changes nothing. */
  function Step(fs: Fs, who: Actor, a: Action): Fs {
    if who.uid != 0 && Permitted(fs, who, a) then Effect(fs, who, a) else fs
  }

  datatype Move = Move(who: Actor, action: Action)

  function Interfere(fs: Fs, moves: seq<Move>): Fs
    decreases |moves|
  {
    if moves == [] then fs else Interfere(Step(fs, moves[0].who, moves[0].action), moves[1..])
  }
}
