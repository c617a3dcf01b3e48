/** Strict trust-path validation and the bounded read that follows it: src/filter.rs. */
module TrustPath {
  import opened Outcomes
  import opened Utf8
  import opened FileSystem
  import opened SealedPaths
  import opened Timing

  // ----- the world between two system calls -----

  /** Before each system call other processes take `moves`; the call itself may fail, and a read
      returns at most `chunk` bytes. */
  datatype Turn = Turn(moves: seq<Move>, fault: bool, chunk: nat)

  datatype World = World(fs: Fs, turns: seq<Turn>)

  function Upcoming(w: World): Turn {
    if w.turns == [] then Turn([], false, 0) else w.turns[0]
  }

  function Advance(w: World): World {
    World(Interfere(w.fs, Upcoming(w).moves), if w.turns == [] then [] else w.turns[1..])
  }

  datatype Metadata = Metadata(id: Id, inode: Inode)

  function MetadataAt(fs: Fs, path: seq<Component>, followLast: bool): Option<Metadata> {
    var p := Locate(fs, path, followLast);
    if p.Some? && Last(p.value) in fs.inodes then Some(Metadata(Last(p.value), fs.inodes[Last(p.value)]))
    else None
  }

  function Lstat(w: World, path: seq<Component>): (Option<Metadata>, World) {
    var w1 := Advance(w);
    (if Upcoming(w).fault then None else MetadataAt(w1.fs, path, false), w1)
  }

  function Stat(w: World, path: seq<Component>): (Option<Metadata>, World) {
    var w1 := Advance(w);
    (if Upcoming(w).fault then None else MetadataAt(w1.fs, path, true), w1)
  }

  /** The descriptor keeps the inode from being reclaimed. */
  function Open(w: World, path: seq<Component>): (Option<Id>, World) {
    var w1 := Advance(w);
    var m := if Upcoming(w).fault then None else MetadataAt(w1.fs, path, true);
    if m.None? then (None, w1)
    else (Some(m.value.id), w1.(fs := w1.fs.(held := w1.fs.held + {m.value.id})))
  }

  function Fstat(w: World, id: Id): (Option<Metadata>, World) {
    var w1 := Advance(w);
    (if Upcoming(w).fault || id !in w1.fs.inodes then None else Some(Metadata(id, w1.fs.inodes[id])), w1)
  }

  /** A read at `offset`: at least one byte unless the file ends there. */
  function Read(w: World, id: Id, offset: nat, room: nat): (r: (Option<Bytes>, World))
    ensures r.0.Some? ==> |r.0.value| <= room
  {
    var w1 := Advance(w);
    if Upcoming(w).fault || id !in w1.fs.inodes || !w1.fs.inodes[id].node.Regular? then (None, w1)
    else
      var bytes := w1.fs.inodes[id].node.bytes;
      if offset >= |bytes| || room == 0 then (Some(""), w1)
      else
        var n := Least(Least(if Upcoming(w).chunk == 0 then 1 else Upcoming(w).chunk, room), |bytes| - offset);
        (Some(bytes[offset..offset + n]), w1)
  }

  // ----- paths as they are written -----

  function Segments(raw: Bytes): (r: seq<Bytes>)
    ensures |r| > 0
  {
    if raw == "" then [""]
    else
      var rest := Segments(raw[1..]);
      if raw[0] == '/' then [""] + rest else [[raw[0]] + rest[0]] + rest[1..]
  }

  /** A segment as a path component; empty segments and "." inside a path vanish. */
  function Parts(segments: seq<Bytes>): seq<Component> {
    if segments == [] then []
    else
      var rest := Parts(segments[1..]);
      match segments[0]
      case "" => rest
      case "." => rest
      case ".." => [Up] + rest
      case _ => [Normal(segments[0])] + rest
  }

  function Components(raw: Bytes): seq<Component> {
    var s := Segments(raw);
    if Absolute(raw) then [Root] + Parts(s)
    else if s[0] == "." then [Here] + Parts(s[1..])
    else Parts(s)
  }

  /** The kernel takes a path that ends in '/' or "/." for a directory. */
  predicate NamesDirectory(raw: Bytes) {
    var s := Segments(raw);
    |s| > 1 && s[|s| - 1] in ["", "."]
  }

  predicate Normalized(raw: Bytes) {
    Absolute(raw) && Here !in Components(raw) && Up !in Components(raw)
  }

  function Names(trail: seq<Name>): (r: seq<Component>)
    ensures |r| == |trail| && forall k :: 0 <= k < |trail| ==> r[k] == Normal(trail[k])
  {
    seq(|trail|, k requires 0 <= k < |trail| => Normal(trail[k]))
  }

  function Physical(trail: seq<Name>): seq<Component> {
    [Root] + Names(trail)
  }

  function Canonicalize(w: World, raw: Bytes): (Option<seq<Component>>, World) {
    var w1 := Advance(w);
    var p := Locate(w1.fs, Components(raw), true);
    if Upcoming(w).fault || p.None? then (None, w1)
    else if NamesDirectory(raw) &&
            !(Last(p.value) in w1.fs.inodes && w1.fs.inodes[Last(p.value)].node.Directory?) then (None, w1)
    else (Some(Physical(p.value.trail)), w1)
  }

  // ----- the validation, call by call -----

  datatype Refusal = NotNormalized | NotFound | WrongOwner | ContainsSymlink | OthersMayWrite
                   | NotRegular | ChangedWhileOpening | Unreadable | TooLarge | NotUtf8

  function StoreComponents(): seq<Component> {
    [Root, Normal("nix"), Normal("store")]
  }

  predicate ModePasses(path: seq<Component>, mode: Mode) {
    !Writable(mode) || (path == StoreComponents() && Sticky(mode))
  }

  /** What the walk says about one component. */
  function Verdict(path: seq<Component>, m: Option<Metadata>, uid: nat, allowSymlink: bool): Option<Refusal> {
    if m.None? then Some(NotFound)
    else if m.value.inode.uid != uid then Some(WrongOwner)
    else if m.value.inode.node.Symlink? then if allowSymlink then None else Some(ContainsSymlink)
    else if !ModePasses(path, m.value.inode.mode) then Some(OthersMayWrite)
    else None
  }

  function Walk(w: World, path: seq<Component>, k: nat, uid: nat, allowSymlink: bool): (Option<Refusal>, World)
    requires k <= |path|
    decreases |path| - k
  {
    if k == |path| then (None, w)
    else
      var (m, w1) := Lstat(w, path[..k + 1]);
      var v := Verdict(path[..k + 1], m, uid, allowSymlink);
      if v.Some? then (v, w1) else Walk(w1, path, k + 1, uid, allowSymlink)
  }

  function Validate(w: World, raw: Bytes, uid: nat): (Result<seq<Component>, Refusal>, World) {
    if !Normalized(raw) then (Err(NotNormalized), w)
    else
      var (v1, w1) := Walk(w, Components(raw), 0, uid, true);
      if v1.Some? then (Err(v1.value), w1)
      else
        var (canonical, w2) := Canonicalize(w1, raw);
        if canonical.None? then (Err(NotFound), w2)
        else
          var (v2, w3) := Walk(w2, canonical.value, 0, uid, false);
          if v2.Some? then (Err(v2.value), w3)
          else
            var (m, w4) := Stat(w3, canonical.value);
            if m.None? then (Err(NotFound), w4)
            else if !m.value.inode.node.Regular? then (Err(NotRegular), w4)
            else (Ok(canonical.value), w4)
  }

  const MAX_POLICY_BYTES: nat := 1024 * 1024

  function ReadToEnd(w: World, id: Id, acc: Bytes): (Option<Bytes>, World)
    requires |acc| <= MAX_POLICY_BYTES + 1
    decreases MAX_POLICY_BYTES + 1 - |acc|
  {
    if |acc| == MAX_POLICY_BYTES + 1 then (Some(acc), w)
    else
      var (chunk, w1) := Read(w, id, |acc|, MAX_POLICY_BYTES + 1 - |acc|);
      if chunk.None? then (None, w1)
      else if chunk.value == "" then (Some(acc), w1)
      else ReadToEnd(w1, id, acc + chunk.value)
  }

  /** What the bytes of a whole file are worth. */
  function PolicyText(bytes: Bytes): Result<Bytes, Refusal> {
    if |bytes| > MAX_POLICY_BYTES then Err(TooLarge)
    else if !Valid(bytes) then Err(NotUtf8)
    else Ok(bytes)
  }

  function ReadBoundedSpec(w: World, id: Id): (Result<Bytes, Refusal>, World) {
    var (bytes, w1) := ReadToEnd(w, id, "");
    (if bytes.None? then Err(Unreadable) else PolicyText(bytes.value), w1)
  }

  function OpenChecked(w: World, canonical: seq<Component>): (Result<Id, Refusal>, World) {
    var (expected, w1) := Stat(w, canonical);
    if expected.None? then (Err(NotFound), w1)
    else
      var (file, w2) := Open(w1, canonical);
      if file.None? then (Err(NotFound), w2)
      else
        var (actual, w3) := Fstat(w2, file.value);
        if actual.None? then (Err(NotFound), w3)
        else if expected.value.id != actual.value.id then (Err(ChangedWhileOpening), w3)
        else (Ok(file.value), w3)
  }

  function ReadStrict(w: World, raw: Bytes, uid: nat): (Result<Bytes, Refusal>, World) {
    var (canonical, w1) := Validate(w, raw, uid);
    if canonical.Err? then (Err(canonical.error), w1)
    else
      var (file, w2) := OpenChecked(w1, canonical.value);
      if file.Err? then (Err(file.error), w2)
      else ReadBoundedSpec(w2, file.value)
  }

  // ----- the code, against a kernel that other processes use at the same time -----

  class Kernel {
    var world: World

    constructor (world: World)
      ensures this.world == world
    {
      this.world := world;
    }

    method SymlinkMetadata(path: seq<Component>) returns (r: Option<Metadata>)
      modifies this
      ensures (r, world) == Lstat(old(world), path)
    {
      var (m, w) := Lstat(world, path);
      world := w;
      return m;
    }

    method FileMetadata(path: seq<Component>) returns (r: Option<Metadata>)
      modifies this
      ensures (r, world) == Stat(old(world), path)
    {
      var (m, w) := Stat(world, path);
      world := w;
      return m;
    }

    method RealPath(raw: Bytes) returns (r: Option<seq<Component>>)
      modifies this
      ensures (r, world) == Canonicalize(old(world), raw)
    {
      var (c, w) := Canonicalize(world, raw);
      world := w;
      return c;
    }

    method OpenFile(path: seq<Component>) returns (r: Option<Id>)
      modifies this
      ensures (r, world) == Open(old(world), path)
    {
      var (f, w) := Open(world, path);
      world := w;
      return f;
    }

    method DescriptorMetadata(id: Id) returns (r: Option<Metadata>)
      modifies this
      ensures (r, world) == Fstat(old(world), id)
    {
      var (m, w) := Fstat(world, id);
      world := w;
      return m;
    }

    method ReadFrom(id: Id, offset: nat, room: nat) returns (r: Option<Bytes>)
      modifies this
      ensures (r, world) == Read(old(world), id, offset, room)
    {
      var (b, w) := Read(world, id, offset, room);
      world := w;
      return b;
    }
  }

  method ValidateComponents(kernel: Kernel, path: seq<Component>, uid: nat, allowSymlink: bool)
    returns (r: Option<Refusal>)
    modifies kernel
    ensures (r, kernel.world) == Walk(old(kernel.world), path, 0, uid, allowSymlink)
  {
    var current: seq<Component> := [];
    for k := 0 to |path|
      invariant current == path[..k]
      invariant Walk(kernel.world, path, k, uid, allowSymlink) == Walk(old(kernel.world), path, 0, uid, allowSymlink)
    {
      current := current + [path[k]];
      assert current == path[..k + 1];
      var metadata := kernel.SymlinkMetadata(current);
      if metadata.None? {
        return Some(NotFound);
      }
      if metadata.value.inode.uid != uid {
        return Some(WrongOwner);
      }
      if metadata.value.inode.node.Symlink? {
        if !allowSymlink {
          return Some(ContainsSymlink);
        }
        continue;
      }
      if !ModePasses(current, metadata.value.inode.mode) {
        return Some(OthersMayWrite);
      }
    }
    return None;
  }

  method ValidateTrustPath(kernel: Kernel, raw: Bytes, uid: nat) returns (r: Result<seq<Component>, Refusal>)
    modifies kernel
    ensures (r, kernel.world) == Validate(old(kernel.world), raw, uid)
  {
    if !Absolute(raw) || Here in Components(raw) || Up in Components(raw) {
      return Err(NotNormalized);
    }
    var refusal := ValidateComponents(kernel, Components(raw), uid, true);
    if refusal.Some? { return Err(refusal.value); }
    var canonical := kernel.RealPath(raw);
    if canonical.None? { return Err(NotFound); }
    refusal := ValidateComponents(kernel, canonical.value, uid, false);
    if refusal.Some? { return Err(refusal.value); }
    var metadata := kernel.FileMetadata(canonical.value);
    if metadata.None? { return Err(NotFound); }
    if !metadata.value.inode.node.Regular? { return Err(NotRegular); }
    return Ok(canonical.value);
  }

  method ReadBounded(kernel: Kernel, id: Id) returns (r: Result<Bytes, Refusal>)
    modifies kernel
    ensures (r, kernel.world) == ReadBoundedSpec(old(kernel.world), id)
  {
    var bytes := "";
    while |bytes| < MAX_POLICY_BYTES + 1
      invariant |bytes| <= MAX_POLICY_BYTES + 1
      invariant ReadToEnd(kernel.world, id, bytes) == ReadToEnd(old(kernel.world), id, "")
    {
      var chunk := kernel.ReadFrom(id, |bytes|, MAX_POLICY_BYTES + 1 - |bytes|);
      if chunk.None? { return Err(Unreadable); }
      if chunk.value == "" {
        return PolicyText(bytes);
      }
      bytes := bytes + chunk.value;
    }
    if |bytes| > MAX_POLICY_BYTES { return Err(TooLarge); }
    return PolicyText(bytes);
  }

  method ReadStrictFile(kernel: Kernel, raw: Bytes, uid: nat) returns (r: Result<Bytes, Refusal>)
    modifies kernel
    ensures (r, kernel.world) == ReadStrict(old(kernel.world), raw, uid)
  {
    var canonical := ValidateTrustPath(kernel, raw, uid);
    if canonical.Err? { return Err(canonical.error); }
    var expected := kernel.FileMetadata(canonical.value);
    if expected.None? { return Err(NotFound); }
    var file := kernel.OpenFile(canonical.value);
    if file.None? { return Err(NotFound); }
    var actual := kernel.DescriptorMetadata(file.value);
    if actual.None? { return Err(NotFound); }
    if expected.value.id.dev != actual.value.id.dev || expected.value.id.ino != actual.value.id.ino {
      return Err(ChangedWhileOpening);
    }
    r := ReadBounded(kernel, file.value);
  }
}
