/** Where the trust of a strict policy comes from: src/filter.rs, new_with_mode down to
    validate_components, against a file system that others use at the same time. */
module StrictPolicy {
  import opened Outcomes
  import opened Utf8
  import opened FileSystem
  import opened SealedPaths
  import opened TrustPath
  import opened TrustPathFacts
  import opened Policy

  function AsSource(r: Result<Bytes, Refusal>): Source {
    if r.Ok? then Text(r.value) else Unavailable
  }

  /** The sources of a strict load; the helper's output is given. */
  function StrictSources(w: World, file: Bytes, caFile: Option<Bytes>, output: Option<Source>): Sources {
    var (r, w1) := ReadStrict(w, file, 0);
    Sources(AsSource(r), if caFile.None? then None else Some(AsSource(ReadStrict(w1, caFile.value, 0).0)), output)
  }

  /** The path named `raw` was resolved to `q`, which only root can rebind to another inode, and the
      line stands in its file, which only root can change.  The one file that others may be able to
      change is "/nix/store". */
  ghost predicate RootsLine(w: World, raw: Bytes, q: Place, lines: Bytes -> seq<Line>, line: Line) {
    var fs := ReadStrict(w, raw, 0).1.fs;
    && Validate(w, raw, 0).0 == Ok(Physical(q.trail))
    && Sealed(fs, q) && fs.inodes[Last(q)].node.Regular?
    && (Writable(fs.inodes[Last(q)].mode) ==> q.trail == NIX_STORE)
    && (!Writable(fs.inodes[Last(q)].mode) ==>
          ContentsFrozen(fs, Last(q)) && line in lines(fs.inodes[Last(q)].node.bytes))
  }

  /** A line that a strict read yields is still root's when the read is over. */
  lemma StrictLineIsRoots(w: World, raw: Bytes, lines: Bytes -> seq<Line>, line: Line) returns (q: Place)
    requires SourceLine(Some(AsSource(ReadStrict(w, raw, 0).0)), lines, line)
    ensures RootsLine(w, raw, q, lines, line)
  {
    q := StrictReadIsStable(w, raw);
    ContentsFrozenIffClosed(ReadStrict(w, raw, 0).1.fs, q);
  }

  /** Every key that a strict load trusts stands, in a line without `cert-authority`, in root's key
      file or in the helper's output, whatever unprivileged processes did meanwhile. */
  lemma StrictKeyIsRoots(w: World, file: Bytes, caFile: Option<Bytes>, output: Option<Source>,
                         lines: Bytes -> seq<Line>, key: KeyData)
    returns (line: Line, q: Place)
    requires var f := Load(StrictSources(w, file, caFile, output), Strict, lines); f.Ok? && key in f.value.keys
    ensures line.Parsed? && line.key == key && CERT_AUTHORITY !in line.options
    ensures RootsLine(w, file, q, lines, line) || SourceLine(output, lines, line)
  {
    var s := StrictSources(w, file, caFile, output);
    LoadTrusts(s, Strict, lines, key);
    line :| (SourceLine(Some(s.file), lines, line) || SourceLine(s.command, lines, line)) &&
            line.Parsed? && line.key == key && CERT_AUTHORITY !in line.options;
    q := Place([], []);
    if SourceLine(Some(s.file), lines, line) {
      q := StrictLineIsRoots(w, file, lines, line);
    }
  }

  /** The line makes its key an authority: any line of the CA file does, and elsewhere those with
      `cert-authority`. */
  ghost predicate AuthorityLine(w: World, file: Bytes, caFile: Option<Bytes>, output: Option<Source>,
                                q: Place, lines: Bytes -> seq<Line>, line: Line) {
    || (caFile.Some? && RootsLine(ReadStrict(w, file, 0).1, caFile.value, q, lines, line))
    || (line.Parsed? && CERT_AUTHORITY in line.options &&
        (RootsLine(w, file, q, lines, line) || SourceLine(output, lines, line)))
  }

  /** Every authority of a strict load stands in such a line, in root's files or in the helper's
      output. */
  lemma StrictAuthorityIsRoots(w: World, file: Bytes, caFile: Option<Bytes>, output: Option<Source>,
                               lines: Bytes -> seq<Line>, key: KeyData)
    returns (line: Line, q: Place)
    requires var f := Load(StrictSources(w, file, caFile, output), Strict, lines); f.Ok? && key in f.value.caKeys
    ensures line.Parsed? && line.key == key && AuthorityLine(w, file, caFile, output, q, lines, line)
  {
    var s := StrictSources(w, file, caFile, output);
    LoadTrusts(s, Strict, lines, key);
    line :| line.Parsed? && line.key == key &&
            (SourceLine(s.caFile, lines, line) ||
             ((SourceLine(Some(s.file), lines, line) || SourceLine(s.command, lines, line)) &&
              CERT_AUTHORITY in line.options));
    q := Place([], []);
    if SourceLine(s.caFile, lines, line) {
      q := StrictLineIsRoots(ReadStrict(w, file, 0).1, caFile.value, lines, line);
    } else if SourceLine(Some(s.file), lines, line) {
      q := StrictLineIsRoots(w, file, lines, line);
    }
  }

  // ----- the helper's path -----

  /** From its validation until it is run, however much later, the helper's path leads to the same
      inode of root's, and its contents stay unless its mode is open, as only "/nix/store" may be. */
  lemma HelperStaysBound(w: World, raw: Bytes, moves: seq<Move>) returns (q: Place)
    requires Validate(w, raw, 0).0.Ok?
    ensures Validate(w, raw, 0).0.value == Physical(q.trail)
    ensures var fs, fs' := Validate(w, raw, 0).1.fs, Interfere(Validate(w, raw, 0).1.fs, moves);
            && Sealed(fs, q) && fs.inodes[Last(q)].uid == 0 && fs.inodes[Last(q)].node.Regular?
            && Locate(fs', Physical(q.trail), true) == Some(q)
            && Kept(fs, fs', Last(q))
            && (Writable(fs.inodes[Last(q)].mode) ==> q.trail == NIX_STORE)
  {
    q := ValidateSeals(w, raw);
    var fs := Validate(w, raw, 0).1.fs;
    assert Guarded(fs, q.trail[..|q.trail|], Last(q)) && q.trail[..|q.trail|] == q.trail;
    InterferenceKeepsSealed(fs, moves, q);
    LocateSealed(Interfere(fs, moves), q, true);
  }
}
