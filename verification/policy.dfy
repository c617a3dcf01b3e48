/** Trusted keys: the two policy parsers and the index built from them: src/filter.rs. */
module Policy {
  import opened Outcomes
  import opened Utf8

  datatype Algorithm = Ed25519 | EcdsaSha2NistP256 | Rsa | SkEd25519 | SkEcdsaSha2NistP256 | OtherAlgorithm(name: Bytes)

  datatype KeyData = KeyData(algorithm: Algorithm, blob: Bytes)

  /** A line of an authorized_keys text, as the line parser reports it. */
  datatype Line = Parsed(key: KeyData, options: seq<Bytes>) | Malformed

  datatype Authorized = Key(key: KeyData) | CAKey(key: KeyData)

  datatype Mode = Legacy | Strict

  datatype PolicyError = BadLine(index: nat) | BadOptions(index: nat) | TooManyEntries

  const MAX_POLICY_ENTRIES: nat := 1024
  const CERT_AUTHORITY: Bytes := "cert-authority"

  // ----- parsing -----

  /** What the legacy parser makes of one line; a malformed line yields nothing. */
  function LegacyEntry(line: Line, caKeys: bool): seq<Authorized> {
    if line.Malformed? then []
    else if !caKeys && CERT_AUTHORITY !in line.options then [Key(line.key)]
    else [CAKey(line.key)]
  }

  function ParseLegacy(lines: seq<Line>, caKeys: bool): seq<Authorized>
    decreases |lines|
  {
    if lines == [] then [] else LegacyEntry(lines[0], caKeys) + ParseLegacy(lines[1..], caKeys)
  }

  predicate Admissible(line: Line) {
    line.Parsed? && line.options in [[], [CERT_AUTHORITY]]
  }

  /** The first reason, counting from line `index`, to refuse a text. */
  function FirstRefusal(lines: seq<Line>, index: nat): Option<PolicyError>
    requires index <= |lines|
    decreases |lines| - index
  {
    if index == |lines| then None
    else if lines[index].Malformed? then Some(BadLine(index))
    else if !Admissible(lines[index]) then Some(BadOptions(index))
    else if index >= MAX_POLICY_ENTRIES then Some(TooManyEntries)
    else FirstRefusal(lines, index + 1)
  }

  function StrictEntry(line: Line, caKeys: bool): Authorized
    requires line.Parsed?
  {
    if caKeys || line.options == [CERT_AUTHORITY] then CAKey(line.key) else Key(line.key)
  }

  function StrictEntries(lines: seq<Line>, caKeys: bool): (r: seq<Authorized>)
    requires forall i :: 0 <= i < |lines| ==> lines[i].Parsed?
    ensures |r| == |lines|
    decreases |lines|
  {
    if lines == [] then [] else [StrictEntry(lines[0], caKeys)] + StrictEntries(lines[1..], caKeys)
  }

  /** A text is refused for its first offending line, or taken line by line. */
  function ParseStrict(lines: seq<Line>, caKeys: bool): Result<seq<Authorized>, PolicyError> {
    var refusal := FirstRefusal(lines, 0);
    if refusal.Some? then Err(refusal.value)
    else
      RefusesNothingIff(lines, 0);
      assert forall i :: 0 <= i < |lines| ==> Admissible(lines[i]);
      Ok(StrictEntries(lines, caKeys))
  }

  lemma {:induction false} RefusesNothingIff(lines: seq<Line>, index: nat)
    requires index <= |lines|
    ensures FirstRefusal(lines, index) == None <==>
            && (forall i :: index <= i < |lines| ==> Admissible(lines[i]))
            && (index == |lines| || |lines| <= MAX_POLICY_ENTRIES)
    decreases |lines| - index
  {
    if index < |lines| {
      RefusesNothingIff(lines, index + 1);
    }
  }

  /** Line `i` is parsed, without options but `cert-authority`, and among the first 1024. */
  predicate Taken(line: Line, i: nat) {
    line.Parsed? && (line.options == [] || line.options == ["cert-authority"]) && i < 1024
  }

  /** A refusal is for the first line that cannot be taken, and says why. */
  lemma RefusalIsFirst(lines: seq<Line>, caKeys: bool) returns (k: nat)
    requires ParseStrict(lines, caKeys).Err?
    ensures k < |lines| && !Taken(lines[k], k) && forall i :: 0 <= i < k ==> Taken(lines[i], i)
    ensures ParseStrict(lines, caKeys).error ==
            if lines[k].Malformed? then BadLine(k)
            else if lines[k].options != [] && lines[k].options != ["cert-authority"] then BadOptions(k)
            else TooManyEntries
  {
    k := FirstRefused(lines, 0);
  }

  lemma {:induction false} FirstRefused(lines: seq<Line>, index: nat) returns (k: nat)
    requires index <= |lines| && FirstRefusal(lines, index).Some?
    ensures index <= k < |lines| && !Taken(lines[k], k)
    ensures forall i :: index <= i < k ==> Taken(lines[i], i)
    ensures FirstRefusal(lines, index).value ==
            if lines[k].Malformed? then BadLine(k)
            else if lines[k].options != [] && lines[k].options != ["cert-authority"] then BadOptions(k)
            else TooManyEntries
    decreases |lines| - index
  {
    if Taken(lines[index], index) {
      k := FirstRefused(lines, index + 1);
    } else {
      k := index;
    }
  }

  /** Strict parsing succeeds exactly on at most 1024 lines, all parsed and with no option but
      `cert-authority`, and then agrees with legacy parsing. */
  lemma StrictRefinesLegacy(lines: seq<Line>, caKeys: bool)
    ensures ParseStrict(lines, caKeys).Ok? <==>
            forall i :: 0 <= i < |lines| ==> Taken(lines[i], i)
    ensures ParseStrict(lines, caKeys).Ok? ==> ParseStrict(lines, caKeys).value == ParseLegacy(lines, caKeys)
  {
    RefusesNothingIff(lines, 0);
    assert |lines| > 0 ==> (Taken(lines[|lines| - 1], |lines| - 1) ==> |lines| <= 1024);
    assert forall i :: 0 <= i < |lines| ==> (Taken(lines[i], i) <==> Admissible(lines[i]) && i < MAX_POLICY_ENTRIES);
    if ParseStrict(lines, caKeys).Ok? {
      EntriesAgree(lines, caKeys);
    }
  }

  lemma {:induction false} EntriesAgree(lines: seq<Line>, caKeys: bool)
    requires forall i :: 0 <= i < |lines| ==> Admissible(lines[i]) && lines[i].Parsed?
    ensures StrictEntries(lines, caKeys) == ParseLegacy(lines, caKeys)
    decreases |lines|
  {
    if lines != [] {
      assert Admissible(lines[0]);
      EntriesAgree(lines[1..], caKeys);
    }
  }

  lemma {:induction false} StrictEntriesSnoc(a: seq<Line>, line: Line, caKeys: bool)
    requires line.Parsed? && forall i :: 0 <= i < |a| ==> a[i].Parsed?
    ensures StrictEntries(a + [line], caKeys) == StrictEntries(a, caKeys) + [StrictEntry(line, caKeys)]
    decreases |a|
  {
    if a != [] {
      assert (a + [line])[1..] == a[1..] + [line];
      StrictEntriesSnoc(a[1..], line, caKeys);
    }
  }

  /** `from_str_strict` */
  method FromStrStrict(lines: seq<Line>, caKeys: bool) returns (r: Result<seq<Authorized>, PolicyError>)
    ensures r == ParseStrict(lines, caKeys)
  {
    var authorized: seq<Authorized> := [];
    for index := 0 to |lines|
      invariant forall i :: 0 <= i < index ==> lines[i].Parsed?
      invariant authorized == StrictEntries(lines[..index], caKeys)
      invariant FirstRefusal(lines, 0) == FirstRefusal(lines, index)
    {
      var entry := lines[index];
      if entry.Malformed? {
        return Err(BadLine(index));
      }
      var isCa := caKeys || entry.options == [CERT_AUTHORITY];
      if (!isCa && entry.options != []) || (isCa && entry.options != [] && entry.options != [CERT_AUTHORITY]) {
        return Err(BadOptions(index));
      }
      if |authorized| >= MAX_POLICY_ENTRIES {
        return Err(TooManyEntries);
      }
      authorized := authorized + [if isCa then CAKey(entry.key) else Key(entry.key)];
      assert lines[..index + 1] == lines[..index] + [entry];
      StrictEntriesSnoc(lines[..index], entry, caKeys);
    }
    assert lines[..|lines|] == lines;
    return Ok(authorized);
  }

  // ----- the index -----

  datatype IdentityFilter = IdentityFilter(keys: set<KeyData>, caKeys: set<KeyData>, strict: bool)

  function Indexed(authorized: seq<Authorized>, strict: bool): IdentityFilter {
    IdentityFilter(set a | a in authorized && a.Key? :: a.key, set a | a in authorized && a.CAKey? :: a.key, strict)
  }

  /** `IdentityFilter::from` */
  method From(authorized: seq<Authorized>, strict: bool) returns (f: IdentityFilter)
    ensures f == Indexed(authorized, strict)
  {
    var keys: set<KeyData> := {};
    var caKeys: set<KeyData> := {};
    for k := 0 to |authorized|
      invariant keys == Indexed(authorized[..k], strict).keys && caKeys == Indexed(authorized[..k], strict).caKeys
    {
      var item := authorized[k];
      assert authorized[..k + 1] == authorized[..k] + [item];
      match item {
        case Key(key) => keys := keys + {key};
        case CAKey(key) => caKeys := caKeys + {key};
      }
    }
    assert authorized[..|authorized|] == authorized;
    return IdentityFilter(keys, caKeys, strict);
  }

  // ----- loading -----

  /** What reading a file or running the helper gave. */
  datatype Source = Text(contents: Bytes) | Missing | Unavailable

  /** The three places that keys come from. */
  datatype Sources = Sources(file: Source, caFile: Option<Source>, command: Option<Source>)

  datatype LoadError = SourceFailed | Refused(error: PolicyError)

  function ParsePolicy(lines: seq<Line>, caKeys: bool, mode: Mode): Result<seq<Authorized>, LoadError> {
    if mode.Legacy? then Ok(ParseLegacy(lines, caKeys))
    else
      var r := ParseStrict(lines, caKeys);
      if r.Ok? then Ok(r.value) else Err(Refused(r.error))
  }

  function FromSource(s: Source, caKeys: bool, mode: Mode, lines: Bytes -> seq<Line>)
    : Result<seq<Authorized>, LoadError>
  {
    if s.Text? then ParsePolicy(lines(s.contents), caKeys, mode) else Err(SourceFailed)
  }

  /** A missing key file is an empty one, except in strict mode. */
  function FromKeyFile(s: Source, mode: Mode, lines: Bytes -> seq<Line>): Result<seq<Authorized>, LoadError> {
    if s.Missing? && mode.Legacy? then Ok([]) else FromSource(s, false, mode, lines)
  }

  function FromOptional(s: Option<Source>, caKeys: bool, mode: Mode, lines: Bytes -> seq<Line>)
    : Result<seq<Authorized>, LoadError>
  {
    if s.None? then Ok([]) else FromSource(s.value, caKeys, mode, lines)
  }

  function Load(s: Sources, mode: Mode, lines: Bytes -> seq<Line>): Result<IdentityFilter, LoadError> {
    var keys := FromKeyFile(s.file, mode, lines);
    if keys.Err? then Err(keys.error)
    else
      var cas := FromOptional(s.caFile, true, mode, lines);
      if cas.Err? then Err(cas.error)
      else
        var more := FromOptional(s.command, false, mode, lines);
        if more.Err? then Err(more.error)
        else Ok(Indexed(keys.value + cas.value + more.value, mode.Strict?))
  }

  /** `IdentityFilter::new_with_mode` */
  method NewWithMode(s: Sources, mode: Mode, lines: Bytes -> seq<Line>) returns (r: Result<IdentityFilter, LoadError>)
    ensures r == Load(s, mode, lines)
  {
    var identities: seq<Authorized> := [];
    assert forall x: seq<Authorized> :: [] + x == x && x + [] == x;
    if !(s.file.Missing? && mode.Legacy?) {
      var keys := ReadPolicy(s.file, false, mode, lines);
      if keys.Err? { return Err(keys.error); }
      identities := identities + keys.value;
    }
    if s.caFile.Some? {
      var keys := ReadPolicy(s.caFile.value, true, mode, lines);
      if keys.Err? { return Err(keys.error); }
      identities := identities + keys.value;
    }
    if s.command.Some? {
      var keys := ReadPolicy(s.command.value, false, mode, lines);
      if keys.Err? { return Err(keys.error); }
      identities := identities + keys.value;
    }
    var filter := From(identities, mode == Strict);
    return Ok(filter);
  }

  method ReadPolicy(s: Source, caKeys: bool, mode: Mode, lines: Bytes -> seq<Line>)
    returns (r: Result<seq<Authorized>, LoadError>)
    ensures r == FromSource(s, caKeys, mode, lines)
  {
    if !s.Text? {
      return Err(SourceFailed);
    }
    if mode == Strict {
      var strict := FromStrStrict(lines(s.contents), caKeys);
      return if strict.Ok? then Ok(strict.value) else Err(Refused(strict.error));
    }
    return Ok(ParseLegacy(lines(s.contents), caKeys));
  }

  // ----- when a load succeeds -----

  /** The source gives a text, which in strict mode is free of lines that cannot be taken. */
  predicate Readable(s: Source, mode: Mode, lines: Bytes -> seq<Line>) {
    s.Text? &&
    (mode.Strict? ==> forall i :: 0 <= i < |lines(s.contents)| ==> Taken(lines(s.contents)[i], i))
  }

  predicate FileLoads(s: Sources, mode: Mode, lines: Bytes -> seq<Line>) {
    (s.file == Missing && mode == Legacy) || Readable(s.file, mode, lines)
  }

  predicate GivenLoads(s: Option<Source>, mode: Mode, lines: Bytes -> seq<Line>) {
    s.Some? ==> Readable(s.value, mode, lines)
  }

  /** A load succeeds exactly when every source that is given is readable; only the key file may be
      missing, and only in legacy mode.  It remembers its mode. */
  lemma LoadSucceedsIff(s: Sources, mode: Mode, lines: Bytes -> seq<Line>)
    ensures Load(s, mode, lines).Ok? <==>
            && FileLoads(s, mode, lines)
            && GivenLoads(s.caFile, mode, lines) && GivenLoads(s.command, mode, lines)
    ensures Load(s, mode, lines).Ok? ==> (Load(s, mode, lines).value.strict <==> mode == Strict)
  {
    SourceLoadsIff(s.file, false, mode, lines);
    if s.caFile.Some? {
      SourceLoadsIff(s.caFile.value, true, mode, lines);
    }
    if s.command.Some? {
      SourceLoadsIff(s.command.value, false, mode, lines);
    }
  }

  lemma SourceLoadsIff(s: Source, caKeys: bool, mode: Mode, lines: Bytes -> seq<Line>)
    ensures FromSource(s, caKeys, mode, lines).Ok? <==> Readable(s, mode, lines)
    ensures FromSource(s, caKeys, mode, lines).Err? ==>
              FromSource(s, caKeys, mode, lines) ==
              if s.Text? then Err(Refused(ParseStrict(lines(s.contents), caKeys).error)) else Err(SourceFailed)
  {
    if s.Text? {
      StrictRefinesLegacy(lines(s.contents), caKeys);
    }
  }

  /** A load that fails blames the first source that is not readable: its first bad line, or that it
      has no text. */
  lemma LoadFailsForFirst(s: Sources, mode: Mode, lines: Bytes -> seq<Line>) returns (x: Source, caKeys: bool)
    requires Load(s, mode, lines).Err?
    ensures if !FileLoads(s, mode, lines) then x == s.file && !caKeys
            else if !GivenLoads(s.caFile, mode, lines) then s.caFile == Some(x) && caKeys
            else s.command == Some(x) && !caKeys
    ensures x.Text? ==> ParseStrict(lines(x.contents), caKeys).Err?
    ensures Load(s, mode, lines) ==
            Err(if x.Text? then Refused(ParseStrict(lines(x.contents), caKeys).error) else SourceFailed)
  {
    LoadSucceedsIff(s, mode, lines);
    x, caKeys := if !FileLoads(s, mode, lines) then s.file
                 else if !GivenLoads(s.caFile, mode, lines) then s.caFile.value else s.command.value,
                 FileLoads(s, mode, lines) && !GivenLoads(s.caFile, mode, lines);
    SourceLoadsIff(s.file, false, mode, lines);
    SourceLoadsIff(x, caKeys, mode, lines);
    if s.caFile.Some? {
      SourceLoadsIff(s.caFile.value, true, mode, lines);
    }
  }

  /** In legacy mode a missing key file loads as an empty one does; in strict mode it fails. */
  lemma MissingFileLoads(s: Sources, lines: Bytes -> seq<Line>, empty: Bytes)
    requires s.file == Missing && lines(empty) == []
    ensures Load(s, Legacy, lines) == Load(s.(file := Text(empty)), Legacy, lines)
    ensures Load(s, Strict, lines) == Err(SourceFailed)
  {
  }

  /** From the same sources, a strict load that succeeds trusts exactly what a legacy load trusts. */
  lemma StrictLoadIsLegacyLoad(s: Sources, lines: Bytes -> seq<Line>)
    requires Load(s, Strict, lines).Ok?
    ensures Load(s, Legacy, lines) == Ok(Load(s, Strict, lines).value.(strict := false))
  {
    StrictSourceIsLegacy(Some(s.file), false, lines);
    StrictSourceIsLegacy(s.caFile, true, lines);
    StrictSourceIsLegacy(s.command, false, lines);
  }

  lemma StrictSourceIsLegacy(s: Option<Source>, caKeys: bool, lines: Bytes -> seq<Line>)
    ensures FromOptional(s, caKeys, Strict, lines).Ok? ==>
              FromOptional(s, caKeys, Legacy, lines) == FromOptional(s, caKeys, Strict, lines)
  {
    if s.Some? && s.value.Text? {
      StrictRefinesLegacy(lines(s.value.contents), caKeys);
    }
  }

  ghost predicate SourceLine(s: Option<Source>, lines: Bytes -> seq<Line>, line: Line) {
    s.Some? && s.value.Text? && line in lines(s.value.contents)
  }

  lemma {:induction false} LegacyMembers(lines: seq<Line>, caKeys: bool, a: Authorized)
    ensures a in ParseLegacy(lines, caKeys) <==>
            exists line :: line in lines && a in LegacyEntry(line, caKeys)
    decreases |lines|
  {
    if lines != [] {
      LegacyMembers(lines[1..], caKeys, a);
      assert forall line :: line in lines <==> line == lines[0] || line in lines[1..];
    }
  }

  ghost predicate PlainEntry(s: Sources, lines: Bytes -> seq<Line>, key: KeyData) {
    exists line :: (SourceLine(Some(s.file), lines, line) || SourceLine(s.command, lines, line)) &&
                   line.Parsed? && line.key == key && CERT_AUTHORITY !in line.options
  }

  ghost predicate AuthorityEntry(s: Sources, lines: Bytes -> seq<Line>, key: KeyData) {
    exists line: Line :: line.Parsed? && line.key == key &&
                   (SourceLine(s.caFile, lines, line) ||
                    ((SourceLine(Some(s.file), lines, line) || SourceLine(s.command, lines, line)) &&
                     CERT_AUTHORITY in line.options))
  }

  lemma SourceMembers(s: Option<Source>, caKeys: bool, lines: Bytes -> seq<Line>, a: Authorized)
    requires FromOptional(s, caKeys, Legacy, lines).Ok?
    ensures a in FromOptional(s, caKeys, Legacy, lines).value <==>
            exists line :: SourceLine(s, lines, line) && a in LegacyEntry(line, caKeys)
  {
    if s.Some? {
      LegacyMembers(lines(s.value.contents), caKeys, a);
      if a in FromOptional(s, caKeys, Legacy, lines).value {
        var line :| line in lines(s.value.contents) && a in LegacyEntry(line, caKeys);
        assert SourceLine(s, lines, line);
      }
    }
  }

  /** What a loaded policy trusts, in either mode: a key by a line without `cert-authority` in the
      key file or the helper's output, an authority by a line with it or by any line of the CA file. */
  lemma LoadTrusts(s: Sources, mode: Mode, lines: Bytes -> seq<Line>, key: KeyData)
    requires Load(s, mode, lines).Ok?
    ensures key in Load(s, mode, lines).value.keys <==> PlainEntry(s, lines, key)
    ensures key in Load(s, mode, lines).value.caKeys <==> AuthorityEntry(s, lines, key)
  {
    if mode.Strict? {
      StrictLoadIsLegacyLoad(s, lines);
    }
    var f := Load(s, Legacy, lines).value;
    var a := FromKeyFile(s.file, Legacy, lines).value;
    var b := FromOptional(s.caFile, true, Legacy, lines).value;
    var c := FromOptional(s.command, false, Legacy, lines).value;
    assert key in f.keys <==> Key(key) in a + b + c;
    assert key in f.caKeys <==> CAKey(key) in a + b + c;
    forall x ensures x in a <==> exists line :: SourceLine(Some(s.file), lines, line) && x in LegacyEntry(line, false) {
      if s.file.Text? {
        SourceMembers(Some(s.file), false, lines, x);
      }
    }
    SourceMembers(s.caFile, true, lines, Key(key));
    SourceMembers(s.caFile, true, lines, CAKey(key));
    SourceMembers(s.command, false, lines, Key(key));
    SourceMembers(s.command, false, lines, CAKey(key));
  }
}
