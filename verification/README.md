# A verified model of the PAM ssh-agent module

This project models the decisions of a PAM module that authenticates users with keys held by an
ssh-agent, and proves what those decisions guarantee. `dafny verify dfyconfig.toml` checks all of it.

The operating system, the agent and the cryptography are inputs. Other processes may change the
file system between any two system calls; the kernel may deliver a helper's output in any pieces,
at any time; an agent may answer anything. The theorems hold for all of them.

| module | models | main results |
|---|---|---|
| `FileSystem`, `SealedPaths` | a Unix file system and every step that a process other than root's can take in it | a path whose components are root's and closed to others stays what it is under any steps |
| `TrustPath`, `WalkChecks`, `TrustPathFacts`, `StrictPolicy` | `src/filter.rs`, strict path validation and the read that follows | which checks each component meets at its own system call, exactly; the walk seals the path against every interleaving; the read returns that file's text; when file contents are frozen, exactly; what is accepted without interference, exactly |
| `Policy` | `src/filter.rs`, the two policy parsers and the index of keys | strict loading refines legacy loading; when a load succeeds and what a loaded policy trusts, exactly |
| `Supervisor`, `Trimming`, `Unicode` | `src/cmd.rs`, the loop that supervises a helper process | the result does not depend on the schedule; when output is accepted, exactly; the child is always reaped; the loop ends; trimming by code points |
| `Expansions`, `Simultaneous`, `ExpansionFacts`, `ExpansionTable` | `src/expansions.rs` | six passes equal one simultaneous substitution exactly on safe templates; byte safety; keys |
| `Outlines`, `UserPaths` | `src/expansions.rs`, templates with user and uid | which safe templates tell users apart, exactly |
| `Arguments`, `OptionTable`, `ArgumentFacts`, `Disguises`, `LegacyOptions` | `src/args.rs` | what each option does, by its text; last setter wins; order does not matter; the strict file is per user, and which arguments undo that, exactly; options with and without `strict` |
| `Host`, `RealHosts`, `TrappedUsers` | the lookups behind the expansions | when strict users share the file of a safe template, exactly; which templates and keys are safe on real hosts, exactly |
| `Authentication`, `PamModule`, `StrictRuns` | `src/auth.rs`, `src/lib.rs` | how runs end, exactly, over the agent's replies; when the module succeeds, exactly; decoys change nothing; success is proven and rests on root's files; what strict mode changes, exactly |
| `Logging`, `DebugScope` | `src/logging.rs` | escaping can be undone; when a line is unambiguous, exactly; the debug flag is lexically scoped |
| `Timing`, `Connection` | `src/agent_connection.rs`, deadlines | waiting ends within a millisecond of the deadline; a session never blocks past it |
| `Utf8`, `Numerals`, `Outcomes` | byte strings, decimal numerals, optional values | slice indices cut a string into valid strings exactly at character boundaries |

Code that changes state step by step is modelled by methods with loops and by classes (`Kernel`,
`Helper`, `Agent`, `DeadlineStream`, `RequestThread`). Each is proved equal to a function of its
inputs and the old state, or its `ensures` states the guarantee outright; the lemmas are about those
functions.

## Properties that do not hold as hoped

Each comes with an input that shows it and with the condition under which it does hold.

- A validated file is not always out of reach: the exception for a sticky "/nix/store" is not
  limited to directories, so a root-owned sticky regular file of that name passes with any write
  bits. `StoreFileCounterexample` has such a file system; `ContentsFrozenIffClosed` says that the
  contents are frozen exactly when the mode is closed, and that no other path can be open.
- The six expansion passes are not one simultaneous substitution for every template: in `%%H` the
  value of `%H` can complete the first `%` to a variable of a later pass. `DoublePercentCounterexample`
  has such a host name; `PassesEqualScanIffSafe` gives the exact condition on the template, for
  values without `%`. `IsolatedPercentIsSafe` is the simple sufficient form: no `%` directly before
  `%` or `~`.
- Different users can share a path when the uid is in the template too, as in `%u%U`
  (`UidCounterexample`). For safe templates, in which no value can complete a `%`, they can on a host
  of given names exactly when the text between `%u` and `%U`
  is digits into which a shorter uid can grow (`Confusable`, `UsersShareFileIffConfusable`); a '/' or
  any other character than a digit between the two rules it out (`NonDigitSetsApart`), and up to eight
  digits do not (`NeverSharedIffSetApart`). Uids are below 2^32, so longer digits may keep users apart
  (`FreshDigitSetsApart`).
- Without `%U` as written users can share a path, too, in an unsafe template: in `/%%u` a user name
  that begins with 'U' completes the first `%` to the uid (`PercentBeforeUserShares`), and so in every template
  in which the user's name is the first value that can complete a `%`, with the uid still to come
  (`TrappedUserShares`). The exact condition above is for safe templates; the remaining unsafe ones,
  where a host name comes first or the uid stands before, are not decided here.
- The per-user check looks at arguments as written, the assignment at arguments as expanded. They
  part ways for an argument that expansion turns into `file=`: with the user name `le` the argument
  `fi%u=...` sets the file of a strict configuration (`DisguisedFile`). After the last `file=` an
  argument can do so, for some accepted user of some host, exactly when the text before its first slot
  is part of "file" and the value can supply the rest: never a uid, a user name only up to the '=',
  a home directory or a host name always (`MayBecome`, `DisguisedIffMayBecomeFile`, for arguments
  without `%` directly before `%` or `~`). The same holds for the other two keys whose arguments are
  checked (`SetsFieldIffMayBecome`); `ca_keys_%u=~/k` puts the CA file of the user `file` below a home
  directory (`CaFileBelowHome`). `NoDisguise` is a coarser guard, which asks for no environment and
  allows any argument; under it the file is per user (`StrictFileIsPerUser`).
- Leaving out `strict` does not always let in everyone whom the strict options let in: it turns the
  sshd shortcut on, which fails where sshd reports a key that cannot be read (`StrictAloneSucceeds`).
  `StrictNarrowsIff` is the exact condition.
- A log line does not always tell the service from the message (`LineAmbiguous`);
  `LineDecidesIff` says that it does exactly when neither holds the separator.

Where comment and code differ, the model follows the code: the error text of `validate_trust_path`
asks for a normalized path, but `Path::components` drops empty and "." segments, so only ".." is
refused (`NormalizedMeansNoParent`).

## Model

| member | source | states |
|---|---|---|
| `SealedPaths.StepKeepsInode` | src/filter.rs:307-326 | no step by a process other than root's changes owner, mode or kind of an inode of root's that is linked or open, nor its contents when group and others may not write |
| `SealedPaths.StepKeepsEntry` | src/filter.rs:328-338 | an entry of root's directory that leads to an inode of root's stays, even where others may write, as long as the directory is then sticky: the reason for the store exception |
| `SealedPaths.StepKeepsSealed` | src/filter.rs:307-338 | one step keeps a walked path sealed: same names, same inodes, same owners and modes |
| `SealedPaths.InterferenceKeepsSealed` | src/filter.rs:307-338 | the same for every sequence of steps |
| `SealedPaths.EntryStaysIff` | src/filter.rs:307-338 | no unprivileged steps can change an entry of an open directory exactly when the directory is root's and closed to them, or sticky with the entry leading to an inode of root's |
| `TrustPath.ValidateComponents` | src/filter.rs:307-326 | the loop that grows the path computes the walk, one metadata call per component, with steps of others before each; `WalkChecks.WalkStops` says on owner, kind and mode which walk that is |
| `TrustPath.ValidateTrustPath` | src/filter.rs:287-305 | the two walks, the resolution and the final check, in the order and with the refusals of the code; `WalkChecks.ValidateIff` says on metadata what is accepted |
| `WalkChecks.WalkStops` | src/filter.rs:307-338 | under any interference a walk stops at the first component that is missing, not root's, a link where none may be, or open to others without being the sticky "/nix/store", each as its own metadata call sees it, and names that reason; without such a component it passes |
| `WalkChecks.ValidateIff` | src/filter.rs:287-305 | under any interference a path is accepted exactly when it is absolute and without "..", every written component is root's and closed or a link at the moment of its own call, it then resolves to the returned path, every resolved component is root's, closed and no link at the moment of its call, and the last call sees a regular file |
| `WalkChecks.OpenCheckedIff` | src/filter.rs:267-272 | opening succeeds exactly when the name leads to one inode at the stat and at the open, and is refused as changed exactly when it leads to two |
| `WalkChecks.NamesDirectoryIff` | src/filter.rs:297 | a path names a directory exactly when it ends in "/" or "/." |
| `WalkChecks.SegmentsAreJoined` | src/filter.rs:307-310 | a path is cut at every "/" and nowhere else: joining the segments gives it back, and none holds a "/" |
| `WalkChecks.PartsConcat` | src/filter.rs:307-310 | segments become components one by one |
| `WalkChecks.PartsOfOne` | src/filter.rs:307-310 | an empty or "." segment vanishes, ".." is the parent, and any other is a name |
| `TrustPath.ReadBounded` | src/filter.rs:276-285 | reading in pieces up to one byte over the limit, then size and UTF-8 |
| `TrustPath.ReadStrictFile` | src/filter.rs:265-274 | validation, identity check and bounded read against a changing file system |
| `TrustPathFacts.LocateSealed` | src/filter.rs:287-305 | the name of a sealed path leads to its last inode, whether or not links are followed |
| `TrustPathFacts.AcceptedComponentSeals` | src/filter.rs:307-338 | one accepted component extends the sealed path by the inode now under that name |
| `TrustPathFacts.WalkSeals` | src/filter.rs:307-326 | a canonical path that passes the walk for uid 0 is sealed when the walk ends, whatever happened between the calls |
| `TrustPathFacts.ValidateSeals` | src/filter.rs:287-305 | a validated path is sealed and is a regular file |
| `TrustPathFacts.OpenSealed` | src/filter.rs:265-273 | on a sealed path opening yields the checked inode or no file, never another |
| `TrustPathFacts.ReadSealed` | src/filter.rs:276-278 | pieces read at different moments add up to the file's bytes, up to one over the limit |
| `TrustPathFacts.LimitedText` | src/filter.rs:276-285 | the bytes over the limit never matter: at most 1 MiB is accepted, more is refused |
| `TrustPathFacts.StrictReadIsStable` | src/filter.rs:265-305 | after validation the name stays bound to the same inode of root's, the mismatch refusal cannot occur, and the read gives exactly that file's text, TooLarge above 1 MiB or NotUtf8, unless a system call fails |
| `TrustPathFacts.ContentsFrozenIffClosed` | src/filter.rs:328-338 | a validated file's contents survive every sequence of steps exactly when its mode is closed; only "/nix/store" can be open |
| `TrustPathFacts.StoreFileCounterexample` | src/filter.rs:328-338 | a sticky regular file of mode 1666 at "/nix/store" validates, and others can change it |
| `TrustPathFacts.StoreFileAccepted` | src/filter.rs:328-338 | the same at the path "/nix/store" itself |
| `TrustPathFacts.QuietWalk` | src/filter.rs:307-338 | without interference the walk accepts exactly when every prefix exists, is root's, and is a link where links may pass or closed to group and others, or the sticky "/nix/store" |
| `TrustPathFacts.QuietValidation` | src/filter.rs:287-305 | without interference a path is accepted exactly when it is absolute without "..", every written component is root's and a link or closed, and it resolves to a sealed regular file; the result is that resolved path, and the symlink refusal never occurs |
| `TrustPathFacts.QuietRead` | src/filter.rs:265-285 | without interference reading an accepted closed file gives its text when that is UTF-8 of at most 1 MiB, and otherwise TooLarge or NotUtf8 |
| `TrustPathFacts.ResolvePhysical` | src/filter.rs:297-298 | a resolved path has no symbolic links on it |
| `WalkChecks.NormalizedMeansNoParent` | src/filter.rs:287-295 | accepted as normalized: exactly the absolute paths without a ".." segment |
| `StrictPolicy.StrictLineIsRoots` | src/filter.rs:202-213 | a line that a strict read yields stands in the file that the path named was resolved to, whose path only root can rebind and whose contents only root can change; with open write bits that file can only be "/nix/store" |
| `StrictPolicy.StrictKeyIsRoots` | src/filter.rs:77-112 | every key of a strict policy is listed, in a line without cert-authority, in the named key file as above or by the helper, under any interference |
| `StrictPolicy.StrictAuthorityIsRoots` | src/filter.rs:77-112 | every authority of a strict policy is listed in the named CA file, or with cert-authority in the named key file or by the helper, under any interference |
| `StrictPolicy.HelperStaysBound` | src/filter.rs:176-199 | from the validation of a strict helper's path until it is run, after any steps of others, the canonical path leads to the validated inode of root's with its owner, mode and, when closed, its contents |
| `Policy.FromStrStrict` | src/filter.rs:236-263 | the strict loop refuses for the first offending line or takes the text line by line |
| `Policy.RefusalIsFirst` | src/filter.rs:238-254 | the refusal is for the first line that is malformed, has other options or is the 1025th, and names it |
| `Policy.StrictRefinesLegacy` | src/filter.rs:215-263 | strict parsing succeeds exactly on at most 1024 parsed lines without options other than cert-authority, and then agrees with legacy parsing |
| `Policy.From` | src/filter.rs:118-134 | the two sets hold exactly the plain and the authority entries |
| `Policy.NewWithMode` | src/filter.rs:77-112 | the three sources in order; when that succeeds is `Policy.LoadSucceedsIff`, and what is then trusted `Policy.LoadTrusts` |
| `Policy.LoadSucceedsIff` | src/filter.rs:77-134 | a load succeeds exactly when the key file is a text, or missing in legacy mode, every other source that is given is a text, and in strict mode each text has at most 1024 lines, all parsed and without options but cert-authority |
| `Policy.LoadFailsForFirst` | src/filter.rs:85-111 | a failed load reports the first source that is not readable, with the refusal of its text or that it has none |
| `Policy.MissingFileLoads` | src/filter.rs:86-101 | in legacy mode a missing key file loads as an empty one, in strict mode it fails |
| `Policy.ReadPolicy` | src/filter.rs:202-234 | a source's text is parsed in its mode, and a source without text fails |
| `Policy.StrictLoadIsLegacyLoad` | src/filter.rs:77-134 | a successful strict load trusts exactly what the legacy load of the same sources trusts |
| `Policy.LoadTrusts` | src/filter.rs:77-134 | in either mode a key is trusted exactly when some line without cert-authority lists it, an authority exactly when a line with it or a line of the CA file does |
| `Supervisor.DrainOutput` | src/cmd.rs:240-264 | what is kept is what was taken, within 1 MiB; reading stops only at the end of the stream, when nothing is ready, or on an error; OutputLimit only for a stream that is longer |
| `Supervisor.WaitForOutput` | src/cmd.rs:193-238 | clock and poll in turn, each poll given the whole remaining milliseconds, at least 1 and at most 10 once both streams have ended, repeated after signals only; fails only when poll does |
| `Supervisor.WaitEndsInTime` | src/cmd.rs:214-238 | a wait that begins before the deadline ends less than a millisecond after it however many signals arrive, if each poll kept to the timeout that it was given |
| `Supervisor.Pause` | src/cmd.rs:149-161 | a passed deadline or a failed poll terminates the child once; going on means that the clock was before the deadline |
| `Supervisor.DrainBoth` | src/cmd.rs:129-136 | a failure of either stream terminates the child once |
| `Supervisor.CollectStatus` | src/cmd.rs:140-148 | the status is asked for exactly while unknown, and a failed query terminates the child once |
| `Supervisor.AwaitProgress` | src/cmd.rs:140-161 | a failed status query, a passed deadline or a failed poll terminates the child once; going on means that the clock was before the deadline |
| `Supervisor.Round` | src/cmd.rs:128-162 | a round keeps what was collected, is the last exactly when the status is known and both streams have ended, and going on means that it began before the deadline |
| `Supervisor.Conclude` | src/cmd.rs:164-181 | any exit but code 0 is refused with that exit; then both streams must be UTF-8, and the value is stdout without white space at its end |
| `Supervisor.Supervise` | src/cmd.rs:122-181 | every schedule ends, at most one round begins at or after the deadline, a helper that is over by itself takes at most two rounds, and data-carrying reads are bounded by the cap |
| `Supervisor.RunInner` | src/cmd.rs:44-181 | unless a failure is blamed on the last system call, the output is accepted exactly when the child exited with code 0 and both whole streams are UTF-8 of at most 1 MiB, its value is the trimmed stdout, a longer stream is OutputLimit and any other exit is reported as such; the child is reaped, terminated once exactly when its own exit does not decide, and "status was not collected" is unreachable |
| `Trimming.TrimEnd` | src/cmd.rs:181 | a prefix that ends in no White_Space character |
| `Trimming.TrimRemovesOnlySpace` | src/cmd.rs:181 | what is cut off consists of White_Space characters |
| `Trimming.TrimKeepsUtf8` | src/cmd.rs:181 | trimming UTF-8 leaves UTF-8 |
| `Unicode.TrimsWhiteSpace` | src/cmd.rs:181 | by code points: exactly the White_Space characters at the end are removed |
| `Unicode.TrailingSpaceIff` | src/cmd.rs:181 | the bytes at the end are a White_Space character exactly when they encode one of its 25 code points |
| `Timing.Milliseconds` | src/cmd.rs:217-221 | the whole milliseconds that remain, but at least 1 and at most the cap, so it fits an i32 and never means "forever" |
| `Timing.PollEndsByDeadline` | src/agent_connection.rs:94-107 | a poll that keeps to its timeout ends less than a millisecond after the deadline |
| `Timing.PollNotEarly` | src/agent_connection.rs:107-114 | for the accepted 1 to 300 seconds the upper clamp is never reached and a timeout is less than a millisecond early |
| `Expansions.GetUsername` | src/expansions.rs:59-67 | the name is what stands before the next '/' |
| `Expansions.ExpandVar` | src/expansions.rs:32-43 | the sliced result is the pass that replaces the first occurrence |
| `Expansions.ExpandHomedir` | src/expansions.rs:45-57 | the same for `~name` |
| `Expansions.ExpandAll` | src/expansions.rs:6-30 | the six passes in their order |
| `Expansions.PassIsSliced` | src/expansions.rs:32-57 | cutting at the first occurrence equals the recursive definition of a pass |
| `Simultaneous.PassesAreScan` | src/expansions.rs:6-30 | on a safe template the passes equal one left-to-right substitution of first occurrences, spans swallowed |
| `Simultaneous.UnsafeDiverges` | src/expansions.rs:6-30 | on an unsafe template the two differ wherever the value of its first offending slot begins with the letter of the last slot left |
| `Simultaneous.PassesEqualScanIffSafe` | src/expansions.rs:6-30 | the passes equal the substitution for all such environments exactly when the template is safe |
| `RealHosts.SafeOnRealHostsIff` | src/expansions.rs:6-30 | the passes equal the substitution for every accepted user of every coherent host, with decimal uids and one home directory per user, exactly when the template is safe |
| `Simultaneous.IsolatedPercentIsSafe` | src/expansions.rs:6-30 | a template without `%` directly before `%` or `~` is safe |
| `Simultaneous.DoublePercentCounterexample` | src/expansions.rs:19-28 | for `%%H` and a host name "f1" the two differ |
| `ExpansionFacts.SlicesOnBoundaries` | src/expansions.rs:39-56 | every index at which the code slices is within bounds and on a character boundary |
| `ExpansionFacts.ExpansionKeepsUtf8` | src/expansions.rs:6-57 | expanding UTF-8 with UTF-8 values gives UTF-8 |
| `ExpansionFacts.SplitOnce` | src/args.rs:76-80 | a split gives two parts exactly when there is an '=', and the first part holds none |
| `ExpansionFacts.ExpansionKeepsKey` | src/args.rs:66-98 | for a key part without anything to expand, splitting the expansion gives that key and the expansion of the value |
| `ExpansionFacts.KeyStableIffSlotFree` | src/args.rs:66-98 | the key survives in every environment exactly when it holds nothing to expand |
| `ExpansionFacts.KeyChanges` | src/args.rs:66-98 | a key with a slot is not kept where the values begin with no slot letter |
| `RealHosts.KeyStableOnRealHostsIff` | src/args.rs:66-98 | the key survives for every accepted user of every coherent host exactly when it holds nothing to expand |
| `ExpansionFacts.VariableExpands` | src/expansions.rs:32-43 | a single variable gives way to its value, with the text around it unchanged |
| `ExpansionFacts.HomeExpands` | src/expansions.rs:45-67 | `~name` up to the next '/' gives way to the home directory, and later '~' stay |
| `ExpansionTable.SecondStays` | src/expansions.rs:39-42 | of two occurrences of a variable the first is replaced and the second stays |
| `ExpansionTable.VariableFails` | src/expansions.rs:32-43 | a variable without a value makes the expansion fail |
| `ExpansionTable.HomeFails` | src/expansions.rs:45-57 | so does a name without a home directory |
| `ExpansionTable.LiteralStays` | src/expansions.rs:6-30 | text with nothing to replace stays in every environment |
| `ExpansionTable.PassOrder` | src/expansions.rs:19-28 | a value that completes a `%` to another variable is read by the pass for it exactly when that comes later in the order h, H, u, f, U |
| `ExpansionTable.HomesMean` | src/expansions.rs:11-19 | `~` stands for the calling user's home directory and `~name` for that of `name`, and fails where there is none |
| `UserPaths.DistinctUsersDistinctExpansions` | src/expansions.rs:19-42 | a safe template with `%u` and without home directories gives two users of a host different expansions, unless it runs the user and the uid together there |
| `UserPaths.ConfusableUsers` | src/expansions.rs:25-28 | where it does, there are two plain names with 32-bit uids that come to the same text |
| `UserPaths.TogetherShare` | src/expansions.rs:19-42 | such users have the same expansion |
| `UserPaths.NonDigitSetsApart` | src/expansions.rs:19-42 | a literal character other than a digit between `%u` and `%U` keeps users apart on every host |
| `UserPaths.ApartOnEveryHostIff` | src/expansions.rs:19-42 | with at most eight literal characters between them, a template keeps users apart on every host exactly when it lacks `%U` or one of those is not a digit |
| `UserPaths.FreshDigitSetsApart` | src/expansions.rs:25-27 | ten or more digits between them, the first not among the next nine, keep users apart, since uids have 32 bits |
| `UserPaths.UidCounterexample` | src/expansions.rs:25-28 | `%u%U` runs them together on every host |
| `UserPaths.SlashSetsApart` | src/expansions.rs:25-28 | `%u/%U` on none |
| `Arguments.Interpret` | src/args.rs:60-97 | what one argument does, with every failure of the code; the table of keys is spelled out by the `OptionTable` rows |
| `Arguments.Parse` | src/args.rs:45-125 | the loop over nine locals computes the specification by last setters; what each option adds to it, by its text, is in the `OptionTable` rows |
| `Arguments.AppliedIsSettled` | src/args.rs:60-99 | applying arguments one after the other leaves each field as its last setter does |
| `OptionTable.NoOptions` | src/args.rs:51-58 | without options: no debug log, the system key file, the shortcut on, and nothing else |
| `OptionTable.DebugOption` | src/args.rs:63 | "debug" turns on the debug log and changes nothing else |
| `OptionTable.ShortcutOption` | src/args.rs:65 | "sshd_shortcut" turns on the shortcut and changes nothing else |
| `OptionTable.StrictAgain` | src/args.rs:64 | in its own turn "strict" changes nothing |
| `OptionTable.AuthSockOption` | src/args.rs:82 | "default_ssh_auth_sock=" sets the socket to the expanded value, changes nothing else, and fails exactly when the value does not expand |
| `OptionTable.CommandUserOption` | src/args.rs:85-87 | "authorized_keys_command_user=" does the same for the user of the helper |
| `OptionTable.CaFileOption` | src/args.rs:83 | "ca_keys_file=" does the same for the file of authorities, and in strict mode fails for a value with a home directory |
| `OptionTable.CommandOption` | src/args.rs:84 | "authorized_keys_command=" does the same for the helper, and in strict mode fails for a value with any variable or that is not absolute |
| `OptionTable.FileOption` | src/args.rs:70-81 | "file=" does the same for the key file, and in strict mode fails for a value with a home directory or without the user |
| `OptionTable.TimeoutOption` | src/args.rs:88-96 | "agent_timeout=" sets the agent's time limit to the number that the value writes, with or without '+' and leading zeros, when that is from 1 to 300, and fails otherwise |
| `OptionTable.OtherKeyFails` | src/args.rs:97 | any other key that expansion leaves alone makes the list fail |
| `OptionTable.MalformedFails` | src/args.rs:62-78 | so does an argument that is not UTF-8, or one without an equals sign that is no word |
| `OptionTable.RefusalStays` | src/args.rs:60-99 | a list refused without `strict` stays refused when it goes on |
| `OptionTable.OccursIff` | src/args.rs:70-72 | a variable occurs exactly where its two characters stand together |
| `ArgumentFacts.ParseIgnoresOrder` | src/args.rs:45-125 | any permutation of arguments that set different fields gives the same result or fails in both orders, wherever `strict` stands |
| `ArgumentFacts.PlainKeyDecides` | src/args.rs:74-97 | an argument with a plain key sets the field its key names to the expanded value, or fails; which field that is, `OptionTable` says by text |
| `ArgumentFacts.FileArgument` | src/args.rs:66-81 | an accepted `file=` argument sets the file to its expanded template; in strict mode the template refers to no home directory |
| `ArgumentFacts.FileSetterIsWrittenFile` | src/args.rs:66-81 | only arguments written `file=`, and those with a slot after a part of "file", set the file: a guard that needs no environment |
| `ArgumentFacts.LastFileIsLastTemplate` | src/args.rs:70-81 | the file that is used is the last `file=` template, expanded, unless an argument after it may become `file=` |
| `ArgumentFacts.StrictFileIsPerUser` | src/args.rs:67-102 | unless an argument after the last `file=` may become one, the file of a strict configuration comes from a template that names the user and no home directory |
| `ArgumentFacts.StrictUsersGetDistinctFiles` | src/args.rs:56-113 | one such configuration with a safe template gives different users of a host different files, unless the template runs user and uid together there |
| `ArgumentFacts.PolicyOfTemplate` | src/args.rs:45-125 | strict mode accepts every template with `%u` and without home directories whenever it expands, and sets nothing else but the strict defaults |
| `ArgumentFacts.PerUserConfiguration` | src/args.rs:45-125 | plain text around `%u` gives the user a file of that name |
| `Disguises.DisguisedFile` | src/args.rs:70-102 | a strict configuration with a per-user `file=` and an argument whose key a user name completes is accepted, and uses the value of that argument |
| `Disguises.DisguisedIffMayBecomeFile` | src/args.rs:66-102 | after a per-user `file=`, an argument not written so can decide the file, for some accepted user of a coherent host, exactly when it may become `file=` |
| `Disguises.OtherFileIffMayBecomeFile` | src/args.rs:66-102 | it can give a user another file than some per-user template exactly then, too |
| `Disguises.CoincidentFile` | src/args.rs:66-102 | for a fixed template it need not: after `file=/%u` the argument `fi%u=/le` gives no user another file |
| `Disguises.SetsFieldIffMayBecome` | src/args.rs:67-98 | an argument not written `file=`, `ca_keys_file=` or `authorized_keys_command=` can set that field unchecked, for some accepted user of a coherent host, exactly when it may become it |
| `Disguises.CaFileBelowHome` | src/args.rs:128-152 | the user "file" gets, by `ca_keys_%u=~/...`, a CA file below a home directory |
| `Disguises.CaKeyRefused` | src/args.rs:128-140 | which strict mode refuses when it is written out |
| `LegacyOptions.ParsesWithoutStrict` | src/args.rs:56-125 | options that strict mode accepts parse without `strict`: the sshd shortcut is then on, the timeout has no default, and everything else is the same |
| `LegacyOptions.ShortcutIff` | src/args.rs:56-64 | in strict mode the shortcut is on exactly when it is asked for |
| `Host.UserVariablesMean` | src/expansions.rs:20-24 | `%u` and `%h` stand for the calling user and that user's home directory |
| `Host.HostVariablesMean` | src/expansions.rs:23-25 | `%H` and `%f` stand for the host name and the fully qualified one |
| `Host.UidMeans` | src/expansions.rs:25-27 | `%U` stands for decimal digits from which the uid can be read back |
| `Numerals.DecimalRoundTrip` | src/expansions.rs:25-27 | the decimal text of a uid stands for that uid |
| `Numerals.CanonicalRoundTrip` | src/expansions.rs:25-27 | and is the only numeral without leading zeros that does |
| `Host.StrictUserIsPlain` | src/lib.rs:164-180 | an accepted user is an existing account of exactly that name, without '/', '.', '%', '~' or '=' |
| `Host.StrictUserIff` | src/lib.rs:164-180 | accepted are exactly the non-empty names of ASCII letters, digits, '_' and '-' whose account exists and carries that very name; other names are refused first |
| `Host.StrictUsersNeverShareFile` | src/lib.rs:164-180 | two accepted users never share a policy file under one strict configuration without disguised arguments and with a safe template, unless that runs user and uid together on this host |
| `Host.UsersShareFileIffConfusable` | src/args.rs:56-113 | on a host of given names, some two accepted users of one account database share the policy file of a safe strict template exactly when it runs user and uid together there |
| `Host.NeverSharedIffSetApart` | src/args.rs:56-113 | for a safe template with at most eight literal characters between them, no two users share the file on any host exactly when `%U` is missing or one of those is not a digit |
| `RealHosts.PercentBeforeUserShares` | src/expansions.rs:24-27 | an unsafe template with a literal `%` directly before `%u` and no other variable, as "/%%u", gives the plain users "U" and "U7" one policy file on every host |
| `TrappedUsers.TrappedUserShares` | src/expansions.rs:19-28 | so does, on every host whose names are not empty, every unsafe template in which the user's name is the first value that can complete a `%` and the uid is still to come |
| `Authentication.SignAndVerify` | src/auth.rs:51-67 | one attempt: draw, request, strict check, verification, in this order; `Authentication.RunDecidedByFirst` says over draws and replies what comes of it |
| `Authentication.AuthenticateWith` | src/auth.rs:19-49 | the loop over the listed identities computes the run, with its requests and draws, and an agent that lists none fails it; how it ends is `Authentication.RunDecidedByFirst` |
| `Authentication.CandidatesAreEach` | src/auth.rs:25-32 | a candidate is a key of the policy, or a user certificate for the principal, valid now, from an authority of the policy and without critical options, and nothing else is |
| `Authentication.SecurityKeyFlags` | src/auth.rs:69-94 | a signature by either kind of security key passes exactly when its algorithm is the key's and presence and verification are flagged; one by any other key passes without flags |
| `Authentication.RunSeesCandidates` | src/auth.rs:25-32 | only trusted identities, and of certificates only valid ones, matter to a run |
| `Authentication.DecoysDoNotInterfere` | src/auth.rs:25-47 | decoys anywhere in the list change neither the answer nor the requests nor the draws |
| `Authentication.RunDecidedByFirst` | src/auth.rs:25-67 | over draws and replies: the candidates are asked in order, and exactly those that got a challenge and for which the agent answered with a remote failure are passed over; the next one decides: NoRandomness without a challenge, AgentFailed for any other error, BadSecurityKeySignature or BadSignature for a signature that fails its check, and yes for one that passes; nothing is asked after it, and without one the answer is no |
| `Authentication.AskedInOrder` | src/auth.rs:51-58 | the candidates before it were asked once each, in order, each with the challenge drawn for it |
| `Authentication.SuccessIsProven` | src/auth.rs:51-67 | success means a verified signature over the challenge drawn for the last request, by a listed candidate |
| `Authentication.StrictOnlyRefuses` | src/auth.rs:59-61 | strictness changes no request, and no answer except into an error |
| `PamModule.SuccessHasGrounds` | src/lib.rs:97-138 | the module succeeds only for a key that sshd vouches for and the policy lists, or for a listed identity that the policy grants and whose signature verified |
| `PamModule.RunModuleIff` | src/lib.rs:77-138 | the module succeeds exactly when the users are accepted, the policy loads, and sshd reports a listed key while the shortcut is on or, unless it reports one that cannot be read, the agent's socket from the environment or else from the options is reached and the run says yes |
| `PamModule.RunModuleRefuses` | src/lib.rs:77-138 | the reason of a refusal is the first that applies, in the order of the code |
| `PamModule.StrictSuccessIsUnprivileged` | src/lib.rs:77-95 | strict success is for an existing plain account, and a configured helper belongs to one other than root |
| `PamModule.StrictNarrowsIff` | src/lib.rs:77-138 | strict options that let a user in do so without `strict` exactly when the shortcut was asked for, the service is not sshd, or sshd's key can be read or is absent |
| `PamModule.StrictRunAsLegacy` | src/lib.rs:97-138 | the same for parsed arguments |
| `StrictRuns.StrictAloneSucceeds` | src/lib.rs:184-206 | with sshd's key unreadable, "strict file=/%u" lets in a user whom "file=/%u" refuses |
| `StrictRuns.SuccessNamesGround` | src/lib.rs:97-138 | success has a ground: sshd's key among the keys, or the identity of the run's last request, whose reply over its own challenge verified, its key among the keys or its authority among the authorities |
| `StrictRuns.StrictSuccessIsRooted` | src/lib.rs:77-138 | from the option list: a strict success rests on a line of the right kind, for a plain key in root's own key file for that user or the helper's output, for an authority also in root's CA file, under any interference |
| `Connection.WaitForConnect` | src/agent_connection.rs:92-140 | ends within a millisecond after the deadline, times out at most a millisecond early, and succeeds exactly when the socket is ready without an error |
| `Connection.DeadlineStream.Read` | src/agent_connection.rs:174-179 | sets the read timeout to the time left, then reads |
| `Connection.DeadlineStream.Write` | src/agent_connection.rs:181-185 | sets the write timeout to the time left, then writes |
| `Connection.DeadlineStream.Flush` | src/agent_connection.rs:187-190 | sets the write timeout to the time left, then flushes |
| `Connection.PerformWithinDeadline` | src/agent_connection.rs:142-191 | one operation ends by the deadline or times out at once, waits with its own timeout set to the time left, reports blocking as a timeout and leaves every other result as it is |
| `Connection.SessionKeepsDeadline` | src/agent_connection.rs:142-191 | in any sequence of operations all blocking fits before the shared deadline, and everything after it times out |
| `Logging.DecodeEscape` | src/logging.rs:81-93 | a decoder recovers every string from its escaped form |
| `Logging.EscapeInjective` | src/logging.rs:81-93 | different strings have different escaped forms |
| `Logging.EscapeConcat` | src/logging.rs:81-93 | escaping distributes over concatenation |
| `Logging.EscapeIsPlain` | src/logging.rs:81-93 | an escaped string holds no control code and is at most six times as long |
| `Logging.EscapeFixpoint` | src/logging.rs:81-93 | exactly the strings without control codes and backslashes are left alone |
| `Logging.EscapeTable` | src/logging.rs:81-93 | by character: backslash, newline, return and tab have their short escapes, other control codes become lower-case hexadecimal in braces without leading zeros, and the rest stays |
| `Logging.PlainLine` | src/logging.rs:58-79 | a plain service and a plain message stand unchanged after "pam_ssh_agent(" and ":auth): " as the code writes them |
| `Logging.LineIsPlain` | src/logging.rs:58-79 | the text given to the inner formatter, prefix and message, holds no control code; the process name that the inner formatter puts in front is not escaped and not part of this |
| `Logging.LineAmbiguous` | src/logging.rs:76 | a separator in the service or the message makes two readings of one line |
| `Logging.LineDecidesIff` | src/logging.rs:58-79 | a line stands for one service and message exactly when neither holds the separator |
| `DebugScope.RequestThread.WithDebug` | src/logging.rs:40-50 | what the call logs is what its text says under its own flag, and the previous flag is back afterwards, unwound or not |
| `DebugScope.RequestThread.Run` | src/logging.rs:40-50 | the same for any nesting of calls, log events, panics and catches |
| `DebugScope.LevelsLogged` | src/logging.rs:119-121 | errors, warnings and information are always logged, debug output exactly in a scope that asks for it, and tracing never |
| `DebugScope.EventsAreLexical` | src/logging.rs:40-50 | swapping and restoring one flag agrees with lexical scoping |
| `DebugScope.ThreadsAreIndependent` | src/logging.rs:13-15 | under any interleaving a thread's state depends on its own events only |
| `DebugScope.InterleavedIsLexical` | src/logging.rs:40-50 | so under any interleaving a thread logs what its enclosing scopes allow, and its flag is restored |
| `DebugScope.PrefixesAreNested` | src/logging.rs:40-50 | the events of a call, cut off anywhere, are well nested |
| `DebugScope.FlagIsInnermost` | src/logging.rs:119-121 | after well-nested events the flag is that of the innermost open scope |
| `DebugScope.FlagIsInnermostMidway` | src/logging.rs:119-121 | so under any interleaving, at every moment of a call, a thread sees the flag of the innermost scope it is in |
| `Utf8.BoundaryCuts` | src/expansions.rs:39-56 | a slice index passes the boundary test exactly when both parts are valid UTF-8 |
| `Unicode.ValidIffEncodes` | src/cmd.rs:176-181 | valid UTF-8 is exactly what encodes some scalar values: no surrogates, nothing overlong and nothing above U+10FFFF |

## Left out

- Steps by root, access control lists, mounts, and file descriptors opened for writing before the validation.
- Search permission on directories and the emptiness of removed directories: the model lets others do more than the kernel does.
- System calls are atomic: resolution of one path, canonicalisation and one read each happen at one moment, with steps of others before, not within.
- The kernel's limit on symbolic links is a fixed 40 per resolution; permission errors are among the faults that a call may report.
- The legacy read of a policy file and the resolution of a strict helper's path to the command that is run: a source is a text, missing or unavailable.
- Error texts: errors are told apart as far as the code branches on them or the theorems need it.
- Starting a helper (`src/cmd.rs:57-100`): group lookup, resource limits and the change of user and group are one outcome, spawned or not; the kill and wait of `terminate_and_reap` are taken to succeed.
- Poll results other than "something happened", "a signal" and "an error": the loop reads both streams after any of the first.
- HonestPolls: the millisecond bound of `WaitForOutput` and `WaitForConnect` counts from a kernel that returns within the timeout it was given to each of their polls; scheduling delays come on top.
- The effect of the agent timeout on what an agent answers: `StrictNarrowsIff` compares runs that meet the same answers.
- Limits on the length of user names, and which uids a system hands out: any number below 2^32 may belong to any plain name.
- Sub-microsecond rounding of socket timeouts, and raw socket setup (`src/agent_connection.rs:23-90`).
- Signature verification, certificate validation at a time, the parser of authorized_keys lines, the agent protocol, randomness and the clock: uninterpreted functions.
- User, host and environment lookups (`src/environment.rs`): deterministic functions that may fail.
- PAM entry points and item access, the syslog connection and logger initialisation.
- Values that hold a '%': the theorems on substitution and on shared files are for host names and home directories without one; they may hold '~' and '/'.
- Unsafe templates beyond `TrappedUsers.TrappedUserShares`, in which a host name is the first value that can complete a `%`, or the uid stands before the user: whether two users share their file depends on what the host is called.
