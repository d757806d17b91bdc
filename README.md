# Karta: the OpenSSL seeker and the IDA command-line adapter, in Dafny

This project models two parts of Karta, a tool that finds open-source
libraries inside binaries.

- The OpenSSL seeker (`src/libs/openssl.py`). `searchLib` makes one pass
  over the strings of a binary and fills an evidence list from two rules:
  - the banner rule keeps a string from its first `" part of OpenSSL "` on,
    but only when one of ten keyword ids also occurs in it;
  - the cellar rule keeps the path segment after `/Cellar/openssl`.

  Both rules share one seen-set and one match counter. `identifyVersions`
  then turns each entry into a version token.
- The IDA adapter (`src/disassembler/IDA/ida_cmd_api.py`):
  - `identify` recognises IDA from the path of its executable;
  - `name` returns the program name;
  - `createDatabase` runs IDA in batch mode to build a `.i64` database,
    unless one is already present.

Modules:

- `Strings` (`strings.dfy`): the Python string operations the code relies on:
  - `find`, with and without a start index;
  - `in` on strings;
  - `rfind` of one character;
  - `startswith`;
  - `lower`.
- `LibTemplate` (`lib_template.dfy`): the version scan `extractVersion`, which
  every seeker inherits. Its code is not part of this model. Its contract is
  assumed: it takes the longest run of legal characters starting at the given
  index, and gives the empty string when the index is at or past the end.
- `OpenSSL` (`openssl.dfy`): the constants and the seeker.
  - `Step` states one iteration of the loop of `searchLib`, and `Scan` the
    whole pass.
  - The class `OpenSSLSeeker` holds the corpus and the evidence list, and its
    methods run the loops with the original's locals.
  - Each `continue` of the loop body is an early `return` from the helper
    method that runs the body.
- `OpenSSLProperties` (`openssl_properties.dfy`): what one pass guarantees.
  - The evidence list, the seen-set and the counter stay in step.
  - Each entry comes from a corpus string by one of the two rules.
  - Entries keep encounter order.
  - Strings seen before add nothing.
- `IdaCmd` (`ida_cmd.dfy`): the adapter. The filesystem and the shell are a
  `Shell` object: the set of existing files and the log of commands run. What
  a command creates and the status it reports are parameters.

Where the documented behaviour and the code differ, the model follows the code:

- The cellar rule's length gate (`src/libs/openssl.py:49`) compares the
  length of the WHOLE string with `len("/Cellar/openssl") + 4`. It does not
  look at what remains after the marker. `CellarGateOnWholeString` exhibits
  two strings that have the same text after the marker but fall on opposite
  sides of the gate.
- The duplicate test `match_counter >= 1 and x in seen_copyrights` is
  described as exempting the first occurrence. While the counter is 0 the
  seen-set is empty, so the test is plain membership and exempts nothing
  (`GuardIsMembership`). The outcome is the same: the first match is always
  stored.
- A duplicate banner ends the iteration with `continue`, so the cellar rule
  is not applied to that string even when it would store a new version.
  This is modelled as written (`DuplicateBannerSkipsCellar`).

## Model

| member | source | states |
|---|---|---|
| `Strings.FindFrom` | src/libs/openssl.py:54 | `s.find(pat, start)` returns -1 or an index at or after `start` where the whole pattern fits |
| `Strings.FindFromIsFirst` | src/libs/openssl.py:54-56 | the result of `find` from `start` is the first occurrence at or after `start`, and -1 exactly when there is none |
| `Strings.Find` | src/libs/openssl.py:39 | `s.find(pat)` returns -1 or an index where the pattern fits |
| `Strings.FindIsFirst` | src/libs/openssl.py:39 | `find` returns the first occurrence, and -1 exactly when the pattern occurs nowhere |
| `Strings.Contains` | src/libs/openssl.py:34 | `pat in s`: the pattern occurs somewhere in `s` |
| `Strings.ContainsIffOccurs` | src/libs/openssl.py:34 | `pat in s` holds exactly when the pattern occurs at some index |
| `Strings.LastIndexOf` | src/disassembler/IDA/ida_cmd_api.py:19 | the last `/` (the split point of `os.path.split`): -1 exactly when there is none; otherwise that index holds `/` and no later one does |
| `Strings.StartsWith` | src/disassembler/IDA/ida_cmd_api.py:19 | `s.startswith(p)`: `p` is no longer than `s` and is its prefix |
| `Strings.LowerChar` | src/disassembler/IDA/ida_cmd_api.py:19 | `lower()` on one character: `A`-`Z` map to `a`-`z`, every other character is kept |
| `Strings.ToLower` | src/disassembler/IDA/ida_cmd_api.py:19 | `lower()` keeps the length and lower-cases each character in place |
| `Strings.LowerSuffix` | src/disassembler/IDA/ida_cmd_api.py:19 | lower-casing a suffix is the same as taking the suffix of the lower-cased string |
| `LibTemplate.RunEnd` | src/libs/openssl.py:90 | the run of legal characters from an index ends at the end of the text or at the first illegal character |
| `LibTemplate.ExtractVersion` | src/libs/openssl.py:90 | (assumed contract) the token is the slice at `start_index`, made only of legal characters, and maximal; it is empty when the index is at or past the end |
| `LibTemplate.VersionCharsAreLegal` | src/libs/openssl.py:90 | `digits + ascii_lowercase + '.'` holds exactly the digits, the lower-case ASCII letters and `.` |
| `LibTemplate.DigitsAreDigits` | src/libs/openssl.py:90 | `string.digits` holds exactly `0`-`9` |
| `LibTemplate.LowercaseAreLetters` | src/libs/openssl.py:90 | `string.ascii_lowercase` holds exactly `a`-`z` |
| `LibTemplate.ExtractStopsAtIllegal` | src/libs/openssl.py:94 | the scan stops at the first character outside the class: `"1.2.3g-dev"` gives `"1.2.3g"` |
| `OpenSSL.ConstantsShape` | src/libs/openssl.py:8-25 | the banner marker is `" part of "`, the library name and a space; the cellar marker is the 15-character path component `/Cellar/openssl`; the ten keyword ids are distinct; the version alphabet has 37 characters, `.` among them and `/` not |
| `OpenSSL.MatchingIds` | src/libs/openssl.py:37 | the list comprehension over `ids` keeps exactly the ids that occur in the string, and is no longer than `ids` |
| `OpenSSL.IsBanner` | src/libs/openssl.py:34-37 | the banner rule fires: the string holds the marker and at least one keyword id |
| `OpenSSL.Chop` | src/libs/openssl.py:39 | the banner entry: the string from the first occurrence of the marker to its end |
| `OpenSSL.DuplicateBanner` | src/libs/openssl.py:40-41 | the banner rule's `continue`: a banner whose chopped string is already seen while the counter is at least 1 |
| `OpenSSL.Accept` | src/libs/openssl.py:44-47 | a valid match appends the value to the evidence list, adds it to the seen-set and increments the counter |
| `OpenSSL.BannerStep` | src/libs/openssl.py:34-47 | stores the chopped string of a banner and leaves a non-banner unchanged; it does not test for duplicates itself: `Step` applies it only when the banner is not a duplicate (lines 40-41) |
| `OpenSSL.CellarGate` | src/libs/openssl.py:48-51 | the cellar rule goes on only for a string that holds the cellar marker and is at least 19 characters long |
| `OpenSSL.MarkerEnd` | src/libs/openssl.py:53-54 | the index right after the first cellar marker, where the search for the first `/` starts |
| `OpenSSL.SegmentAfter` | src/libs/openssl.py:56-60 | the text after a `/` up to the next `/`, or to the end when there is none |
| `OpenSSL.CellarVersion` | src/libs/openssl.py:53-60 | the cellar version: `None` when no `/` follows the marker at an index above 0, otherwise the segment after that `/` |
| `OpenSSL.CellarStep` | src/libs/openssl.py:48-67 | the cellar rule: past the gate and with a version found, it stores the version unless it was already seen |
| `OpenSSL.Step` | src/libs/openssl.py:31-67 | one iteration: a duplicate banner ends it with nothing changed; otherwise the banner rule, then the cellar rule on the same string |
| `OpenSSL.Scan` | src/libs/openssl.py:28-67 | the state after one pass over a corpus, from an empty list, an empty seen-set and a zero counter |
| `OpenSSL.OpenSSLSeeker.SearchLib` | src/libs/openssl.py:14-70 | resets the evidence list, so nothing from an earlier call survives; afterwards it is the entries of one pass over all strings; the return value is its length |
| `OpenSSL.OpenSSLSeeker.SearchString` | src/libs/openssl.py:31-67 | one loop iteration takes the list, seen-set and counter to exactly `Step` of them |
| `OpenSSL.OpenSSLSeeker.BannerRule` | src/libs/openssl.py:34-47 | the banner rule `continue`s exactly on a banner whose chopped string was already seen, and changes nothing then; otherwise it stores the chopped string of a banner and leaves a non-banner unchanged |
| `OpenSSL.OpenSSLSeeker.CellarRule` | src/libs/openssl.py:48-67 | the cellar rule takes the state to exactly `CellarStep`: length gate, first `/` after the marker, segment up to the next `/`, duplicate test |
| `OpenSSL.OpenSSLSeeker.IdentifyVersions` | src/libs/openssl.py:86-98 | only reads the evidence list; returns the non-empty tokens in entry order, at most one per entry, each made of `[0-9a-z.]` |
| `OpenSSL.ScanSnoc` | src/libs/openssl.py:31 | one more corpus string is one more iteration of the loop |
| `OpenSSL.ExtractedAreVersionChars` | src/libs/openssl.py:90 | every token of the OpenSSL scan is made of digits, lower-case letters and `.` |
| `OpenSSL.StartIndex` | src/libs/openssl.py:89-90 | where the token scan starts: right after `"OpenSSL"` and one more character for an entry that names the library, 0 for any other entry |
| `OpenSSL.Token` | src/libs/openssl.py:89-94 | the token of one entry: the scan of `[0-9a-z.]` characters from its start index |
| `OpenSSL.Versions` | src/libs/openssl.py:86-98 | the tokens of the entries in entry order, the empty ones dropped |
| `OpenSSL.VersionsSnoc` | src/libs/openssl.py:88-96 | one more entry appends its token exactly when that token is non-empty |
| `OpenSSL.VersionsWellFormed` | src/libs/openssl.py:86-98 | at most one token per entry; each token is non-empty and made of `[0-9a-z.]` |
| `OpenSSLProperties.AcceptKeepsConsistent` | src/libs/openssl.py:44-47 | storing an unseen value keeps the list free of duplicates, keeps the seen-set equal to the set of entries, and keeps the counter equal to the length |
| `OpenSSLProperties.GuardIsMembership` | src/libs/openssl.py:40 | `match_counter >= 1 and x in seen` is equivalent to `x in seen` whenever the state is consistent |
| `OpenSSLProperties.StepKeepsConsistent` | src/libs/openssl.py:31-67 | one iteration keeps the deduplication invariant |
| `OpenSSLProperties.ScanConsistent` | src/libs/openssl.py:28-67 | after the pass the list has no duplicates; the one seen-set shared by both rules is its set of entries; the counter is its length, and it is at least 1 exactly when something was seen |
| `OpenSSLProperties.BannerNeedsKeyword` | src/libs/openssl.py:34-37 | a string is a banner exactly when it holds the marker and at least one of the ten ids |
| `OpenSSLProperties.StepAppends` | src/libs/openssl.py:31-67 | one iteration only appends, at most two entries; each comes from the current string; when there are two, the banner entry comes first; the seen-set and the counter only grow |
| `OpenSSLProperties.EntryOrigin` | src/libs/openssl.py:28-67 | every stored entry is the banner entry or the cellar entry of some string of the corpus |
| `OpenSSLProperties.ScanExtends` | src/libs/openssl.py:31-67 | scanning more strings only appends entries: encounter order is kept |
| `OpenSSLProperties.NoMarkersNoEntries` | src/libs/openssl.py:34-48 | a corpus without either marker yields an empty list |
| `OpenSSLProperties.BannerEntryShape` | src/libs/openssl.py:39 | a banner entry starts with the marker; its first `"OpenSSL"` is at index 9, so the token scan of `identifyVersions` starts right after the marker |
| `OpenSSLProperties.MarkerFirstName` | src/libs/openssl.py:89-90 | in a string that starts with the marker, `find("OpenSSL")` is 9 |
| `OpenSSLProperties.SlashSearch` | src/libs/openssl.py:54-56 | `find("/", start)` gives the first `/` at or after `start`, or -1 when there is none |
| `OpenSSLProperties.CellarEntryHasNoSlash` | src/libs/openssl.py:56-60 | a cellar entry never contains `/` |
| `OpenSSLProperties.CellarEntryAbsent` | src/libs/openssl.py:53-55 | the cellar rule finds no version exactly when no `/` follows the marker |
| `OpenSSLProperties.CellarEntryBetweenSlashes` | src/libs/openssl.py:53-60 | the cellar entry is the text after the first `/` at or after the end of the marker, up to the next `/` or the end of the string |
| `OpenSSLProperties.CellarGateOnWholeString` | src/libs/openssl.py:48-51 | the gate is on the whole length: `"x/Cellar/openssl/3"` (18 characters) stores nothing, `"xy/Cellar/openssl/3"` (19) stores `"3"` |
| `OpenSSLProperties.DuplicateBannerSkipsCellar` | src/libs/openssl.py:40-41 | a duplicate banner leaves the state unchanged and skips the cellar rule for that string, even when its cellar version is new |
| `OpenSSLProperties.NewBannerKeepsCellar` | src/libs/openssl.py:34-67 | a banner not stored before does not end the iteration: its chopped string and its cellar version both end up seen, and when the version is new it is stored right after the banner |
| `OpenSSLProperties.AbsorbedAfterStep` | src/libs/openssl.py:40-67 | after a string is processed, processing it again would store nothing: a banner's chopped string is seen, and so is the cellar version of a string that is not a banner. The cellar version of a banner is covered only by `NewBannerKeepsCellar` and `DuplicateBannerSkipsCellar` |
| `OpenSSLProperties.AbsorbedIsNoOp` | src/libs/openssl.py:40-64 | a string whose contributions are all seen leaves the state unchanged |
| `OpenSSLProperties.AbsorbsPersists` | src/libs/openssl.py:31-67 | once a string's contributions are seen, they stay seen for the rest of the pass |
| `OpenSSLProperties.ScanIgnoresRepeats` | src/libs/openssl.py:28-67 | appending strings that already occurred in the corpus changes nothing; two identical banners are counted once |
| `OpenSSLProperties.ScanTwiceIsScanOnce` | src/libs/openssl.py:28-70 | scanning the corpus twice over gives the same entries and count as scanning it once |
| `IdaCmd.Basename` | src/disassembler/IDA/ida_cmd_api.py:19 | `os.path.split(path)[-1]` is the suffix after the last `/`, and holds no `/` |
| `IdaCmd.Stem` | src/disassembler/IDA/ida_cmd_api.py:19 | `split(".")[0]` is the prefix before the first `.`, and holds no `.` |
| `IdaCmd.Identify` | src/disassembler/IDA/ida_cmd_api.py:19 | `identify(path)`: the lower-cased text of the file name before its first `.` starts with `ida` |
| `IdaCmd.IdentifyIff` | src/disassembler/IDA/ida_cmd_api.py:19 | `identify` holds exactly when the file name starts with `i`, `d`, `a` in either case |
| `IdaCmd.StemStartsWithIda` | src/disassembler/IDA/ida_cmd_api.py:19 | cutting the name at the first `.` does not change whether it starts with `ida` up to case |
| `IdaCmd.StemKeepsIda` | src/disassembler/IDA/ida_cmd_api.py:19 | a name starting with `ida` up to case keeps those three characters in its stem |
| `IdaCmd.StemLowerPrefix` | src/disassembler/IDA/ida_cmd_api.py:19 | the first three characters of the lower-cased stem are those of the name, lower-cased |
| `IdaCmd.StartsWithIda` | src/disassembler/IDA/ida_cmd_api.py:19 | `startswith("ida")` holds exactly when the first three characters are `i`, `d`, `a` |
| `IdaCmd.StemKeepsPrefix` | src/disassembler/IDA/ida_cmd_api.py:19 | a prefix without `.` is kept by the stem |
| `IdaCmd.IdentifyDependsOnBasename` | src/disassembler/IDA/ida_cmd_api.py:19 | the directory part of the path plays no role |
| `IdaCmd.BasenameOfJoin` | src/disassembler/IDA/ida_cmd_api.py:19 | the file name of `dir + "/" + name` is `name` |
| `IdaCmd.BasenameOfName` | src/disassembler/IDA/ida_cmd_api.py:19 | a name without `/` is its own file name |
| `IdaCmd.LowerKeepsLastSlash` | src/disassembler/IDA/ida_cmd_api.py:19 | lower-casing does not move the last `/` |
| `IdaCmd.LowerBasename` | src/disassembler/IDA/ida_cmd_api.py:19 | the file name of the lower-cased path is the lower-cased file name |
| `IdaCmd.StartsIdaLower` | src/disassembler/IDA/ida_cmd_api.py:19 | lower-casing before the test changes nothing |
| `IdaCmd.IdentifyCaseInsensitive` | src/disassembler/IDA/ida_cmd_api.py:19 | two paths equal up to case are both recognised or both not |
| `IdaCmd.IdentifyName` | src/disassembler/IDA/ida_cmd_api.py:19 | a bare file name is recognised exactly when it starts with `ida` up to case |
| `IdaCmd.IdentifyIda64Exe` | src/disassembler/IDA/ida_cmd_api.py:19 | `ida64.exe` is recognised |
| `IdaCmd.IdentifyIdaApp` | src/disassembler/IDA/ida_cmd_api.py:19 | `IDA.app` is recognised |
| `IdaCmd.IdentifyRejectsNotida` | src/disassembler/IDA/ida_cmd_api.py:19 | `notida` is not recognised |
| `IdaCmd.IdentifyRejectsCutName` | src/disassembler/IDA/ida_cmd_api.py:19 | `id.a` is not recognised: only the text before the first `.` counts |
| `IdaCmd.IdentifyIgnoresDirectory` | src/disassembler/IDA/ida_cmd_api.py:19 | `/opt/ida/ghidra` is not recognised: an `ida` directory does not count |
| `IdaCmd.Name` | src/disassembler/IDA/ida_cmd_api.py:29 | the program name is three characters long and is itself recognised by `identify` |
| `IdaCmd.DatabasePath` | src/disassembler/IDA/ida_cmd_api.py:42-43 | the database path is the binary's path followed by four more characters |
| `IdaCmd.DatabasePathInjective` | src/disassembler/IDA/ida_cmd_api.py:42-43 | different binaries get different database paths, and no database path is its binary's path |
| `IdaCmd.CreateCommand` | src/disassembler/IDA/ida_cmd_api.py:47 | the batch command line: the tool path, ` -A -B -o`, the database path, a space and the binary path |
| `IdaCmd.Shell.Exists` | src/disassembler/IDA/ida_cmd_api.py:44 | `os.path.exists`: the file is in the shell's set of files |
| `IdaCmd.WaitStatusToExitCode` | src/disassembler/IDA/ida_cmd_api.py:48 | `os.waitstatus_to_exitcode` on POSIX: the exit code (0 to 255) of a process that exited, minus the signal number of one that was killed; no value where it raises, outside the C `int` range or for a stopped or invalid status |
| `IdaCmd.ExitedRoundTrip` | src/disassembler/IDA/ida_cmd_api.py:48 | the status of a process that exited with `code` converts back to `code` |
| `IdaCmd.SignaledRoundTrip` | src/disassembler/IDA/ida_cmd_api.py:48 | the status of a process killed by a signal, with or without a core dump, converts to minus the signal number |
| `IdaCmd.ConversionRaises` | src/disassembler/IDA/ida_cmd_api.py:48 | the conversion raises on -1 (the shell could not be started), on a stopped process and past the C `int` range |
| `IdaCmd.Shell.System` | src/disassembler/IDA/ida_cmd_api.py:47 | `os.system` appends the command to the log, adds what the command creates, and returns the supplied status |
| `IdaCmd.IdaCMD.CreateDatabase` | src/disassembler/IDA/ida_cmd_api.py:32-51 | any path it returns is `binary + ".i64"`; when skipping is on and the file exists, it returns that path and nothing runs or changes; otherwise exactly one `<tool> -A -B -o<db> <binary>` command runs, and the path is returned exactly when the wait status converts to an exit code (the call raises otherwise); the exit code itself is not used |
| `IdaCmd.CreateTwice` | src/disassembler/IDA/ida_cmd_api.py:44-47 | two calls with skipping on, where the first call creates the database, run the tool at most once, and not at all when the database existed before; the files are those before plus what that one run created; the second call returns the path even when the first raised |

## Left out

- Logging (`logger.debug`) and the string addresses (`bin_str.ea`) it prints are not modelled. They do not affect the results.
- How `_all_strings` is collected from the binary, and the `Seeker` base class, are not part of this model. The corpus is a constructor parameter.
- `LibTemplate.ExtractVersion`: `extractVersion` lives in `lib_template.py`, which is not part of this model. Its contract is assumed, not derived from code.
- The registries are left out. `OpenSSLSeeker.register` (`src/libs/openssl.py:102`) records the class under its `NAME`. `registerDisassemblerCMD` (`src/disassembler/IDA/ida_cmd_api.py:65`) records the class together with its `identify` predicate, which the adapter registry tries in registration order to resolve a tool path. The code of both registries is in files that are not part of this model.
- `executeScript` is left out. It builds and runs one shell command, with no result and no state.
- Strings.ToLower: only ASCII letters are lower-cased. Python's `str.lower` also maps non-ASCII letters, and can change the length.
- IdaCmd.Basename: only `/` separates directories. `os.path.split` on Windows also splits on `\`.
- IdaCmd.WaitStatusToExitCode: only the POSIX conversion is modelled. On Windows `os.waitstatus_to_exitcode` shifts the status right by 8 and raises `OverflowError` on a negative status; that variant is not modelled.
- IdaCmd.IdaCMD.CreateDatabase: the default `skip_present=True` is not modelled, because Dafny has no default arguments; every caller passes `skipPresent`. The shell's effect on the filesystem and its wait status are parameters, not real I/O. The exception is modelled as a missing result, not as a raised error that callers could catch.
- `is_windows` has no effect in the source and has none in the model.
- `str(bin_str)` is taken to be the identity: corpus items are strings.
