# OneDrive name sanitizer, modelled in Dafny

`rename-for-onedrive.py` walks a user's OneDrive folders on macOS and renames
every file and directory whose name the OneDrive client would refuse. This
project models the core of that script as pure Dafny functions and proves
properties of them:

- **The name pipeline** (`normalizer.dfy`, `underscores.dfy`). This is what the
  script applies to each name, in the script's order:
  1. The accent filter (force mode only).
  2. Full strip of leading and trailing spaces.
  3. Full strip of trailing dots.
  4. Replacement of 16 forbidden characters by `_` (blacklist mode only).
  5. A `_` prefix for the 24 reserved device names.
  6. Truncation to 249 characters.
  7. Collapse of `__` runs, only inside `/Users/`.
- **The `-Copy` loop** (`collisions.dfy`). It finds a free target name by
  appending `-Copy0`, `-Copy1`, … to the name it already has.
- **The per-directory step** (`sanitizer.dfy`). The script goes through the
  file names and then the subdirectory names of one directory. It logs each
  change and renames through the `-Copy` loop. It records failed renames, and
  it queues renamed directories so the walk still descends into them. A
  directory is a `map<string, bool>` from entry name to "is a directory". The
  outcome of each `os.rename` is an oracle: one boolean per entry.
- **The OneDrive folder search** (`folder_search.dfy`). At each directory it:
  1. Prunes `Library` and `.Trash`.
  2. Records the subdirectories matching `*[Oo][Nn][Ee][Dd][Rr][Ii][Vv][Ee]*`.
  3. Does not descend into the recorded ones.

  The glob is modelled by a small `fnmatch` matcher. The lemma
  `OneDriveMatchIff` proves that it accepts exactly the names that contain
  `onedrive` in any mix of ASCII letter cases.
- `lists.dfy` holds the two list facts the search needs: directory listings are
  distinct, and `list.remove` drops the first occurrence.

The model follows the code where a natural reading of the script's intent
would differ:

- Spaces are stripped fully with `lstrip`/`rstrip`, not one character at each
  end.
- An empty result gets no placeholder. A name made only of dots becomes `""`.
  Joining a directory with `""` names the directory itself, so `""` always
  counts as taken and the `-Copy` loop moves on to `-Copy0`.
- The collision suffix goes after the extension and accumulates: `cafe.txt`,
  then `cafe.txt-Copy0`, then `cafe.txt-Copy0-Copy1`.
- Force mode skips stage 4, so ASCII forbidden characters such as `:` survive.
- A name with no character other than a space after stage 1 makes the script
  raise `IndexError` at its `name[0]`/`name[-1]` tests. The pipeline requires
  `Sanitizable`, and a directory visit ends in `Crashed` at the first such
  name.
- The failed-rename log line formats only the directory. The message has one
  placeholder and two arguments, so `RenameFailed` carries the directory.
- The result is not idempotent, and it may end in a space or a dot:
  - `SpaceBeforeDot` shows `a .` leaving stage 3 as `a `.
  - Truncation can expose a trailing `.` or space.

## Model

| member | source | states |
|---|---|---|
| Normalizer.AsciiOnly | rename-for-onedrive.py:58 | `encode('ascii', 'ignore')`; its contract says only that it never lengthens the name, and `AsciiOnlyMembers` and `AsciiOnlyAppend` specify which characters it keeps and in what order |
| Normalizer.Decode | rename-for-onedrive.py:140-149 | stage 1: the accent filter in force mode, the name itself in blacklist mode; it has no contract of its own, and `RemoveAccentsAndAll` and `SanitizeCharacters` state what it yields |
| Normalizer.AsciiOnlyMembers | rename-for-onedrive.py:56-62 | the ASCII filter keeps exactly the characters below 128 and leaves an all-ASCII name unchanged |
| Normalizer.AsciiOnlyAppend | rename-for-onedrive.py:58 | the filter distributes over concatenation, so it keeps the ASCII characters in their original order |
| Normalizer.RemoveAccentsAndAll | rename-for-onedrive.py:49-64 | the force-mode result is all ASCII and uses only characters of the NFD form |
| Normalizer.LStrip | rename-for-onedrive.py:155 | the result is a suffix of the input, everything removed was the stripped character, and the result does not start with it |
| Normalizer.RStrip | rename-for-onedrive.py:158 | the result is a prefix of the input, everything removed was the stripped character, and the result does not end with it |
| Normalizer.StripSpaces | rename-for-onedrive.py:152-158 | the result is non-empty, neither starts nor ends with a space, and is the input with a run of spaces removed from each end and nothing else |
| Normalizer.Sanitizable | rename-for-onedrive.py:153-156 | the name survives the `name[0]`/`name[-1]` tests without `IndexError` exactly when stage 1 leaves a character other than a space; it has no contract of its own, and `StripSpaces` requires it and states the non-empty result |
| Normalizer.StripDots | rename-for-onedrive.py:161-164 | the result is a prefix of the input, only dots were removed, and it does not end with `.` |
| Normalizer.StagesKeepCharacters | rename-for-onedrive.py:152-164 | stages 2 and 3 only remove characters |
| Normalizer.UnpaddedKept | rename-for-onedrive.py:152-164 | a name with no space at either end and no trailing dot passes stages 2 and 3 unchanged |
| Normalizer.SpaceBeforeDot | rename-for-onedrive.py:152-164 | `a .` leaves stage 3 as `a `, which a second space strip would change, so the pipeline is not idempotent |
| Normalizer.ReplaceChar | rename-for-onedrive.py:169 | `str.replace` of one character: same length, each occurrence of the character replaced and every other position kept |
| Normalizer.ReplaceEach | rename-for-onedrive.py:166-169 | the chain of single-character `replace` calls turns each listed character into `_` and keeps every other character at its position |
| Normalizer.ReplaceEachIsReplaceAll | rename-for-onedrive.py:168-169 | when `_` is not listed, the sequential replacements equal one simultaneous replacement |
| Normalizer.ForbiddenLoop | rename-for-onedrive.py:166-169 | the script's loop over its 16 forbidden characters is stage 4 as used by the pipeline |
| Normalizer.ForbiddenRemoved | rename-for-onedrive.py:166-169 | after stage 4 no forbidden character is left |
| Normalizer.ForbiddenFreeUnchanged | rename-for-onedrive.py:166-169 | stage 4 leaves a name without forbidden characters unchanged |
| Normalizer.ReplaceForbidden | rename-for-onedrive.py:166-169 | stage 4 as the pipeline runs it; it has no contract of its own, and `ForbiddenLoop` equates it with the script's loop while `ForbiddenRemoved` and `ForbiddenFreeUnchanged` state what it yields |
| Normalizer.PrefixReserved | rename-for-onedrive.py:171-175 | the loop over reserved names prefixes `_` exactly when the name is in the list, and at most once |
| Normalizer.ReservedNamesExactly | rename-for-onedrive.py:110-112 | the 24 listed names are exactly AUX, PRN, NUL, CON, and COM or LPT followed by one digit |
| Normalizer.ReservedLoop | rename-for-onedrive.py:171-175 | the script's loop over its 24 names is stage 5: exactly the reserved names, compared case-sensitively, get one `_` in front |
| Normalizer.GuardNotReserved | rename-for-onedrive.py:171-175 | the result of stage 5 is never a reserved name |
| Normalizer.GuardReserved | rename-for-onedrive.py:171-175 | stage 5 as the pipeline runs it; it has no contract of its own, and `ReservedLoop` equates it with the script's loop while `GuardNotReserved` states that its result is never reserved |
| Normalizer.ReservedShape | rename-for-onedrive.py:110-112 | reserved names are at most 4 characters and hold neither `_` nor a forbidden character |
| Normalizer.ReservedNameIsPrefixed | rename-for-onedrive.py:171-189 | a name that is reserved after stages 2 and 3 comes out as `_` followed by that name, in both modes and both partitions |
| Normalizer.ReservedSpellings | rename-for-onedrive.py:152-175 | `CON`, `CON.` and `CON ` all reach stage 5 as the reserved `CON` |
| Normalizer.LowerCaseNotReserved | rename-for-onedrive.py:171-175 | `con` is not reserved and passes stage 5 unchanged, because the comparison is case-sensitive |
| Normalizer.Truncate | rename-for-onedrive.py:181-184 | names of at most 249 characters are kept, and longer ones keep exactly their first 249 |
| Normalizer.Sanitize | rename-for-onedrive.py:140-189 | the result has at most 249 characters and, inside `/Users/`, holds no `__` |
| Normalizer.SanitizeSqueezesUnderscores | rename-for-onedrive.py:186-189 | inside `/Users/` every underscore run of the truncated name becomes one `_`; outside it the runs are kept exactly |
| Normalizer.SanitizeCharacters | rename-for-onedrive.py:140-189 | blacklist mode leaves no forbidden character and force mode leaves only ASCII, and no later stage brings a removed character back |
| Normalizer.GuardedFacts | rename-for-onedrive.py:140-175 | after stage 5: no forbidden character in blacklist mode, only ASCII in force mode, never a reserved name |
| Normalizer.Guarded | rename-for-onedrive.py:140-175 | stages 1 to 5 in the script's order; it has no contract of its own, and `GuardedFacts` states what its result holds |
| Normalizer.SanitizeNeverReserved | rename-for-onedrive.py:171-189 | the final name is never a reserved name, even after truncation and collapsing |
| Normalizer.CleanNameKept | rename-for-onedrive.py:140-189 | a decoded name that already meets every rule is the result, unchanged |
| Normalizer.ForceKeepsColon | rename-for-onedrive.py:166-167 | in force mode a name `a:b` keeps its `:` |
| Underscores.ReplaceDouble | rename-for-onedrive.py:189 | `replace('__', '_')`, a left-to-right scan over non-overlapping pairs; it has no contract of its own, and `ReplaceDoubleFacts` and `SqueezeReplaceDouble` specify it |
| Underscores.ReplaceDoubleFacts | rename-for-onedrive.py:189 | one `replace('__', '_')` never lengthens the name, strictly shortens it when there is a `__`, adds no character and keeps at least one `_` |
| Underscores.Collapse | rename-for-onedrive.py:188-189 | the loop terminates with no `__`, is no longer than its input, adds no character and keeps an underscore when there was one |
| Underscores.HasDouble | rename-for-onedrive.py:188 | the test `'__' in name`; it has no contract of its own, and `Collapse` ensures its result fails it |
| Underscores.SqueezeReplaceDouble | rename-for-onedrive.py:189 | one replace pass does not change the squeezed form |
| Underscores.CollapseIsSqueeze | rename-for-onedrive.py:186-189 | the collapse loop yields exactly the name with each underscore run shrunk to one `_` |
| Underscores.SqueezeNoDouble | rename-for-onedrive.py:188 | a name without `__` is its own squeezed form |
| Underscores.CollapseNoDouble | rename-for-onedrive.py:188 | a name without `__` is left alone by the loop |
| Underscores.PrefixNoDouble | rename-for-onedrive.py:175 | one `_` in front of a name without `_` creates no `__` |
| Collisions.Taken | rename-for-onedrive.py:205 | `os.path.exists(os.path.join(root, name))`: the name is in the directory, or is empty and so names the directory itself; `ResolveFree` and `ResolveFreeIsFirstFree` state the loop's results in terms of it |
| Collisions.DecimalString | rename-for-onedrive.py:208 | `str(increment)` is a non-empty string of digits |
| Collisions.DecimalRoundTrip | rename-for-onedrive.py:208 | reading `str(n)` back gives `n` |
| Collisions.ResolveFrom | rename-for-onedrive.py:205-209 | the loop from any pass on ends at a free name that extends its start, and returns a free start unchanged |
| Collisions.ResolveFree | rename-for-onedrive.py:201-209 | the target is free, starts with the sanitized candidate, and is the candidate itself when that is free |
| Collisions.FirstFreeIndex | rename-for-onedrive.py:205-209 | the least index from `k` on whose chain name is free: every earlier chain name is taken |
| Collisions.ResolveFromChain | rename-for-onedrive.py:205-209 | the loop from pass `k` returns the chain name at the first free index |
| Collisions.ResolveFreeIsFirstFree | rename-for-onedrive.py:201-209 | the target is the first free name of the chain `name`, `name-Copy0`, `name-Copy0-Copy1`, … |
| Sanitizer.OutsideUserPartition | rename-for-onedrive.py:125-127 | the folder counts as inside the user partition exactly when its absolute path starts with `/Users/` |
| Sanitizer.Step | rename-for-onedrive.py:192-220 | an unchanged name is neither renamed nor logged; otherwise one `Renaming` record with the pre-suffix name, plus an error record on failure; a successful rename moves the entry to a free name and keeps its kind; a failed one changes no entry; no other entry changes; only a successfully renamed directory is queued |
| Sanitizer.SanitizedPrefix | rename-for-onedrive.py:136-158 | the sanitized name of each entry is `Sanitize` of that entry, for every entry up to the first one whose name raises `IndexError`, which it stops before |
| Sanitizer.Walk | rename-for-onedrive.py:136-220 | the loop stops exactly when an entry has no sanitized name, at that entry |
| Sanitizer.VisitEntries | rename-for-onedrive.py:136-220 | a visit crashes exactly when some entry cannot be sanitized, and it crashes at the first such entry of the list, every earlier entry being sanitizable |
| Sanitizer.WalkKeepsEntries | rename-for-onedrive.py:201-215 | no entry is lost or overwritten, and entries outside the visited names keep their kind |
| Sanitizer.WalkAppends | rename-for-onedrive.py:192-220 | the log and the pending subdirectory list only grow |
| Sanitizer.WalkQueuesDirectories | rename-for-onedrive.py:218-220 | every queued name is a directory when the visit ends, under a name that was free before it or that it vacated |
| Sanitizer.VisitFacts | rename-for-onedrive.py:136-220 | the walk lemmas combined for a whole directory visit |
| Sanitizer.SanitizeDirectory | rename-for-onedrive.py:134-136 | the visit of one directory keeps the walk's subdirectory list as a prefix of the pending list, only appends to the log, and crashes exactly when a name of `filenames + dirnames` cannot be sanitized, at the first such name |
| Lists.RemoveFirst | rename-for-onedrive.py:44 | `list.remove` shortens the list by one, keeps every other value, and removes the only copy from a distinct list |
| Lists.RemoveEach | rename-for-onedrive.py:42-44 | removing distinct present values one by one leaves exactly the others, still distinct |
| FolderSearch.Matches | rename-for-onedrive.py:42 | `fnmatch` for patterns of `*` and character classes, case-sensitive as on POSIX; it has no contract of its own, and `StarMatchesAll`, `ClassesThenStar`, `LeadingStar` and `OneDriveMatchIff` specify it |
| FolderSearch.StarMatchesAll | rename-for-onedrive.py:42 | the glob `*` matches every name |
| FolderSearch.ClassesThenStar | rename-for-onedrive.py:42 | character classes followed by `*` match exactly the names whose first characters fall in the classes |
| FolderSearch.LeadingStar | rename-for-onedrive.py:42 | a leading `*` lets the rest of the pattern match any suffix |
| FolderSearch.OneDriveMatchIff | rename-for-onedrive.py:42 | the script's glob matches exactly the names containing `onedrive` in any mix of ASCII letter cases |
| FolderSearch.Join | rename-for-onedrive.py:43 | POSIX `os.path.join`: an absolute name replaces the root; a relative name follows the root after one `/` separator, or directly when the root is empty or already ends in `/` |
| FolderSearch.JoinBasename | rename-for-onedrive.py:43 | for a name without `/`, the last component of the joined path is that name again, so each recorded path ends in the matching folder's name |
| FolderSearch.Unexcluded | rename-for-onedrive.py:39-41 | the pruned list holds exactly the names other than `Library` and `.Trash`, still distinct |
| FolderSearch.Recorded | rename-for-onedrive.py:42 | `fnmatch.filter` keeps exactly the matching names, still distinct |
| FolderSearch.JoinAll | rename-for-onedrive.py:42-43 | each recorded name is joined to the root, in order |
| FolderSearch.SearchDirectory | rename-for-onedrive.py:39-44 | the walk goes into a subdirectory exactly when it is neither excluded nor a OneDrive folder, and earlier matches are kept |
| FolderSearch.SearchRecords | rename-for-onedrive.py:39-44 | the paths recorded at a directory are exactly the joins of its non-excluded subdirectories whose names contain `onedrive` |

## Left out

- `os.walk` itself, meaning the traversal order and the recursion into queued subdirectories, is not modelled. So is the stale old directory name that `os.walk` silently skips. The model covers one directory at a time.
- `os.rename`, `os.path.exists` and `os.path.isdir` work on a directory modelled as a name-to-kind map. Whether a rename succeeds is a parameter. Symbolic links, where `exists` is false for a broken link, are not modelled.
- Case-insensitive file systems, where `exists` sees `Foo` when `foo` is present, are not modelled. Names are compared exactly.
- `unicodedata.normalize('NFD', _)` is a foreign library call. It is the `nfd` parameter of `Config`, and nothing is assumed about it.
- Python 2/3 byte versus text handling (lines 50-54, 57-62, 117-122, 144-149) is not modelled. Names here are always decoded text, so a name that is not valid UTF-8 cannot occur. The script crashes on such a name in both modes:
  - In blacklist mode under Python 2, the `except` branch at lines 147-149 calls `encode('utf-8')` on non-ASCII bytes. That first decodes them as ASCII and raises an uncaught `UnicodeDecodeError`.
  - In force mode, `unicode(name, 'utf-8')` at line 51 raises the same error, which the `except` at line 52 does not catch.

  On valid UTF-8 the branch is never taken. That crash is not modelled.
- Python 2 mixing of byte and text paths in force mode is not modelled. `removeAccentsAndAll` returns text (line 62), and line 205 joins it with `root`, which is a byte string. When `root` holds a non-ASCII byte, that join raises an uncaught `UnicodeDecodeError` at the first entry that needs a rename, even on valid UTF-8 names. Two such roots occur: a OneDrive folder found under a non-ASCII name such as `OneDrive - Société`, which line 119 encodes to UTF-8 bytes, and a non-ASCII subdirectory whose force-mode rename failed, which `os.walk` enters under its old byte name. `Sanitizer.Step` treats names as text and never crashes there.
- Lengths are counted in characters. Under Python 2 the script counts bytes of the UTF-8 name, so the 249 limit is checked in characters here.
- `getUserLoggedIn`, argument parsing, the help text and the `raw_input` confirmation are left out because they are I/O. Only the resulting `outsidePartition` flag is kept. `os.path.abspath` is taken as given: `OutsideUserPartition` receives the absolute path.
- Console output, the exact wording of log lines, the `Renamed:` fallback text for unprintable names, and writing the log file are left out because they are output only.
- Carrying `changed_names` across several OneDrive folders is not modelled. Each directory visit takes the log so far and appends to it.
- `generate_macoshashes.py` is not part of this model. It parses system plist files and prints hashes, which is I/O around a library call.
- Sanitize: the contract does not promise that the result avoids a trailing space or dot. The script does not guarantee it: `SpaceBeforeDot` and truncation both produce such names.
