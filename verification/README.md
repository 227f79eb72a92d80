# Secure workspace: change tracking and undo, in Dafny

This project models the core of the secure workspace tool, a pair of Python
scripts that guard a user's home directory during a working session.
`start_session.py` scans the home directory and records a snapshot that maps
each relative path to the SHA-256 digest of its content. It then copies every
snapshot file into a backup directory. `stop_session.py` scans the directory
again and diffs the scan against the snapshot into added, modified and deleted
files. It reads the keep-choice that the user typed (`all`, `none` or
1-based numbers such as `2,3`). Every change that is not kept is then undone:
added files are removed, and modified and deleted files are restored from the
backup.

The disk and the backup directory are both maps from home-relative path to
byte content (`Workspace.Files`). The content hash is a function parameter
(`Workspace.Hasher`). The lemmas that compare contents require it to be
injective. Python dictionaries keep their keys in insertion order, and the
user's numbers pick files by position, so a snapshot is a map together with
its key order (`Workspace.Snapshot`). The order in which `os.walk` lists the
files is a parameter `walk` that lists every file once. Files whose read
fails during hashing are a parameter `unreadable`.

The code keeps the snapshot file inside the backup directory, where a home
file of the same name can overwrite it (see "## Findings"). The model keeps
the stored snapshot and the backup apart: `StopSession.Stop` takes them as
two inputs, and the `Session` lemmas take the stored snapshot to be the
start scan.

Modules:

- `Outcomes` (`outcomes.dfy`): `Option` and `Result`.
- `Seqs` (`seqs.dfy`): duplicate-free lists, subsequences, and the order-keeping
  filter that a Python append loop computes.
- `Text` (`text.dfy`): the string operations the scripts use. These are
  substring search (`in`), `strip`, `lower` compared with a word,
  `split(",")`, `isdigit` and `int`.
- `Workspace` (`workspace.dfy`): `secure_workspace.py`. It covers the exclusion
  rules, the scan, the diff, and backup, restore and remove.
- `StopSession` (`stop_session.dfy`): `stop_session.py`. It covers the choice
  parser, `apply_decision`, and the undo loops of `main`.
- `Session` (`session.dfy`): a start followed by a stop. These lemmas take the
  start script's two steps (scan, then back up) as their preconditions.

Some properties of the code that the model makes explicit:

- Exclusion tests whether a pattern occurs as a substring of the FULL path, and
  that path includes the home directory. The glob-looking defaults `*.swp` and
  `*.swo` therefore only match a literal asterisk
  (`Workspace.GlobPatternIsLiteral`). A home directory whose path contains a
  pattern makes every file invisible (`Workspace.ExcludedHomeHidesEverything`).
- A file that could not be read at start is missing from the snapshot. When the
  stop scan can read it, it is reported as added. With nothing kept, it is
  deleted (`Session.UnreadableAtStartIsRemoved`).
- The reverse case: a file created during the session that cannot be read when
  the session stops is missing from the stop scan, so it is in no change list.
  A stop that keeps nothing leaves it on disk with its content, and a later scan
  that can read it reports it as added (`Session.UnreadableAtStopSurvives`).
  Restoring the snapshot exactly therefore needs both scans to read every file.
- `backup_files` skips a snapshot path that has vanished from the disk. It
  never clears the backup directory, so such a path keeps the backup content
  an earlier session left there (`Workspace.BackupFiles`).
- The token `0` becomes position -1 and selects nothing
  (`StopSession.ZeroSelectsNothing`).

## Model

| member | source | states |
|---|---|---|
| `Workspace.NewWorkspace` | secure_workspace.py:16-18 | A missing or empty home falls back to the user's home. A missing or empty pattern list falls back to `DEFAULT_EXCLUDE`. A non-empty list is used as given, so the pattern list is never empty. |
| `Workspace.IsExcluded` | secure_workspace.py:23-24 | A path is excluded iff some pattern `patterns[i]` is contained in it. |
| `Workspace.IsExcludedIffSubstring` | secure_workspace.py:23-24 | Exclusion is literal substring matching: some pattern occurs at some index of the path string. |
| `Text.Contains` | secure_workspace.py:24 | Python's `sub in s`: a prefix of `s` is contained in it, and a contained string is no longer than `s`. |
| `Text.ContainsIffOccurs` | secure_workspace.py:24 | Python's `sub in s` holds iff `sub` occurs at some index `k` of `s`. |
| `Workspace.GlobPatternIsLiteral` | secure_workspace.py:11 | The default pattern `*.swp` does not match the swap file `/home/u/notes.swp`. |
| `Workspace.FullPath` | secure_workspace.py:35-37 | `Path(root) / name`: the home path, then at most one `/`, then the relative path. The separator is left out exactly when the home path already ends in `/`, so names are never glued together and no `/` is doubled. |
| `Workspace.ScanDirectory` | secure_workspace.py:33-45 | The scan's keys are exactly the walked files whose full path is not excluded and whose read succeeds. Each key maps to the hash of that file's content. The keys keep walk order with no duplicates. |
| `Workspace.ScanCoversDisk` | secure_workspace.py:35-42 | Over a full listing of the disk, every non-excluded readable file appears in the scan, and nothing else does. |
| `Workspace.ScanIndependentOfWalk` | secure_workspace.py:33-45 | Two walks of the same disk give the same fingerprints. Only the key order can differ. |
| `Workspace.ExcludedHomeHidesEverything` | secure_workspace.py:37-39 | If a pattern occurs in the home path, the scan is empty, because exclusion tests the full path. |
| `Workspace.DetectChanges` | secure_workspace.py:65-79 | added = scanned paths not in the snapshot. modified = shared paths whose fingerprints differ. deleted = snapshot paths not scanned. Each list is duplicate-free. Added and modified follow scan order; deleted follows snapshot order. |
| `Workspace.ChangesPartitionPaths` | secure_workspace.py:69-77 | Every path of either side is in exactly one of added, modified, deleted or unchanged. |
| `Workspace.NoChangesIffSameDigests` | secure_workspace.py:65-79 | All three lists are empty iff the scan has exactly the snapshot's fingerprints. |
| `Workspace.EmptySnapshotAddsEverything` | secure_workspace.py:69-77 | Against an empty snapshot, added is the whole scan in order, and modified and deleted are empty. |
| `Seqs.Filter` | secure_workspace.py:69-77 | The append loop keeps exactly the elements that pass the test, in order. A duplicate-free input gives a duplicate-free output. |
| `Workspace.CopyInto` | secure_workspace.py:58-63 | Each listed path present on disk is copied into the backup. Every other backup entry is untouched. |
| `Workspace.BackupFiles` | secure_workspace.py:57-63 | Each snapshot path present on disk has its current content in the backup. Other paths, including vanished snapshot paths, keep their earlier backup or stay absent. |
| `Workspace.RestoreFile` | secure_workspace.py:81-86 | With a backup of the path, the workspace gets the backup content. Without one, the workspace is unchanged. No other path changes. |
| `Workspace.RemoveFile` | secure_workspace.py:88-91 | Afterwards the path is absent. An absent path is a no-op. No other path changes. |
| `Workspace.RemoveIdempotent` | secure_workspace.py:88-91 | Removing twice is the same as removing once. |
| `Workspace.BackupRemoveRestore` | secure_workspace.py:57-91 | Backing up a snapshot path, then removing it and restoring it, gives back the original disk. |
| `Text.Strip` | stop_session.py:10 | The stripped text neither starts nor ends with white space, using Python's `isspace` set. |
| `Text.StripCutsOnlySpace` | stop_session.py:10 | `strip` keeps one slice of the text and cuts only white space before and after it. |
| `Text.StripParts` | stop_session.py:10 | The text is the white space `strip` cuts before, then the stripped text, then the white space it cuts after. |
| `Text.StripPadded` | stop_session.py:17 | White space around a text that neither starts nor ends with white space is exactly what `strip` removes. |
| `Text.LowerEquals` | stop_session.py:11-13 | `s.lower() == word` for a lower-case ASCII word holds iff `s` has the word's length and each character is the word's letter in lower or upper case. |
| `Text.Split` | stop_session.py:17 | `split(",")` gives at least one piece, and no piece holds a comma. |
| `Text.SplitJoin` | stop_session.py:17 | Splitting a comma-join gives back the pieces when no piece contains a comma. |
| `Text.JoinSplit` | stop_session.py:17 | Joining the pieces of a split gives back the text. |
| `Text.IsDigits` | stop_session.py:17 | `isdigit()`: a digit string is non-empty and neither starts nor ends with white space. |
| `Text.DecimalValue` | stop_session.py:17 | `int` of a digit string: a string that starts with a non-zero digit has a positive value. |
| `Text.LeadingZeroKeepsValue` | stop_session.py:17 | `int` ignores a leading zero: `int("0" + s) == int(s)`. |
| `Text.DecimalValueOfNatToString` | stop_session.py:17 | `int` of a printed number is that number. |
| `Text.NatToStringOfDecimalValue` | stop_session.py:17 | Printing `int` of a digit string without leading zeros gives back the string. |
| `StopSession.TokenIndex` | stop_session.py:17 | A token names a position of at least -1, never less. |
| `StopSession.TokenIndexIffPaddedDigits` | stop_session.py:17 | A token names a position iff it is a digit string with white space around it, and then the position is the digits' value minus one. Any other token names nothing. |
| `StopSession.PaddedNumeralIndex` | stop_session.py:17 | The number `n` typed with white space around it names position `n - 1`. |
| `StopSession.TokenIndices` | stop_session.py:17-18 | The parsed set holds exactly the positions named by some token. Every position is at least -1. Bad tokens are dropped, never an error. |
| `StopSession.ParseChoices` | stop_session.py:6-20 | A missing file gives the empty set. The result is "all" iff the stripped text is `all` in any case. `none` in any case gives the empty set. Anything else gives the set of positions its comma-separated tokens name. Every position is at least -1. |
| `StopSession.ParseAllIgnoresCaseAndSpace` | stop_session.py:10-12 | `" ALL\n"` parses to "all". |
| `StopSession.ParseNoneIgnoresCase` | stop_session.py:13-14 | `"None"` parses to the empty set. |
| `StopSession.ParseDropsNonDigitTokens` | stop_session.py:16-18 | `"2, x,,3"` parses to `{1, 2}`. The letter token and the empty token are dropped. |
| `StopSession.ParseTypedNumbers` | stop_session.py:16-18 | Typing `n1,n2,...` selects the positions `n1-1, n2-1, ...`. |
| `StopSession.ParseSpacedNumbers` | stop_session.py:10-18 | Typing `n1, n2, ...` with a blank after each comma selects the same positions `n1-1, n2-1, ...`. |
| `StopSession.PickPositions` | stop_session.py:26-28 | The kept set holds exactly the files at positions below `n` that the choice names. |
| `StopSession.Decide` | stop_session.py:22-29 | "all" keeps exactly the listed files. A position set keeps exactly `files[i]` for the named `i` with `0 <= i < len(files)`. Out-of-range positions are ignored, and the result is a subset of the list. |
| `StopSession.ZeroSelectsNothing` | stop_session.py:17-28 | The token `0` parses to position -1 and keeps no file. |
| `StopSession.TypingNumberKeepsThatFile` | stop_session.py:17-28 | Typing `n`, for `1 <= n <= len(files)`, keeps exactly `files[n-1]`. |
| `StopSession.ChooseKeepSets` | stop_session.py:38-40 | The one parsed choice is applied by position to each list separately: for a set of positions, a path is kept in a category iff it stands in that list at a named position in range, so an empty list keeps nothing. "all" keeps whole lists, and the empty choice keeps nothing (`KeepNothing`). |
| `StopSession.SameNumberInEveryList` | stop_session.py:17-40 | Typing the number `n` keeps the `n`-th file of each list that is that long and nothing from a shorter list. |
| `StopSession.KeepOnePosition` | stop_session.py:22-40 | The one position `i` keeps `list[i]` from each list where `i` is in range and nothing elsewhere. |
| `StopSession.ApplyKeepSets` | stop_session.py:42-52 | A path to restore that has a backup holds the backup content afterwards. A path to remove is absent. Every other path is unchanged. |
| `StopSession.Stop` | stop_session.py:31-52 | A missing snapshot file is an error. Otherwise the changes are the diff of the stored snapshot against a fresh scan, the keep-sets are the parsed choice file applied to those changes, the disk is undone as the keep-sets say, and "all" leaves the disk unchanged. |
| `StopSession.KeepingEverythingChangesNothing` | stop_session.py:42-52 | When every listed change is kept, the disk is left as it was. |
| `Session.UndoByCategory` | stop_session.py:42-52 | An added file is removed iff it is not kept. A modified or deleted file is restored iff it is not kept. A path in no list is untouched. |
| `Session.DefaultDecisions` | stop_session.py:42-52 | With nothing kept, added `y.txt` is removed, and modified `x.txt` and deleted `c.txt` get their backup content. |
| `Session.UndoRestoresSnapshotContent` | stop_session.py:42-52 | Keeping nothing puts back the start content of every snapshot path. |
| `Session.UndoLeavesOnlySnapshotPaths` | stop_session.py:42-52 | When the stop scan reads every file, keeping nothing removes every added file and leaves no scannable path outside the snapshot. |
| `Session.RescanMatchesSnapshot` | secure_workspace.py:33-45 | A disk with exactly the snapshot's scannable paths, holding their start content, rescans to the snapshot's fingerprints. |
| `Session.UndoEverythingRestoresSnapshot` | stop_session.py:36-52 | When the stop scan and the rescan read every file: after start, work, and a stop that keeps nothing, every snapshot path holds its start content and every added file is gone. A fresh diff against the same snapshot reports no changes. |
| `Session.UndoEverythingCore` | stop_session.py:36-52 | When the stop scan and the rescan read every file, the same end-to-end result, stated over what the three scans and the backup guarantee rather than over the scans themselves. |
| `Session.UnreadableAtStartIsRemoved` | secure_workspace.py:40-44 | A file that was unreadable at start but readable at stop is deleted by a stop that keeps nothing. |
| `Session.UnreadableAtStopSurvives` | secure_workspace.py:40-44 | A file created during the session whose read fails at stop is in no change list. A stop that keeps nothing leaves it on disk with its content, and a later scan that reads it reports it as added. |
| `Session.StartSharedDir` | secure_workspace.py:47-63 | With the code's layout, a home file `snapshot.json` recorded in the snapshot replaces the snapshot file in the backup directory; otherwise the snapshot file holds the written snapshot. |
| `Session.HomeSnapshotJsonReplacesSnapshot` | secure_workspace.py:53-63 | A home with a top-level `snapshot.json` leaves the user's file where `load_snapshot` reads the snapshot. |
| `Session.StartSeparateDirs` | start_session.py:6-7 | With the snapshot file kept apart, the stored snapshot is what was written for every home, and the backup holds the copies `backup_files` makes. |
| `Session.SeparateDirsDifferOnlyInSnapshotFile` | secure_workspace.py:57-63 | The two layouts agree on every backup entry other than the snapshot file, and only the separate one reads back the written snapshot. |

## Findings

| source | as written | input that shows it | evidently intended | confidence | as-written member | corrected member |
|---|---|---|---|---|---|---|
| secure_workspace.py:20-63 | The snapshot file `snapshot.json` lives in the backup directory, and `backup_files` copies each home file to the same directory under its relative path. | A home directory with a top-level file `snapshot.json`: `backup_files` overwrites the stored snapshot with it, and `load_snapshot` then reads the user's file. | The stored snapshot reads back as written, whatever the home directory holds. | high, not executed | `Session.StartSharedDir`, `Session.HomeSnapshotJsonReplacesSnapshot` | `Session.StartSeparateDirs`, `Session.SeparateDirsDifferOnlyInSnapshotFile` |

## Left out

- `hash_file` internals (SHA-256, 8192-byte chunks): the hash is a function parameter. Its injectivity is assumed only by the lemmas that compare contents.
- `os.walk` order, `is_file`, symlinks and directories: the disk holds regular files only, and the walk order is a parameter that lists each file once.
- `mkdir` side effects and the `shutil.copy2` metadata (modification time): only content is modelled.
- Errors from `copy2` and `unlink`: `backup_files`, restore and remove always succeed in the model. In the code a failing `copy2` in `backup_files` stops the start script after the snapshot file is written, leaving a partial backup that may still hold entries from an earlier session.
- Path normalisation by `pathlib`: the full path is `home + "/" + rel`, or `home + rel` when `home` ends in `/`. Collapsing `.`, `..` and doubled separators is not modelled.
- `save_snapshot` and `load_snapshot` JSON persistence: the stored snapshot is an `Option`. As in the code, `load_snapshot` raises on a missing snapshot file, which stops `main`; the model returns `Err(SnapshotMissing)`. Corrupt JSON is not modelled.
- The choice file's text decoding and newline translation: its content is a string or `None`. In the code the file is opened and read outside the `try` (stop_session.py:9-10), so a directory in its place or bytes that fail to decode make `main` raise after the scan and before any undo, whenever some change list is non-empty; the model does not have that failure.
- The choice file is read three times in `main`; the model reads it once, since nothing writes it in between. Its final removal and all console output are left out.
- `TokenIndex`: `str.isdigit` and `int` are modelled on ASCII digits only. A non-ASCII decimal digit such as `٣` is accepted by Python but dropped here. A character such as `²` passes `isdigit` but makes `int` raise, which in Python empties the whole result through the `except` branch. Likewise Python's `int` raises on a digit string longer than `sys.int_max_str_digits` (4300 by default), which also empties the result; the model's `DecimalValue` is unbounded and reads any length.
- `Text.LowerEquals`: lower-casing is ASCII only. This agrees with `str.lower()` for the two comparisons made, with `all` and `none`, because no other character lower-cases to a string made of those letters.
- The backup directory is the fixed `secure_workspace_backup` under the system temporary directory (secure_workspace.py:20). When that directory lies inside the home directory, the scans also see the snapshot file and the backups; the model keeps the backup apart from the disk it scans.
- `app.py` (the tkinter window, threads, subprocesses and timer) and `start_session.py` as a script: the start sequence (scan, then back up) appears only as the preconditions of the `Session` lemmas.
