# cascade-api: file manager and command executor

cascade-api is an HTTP service that lets a remote agent work on one project directory. It
creates, edits and reads files there and runs shell commands in it. This project models the
two pieces of that service that decide what happens to the disk and to the child process:

- `FileManager` (`utils/file_manager.py`). It has a project-root guard, `_validate_path`, and
  three operations, `create_file`, `edit_file` and `read_file`. They work over an abstract
  filesystem: a map from location to stored text, plus a set of directories. A location is
  the normal form with a single leading slash, because Linux treats `//x` as `/x`
  (`Paths.DoubleSlashSameLocation`). The guard compares the textual absolute forms, as the
  code does. `os.path.exists` is asked about the raw path. The empty path never exists. A
  path ending in `/`, `/.` or `/..` exists only as a directory: on a regular file the OS
  answers ENOTDIR (`FileManager.TrailingSlashOnFile`).
- `CommandExecutor.execute` (`utils/executor.py`). The model covers the default working
  directory, the same root guard, the child's environment (a copy of the inherited one with
  the caller's overrides written over it), and the mapping from what happened to the child
  to the returned record. The shell, the clock and the operating system are an oracle
  function that the caller passes in.

Modules:

- `Wrappers`: `Option` and `Result`.
- `Text`: the string operations the core relies on.
  - `str.count` and `str.replace`: non-overlapping, left to right; an empty pattern matches
    at every position.
  - A reference definition of replace by split and join.
  - Universal-newline reading.
  - UTF-8 length, which is what `os.path.getsize` reports.
  - `str(int)`.
- `Paths`: `os.path.abspath` on POSIX, that is, joining onto the process's working
  directory, then `normpath`.
  - Empty and `.` segments go away.
  - `..` pops a segment and stops at the top.
  - Exactly two leading slashes are kept; one or three or more become one.
  - Also `os.path.dirname`, the raw `startswith` guard, and a segment-aware containment
    predicate used as a reference.
- `FileManager`:
  - the error messages;
  - pure specifications of the three operations, as a result plus the filesystem afterwards;
  - a `FileSystem` class whose methods are the OS calls;
  - a `FileManager` class whose methods are proved equal to the specifications;
  - lemmas about the specifications.
- `Executor`:
  - the result record and the outcome mapping;
  - the environment overlay, built by a loop that writes one key at a time, like
    `dict.update`;
  - the `CommandExecutor` class.

Where the code does something other than a reader might expect, the model follows the code:

- Both guards are a raw string prefix test on the two absolute forms, not a per-segment
  containment test. So `/a/bx` passes the guard of root `/a/b` (`Paths.SiblingAdmitted`).
  The per-segment test is modelled as `Paths.SegmentContained` and proved to be stricter
  than the guard.
- A refused `cwd` gives the message `Error: cwd must be within project root`, with the
  `Error: ` prefix the code writes.
- Files are read in text mode, so `\r\n` and a lone `\r` come back as `\n`. A create-then-read
  round trip is exact only for content without `\r`. An edit rewrites a file's line endings
  even when the replacement finds nothing to change in them (`FileManager.EditSameString`).
- `create_file` calls `os.makedirs(os.path.dirname(path))` unconditionally. For a bare file
  name the directory part is empty and `makedirs` raises ENOENT. Such a call therefore fails
  even when the name resolves inside the root (`FileManager.CreateBareNameFails`).
- The values `edit_file` and `read_file` return are exactly what the code computes:
  - the edit's change count is the number of non-overlapping occurrences;
  - the read's size is the UTF-8 byte length of the stored text, not the length of the
    translated content.

## Model

| member | source | states |
|---|---|---|
| Text.ReplaceLength | utils/file_manager.py:100-109 | the replaced text is as long as the original plus count × (\|new\| − \|old\|), for every pattern including the empty one |
| Text.CountPositiveIffOccurs | utils/file_manager.py:100-106 | the occurrence count is positive exactly when the pattern occurs somewhere in the text |
| Text.ReplaceWithoutOccurrence | utils/file_manager.py:100-109 | with no occurrence, replacing changes nothing |
| Text.ReplaceBySelf | utils/file_manager.py:109 | replacing a string by itself gives back the same text |
| Text.ReplaceIsJoinOfSplit | utils/file_manager.py:100-109 | for a non-empty pattern, replace equals join-by-replacement of split-by-pattern, and the count is the number of pieces minus one |
| Text.ReplaceExample | utils/file_manager.py:100-109 | "aXbXc" contains "X" twice, and replacing it by "Y" gives "aYbYc" |
| Text.UniversalHasNoCarriageReturn | utils/file_manager.py:96-97 | text read in universal-newline mode never contains a carriage return |
| Text.UniversalIdentity | utils/file_manager.py:150-151 | reading returns the stored text unchanged exactly when that text has no carriage return |
| Text.Utf8LengthBounds | utils/file_manager.py:56 | the reported size lies between the character count and four times it, and equals the character count exactly when all characters are ASCII |
| Text.NatToDecimalRoundTrip | utils/executor.py:84 | the decimal form of a natural is a non-empty digit string with no leading zero that reads back as the number |
| Text.IntToDecimalRoundTrip | utils/executor.py:84 | the decimal form of any integer, negatives included, reads back as that integer |
| Paths.WithinRoot | utils/file_manager.py:16-22 | the guard `_validate_path`: the absolute form of the path starts, character by character, with that of the root; what it admits and refuses is stated by `Paths.GuardOnNormalForms`, `Paths.RootAdmitted`, `Paths.DescendantAdmitted`, `Paths.SiblingAdmitted` and `Paths.ParentEscapeRejected`; the working-directory guard of `execute` (`utils/executor.py:40`) is the same test |
| Paths.Abs | utils/file_manager.py:20-21 | `os.path.abspath`: join onto the process's directory, then `normpath`; its shape and idempotence are stated by `Paths.AbsPartsShape`, `Paths.AbsIdempotent` and `Paths.RenderIsNormal` |
| Paths.Dirname | utils/file_manager.py:50 | `os.path.dirname`: everything before the last slash, trailing slashes stripped unless only slashes remain; stated by `Paths.DirnameOfNormal` and `Paths.DirnameThenLast` |
| Paths.DirnameThenLast | utils/file_manager.py:50-53 | for a path holding a slash, the directory part is non-empty, and the path's normal form is that of its directory part followed by one `normpath` step on the last component |
| Paths.TrailingSlash | utils/file_manager.py:88 | for a non-empty path, a trailing slash leaves the components of the normal form and the location unchanged (the leading slashes may differ: `/` and `//` are their own normal forms), and makes the path one that names only a directory |
| Paths.DoubleSlashSameLocation | utils/file_manager.py:53 | `//x` and `/x` name the same location although their absolute forms differ |
| Paths.SplitIsTextSplit | utils/file_manager.py:20-21 | the per-character path split is `str.split('/')` |
| Paths.JoinIsTextJoin | utils/file_manager.py:20-21 | the path join of one or more segments is `'/'.join` |
| Text.Count | utils/file_manager.py:100 | `str.count`: non-overlapping occurrences from the left, an empty pattern counting every position; stated by `Text.CountPositiveIffOccurs` and `Text.ReplaceIsJoinOfSplit` |
| Text.Replace | utils/file_manager.py:109 | `str.replace` of every occurrence; stated by `Text.ReplaceLength`, `Text.ReplaceIsJoinOfSplit`, `Text.ReplaceBySelf` and `Text.ReplaceWithoutOccurrence` |
| Text.Universal | utils/file_manager.py:96-97 | universal-newline reading, with `\r\n` and a lone `\r` read as `\n`; stated by `Text.UniversalHasNoCarriageReturn` and `Text.UniversalIdentity` |
| Text.Utf8Length | utils/file_manager.py:56 | the byte length of the UTF-8 encoding; stated by `Text.Utf8LengthBounds` |
| Text.IntToDecimal | utils/executor.py:84 | `str(int)`, a minus sign for negatives; stated by `Text.IntToDecimalRoundTrip` |
| Paths.Location | utils/file_manager.py:50-153 | where `makedirs`, `open` and `getsize` find a path (lines 50-56, 96, 150-153), and the key of the file map: the normal form with a single leading slash; stated by `Paths.DoubleSlashSameLocation` and `Paths.TrailingSlash` |
| Paths.LastSlash | utils/file_manager.py:50 | the index found holds a slash and no later character is a slash, or no slash exists and -1 is returned |
| Paths.RenderIsNormal | utils/file_manager.py:20-21 | a path written from a lead of one or two slashes and proper segments is absolute and normalises back to those same parts |
| Paths.AbsPartsShape | utils/file_manager.py:20-21 | every absolute form has a lead of one or two slashes and only proper segments (no empty, `.` or `..`) |
| Paths.AbsIdempotent | utils/file_manager.py:20-21 | taking the absolute form twice is the same as taking it once |
| Paths.GuardOnNormalForms | utils/file_manager.py:16-22 | the guard gives the same answer whether the path, or the root, is given raw or already in absolute form |
| Paths.RootAdmitted | utils/executor.py:36-40 | the project root itself always passes the guard, so the default working directory is never refused |
| Paths.DescendantAdmitted | utils/file_manager.py:16-22 | every path below the root's normal form, by any proper segments, passes the guard |
| Paths.SegmentContainedAdmitted | utils/file_manager.py:16-22 | a path contained in the root segment by segment always passes the guard |
| Paths.SiblingAdmitted | utils/file_manager.py:22 | `/a/bx` passes the guard of root `/a/b` although it is not inside it segment by segment |
| Paths.ParentEscapeNormalForm | utils/file_manager.py:20 | `/a/b/../c` normalises to `/a/c` |
| Paths.ParentEscapeRejected | utils/file_manager.py:16-22 | a path that climbs out of the root with `..` (`/a/b/../c` under `/a/b`) is refused |
| Paths.DirnameOfNormal | utils/file_manager.py:50 | the directory part of a normalised absolute path with one leading slash and one or more segments is the normalised path of its parent, and its last component is the last segment |
| FileManager.Message | utils/file_manager.py:39-105 | the four fixed "error" strings of lines 39, 45, 91 and 105, and `str(e)` for an OS error; the refusals that carry them are stated by `FileManager.OutsideRootRefused`, `FileManager.CreateRefusesExisting` and `FileManager.EditFailures` |
| FileManager.Exists | utils/file_manager.py:42-143 | `os.path.exists` on the raw path, the test at lines 42, 88 and 143: the empty path never exists, and a path ending in `/`, `/.` or `/..` exists only as a directory; stated by `FileManager.DirectoryOnlyPaths`, `FileManager.TrailingSlashOnFile`, `FileManager.CreateRefusesExisting` and `FileManager.ConsistentNamesFile` |
| FileManager.FileSystem.PathExists | utils/file_manager.py:42-143 | the existence test the manager's methods call, which is `FileManager.Exists` of the current disk |
| FileManager.ConsistentNamesFile | utils/file_manager.py:88-97 | on a disk where no path is both a file and a directory, a path ending in a name that is stored as a file is a regular file, and an existing path is a regular file or a directory |
| FileManager.MakeDirsEffect | utils/file_manager.py:50 | `os.makedirs(d, exist_ok=True)` on the disk: ENOENT for an empty name, EEXIST for a file at the directory, ENOTDIR for a file at an ancestor, otherwise the directory and its ancestors exist; implemented by `FileManager.FileSystem.MakeDirs` |
| FileManager.OpenReadEffect | utils/file_manager.py:96-97 | opening for reading: EISDIR, ENOENT or the newline-translated text; implemented by `FileManager.FileSystem.ReadText` |
| FileManager.OpenWriteEffect | utils/file_manager.py:53-54 | opening for writing: EISDIR, ENOENT for a new file without its parent, otherwise that file's text is set; implemented by `FileManager.FileSystem.WriteText` |
| FileManager.Create | utils/file_manager.py:24-68 | the specification of `create_file`, implemented by `FileManager.FileManager.CreateFile`; its properties are stated by `FileManager.CreateEffect`, `FileManager.CreatedHasParent`, `FileManager.CreateRefusesExisting`, `FileManager.CreateOrdinaryPath`, `FileManager.CreateBareNameFails` and `FileManager.CreateThenRead` |
| FileManager.Edit | utils/file_manager.py:70-125 | the specification of `edit_file`, implemented by `FileManager.FileManager.EditFile`; stated by `FileManager.EditFailures`, `FileManager.EditSuccess` and `FileManager.EditSameString` |
| FileManager.Read | utils/file_manager.py:127-166 | the specification of `read_file`, implemented by `FileManager.FileManager.ReadFile`; stated by `FileManager.ReadStored`, `FileManager.DirectoryOnlyPaths` and `FileManager.TrailingSlashOnFile` |
| FileManager.FileManager.ValidatePath | utils/file_manager.py:16-22 | `_validate_path` of the manager's root against the process's directory, that is `Paths.WithinRoot` |
| FileManager.FileSystem.MakeDirs | utils/file_manager.py:50 | `makedirs` with `exist_ok`: an empty name gives ENOENT; a file at the directory gives EEXIST; a file at an ancestor gives ENOTDIR; each failure leaves the disk unchanged; otherwise the directory and all its ancestors exist and no file was touched |
| FileManager.FileSystem.ReadText | utils/file_manager.py:96-97 | opening a directory gives EISDIR and a missing file ENOENT; otherwise the stored text, newline-translated, is returned |
| FileManager.FileSystem.WriteText | utils/file_manager.py:53-54 | writing needs a non-directory target and, for a new file, an existing parent; it then sets exactly that file's text; writing over an existing regular file always succeeds |
| FileManager.FileSystem.GetSize | utils/file_manager.py:56 | the size of a file is the UTF-8 byte length of its stored text |
| FileManager.FileManager.CreateFile | utils/file_manager.py:24-68 | the result and the disk afterwards are those of the specification `Create`: guard, existence check, fault, `makedirs`, write, size, in that order; a path outside the root is refused with nothing changed; no failure changes any file |
| FileManager.FileManager.EditFile | utils/file_manager.py:70-125 | the result and the disk afterwards are those of the specification `Edit`: guard, existence check, fault, read, count, replace, write; every failure leaves the disk as it was |
| FileManager.FileManager.ReadFile | utils/file_manager.py:127-166 | the result is that of the specification `Read`; reading changes nothing |
| FileManager.OutsideRootRefused | utils/file_manager.py:36-141 | the guard refusals of `create_file` (lines 36-40), `edit_file` (82-86) and `read_file` (137-141): all three operations refuse a path failing the guard with "Path must be within project root" and change nothing |
| FileManager.DirectoryOnlyPaths | utils/file_manager.py:88-92 | inside the root, the empty path, and a path ending in `/`, `/.` or `/..` that is not a directory, are reported as "File does not exist" by reading and editing, with nothing changed |
| FileManager.TrailingSlashOnFile | utils/file_manager.py:143-147 | a regular file named with a trailing slash has the same location, yet, when that path is inside the root, reading or editing it reports "File does not exist" and changes nothing |
| FileManager.CreateRefusesExisting | utils/file_manager.py:42-46 | without `overwrite`, an existing path (file or directory) is refused with "File already exists (use overwrite=true)" and nothing changes |
| FileManager.CreatedHasParent | utils/file_manager.py:48-62 | a successful create was given a non-empty path whose last component is a name, and the file's parent directory exists afterwards, for a new and an overwritten file alike; a path ending in `/`, `/.` or `/..` is never created |
| FileManager.CreateEffect | utils/file_manager.py:48-62 | on success, only the target's entry changes and it holds the content; the target is not a directory; its parent directory exists, whether the file is new or overwritten; the path ends in a name; the size is the content's UTF-8 length. "success" is true exactly for a created result. On failure no file changes. Directories never disappear, and files and directories stay disjoint |
| FileManager.CreateThenRead | utils/file_manager.py:53-56 | reading a just-created file gives its content newline-translated and its UTF-8 size; the content comes back unchanged exactly when it has no carriage return |
| FileManager.MakeDirsOfOrdinaryPath | utils/file_manager.py:50 | for a normalised absolute path with one leading slash and no file among its ancestors, `makedirs` of its directory part creates exactly the ancestor chain, which holds the parent and not the path |
| FileManager.CreateOrdinaryPath | utils/file_manager.py:48-62 | creating a normalised absolute path with one leading slash inside the root succeeds, without a fault, when no ancestor is a file, the path is no directory, and it is new or `overwrite` is set; the new disk is the old files plus the content, and the old directories plus the ancestor chain |
| FileManager.CreateBareNameFails | utils/file_manager.py:50 | a name without a slash, and the empty path, have an empty directory part, so creating them inside the root, without a fault, when new or with `overwrite` set, fails with ENOENT and nothing changes |
| FileManager.EditFailures | utils/file_manager.py:88-106 | every editing failure leaves the disk unchanged. "File does not exist" exactly when the guard passes and `os.path.exists` is false for the raw path. "String not found in file" exactly when the guard passes, no fault occurs and the path is a regular file whose text does not contain the old string |
| FileManager.EditSuccess | utils/file_manager.py:100-119 | "success" is true exactly for an edited result, and an edit succeeds exactly when the guard passes, there is no fault, and the path is a regular file whose text contains the old string. It reports the non-overlapping count (positive), rewrites only that file with the global replacement, and the new length follows the count |
| FileManager.EditSameString | utils/file_manager.py:96-113 | replacing a string by itself leaves the text as read; the file is unchanged exactly as stored when it has no carriage return |
| FileManager.EditExample | utils/file_manager.py:100-119 | a file holding "aXbXc", edited from X to Y, holds "aYbYc" and reports 2 changes |
| FileManager.ReadStored | utils/file_manager.py:149-160 | reading a regular file inside the root, without a fault, gives its newline-translated text and its UTF-8 size; the text equals the stored one exactly when it has no carriage return |
| Executor.Overlay | utils/executor.py:50-52 | `os.environ.copy()` then `update(env)` when `env` is a non-empty dictionary; stated by `Executor.OverlayLaws` and built by `Executor.ChildEnvironment` |
| Executor.TimeoutMessage | utils/executor.py:84 | the timeout branch's stderr; stated by `Executor.TimeoutMessageNamesTimeout` and `Executor.DefaultTimeoutMessage` |
| Executor.FromOutcome | utils/executor.py:70-96 | in every branch success holds exactly when the exit code is 0. A normal exit passes its code, stdout and stderr through. A timeout or exception gives -1 and empty stdout; the timeout's stderr is "Command timed out after {timeout}s" and the exception's is its text |
| Executor.OverlayLaws | utils/executor.py:50-52 | the child's keys are the inherited keys plus the override keys; an override's value wins; every key that is not overridden keeps its inherited value |
| Executor.ChildEnvironment | utils/executor.py:50-52 | writing the overrides key by key over a copy of the inherited environment yields exactly the overlay |
| Executor.CommandExecutor.Execute | utils/executor.py:36-96 | a missing cwd becomes the root and is never refused. Nothing is spawned exactly when the cwd fails the guard; then the record is success false, exit -1, empty stdout, "Error: cwd must be within project root", duration 0. Otherwise one spawn runs with the cwd as given, the overlaid environment and the timeout, and its observation is mapped by `FromOutcome`. Success holds exactly when the exit code is 0 |
| Executor.TimeoutMessageNamesTimeout | utils/executor.py:84 | a timeout message has the fixed prefix and the `s` suffix, and the number between them reads back as the timeout |
| Executor.DefaultTimeoutMessage | utils/executor.py:78-86 | with the default timeout of 300 the message is "Command timed out after 300s" |
| Executor.NonZeroExitExample | utils/executor.py:70-76 | a process exiting with code 7 is reported as a failure with code 7 and its output unchanged |

## Left out

- `utils/git_manager.py`, the routers, `main.py` and the authentication middleware are not part of this model. Git's behaviour lives in a library that is not modelled, and the rest is HTTP plumbing.
- Symbolic links are not modelled. `os.path.abspath` is textual, and the filesystem is keyed by the textual normal form. A path whose `..` climbs through a link resolves differently on a real disk.
- `open` and `makedirs` resolve `..` physically on disk; the model resolves it textually. `makedirs` of `a/../b` makes `a` on disk, but in the model it makes only the normal form's chain.
- Intermediate components are not walked on disk. The OS refuses `/p/f/../g` when `f` is a regular file (ENOTDIR) and `/p/missing/../g` when `missing` does not exist (ENOENT). The model resolves both to `/p/g`. Only the last component and the empty path are checked against the raw text.
- The Python defaults `timeout=300` (`utils/executor.py:21`) and `overwrite=False` (`utils/file_manager.py:24`) are not optional arguments in the model; callers pass the value.
- OS failures other than the modelled errno cases (permissions, a full disk, a file that is not UTF-8) are one abstract fault. It fires at the first OS call inside the `try`, before anything changes. So a partial `makedirs` and a write that fails after truncating are not modelled.
- The OS error messages lack the `: 'path'` suffix that Python appends.
- Concurrency is out of scope. Each request is one atomic step, so another process changing the disk between the existence check and the write is not modelled.
- FileManager.FileManager.EditFile: the result of the final write is discarded. The target is an existing regular file, so `FileSystem.WriteText` always succeeds there; a failure at that point is covered only by the abstract fault.
- Executor.CommandExecutor.Execute: the shell, the child process, `time.time()` and `os.environ` are inputs. The oracle reports the outcome and a duration already rounded to hundredths of a second, so floating-point rounding is not modelled. The duration is a natural number: a wall clock that steps backward between the two `time.time()` calls (`utils/executor.py:54`, `68`) would give a negative duration, which the oracle cannot report.
- Dictionary key order (the overlay keeps inherited keys first and appends new ones in override order) is not modelled. Maps are unordered.
