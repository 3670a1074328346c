/**
 * The file operations of the gateway (utils/file_manager.py): `create_file`, `edit_file`
 * and `read_file`, each guarded by `_validate_path`.
 *
 * The filesystem is a map from location (the normalised absolute path, with a leading "//"
 * read as "/") to stored text plus a set of directories. The OS calls the Python code makes (`os.path.exists`, `os.makedirs`,
 * `open(...).read()`, `open(...).write()`, `os.path.getsize`) are the methods of the class
 * `FileSystem`; each is specified by a pure function on an `FsState` value. The three
 * operations are the methods of the class `FileManager`, and each is specified by a pure
 * function (`Create`, `Edit`, `Read`) about which the lemmas below are proved.
 *
 * `fault` stands for an exception the OS raises for reasons the model does not track
 * (permission denied, disk full, a file that is not valid UTF-8): when present it is raised
 * by the first filesystem call inside the `try` block, before anything is written.
 */
module FileManager {
  import opened Wrappers
  import Paths
  import Text

  /** The OS errors the modelled calls can raise, by errno; `Other` carries any other text. */
  datatype OsReason = NoSuchFileOrDirectory | FileExists | NotADirectory | IsADirectory | Other(message: string)

  /** `str(e)` of the exception, without the file name CPython appends. */
  function OsMessage(r: OsReason): string {
    match r
    case NoSuchFileOrDirectory => "[Errno 2] No such file or directory"
    case FileExists => "[Errno 17] File exists"
    case NotADirectory => "[Errno 20] Not a directory"
    case IsADirectory => "[Errno 21] Is a directory"
    case Other(m) => m
  }

  datatype FileError = OutsideRoot | AlreadyExists | DoesNotExist | StringNotFound | OsError(reason: OsReason)

  /** The "error" text of the returned dictionary. */
  function Message(e: FileError): string {
    match e
    case OutsideRoot => "Path must be within project root"
    case AlreadyExists => "File already exists (use overwrite=true)"
    case DoesNotExist => "File does not exist"
    case StringNotFound => "String not found in file"
    case OsError(r) => OsMessage(r)
  }

  /** The returned dictionary: "success" is true exactly for the first three variants. */
  datatype FileResult =
    | Created(path: string, size: nat)
    | Edited(path: string, changes: nat)
    | Loaded(path: string, content: string, size: nat)
    | Failed(error: FileError)
  {
    predicate Success() {
      !Failed?
    }
  }

  /** Stored text by location (`Paths.Location`), and the directories. */
  datatype FsState = FsState(files: map<string, string>, dirs: set<string>)

  /** A path is never both a file and a directory. */
  predicate Consistent(s: FsState) {
    s.files.Keys !! s.dirs
  }

  /** `os.path.exists(path)`, which asks the OS about the path as given: the empty path names
      nothing, and a path ending in an empty, "." or ".." component exists only as a
      directory (a regular file there gives ENOTDIR, which `exists` reports as False). */
  predicate Exists(s: FsState, cwd: Paths.AbsolutePath, path: string) {
    var t := Paths.Location(cwd, path);
    path != "" && (t in s.dirs || (!Paths.NamesDirectory(path) && t in s.files))
  }

  /** `path` names an existing regular file (and not a directory). */
  predicate NamesFile(s: FsState, cwd: Paths.AbsolutePath, path: string) {
    var t := Paths.Location(cwd, path);
    path != "" && !Paths.NamesDirectory(path) && t in s.files && t !in s.dirs
  }

  /** `os.makedirs(d, exist_ok=True)`: `d == ""` raises ENOENT; the directory or one of its
      ancestors being a file raises EEXIST or ENOTDIR; otherwise the directory and all its
      ancestors exist afterwards. */
  function MakeDirsEffect(s: FsState, cwd: Paths.AbsolutePath, d: string): Result<FsState, OsReason> {
    if d == "" then Failure(NoSuchFileOrDirectory)
    else
      var p := Paths.LocationParts(cwd, d);
      if Paths.Render(p) in s.files then Failure(FileExists)
      else if !(Paths.Lineage(p) !! s.files.Keys) then Failure(NotADirectory)
      else Success(s.(dirs := s.dirs + Paths.Lineage(p)))
  }

  /** `open(t, 'r', encoding='utf-8').read()`, in universal-newline mode. */
  function OpenReadEffect(s: FsState, t: string): Result<string, OsReason> {
    if t in s.dirs then Failure(IsADirectory)
    else if t !in s.files then Failure(NoSuchFileOrDirectory)
    else Success(Text.Universal(s.files[t]))
  }

  /** `open(t, 'w', encoding='utf-8').write(text)`, where `parent` is the directory that
      holds `t`: a directory cannot be opened for writing, and a new file needs its parent. */
  function OpenWriteEffect(s: FsState, t: string, parent: string, text: string): Result<FsState, OsReason> {
    if t in s.dirs then Failure(IsADirectory)
    else if t !in s.files && parent !in s.dirs then Failure(NoSuchFileOrDirectory)
    else Success(s.(files := s.files[t := text]))
  }

  /** The directory that holds `path`, as a normalised absolute path. */
  function ParentOf(cwd: Paths.AbsolutePath, path: string): string {
    Paths.Render(Paths.Parent(Paths.LocationParts(cwd, path)))
  }

  /** `create_file(path, content, overwrite)`: the result and the filesystem afterwards. */
  function Create(root: string, cwd: Paths.AbsolutePath, s: FsState, path: string, content: string,
                  overwrite: bool, fault: Option<string>): (FileResult, FsState)
  {
    var t := Paths.Location(cwd, path);
    if !Paths.WithinRoot(cwd, root, path) then (Failed(OutsideRoot), s)
    else if Exists(s, cwd, path) && !overwrite then (Failed(AlreadyExists), s)
    else if fault.Some? then (Failed(OsError(Other(fault.value))), s)
    else match MakeDirsEffect(s, cwd, Paths.Dirname(path))
      case Failure(e) => (Failed(OsError(e)), s)
      case Success(s1) =>
        match OpenWriteEffect(s1, t, ParentOf(cwd, path), content)
        case Failure(e) => (Failed(OsError(e)), s1)
        case Success(s2) => (Created(path, Text.Utf8Length(content)), s2)
  }

  /** `edit_file(path, old_string, new_string)`: the result and the filesystem afterwards. */
  function Edit(root: string, cwd: Paths.AbsolutePath, s: FsState, path: string, oldString: string,
                newString: string, fault: Option<string>): (FileResult, FsState)
  {
    var t := Paths.Location(cwd, path);
    if !Paths.WithinRoot(cwd, root, path) then (Failed(OutsideRoot), s)
    else if !Exists(s, cwd, path) then (Failed(DoesNotExist), s)
    else if fault.Some? then (Failed(OsError(Other(fault.value))), s)
    else match OpenReadEffect(s, t)
      case Failure(e) => (Failed(OsError(e)), s)
      case Success(text) =>
        var count := Text.Count(text, oldString);
        if count == 0 then (Failed(StringNotFound), s)
        else (Edited(path, count), s.(files := s.files[t := Text.Replace(text, oldString, newString)]))
  }

  /** `read_file(path)`: the result; reading changes nothing. */
  function Read(root: string, cwd: Paths.AbsolutePath, s: FsState, path: string, fault: Option<string>): FileResult {
    var t := Paths.Location(cwd, path);
    if !Paths.WithinRoot(cwd, root, path) then Failed(OutsideRoot)
    else if !Exists(s, cwd, path) then Failed(DoesNotExist)
    else if fault.Some? then Failed(OsError(Other(fault.value)))
    else match OpenReadEffect(s, t)
      case Failure(e) => Failed(OsError(e))
      case Success(text) => Loaded(path, text, Text.Utf8Length(s.files[t]))
  }

  // ---------------------------------------------------------------------------
  // The filesystem and the file manager
  // ---------------------------------------------------------------------------

  /** The disk the file manager works on; its methods are the OS calls `FileManager` makes. */
  class FileSystem {
    var files: map<string, string>
    var dirs: set<string>

    /** The disk invariant: no path is both a file and a directory. The constructor sets it up
        and `MakeDirs` and `WriteText` keep it; on such a disk an existing path ending in a
        name is either a directory or a regular file (`ConsistentNamesFile`). */
    ghost predicate Valid()
      reads this
    {
      Consistent(State())
    }

    function State(): FsState
      reads this
    {
      FsState(files, dirs)
    }

    constructor (files: map<string, string>, dirs: set<string>)
      requires files.Keys !! dirs
      ensures Valid() && State() == FsState(files, dirs)
    {
      this.files := files;
      this.dirs := dirs;
    }

    /** `os.path.exists(path)`. */
    predicate PathExists(cwd: Paths.AbsolutePath, path: string)
      reads this
    {
      Exists(State(), cwd, path)
    }

    /** `os.makedirs(d, exist_ok=True)`. */
    method MakeDirs(cwd: Paths.AbsolutePath, d: string) returns (err: Option<OsReason>)
      requires Valid()
      modifies this
      ensures Valid()
      ensures MakeDirsEffect(old(State()), cwd, d) == if err.None? then Success(State()) else Failure(err.value)
      ensures err.Some? ==> State() == old(State())
    {
      if d == "" {
        return Some(NoSuchFileOrDirectory);
      }
      var p := Paths.LocationParts(cwd, d);
      if Paths.Render(p) in files {
        return Some(FileExists);
      }
      var lineage := Paths.Lineage(p);
      if !(lineage !! files.Keys) {
        return Some(NotADirectory);
      }
      dirs := dirs + lineage;
      return None;
    }

    /** `open(t, 'r', encoding='utf-8').read()`. */
    method ReadText(t: string) returns (r: Result<string, OsReason>)
      ensures r == OpenReadEffect(State(), t)
      ensures r.Success? ==> t in files && r.value == Text.Universal(files[t])
    {
      if t in dirs {
        return Failure(IsADirectory);
      }
      if t !in files {
        return Failure(NoSuchFileOrDirectory);
      }
      return Success(Text.Universal(files[t]));
    }

    /** `open(t, 'w', encoding='utf-8').write(text)`. */
    method WriteText(t: string, parent: string, text: string) returns (err: Option<OsReason>)
      requires Valid()
      modifies this
      ensures Valid()
      ensures OpenWriteEffect(old(State()), t, parent, text) == if err.None? then Success(State()) else Failure(err.value)
      ensures err.Some? ==> State() == old(State())
      ensures t in old(files) && t !in old(dirs) ==> err.None?
    {
      if t in dirs {
        return Some(IsADirectory);
      }
      if t !in files && parent !in dirs {
        return Some(NoSuchFileOrDirectory);
      }
      files := files[t := text];
      return None;
    }

    /** `os.path.getsize(t)` of a file: the UTF-8 length of its text. */
    method GetSize(t: string) returns (n: nat)
      requires t in files
      ensures n == Text.Utf8Length(files[t])
    {
      n := Text.Utf8Length(files[t]);
    }
  }

  class FileManager {
    const projectRoot: string
    /** The working directory of the process, which `os.path.abspath` joins relative paths onto. */
    const processCwd: Paths.AbsolutePath
    const fs: FileSystem

    constructor (projectRoot: string, processCwd: Paths.AbsolutePath, fs: FileSystem)
      ensures this.projectRoot == projectRoot && this.processCwd == processCwd && this.fs == fs
    {
      this.projectRoot := projectRoot;
      this.processCwd := processCwd;
      this.fs := fs;
    }

    /** `_validate_path`: a raw string-prefix test on the two absolute forms. */
    predicate ValidatePath(path: string) {
      Paths.WithinRoot(processCwd, projectRoot, path)
    }

    method CreateFile(path: string, content: string, overwrite: bool, fault: Option<string>) returns (r: FileResult)
      requires fs.Valid()
      modifies fs
      ensures fs.Valid()
      ensures (r, fs.State()) == Create(projectRoot, processCwd, old(fs.State()), path, content, overwrite, fault)
      ensures !ValidatePath(path) ==> r == Failed(OutsideRoot) && fs.State() == old(fs.State())
      ensures r.Failed? ==> fs.files == old(fs.files)
    {
      if !ValidatePath(path) {
        return Failed(OutsideRoot);
      }
      var target := Paths.Location(processCwd, path);
      if fs.PathExists(processCwd, path) && !overwrite {
        return Failed(AlreadyExists);
      }
      if fault.Some? {
        return Failed(OsError(Other(fault.value)));
      }
      var err := fs.MakeDirs(processCwd, Paths.Dirname(path));
      if err.Some? {
        return Failed(OsError(err.value));
      }
      err := fs.WriteText(target, ParentOf(processCwd, path), content);
      if err.Some? {
        return Failed(OsError(err.value));
      }
      var size := fs.GetSize(target);
      return Created(path, size);
    }

    method EditFile(path: string, oldString: string, newString: string, fault: Option<string>) returns (r: FileResult)
      requires fs.Valid()
      modifies fs
      ensures fs.Valid()
      ensures (r, fs.State()) == Edit(projectRoot, processCwd, old(fs.State()), path, oldString, newString, fault)
      ensures r.Failed? ==> fs.State() == old(fs.State())
    {
      if !ValidatePath(path) {
        return Failed(OutsideRoot);
      }
      var target := Paths.Location(processCwd, path);
      if !fs.PathExists(processCwd, path) {
        return Failed(DoesNotExist);
      }
      if fault.Some? {
        return Failed(OsError(Other(fault.value)));
      }
      var read := fs.ReadText(target);
      if read.Failure? {
        return Failed(OsError(read.error));
      }
      var content := read.value;
      var count := Text.Count(content, oldString);
      if count == 0 {
        return Failed(StringNotFound);
      }
      var newContent := Text.Replace(content, oldString, newString);
      var _ := fs.WriteText(target, ParentOf(processCwd, path), newContent);
      return Edited(path, count);
    }

    method ReadFile(path: string, fault: Option<string>) returns (r: FileResult)
      ensures r == Read(projectRoot, processCwd, fs.State(), path, fault)
    {
      if !ValidatePath(path) {
        return Failed(OutsideRoot);
      }
      var target := Paths.Location(processCwd, path);
      if !fs.PathExists(processCwd, path) {
        return Failed(DoesNotExist);
      }
      if fault.Some? {
        return Failed(OsError(Other(fault.value)));
      }
      var read := fs.ReadText(target);
      if read.Failure? {
        return Failed(OsError(read.error));
      }
      var size := fs.GetSize(target);
      return Loaded(path, read.value, size);
    }
  }

  // ---------------------------------------------------------------------------
  // Properties of the three operations
  // ---------------------------------------------------------------------------

  /** On a consistent disk a path ending in a name that is stored as a file is a regular file,
      so an existing such path is either a directory or a regular file. */
  lemma ConsistentNamesFile(s: FsState, cwd: Paths.AbsolutePath, path: string)
    requires Consistent(s)
    ensures NamesFile(s, cwd, path) <==>
      path != "" && !Paths.NamesDirectory(path) && Paths.Location(cwd, path) in s.files
    ensures Exists(s, cwd, path) <==> NamesFile(s, cwd, path) || (path != "" && Paths.Location(cwd, path) in s.dirs)
  {
  }

  /** A path that fails the guard is refused by all three operations with the same message,
      and nothing changes. */
  lemma OutsideRootRefused(root: string, cwd: Paths.AbsolutePath, s: FsState, path: string, content: string,
                           overwrite: bool, oldString: string, newString: string, fault: Option<string>)
    requires !Paths.WithinRoot(cwd, root, path)
    ensures Create(root, cwd, s, path, content, overwrite, fault) == (Failed(OutsideRoot), s)
    ensures Edit(root, cwd, s, path, oldString, newString, fault) == (Failed(OutsideRoot), s)
    ensures Read(root, cwd, s, path, fault) == Failed(OutsideRoot)
    ensures Message(OutsideRoot) == "Path must be within project root"
  {
  }

  /** Without `overwrite`, an existing path is refused and nothing changes. */
  lemma CreateRefusesExisting(root: string, cwd: Paths.AbsolutePath, s: FsState, path: string, content: string,
                              fault: Option<string>)
    requires Paths.WithinRoot(cwd, root, path) && Exists(s, cwd, path)
    ensures Create(root, cwd, s, path, content, false, fault) == (Failed(AlreadyExists), s)
    ensures Message(AlreadyExists) == "File already exists (use overwrite=true)"
  {
  }

  /** The empty path, and a path ending in an empty, "." or ".." component that does not name
      a directory, do not exist: reading or editing them reports "File does not exist" and
      changes nothing. */
  lemma DirectoryOnlyPaths(root: string, cwd: Paths.AbsolutePath, s: FsState, path: string, oldString: string,
                           newString: string, fault: Option<string>)
    requires Paths.WithinRoot(cwd, root, path)
    requires path == "" || (Paths.NamesDirectory(path) && Paths.Location(cwd, path) !in s.dirs)
    ensures Read(root, cwd, s, path, fault) == Failed(DoesNotExist)
    ensures Edit(root, cwd, s, path, oldString, newString, fault) == (Failed(DoesNotExist), s)
  {
  }

  /** A regular file named with a trailing slash does not exist to `os.path.exists`
      (ENOTDIR), so reading or editing it that way reports "File does not exist", although
      the guard and the normal form see the same file. */
  lemma TrailingSlashOnFile(root: string, cwd: Paths.AbsolutePath, s: FsState, path: string, oldString: string,
                            newString: string, fault: Option<string>)
    requires path != "" && Paths.WithinRoot(cwd, root, path + "/")
    requires Paths.Location(cwd, path) in s.files && Paths.Location(cwd, path) !in s.dirs
    ensures Paths.Location(cwd, path + "/") == Paths.Location(cwd, path)
    ensures Read(root, cwd, s, path + "/", fault) == Failed(DoesNotExist)
    ensures Edit(root, cwd, s, path + "/", oldString, newString, fault) == (Failed(DoesNotExist), s)
  {
    Paths.TrailingSlash(cwd, path);
    DirectoryOnlyPaths(root, cwd, s, path + "/", oldString, newString, fault);
  }

  /** The empty, "." and ".." steps of `normpath` land on the directory being walked or on one
      of its ancestors. */
  lemma NonNameLandsInLineage(r: seq<string>, n: string)
    requires n == "" || n == "." || n == ".."
    ensures Paths.Render(Paths.Parts("/", Paths.Step(r, n))) in Paths.Lineage(Paths.Parts("/", r))
  {
    var p := Paths.Parts("/", r);
    if n == ".." && r != [] {
      assert Paths.Step(r, n) == r[..|r| - 1];
      assert Paths.Render(Paths.Parts(p.lead, p.segs[..|r| - 1])) in Paths.Lineage(p);
    } else if n == ".." {
      assert Paths.Step(r, n) == r[..0];
      assert Paths.Render(Paths.Parts(p.lead, p.segs[..0])) in Paths.Lineage(p);
    } else {
      assert Paths.Step(r, n) == r[..|r|];
      assert Paths.Render(Paths.Parts(p.lead, p.segs[..|r|])) in Paths.Lineage(p);
    }
  }

  /** After `os.makedirs(os.path.dirname(path))` succeeds, the directories it made hold the
      path's parent when the path ends in a name, and the path itself when it ends in "/",
      "/." or "/..". */
  lemma MadeDirsHoldTarget(s: FsState, cwd: Paths.AbsolutePath, path: string)
    requires Paths.Dirname(path) != "" && MakeDirsEffect(s, cwd, Paths.Dirname(path)).Success?
    ensures var s1 := MakeDirsEffect(s, cwd, Paths.Dirname(path)).value;
      Paths.NamesDirectory(path) ==> Paths.Location(cwd, path) in s1.dirs
    ensures var s1 := MakeDirsEffect(s, cwd, Paths.Dirname(path)).value;
      !Paths.NamesDirectory(path) ==> ParentOf(cwd, path) in s1.dirs
  {
    var d := Paths.Dirname(path);
    assert Paths.LastSlash(path) >= 0;
    Paths.DirnameThenLast(cwd, path);
    var r := Paths.AbsParts(cwd, d).segs;
    var n := Paths.LastComponent(path);
    var lineage := Paths.Lineage(Paths.Parts("/", r));
    assert MakeDirsEffect(s, cwd, d).value.dirs == s.dirs + lineage;
    assert Paths.Location(cwd, path) == Paths.Render(Paths.Parts("/", Paths.Step(r, n)));
    if Paths.NamesDirectory(path) {
      NonNameLandsInLineage(r, n);
    } else {
      var q := r + [n];
      assert Paths.Step(r, n) == q;
      assert q[..|q| - 1] == r[..|r|];
      assert ParentOf(cwd, path) == Paths.Render(Paths.Parts("/", r[..|r|]));
      assert ParentOf(cwd, path) in lineage;
    }
  }

  /** A file is created only at a path whose last component is a name, and then
      `os.makedirs(os.path.dirname(path))` has made the file's parent directory, whether the
      file is new or overwritten. A path ending in "/", "/." or "/.." lands on a directory
      that `makedirs` has just made, and the write fails there. */
  lemma CreatedHasParent(root: string, cwd: Paths.AbsolutePath, s: FsState, path: string, content: string,
                         overwrite: bool, fault: Option<string>)
    ensures var (r, s') := Create(root, cwd, s, path, content, overwrite, fault);
      r.Created? ==> path != "" && !Paths.NamesDirectory(path) && ParentOf(cwd, path) in s'.dirs
  {
    var d := Paths.Dirname(path);
    if d != "" && MakeDirsEffect(s, cwd, d).Success? {
      MadeDirsHoldTarget(s, cwd, path);
    }
  }

  /** What a call to `create_file` changes: on success exactly the target's entry, which now
      holds `content`, with the UTF-8 size reported, the target's parent directory present and
      the target not a directory; on failure no file entry; in every case no directory
      disappears and consistency is kept. */
  lemma CreateEffect(root: string, cwd: Paths.AbsolutePath, s: FsState, path: string, content: string,
                     overwrite: bool, fault: Option<string>)
    ensures var (r, s') := Create(root, cwd, s, path, content, overwrite, fault);
      && (r.Created? ==>
            && r.path == path && r.size == Text.Utf8Length(content)
            && s'.files == s.files[Paths.Location(cwd, path) := content]
            && Paths.Location(cwd, path) !in s'.dirs
            && ParentOf(cwd, path) in s'.dirs
            && path != "" && !Paths.NamesDirectory(path))
      && (r.Success() <==> r.Created?)
      && (r.Failed? ==> s'.files == s.files)
      && s.dirs <= s'.dirs
      && (Consistent(s) ==> Consistent(s'))
  {
    CreatedHasParent(root, cwd, s, path, content, overwrite, fault);
    var t := Paths.Location(cwd, path);
    if Paths.WithinRoot(cwd, root, path) && !(Exists(s, cwd, path) && !overwrite) && fault.None? {
      var m := MakeDirsEffect(s, cwd, Paths.Dirname(path));
      if m.Success? {
        var s1 := m.value;
        assert s1.files == s.files && s.dirs <= s1.dirs;
        assert Consistent(s) ==> Consistent(s1);
        var w := OpenWriteEffect(s1, t, ParentOf(cwd, path), content);
        assert Create(root, cwd, s, path, content, overwrite, fault)
          == if w.Success? then (Created(path, Text.Utf8Length(content)), w.value) else (Failed(OsError(w.error)), s1);
        if w.Success? {
          assert t !in s1.dirs;
          assert w.value == s1.(files := s1.files[t := content]);
        }
      }
    }
  }

  /** Creating a file and reading it back gives its content after universal-newline
      translation and its UTF-8 size; the content comes back exactly when it has no "\r". */
  lemma CreateThenRead(root: string, cwd: Paths.AbsolutePath, s: FsState, path: string, content: string,
                       overwrite: bool, fault: Option<string>)
    requires Create(root, cwd, s, path, content, overwrite, fault).0.Created?
    ensures var s' := Create(root, cwd, s, path, content, overwrite, fault).1;
      Read(root, cwd, s', path, None) == Loaded(path, Text.Universal(content), Text.Utf8Length(content))
    ensures var s' := Create(root, cwd, s, path, content, overwrite, fault).1;
      Read(root, cwd, s', path, None).content == content <==> '\r' !in content
  {
    var s' := Create(root, cwd, s, path, content, overwrite, fault).1;
    var t := Paths.Location(cwd, path);
    CreateEffect(root, cwd, s, path, content, overwrite, fault);
    assert Paths.WithinRoot(cwd, root, path);
    assert t in s'.files && s'.files[t] == content && t !in s'.dirs;
    assert NamesFile(s', cwd, path) && Exists(s', cwd, path);
    assert OpenReadEffect(s', t) == Success(Text.Universal(content));
    Text.UniversalIdentity(content);
  }

  /** `os.makedirs` on the directory part of a normalised absolute path with one leading
      slash none of whose ancestors is a file creates exactly the ancestor chain, which holds
      the path's parent and not the path itself. */
  lemma MakeDirsOfOrdinaryPath(s: FsState, cwd: Paths.AbsolutePath, segs: seq<string>)
    requires |segs| >= 1 && Paths.AllProper(segs)
    requires forall k :: 0 <= k < |segs| ==> Paths.Render(Paths.Parts("/", segs[..k])) !in s.files
    ensures var path, up := Paths.Render(Paths.Parts("/", segs)), Paths.Parts("/", segs[..|segs| - 1]);
      && Paths.Abs(cwd, path) == path && Paths.Location(cwd, path) == path
      && !Paths.NamesDirectory(path)
      && MakeDirsEffect(s, cwd, Paths.Dirname(path)) == Success(s.(dirs := s.dirs + Paths.Lineage(up)))
      && path !in Paths.Lineage(up)
      && ParentOf(cwd, path) in Paths.Lineage(up)
  {
    var n := |segs|;
    var path := Paths.Render(Paths.Parts("/", segs));
    var up := Paths.Parts("/", segs[..n - 1]);
    assert Paths.AllProper(up.segs) by {
      forall i | 0 <= i < |up.segs| ensures Paths.Proper(up.segs[i]) { assert up.segs[i] == segs[i]; }
    }
    Paths.RenderIsNormal(Paths.Parts("/", segs));
    Paths.RenderIsNormal(up);
    assert Paths.AbsParts(cwd, path) == Paths.Parts("/", segs);
    Paths.DirnameOfNormal(segs);
    assert Paths.Proper(segs[n - 1]);
    var d := Paths.Dirname(path);
    assert d == Paths.Render(up) && d != "";
    assert Paths.AbsParts(cwd, d) == up && Paths.LocationParts(cwd, d) == up;
    assert Paths.Render(up) !in s.files;
    var lineage := Paths.Lineage(up);
    forall x | x in lineage ensures x !in s.files && x != path {
      var k :| 0 <= k <= |up.segs| && x == Paths.Render(Paths.Parts("/", up.segs[..k]));
      assert up.segs[..k] == segs[..k];
      Paths.JoinStrictPrefix(segs, k);
    }
    assert lineage !! s.files.Keys;
    assert ParentOf(cwd, path) == Paths.Render(up);
    assert up.segs[..|up.segs|] == up.segs;
  }

  /** `create_file` on a normalised absolute path with one leading slash inside the root
      succeeds when no fault occurs, no ancestor of the path is a file, the path is not a
      directory, and it is new or `overwrite` is set: the parent chain is created and the
      file holds `content`. */
  lemma CreateOrdinaryPath(root: string, cwd: Paths.AbsolutePath, s: FsState, segs: seq<string>,
                           content: string, overwrite: bool)
    requires |segs| >= 1 && Paths.AllProper(segs)
    requires Paths.WithinRoot(cwd, root, Paths.Render(Paths.Parts("/", segs)))
    requires forall k :: 0 <= k < |segs| ==> Paths.Render(Paths.Parts("/", segs[..k])) !in s.files
    requires Paths.Render(Paths.Parts("/", segs)) !in s.dirs
    requires Paths.Render(Paths.Parts("/", segs)) in s.files ==> overwrite
    ensures var path := Paths.Render(Paths.Parts("/", segs));
      Create(root, cwd, s, path, content, overwrite, None)
        == (Created(path, Text.Utf8Length(content)),
            FsState(s.files[path := content], s.dirs + Paths.Lineage(Paths.Parts("/", segs[..|segs| - 1]))))
  {
    var path := Paths.Render(Paths.Parts("/", segs));
    var lineage := Paths.Lineage(Paths.Parts("/", segs[..|segs| - 1]));
    MakeDirsOfOrdinaryPath(s, cwd, segs);
    assert Exists(s, cwd, path) ==> path in s.files;
    var s1 := s.(dirs := s.dirs + lineage);
    assert OpenWriteEffect(s1, path, ParentOf(cwd, path), content) == Success(s1.(files := s1.files[path := content]));
  }

  /** A bare file name (no slash), and the empty path, have an empty directory part, and
      `os.makedirs("")` raises: `create_file` on such a path fails with ENOENT even when the
      name resolves inside the root, and nothing changes. */
  lemma CreateBareNameFails(root: string, cwd: Paths.AbsolutePath, s: FsState, path: string, content: string,
                            overwrite: bool)
    requires '/' !in path
    requires Paths.WithinRoot(cwd, root, path)
    requires !Exists(s, cwd, path) || overwrite
    ensures Create(root, cwd, s, path, content, overwrite, None) == (Failed(OsError(NoSuchFileOrDirectory)), s)
    ensures OsMessage(NoSuchFileOrDirectory) == "[Errno 2] No such file or directory"
  {
    assert Paths.LastSlash(path) == -1;
    assert Paths.Dirname(path) == "";
  }

  /** The failures of `edit_file` leave the filesystem as it was; the file is missing exactly
      when the guard passes and `os.path.exists` is false, and the string is not found exactly
      when the path names a regular file whose text does not contain `old_string`. */
  lemma EditFailures(root: string, cwd: Paths.AbsolutePath, s: FsState, path: string, oldString: string,
                     newString: string, fault: Option<string>)
    ensures var (r, s') := Edit(root, cwd, s, path, oldString, newString, fault);
      r.Failed? ==> s' == s
    ensures var r := Edit(root, cwd, s, path, oldString, newString, fault).0;
      r == Failed(DoesNotExist) <==> Paths.WithinRoot(cwd, root, path) && !Exists(s, cwd, path)
    ensures var r := Edit(root, cwd, s, path, oldString, newString, fault).0;
      var t := Paths.Location(cwd, path);
      r == Failed(StringNotFound) <==>
        && Paths.WithinRoot(cwd, root, path) && NamesFile(s, cwd, path) && fault.None?
        && !Text.Occurs(Text.Universal(s.files[t]), oldString)
  {
    var t := Paths.Location(cwd, path);
    if t in s.files {
      Text.CountPositiveIffOccurs(Text.Universal(s.files[t]), oldString);
    }
  }

  /** A successful `edit_file` happens exactly when the guard passes, no fault occurs and the
      path names a regular file whose text contains `old_string`; it reports the
      non-overlapping occurrence count, rewrites only that file with the global replacement,
      and the new length is the old one plus count * (|new_string| - |old_string|). */
  lemma EditSuccess(root: string, cwd: Paths.AbsolutePath, s: FsState, path: string, oldString: string,
                    newString: string, fault: Option<string>)
    ensures Edit(root, cwd, s, path, oldString, newString, fault).0.Success()
      <==> Edit(root, cwd, s, path, oldString, newString, fault).0.Edited?
    ensures var r := Edit(root, cwd, s, path, oldString, newString, fault).0;
      var t := Paths.Location(cwd, path);
      r.Edited? <==>
        && Paths.WithinRoot(cwd, root, path) && NamesFile(s, cwd, path) && fault.None?
        && Text.Occurs(Text.Universal(s.files[t]), oldString)
    ensures var (r, s') := Edit(root, cwd, s, path, oldString, newString, fault);
      var t := Paths.Location(cwd, path);
      r.Edited? ==>
        && t in s.files && r.path == path
        && var text := Text.Universal(s.files[t]);
        && r.changes == Text.Count(text, oldString) > 0
        && s' == s.(files := s.files[t := Text.Replace(text, oldString, newString)])
        && |s'.files[t]| == |text| + r.changes * (|newString| - |oldString|)
  {
    var t := Paths.Location(cwd, path);
    if t in s.files {
      var text := Text.Universal(s.files[t]);
      Text.CountPositiveIffOccurs(text, oldString);
      Text.ReplaceLength(text, oldString, newString);
    }
  }

  /** Replacing a string by itself leaves the file's text as it reads; the file is unchanged
      byte for byte when it holds no "\r" (the text-mode read turns "\r\n" into "\n"). */
  lemma EditSameString(root: string, cwd: Paths.AbsolutePath, s: FsState, path: string, same: string,
                       fault: Option<string>)
    requires Edit(root, cwd, s, path, same, same, fault).0.Edited?
    ensures var s' := Edit(root, cwd, s, path, same, same, fault).1;
      var t := Paths.Location(cwd, path);
      t in s.files && s'.files[t] == Text.Universal(s.files[t])
    ensures var s' := Edit(root, cwd, s, path, same, same, fault).1;
      var t := Paths.Location(cwd, path);
      '\r' !in s.files[t] ==> s' == s
  {
    var t := Paths.Location(cwd, path);
    Text.ReplaceBySelf(Text.Universal(s.files[t]), same);
    Text.UniversalIdentity(s.files[t]);
    if '\r' !in s.files[t] {
      assert s.files[t := s.files[t]] == s.files;
    }
  }

  /** Reading a regular file inside the root returns its text as read in universal-newline
      mode and its UTF-8 size; the text is the stored one exactly when it holds no "\r". */
  lemma ReadStored(root: string, cwd: Paths.AbsolutePath, s: FsState, path: string)
    requires Paths.WithinRoot(cwd, root, path) && NamesFile(s, cwd, path)
    ensures var t := Paths.Location(cwd, path);
      Read(root, cwd, s, path, None) == Loaded(path, Text.Universal(s.files[t]), Text.Utf8Length(s.files[t]))
    ensures var t := Paths.Location(cwd, path);
      Read(root, cwd, s, path, None).content == s.files[t] <==> '\r' !in s.files[t]
  {
    Text.UniversalIdentity(s.files[Paths.Location(cwd, path)]);
  }

  /** The paths of the worked example below: "/p/f" is already normal, names a file rather
      than only a directory, and lies under "/p". */
  lemma ExamplePaths()
    ensures Paths.Location("/", "/p/f") == "/p/f" && !Paths.NamesDirectory("/p/f")
    ensures Paths.WithinRoot("/", "/p", "/p/f")
  {
    var f, r := Paths.Parts("/", ["p", "f"]), Paths.Parts("/", ["p"]);
    assert Paths.Join(f.segs) == "p/f" && Paths.Render(f) == "/p/f";
    assert Paths.Render(r) == "/p";
    assert Paths.Proper("p") && Paths.Proper("f");
    Paths.RenderIsNormal(f);
    Paths.RenderIsNormal(r);
    Paths.DirnameOfNormal(f.segs);
    assert Paths.Abs("/", "/p") == "/p";
    assert "/p/f"[..2] == "/p";
  }

  /** The worked example: a file holding "aXbXc", edited with X replaced by Y, holds "aYbYc"
      and the edit reports 2 changes. */
  lemma EditExample(s: FsState)
    requires "/p/f" in s.files && s.files["/p/f"] == "aXbXc" && "/p/f" !in s.dirs
    ensures Edit("/p", "/", s, "/p/f", "X", "Y", None)
      == (Edited("/p/f", 2), s.(files := s.files["/p/f" := "aYbYc"]))
  {
    ExamplePaths();
    assert '\r' !in "aXbXc";
    Text.UniversalIdentity("aXbXc");
    Text.ReplaceExample();
    assert OpenReadEffect(s, "/p/f") == Success("aXbXc");
  }
}
