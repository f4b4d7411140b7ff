/**
 * The AJAX handlers that change or read single entries: create folder, create
 * file, upload, delete, read and save. Each first decides, from the request
 * and the filesystem as it is, which entry it will act on or which error it
 * reports (a pure function below), and then performs one filesystem call.
 * Authorization and nonce checks happen before any of this and are not part
 * of the model.
 */
module Handlers {
  import opened Wrappers
  import opened TextOps
  import opened FileTypes
  import opened FileTree
  import opened PathGuard
  import opened Errors
  import opened TreeRemoval
  import opened Listing

  /** What `sanitize_file_name` guarantees of a name: no separator, and never "." or "..". */
  predicate SanitizedName(n: string)
  {
    '/' !in n && n != "." && n != ".."
  }

  /** The resolved target of `dirRel`, when it is an existing directory. */
  function TargetDir(m: map<Path, Node>, env: Env, dirRel: string): (r: Option<Path>)
    ensures r.Some? <==> TargetPath(env, dirRel).Some? && TargetPath(env, dirRel).value in m
                         && m[TargetPath(env, dirRel).value].Dir?
    ensures r.Some? ==> r == TargetPath(env, dirRel)
  {
    match TargetPath(env, dirRel)
    case None => None
    case Some(d) => if d in m && m[d].Dir? then Some(d) else None
  }

  // ---------------------------------------------------------------------------
  // create folder / create file
  // ---------------------------------------------------------------------------

  /**
   * The checks shared by `ajax_create_folder` and `ajax_create_file`, in their
   * order: an empty name, then a target that is not a directory, then a name
   * already taken by a file or a folder. On success, the path to create: a
   * fresh, validly named child of an existing directory.
   */
  function CreateCheck(m: map<Path, Node>, env: Env, dirRel: string, name: string): (r: Result<Path, Error>)
    requires SanitizedName(name)
    ensures PhpEmpty(name) ==> r == Failure(NameEmpty)
    ensures !PhpEmpty(name) && TargetDir(m, env, dirRel).None? ==> r == Failure(DirNotFound)
    ensures !PhpEmpty(name) && TargetDir(m, env, dirRel).Some? ==>
      var p := TargetDir(m, env, dirRel).value + [name];
      if p in m then r == Failure(AlreadyExists) else r == Success(p)
    ensures r.Success? ==> r.value != [] && r.value !in m && ValidName(r.value[|r.value| - 1])
                           && Parent(r.value) in m && m[Parent(r.value)].Dir?
  {
    if PhpEmpty(name) then Failure(NameEmpty)
    else match TargetDir(m, env, dirRel)
      case None => Failure(DirNotFound)
      case Some(d) =>
        assert Parent(d + [name]) == d && (d + [name])[|d|] == name;
        if d + [name] in m then Failure(AlreadyExists) else Success(d + [name])
  }

  /**
   * `ajax_create_folder`: `mkdir` of the checked path (its parent exists, so
   * the recursive flag adds nothing); it fails only when the directory does
   * not allow new entries.
   */
  method CreateFolder(fs: FileSystem, env: Env, dirRel: string, name: string) returns (r: Outcome<Error>)
    requires fs.Valid() && SanitizedName(name)
    modifies fs
    ensures fs.Valid()
    ensures var c := CreateCheck(old(fs.entries), env, dirRel, name);
      && (c.Failure? ==> r == Fail(c.error) && fs.entries == old(fs.entries))
      && (c.Success? ==> (r == Pass <==> fs.ParentWritable(c.value)))
      && (c.Success? && r == Pass ==> fs.entries == old(fs.entries)[c.value := Dir])
      && (c.Success? && r != Pass ==> r == Fail(CreateFailed) && fs.entries == old(fs.entries))
  {
    var c := CreateCheck(fs.entries, env, dirRel, name);
    if c.Failure? {
      return Fail(c.error);
    }
    var ok := fs.Mkdir(c.value);
    r := if ok then Pass else Fail(CreateFailed);
  }

  /** `ajax_create_file`: `file_put_contents` of an empty file at the checked path. */
  method CreateFile(fs: FileSystem, env: Env, dirRel: string, name: string) returns (r: Outcome<Error>)
    requires fs.Valid() && SanitizedName(name)
    modifies fs
    ensures fs.Valid()
    ensures var c := CreateCheck(old(fs.entries), env, dirRel, name);
      && (c.Failure? ==> r == Fail(c.error) && fs.entries == old(fs.entries))
      && (c.Success? ==> (r == Pass <==> fs.ParentWritable(c.value)))
      && (c.Success? && r == Pass ==> fs.entries == old(fs.entries)[c.value := File([])])
      && (c.Success? && r != Pass ==> r == Fail(CreateFailed) && fs.entries == old(fs.entries))
  {
    var c := CreateCheck(fs.entries, env, dirRel, name);
    if c.Failure? {
      return Fail(c.error);
    }
    var ok := fs.PutContents(c.value, []);
    r := if ok then Pass else Fail(CreateFailed);
  }

  /**
   * Creating never replaces anything: a name the listing of the target
   * directory shows, as a folder or as a file, is refused.
   */
  lemma CreateNeverOverwrites(m: map<Path, Node>, env: Env, dirRel: string, name: string, items: seq<Item>, i: int)
    requires WellFormed(m) && SanitizedName(name) && !PhpEmpty(name) && TargetDir(m, env, dirRel).Some?
    requires IsListing(m, TargetDir(m, env, dirRel).value, dirRel, items)
    requires 0 <= i < |items| && items[i].name == name
    ensures CreateCheck(m, env, dirRel, name) == Failure(AlreadyExists)
  {
    ListingEntriesAreChildren(m, TargetDir(m, env, dirRel).value, dirRel, items, i);
  }

  /**
   * A folder just created shows up in the listing of the directory it was
   * created in, as a folder, under the client's relative path.
   */
  lemma CreatedFolderIsListed(m: map<Path, Node>, env: Env, dirRel: string, name: string, items: seq<Item>)
    requires SanitizedName(name) && CreateCheck(m, env, dirRel, name).Success?
    requires IsListing(m[CreateCheck(m, env, dirRel, name).value := Dir], TargetDir(m, env, dirRel).value, dirRel, items)
    ensures exists i :: 0 <= i < |items| && items[i] == Item(name, Folder, TrailingSlashIt(dirRel) + name)
  {
    var d := TargetDir(m, env, dirRel).value;
    var m' := m[d + [name] := Dir];
    ListingShowsEveryChild(m', d, dirRel, items, name);
  }

  // ---------------------------------------------------------------------------
  // upload
  // ---------------------------------------------------------------------------

  /**
   * `$_FILES['file_upload']`: the error code (`None` when it is not set), the
   * client's file name (already through `sanitize_file_name`) and the bytes of
   * the temporary file.
   */
  datatype Upload = Upload(error: Option<int>, name: string, content: Bytes)

  const UploadErrOk: int := 0

  /**
   * The checks of `ajax_upload_file`, in its order: the target directory, then
   * the upload's error code, then the extension. On success, the path the file
   * will be moved to.
   */
  function UploadCheck(m: map<Path, Node>, env: Env, dirRel: string, upload: Option<Upload>): (r: Result<Path, Error>)
    requires upload.Some? ==> SanitizedName(upload.value.name)
    ensures TargetDir(m, env, dirRel).None? ==> r == Failure(DirNotFound)
    ensures TargetDir(m, env, dirRel).Some? && (upload.None? || upload.value.error.None?) ==>
      r == Failure(UploadError(None))
    ensures (TargetDir(m, env, dirRel).Some? && upload.Some? && upload.value.error.Some?
             && upload.value.error.value != UploadErrOk) ==> r == Failure(UploadError(upload.value.error))
    ensures TargetDir(m, env, dirRel).Some? && upload.Some? && upload.value.error == Some(UploadErrOk) ==>
      if UploadAllowed(upload.value.name) then r == Success(TargetDir(m, env, dirRel).value + [upload.value.name])
      else r == Failure(TypeNotAllowed(NotAllowedMessage()))
    ensures r.Success? ==> upload.Some? && r.value != [] && ValidName(r.value[|r.value| - 1])
                           && Parent(r.value) in m && m[Parent(r.value)].Dir?
                           && DisplayTypeOf(upload.value.name) != Other
  {
    match TargetDir(m, env, dirRel)
    case None => Failure(DirNotFound)
    case Some(d) =>
      if upload.None? || upload.value.error.None? then Failure(UploadError(None))
      else if upload.value.error.value != UploadErrOk then Failure(UploadError(upload.value.error))
      else if !UploadAllowed(upload.value.name) then Failure(TypeNotAllowed(NotAllowedMessage()))
      else
        var name := upload.value.name;
        EmptyNameNotAllowed();
        assert Parent(d + [name]) == d && (d + [name])[|d|] == name;
        Success(d + [name])
  }

  /** A file without a name has no extension, so it is never accepted. */
  lemma EmptyNameNotAllowed()
    ensures !UploadAllowed("")
  {
    assert Lower("") == "";
  }

  /**
   * `ajax_upload_file`: `move_uploaded_file` into the checked path, replacing
   * a file of that name if there is one.
   */
  method UploadFile(fs: FileSystem, env: Env, dirRel: string, upload: Option<Upload>) returns (r: Outcome<Error>)
    requires fs.Valid()
    requires upload.Some? ==> SanitizedName(upload.value.name)
    modifies fs
    ensures fs.Valid()
    ensures var c := UploadCheck(old(fs.entries), env, dirRel, upload);
      && (c.Failure? ==> r == Fail(c.error) && fs.entries == old(fs.entries))
      && (c.Success? ==> (r == Pass <==> fs.ParentWritable(c.value) && !old(fs.IsDir(c.value))))
      && (c.Success? && r == Pass ==> fs.entries == old(fs.entries)[c.value := File(upload.value.content)])
      && (c.Success? && r != Pass ==> r == Fail(UploadFailed) && fs.entries == old(fs.entries))
  {
    var c := UploadCheck(fs.entries, env, dirRel, upload);
    if c.Failure? {
      return Fail(c.error);
    }
    var ok := fs.MoveInto(c.value, upload.value.content);
    r := if ok then Pass else Fail(UploadFailed);
  }

  /**
   * Upload overwrites, create refuses: after a file has been uploaded, the
   * same upload again targets the same path (and replaces the file), while
   * creating a file or folder of that name reports that it already exists.
   */
  lemma UploadOverwritesCreateRefuses(m: map<Path, Node>, env: Env, dirRel: string, first: Upload, again: Upload)
    requires SanitizedName(first.name) && UploadCheck(m, env, dirRel, Some(first)).Success?
    requires again.name == first.name && again.error == Some(UploadErrOk)
    ensures var p := UploadCheck(m, env, dirRel, Some(first)).value;
      && UploadCheck(m[p := File(first.content)], env, dirRel, Some(again)) == Success(p)
      && (!PhpEmpty(first.name) ==> CreateCheck(m[p := File(first.content)], env, dirRel, first.name) == Failure(AlreadyExists))
  {
    var d := TargetDir(m, env, dirRel).value;
    var p := d + [first.name];
    assert p != d;
    assert TargetDir(m[p := File(first.content)], env, dirRel) == Some(d);
  }

  // ---------------------------------------------------------------------------
  // delete
  // ---------------------------------------------------------------------------

  /**
   * The checks of `ajax_delete_item`: the target must resolve, exist, and its
   * canonical path must start with the canonical base.
   */
  function DeleteCheck(m: map<Path, Node>, env: Env, rel: string): (r: Result<Path, Error>)
    ensures r.Success? <==> Resolve(env, rel).Some? && Parts(Resolve(env, rel).value) in m
                            && StartsWith(Resolve(env, rel).value, BaseReal(env))
    ensures r.Success? ==> r.value == Parts(Resolve(env, rel).value)
    ensures r.Failure? ==> r.error == ItemNotFound
  {
    match Resolve(env, rel)
    case None => Failure(ItemNotFound)
    case Some(full) =>
      if Parts(full) !in m || !StartsWith(full, BaseReal(env)) then Failure(ItemNotFound)
      else Success(Parts(full))
  }

  /**
   * A request that does not resolve (a stale or mistyped path) deletes the
   * base directory itself: it becomes "", whose `realpath` is the base, which
   * exists and trivially starts with itself.
   */
  lemma DeleteOfUnresolvedTargetsBase(m: map<Path, Node>, env: Env, rel: string, b: string)
    requires Canonical(env, rel).None?
    requires env.canon(env.base) == Some(b) && !PhpEmpty(b) && Parts(b) in m
    ensures DeleteCheck(m, env, rel) == Success(Parts(b))
  {
    assert env.base + "" == env.base;
  }

  /**
   * `ajax_delete_item`: a directory goes with `rrmdir`, anything else with
   * `unlink`. When `rrmdir` fails, the directory is still there and is scanned
   * again for the message: an unreadable one makes that `scandir` return false,
   * on which `array_diff` throws; otherwise the message says whether the
   * directory still has children, which it has exactly when one of its
   * children could not be removed.
   */
  method DeleteItem(fs: FileSystem, env: Env, rel: string) returns (r: Outcome<Error>)
    requires fs.Valid()
    modifies fs
    ensures fs.Valid()
    ensures var c := DeleteCheck(old(fs.entries), env, rel);
      && (c.Failure? ==> r == Fail(ItemNotFound) && fs.entries == old(fs.entries))
      && (c.Success? && r == Pass ==> c.value != [] && fs.entries == old(fs.entries) - Subtree(old(fs.entries), c.value))
      && (c.Success? && old(fs.IsDir(c.value)) ==>
            && (r == Pass <==> Removable(old(fs.entries), fs.readOnly, fs.unreadable, c.value))
            && PrunedWithin(old(fs.entries), fs.entries, c.value)
            && (r != Pass ==> fs.IsDir(c.value))
            && (c.value in fs.unreadable ==> r == Fail(Fatal))
            && (r != Pass && c.value !in fs.unreadable ==>
                  if ChildNames(fs.entries, c.value) != {} then r == Fail(FolderNotEmpty)
                  else r == Fail(DeleteFailed(true)))
            && (r != Pass && c.value !in fs.unreadable ==>
                  (r == Fail(FolderNotEmpty) <==>
                   exists n :: n in ChildNames(old(fs.entries), c.value)
                     && !Removable(old(fs.entries), fs.readOnly, fs.unreadable, c.value + [n]))))
      && (c.Success? && old(fs.IsFile(c.value)) ==>
            && (r == Pass <==> fs.ParentWritable(c.value))
            && (r != Pass ==> r == Fail(DeleteFailed(false)) && fs.entries == old(fs.entries)))
  {
    var c := DeleteCheck(fs.entries, env, rel);
    if c.Failure? {
      return Fail(ItemNotFound);
    }
    var p := c.value;
    if fs.IsDir(p) {
      var ok := RemoveTree(fs, p);
      if ok {
        r := Pass;
      } else if fs.IsDir(p) && p in fs.unreadable {
        r := Fail(Fatal);
      } else if fs.IsDir(p) && ChildNames(fs.entries, p) != {} {
        r := Fail(FolderNotEmpty);
      } else {
        r := Fail(DeleteFailed(true));
      }
    } else {
      FileIsLeaf(fs.entries, p);
      var ok := fs.Unlink(p);
      r := if ok then Pass else Fail(DeleteFailed(false));
    }
  }

  /**
   * After a successful delete (of a file or of a whole directory), the parent
   * directory has lost exactly the deleted name, and no listing of the parent
   * shows it any more.
   */
  lemma DeletedItemLeavesParent(m: map<Path, Node>, d: Path, dirRel: string, items: seq<Item>)
    requires d != []
    ensures ChildNames(m - Subtree(m, d), Parent(d)) == ChildNames(m, Parent(d)) - {d[|d| - 1]}
    ensures IsListing(m - Subtree(m, d), Parent(d), dirRel, items) ==>
      forall i :: 0 <= i < |items| ==> items[i].name != d[|d| - 1]
  {
    var parent, last := Parent(d), d[|d| - 1];
    var m' := m - Subtree(m, d);
    assert d == parent + [last];
    forall n
      ensures n in ChildNames(m', parent) <==> n in ChildNames(m, parent) - {last}
    {
      if d <= parent + [n] {
        assert d == parent + [n];
      }
    }
    if IsListing(m', parent, dirRel, items) {
      forall i | 0 <= i < |items|
        ensures items[i].name != last
      {
        assert Names(items)[i] == items[i].name;
        assert items[i].name in multiset(Names(items));
      }
    }
  }

  // ---------------------------------------------------------------------------
  // read / save
  // ---------------------------------------------------------------------------

  /**
   * The checks shared by `ajax_get_file_content` and `ajax_save_file_content`:
   * the target must resolve, be a file, and its canonical path must start with
   * the canonical base.
   */
  function FileCheck(m: map<Path, Node>, env: Env, rel: string): (r: Result<Path, Error>)
    ensures r.Success? <==> Resolve(env, rel).Some? && Parts(Resolve(env, rel).value) in m
                            && m[Parts(Resolve(env, rel).value)].File?
                            && StartsWith(Resolve(env, rel).value, BaseReal(env))
    ensures r.Success? ==> r.value == Parts(Resolve(env, rel).value)
    ensures r.Failure? ==> r.error == FileNotFound
  {
    match Resolve(env, rel)
    case None => Failure(FileNotFound)
    case Some(full) =>
      if !(Parts(full) in m && m[Parts(full)].File?) || !StartsWith(full, BaseReal(env)) then Failure(FileNotFound)
      else Success(Parts(full))
  }

  /** `ajax_get_file_content`: the whole content of the checked file. */
  method GetFileContent(fs: FileSystem, env: Env, rel: string) returns (r: Result<Bytes, Error>)
    ensures FileCheck(fs.entries, env, rel).Failure? ==> r == Failure(FileNotFound)
    ensures FileCheck(fs.entries, env, rel).Success? ==>
      var p := FileCheck(fs.entries, env, rel).value;
      if p in fs.unreadable then r == Failure(ReadFailed)
      else r.Success? && fs.entries[p] == File(r.value)
  {
    var c := FileCheck(fs.entries, env, rel);
    if c.Failure? {
      return Failure(FileNotFound);
    }
    var content := fs.GetContents(c.value);
    if content.None? {
      return Failure(ReadFailed);
    }
    r := Success(content.value);
  }

  /** `ajax_save_file_content`: overwrites the checked file with the raw content. */
  method SaveFileContent(fs: FileSystem, env: Env, rel: string, content: Bytes) returns (r: Outcome<Error>)
    requires fs.Valid()
    modifies fs
    ensures fs.Valid()
    ensures var c := FileCheck(old(fs.entries), env, rel);
      && (c.Failure? ==> r == Fail(FileNotFound) && fs.entries == old(fs.entries))
      && (c.Success? ==> (r == Pass <==> c.value !in fs.readOnly))
      && (c.Success? && r == Pass ==> fs.entries == old(fs.entries)[c.value := File(content)])
      && (c.Success? && r != Pass ==> r == Fail(SaveFailed) && fs.entries == old(fs.entries))
  {
    var c := FileCheck(fs.entries, env, rel);
    if c.Failure? {
      return Fail(FileNotFound);
    }
    var ok := fs.PutContents(c.value, content);
    r := if ok then Pass else Fail(SaveFailed);
  }

  /**
   * Save, then read back: saving keeps the target a file, so the same request
   * passes the read's checks on the new state and finds exactly the saved bytes.
   */
  lemma SavedContentIsRead(m: map<Path, Node>, env: Env, rel: string, content: Bytes)
    requires FileCheck(m, env, rel).Success?
    ensures var p := FileCheck(m, env, rel).value;
      && FileCheck(m[p := File(content)], env, rel) == Success(p)
      && m[p := File(content)][p] == File(content)
  {
  }

  // ---------------------------------------------------------------------------
  // the escape of the repeated base, handler by handler
  // ---------------------------------------------------------------------------

  lemma PartsOfRoot()
    ensures Parts("/") == []
  {
    assert "/" == [] + ['/'] + [];
    SplitConcat([], '/', []);
    assert Split([], '/') == [""];
    assert Split("/", '/') == ["", ""];
    assert NonEmpty([""]) == [];
    NonEmptyConcat([""], [""]);
  }

  /** With base "/b/", the target of "b./b." is the root "/", outside the base. */
  lemma RepeatedBaseTarget()
    ensures TargetPath(EscapeEnv(), "b./b.") == Some([])
    ensures Resolve(EscapeEnv(), "b./b.") == Some("/")
    ensures !StartsWith("/", BaseReal(EscapeEnv()))
  {
    RepeatedBaseEscapes();
    PartsOfRoot();
  }

  /**
   * With base "/b/", the folder "b./b." inside the base sanitises to "..":
   * creating a folder there creates it in "/" instead.
   */
  lemma RepeatedBaseReachesCreate(m: map<Path, Node>, name: string)
    requires WellFormed(m) && ["b", "b.", "b."] in m && m[["b", "b.", "b."]].Dir?
    requires SanitizedName(name) && !PhpEmpty(name) && [name] !in m
    ensures CreateCheck(m, EscapeEnv(), "b./b.", name) == Success([name])
  {
    assert TargetPath(EscapeEnv(), "b./b.") == Some([]) by { RepeatedBaseTarget(); }
    assert [] + [name] == [name];
    CreateInTarget(m, EscapeEnv(), "b./b.", name, []);
  }

  /** Create acts on the resolved directory whatever the request looked like. */
  lemma CreateInTarget(m: map<Path, Node>, env: Env, dirRel: string, name: string, d: Path)
    requires SanitizedName(name) && !PhpEmpty(name)
    requires TargetPath(env, dirRel) == Some(d) && d in m && m[d].Dir? && d + [name] !in m
    ensures CreateCheck(m, env, dirRel, name) == Success(d + [name])
  {
  }

  /** Deleting the same request is refused by the second prefix test. */
  lemma RepeatedBaseRefusedByDelete(m: map<Path, Node>)
    requires WellFormed(m) && ["b", "b.", "b."] in m && m[["b", "b.", "b."]].Dir?
    ensures DeleteCheck(m, EscapeEnv(), "b./b.") == Failure(ItemNotFound)
  {
    RepeatedBaseTarget();
  }
}
