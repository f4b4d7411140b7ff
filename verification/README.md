# QB Root File Manager — a verified model

This is a Dafny model of the server core and the client path logic of the
"QB Root File Manager" WordPress plugin. The plugin lets an administrator
browse, create, upload, edit and delete files under the WordPress root
(`ABSPATH`).

The server side is the class `QB_Root_File_Manager`. Its seven AJAX handlers
are list items, create folder, create file, upload, delete item, get file
content and save file content. They share `sanitize_and_validate_path` and
`get_file_display_type`, and delete uses the recursive `rrmdir`. The client
side is the path logic of the browser script: the breadcrumb trail, the
parent link, the actions each grid cell offers, and the single pending path
behind the delete confirmation dialog.

The modules:

- `Wrappers` holds `Option`, `Result` and `Outcome` (pass or fail).
- `TextOps` holds the PHP and JavaScript string functions the core relies
  on: `split`/`join`, the filtered split into path segments, `trim`/`ltrim`/
  `rtrim`, `trailingslashit`, `strpos(...) === 0`, `str_replace`,
  `strtolower`, `strcasecmp`, `pathinfo(..., PATHINFO_EXTENSION)` and PHP's
  `empty`.
- `FileTypes` holds the four extension lists, the upload allow-list and the
  display type.
- `FileTree` models the filesystem.
  - It is a map from segment paths to directories and files. It is
    well-formed when every entry's parent is a directory and no name is "",
    "." or "..".
  - The class `FileSystem` performs the plugin's filesystem calls, each one
    update at a time. Those calls are `scandir`, `unlink`, `rmdir`, `mkdir`,
    `file_put_contents`, `move_uploaded_file` and `file_get_contents`.
  - The read-only directories and the unreadable entries are fixed for the
    life of one filesystem.
- `PathGuard` models `sanitize_and_validate_path` and the `realpath` that
  every handler applies to its result. The operating system's `realpath` and
  `urldecode` are parameters of a request environment `Env`.
- `Errors` has one constructor per kind of error.
- `Listing` models `ajax_list_items`: the scan, the split into folders and
  files, and the two `usort`s.
- `TreeRemoval` models `rrmdir`.
- `Handlers` models the create, upload, delete, read and save handlers.
  - Each handler is split in two. A pure check function chooses the path to
    act on, or the error to report, in the handler's own order of tests.
  - A method then makes the single filesystem call.
- `Browser` models the client path logic.

### Behaviour of the code worth knowing

- **Prefix test.** The containment test is a plain string prefix test,
  `strpos($full, $base) === 0`. The test does not respect path-segment
  boundaries.
  - A sibling such as `/srv/www-evil` of the base `/srv/www` passes it and
    sanitises to `-evil` (`PathGuard.SiblingPassesPrefixTest`).
- **Relative path.** The relative path is computed with `str_replace`,
  which removes every occurrence of the canonical base, not only the
  leading one.
  - With the base `/b`, the directory `/b/b./b.` sanitises to `..`.
  - Its `realpath` is `/`, outside the base (`PathGuard.RepeatedBaseEscapes`).
  - List, create and upload do not test the prefix a second time, so
    creating a folder there creates it in `/`
    (`Handlers.RepeatedBaseReachesCreate`).
  - Delete, read and save test it again and refuse the request
    (`Handlers.RepeatedBaseRefusedByDelete`).
- **Unresolvable paths.** A path that does not resolve is not an error. It
  becomes `""`, the base directory itself (`PathGuard.Resolve`).
  - A delete of a stale or mistyped path therefore targets the base
    directory itself (`Handlers.DeleteOfUnresolvedTargetsBase`).
- **Create targets.** Create resolves the requested directory, which must
  already exist, and appends the name to it (`Handlers.CreateCheck`).
- **Upload errors.** A missing upload, or one without an error code,
  reports the upload error with the code "unknown" (`Handlers.UploadCheck`).
- **Listing order.** `scandir` lists names in ascending byte order, and the
  stable `usort` by `strcasecmp` keeps that order among names equal up to
  case: "A" is listed before "a" (`Listing.UpperBeforeLower`). A directory
  therefore has exactly one listing (`Listing.ListingUnique`).
- **Empty folders.** An empty folder is shown without its parent link. The
  parent link is built, but the container is then replaced by the empty
  message alone (`Browser.EmptyFolderHasNoParentLink`).
- **Parent link.** The parent link is `currentPath.split('/').slice(0,-1)`.
  For a path that ends in `/` it leads to the same directory
  (`Browser.ParentOfTrailingSlash`).

## Model

| member | source | states |
|---|---|---|
| FileTypes.ListsDisjoint | qb-file-manager.php:34-37 | No extension is in two of the image, pdf, editable and archive lists, so the order of the elseif chain never decides a type |
| FileTypes.Classify | qb-file-manager.php:170-180 | The elseif chain gives image, pdf, code or archive exactly when the extension is in that list, and "other" exactly when the extension is not in the upload allow-list |
| FileTypes.DisplayTypeOf | qb-file-manager.php:166-181 | A file's type is other than "other" exactly when its lower-cased extension is in the upload allow-list, and it is code exactly when that extension is editable. A name without a dot is "other" |
| FileTypes.UploadAllowed | qb-file-manager.php:339-341 | An upload's extension is allowed exactly when the listing would give the file a type other than "other". An allowed name contains a dot |
| FileTypes.DisplayTypeOfDotted | qb-file-manager.php:167 | The extension is the text after the last dot, compared case-insensitively, for both display and upload |
| FileTypes.UpperCaseImage | qb-file-manager.php:167-171 | "A.JPG" is an image: the extension is lower-cased before the lookup |
| FileTypes.DotFileIsCode | qb-file-manager.php:167-175 | ".htaccess" has the extension "htaccess" and is editable code |
| FileTypes.TrailingDotIsOther | qb-file-manager.php:167-180 | "x." has an empty extension and is "other" |
| FileTypes.UploadAcceptsText | qb-file-manager.php:339-341 | "note.txt" passes the upload allow-list |
| FileTypes.UploadRefusesExecutable | qb-file-manager.php:339-343 | "malware.exe" is refused by the upload allow-list |
| TextOps.Split | js/qb-file-manager.js:145 | `split` yields at least one piece, and no piece contains the separator |
| TextOps.JoinSplit | js/qb-file-manager.js:145 | Joining the pieces of a split with the same separator gives back the string |
| TextOps.Join | js/qb-file-manager.js:145 | `join` of no parts is "", and otherwise the result starts with the first part |
| TextOps.Parts | js/qb-file-manager.js:116 | The filtered split yields only non-empty segments without "/" |
| TextOps.PartsOfJoin | js/qb-file-manager.js:116-121 | Segments joined by "/" split back into the same segments |
| TextOps.ExtraSlashesIgnored | js/qb-file-manager.js:116 | Leading, trailing and doubled slashes add no segment to the filtered split |
| TextOps.LTrim | qb-file-manager.php:87 | `ltrim` returns a suffix that does not start with a trimmed character, and it removes only trimmed characters |
| TextOps.Trim | qb-file-manager.php:69 | `trim` returns a string no longer than its input that neither starts nor ends with a trimmed character, and leaves a string that does neither unchanged |
| TextOps.TrimKeepsMiddle | qb-file-manager.php:69 | The result of `trim` is a contiguous part of the input, and every character before or after it is a trimmed character |
| TextOps.RemoveAll | qb-file-manager.php:87 | `str_replace` with "" never lengthens a string. An empty pattern changes nothing, and a leading occurrence shortens the string by at least the pattern's length |
| TextOps.RemoveAllFirst | qb-file-manager.php:87 | `str_replace` removes the leftmost occurrence of the pattern, keeps the text before it, and carries on with the rest. With `RemoveAllAbsent` this gives the result for every string |
| TextOps.Lower | qb-file-manager.php:167 | `strtolower` keeps the length, leaves no upper-case ASCII letter and changes no other character |
| TextOps.Extension | qb-file-manager.php:167 | `pathinfo(..., PATHINFO_EXTENSION)` contains no dot, is no longer than the name, and is "" for a name without a dot |
| TextOps.TrailingSlashIt | qb-file-manager.php:208-209 | `trailingslashit` always ends in "/" |
| TextOps.RemoveAllAbsent | qb-file-manager.php:87 | `str_replace` leaves a string unchanged when the pattern does not occur in it |
| TextOps.LexLeqTotal | qb-file-manager.php:231-232 | Code-unit comparison orders any two strings |
| TextOps.LexLeqTransitive | qb-file-manager.php:231-232 | Code-unit comparison is transitive |
| TextOps.LexLeqAntisymmetric | qb-file-manager.php:197 | Code-unit comparison puts no two different strings level, so ascending order is strict |
| PathGuard.SanitizeAndValidatePath | qb-file-manager.php:67-88 | The result is "" when the target does not canonicalise. It is non-empty only when the canonical target starts with the canonical base. It never starts with "/" |
| PathGuard.SanitizeContained | qb-file-manager.php:81-87 | For a canonical target that is the canonical base plus a tail not containing the base again, the result is that tail without its leading slashes |
| PathGuard.RealpathUnderBase | qb-file-manager.php:190-192 | The handlers' `!$full_path` test treats a falsy `realpath` result ("" or "0") as a failure |
| PathGuard.Resolve | qb-file-manager.php:190 | A resolved target is never falsy. A request that does not canonicalise resolves to the base directory itself |
| PathGuard.SiblingPassesPrefixTest | qb-file-manager.php:81-87 | With the base "/srv/www", the sibling "/srv/www-evil" passes the prefix test and sanitises to "-evil" |
| PathGuard.RepeatedBaseEscapes | qb-file-manager.php:81-87 | With the base "/b", the directory "/b/b./b." sanitises to "..", and that resolves to "/", which does not start with the base |
| FileTree.ChildNames | qb-file-manager.php:197-203 | The names of a directory are exactly the last segments of its direct entries |
| FileTree.FileSystem.Scandir | qb-file-manager.php:197-201 | `scandir` fails exactly on a non-directory or an unreadable directory. Otherwise it lists ".", ".." and every child, each once, in strictly ascending byte order |
| FileTree.FileSystem.Unlink | qb-file-manager.php:384 | `unlink` succeeds exactly on a file whose directory is writable. It removes that entry alone and keeps the tree well-formed |
| FileTree.FileSystem.Rmdir | qb-file-manager.php:423 | `rmdir` succeeds exactly on an empty directory, other than the root, whose parent is writable. It removes that entry alone |
| FileTree.FileSystem.Mkdir | qb-file-manager.php:269 | `mkdir` succeeds exactly on a fresh, validly named path in a writable directory. It adds one empty directory |
| FileTree.FileSystem.PutContents | qb-file-manager.php:466 | `file_put_contents` overwrites a writable file or creates one in a writable directory. It fails on a directory, and it changes only that entry |
| FileTree.FileSystem.MoveInto | qb-file-manager.php:346 | `move_uploaded_file` puts the bytes at the path unless the path is a directory or the directory is not writable. It replaces an existing file |
| FileTree.FileSystem.GetContents | qb-file-manager.php:440 | `file_get_contents` returns the whole content of a readable file and fails otherwise |
| Listing.CaseLeqTotal | qb-file-manager.php:231-232 | `strcasecmp` orders any two names |
| Listing.CaseLeqTransitive | qb-file-manager.php:231-232 | `strcasecmp` order is transitive |
| Listing.Insert | qb-file-manager.php:231-232 | Inserting into a sorted sequence keeps it sorted and adds exactly that one item |
| Listing.InsertPlacement | qb-file-manager.php:231-232 | The inserted item lands at one position `k`: every item before `k` is at most it up to case, so every item it ties with comes first, and every item from `k` on is above it. The rest of the sequence keeps its order |
| Listing.SortByName | qb-file-manager.php:231-232 | `usort` by `strcasecmp` returns a sorted permutation of its input. Being stable, it keeps names that are equal up to case in byte order when they came in byte order |
| Listing.InsertKeepsTies | qb-file-manager.php:231-232 | Inserting an item whose name is above every present name in byte order keeps names equal up to case in byte order |
| Listing.DropDots | qb-file-manager.php:203 | `array_diff` with ".", ".." keeps exactly the other names, keeps them distinct, and keeps them in ascending order |
| Listing.ItemFor | qb-file-manager.php:207-228 | An item carries the scanned name, is a folder exactly when that child is a directory, and has a type other than "other" exactly when its name may be uploaded. Its path ends in a "/" followed by the name |
| Listing.NamesPermutation | qb-file-manager.php:231-233 | Permuting items permutes their names |
| Listing.DistinctMultiset | qb-file-manager.php:197-203 | A name list without repetitions holds each name of the set it enumerates exactly once |
| Listing.Partition | qb-file-manager.php:207-229 | The loop puts each scanned name into exactly one group, folders with folders and files with files. Each item is the one built for its name, and each group keeps the names in the ascending order they were scanned in |
| Listing.ReadDirectory | qb-file-manager.php:197-233 | An unreadable directory is reported. Otherwise the result is the listing of the directory: every child once, each built correctly, folders first, each group sorted by `strcasecmp` with ties in byte order |
| Listing.ListItems | qb-file-manager.php:186-240 | The handler reports a target that does not resolve or is not a directory, then an unreadable one. Otherwise it returns the directory's listing |
| Listing.ListingShape | qb-file-manager.php:231-233 | Two sorted groups of correctly built folders and files, each with case ties in byte order, in that order, are a listing of the directory |
| Listing.ListingUnique | qb-file-manager.php:197-233 | Any two listings of the same directory in the same state are the same sequence, so listing an unchanged directory twice gives the same answer |
| Listing.UpperBeforeLower | qb-file-manager.php:197-232 | Of two entries of the same group named "A" and "a", "A" is listed first |
| Listing.ListingEntriesAreChildren | qb-file-manager.php:203-225 | A listing never shows "." or "..". Each item is a child of the directory, shown as a folder exactly when it is one. Its path is `trailingslashit` of the client's path (trailing "/" and "\\" replaced by one "/") followed by its name |
| Listing.ListingShowsEveryChild | qb-file-manager.php:197-233 | Every child of the directory appears in its listing |
| TreeRemoval.RemovableSplit | qb-file-manager.php:401-424 | A directory's whole subtree can be removed exactly when the directory can be read and removed and every child's subtree can be removed |
| TreeRemoval.GoneSetGrows | qb-file-manager.php:409-421 | Visiting one more child removes exactly that child's subtree |
| TreeRemoval.ChildrenRemoved | qb-file-manager.php:421-423 | Once every child's subtree is gone, the directory is empty, and removing it removes exactly its whole subtree |
| TreeRemoval.RemoveChild | qb-file-manager.php:410-419 | One turn of the loop succeeds exactly when the child's subtree is removable. On success exactly that subtree is gone. It changes nothing outside the child's subtree, and on failure the child is still there. The directory being emptied is always left in place |
| TreeRemoval.RemoveChildren | qb-file-manager.php:409-422 | The `foreach` over `scandir`'s names empties the directory exactly when every child's subtree is removable, and then exactly the subtrees of the children are gone. Otherwise it stopped at the first unremovable child in byte order (`StoppedAt`): the children before it are gone, it is still there, the ones after it are untouched, and nothing is restored. The directory itself is never touched |
| TreeRemoval.RemoveTree | qb-file-manager.php:401-424 | `rrmdir` succeeds exactly when its argument is a directory whose whole subtree is removable. Then exactly that subtree is gone. On failure nothing outside the subtree has changed, and the directory itself is still there. An unreadable directory is left as it was. Nothing removed is restored: if every child was removable, the whole subtree but the directory is gone; otherwise the loop stopped at the first unremovable child in `scandir`'s byte order (`StoppedAt`), every child before it is gone with its subtree, that child is still there, and every child after it is untouched. The directory has children left exactly when some child was not removable |
| Handlers.TargetDir | qb-file-manager.php:256-260 | The handlers' target is the resolved path when it is an existing directory, and there is none otherwise |
| Handlers.CreateCheck | qb-file-manager.php:251-267 | It reports an empty name first, then a missing target directory, then a name already taken. Otherwise the path to create is a fresh, validly named child of an existing directory |
| Handlers.CreateFolder | qb-file-manager.php:245-276 | On a failed check nothing changes and the check's error is reported. Otherwise the folder is added, or the handler fails with nothing changed, exactly as the directory's write permission decides |
| Handlers.CreateFile | qb-file-manager.php:281-312 | The same as create folder, with an empty file |
| Handlers.CreateNeverOverwrites | qb-file-manager.php:264-267 | A name that the listing of the target directory shows, as a folder or a file, is refused by create |
| Handlers.CreatedFolderIsListed | qb-file-manager.php:262-269 | A folder just created appears as a folder in the listing of its directory, under the client's path |
| Handlers.UploadCheck | qb-file-manager.php:321-343 | It reports the target directory first, then a missing or non-OK upload error code (with its code, or "unknown"), then a disallowed extension with the allow-list message. On success the file goes into an existing directory and has a display type other than "other" |
| Handlers.EmptyNameNotAllowed | qb-file-manager.php:339-341 | An empty file name has no extension and is refused |
| Handlers.UploadFile | qb-file-manager.php:317-353 | On a failed check nothing changes. Otherwise the file is written, replacing any file of that name, unless the directory is not writable or the name is a directory |
| Handlers.UploadOverwritesCreateRefuses | qb-file-manager.php:336-346 | After an upload, the same upload targets the same path again and replaces the file. Creating a file or folder of that name reports that it exists |
| Handlers.DeleteCheck | qb-file-manager.php:362-367 | A delete proceeds exactly when the target resolves, exists and starts with the canonical base |
| Handlers.DeleteOfUnresolvedTargetsBase | qb-file-manager.php:67-77 | A delete request whose path does not resolve targets the base directory itself whenever the base resolves and exists |
| Handlers.DeleteItem | qb-file-manager.php:358-392 | A directory is removed with `rrmdir`, and the whole subtree goes exactly when it is removable. A failure leaves the directory in place and touches nothing outside its subtree. It ends in the uncaught error for an unreadable directory, and otherwise reports "not empty" or "check permissions" by the remaining children. It reports "not empty" exactly when some child of the directory was not removable. A file is removed exactly when its directory is writable |
| Handlers.DeletedItemLeavesParent | qb-file-manager.php:369-386 | Removing an item's subtree takes exactly its name out of the parent's children, and no listing of the parent shows that name afterwards |
| Handlers.FileCheck | qb-file-manager.php:433-438 | Read and save proceed exactly when the target resolves, is a file and starts with the canonical base |
| Handlers.GetFileContent | qb-file-manager.php:429-448 | It returns the file's whole content, or reports "not found" or "read failed" |
| Handlers.SaveFileContent | qb-file-manager.php:453-473 | The content replaces the file's exactly when the file is writable. Otherwise nothing changes |
| Handlers.SavedContentIsRead | qb-file-manager.php:459-466 | After a save, the same path still passes the read checks and holds exactly the saved bytes |
| Handlers.RepeatedBaseTarget | qb-file-manager.php:67-88 | With the base "/b", the request "b./b." resolves to "/", the filesystem root, outside the base |
| Handlers.RepeatedBaseReachesCreate | qb-file-manager.php:256-269 | In any tree holding the directory "/b/b./b.", that request lets create folder and create file act in "/" |
| Handlers.RepeatedBaseRefusedByDelete | qb-file-manager.php:362-367 | In the same tree, the same request is refused by delete's second prefix test |
| Browser.RenderBreadcrumbs | js/qb-file-manager.js:114-124 | The trail is "Root" for "" and then one crumb per non-empty segment. The k-th crumb leads to the first k segments joined by "/" |
| Browser.CrumbPathStep | js/qb-file-manager.js:119-120 | Each crumb path extends the previous one by "/" (not before the first) and the next segment |
| Browser.CrumbLeadsToPrefix | js/qb-file-manager.js:114-134 | A crumb leads to the directory made of the first k segments, and the last crumb leads back to the current directory |
| Browser.CrumbPathIsRelative | js/qb-file-manager.js:119-121 | A crumb path is empty only for "Root", and otherwise it starts with the first segment, never with "/" |
| Browser.ParentLink | js/qb-file-manager.js:143-154 | The parent link is present exactly when the current path is not "" |
| Browser.ParentPath | js/qb-file-manager.js:145 | The parent of a path without "/" is "". Otherwise it is the part of the path before its last "/" |
| Browser.ParentPathShape | js/qb-file-manager.js:145 | Splitting on "/", dropping the last piece and joining again yields the prefix before the last "/", or "" when there is no "/" |
| Browser.ParentOfChild | js/qb-file-manager.js:145 | Going up from `p/n` leads back to `p` |
| Browser.ParentOfTopLevel | js/qb-file-manager.js:145 | A single segment, with or without a leading "/", has the root "" as its parent |
| Browser.ParentOfListedItem | js/qb-file-manager.js:145 | The parent link of a listed folder leads to the listed directory without its trailing slashes |
| Browser.ParentOfTrailingSlash | js/qb-file-manager.js:145 | For a path ending in "/", the parent link leads to the same directory |
| Browser.RenderCell | js/qb-file-manager.js:162-206 | Only code files get an edit button and only folders navigate, both to the item's path. Every item gets a delete button with its path and name |
| Browser.RenderFileList | js/qb-file-manager.js:140-229 | An empty list shows only the folder-empty or root-empty message. Otherwise the optional parent link is shown, then one cell per item in order |
| Browser.EditOfferedForEditable | js/qb-file-manager.js:172-179 | A listed entry gets an edit button exactly when it is a file whose lower-cased extension is editable |
| Browser.EmptyFolderHasNoParentLink | js/qb-file-manager.js:222-229 | An empty folder's view has no parent link |
| Browser.DeleteDialog.constructor | js/qb-file-manager.js:27 | Nothing is pending and the dialog is hidden |
| Browser.DeleteDialog.ClickDelete | js/qb-file-manager.js:253-271 | The button's path is stored first. An empty path or name is reported and leaves the dialog as it was. Otherwise the dialog opens |
| Browser.DeleteDialog.Hide | js/qb-file-manager.js:76-80 | Hiding closes the dialog and forgets the pending path |
| Browser.DeleteDialog.Confirm | js/qb-file-manager.js:430-438 | The pending path is captured before it is cleared. An empty capture sends nothing and reports it. Otherwise exactly that path is sent |
| Browser.DeleteOnce | js/qb-file-manager.js:253-438 | A click on an item's delete button followed by confirm sends that item's path once. A second confirm sends nothing |

## Left out

- WordPress glue is not modelled: menu registration, enqueueing assets,
  `check_ajax_security` (capability and nonce), `wp_unslash`, JSON
  responses and `die`.
  - `sanitize_text_field` is taken as the identity.
  - `sanitize_file_name` is represented only by what the handlers rely on,
    the precondition `Handlers.SanitizedName`: no "/" and not "." or "..".
- The operating system's `realpath` is left uninterpreted. Symbolic links,
  "." and ".." resolution, and the existence check are a function
  parameter of `PathGuard.Env`, and so is `urldecode`.
  - The model identifies the canonical path with its "/"-separated
    segments.
- `mkdir`'s recursive flag is not modelled. The parent always exists when
  the handler calls it.
- Entry sizes, modification times, `size_format`, `gmdate` and file modes
  are not modelled.
- The model follows PHP 8 throughout: the `TypeError` of a delete of an
  unreadable directory, `strpos` with an empty needle matching at 0, the
  stable `usort`, and ASCII `strtolower` (8.2 and later). The plugin also
  declares PHP 7.2 support. On 7.x, `array_diff` on `false` warns and
  returns null, so that delete answers "Check permissions". An empty
  `strpos` needle returns false. `usort` is not guaranteed to be stable, so
  names equal up to case may appear in either order.
- `scandir`'s order is byte order, as in the C locale. A different
  `LC_COLLATE` locale is not modelled.
- Under PHP 8, a delete of an unreadable directory always ends in a `TypeError`:
  `rrmdir` fails on it, and the handler then passes `scandir`'s `false` to
  `array_diff`. The model reports this as `Errors.Fatal`. PHP's own error
  output and the missing JSON answer are not modelled.
- Symbolic links are not modelled: the tree has only directories and
  regular files. PHP's `is_dir` follows links, so `rrmdir` descends into a
  linked directory and the listing shows a link to a directory as a
  folder.
- Names are sequences of Unicode characters, while PHP strings are bytes.
  Names that are not valid UTF-8 cannot be represented, and `strlen` or
  `strtolower` on multi-byte names is not modelled byte by byte.
- `strtolower` is modelled as ASCII lower-casing, as PHP 8.2 and later and
  the C locale do. Locale-dependent lower-casing in earlier PHP versions is
  not modelled.
- The browser script's markup, icons, event wiring, `fetch` requests,
  notifications' timing and the loading state are left out.
  - A notification appears only as its text.
- The editor (`loadAndEditFile`, save from the editor) and the create and
  upload forms of the browser script are left out. Their server sides are
  modelled.
- Concurrency between requests is not modelled. Each handler sees one
  consistent filesystem.
