/**
 * The path logic of the browser client: the breadcrumb trail, the parent
 * link, the actions offered for each listed item, and the one-slot pending
 * delete behind the confirmation dialog. Markup, event wiring, requests and
 * notifications are not modelled; a notification is returned as its text.
 */
module Browser {
  import opened Wrappers
  import opened TextOps
  import opened FileTypes
  import opened FileTree
  import opened Listing

  // ---------------------------------------------------------------------------
  // breadcrumbs
  // ---------------------------------------------------------------------------

  /** One breadcrumb link: its text and the path it navigates to. */
  datatype Crumb = Crumb(text: string, path: string)

  /**
   * `renderBreadcrumbs`: a "Root" crumb for "", then one crumb per non-empty
   * segment of the current path, the k-th navigating to the first k segments
   * joined by "/".
   */
  method RenderBreadcrumbs(currentPath: string) returns (crumbs: seq<Crumb>)
    ensures |crumbs| == 1 + |Parts(currentPath)|
    ensures crumbs[0] == Crumb("Root", "")
    ensures forall k :: 1 <= k < |crumbs| ==>
      crumbs[k] == Crumb(Parts(currentPath)[k - 1], Join(Parts(currentPath)[..k], "/"))
  {
    crumbs := [Crumb("Root", "")];
    var pathParts := Parts(currentPath);
    var currentBreadcrumbPath := "";
    for index := 0 to |pathParts|
      invariant |crumbs| == index + 1
      invariant crumbs[0] == Crumb("Root", "")
      invariant forall k :: 1 <= k <= index ==> crumbs[k] == Crumb(pathParts[k - 1], Join(pathParts[..k], "/"))
      invariant currentBreadcrumbPath == Join(pathParts[..index], "/")
    {
      var part := pathParts[index];
      CrumbPathStep(pathParts, index);
      currentBreadcrumbPath := currentBreadcrumbPath + (if index > 0 then "/" else "") + part;
      ghost var previous := crumbs;
      crumbs := crumbs + [Crumb(part, currentBreadcrumbPath)];
      assert forall k :: 0 <= k <= index ==> crumbs[k] == previous[k];
      assert crumbs[index + 1] == Crumb(pathParts[index], Join(pathParts[..index + 1], "/"));
    }
  }

  /** One step of the trail: the next crumb path extends the previous one by "/" and a segment. */
  lemma CrumbPathStep(parts: seq<string>, index: nat)
    requires index < |parts|
    ensures Join(parts[..index + 1], "/")
         == Join(parts[..index], "/") + (if index > 0 then "/" else "") + parts[index]
  {
    assert parts[..index + 1] == parts[..index] + [parts[index]];
    JoinSnoc(parts[..index], parts[index], "/");
  }

  /**
   * The k-th crumb leads to the directory made of the first k segments of the
   * current path, and the last crumb leads back to the current directory.
   */
  lemma CrumbLeadsToPrefix(currentPath: string, k: nat)
    requires k <= |Parts(currentPath)|
    ensures Parts(Join(Parts(currentPath)[..k], "/")) == Parts(currentPath)[..k]
    ensures k == |Parts(currentPath)| ==> Parts(Join(Parts(currentPath)[..k], "/")) == Parts(currentPath)
  {
    var ps := Parts(currentPath)[..k];
    assert forall i :: 0 <= i < |ps| ==> ps[i] == Parts(currentPath)[i];
    PartsOfJoin(ps);
    assert k == |Parts(currentPath)| ==> ps == Parts(currentPath);
  }

  /** A crumb path never starts with "/": it is relative to the base like every request path. */
  lemma {:induction false} CrumbPathIsRelative(ps: seq<string>)
    requires forall i :: 0 <= i < |ps| ==> ps[i] != "" && '/' !in ps[i]
    ensures Join(ps, "/") == "" <==> ps == []
    ensures ps != [] ==> Join(ps, "/")[0] == ps[0][0]
  {
    if |ps| > 1 {
      assert Join(ps, "/") == ps[0] + "/" + Join(ps[1..], "/");
    }
  }

  // ---------------------------------------------------------------------------
  // parent link
  // ---------------------------------------------------------------------------

  /**
   * `currentPath.split('/').slice(0, -1).join('/')`: everything before the
   * last "/", or "" when there is none.
   */
  function ParentPath(currentPath: string): (r: string)
    ensures '/' !in currentPath ==> r == ""
    ensures '/' in currentPath ==>
      |r| < |currentPath| && currentPath[..|r|] == r && currentPath[|r|] == '/' && '/' !in currentPath[|r| + 1..]
  {
    var pieces := Split(currentPath, '/');
    ParentPathShape(currentPath);
    Join(pieces[..|pieces| - 1], "/")
  }

  /** The pieces before the last one, joined again, are the text before the last separator. */
  lemma ParentPathShape(s: string)
    ensures var pieces := Split(s, '/');
      var r := Join(pieces[..|pieces| - 1], "/");
      && ('/' !in s ==> r == "")
      && ('/' in s ==> |r| < |s| && s[..|r|] == r && s[|r|] == '/' && '/' !in s[|r| + 1..])
  {
    var pieces := Split(s, '/');
    var n := |pieces|;
    var r := Join(pieces[..n - 1], "/");
    var last := pieces[n - 1];
    JoinSplit(s, '/');
    assert pieces == pieces[..n - 1] + [last];
    JoinSnoc(pieces[..n - 1], last, "/");
    if n == 1 {
      assert s == last;
    } else {
      assert s == r + "/" + last;
      assert s[..|r|] == r && s[|r|] == '/' && s[|r| + 1..] == last;
    }
  }

  /** The parent item of `renderFileList`: present only away from the root. */
  function ParentLink(currentPath: string): (r: Option<string>)
    ensures r.None? <==> currentPath == ""
  {
    if currentPath != "" then Some(ParentPath(currentPath)) else None
  }

  /** Going up from `p/n` leads back to `p`, whatever `p` looks like. */
  lemma ParentOfChild(p: string, n: string)
    requires '/' !in n
    ensures ParentPath(p + "/" + n) == p
  {
    assert p + "/" + n == p + ['/'] + n;
    SplitConcat(p, '/', n);
    SplitNoSeparator(n, '/');
    var pieces := Split(p + "/" + n, '/');
    assert pieces[..|pieces| - 1] == Split(p, '/');
    JoinSplit(p, '/');
  }

  /** A single segment, with or without a leading slash, has the root "" as parent. */
  lemma ParentOfTopLevel(n: string)
    requires '/' !in n
    ensures ParentPath(n) == ""
    ensures ParentPath("/" + n) == ""
  {
    SplitNoSeparator(n, '/');
    ParentOfChild("", n);
    assert "" + "/" + n == "/" + n;
  }

  /**
   * The path of a listed folder is `trailingslashit(dir) . name`; its parent
   * link leads back to `dir` without its trailing slashes.
   */
  lemma ParentOfListedItem(dirRel: string, n: string)
    requires '/' !in n
    ensures ParentLink(TrailingSlashIt(dirRel) + n) == Some(RTrim(dirRel, {'/', '\\'}))
  {
    var d := RTrim(dirRel, {'/', '\\'});
    assert TrailingSlashIt(dirRel) + n == d + "/" + n;
    ParentOfChild(d, n);
  }

  /** A trailing slash makes the parent link lead to the same directory. */
  lemma ParentOfTrailingSlash(p: string)
    ensures ParentPath(p + "/") == p
    ensures Parts(ParentPath(p + "/")) == Parts(p + "/")
  {
    ParentOfChild(p, "");
    assert p + "/" + "" == p + "/";
    ExtraSlashesIgnored(p, "");
  }

  // ---------------------------------------------------------------------------
  // the grid
  // ---------------------------------------------------------------------------

  /**
   * What the grid shows for one item: the edit button's path (code files
   * only), the delete button's path and name (every item) and the navigation
   * path of the cell (folders only).
   */
  datatype Cell = Cell(editPath: Option<string>, deletePath: string, deleteName: string, navPath: Option<string>)

  /** The per-item part of `renderFileList`. */
  function RenderCell(item: Item): (r: Cell)
    ensures r.editPath.Some? <==> item.kind == FileOf(Code)
    ensures r.navPath.Some? <==> item.kind.Folder?
    ensures r.deletePath == item.relativePath && r.deleteName == item.name
    ensures r.editPath.Some? ==> r.editPath.value == item.relativePath
    ensures r.navPath.Some? ==> r.navPath.value == item.relativePath
  {
    Cell(if item.kind == FileOf(Code) then Some(item.relativePath) else None,
         item.relativePath,
         item.name,
         if item.kind.Folder? then Some(item.relativePath) else None)
  }

  /**
   * What `renderFileList` puts in the container: only a message when there is
   * nothing to list (the parent link is then dropped with the rest of the
   * grid), otherwise the optional parent link and one cell per item.
   */
  datatype View = EmptyFolder | EmptyRoot | Grid(parent: Option<string>, cells: seq<Cell>)

  function RenderFileList(currentPath: string, items: seq<Item>): (r: View)
    ensures items == [] ==> r == (if currentPath != "" then EmptyFolder else EmptyRoot)
    ensures items != [] ==> r.Grid? && r.parent == ParentLink(currentPath) && |r.cells| == |items|
    ensures items != [] ==> forall i :: 0 <= i < |items| ==> r.cells[i] == RenderCell(items[i])
  {
    if items == [] then
      if currentPath != "" then EmptyFolder else EmptyRoot
    else
      Grid(ParentLink(currentPath), seq(|items|, i requires 0 <= i < |items| => RenderCell(items[i])))
  }

  /**
   * In a listing from the server, a file gets an edit button exactly when its
   * lower-cased extension is one of the editable ones, and folders never do.
   */
  lemma EditOfferedForEditable(m: map<Path, Node>, d: Path, dirRel: string, n: Name)
    ensures var isDir := d + [n] in m && m[d + [n]].Dir?;
      RenderCell(ItemFor(m, d, dirRel, n)).editPath.Some? <==> !isDir && LowerExtension(n) in Editable
  {
  }

  /** An empty folder offers no way up: its view has no parent link. */
  lemma EmptyFolderHasNoParentLink(currentPath: string)
    ensures !RenderFileList(currentPath, []).Grid?
  {
  }

  // ---------------------------------------------------------------------------
  // pending delete
  // ---------------------------------------------------------------------------

  const NoPathMessage := "Error: Delete button has no data-path attribute."
  const NoNameMessage := "Error: Delete button has no data-name attribute."
  const NothingSelectedMessage := "No item selected for deletion."

  /**
   * The confirmation dialog and the one path it may delete. A button whose
   * `data-path` is missing is read as "" (only its falsiness matters).
   */
  class DeleteDialog {
    var itemToDeletePath: string
    var visible: bool

    constructor ()
      ensures itemToDeletePath == "" && !visible
    {
      itemToDeletePath := "";
      visible := false;
    }

    /**
     * A click on a delete button: the path is stored first, then an empty path
     * or name is reported and the dialog is not opened.
     */
    method ClickDelete(path: string, name: string) returns (notice: Option<string>)
      modifies this
      ensures itemToDeletePath == path
      ensures path == "" ==> notice == Some(NoPathMessage) && visible == old(visible)
      ensures path != "" && name == "" ==> notice == Some(NoNameMessage) && visible == old(visible)
      ensures path != "" && name != "" ==> notice.None? && visible
    {
      itemToDeletePath := path;
      if itemToDeletePath == "" {
        return Some(NoPathMessage);
      }
      if name == "" {
        return Some(NoNameMessage);
      }
      visible := true;
      notice := None;
    }

    /** `hideConfirmModal`, also the cancel button: closes the dialog and forgets the path. */
    method Hide()
      modifies this
      ensures !visible && itemToDeletePath == ""
    {
      visible := false;
      itemToDeletePath := "";
    }

    /**
     * The confirm button: the path is captured before the dialog is hidden and
     * cleared; an empty capture sends nothing and reports it.
     */
    method Confirm() returns (request: Option<string>, notice: Option<string>)
      modifies this
      ensures !visible && itemToDeletePath == ""
      ensures old(itemToDeletePath) == "" ==> request.None? && notice == Some(NothingSelectedMessage)
      ensures old(itemToDeletePath) != "" ==> request == Some(old(itemToDeletePath)) && notice.None?
    {
      var pathToDelete := itemToDeletePath;
      Hide();
      if pathToDelete == "" {
        return None, Some(NothingSelectedMessage);
      }
      request, notice := Some(pathToDelete), None;
    }
  }

  /**
   * A click on an item's delete button followed by confirm sends exactly that
   * item's path, once: a second confirm sends nothing.
   */
  method DeleteOnce(dialog: DeleteDialog, item: Item) returns (first: Option<string>, second: Option<string>)
    requires item.relativePath != "" && item.name != ""
    modifies dialog
    ensures first == Some(item.relativePath)
    ensures second.None?
    ensures !dialog.visible && dialog.itemToDeletePath == ""
  {
    var cell := RenderCell(item);
    var _ := dialog.ClickDelete(cell.deletePath, cell.deleteName);
    var notice;
    first, notice := dialog.Confirm();
    second, notice := dialog.Confirm();
  }
}
