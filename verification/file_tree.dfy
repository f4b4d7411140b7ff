/**
 * The filesystem the handlers act on: a map from paths (sequences of segment
 * names, [] being "/") to directories and files, in which every entry's parent
 * is a directory. The primitives PHP calls (`is_dir`, `is_file`, `scandir`,
 * `unlink`, `rmdir`, `mkdir`, `file_put_contents`, `file_get_contents`,
 * `move_uploaded_file`) are the methods of one object. Permissions are two
 * fixed sets of paths: `readOnly` (nothing may be added to or removed from such
 * a directory, and such a file may not be overwritten) and `unreadable` (such
 * a directory cannot be listed, such a file cannot be read).
 */
module FileTree {
  import opened Wrappers
  import opened TextOps

  type Name = string
  type Path = seq<Name>
  type Bytes = seq<bv8>

  datatype Node = Dir | File(content: Bytes)

  /** A name the operating system accepts as one path segment. */
  predicate ValidName(n: Name)
  {
    n != "" && n != "." && n != ".." && '/' !in n
  }

  function Parent(p: Path): Path
    requires p != []
  {
    p[..|p| - 1]
  }

  /** The root is a directory, and every other entry has a valid name and a directory as parent. */
  ghost predicate WellFormed(m: map<Path, Node>)
  {
    && [] in m && m[[]] == Dir
    && forall p, n :: p + [n] in m ==> ValidName(n) && p in m && m[p].Dir?
  }

  /** The condition of `WellFormed` read for one entry other than the root. */
  lemma EntryOfWellFormed(m: map<Path, Node>, q: Path)
    requires WellFormed(m) && q in m && q != []
    ensures ValidName(q[|q| - 1]) && Parent(q) in m && m[Parent(q)].Dir?
  {
    assert q == Parent(q) + [q[|q| - 1]];
  }

  /** `WellFormed` established entry by entry. */
  lemma WellFormedByEntry(m: map<Path, Node>)
    requires [] in m && m[[]] == Dir
    requires forall q :: q in m && q != [] ==> ValidName(q[|q| - 1]) && Parent(q) in m && m[Parent(q)].Dir?
    ensures WellFormed(m)
  {
    forall p, n | p + [n] in m
      ensures ValidName(n) && p in m && m[p].Dir?
    {
      var q := p + [n];
      assert q != [] && Parent(q) == p && q[|q| - 1] == n;
    }
  }

  /** The names of the direct children of `d`. */
  function ChildNames(m: map<Path, Node>, d: Path): (r: set<Name>)
    ensures forall n :: n in r <==> d + [n] in m
  {
    var r := set p | p in m && |p| == |d| + 1 && p[..|d|] == d :: p[|d|];
    assert forall n :: d + [n] in m ==> (d + [n])[..|d|] == d && (d + [n])[|d|] == n;
    assert forall p :: p in m && |p| == |d| + 1 && p[..|d|] == d ==> p == d + [p[|d|]];
    r
  }

  /** `d` and everything below it. */
  function Subtree(m: map<Path, Node>, d: Path): set<Path>
  {
    set p | p in m && d <= p
  }

  predicate Distinct<T(==)>(s: seq<T>)
  {
    forall i, j :: 0 <= i < j < |s| ==> s[i] != s[j]
  }

  /** A strictly increasing sequence extended by a name above all of it stays so. */
  lemma AscendingSnoc(s: seq<Name>, x: Name)
    requires Ascending(s) && forall y :: y in s ==> LexLeq(y, x) && y != x
    ensures Ascending(s + [x])
  {
    var t := s + [x];
    forall i, j | 0 <= i < j < |t| ensures LexLeq(t[i], t[j]) && t[i] != t[j] {
      if j == |s| { assert t[i] in s; }
    }
  }

  /** Every proper prefix of an entry of a well-formed tree is a directory of it. */
  lemma {:induction false} AncestorIsDir(m: map<Path, Node>, p: Path, k: nat)
    requires WellFormed(m) && p in m && k < |p|
    ensures p[..k] in m && m[p[..k]].Dir?
    decreases |p| - k
  {
    EntryOfWellFormed(m, p);
    if k == |p| - 1 {
      assert p[..k] == Parent(p);
    } else {
      AncestorIsDir(m, Parent(p), k);
      assert Parent(p)[..k] == p[..k];
    }
  }

  /** Anything strictly below `d` makes `d` a directory. */
  lemma BelowMeansDir(m: map<Path, Node>, d: Path)
    requires WellFormed(m)
    ensures forall p :: p in m && d <= p && |p| > |d| ==> d in m && m[d].Dir?
  {
    forall p | p in m && d <= p && |p| > |d|
      ensures d in m && m[d].Dir?
    {
      AncestorIsDir(m, p, |d|);
      assert p[..|d|] == d;
    }
  }

  /** A file has nothing below it. */
  lemma FileIsLeaf(m: map<Path, Node>, f: Path)
    requires WellFormed(m) && f in m && m[f].File?
    ensures Subtree(m, f) == {f}
  {
    BelowMeansDir(m, f);
    assert forall p :: p in Subtree(m, f) <==> p == f;
  }

  /** Removing a childless entry other than the root keeps the tree well formed. */
  lemma RemoveLeafKeepsWellFormed(m: map<Path, Node>, p: Path)
    requires WellFormed(m) && p in m && p != [] && ChildNames(m, p) == {}
    ensures WellFormed(m - {p})
  {
    var m' := m - {p};
    forall q, n | q + [n] in m'
      ensures ValidName(n) && q in m' && m'[q].Dir?
    {
      assert q + [n] in m;
      assert n !in ChildNames(m, p);
    }
  }

  /** A file has no children. */
  lemma FileHasNoChildren(m: map<Path, Node>, f: Path)
    requires WellFormed(m) && f in m && m[f].File?
    ensures ChildNames(m, f) == {}
  {
  }

  /** Giving an existing file new content keeps the tree well formed. */
  lemma RewriteFileKeepsWellFormed(m: map<Path, Node>, f: Path, c: Bytes)
    requires WellFormed(m) && f in m && m[f].File?
    ensures WellFormed(m[f := File(c)])
  {
    var m' := m[f := File(c)];
    forall q, n | q + [n] in m'
      ensures ValidName(n) && q in m' && m'[q].Dir?
    {
      assert q + [n] in m;
    }
  }

  /** Adding a fresh, validly named entry under a directory keeps the tree well formed. */
  lemma AddChildKeepsWellFormed(m: map<Path, Node>, p: Path, node: Node)
    requires WellFormed(m) && p != [] && p !in m && ValidName(p[|p| - 1])
    requires Parent(p) in m && m[Parent(p)].Dir?
    ensures WellFormed(m[p := node])
  {
    var m' := m[p := node];
    forall q, n | q + [n] in m'
      ensures ValidName(n) && q in m' && m'[q].Dir?
    {
      if q + [n] == p {
        assert q == Parent(p) && n == p[|p| - 1];
      }
    }
  }

  class FileSystem {
    var entries: map<Path, Node>
    const readOnly: set<Path>
    const unreadable: set<Path>

    ghost predicate Valid()
      reads this
    {
      WellFormed(entries)
    }

    /** A filesystem holding only its root directory. */
    constructor (readOnly: set<Path>, unreadable: set<Path>)
      ensures Valid()
      ensures entries == map[[] := Dir]
      ensures this.readOnly == readOnly && this.unreadable == unreadable
    {
      entries := map[[] := Dir];
      this.readOnly := readOnly;
      this.unreadable := unreadable;
    }

    /** `is_dir`. */
    predicate IsDir(p: Path)
      reads this
    {
      p in entries && entries[p].Dir?
    }

    /** `is_file`. */
    predicate IsFile(p: Path)
      reads this
    {
      p in entries && entries[p].File?
    }

    /** Whether an entry named `p` may be added or removed: its parent must allow it. */
    predicate ParentWritable(p: Path)
    {
      p != [] && Parent(p) !in readOnly
    }

    /**
     * `scandir(d)`: `None` (false) when `d` is not a readable directory;
     * otherwise ".", ".." and every child exactly once, in ascending order
     * (`SCANDIR_SORT_ASCENDING`, byte order in the C locale).
     */
    method Scandir(d: Path) returns (r: Option<seq<Name>>)
      requires Valid()
      ensures r.None? <==> !IsDir(d) || d in unreadable
      ensures r.Some? ==> Ascending(r.value) && Distinct(r.value)
      ensures r.Some? ==> forall n :: n in r.value <==> n == "." || n == ".." || n in ChildNames(entries, d)
    {
      if !IsDir(d) || d in unreadable {
        return None;
      }
      var all := ChildNames(entries, d) + {".", ".."};
      var rest := all;
      var out := [];
      while rest != {}
        invariant rest <= all
        invariant Ascending(out)
        invariant forall n :: n in out <==> n in all && n !in rest
        invariant forall x, y :: x in out && y in rest ==> LexLeq(x, y) && x != y
        decreases rest
      {
        LeastExists(rest);
        var n :| n in rest && forall y :: y in rest ==> LexLeq(n, y);
        AscendingSnoc(out, n);
        out := out + [n];
        rest := rest - {n};
      }
      r := Some(out);
    }

    /** `unlink(p)`: removes a file whose directory allows it. */
    method Unlink(p: Path) returns (ok: bool)
      requires Valid()
      modifies this
      ensures Valid()
      ensures ok <==> old(IsFile(p)) && ParentWritable(p)
      ensures entries == if ok then old(entries) - {p} else old(entries)
    {
      ok := IsFile(p) && ParentWritable(p);
      if ok {
        FileHasNoChildren(entries, p);
        RemoveLeafKeepsWellFormed(entries, p);
        entries := entries - {p};
      }
    }

    /** `rmdir(p)`: removes an empty directory, never the root. */
    method Rmdir(p: Path) returns (ok: bool)
      requires Valid()
      modifies this
      ensures Valid()
      ensures ok <==> old(IsDir(p)) && ChildNames(old(entries), p) == {} && ParentWritable(p)
      ensures entries == if ok then old(entries) - {p} else old(entries)
    {
      ok := IsDir(p) && ChildNames(entries, p) == {} && ParentWritable(p);
      if ok {
        RemoveLeafKeepsWellFormed(entries, p);
        entries := entries - {p};
      }
    }

    /** `mkdir(p)`: adds an empty directory under an existing, writable directory. */
    method Mkdir(p: Path) returns (ok: bool)
      requires Valid()
      modifies this
      ensures Valid()
      ensures ok <==> p != [] && p !in old(entries) && ValidName(p[|p| - 1]) && old(IsDir(Parent(p))) && ParentWritable(p)
      ensures entries == if ok then old(entries)[p := Dir] else old(entries)
    {
      ok := p != [] && p !in entries && ValidName(p[|p| - 1]) && IsDir(Parent(p)) && ParentWritable(p);
      if ok {
        AddChildKeepsWellFormed(entries, p, Dir);
        entries := entries[p := Dir];
      }
    }

    /**
     * `file_put_contents(p, c)`: overwrites a writable file, or creates one
     * in a writable directory; fails on a directory.
     */
    method PutContents(p: Path, c: Bytes) returns (ok: bool)
      requires Valid()
      modifies this
      ensures Valid()
      ensures ok <==> if p in old(entries) then old(IsFile(p)) && p !in readOnly
                      else p != [] && ValidName(p[|p| - 1]) && old(IsDir(Parent(p))) && ParentWritable(p)
      ensures entries == if ok then old(entries)[p := File(c)] else old(entries)
    {
      if p in entries {
        ok := IsFile(p) && p !in readOnly;
        if ok {
          RewriteFileKeepsWellFormed(entries, p, c);
          entries := entries[p := File(c)];
        }
      } else {
        ok := p != [] && ValidName(p[|p| - 1]) && IsDir(Parent(p)) && ParentWritable(p);
        if ok {
          AddChildKeepsWellFormed(entries, p, File(c));
          entries := entries[p := File(c)];
        }
      }
    }

    /**
     * `move_uploaded_file(tmp, p)`: a rename into a writable directory; it
     * replaces an existing file whatever that file's own permission, and
     * fails on a directory.
     */
    method MoveInto(p: Path, c: Bytes) returns (ok: bool)
      requires Valid()
      modifies this
      ensures Valid()
      ensures ok <==> p != [] && ValidName(p[|p| - 1]) && old(IsDir(Parent(p))) && ParentWritable(p) && !old(IsDir(p))
      ensures entries == if ok then old(entries)[p := File(c)] else old(entries)
    {
      ok := p != [] && ValidName(p[|p| - 1]) && IsDir(Parent(p)) && ParentWritable(p) && !IsDir(p);
      if ok {
        if p in entries {
          RewriteFileKeepsWellFormed(entries, p, c);
        } else {
          AddChildKeepsWellFormed(entries, p, File(c));
        }
        entries := entries[p := File(c)];
      }
    }

    /** `file_get_contents(p)`: the whole content of a readable file. */
    method GetContents(p: Path) returns (r: Option<Bytes>)
      ensures r.Some? <==> IsFile(p) && p !in unreadable
      ensures r.Some? ==> entries[p] == File(r.value)
    {
      if IsFile(p) && p !in unreadable {
        r := Some(entries[p].content);
      } else {
        r := None;
      }
    }
  }
}
