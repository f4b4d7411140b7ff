/**
 * `rrmdir`: depth-first removal of a directory and everything below it, one
 * `unlink` or `rmdir` at a time, stopping at the first failure without
 * restoring what was already removed.
 */
module TreeRemoval {
  import opened Wrappers
  import opened TextOps
  import opened FileTree

  /**
   * Every entry of the subtree of `d` can be removed: it is not the root, its
   * parent directory is writable, and it is readable if it is a directory
   * (its children are found by `scandir`).
   */
  ghost predicate Removable(m: map<Path, Node>, readOnly: set<Path>, unreadable: set<Path>, d: Path)
  {
    forall p :: p in m && d <= p ==> p != [] && Parent(p) !in readOnly && (m[p].Dir? ==> p !in unreadable)
  }

  /** `m1` is `m0` with some entries of the subtree of `d` removed and nothing else changed. */
  ghost predicate PrunedWithin(m0: map<Path, Node>, m1: map<Path, Node>, d: Path)
  {
    && (forall p :: p in m1 ==> p in m0 && m1[p] == m0[p])
    && (forall p :: p in m0 && p !in m1 ==> d <= p)
  }

  /** `p` lies strictly below `d`, under one of the children named in `done`. */
  predicate Gone(d: Path, done: set<Name>, p: Path)
  {
    |p| > |d| && p[..|d|] == d && p[|d|] in done
  }

  /** The entries under the children of `d` named in `done`. */
  ghost function GoneSet(m: map<Path, Node>, d: Path, done: set<Name>): set<Path>
  {
    set p | p in m && Gone(d, done, p)
  }

  /** Lying under child `n` of `d` is being gone with `n`. */
  lemma UnderChild(d: Path, n: Name, p: Path)
    ensures d + [n] <= p <==> |p| > |d| && p[..|d|] == d && p[|d|] == n
  {
    if |p| > |d| && p[..|d|] == d && p[|d|] == n {
      assert p[..|d| + 1] == d + [n];
    }
  }

  /** A smaller subtree inherits removability. */
  lemma RemovableBelow(m: map<Path, Node>, ro: set<Path>, ur: set<Path>, d: Path, c: Path)
    requires d <= c && Removable(m, ro, ur, d)
    ensures Removable(m, ro, ur, c)
  {
  }

  /** Removability of a subtree reads nothing outside it. */
  lemma RemovableLocal(m0: map<Path, Node>, m1: map<Path, Node>, ro: set<Path>, ur: set<Path>, c: Path)
    requires forall p :: c <= p ==> (p in m0 <==> p in m1) && (p in m0 ==> m0[p] == m1[p])
    ensures Removable(m0, ro, ur, c) <==> Removable(m1, ro, ur, c)
  {
  }

  /**
   * A directory's subtree is removable exactly when the directory itself can
   * be read and removed and the subtree of each child is removable.
   */
  lemma {:induction false} RemovableSplit(m: map<Path, Node>, ro: set<Path>, ur: set<Path>, d: Path)
    requires WellFormed(m) && d in m && m[d].Dir?
    ensures Removable(m, ro, ur, d) <==>
      && d != [] && Parent(d) !in ro && d !in ur
      && forall n :: n in ChildNames(m, d) ==> Removable(m, ro, ur, d + [n])
  {
    if d != [] && Parent(d) !in ro && d !in ur && forall n :: n in ChildNames(m, d) ==> Removable(m, ro, ur, d + [n]) {
      forall p | p in m && d <= p
        ensures p != [] && Parent(p) !in ro && (m[p].Dir? ==> p !in ur)
      {
        if p != d {
          var n := p[|d|];
          UnderChild(d, n, p);
          if |p| > |d| + 1 {
            AncestorIsDir(m, p, |d| + 1);
          }
          assert p[..|d| + 1] == d + [n];
          assert n in ChildNames(m, d);
        }
      }
    }
  }

  /** The subtree of a child, even after some removals, is smaller than its parent's. */
  lemma SubtreeShrinks(m0: map<Path, Node>, m1: map<Path, Node>, d: Path, n: Name)
    requires m1.Keys <= m0.Keys && d in m0
    ensures Subtree(m1, d + [n]) < Subtree(m0, d)
  {
    assert d in Subtree(m0, d) && d !in Subtree(m1, d + [n]);
  }

  /**
   * After every child's subtree has been removed, `dir` is empty; removing it
   * too removes its whole subtree, and the subtree was removable exactly when
   * `dir` itself may be removed.
   */
  lemma ChildrenRemoved(m0: map<Path, Node>, ro: set<Path>, ur: set<Path>, dir: Path)
    requires WellFormed(m0) && dir in m0 && m0[dir].Dir? && dir !in ur
    requires forall n :: n in ChildNames(m0, dir) ==> Removable(m0, ro, ur, dir + [n])
    ensures var m1 := m0 - GoneSet(m0, dir, ChildNames(m0, dir));
      && dir in m1 && m1[dir].Dir?
      && ChildNames(m1, dir) == {}
      && m1 - {dir} == m0 - Subtree(m0, dir)
      && PrunedWithin(m0, m1, dir)
      && PrunedWithin(m0, m1 - {dir}, dir)
      && (Removable(m0, ro, ur, dir) <==> dir != [] && Parent(dir) !in ro)
  {
    var m1 := m0 - GoneSet(m0, dir, ChildNames(m0, dir));
    AllChildrenGone(m0, dir);
    forall n
      ensures dir + [n] !in m1
    {
      UnderChild(dir, n, dir + [n]);
    }
    RemovableSplit(m0, ro, ur, dir);
  }

  /** Pruning within a subtree, then within a smaller one, is pruning within the first. */
  lemma PrunedTransitive(m0: map<Path, Node>, m1: map<Path, Node>, m2: map<Path, Node>, d: Path, c: Path)
    requires PrunedWithin(m0, m1, d) && PrunedWithin(m1, m2, c) && d <= c
    ensures PrunedWithin(m0, m2, d)
  {
  }

  /** Removing the entries gone so far leaves the subtree of a child not yet visited intact. */
  lemma UnvisitedIntact(m0: map<Path, Node>, d: Path, done: set<Name>, n: Name)
    requires n !in done
    ensures forall p :: d + [n] <= p ==> (p in m0 - GoneSet(m0, d, done) <==> p in m0)
  {
    forall p | d + [n] <= p
      ensures p in m0 - GoneSet(m0, d, done) <==> p in m0
    {
      UnderChild(d, n, p);
    }
  }

  /** Visiting one more child removes exactly its subtree. */
  lemma GoneSetGrows(m0: map<Path, Node>, d: Path, done: set<Name>, n: Name)
    ensures GoneSet(m0, d, done + {n}) == GoneSet(m0, d, done) + Subtree(m0, d + [n])
  {
    forall p | p in m0
      ensures p in GoneSet(m0, d, done + {n}) <==> p in GoneSet(m0, d, done) + Subtree(m0, d + [n])
    {
      UnderChild(d, n, p);
    }
  }

  /** Once every child has been visited, all of the subtree but `d` itself is gone. */
  lemma AllChildrenGone(m0: map<Path, Node>, d: Path)
    requires WellFormed(m0) && d in m0
    ensures GoneSet(m0, d, ChildNames(m0, d)) == Subtree(m0, d) - {d}
  {
    forall p | p in m0 && d <= p && p != d
      ensures Gone(d, ChildNames(m0, d), p)
    {
      var n := p[|d|];
      UnderChild(d, n, p);
      if |p| > |d| + 1 {
        AncestorIsDir(m0, p, |d| + 1);
      }
      assert p[..|d| + 1] == d + [n];
    }
  }

  /**
   * The loop of `rrmdir` over the children of `d` stopped at child `f`: `f` is
   * the first child, in the byte order of `scandir`, whose subtree is not
   * removable. Every child before it has gone with its whole subtree, `f`
   * itself is still there, and every child after it is untouched.
   */
  ghost predicate StoppedAt(m0: map<Path, Node>, m1: map<Path, Node>, ro: set<Path>, ur: set<Path>, d: Path, f: Name)
  {
    && f in ChildNames(m0, d) && !Removable(m0, ro, ur, d + [f])
    && d + [f] in m1
    && (forall n :: n in ChildNames(m0, d) && LexLeq(n, f) && n != f ==>
          Removable(m0, ro, ur, d + [n]) && Subtree(m1, d + [n]) == {})
    && (forall n :: n in ChildNames(m0, d) && LexLeq(f, n) && n != f ==>
          Subtree(m1, d + [n]) == Subtree(m0, d + [n]))
  }

  /**
   * When `scandir` lists names in ascending byte order, the children met
   * before position `i` are exactly the children that come before `names[i]`.
   */
  lemma EarlierChildren(names: seq<Name>, i: int, done: set<Name>, children: set<Name>)
    requires Ascending(names) && 0 <= i < |names|
    requires "." !in children && ".." !in children
    requires forall n :: n in names <==> n == "." || n == ".." || n in children
    requires forall n :: n in done <==> n in names[..i] && n != "." && n != ".."
    ensures forall n :: n in done <==> n in children && LexLeq(n, names[i]) && n != names[i]
  {
    forall n | n in children && LexLeq(n, names[i]) && n != names[i]
      ensures n in names[..i]
    {
      var j :| 0 <= j < |names| && names[j] == n;
      if j > i {
        LexLeqAntisymmetric(n, names[i]);
      }
    }
  }

  /** Failing at child `f`, with the children before it gone, leaves the tree `StoppedAt(f)` describes. */
  lemma StopAtChild(m0: map<Path, Node>, m1: map<Path, Node>, ro: set<Path>, ur: set<Path>, d: Path, done: set<Name>, f: Name)
    requires f in ChildNames(m0, d) && !Removable(m0, ro, ur, d + [f])
    requires forall n :: n in done <==> n in ChildNames(m0, d) && LexLeq(n, f) && n != f
    requires forall n :: n in done ==> Removable(m0, ro, ur, d + [n])
    requires PrunedWithin(m0 - GoneSet(m0, d, done), m1, d + [f]) && d + [f] in m1
    ensures StoppedAt(m0, m1, ro, ur, d, f)
  {
    forall n | n in done
      ensures Subtree(m1, d + [n]) == {}
    {
      forall p | p in m1 && d + [n] <= p
        ensures false
      {
        UnderChild(d, n, p);
      }
    }
    forall n | n in ChildNames(m0, d) && LexLeq(f, n) && n != f
      ensures Subtree(m1, d + [n]) == Subtree(m0, d + [n])
    {
      assert n !in done by {
        if LexLeq(n, f) {
          LexLeqAntisymmetric(n, f);
        }
      }
      UnvisitedIntact(m0, d, done, n);
      forall p | p in m0 && d + [n] <= p
        ensures !(d + [f] <= p)
      {
        UnderChild(d, n, p);
        UnderChild(d, f, p);
      }
    }
  }

  /** The loop of `rrmdir` failing on `names[i]` leaves the tree `StoppedAt(names[i])` describes. */
  lemma StopInLoop(m0: map<Path, Node>, m1: map<Path, Node>, ro: set<Path>, ur: set<Path>, d: Path,
                   names: seq<Name>, i: int, done: set<Name>)
    requires WellFormed(m0) && Ascending(names) && 0 <= i < |names|
    requires forall n :: n in names <==> n == "." || n == ".." || n in ChildNames(m0, d)
    requires forall n :: n in done <==> n in names[..i] && n != "." && n != ".."
    requires forall n :: n in done ==> Removable(m0, ro, ur, d + [n])
    requires names[i] in ChildNames(m0, d) && !Removable(m0, ro, ur, d + [names[i]])
    requires PrunedWithin(m0 - GoneSet(m0, d, done), m1, d + [names[i]]) && d + [names[i]] in m1
    ensures !forall n :: n in ChildNames(m0, d) ==> Removable(m0, ro, ur, d + [n])
    ensures exists f :: StoppedAt(m0, m1, ro, ur, d, f)
    ensures ChildNames(m1, d) != {}
  {
    assert "." !in ChildNames(m0, d) && ".." !in ChildNames(m0, d);
    EarlierChildren(names, i, done, ChildNames(m0, d));
    StopAtChild(m0, m1, ro, ur, d, done, names[i]);
    assert names[i] in ChildNames(m1, d);
  }

  /**
   * `rrmdir(dir)`: it succeeds exactly when `dir` is a directory whose whole
   * subtree is removable, and then the subtree is gone and nothing else has
   * changed. When it fails it never touches anything outside the subtree,
   * and `dir` itself is still there: its `rmdir` is the last call, made only
   * once every child has gone. An unreadable `dir` is left as it was. Otherwise
   * nothing is restored: either every child went and only the final `rmdir`
   * failed, or the loop stopped at the first child, in byte order, that could
   * not be removed, after removing every child before it.
   */
  method RemoveTree(fs: FileSystem, dir: Path) returns (ok: bool)
    requires fs.Valid()
    modifies fs
    decreases Subtree(fs.entries, dir), 1
    ensures fs.Valid()
    ensures ok <==> old(fs.IsDir(dir)) && Removable(old(fs.entries), fs.readOnly, fs.unreadable, dir)
    ensures ok ==> fs.entries == old(fs.entries) - Subtree(old(fs.entries), dir)
    ensures !ok && old(fs.IsDir(dir)) ==> fs.IsDir(dir)
    ensures !ok && old(fs.IsDir(dir)) && dir in fs.unreadable ==> fs.entries == old(fs.entries)
    ensures !ok && old(fs.IsDir(dir)) && dir !in fs.unreadable ==>
      if forall n :: n in ChildNames(old(fs.entries), dir) ==> Removable(old(fs.entries), fs.readOnly, fs.unreadable, dir + [n])
      then fs.entries == old(fs.entries) - (Subtree(old(fs.entries), dir) - {dir})
      else exists f :: StoppedAt(old(fs.entries), fs.entries, fs.readOnly, fs.unreadable, dir, f)
    ensures !ok && old(fs.IsDir(dir)) && dir !in fs.unreadable ==>
      (ChildNames(fs.entries, dir) == {} <==>
       forall n :: n in ChildNames(old(fs.entries), dir) ==> Removable(old(fs.entries), fs.readOnly, fs.unreadable, dir + [n]))
    ensures PrunedWithin(old(fs.entries), fs.entries, dir)
  {
    if !fs.IsDir(dir) {
      return false;
    }
    var objects := fs.Scandir(dir);
    if objects.None? {
      assert dir in fs.entries && dir <= dir;
      return false;
    }
    ghost var m0 := fs.entries;
    var emptied := RemoveChildren(fs, dir, objects.value);
    if !emptied {
      RemovableSplit(m0, fs.readOnly, fs.unreadable, dir);
      return false;
    }
    ChildrenRemoved(m0, fs.readOnly, fs.unreadable, dir);
    AllChildrenGone(m0, dir);
    ok := fs.Rmdir(dir);
  }

  /**
   * The `foreach` of `rrmdir` over the names `scandir` gave for `dir`, in
   * ascending byte order: every child other than "." and ".." is removed in
   * turn, and the loop stops at the first one that cannot be, restoring
   * nothing.
   */
  method RemoveChildren(fs: FileSystem, dir: Path, names: seq<Name>) returns (ok: bool)
    requires fs.Valid() && fs.IsDir(dir) && Ascending(names)
    requires forall n :: n in names <==> n == "." || n == ".." || n in ChildNames(fs.entries, dir)
    modifies fs
    decreases Subtree(fs.entries, dir), 0
    ensures fs.Valid()
    ensures ok <==> forall n :: n in ChildNames(old(fs.entries), dir) ==> Removable(old(fs.entries), fs.readOnly, fs.unreadable, dir + [n])
    ensures ok ==> fs.entries == old(fs.entries) - GoneSet(old(fs.entries), dir, ChildNames(old(fs.entries), dir))
    ensures !ok ==> exists f :: StoppedAt(old(fs.entries), fs.entries, fs.readOnly, fs.unreadable, dir, f)
    ensures !ok ==> ChildNames(fs.entries, dir) != {}
    ensures PrunedWithin(old(fs.entries), fs.entries, dir)
    ensures dir in fs.entries && fs.entries[dir] == old(fs.entries)[dir]
  {
    ghost var m0 := fs.entries;
    ghost var done: set<Name> := {};
    for i := 0 to |names|
      invariant fs.Valid()
      invariant forall n :: n in done <==> n in names[..i] && n != "." && n != ".."
      invariant fs.entries == m0 - GoneSet(m0, dir, done)
      invariant forall n :: n in done ==> Removable(m0, fs.readOnly, fs.unreadable, dir + [n])
      invariant PrunedWithin(m0, fs.entries, dir)
      invariant dir in fs.entries && fs.entries[dir] == m0[dir]
    {
      var entry := names[i];
      assert names[..i + 1] == names[..i] + [entry];
      if entry != "." && entry != ".." {
        assert entry !in done by {
          assert forall j :: 0 <= j < i ==> names[j] != names[i];
        }
        assert entry in ChildNames(m0, dir);
        SubtreeShrinks(m0, fs.entries, dir, entry);
        var removed := RemoveChild(fs, dir, entry, m0, done);
        if !removed {
          StopInLoop(m0, fs.entries, fs.readOnly, fs.unreadable, dir, names, i, done);
          return false;
        }
        done := done + {entry};
      }
    }
    assert names[..|names|] == names;
    assert done == ChildNames(m0, dir);
    ok := true;
  }

  /**
   * One turn of the loop of `rrmdir`: the child `entry` of `dir`, not yet
   * visited, is removed with `rrmdir` if it is a directory and with `unlink`
   * otherwise. It succeeds exactly when the child's subtree is removable; it
   * changes nothing outside that subtree, and when it fails the child is
   * still there.
   */
  method RemoveChild(fs: FileSystem, dir: Path, entry: Name, ghost m0: map<Path, Node>, ghost done: set<Name>)
      returns (removed: bool)
    requires fs.Valid() && WellFormed(m0)
    requires entry in ChildNames(m0, dir) && entry !in done
    requires fs.entries == m0 - GoneSet(m0, dir, done)
    modifies fs
    decreases Subtree(fs.entries, dir + [entry]), 2
    ensures fs.Valid()
    ensures removed <==> Removable(m0, fs.readOnly, fs.unreadable, dir + [entry])
    ensures removed ==> fs.entries == m0 - GoneSet(m0, dir, done + {entry})
    ensures !removed ==> dir + [entry] in fs.entries
    ensures PrunedWithin(old(fs.entries), fs.entries, dir + [entry])
    ensures PrunedWithin(m0, fs.entries, dir)
    ensures dir in fs.entries && fs.entries[dir] == m0[dir]
  {
    var path := dir + [entry];
    EntryOfWellFormed(m0, path);
    assert Parent(path) == dir;
    UnvisitedIntact(m0, dir, done, entry);
    GoneSetGrows(m0, dir, done, entry);
    assert path in m0 && path <= path;
    assert path in fs.entries && fs.entries[path] == m0[path];
    ghost var cur := fs.entries;
    assert PrunedWithin(m0, cur, dir) by {
      forall p | p in m0 && p !in cur
        ensures dir <= p
      {
        assert Gone(dir, done, p);
        assert p[..|dir|] == dir;
      }
    }
    if fs.IsDir(path) {
      removed := RemoveTree(fs, path);
      RemovableLocal(m0, cur, fs.readOnly, fs.unreadable, path);
      PrunedTransitive(m0, cur, fs.entries, dir, path);
    } else {
      FileIsLeaf(m0, path);
      removed := fs.Unlink(path);
    }
  }
}
