/**
 * `ajax_list_items`: the direct children of the resolved directory, without
 * "." and "..", folders first, each group ordered by `strcasecmp`.
 */
module Listing {
  import opened Wrappers
  import opened TextOps
  import opened FileTypes
  import opened FileTree
  import opened PathGuard
  import opened Errors

  datatype Kind = Folder | FileOf(displayType: DisplayType)

  /** One listed entry; size and modification time are left out. */
  datatype Item = Item(name: Name, kind: Kind, relativePath: string)

  /**
   * The item built for child `n` of `d` when the client asked for `dirRel`:
   * a folder exactly when the child is a directory, otherwise a file typed by
   * its name; its path is the client's path with its trailing "/" and "\"
   * replaced by one "/" (`trailingslashit`), then the name.
   */
  function ItemFor(m: map<Path, Node>, d: Path, dirRel: string, n: Name): (r: Item)
    ensures r.name == n
    ensures r.kind.Folder? <==> d + [n] in m && m[d + [n]].Dir?
    ensures r.kind.FileOf? ==> (r.kind.displayType != Other <==> UploadAllowed(n))
    ensures var k := |r.relativePath| - |n|;
      k >= 1 && r.relativePath[k - 1] == '/' && r.relativePath[k..] == n
  {
    Item(n,
         if d + [n] in m && m[d + [n]].Dir? then Folder else FileOf(DisplayTypeOf(n)),
         TrailingSlashIt(dirRel) + n)
  }

  function Names(items: seq<Item>): (r: seq<Name>)
    ensures |r| == |items| && forall i :: 0 <= i < |items| ==> r[i] == items[i].name
  {
    seq(|items|, i requires 0 <= i < |items| => items[i].name)
  }

  /** Non-decreasing under `strcasecmp`. */
  predicate SortedByName(items: seq<Item>)
  {
    forall i, j :: 0 <= i < j < |items| ==> CaseLeq(items[i].name, items[j].name)
  }

  /**
   * Names equal up to ASCII case keep the order `scandir` gave them (byte
   * order), because `usort` is stable.
   */
  predicate TieOrdered(items: seq<Item>)
  {
    forall i, j :: 0 <= i < j < |items| && Lower(items[i].name) == Lower(items[j].name) ==>
      LexLeq(items[i].name, items[j].name)
  }

  /**
   * `x` may precede `y` in a listing: folders before files, and within a
   * group by `strcasecmp`, ties broken by byte order.
   */
  predicate Before(x: Item, y: Item)
  {
    && (y.kind.Folder? ==> x.kind.Folder?)
    && (x.kind.Folder? == y.kind.Folder? ==>
          && CaseLeq(x.name, y.name)
          && (Lower(x.name) == Lower(y.name) ==> LexLeq(x.name, y.name)))
  }

  /** Each item is the one built for its name. */
  predicate Built(m: map<Path, Node>, d: Path, dirRel: string, items: seq<Item>)
  {
    forall i :: 0 <= i < |items| ==> items[i] == ItemFor(m, d, dirRel, items[i].name)
  }

  predicate Ordered(items: seq<Item>)
  {
    forall i, j :: 0 <= i < j < |items| ==> Before(items[i], items[j])
  }

  /**
   * `items` is a listing of directory `d`: its names are a permutation of the
   * children's, each item is the one built for its name, every folder comes
   * before every file, each of the two groups is sorted by name, and names
   * equal up to case appear in byte order.
   */
  ghost predicate IsListing(m: map<Path, Node>, d: Path, dirRel: string, items: seq<Item>)
  {
    && multiset(Names(items)) == multiset(ChildNames(m, d))
    && Built(m, d, dirRel, items)
    && Ordered(items)
  }

  /** Only one item can come first: `Before` both ways means the same name and group. */
  lemma BeforeAntisymmetric(x: Item, y: Item)
    requires Before(x, y) && Before(y, x)
    ensures x.name == y.name && x.kind.Folder? == y.kind.Folder?
  {
    LexLeqAntisymmetric(Lower(x.name), Lower(y.name));
    LexLeqAntisymmetric(x.name, y.name);
  }

  /** Two ordered sequences of built items with the same names are equal. */
  lemma {:induction false} OrderedUnique(m: map<Path, Node>, d: Path, dirRel: string, a: seq<Item>, b: seq<Item>)
    requires Built(m, d, dirRel, a) && Built(m, d, dirRel, b) && Ordered(a) && Ordered(b)
    requires multiset(Names(a)) == multiset(Names(b))
    ensures a == b
    decreases |a|
  {
    if a == [] {
      assert |multiset(Names(b))| == 0;
    } else {
      TailsAgree(m, d, dirRel, a, b);
      OrderedUnique(m, d, dirRel, a[1..], b[1..]);
      ConsEqual(a, b);
    }
  }

  /** Equal heads leave tails that again meet the conditions of `OrderedUnique`. */
  lemma TailsAgree(m: map<Path, Node>, d: Path, dirRel: string, a: seq<Item>, b: seq<Item>)
    requires Built(m, d, dirRel, a) && Built(m, d, dirRel, b) && Ordered(a) && Ordered(b)
    requires multiset(Names(a)) == multiset(Names(b)) && a != []
    ensures b != [] && a[0] == b[0]
    ensures Built(m, d, dirRel, a[1..]) && Built(m, d, dirRel, b[1..]) && Ordered(a[1..]) && Ordered(b[1..])
    ensures multiset(Names(a[1..])) == multiset(Names(b[1..]))
  {
    HeadsEqual(m, d, dirRel, a, b);
    OrderedTail(m, d, dirRel, a);
    OrderedTail(m, d, dirRel, b);
    MultisetConsCancel(a[0].name, Names(a[1..]), Names(b[1..]));
  }

  lemma ConsEqual(a: seq<Item>, b: seq<Item>)
    requires a != [] && b != [] && a[0] == b[0] && a[1..] == b[1..]
    ensures a == b
  {
    assert a == [a[0]] + a[1..] && b == [b[0]] + b[1..];
  }

  /** Both sequences start with the item that may precede all the others. */
  lemma HeadsEqual(m: map<Path, Node>, d: Path, dirRel: string, a: seq<Item>, b: seq<Item>)
    requires Built(m, d, dirRel, a) && Built(m, d, dirRel, b) && Ordered(a) && Ordered(b)
    requires multiset(Names(a)) == multiset(Names(b)) && a != []
    ensures b != [] && a[0] == b[0]
  {
    assert Names(a)[0] == a[0].name;
    assert a[0].name in multiset(Names(b));
    var k :| 0 <= k < |b| && Names(b)[k] == a[0].name;
    assert b[k] == a[0];
    assert Names(b)[0] == b[0].name;
    assert b[0].name in multiset(Names(a));
    var l :| 0 <= l < |a| && Names(a)[l] == b[0].name;
    assert a[l] == b[0];
    if k > 0 && l > 0 {
      BeforeAntisymmetric(a[0], b[0]);
    }
  }

  lemma MultisetConsCancel(x: Name, s: seq<Name>, t: seq<Name>)
    requires multiset([x] + s) == multiset([x] + t)
    ensures multiset(s) == multiset(t)
  {
    assert multiset([x] + s) == multiset{x} + multiset(s);
    assert multiset([x] + t) == multiset{x} + multiset(t);
    assert multiset(s) == multiset([x] + s) - multiset{x};
    assert multiset(t) == multiset([x] + t) - multiset{x};
  }

  lemma OrderedTail(m: map<Path, Node>, d: Path, dirRel: string, a: seq<Item>)
    requires Built(m, d, dirRel, a) && Ordered(a) && a != []
    ensures Built(m, d, dirRel, a[1..]) && Ordered(a[1..])
    ensures Names(a) == [a[0].name] + Names(a[1..])
  {
    var t := a[1..];
    forall i, j | 0 <= i < j < |t| ensures Before(t[i], t[j]) {
      assert t[i] == a[i + 1] && t[j] == a[j + 1];
    }
  }

  /** A directory has exactly one listing: listing an unchanged directory twice gives the same items. */
  lemma ListingUnique(m: map<Path, Node>, d: Path, dirRel: string, a: seq<Item>, b: seq<Item>)
    requires IsListing(m, d, dirRel, a) && IsListing(m, d, dirRel, b)
    ensures a == b
  {
    OrderedUnique(m, d, dirRel, a, b);
  }

  /** Of two entries of one group named "A" and "a", "A" comes first, as `scandir` put it. */
  lemma UpperBeforeLower(m: map<Path, Node>, d: Path, dirRel: string, items: seq<Item>, i: int, j: int)
    requires IsListing(m, d, dirRel, items) && 0 <= i < |items| && 0 <= j < |items|
    requires items[i].name == "A" && items[j].name == "a"
    requires items[i].kind.Folder? == items[j].kind.Folder?
    ensures i < j
  {
  }

  lemma CaseLeqTotal(a: string, b: string)
    ensures CaseLeq(a, b) || CaseLeq(b, a)
  {
    LexLeqTotal(Lower(a), Lower(b));
  }

  lemma CaseLeqTransitive(a: string, b: string, c: string)
    requires CaseLeq(a, b) && CaseLeq(b, c)
    ensures CaseLeq(a, c)
  {
    LexLeqTransitive(Lower(a), Lower(b), Lower(c));
  }

  /**
   * Inserting into a sorted sequence keeps it sorted and adds exactly the one
   * item, after every item it ties with (`InsertPlacement`): PHP 8's `usort`
   * is stable.
   */
  function Insert(x: Item, s: seq<Item>): (r: seq<Item>)
    requires SortedByName(s)
    ensures SortedByName(r)
    ensures multiset(r) == multiset(s) + multiset{x}
  {
    if s == [] then [x]
    else if !CaseLeq(s[0].name, x.name) then
      InsertFront(x, s);
      [x] + s
    else
      var t := Insert(x, s[1..]);
      InsertBehind(x, s, t);
      [s[0]] + t
  }

  /** An item that the head does not precede goes first. */
  lemma InsertFront(x: Item, s: seq<Item>)
    requires SortedByName(s) && s != [] && !CaseLeq(s[0].name, x.name)
    ensures SortedByName([x] + s)
  {
    CaseLeqTotal(x.name, s[0].name);
    forall y | y in s
      ensures CaseLeq(x.name, y.name)
    {
      if y != s[0] {
        CaseLeqTransitive(x.name, s[0].name, y.name);
      }
    }
    SortedCons(x, s);
  }

  /** An item that the head precedes goes into the tail, after the head. */
  lemma InsertBehind(x: Item, s: seq<Item>, t: seq<Item>)
    requires SortedByName(s) && s != [] && CaseLeq(s[0].name, x.name)
    requires SortedByName(t) && multiset(t) == multiset(s[1..]) + multiset{x}
    ensures SortedByName([s[0]] + t)
    ensures multiset([s[0]] + t) == multiset(s) + multiset{x}
  {
    assert s == [s[0]] + s[1..];
    forall y | y in t
      ensures CaseLeq(s[0].name, y.name)
    {
      assert y in multiset(t);
      if y != x {
        assert y in multiset(s[1..]);
        assert y in s[1..];
      }
    }
    SortedCons(s[0], t);
  }

  /** A sorted sequence stays sorted under a new head that precedes all of it. */
  lemma SortedCons(x: Item, s: seq<Item>)
    requires SortedByName(s) && forall y :: y in s ==> CaseLeq(x.name, y.name)
    ensures SortedByName([x] + s)
  {
    var r := [x] + s;
    forall i, j | 0 <= i < j < |r| ensures CaseLeq(r[i].name, r[j].name) {
      assert r[j] == s[j - 1];
      if i > 0 { assert r[i] == s[i - 1]; } else { assert r[j] in s; }
    }
  }

  /**
   * `r` is `s` with `x` put at position `k`: after every item whose name is at
   * most `x`'s up to case, so after every item it ties with, and before the
   * rest.
   */
  predicate PlacedAt(x: Item, s: seq<Item>, r: seq<Item>, k: int)
  {
    && 0 <= k <= |s|
    && r == s[..k] + [x] + s[k..]
    && (forall i :: 0 <= i < k ==> CaseLeq(s[i].name, x.name))
    && (forall i :: k <= i < |s| ==> !CaseLeq(s[i].name, x.name))
  }

  /** Inserting puts the item after everything it does not precede, and before the rest. */
  lemma {:induction false} InsertPlacement(x: Item, s: seq<Item>)
    requires SortedByName(s)
    ensures exists k :: PlacedAt(x, s, Insert(x, s), k)
    decreases |s|
  {
    if s == [] {
      assert s[..0] + [x] + s[0..] == [x] == Insert(x, s);
      assert PlacedAt(x, s, Insert(x, s), 0);
    } else if !CaseLeq(s[0].name, x.name) {
      PlacedFirst(x, s);
      assert Insert(x, s) == [x] + s;
      assert PlacedAt(x, s, Insert(x, s), 0);
    } else {
      InsertPlacement(x, s[1..]);
      var k :| PlacedAt(x, s[1..], Insert(x, s[1..]), k);
      PlacedCons(x, s[0], s[1..], Insert(x, s[1..]), k);
      assert [s[0]] + s[1..] == s;
      assert PlacedAt(x, s, Insert(x, s), k + 1);
    }
  }

  /** An item that precedes the head of a sorted sequence precedes all of it. */
  lemma PlacedFirst(x: Item, s: seq<Item>)
    requires SortedByName(s) && s != [] && !CaseLeq(s[0].name, x.name)
    ensures PlacedAt(x, s, [x] + s, 0)
  {
    forall i | 0 < i < |s|
      ensures !CaseLeq(s[i].name, x.name)
    {
      if CaseLeq(s[i].name, x.name) {
        CaseLeqTransitive(s[0].name, s[i].name, x.name);
      }
    }
    assert s[..0] + [x] + s[0..] == [x] + s;
  }

  /** A placement survives a new head that `x` does not precede. */
  lemma PlacedCons(x: Item, a: Item, s: seq<Item>, r: seq<Item>, k: int)
    requires PlacedAt(x, s, r, k) && CaseLeq(a.name, x.name)
    ensures PlacedAt(x, [a] + s, [a] + r, k + 1)
  {
    var s' := [a] + s;
    assert s'[..k + 1] == [a] + s[..k];
    assert s'[k + 1..] == s[k..];
    forall i | 0 < i < k + 1
      ensures CaseLeq(s'[i].name, x.name)
    {
      assert s'[i] == s[i - 1];
    }
    forall i | k + 1 <= i < |s'|
      ensures !CaseLeq(s'[i].name, x.name)
    {
      assert s'[i] == s[i - 1];
    }
  }

  /**
   * `usort(..., strcasecmp)`: a sorted permutation; being stable, it keeps
   * names in byte order among themselves when they came in byte order.
   */
  method SortByName(items: seq<Item>) returns (s: seq<Item>)
    ensures SortedByName(s)
    ensures multiset(s) == multiset(items)
    ensures Ascending(Names(items)) ==> TieOrdered(s)
  {
    s := [];
    for i := 0 to |items|
      invariant SortedByName(s)
      invariant multiset(s) == multiset(items[..i])
      invariant Ascending(Names(items)) ==> TieOrdered(s)
    {
      SortStep(items, i, s);
      s := Insert(items[i], s);
    }
    assert items[..|items|] == items;
  }

  /** One turn of the sort: inserting the next item takes one more item and keeps ties in order. */
  lemma SortStep(items: seq<Item>, i: int, s: seq<Item>)
    requires 0 <= i < |items| && SortedByName(s) && multiset(s) == multiset(items[..i])
    requires Ascending(Names(items)) ==> TieOrdered(s)
    ensures multiset(Insert(items[i], s)) == multiset(items[..i + 1])
    ensures Ascending(Names(items)) ==> TieOrdered(Insert(items[i], s))
  {
    assert items[..i + 1] == items[..i] + [items[i]];
    if Ascending(Names(items)) {
      EarlierNamesBelow(items, i, s);
      InsertKeepsTies(items[i], s);
    }
  }

  /** The items taken so far all have names below the next one's, when the names ascend. */
  lemma EarlierNamesBelow(items: seq<Item>, i: int, s: seq<Item>)
    requires 0 <= i < |items| && Ascending(Names(items)) && multiset(s) == multiset(items[..i])
    ensures forall y :: y in s ==> LexLeq(y.name, items[i].name)
  {
    forall y | y in s
      ensures LexLeq(y.name, items[i].name)
    {
      assert y in multiset(items[..i]);
      assert y in items[..i];
      var k :| 0 <= k < i && items[..i][k] == y;
      assert Names(items)[k] == y.name && Names(items)[i] == items[i].name;
    }
  }

  /** A stable insertion of an item above every present name in byte order keeps ties in byte order. */
  lemma {:induction false} InsertKeepsTies(x: Item, s: seq<Item>)
    requires SortedByName(s) && TieOrdered(s)
    requires forall y :: y in s ==> LexLeq(y.name, x.name)
    ensures TieOrdered(Insert(x, s))
    decreases |s|
  {
    if s == [] {
    } else if !CaseLeq(s[0].name, x.name) {
      forall y | y in s ensures Lower(x.name) != Lower(y.name) {
        LexLeqReflexive(Lower(s[0].name));
      }
      TiesCons(x, s);
    } else {
      var t := Insert(x, s[1..]);
      assert s == [s[0]] + s[1..];
      TiesTail(s);
      InsertKeepsTies(x, s[1..]);
      HeadTiesFirst(x, s, t);
      TiesCons(s[0], t);
    }
  }

  /** The head of a tie-ordered sequence still comes first among its ties once `x` joins the tail. */
  lemma HeadTiesFirst(x: Item, s: seq<Item>, t: seq<Item>)
    requires TieOrdered(s) && s != [] && LexLeq(s[0].name, x.name)
    requires multiset(t) == multiset(s[1..]) + multiset{x}
    ensures forall y :: y in t && Lower(s[0].name) == Lower(y.name) ==> LexLeq(s[0].name, y.name)
  {
    forall y | y in t && Lower(s[0].name) == Lower(y.name)
      ensures LexLeq(s[0].name, y.name)
    {
      assert y in multiset(t);
      if y != x {
        assert y in multiset(s[1..]);
        var k :| 0 <= k < |s[1..]| && s[1..][k] == y;
        assert s[k + 1] == y;
      }
    }
  }

  lemma TiesCons(x: Item, s: seq<Item>)
    requires TieOrdered(s)
    requires forall y :: y in s && Lower(x.name) == Lower(y.name) ==> LexLeq(x.name, y.name)
    ensures TieOrdered([x] + s)
  {
    var r := [x] + s;
    forall i, j | 0 <= i < j < |r| && Lower(r[i].name) == Lower(r[j].name)
      ensures LexLeq(r[i].name, r[j].name)
    {
      assert r[j] == s[j - 1] && r[j] in s;
      if i > 0 { assert r[i] == s[i - 1]; }
    }
  }

  lemma TiesTail(s: seq<Item>)
    requires SortedByName(s) && TieOrdered(s) && s != []
    ensures SortedByName(s[1..]) && TieOrdered(s[1..])
  {
    var t := s[1..];
    forall i, j | 0 <= i < j < |t| ensures t[i] == s[i + 1] && t[j] == s[j + 1] {
    }
  }

  /** `array_diff(items, ['.', '..'])`. */
  function DropDots(xs: seq<Name>): (r: seq<Name>)
    ensures forall x :: x in r <==> x in xs && x != "." && x != ".."
    ensures Distinct(xs) ==> Distinct(r)
    ensures Ascending(xs) ==> Ascending(r)
  {
    if xs == [] then []
    else if xs[0] == "." || xs[0] == ".." then
      assert Ascending(xs) ==> Ascending(xs[1..]) by { AscendingTail(xs); }
      DropDots(xs[1..])
    else
      assert Distinct(xs) ==> xs[0] !in xs[1..];
      var rest := DropDots(xs[1..]);
      assert Ascending(xs) ==> Ascending([xs[0]] + rest) by {
        if Ascending(xs) {
          AscendingTail(xs);
          AscendingCons(xs[0], rest);
        }
      }
      [xs[0]] + rest
  }

  lemma AscendingTail(xs: seq<Name>)
    requires xs != []
    ensures Ascending(xs) ==> Ascending(xs[1..]) && forall y :: y in xs[1..] ==> LexLeq(xs[0], y) && xs[0] != y
  {
    if Ascending(xs) {
      forall y | y in xs[1..] ensures LexLeq(xs[0], y) && xs[0] != y {
        var k :| 0 <= k < |xs[1..]| && xs[1..][k] == y;
        assert xs[k + 1] == y;
      }
    }
  }

  lemma AscendingCons(x: Name, s: seq<Name>)
    requires Ascending(s) && forall y :: y in s ==> LexLeq(x, y) && x != y
    ensures Ascending([x] + s)
  {
    var r := [x] + s;
    forall i, j | 0 <= i < j < |r| ensures LexLeq(r[i], r[j]) && r[i] != r[j] {
      assert r[j] == s[j - 1] && r[j] in s;
      if i > 0 { assert r[i] == s[i - 1]; }
    }
  }

  lemma NamesConcat(a: seq<Item>, b: seq<Item>)
    ensures Names(a + b) == Names(a) + Names(b)
  {
  }

  /** Permuting the items permutes their names. */
  lemma {:induction false} NamesPermutation(a: seq<Item>, b: seq<Item>)
    requires multiset(a) == multiset(b)
    ensures multiset(Names(a)) == multiset(Names(b))
    decreases |a|
  {
    if a == [] {
      assert |multiset(b)| == 0;
      assert b == [];
    } else {
      var k := MatchHead(a, b);
      NamesPermutation(a[1..], b[..k] + b[k + 1..]);
      NamesOfMatch(a, b, k);
    }
  }

  /** The head of `a` sits somewhere in its permutation `b`; the rest of the two are again permutations. */
  lemma MatchHead(a: seq<Item>, b: seq<Item>) returns (k: int)
    requires multiset(a) == multiset(b) && a != []
    ensures 0 <= k < |b| && b[k] == a[0]
    ensures multiset(a[1..]) == multiset(b[..k] + b[k + 1..])
  {
    var x := a[0];
    assert x in multiset(b) by {
      assert x in a;
    }
    k :| 0 <= k < |b| && b[k] == x;
    assert multiset(a[1..]) == multiset(a) - multiset{x} by {
      assert a == [x] + a[1..];
      assert multiset(a) == multiset{x} + multiset(a[1..]);
    }
    RemoveAt(b, k);
  }

  /** Names of the matched heads and of the permuted rests add up. */
  lemma NamesOfMatch(a: seq<Item>, b: seq<Item>, k: int)
    requires a != [] && 0 <= k < |b| && b[k] == a[0]
    requires multiset(Names(a[1..])) == multiset(Names(b[..k] + b[k + 1..]))
    ensures multiset(Names(a)) == multiset(Names(b))
  {
    calc {
      multiset(Names(a));
      { assert a == [a[0]] + a[1..]; NamesCons(a[0], a[1..]); }
      multiset([a[0].name] + Names(a[1..]));
      multiset{a[0].name} + multiset(Names(a[1..]));
      { NamesRemoveAt(b, k); }
      multiset(Names(b));
    }
  }

  lemma NamesCons(x: Item, t: seq<Item>)
    ensures Names([x] + t) == [x.name] + Names(t)
  {
    assert Names([x] + t)[0] == x.name;
  }

  /** Taking out the item at `k` takes out one copy of it. */
  lemma RemoveAt(b: seq<Item>, k: int)
    requires 0 <= k < |b|
    ensures multiset(b[..k] + b[k + 1..]) == multiset(b) - multiset{b[k]}
  {
    assert b == b[..k] + [b[k]] + b[k + 1..];
    assert multiset(b) == multiset(b[..k]) + multiset{b[k]} + multiset(b[k + 1..]);
  }

  /** Taking out the item at `k` takes out one copy of its name. */
  lemma NamesRemoveAt(b: seq<Item>, k: int)
    requires 0 <= k < |b|
    ensures multiset(Names(b)) == multiset(Names(b[..k] + b[k + 1..])) + multiset{b[k].name}
  {
    calc {
      multiset(Names(b));
      { assert b == b[..k] + [b[k]] + b[k + 1..];
        NamesConcat(b[..k] + [b[k]], b[k + 1..]);
        NamesConcat(b[..k], [b[k]]); }
      multiset(Names(b[..k]) + Names([b[k]]) + Names(b[k + 1..]));
      { assert Names([b[k]]) == [b[k].name]; }
      multiset(Names(b[..k])) + multiset{b[k].name} + multiset(Names(b[k + 1..]));
      { NamesConcat(b[..k], b[k + 1..]); }
      multiset(Names(b[..k] + b[k + 1..])) + multiset{b[k].name};
    }
  }

  /** The tail of a sequence without repetitions has none either, and lacks the head. */
  lemma DistinctTail(s: seq<Name>)
    requires Distinct(s) && s != []
    ensures Distinct(s[1..]) && s[0] !in s[1..]
  {
    var tail := s[1..];
    forall i, j | 0 <= i < j < |tail| ensures tail[i] != tail[j] {
      assert tail[i] == s[i + 1] && tail[j] == s[j + 1];
    }
    forall i | 0 <= i < |tail| ensures tail[i] != s[0] {
      assert tail[i] == s[i + 1];
    }
  }

  /** Adding a new element to a set adds it once to its multiset. */
  lemma SetMultisetAdd(names: set<Name>, x: Name)
    requires x !in names
    ensures multiset(names + {x}) == multiset(names) + multiset{x}
  {
  }

  /** A sequence without repetitions has the multiset of the set it enumerates. */
  lemma {:induction false} DistinctMultiset(s: seq<Name>, names: set<Name>)
    requires Distinct(s)
    requires forall x :: x in s <==> x in names
    ensures multiset(s) == multiset(names)
    decreases |s|
  {
    if s == [] {
      assert names == {};
    } else {
      var x, tail := s[0], s[1..];
      var rest := names - {x};
      DistinctTail(s);
      assert forall y :: y in tail <==> y in rest;
      DistinctMultiset(tail, rest);
      SetMultisetAdd(rest, x);
      assert names == rest + {x};
      assert s == [x] + tail;
      assert multiset(s) == multiset{x} + multiset(tail);
    }
  }

  /**
   * `ajax_list_items`: the directory is `realpath(base_dir . sanitized)`; it
   * must be a directory, and `scandir` must succeed. The relative path of each
   * item is built from the client's own `dir`, not from the sanitized one.
   */
  method ListItems(fs: FileSystem, env: Env, dirRel: string) returns (r: Result<seq<Item>, Error>)
    requires fs.Valid()
    ensures TargetPath(env, dirRel).None? ==> r == Failure(DirNotFound)
    ensures TargetPath(env, dirRel).Some? ==>
      var d := TargetPath(env, dirRel).value;
      && (!fs.IsDir(d) ==> r == Failure(DirNotFound))
      && (fs.IsDir(d) && d in fs.unreadable ==> r == Failure(DirUnreadable))
      && (fs.IsDir(d) && d !in fs.unreadable ==> r.Success? && IsListing(fs.entries, d, dirRel, r.value))
  {
    var target := TargetPath(env, dirRel);
    if target.None? || !fs.IsDir(target.value) {
      return Failure(DirNotFound);
    }
    r := ReadDirectory(fs, target.value, dirRel);
  }

  /** The `scandir`, partition and sort of `ajax_list_items`, once `d` is known to be a directory. */
  method ReadDirectory(fs: FileSystem, d: Path, dirRel: string) returns (r: Result<seq<Item>, Error>)
    requires fs.Valid() && fs.IsDir(d)
    ensures d in fs.unreadable ==> r == Failure(DirUnreadable)
    ensures d !in fs.unreadable ==> r.Success? && IsListing(fs.entries, d, dirRel, r.value)
  {
    var raw := fs.Scandir(d);
    if raw.None? {
      return Failure(DirUnreadable);
    }
    var children := DropDots(raw.value);
    var directories, files := Partition(fs, d, dirRel, children);
    var sortedDirectories := SortByName(directories);
    var sortedFiles := SortByName(files);
    assert Ascending(children);
    forall n | n in ChildNames(fs.entries, d)
      ensures n != "." && n != ".."
    {
      ChildIsValid(fs.entries, d, n);
    }
    DistinctMultiset(children, ChildNames(fs.entries, d));
    NamesPermutation(sortedDirectories, directories);
    NamesPermutation(sortedFiles, files);
    NamesConcat(sortedDirectories, sortedFiles);
    NamesConcat(directories, files);
    calc {
      multiset(Names(sortedDirectories + sortedFiles));
      multiset(Names(sortedDirectories)) + multiset(Names(sortedFiles));
      multiset(Names(directories)) + multiset(Names(files));
      multiset(Names(directories + files));
      multiset(children);
    }
    forall x | x in sortedDirectories ensures x in directories {
      assert x in multiset(sortedDirectories);
    }
    forall x | x in sortedFiles ensures x in files {
      assert x in multiset(sortedFiles);
    }
    ListingShape(fs.entries, d, dirRel, sortedDirectories, sortedFiles);
    r := Success(sortedDirectories + sortedFiles);
  }

  /** The `foreach` of `ajax_list_items`: one item per name, directories and files apart. */
  method Partition(fs: FileSystem, d: Path, dirRel: string, children: seq<Name>)
      returns (directories: seq<Item>, files: seq<Item>)
    ensures multiset(Names(directories + files)) == multiset(children)
    ensures forall x :: x in directories ==> x.kind.Folder? && x == ItemFor(fs.entries, d, dirRel, x.name)
    ensures forall x :: x in files ==> x.kind.FileOf? && x == ItemFor(fs.entries, d, dirRel, x.name)
    ensures Ascending(children) ==> Ascending(Names(directories)) && Ascending(Names(files))
  {
    directories := [];
    files := [];
    for i := 0 to |children|
      invariant multiset(Names(directories + files)) == multiset(children[..i])
      invariant forall x :: x in directories ==> x.kind.Folder? && x == ItemFor(fs.entries, d, dirRel, x.name)
      invariant forall x :: x in files ==> x.kind.FileOf? && x == ItemFor(fs.entries, d, dirRel, x.name)
      invariant forall x :: x in directories ==> x.name in children[..i]
      invariant forall x :: x in files ==> x.name in children[..i]
      invariant Ascending(children) ==> Ascending(Names(directories)) && Ascending(Names(files))
    {
      var name := children[i];
      var item := ItemFor(fs.entries, d, dirRel, name);
      assert item.name == name;
      if item.kind.Folder? {
        AddName(directories, files, item, true);
        GroupGrows(children, i, directories, files, item);
        directories := directories + [item];
      } else {
        AddName(directories, files, item, false);
        GroupGrows(children, i, files, directories, item);
        files := files + [item];
      }
    }
    assert children[..|children|] == children;
  }

  /** One turn of the `foreach`: the item for the next name joins one group. */
  lemma GroupGrows(children: seq<Name>, i: int, group: seq<Item>, other: seq<Item>, item: Item)
    requires 0 <= i < |children| && item.name == children[i]
    requires forall x :: x in group ==> x.name in children[..i]
    requires forall x :: x in other ==> x.name in children[..i]
    ensures multiset(children[..i + 1]) == multiset(children[..i]) + multiset{item.name}
    ensures forall x :: x in group + [item] ==> x.name in children[..i + 1]
    ensures forall x :: x in other ==> x.name in children[..i + 1]
    ensures Ascending(children) && Ascending(Names(group)) ==> Ascending(Names(group + [item]))
  {
    assert children[..i + 1] == children[..i] + [children[i]];
    AppendInOrder(children, i, group, item);
  }

  /** Appending the item for the next name keeps a group's names strictly increasing. */
  lemma AppendInOrder(children: seq<Name>, i: int, group: seq<Item>, item: Item)
    requires 0 <= i < |children| && item.name == children[i]
    requires forall x :: x in group ==> x.name in children[..i]
    ensures Names(group + [item]) == Names(group) + [item.name]
    ensures Ascending(children) && Ascending(Names(group)) ==> Ascending(Names(group + [item]))
  {
    assert Names(group + [item]) == Names(group) + [item.name];
    if Ascending(children) && Ascending(Names(group)) {
      forall y | y in Names(group) ensures LexLeq(y, item.name) && y != item.name {
        var k :| 0 <= k < |group| && Names(group)[k] == y;
        assert group[k] in group;
        var l :| 0 <= l < i && children[..i][l] == y;
        assert children[l] == y;
      }
      AscendingSnoc(Names(group), item.name);
    }
  }

  /** Appending an item to either group adds its name once to the names of both groups. */
  lemma AddName(dirs: seq<Item>, files: seq<Item>, item: Item, toDirs: bool)
    ensures toDirs ==> multiset(Names(dirs + [item] + files)) == multiset(Names(dirs + files)) + multiset{item.name}
    ensures !toDirs ==> multiset(Names(dirs + (files + [item]))) == multiset(Names(dirs + files)) + multiset{item.name}
  {
    NamesConcat(dirs, files);
    NamesConcat(dirs + [item], files);
    NamesConcat(dirs, [item]);
    NamesConcat(files, [item]);
    NamesConcat(dirs, files + [item]);
  }

  /** Two sorted groups, folders then files, of correctly built items form a listing's order. */
  lemma ListingShape(m: map<Path, Node>, d: Path, dirRel: string, dirs: seq<Item>, files: seq<Item>)
    requires SortedByName(dirs) && SortedByName(files) && TieOrdered(dirs) && TieOrdered(files)
    requires forall x :: x in dirs ==> x.kind.Folder? && x == ItemFor(m, d, dirRel, x.name)
    requires forall x :: x in files ==> x.kind.FileOf? && x == ItemFor(m, d, dirRel, x.name)
    requires multiset(Names(dirs + files)) == multiset(ChildNames(m, d))
    ensures IsListing(m, d, dirRel, dirs + files)
  {
    var items := dirs + files;
    forall i | 0 <= i < |items|
      ensures items[i] == ItemFor(m, d, dirRel, items[i].name)
      ensures items[i].kind.Folder? <==> i < |dirs|
    {
      if i < |dirs| { assert items[i] in dirs; } else { assert items[i] == files[i - |dirs|]; assert items[i] in files; }
    }
    forall i, j | 0 <= i < j < |items| ensures Before(items[i], items[j]) {
      if j < |dirs| {
        GroupBefore(dirs, i, j);
      } else if i >= |dirs| {
        assert items[i] == files[i - |dirs|] && items[j] == files[j - |dirs|];
        GroupBefore(files, i - |dirs|, j - |dirs|);
      }
    }
  }

  /** Within one group, sorted by name with ties in byte order, earlier items may precede later ones. */
  lemma GroupBefore(g: seq<Item>, i: int, j: int)
    requires SortedByName(g) && TieOrdered(g) && 0 <= i < j < |g|
    requires g[i].kind.Folder? == g[j].kind.Folder?
    ensures Before(g[i], g[j])
  {
  }

  lemma ChildIsValid(m: map<Path, Node>, d: Path, n: Name)
    requires WellFormed(m) && d + [n] in m
    ensures ValidName(n)
  {
    var p := d + [n];
    assert p[|p| - 1] == n;
  }

  /** A listing never shows "." or "..", and shows as folders exactly the child directories. */
  lemma ListingEntriesAreChildren(m: map<Path, Node>, d: Path, dirRel: string, items: seq<Item>, i: int)
    requires WellFormed(m) && IsListing(m, d, dirRel, items) && 0 <= i < |items|
    ensures items[i].name != "." && items[i].name != ".."
    ensures d + [items[i].name] in m
    ensures items[i].kind.Folder? <==> m[d + [items[i].name]].Dir?
    ensures items[i].relativePath == TrailingSlashIt(dirRel) + items[i].name
  {
    var n := items[i].name;
    assert Names(items)[i] == n;
    assert n in multiset(Names(items));
    assert n in multiset(ChildNames(m, d));
    ChildIsValid(m, d, n);
  }

  /** Every child of the directory appears in its listing, built as `ItemFor` builds it. */
  lemma ListingShowsEveryChild(m: map<Path, Node>, d: Path, dirRel: string, items: seq<Item>, n: Name)
    requires IsListing(m, d, dirRel, items) && d + [n] in m
    ensures exists i :: 0 <= i < |items| && items[i] == ItemFor(m, d, dirRel, n)
  {
    assert n in multiset(ChildNames(m, d));
    assert n in multiset(Names(items));
    var i :| 0 <= i < |items| && Names(items)[i] == n;
    assert items[i] == ItemFor(m, d, dirRel, items[i].name);
  }
}
