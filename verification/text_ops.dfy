/**
 * The string primitives the file manager relies on, written out: PHP's
 * `trim`/`ltrim`/`rtrim`, `strpos(...) === 0`, `str_replace` with an empty
 * replacement, `strtolower`, `strcasecmp`, `pathinfo(..., PATHINFO_EXTENSION)`
 * and `empty`, and JavaScript's `split`, `join` and `filter(part => part !== '')`.
 */
module TextOps {

  // ---------------------------------------------------------------------------
  // split / join
  // ---------------------------------------------------------------------------

  /** `s.split(c)` (JavaScript) / `explode(c, s)` (PHP): the pieces between separators. */
  function Split(s: string, c: char): (r: seq<string>)
    ensures |r| >= 1
    ensures forall i :: 0 <= i < |r| ==> c !in r[i]
  {
    if s == [] then [""]
    else if s[0] == c then [""] + Split(s[1..], c)
    else
      var t := Split(s[1..], c);
      [[s[0]] + t[0]] + t[1..]
  }

  /** `parts.join(sep)`: "" for no parts, and otherwise it starts with the first part. */
  function Join(parts: seq<string>, sep: string): (r: string)
    ensures parts == [] ==> r == ""
    ensures parts != [] ==> parts[0] <= r
  {
    if |parts| == 0 then ""
    else if |parts| == 1 then parts[0]
    else parts[0] + sep + Join(parts[1..], sep)
  }

  /** A string without the separator splits into itself. */
  lemma {:induction false} SplitNoSeparator(s: string, c: char)
    requires c !in s
    ensures Split(s, c) == [s]
  {
    if s != [] {
      SplitNoSeparator(s[1..], c);
      assert [s[0]] + s[1..] == s;
    }
  }

  /** Splitting distributes over a separator: the basis of every path lemma below. */
  lemma {:induction false} SplitConcat(a: string, c: char, b: string)
    ensures Split(a + [c] + b, c) == Split(a, c) + Split(b, c)
  {
    if a == [] {
      assert a + [c] + b == [c] + b;
      assert ([c] + b)[1..] == b;
    } else {
      var s := a + [c] + b;
      assert s[0] == a[0] && s[1..] == a[1..] + [c] + b;
      SplitConcat(a[1..], c, b);
      if a[0] != c {
        var t := Split(a[1..], c);
        assert Split(s[1..], c) == t + Split(b, c);
        assert (t + Split(b, c))[0] == t[0];
        assert (t + Split(b, c))[1..] == t[1..] + Split(b, c);
      }
    }
  }

  /** Joining the pieces of a split with the same separator gives back the string. */
  lemma {:induction false} JoinSplit(s: string, c: char)
    ensures Join(Split(s, c), [c]) == s
  {
    if s != [] {
      JoinSplit(s[1..], c);
      var t := Split(s[1..], c);
      if s[0] == c {
        assert Split(s, c) == [""] + t;
        assert ([""] + t)[1..] == t;
      } else {
        var r := Split(s, c);
        assert r == [[s[0]] + t[0]] + t[1..];
        if |t| == 1 {
          assert Join(t, [c]) == t[0];
        } else {
          assert r[1..] == t[1..];
          assert Join(t, [c]) == t[0] + [c] + Join(t[1..], [c]);
        }
      }
    }
  }

  /** Joining separator-free pieces and splitting again gives back the pieces. */
  lemma {:induction false} SplitJoin(ps: seq<string>, c: char)
    requires |ps| >= 1
    requires forall i :: 0 <= i < |ps| ==> c !in ps[i]
    ensures Split(Join(ps, [c]), c) == ps
  {
    SplitNoSeparator(ps[0], c);
    if |ps| > 1 {
      SplitJoin(ps[1..], c);
      SplitConcat(ps[0], c, Join(ps[1..], [c]));
      assert [ps[0]] + ps[1..] == ps;
    }
  }

  /** Appending one more piece to a join. */
  lemma {:induction false} JoinSnoc(ps: seq<string>, x: string, sep: string)
    ensures Join(ps + [x], sep) == if ps == [] then x else Join(ps, sep) + sep + x
  {
    if |ps| > 1 {
      JoinSnoc(ps[1..], x, sep);
      assert (ps + [x])[1..] == ps[1..] + [x];
    } else if |ps| == 1 {
      assert (ps + [x])[1..] == [x];
    }
  }

  // ---------------------------------------------------------------------------
  // non-empty path segments
  // ---------------------------------------------------------------------------

  /** `xs.filter(part => part !== '')`. */
  function NonEmpty(xs: seq<string>): (r: seq<string>)
    ensures forall i :: 0 <= i < |r| ==> r[i] != "" && r[i] in xs
    ensures forall x :: x in xs && x != "" ==> x in r
  {
    if xs == [] then []
    else if xs[0] == "" then NonEmpty(xs[1..])
    else [xs[0]] + NonEmpty(xs[1..])
  }

  lemma {:induction false} NonEmptyConcat(xs: seq<string>, ys: seq<string>)
    ensures NonEmpty(xs + ys) == NonEmpty(xs) + NonEmpty(ys)
  {
    if xs != [] {
      assert (xs + ys)[0] == xs[0] && (xs + ys)[1..] == xs[1..] + ys;
      NonEmptyConcat(xs[1..], ys);
    } else {
      assert xs + ys == ys;
    }
  }

  lemma {:induction false} NonEmptyKeepsAll(xs: seq<string>)
    requires forall i :: 0 <= i < |xs| ==> xs[i] != ""
    ensures NonEmpty(xs) == xs
  {
    if xs != [] {
      NonEmptyKeepsAll(xs[1..]);
      assert [xs[0]] + xs[1..] == xs;
    }
  }

  /** The non-empty `/`-separated segments of a path string. */
  function Parts(s: string): (r: seq<string>)
    ensures forall i :: 0 <= i < |r| ==> r[i] != "" && '/' !in r[i]
  {
    NonEmpty(Split(s, '/'))
  }

  /** Segments of `a/b` are the segments of `a` followed by those of `b`. */
  lemma PartsConcat(a: string, b: string)
    ensures Parts(a + "/" + b) == Parts(a) + Parts(b)
  {
    SplitConcat(a, '/', b);
    NonEmptyConcat(Split(a, '/'), Split(b, '/'));
  }

  /** Leading, trailing and doubled slashes contribute no segment. */
  lemma ExtraSlashesIgnored(a: string, b: string)
    ensures Parts("/" + a) == Parts(a)
    ensures Parts(a + "/") == Parts(a)
    ensures Parts(a + "//" + b) == Parts(a + "/" + b)
  {
    assert Parts("") == [];
    PartsConcat("", a);
    assert "" + "/" + a == "/" + a;
    PartsConcat(a, "");
    assert a + "/" + "" == a + "/";
    PartsConcat(a, "/" + b);
    assert a + "/" + ("/" + b) == a + "//" + b;
    PartsConcat("", b);
    assert "" + "/" + b == "/" + b;
    PartsConcat(a, b);
  }

  /** Joining non-empty, slash-free segments with `/` and splitting again gives them back. */
  lemma PartsOfJoin(ps: seq<string>)
    requires forall i :: 0 <= i < |ps| ==> ps[i] != "" && '/' !in ps[i]
    ensures Parts(Join(ps, "/")) == ps
  {
    if ps == [] {
      assert Join(ps, "/") == "";
    } else {
      SplitJoin(ps, '/');
      NonEmptyKeepsAll(ps);
    }
  }

  // ---------------------------------------------------------------------------
  // trimming
  // ---------------------------------------------------------------------------

  /** PHP `ltrim(s, cs)`: drop every leading character in `cs`. */
  function LTrim(s: string, cs: set<char>): (r: string)
    ensures |r| <= |s| && r == s[|s| - |r|..]
    ensures r == [] || r[0] !in cs
    ensures forall i :: 0 <= i < |s| - |r| ==> s[i] in cs
  {
    if s != [] && s[0] in cs then LTrim(s[1..], cs) else s
  }

  /** PHP `rtrim(s, cs)`: drop every trailing character in `cs`. */
  function RTrim(s: string, cs: set<char>): (r: string)
    ensures |r| <= |s| && r == s[..|r|]
    ensures r == [] || r[|r| - 1] !in cs
    ensures forall i :: |r| <= i < |s| ==> s[i] in cs
  {
    if s != [] && s[|s| - 1] in cs then RTrim(s[..|s| - 1], cs) else s
  }

  /**
   * PHP `trim(s, cs)`: a part of `s` that neither starts nor ends with a
   * character of `cs`; a string that already does not is left as it is.
   */
  function Trim(s: string, cs: set<char>): (r: string)
    ensures |r| <= |s|
    ensures r == [] || (r[0] !in cs && r[|r| - 1] !in cs)
    ensures s != [] && s[0] !in cs && s[|s| - 1] !in cs ==> r == s
  {
    var l := LTrim(s, cs);
    var r := RTrim(l, cs);
    assert r != [] ==> r[0] == l[0];
    r
  }

  /**
   * `trim` removes exactly a leading and a trailing run of characters of `cs`:
   * the result is a contiguous part of `s` and everything around it is in `cs`.
   * With the ends of the result outside `cs` (the contract of `Trim`), the
   * two runs are the longest ones.
   */
  lemma TrimKeepsMiddle(s: string, cs: set<char>)
    ensures exists i, j ::
              && 0 <= i <= j <= |s| && Trim(s, cs) == s[i..j]
              && (forall k :: 0 <= k < i ==> s[k] in cs)
              && (forall k :: j <= k < |s| ==> s[k] in cs)
  {
    var l := LTrim(s, cs);
    var r := RTrim(l, cs);
    assert Trim(s, cs) == r;
    MiddleOfSuffix(s, l, r, cs);
  }

  /** A prefix `r` of a suffix `l` of `s`, with only `cs` around it, is a slice of `s` with only `cs` around it. */
  lemma MiddleOfSuffix(s: string, l: string, r: string, cs: set<char>)
    requires |l| <= |s| && l == s[|s| - |l|..] && forall k :: 0 <= k < |s| - |l| ==> s[k] in cs
    requires |r| <= |l| && r == l[..|r|] && forall k :: |r| <= k < |l| ==> l[k] in cs
    ensures exists i, j ::
              && 0 <= i <= j <= |s| && r == s[i..j]
              && (forall k :: 0 <= k < i ==> s[k] in cs)
              && (forall k :: j <= k < |s| ==> s[k] in cs)
  {
    var i := |s| - |l|;
    var j := i + |r|;
    forall k | j <= k < |s| ensures s[k] in cs {
      assert s[k] == l[k - i];
    }
    assert r == s[i..j];
  }

  /** WordPress `trailingslashit`: strip trailing `/` and `\`, then append one `/`. */
  function TrailingSlashIt(s: string): (r: string)
    ensures |r| >= 1 && r[|r| - 1] == '/'
  {
    RTrim(s, {'/', '\\'}) + "/"
  }

  // ---------------------------------------------------------------------------
  // searching and replacing
  // ---------------------------------------------------------------------------

  /** `strpos(s, pre) === 0` (PHP 8: an empty needle is found at 0). */
  predicate StartsWith(s: string, pre: string)
  {
    pre <= s
  }

  /** `pat` occurs somewhere in `s`. */
  predicate Occurs(pat: string, s: string)
  {
    exists i :: 0 <= i <= |s| - |pat| && OccursAt(pat, s, i)
  }

  /** `pat` occurs in `s` at index `i`. */
  predicate OccursAt(pat: string, s: string, i: int)
    requires 0 <= i <= |s| - |pat|
  {
    s[i..i + |pat|] == pat
  }

  /**
   * PHP `str_replace(pat, '', s)`: removes every non-overlapping occurrence of
   * `pat`, scanning left to right; an empty `pat` leaves `s` unchanged.
   */
  function RemoveAll(s: string, pat: string): (r: string)
    ensures |r| <= |s|
    ensures pat == [] ==> r == s
    ensures pat != [] && pat <= s ==> |r| <= |s| - |pat|
    decreases |s|
  {
    if pat == [] || |s| < |pat| then s
    else if s[..|pat|] == pat then
      assert s == s[..|pat|] + s[|pat|..];
      RemoveAll(s[|pat|..], pat)
    else
      assert s == [s[0]] + s[1..];
      [s[0]] + RemoveAll(s[1..], pat)
  }

  /**
   * `str_replace` removes the leftmost occurrence of `pat`, keeps what came
   * before it, and carries on after it. With `RemoveAllAbsent` this fixes the
   * result for every string.
   */
  lemma {:induction false} RemoveAllFirst(a: string, pat: string, t: string)
    requires pat != []
    requires forall i :: 0 <= i < |a| ==> !OccursAt(pat, a + pat + t, i)
    ensures RemoveAll(a + pat + t, pat) == a + RemoveAll(t, pat)
    decreases |a|
  {
    var s := a + pat + t;
    if a == [] {
      assert s == pat + t && s[..|pat|] == pat && s[|pat|..] == t;
    } else {
      assert !OccursAt(pat, s, 0);
      calc {
        RemoveAll(s, pat);
        == { RemoveAllSkip(s, pat); }
        [s[0]] + RemoveAll(s[1..], pat);
        == { assert s[1..] == a[1..] + pat + t; NoEarlierOccurrence(a, pat, t); RemoveAllFirst(a[1..], pat, t); }
        [a[0]] + (a[1..] + RemoveAll(t, pat));
        == { assert a == [a[0]] + a[1..]; }
        a + RemoveAll(t, pat);
      }
    }
  }

  /** Without an occurrence at the start, the first character is kept. */
  lemma RemoveAllSkip(s: string, pat: string)
    requires pat != [] && |pat| <= |s| && !OccursAt(pat, s, 0)
    ensures RemoveAll(s, pat) == [s[0]] + RemoveAll(s[1..], pat)
  {
    assert s[..|pat|] == s[0..0 + |pat|];
  }

  lemma NoEarlierOccurrence(a: string, pat: string, t: string)
    requires a != [] && forall i :: 0 <= i < |a| ==> !OccursAt(pat, a + pat + t, i)
    ensures forall i :: 0 <= i < |a[1..]| ==> !OccursAt(pat, a[1..] + pat + t, i)
  {
    var s := a + pat + t;
    forall i | 0 <= i < |a[1..]| ensures !OccursAt(pat, a[1..] + pat + t, i) {
      assert (a[1..] + pat + t)[i..i + |pat|] == s[i + 1..i + 1 + |pat|];
      assert !OccursAt(pat, s, i + 1);
    }
  }

  /** Where `pat` does not occur, `str_replace` changes nothing. */
  lemma {:induction false} RemoveAllAbsent(s: string, pat: string)
    requires !Occurs(pat, s)
    ensures RemoveAll(s, pat) == s
    decreases |s|
  {
    if pat != [] && |s| >= |pat| {
      assert s[0..0 + |pat|] == s[..|pat|];
      assert !OccursAt(pat, s, 0);
      forall i | 0 <= i <= |s[1..]| - |pat|
        ensures !OccursAt(pat, s[1..], i)
      {
        assert s[1..][i..i + |pat|] == s[i + 1..i + 1 + |pat|];
        assert !OccursAt(pat, s, i + 1);
      }
      RemoveAllAbsent(s[1..], pat);
      assert [s[0]] + s[1..] == s;
    }
  }

  // ---------------------------------------------------------------------------
  // case and comparison
  // ---------------------------------------------------------------------------

  /** ASCII lower-casing of one character, as PHP 8.2 and later and the C locale do. */
  function LowerChar(c: char): char
  {
    if 'A' <= c <= 'Z' then (c as int + 32) as char else c
  }

  /** PHP `strtolower`: no upper-case letter is left, and nothing else changes. */
  function Lower(s: string): (r: string)
    ensures |r| == |s|
    ensures forall i :: 0 <= i < |s| ==> r[i] == LowerChar(s[i])
    ensures forall i :: 0 <= i < |r| ==> !('A' <= r[i] <= 'Z')
    ensures forall i :: 0 <= i < |s| && !('A' <= s[i] <= 'Z') ==> r[i] == s[i]
  {
    seq(|s|, i requires 0 <= i < |s| => LowerChar(s[i]))
  }

  /** A string without upper-case ASCII letters is its own lower case. */
  lemma LowerUnchanged(s: string)
    requires forall i :: 0 <= i < |s| ==> !('A' <= s[i] <= 'Z')
    ensures Lower(s) == s
  {
  }

  /** Byte-wise (code point) lexicographic order, shorter prefix first. */
  predicate LexLeq(a: string, b: string)
  {
    a == [] || (b != [] && (a[0] < b[0] || (a[0] == b[0] && LexLeq(a[1..], b[1..]))))
  }

  lemma {:induction false} LexLeqTotal(a: string, b: string)
    ensures LexLeq(a, b) || LexLeq(b, a)
  {
    if a != [] && b != [] && a[0] == b[0] {
      LexLeqTotal(a[1..], b[1..]);
    }
  }

  lemma {:induction false} LexLeqTransitive(a: string, b: string, c: string)
    requires LexLeq(a, b) && LexLeq(b, c)
    ensures LexLeq(a, c)
  {
    if a != [] && b != [] && c != [] && a[0] == b[0] == c[0] {
      LexLeqTransitive(a[1..], b[1..], c[1..]);
    }
  }

  /** `strcasecmp(a, b) <= 0`. */
  predicate CaseLeq(a: string, b: string)
  {
    LexLeq(Lower(a), Lower(b))
  }

  lemma {:induction false} LexLeqReflexive(a: string)
    ensures LexLeq(a, a)
  {
    if a != [] {
      LexLeqReflexive(a[1..]);
    }
  }

  /** Code-unit comparison puts no two different strings level. */
  lemma {:induction false} LexLeqAntisymmetric(a: string, b: string)
    requires LexLeq(a, b) && LexLeq(b, a)
    ensures a == b
  {
    if a != [] && b != [] {
      LexLeqAntisymmetric(a[1..], b[1..]);
      assert a == [a[0]] + a[1..] && b == [b[0]] + b[1..];
    }
  }

  /** Strictly increasing in code-unit order, as `scandir` returns its names. */
  predicate Ascending(s: seq<string>)
  {
    forall i, j :: 0 <= i < j < |s| ==> LexLeq(s[i], s[j]) && s[i] != s[j]
  }

  /** Every finite, non-empty set of strings has a least element in code-unit order. */
  lemma {:induction false} LeastExists(names: set<string>)
    requires names != {}
    ensures exists x :: x in names && forall y :: y in names ==> LexLeq(x, y)
    decreases |names|
  {
    var z :| z in names;
    var rest := names - {z};
    if rest == {} {
      assert names == {z};
      LexLeqReflexive(z);
    } else {
      LeastExists(rest);
      var w :| w in rest && forall y :: y in rest ==> LexLeq(w, y);
      LexLeqTotal(z, w);
      if LexLeq(z, w) {
        LeastBelowLeast(names, z, w);
      } else {
        LeastOfRest(names, z, w);
      }
    }
  }

  /** An element below the least of the others is the least of all. */
  lemma LeastBelowLeast(names: set<string>, z: string, w: string)
    requires z in names && LexLeq(z, w)
    requires forall y :: y in names && y != z ==> LexLeq(w, y)
    ensures forall y :: y in names ==> LexLeq(z, y)
  {
    forall y | y in names
      ensures LexLeq(z, y)
    {
      if y == z {
        LexLeqReflexive(z);
      } else {
        LexLeqTransitive(z, w, y);
      }
    }
  }

  /** The least of the others, when below the remaining element, is the least of all. */
  lemma LeastOfRest(names: set<string>, z: string, w: string)
    requires z in names && LexLeq(w, z)
    requires forall y :: y in names && y != z ==> LexLeq(w, y)
    ensures forall y :: y in names ==> LexLeq(w, y)
  {
  }

  // ---------------------------------------------------------------------------
  // PHP helpers
  // ---------------------------------------------------------------------------

  /**
   * `pathinfo(name, PATHINFO_EXTENSION)` for a name without `/`: the text after
   * the last `.`, or "" when there is no `.` at all.
   */
  function Extension(name: string): (r: string)
    ensures '.' !in r
    ensures '.' !in name ==> r == ""
    ensures |r| <= |name|
  {
    var pieces := Split(name, '.');
    if '.' !in name then SplitNoSeparator(name, '.'); assert |pieces| == 1; ""
    else if |pieces| == 1 then ""
    else
      JoinSplit(name, '.');
      assert pieces == pieces[..|pieces| - 1] + [pieces[|pieces| - 1]];
      JoinSnoc(pieces[..|pieces| - 1], pieces[|pieces| - 1], ".");
      pieces[|pieces| - 1]
  }

  /** The extension of `stem.ext` is `ext`, whatever the stem (even an empty one). */
  lemma ExtensionOfDotted(stem: string, ext: string)
    requires '.' !in ext
    ensures Extension(stem + "." + ext) == ext
  {
    SplitConcat(stem, '.', ext);
    SplitNoSeparator(ext, '.');
  }

  /** PHP `empty()` on a string: "" and "0" are empty. */
  predicate PhpEmpty(s: string)
  {
    s == "" || s == "0"
  }
}
