/**
 * The read-only side of the anime log: the genre options offered by the
 * filter selector, the genre filter, the case-insensitive title search, and
 * the view the page shows, all projections of the table that change nothing.
 */
module Views {
  import opened Text
  import opened Records

  /** The sentinel choice of the filter selector that turns the genre filter off. */
  const All: string := "All"

  // ----- genre options: ["All"] + sorted(df["ジャンル"].unique()) -----

  /** Some row of `t` has genre `g`. */
  predicate HasGenre(t: Table, g: string)
  {
    exists k :: 0 <= k < |t| && t[k].genre == g
  }

  /** The genre column, row by row. */
  function GenreColumn(t: Table): (c: seq<string>)
    ensures |c| == |t|
    ensures forall k :: 0 <= k < |t| ==> c[k] == t[k].genre
  {
    if t == [] then [] else [t[0].genre] + GenreColumn(t[1..])
  }

  predicate NoDuplicates(s: seq<string>)
  {
    forall i, j :: 0 <= i < j < |s| ==> s[i] != s[j]
  }

  /**
   * pandas' `unique()`: each value of `s` once. The values are kept in the
   * order of their first occurrence, but only the set of values is stated:
   * the sort that follows does not depend on the order.
   */
  function Unique(s: seq<string>): (r: seq<string>)
    ensures NoDuplicates(r)
    ensures forall x :: x in r <==> x in s
  {
    if s == [] then []
    else
      var d := Unique(s[..|s| - 1]);
      assert forall x :: x in s <==> x in s[..|s| - 1] || x == s[|s| - 1];
      if s[|s| - 1] in d then d else d + [s[|s| - 1]]
  }

  /** Ascending, ties allowed: no element is smaller than an earlier one. */
  predicate Sorted(s: seq<string>)
  {
    forall i, j :: 0 <= i < j < |s| ==> !Less(s[j], s[i])
  }

  /** Strictly ascending, so in particular without duplicates. */
  predicate StrictlySorted(s: seq<string>)
  {
    forall i, j :: 0 <= i < j < |s| ==> Less(s[i], s[j])
  }

  /** "Not less than" is transitive. */
  lemma NotLessTransitive(a: string, b: string, c: string)
    requires !Less(b, a) && !Less(c, b)
    ensures !Less(c, a)
  {
    if a != b {
      LessTotal(a, b);
    }
    if b != c {
      LessTotal(b, c);
    }
    if a != b && b != c {
      LessTransitive(a, b, c);
    }
    if Less(a, c) {
      LessAsymmetric(a, c);
    }
    if a == c {
      LessIrreflexive(a);
    }
  }

  /** Putting in front of a sorted list an element no greater than any of it keeps it sorted. */
  lemma SortedCons(y: string, s: seq<string>)
    requires Sorted(s)
    requires forall k :: 0 <= k < |s| ==> !Less(s[k], y)
    ensures Sorted([y] + s)
  {
    var r := [y] + s;
    forall i, j | 0 <= i < j < |r| ensures !Less(r[j], r[i]) {
      if i > 0 {
        assert r[i] == s[i - 1] && r[j] == s[j - 1];
      } else {
        assert r[j] == s[j - 1];
      }
    }
  }

  /** Inserts `x` into sorted `s` before the first element not less than it. */
  function Insert(x: string, s: seq<string>): (r: seq<string>)
    requires Sorted(s)
    ensures Sorted(r)
    ensures multiset(r) == multiset(s) + multiset{x}
  {
    if s == [] then [x]
    else if !Less(s[0], x) then
      forall k | 0 <= k < |s| ensures !Less(s[k], x) {
        if k > 0 {
          NotLessTransitive(x, s[0], s[k]);
        }
      }
      SortedCons(x, s);
      [x] + s
    else
      var rest := Insert(x, s[1..]);
      assert s == [s[0]] + s[1..];
      LessAsymmetric(s[0], x);
      forall k | 0 <= k < |rest| ensures !Less(rest[k], s[0]) {
        assert rest[k] in multiset(rest);
      }
      SortedCons(s[0], rest);
      [s[0]] + rest
  }

  /** Python's `sorted` on strings: an ascending permutation of `s`. */
  function Sort(s: seq<string>): (r: seq<string>)
    ensures Sorted(r)
    ensures multiset(r) == multiset(s)
  {
    if s == [] then []
    else
      assert s == [s[0]] + s[1..];
      Insert(s[0], Sort(s[1..]))
  }

  /** Sorting values that are all different orders them strictly. */
  lemma SortedDistinctIsStrict(s: seq<string>)
    requires Sorted(s) && NoDuplicates(s)
    ensures StrictlySorted(s)
  {
    forall i, j | 0 <= i < j < |s| ensures Less(s[i], s[j]) {
      LessTotal(s[i], s[j]);
    }
  }

  /**
   * The choices of the genre filter: "All", then each genre present in the
   * table exactly once, in ascending order. A genre no row has is not offered.
   */
  function GenreOptions(t: Table): (r: seq<string>)
    ensures |r| >= 1 && r[0] == All
    ensures StrictlySorted(r[1..])
    ensures forall g :: g in r[1..] <==> HasGenre(t, g)
  {
    var column := GenreColumn(t);
    var genres := Unique(column);
    var sorted := Sort(genres);
    assert forall g :: g in column <==> HasGenre(t, g);
    SortKeepsDistinct(genres);
    SortedDistinctIsStrict(sorted);
    assert ([All] + sorted)[1..] == sorted;
    [All] + sorted
  }

  /** Sorting a list without duplicates gives a list without duplicates, with the same elements. */
  lemma SortKeepsDistinct(s: seq<string>)
    requires NoDuplicates(s)
    ensures NoDuplicates(Sort(s))
    ensures forall x :: x in Sort(s) <==> x in s
  {
    var sorted := Sort(s);
    assert forall x :: x in sorted <==> x in multiset(sorted);
    forall i, j | 0 <= i < j < |sorted| ensures sorted[i] != sorted[j] {
      if sorted[i] == sorted[j] {
        assert multiset(sorted)[sorted[i]] >= 2 by {
          assert sorted == sorted[..j] + sorted[j..];
          assert sorted[i] in multiset(sorted[..j]);
          assert sorted[j] in multiset(sorted[j..]);
        }
        NoDuplicatesCountsOnce(s, sorted[i]);
        assert false;
      }
    }
  }

  /** In a sequence without duplicates every value occurs at most once. */
  lemma {:induction false} NoDuplicatesCountsOnce(s: seq<string>, x: string)
    requires NoDuplicates(s)
    ensures multiset(s)[x] <= 1
  {
    if s != [] {
      assert s == [s[0]] + s[1..];
      NoDuplicatesCountsOnce(s[1..], x);
      if s[0] == x {
        assert x !in s[1..];
      }
    }
  }

  /**
   * The option list is determined by the set of genres alone: any strictly
   * ascending listing of the same genres is the option list without "All".
   */
  lemma {:induction false} StrictlySortedUnique(a: seq<string>, b: seq<string>)
    requires StrictlySorted(a) && StrictlySorted(b)
    requires forall x :: x in a <==> x in b
    ensures a == b
  {
    if a != [] && b != [] {
      if a[0] != b[0] {
        assert b[0] in a && a[0] in b;
        var i :| 0 <= i < |a| && a[i] == b[0];
        var j :| 0 <= j < |b| && b[j] == a[0];
        LessAsymmetric(a[0], a[i]);
        assert false;
      }
      forall x ensures x in a[1..] <==> x in b[1..] {
        if x in a[1..] {
          var i :| 1 <= i < |a| && a[i] == x;
          LessIrreflexive(a[0]);
          assert x in b;
          var j :| 0 <= j < |b| && b[j] == x;
          assert j != 0 && b[1..][j - 1] == x;
        }
        if x in b[1..] {
          var j :| 1 <= j < |b| && b[j] == x;
          LessIrreflexive(b[0]);
          assert x in a;
          var i :| 0 <= i < |a| && a[i] == x;
          assert i != 0 && a[1..][i - 1] == x;
        }
      }
      StrictlySortedUnique(a[1..], b[1..]);
    } else if a != [] {
      HeadIsMember(a);
      assert false;
    } else if b != [] {
      HeadIsMember(b);
      assert false;
    }
  }

  lemma HeadIsMember(s: seq<string>)
    requires s != []
    ensures s[0] in s
  {
  }

  lemma GenreOptionsAreCanonical(t: Table, s: seq<string>)
    requires StrictlySorted(s)
    requires forall g :: g in s <==> HasGenre(t, g)
    ensures GenreOptions(t) == [All] + s
  {
    var r := GenreOptions(t);
    StrictlySortedUnique(r[1..], s);
    assert r == [r[0]] + r[1..];
  }

  // ----- genre filter: df[df["ジャンル"] == selected_genre] -----

  /** The genre mask of the filter; "All" lets every row through. */
  predicate GenreMatches(x: Record, selected: string)
  {
    selected == All || x.genre == selected
  }

  /**
   * The table seen through the genre filter: unchanged for "All"; otherwise
   * exactly the rows of that genre, in table order.
   */
  function FilterGenre(t: Table, selected: string): (r: Table)
    ensures selected == All ==> r == t
    ensures IsSubsequence(r, t)
    ensures forall x :: multiset(r)[x] == if GenreMatches(x, selected) then multiset(t)[x] else 0
  {
    if selected == All then
      SubsequenceOfItself(t);
      t
    else
      Keep(t, (x: Record) => x.genre == selected)
  }

  lemma {:induction false} SubsequenceOfItself(t: Table)
    ensures IsSubsequence(t, t)
  {
    if t != [] {
      SubsequenceOfItself(t[1..]);
    }
  }

  /**
   * A genre other than "All" is offered by the selector exactly when
   * filtering by it shows at least one row.
   */
  lemma OfferedIffNonEmpty(t: Table, g: string)
    requires g != All
    ensures g in GenreOptions(t)[1..] <==> FilterGenre(t, g) != []
  {
    var r := FilterGenre(t, g);
    if HasGenre(t, g) {
      var k :| 0 <= k < |t| && t[k].genre == g;
      assert t[k] in multiset(t);
      assert t[k] in multiset(r);
    }
    if r != [] {
      assert r[0] in multiset(r);
      assert r[0] in t;
    }
  }

  // ----- title search: str.contains(search_text, case=False, na=False) -----

  /**
   * The search mask: the title is present and contains the search text,
   * both lower-cased. A missing title never matches.
   */
  predicate TitleMatches(x: Record, search: string)
  {
    x.title.Some? && Contains(Lower(x.title.value), Lower(search))
  }

  /** Whether a row passes the search box: an empty search lets every row through. */
  predicate SearchMatches(x: Record, search: string)
  {
    search == [] || TitleMatches(x, search)
  }

  /**
   * The rows whose title contains the search text, ignoring case, in table
   * order; the empty search text leaves the rows as they are.
   */
  function SearchTitle(t: Table, search: string): (r: Table)
    ensures search == [] ==> r == t
    ensures IsSubsequence(r, t)
    ensures forall x :: multiset(r)[x] == if SearchMatches(x, search) then multiset(t)[x] else 0
    ensures search != [] ==> forall k :: 0 <= k < |r| ==> r[k].title.Some?
  {
    if search == [] then
      SubsequenceOfItself(t);
      t
    else
      var r := Keep(t, x => TitleMatches(x, search));
      assert forall k :: 0 <= k < |r| ==> r[k] in multiset(r);
      r
  }

  /** Searching for a text or for any other casing of it shows the same rows. */
  lemma SearchIgnoresCase(t: Table, s1: string, s2: string)
    requires Lower(s1) == Lower(s2)
    ensures SearchTitle(t, s1) == SearchTitle(t, s2)
  {
    if s1 != [] {
      KeepSameMask(t, x => TitleMatches(x, s1), x => TitleMatches(x, s2));
    }
  }

  // ----- the displayed table -----

  /** What `st.dataframe(filtered_df)` shows: the genre filter, then the search. */
  function View(t: Table, selected: string, search: string): (r: Table)
    ensures IsSubsequence(r, t)
    ensures forall x {:trigger multiset(r)[x]} ::
      multiset(r)[x] == if Shown(x, selected, search) then multiset(t)[x] else 0
  {
    var filtered := FilterGenre(t, selected);
    var r := SearchTitle(filtered, search);
    SubsequenceTransitive(r, filtered, t);
    r
  }

  /** Whether a row passes both the genre filter and the search box. */
  predicate Shown(x: Record, selected: string, search: string)
  {
    GenreMatches(x, selected) && SearchMatches(x, search)
  }

  /**
   * The view shows exactly the rows passing both the genre filter and the
   * search, in table order: the intersection of the two masks.
   */
  lemma {:induction false} ViewIsIntersection(t: Table, selected: string, search: string)
    ensures View(t, selected, search) == Keep(t, x => Shown(x, selected, search))
  {
    var shown := (x: Record) => Shown(x, selected, search);
    var genre := (x: Record) => x.genre == selected;
    var title := (x: Record) => TitleMatches(x, search);
    if selected == All && search == [] {
      KeepEverything(t, shown);
    } else if selected == All {
      KeepSameMask(t, title, shown);
    } else if search == [] {
      KeepSameMask(t, genre, shown);
    } else {
      KeepKeep(t, genre, title);
      KeepSameMask(t, x => genre(x) && title(x), shown);
    }
  }

  /**
   * A row appended to the table is offered under its genre, and it is shown,
   * after all rows shown before, when filtering by its genre with any search
   * text it matches.
   */
  lemma AppendedRowShown(t: Table, x: Record, search: string)
    requires SearchMatches(x, search)
    ensures x.genre in GenreOptions(t + [x])[1..]
    ensures View(t + [x], x.genre, search) == View(t, x.genre, search) + [x]
  {
    assert (t + [x])[|t|].genre == x.genre;
    ViewIsIntersection(t + [x], x.genre, search);
    ViewIsIntersection(t, x.genre, search);
    KeepAppend(t, x, (y: Record) => Shown(y, x.genre, search));
  }
}
