/**
 * The string operations the anime log applies to user input: Python's
 * `str.strip()` (used on the submitted title and comment), the lower-casing
 * behind pandas' case-insensitive `str.contains`, substring containment, and
 * the code-point order Python's `sorted` uses on strings.
 */
module Text {

  /** Python's `str.isspace()` characters: the ones `str.strip()` removes. */
  predicate IsSpace(c: char)
  {
    || ('\U{0009}' <= c <= '\U{000D}')
    || ('\U{001C}' <= c <= '\U{0020}')
    || c == '\U{0085}' || c == '\U{00A0}' || c == '\U{1680}'
    || ('\U{2000}' <= c <= '\U{200A}')
    || c == '\U{2028}' || c == '\U{2029}' || c == '\U{202F}' || c == '\U{205F}'
    || c == '\U{3000}'
  }

  /**
   * `r` is the piece of `s` starting at `i`, and everything of `s` before
   * and after that piece is whitespace.
   */
  predicate StrippedAt(s: string, i: int, r: string)
  {
    && 0 <= i <= |s| - |r| && r == s[i..i + |r|]
    && (forall k {:trigger IsSpace(s[k])} :: 0 <= k < i ==> IsSpace(s[k]))
    && (forall k {:trigger IsSpace(s[k])} :: i + |r| <= k < |s| ==> IsSpace(s[k]))
  }

  /**
   * Python's `s.strip()`: leading and trailing whitespace are peeled off one
   * character at a time. The result is the slice of `s` between its leading
   * and its trailing whitespace, and it neither starts nor ends with
   * whitespace.
   */
  function Trim(s: string): (r: string)
    ensures r == [] || (!IsSpace(r[0]) && !IsSpace(r[|r| - 1]))
    ensures exists i :: StrippedAt(s, i, r)
  {
    if s == [] then
      StrippedWhole(s);
      s
    else if IsSpace(s[0]) then
      var r := Trim(s[1..]);
      StripFront(s, s[1..], r);
      r
    else if IsSpace(s[|s| - 1]) then
      var r := Trim(s[..|s| - 1]);
      StripBack(s, s[..|s| - 1], r);
      r
    else
      StrippedWhole(s);
      s
  }

  /** With nothing to strip, the whole string is the piece. */
  lemma StrippedWhole(s: string)
    ensures StrippedAt(s, 0, s)
  {
    assert s[0..|s|] == s;
  }

  /** Stripping after a leading space: the piece moves one place right in `s`. */
  lemma StripFront(s: string, u: string, r: string)
    requires s != [] && IsSpace(s[0]) && u == s[1..]
    requires exists i :: StrippedAt(u, i, r)
    ensures exists i :: StrippedAt(s, i, r)
  {
    var i :| StrippedAt(u, i, r);
    assert u[i..i + |r|] == s[i + 1..i + 1 + |r|];
    forall k | 0 < k < i + 1 ensures IsSpace(s[k]) {
      assert s[k] == u[k - 1];
    }
    forall k | i + 1 + |r| <= k < |s| ensures IsSpace(s[k]) {
      assert s[k] == u[k - 1];
    }
    assert StrippedAt(s, i + 1, r);
  }

  /** Stripping after a trailing space: the piece stays where it is in `s`. */
  lemma StripBack(s: string, u: string, r: string)
    requires s != [] && IsSpace(s[|s| - 1]) && u == s[..|s| - 1]
    requires exists i :: StrippedAt(u, i, r)
    ensures exists i :: StrippedAt(s, i, r)
  {
    var i :| StrippedAt(u, i, r);
    assert u[i..i + |r|] == s[i..i + |r|];
    forall k | 0 <= k < i ensures IsSpace(s[k]) {
      assert s[k] == u[k];
    }
    forall k | i + |r| <= k < |s| - 1 ensures IsSpace(s[k]) {
      assert s[k] == u[k];
    }
    assert StrippedAt(s, i, r);
  }

  /** A title is blank, and refused on submit, exactly when it is all whitespace. */
  lemma TrimEmptyIff(s: string)
    ensures Trim(s) == [] <==> forall k :: 0 <= k < |s| ==> IsSpace(s[k])
  {
    var r := Trim(s);
    var i :| StrippedAt(s, i, r);
    if r != [] {
      assert s[i] == r[0];
    }
  }

  /** A string that neither starts nor ends with whitespace is its own strip. */
  lemma TrimUnchanged(s: string)
    requires s == [] || (!IsSpace(s[0]) && !IsSpace(s[|s| - 1]))
    ensures Trim(s) == s
  {
  }

  /** Stripping twice is stripping once: a stored title is already stripped. */
  lemma TrimIdempotent(s: string)
    ensures Trim(Trim(s)) == Trim(s)
  {
    TrimUnchanged(Trim(s));
  }

  /**
   * Lower-casing of one character: the Basic Latin and the full-width Latin
   * capitals map to their small letters; every other character is kept.
   */
  function LowerChar(c: char): (d: char)
    ensures ('A' <= c <= 'Z') ==> d as int == c as int + 32
    ensures ('\U{FF21}' <= c <= '\U{FF3A}') ==> d as int == c as int + 32
    ensures !('A' <= c <= 'Z') && !('\U{FF21}' <= c <= '\U{FF3A}') ==> d == c
  {
    if 'A' <= c <= 'Z' || '\U{FF21}' <= c <= '\U{FF3A}' then (c as int + 32) as char else c
  }

  /** Character-wise lower-casing. */
  function Lower(s: string): (r: string)
    ensures |r| == |s|
    ensures forall i :: 0 <= i < |s| ==> r[i] == LowerChar(s[i])
  {
    if s == [] then [] else [LowerChar(s[0])] + Lower(s[1..])
  }

  /** Lower-casing is idempotent: a lower-cased query matches like itself. */
  lemma LowerIdempotent(s: string)
    ensures Lower(Lower(s)) == Lower(s)
  {
    var l := Lower(s);
    assert forall i :: 0 <= i < |s| ==> LowerChar(l[i]) == l[i];
  }

  /** `s` begins with `q`. */
  predicate StartsWith(s: string, q: string)
  {
    |q| <= |s| && s[..|q|] == q
  }

  /** `q` occurs in `s` at position `i`. */
  predicate OccursAt(s: string, q: string, i: int)
  {
    0 <= i <= |s| - |q| && s[i..i + |q|] == q
  }

  /** `q` occurs as a contiguous piece of `s` (Python's `q in s`). */
  function Contains(s: string, q: string): (r: bool)
    ensures r <==> exists i :: OccursAt(s, q, i)
    decreases |s|
  {
    if StartsWith(s, q) then
      assert OccursAt(s, q, 0);
      true
    else if s == [] then
      false
    else
      var r := Contains(s[1..], q);
      if r then
        var i :| OccursAt(s[1..], q, i);
        assert OccursAt(s, q, i + 1);
        true
      else
        forall i | 0 < i {
          OccursLater(s, q, i);
        }
        false
  }

  /** An occurrence past the first position is an occurrence in the tail. */
  lemma OccursLater(s: string, q: string, i: int)
    requires s != [] && 0 < i
    ensures OccursAt(s, q, i) ==> OccursAt(s[1..], q, i - 1)
  {
    if OccursAt(s, q, i) {
      assert s[1..][i - 1..i - 1 + |q|] == s[i..i + |q|];
    }
  }

  /**
   * Python's `<` on strings: lexicographic on code points, a proper prefix
   * coming first.
   */
  predicate Less(a: string, b: string)
  {
    if a == [] then b != []
    else if b == [] then false
    else if a[0] < b[0] then true
    else if a[0] == b[0] then Less(a[1..], b[1..])
    else false
  }

  lemma {:induction false} LessIrreflexive(a: string)
    ensures !Less(a, a)
  {
    if a != [] {
      LessIrreflexive(a[1..]);
    }
  }

  lemma {:induction false} LessAsymmetric(a: string, b: string)
    requires Less(a, b)
    ensures !Less(b, a)
  {
    if a != [] && b != [] && a[0] == b[0] {
      LessAsymmetric(a[1..], b[1..]);
    }
  }

  /** Any two different strings are ordered one way or the other. */
  lemma {:induction false} LessTotal(a: string, b: string)
    requires a != b
    ensures Less(a, b) || Less(b, a)
  {
    if a != [] && b != [] && a[0] == b[0] {
      assert a == [a[0]] + a[1..] && b == [b[0]] + b[1..];
      LessTotal(a[1..], b[1..]);
    }
  }

  lemma {:induction false} LessTransitive(a: string, b: string, c: string)
    requires Less(a, b) && Less(b, c)
    ensures Less(a, c)
  {
    if a != [] && b != [] && c != [] && a[0] == b[0] == c[0] {
      LessTransitive(a[1..], b[1..], c[1..]);
    }
  }
}
