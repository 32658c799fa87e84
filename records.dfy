/**
 * The record table of the anime log: one row per watched title, with the four
 * fixed columns title (タイトル), genre (ジャンル), rating (評価) and comment
 * (コメント), kept in insertion order. Duplicate titles are allowed.
 *
 * Every projection and deletion of the log keeps, in order, the rows that
 * satisfy a row predicate (a pandas boolean mask); `Keep` is that operation,
 * with what it promises stated once here.
 */
module Records {

  datatype Option<T> = None | Some(value: T)

  /**
   * One row. A title cell is `None` when the persisted table has no value
   * there (pandas reads such a cell as NaN). The form never builds one within
   * a run, but a title it stores as text, such as "NA", reads back as `None`
   * after a reload.
   */
  datatype Record = Record(title: Option<string>, genre: string, rating: int, comment: string)

  type Table = seq<Record>

  /** The seven choices of the genre selector on the entry form, in its order. */
  datatype Genre = Action | Comedy | Story | RomCom | SliceOfLife | SciFi | Other

  /** The text the selector shows and the table stores for each genre. */
  function Label(g: Genre): string
  {
    match g
    case Action => "アクション"
    case Comedy => "コメディ"
    case Story => "ストーリー"
    case RomCom => "ラブコメ"
    case SliceOfLife => "日常"
    case SciFi => "SF"
    case Other => "その他"
  }

  /** The selector's choices as the table sees them. */
  const GenreChoices: seq<string> :=
    ["アクション", "コメディ", "ストーリー", "ラブコメ", "日常", "SF", "その他"]

  /** Each genre is stored under its own label, and only the seven labels occur. */
  lemma LabelsAreChoices(g: Genre, h: Genre)
    ensures Label(g) in GenreChoices
    ensures Label(g) == Label(h) ==> g == h
  {
  }

  /** What the rating slider can produce: 1 to 10, starting at 5. */
  type Rating = r: int | 1 <= r <= 10 witness 5

  /**
   * `r` is `t` with some rows left out and the rest in their original order.
   */
  ghost predicate IsSubsequence(r: Table, t: Table)
  {
    if r == [] then true
    else if t == [] then false
    else (r[0] == t[0] && IsSubsequence(r[1..], t[1..])) || IsSubsequence(r, t[1..])
  }

  /** A subsequence of a subsequence is a subsequence. */
  lemma {:induction false} SubsequenceTransitive(a: Table, b: Table, c: Table)
    requires IsSubsequence(a, b) && IsSubsequence(b, c)
    ensures IsSubsequence(a, c)
    decreases |c|
  {
    if a != [] {
      if IsSubsequence(b, c[1..]) {
        SubsequenceTransitive(a, b, c[1..]);
      } else if a[0] == b[0] && IsSubsequence(a[1..], b[1..]) {
        SubsequenceTransitive(a[1..], b[1..], c[1..]);
      } else {
        SubsequenceTransitive(a, b[1..], c[1..]);
      }
    }
  }

  /** The number of rows of `t` that satisfy `p`. */
  function Count(t: Table, p: Record -> bool): (n: nat)
    ensures n <= |t|
    ensures n == 0 <==> forall i :: 0 <= i < |t| ==> !p(t[i])
    ensures n == |t| <==> forall i :: 0 <= i < |t| ==> p(t[i])
  {
    if t == [] then 0
    else (if p(t[0]) then 1 else 0) + Count(t[1..], p)
  }

  /**
   * The rows of `t` that satisfy `p`, in table order: the order-preserving
   * subsequence holding every such row as often as `t` does and no other row.
   */
  function Keep(t: Table, p: Record -> bool): (r: Table)
    ensures IsSubsequence(r, t)
    ensures forall x {:trigger multiset(r)[x]} :: multiset(r)[x] == if p(x) then multiset(t)[x] else 0
    ensures |r| == Count(t, p)
  {
    if t == [] then []
    else
      var rest := Keep(t[1..], p);
      assert t == [t[0]] + t[1..];
      if p(t[0]) then [t[0]] + rest else rest
  }

  /** Two masks that agree on every row count the same rows. */
  lemma {:induction false} CountSameMask(t: Table, p: Record -> bool, q: Record -> bool)
    requires forall i :: 0 <= i < |t| ==> p(t[i]) == q(t[i])
    ensures Count(t, p) == Count(t, q)
  {
    if t != [] {
      CountSameMask(t[1..], p, q);
    }
  }

  /** Keeping with a mask that holds everywhere returns the table itself. */
  lemma {:induction false} KeepEverything(t: Table, p: Record -> bool)
    requires forall i :: 0 <= i < |t| ==> p(t[i])
    ensures Keep(t, p) == t
  {
    if t != [] {
      KeepEverything(t[1..], p);
    }
  }

  /**
   * The kept rows and the dropped rows add up to the table: dropping rows
   * shrinks it by exactly the number of rows dropped.
   */
  lemma {:induction false} KeepSplitsCount(t: Table, p: Record -> bool)
    ensures |Keep(t, p)| + Count(t, x => !p(x)) == |t|
  {
    if t != [] {
      KeepSplitsCount(t[1..], p);
    }
  }

  /** Keeping distributes over appending a row at the end of the table. */
  lemma {:induction false} KeepAppend(t: Table, x: Record, p: Record -> bool)
    ensures Keep(t + [x], p) == Keep(t, p) + (if p(x) then [x] else [])
  {
    if t == [] {
      assert [] + [x] == [x];
    } else {
      assert (t + [x])[1..] == t[1..] + [x];
      KeepAppend(t[1..], x, p);
    }
  }

  /** Applying one mask after another keeps the rows satisfying both. */
  lemma {:induction false} KeepKeep(t: Table, p: Record -> bool, q: Record -> bool)
    ensures Keep(Keep(t, p), q) == Keep(t, x => p(x) && q(x))
  {
    if t != [] {
      KeepKeep(t[1..], p, q);
      var rest := Keep(t[1..], p);
      if p(t[0]) {
        assert ([t[0]] + rest)[1..] == rest;
      }
    }
  }

  /** A mask only matters through its values on the table's rows. */
  lemma {:induction false} KeepSameMask(t: Table, p: Record -> bool, q: Record -> bool)
    requires forall i :: 0 <= i < |t| ==> p(t[i]) == q(t[i])
    ensures Keep(t, p) == Keep(t, q)
  {
    if t != [] {
      KeepSameMask(t[1..], p, q);
    }
  }
}
