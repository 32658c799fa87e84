/**
 * One run of the anime log page: the table is loaded from the persisted file
 * (or starts empty), the entry form may append a row, the page shows a view
 * of the table, and the delete control may remove rows. Every change is
 * written back by overwriting the whole file.
 */
module Store {
  import opened Text
  import opened Records
  import Views

  /** What the page reports after a submit or a delete. */
  datatype Outcome =
    | Registered(title: string)   // the row was appended and saved
    | EmptyTitle                  // the stripped title was empty: nothing written
    | Deleted(title: string)      // rows were removed and the file overwritten
    | NotFound                    // no row had that title: nothing written

  /** What reading the persisted file gives: its table, or the empty table when there is no file. */
  function Loaded(file: Option<Table>): (t: Table)
    ensures file.None? ==> t == []
    ensures file.Some? ==> t == file.value
  {
    if file.Some? then file.value else []
  }

  /** The row the form builds from its inputs. */
  function NewRow(title: string, genre: Genre, rating: Rating, comment: string): (x: Record)
    ensures x.title == Some(Trim(title)) && x.genre == Label(genre) && x.genre in GenreChoices
    ensures x.rating == rating && 1 <= x.rating <= 10 && x.comment == Trim(comment)
  {
    LabelsAreChoices(genre, genre);
    Record(Some(Trim(title)), Label(genre), rating, Trim(comment))
  }

  /** The delete mask keeps a row unless its title is exactly `title`; a missing title is kept. */
  predicate Survives(x: Record, title: string)
  {
    x.title != Some(title)
  }

  /**
   * The table after deleting `title`: every row whose title equals it exactly
   * (no stripping, case-sensitive) is gone, every other row stays in order.
   */
  function RemoveTitle(t: Table, title: string): (r: Table)
    ensures IsSubsequence(r, t)
    ensures forall x :: multiset(r)[x] == if Survives(x, title) then multiset(t)[x] else 0
    ensures forall k :: 0 <= k < |r| ==> r[k].title != Some(title)
  {
    var r := Keep(t, (x: Record) => Survives(x, title));
    assert forall k :: 0 <= k < |r| ==> r[k] in multiset(r);
    r
  }

  /** Some row's title is exactly `title`. */
  predicate HasTitle(t: Table, title: string)
  {
    exists k :: 0 <= k < |t| && t[k].title == Some(title)
  }

  /**
   * Deleting shrinks the table by exactly the number of rows with that
   * title; so it shrinks exactly when such a row exists, and otherwise the
   * table is left as it was.
   */
  lemma RemoveTitleCount(t: Table, title: string)
    ensures |RemoveTitle(t, title)| == |t| - Count(t, (x: Record) => x.title == Some(title))
    ensures |RemoveTitle(t, title)| < |t| <==> HasTitle(t, title)
    ensures !HasTitle(t, title) ==> RemoveTitle(t, title) == t
  {
    var survives := (x: Record) => Survives(x, title);
    var matches := (x: Record) => x.title == Some(title);
    KeepSplitsCount(t, survives);
    assert Count(t, x => !survives(x)) == Count(t, matches) by {
      CountSameMask(t, x => !survives(x), matches);
    }
    if !HasTitle(t, title) {
      KeepEverything(t, survives);
    }
  }

  class AnimeLog {
    /** The persisted CSV file: its table, or `None` while no file exists. */
    var file: Option<Table>
    /** The table of the current run (`df`). */
    var df: Table
    /** How many times the file has been overwritten (`save_data` calls). */
    var saves: nat

    /** The run's table is what the file holds: a reload would see the same rows. */
    ghost predicate Valid()
      reads this
    {
      df == Loaded(file)
    }

    /** Start of a run: `load_data()`. */
    constructor (file: Option<Table>)
      ensures Valid()
      ensures this.file == file && saves == 0
      ensures file.None? ==> df == []
    {
      this.file := file;
      df := Loaded(file);
      saves := 0;
    }

    /** `save_data(df)`: overwrites the whole file with the run's table. */
    method Save()
      modifies this
      ensures file == Some(df) && df == old(df) && saves == old(saves) + 1
    {
      file := Some(df);
      saves := saves + 1;
    }

    /**
     * The entry form's submit: a title that strips to nothing is refused
     * with a warning and nothing is written; otherwise the row built from
     * the stripped title, the genre, the rating and the stripped comment is
     * appended after all existing rows and the table is saved.
     */
    method Submit(title: string, genre: Genre, rating: Rating, comment: string) returns (outcome: Outcome)
      requires Valid()
      modifies this
      ensures Valid()
      ensures Trim(title) == [] ==>
        outcome == EmptyTitle && df == old(df) && file == old(file) && saves == old(saves)
      ensures Trim(title) != [] ==>
        && outcome == Registered(Trim(title))
        && df == old(df) + [NewRow(title, genre, rating, comment)]
        && file == Some(df) && saves == old(saves) + 1
    {
      var stripped := Trim(title);
      if stripped == [] {
        outcome := EmptyTitle;
      } else {
        var row := NewRow(title, genre, rating, comment);
        df := df + [row];
        Save();
        outcome := Registered(stripped);
      }
    }

    /**
     * The delete control: removes every row titled exactly `title`. The
     * file is overwritten only when the row count went down; when no row
     * matched, a warning is given and the file is not touched.
     */
    method Delete(title: string) returns (outcome: Outcome)
      requires Valid()
      modifies this
      ensures Valid()
      ensures df == RemoveTitle(old(df), title)
      ensures HasTitle(old(df), title) ==>
        outcome == Deleted(title) && file == Some(df) && saves == old(saves) + 1
      ensures !HasTitle(old(df), title) ==>
        outcome == NotFound && df == old(df) && file == old(file) && saves == old(saves)
    {
      var before := |df|;
      df := RemoveTitle(df, title);
      var after := |df|;
      RemoveTitleCount(old(df), title);
      if after < before {
        Save();
        outcome := Deleted(title);
      } else {
        outcome := NotFound;
      }
    }

  }

  /**
   * A session from the first run on: an entry whose title is already
   * stripped is logged and deleted again, leaving an empty file behind after
   * two writes.
   */
  method ExampleSession(title: string, genre: Genre, rating: Rating)
    returns (submitted: Outcome, deleted: Outcome, file: Option<Table>, saves: nat)
    requires title != [] && Trim(title) == title
    ensures submitted == Registered(title) && deleted == Deleted(title)
    ensures file == Some([]) && saves == 2
  {
    var log := new AnimeLog(None);
    submitted := log.Submit(title, genre, rating, "");
    var row := NewRow(title, genre, rating, "");
    SingleRowRemoval(row, title);
    assert log.df == [row];
    deleted := log.Delete(title);
    file, saves := log.file, log.saves;
  }

  /** A one-row table holds the row's title, and deleting that title empties it. */
  lemma SingleRowRemoval(x: Record, title: string)
    requires x.title == Some(title)
    ensures HasTitle([x], title)
    ensures RemoveTitle([x], title) == []
  {
    assert [x][0] == x;
    RemoveTitleCount([x], title);
  }

  /** The row is shown when filtering by its genre with an empty search. */
  predicate ViewShowsRow(t: Table, x: Record)
  {
    Views.View(t, x.genre, []) == [x]
  }

  /** In a one-row table the row's genre is offered, and choosing it shows the row. */
  lemma SingleRowShown(x: Record)
    ensures x.genre in Views.GenreOptions([x])[1..] && ViewShowsRow([x], x)
  {
    Views.AppendedRowShown([], x, []);
    assert [] + [x] == [x];
  }

  /** The entry of the examples below. */
  const Frieren := Record(Some("Frieren"), "ストーリー", 9, "great")

  lemma ExampleRow()
    ensures Trim("Frieren") == "Frieren"
    ensures NewRow("Frieren", Story, 9, "great") == Frieren
  {
    TrimUnchanged("Frieren");
    TrimUnchanged("great");
  }

  lemma ExampleOptions()
    ensures Views.GenreOptions([Frieren]) == [Views.All, "ストーリー"]
  {
    assert forall g :: Views.HasGenre([Frieren], g) <==> g == "ストーリー" by {
      assert [Frieren][0].genre == "ストーリー";
    }
    Views.GenreOptionsAreCanonical([Frieren], ["ストーリー"]);
  }

  lemma ExampleSearch()
    ensures Views.View([Frieren], Views.All, "frie") == [Frieren]
  {
    assert Contains(Lower("Frieren"), Lower("frie")) by {
      assert OccursAt(Lower("Frieren"), Lower("frie"), 0);
    }
  }
}
