# My Anime Log — a Dafny model of the record table

The program is a one-page log of watched anime. Every interaction re-runs the
page from the top: the table (title, genre, rating, comment) is read from a
CSV file, or starts empty when there is none; the entry form may append one
row; the genre selector and the title search box pick the rows to display;
and the delete control removes every row with a given title. Each change
overwrites the whole file.

This project models that table logic:

- `text.dfy`, module `Text`: Python's `str.strip()` (with the exact set of
  characters `str.isspace()` accepts), lower-casing, substring containment,
  and the code-point order `sorted` uses on strings.
- `records.dfy`, module `Records`: the row (`Record`), the table (a `seq` of
  rows), the seven genre choices with their stored labels, the rating range,
  and `Keep`, the boolean-mask selection every projection and deletion uses.
  `Keep` is specified as the order-preserving subsequence holding exactly the
  matching rows, with their multiplicities.
- `views.dfy`, module `Views`: the genre options (`"All"` followed by the
  sorted distinct genres), the genre filter, the case-insensitive title
  search, and the displayed view. These are pure functions.
- `store.dfy`, module `Store`: the class `AnimeLog` for one run. Its fields
  are the persisted file (`None` when no file exists), the run's table `df`,
  and the number of `save_data` calls. `Submit` and `Delete` are methods
  that change these fields. The invariant `Valid()` states that the run's
  table is what a reload of the file would give. This also covers the
  re-run of the page after a delete. `ExampleSession` logs one entry and
  deletes it again.

A title cell is `Option<string>`: `None` stands for a cell pandas reads as
missing (NaN). The form can write one too: a stripped title such as "NA",
"None" or "null" is stored as text but reads back as NaN after the next
reload. The search excludes such rows (`na=False`), unless every title
cell of the table is missing: then the program raises on a non-empty
search (see `Views.SearchTitle` under "Left out"). Delete keeps them,
because NaN compares unequal to every string.

## Model

| member | source | states |
|---|---|---|
| Store.Loaded | anime.py:8-13 | with no persisted file the table is empty; otherwise it is the file's table |
| Store.AnimeLog.Valid | anime.py:8-13 | the run's table is what reloading the file gives, which is what the page sees after the rerun at anime.py:88 |
| Store.AnimeLog.constructor | anime.py:8-13 | a run starts with the file's table (empty when there is no file) and no writes, and the run's table agrees with the file |
| Store.AnimeLog.Save | anime.py:15-17 | the whole file is overwritten with the run's table, which is unchanged; the write count goes up by one |
| Records.Label | anime.py:31-34 | each of the seven selector choices maps to its stored label |
| Records.LabelsAreChoices | anime.py:31-34 | every stored label is one of the seven choices, and different genres have different labels |
| Store.NewRow | anime.py:44-49 | the new row has the stripped title (present), the chosen genre's label (one of the seven choices), the chosen rating (in 1..10) and the stripped comment |
| Store.AnimeLog.Submit | anime.py:38-54 | a title that strips to nothing gives EmptyTitle and changes nothing, file and write count included; otherwise exactly one row is appended after all old rows, the file is overwritten with the new table, and the outcome names the stripped title |
| Text.IsSpace | anime.py:41 | exactly the characters Python's `str.isspace()` accepts, which `strip()` removes |
| Text.Trim | anime.py:41 | the result is a slice of the input with only whitespace before and after it, and it neither starts nor ends with whitespace |
| Text.StrippedWhole | anime.py:41 | a string with no leading or trailing whitespace is its own stripped piece |
| Text.StripFront | anime.py:41 | peeling one leading whitespace character keeps the stripped piece, one place further into the string |
| Text.StripBack | anime.py:41 | peeling one trailing whitespace character keeps the stripped piece at the same place |
| Text.TrimEmptyIff | anime.py:41 | a title strips to the empty string exactly when every character of it is whitespace |
| Text.TrimUnchanged | anime.py:45 | a string that neither starts nor ends with whitespace strips to itself |
| Text.TrimIdempotent | anime.py:45 | stripping a stored, already stripped title again changes nothing |
| Views.GenreColumn | anime.py:60 | the genre column has one entry per row, the genre of that row |
| Views.Unique | anime.py:60 | the result has no duplicates and holds exactly the values of the input |
| Views.Insert | anime.py:60 | inserting into an ascending list keeps it ascending and adds exactly the one element |
| Views.SortedCons | anime.py:60 | putting in front of an ascending list an element no greater than any of its elements keeps it ascending |
| Views.NotLessTransitive | anime.py:60 | "not less than" on strings is transitive |
| Views.Sort | anime.py:60 | the result is ascending in code-point order and a permutation of the input |
| Text.Less | anime.py:60 | Python's string `<`: lexicographic on code points, with a proper prefix first |
| Text.LessIrreflexive | anime.py:60 | no string is less than itself |
| Text.LessAsymmetric | anime.py:60 | two strings are never each less than the other |
| Text.LessTotal | anime.py:60 | of two different strings one is less than the other |
| Text.LessTransitive | anime.py:60 | the string order is transitive |
| Views.SortKeepsDistinct | anime.py:60 | sorting a list without duplicates keeps it without duplicates and with the same elements |
| Views.SortedDistinctIsStrict | anime.py:60 | an ascending list without duplicates is strictly ascending |
| Views.GenreOptions | anime.py:60 | the options start with "All", the rest is strictly ascending, so it has no duplicates, and it holds exactly the genres some row has |
| Views.NoDuplicatesCountsOnce | anime.py:60 | in a list without duplicates every value occurs at most once |
| Views.StrictlySortedUnique | anime.py:60 | two strictly ascending lists with the same elements are equal |
| Views.GenreOptionsAreCanonical | anime.py:60 | the options are "All" followed by the one strictly ascending listing of the table's genres |
| Records.Keep | anime.py:66 | a boolean-mask selection is an order-preserving subsequence that holds every matching row as often as the table does and no other row; its length is the number of matching rows |
| Records.Count | anime.py:80-82 | the number of matching rows is at most the row count; it is 0 exactly when no row matches and the full row count exactly when every row does |
| Records.KeepEverything | anime.py:63-64 | a mask that every row passes leaves the table unchanged |
| Views.GenreMatches | anime.py:63-66 | the genre mask: "All" passes every row, any other choice only the rows of exactly that genre |
| Views.FilterGenre | anime.py:63-66 | "All" returns the table unchanged; any other genre gives exactly the rows of that genre, in table order |
| Views.OfferedIffNonEmpty | anime.py:60-66 | a genre other than "All" is offered exactly when filtering by it shows at least one row |
| Text.LowerChar | anime.py:71 | Basic Latin and full-width Latin capitals become their small letters; every other character is unchanged |
| Text.Lower | anime.py:71 | lower-casing keeps the length and lower-cases each character in place |
| Text.LowerIdempotent | anime.py:71 | lower-casing twice is lower-casing once |
| Text.Contains | anime.py:71 | true exactly when the query occurs at some position of the text |
| Text.OccursLater | anime.py:71 | an occurrence past the first position is an occurrence in the text without its first character |
| Views.TitleMatches | anime.py:71 | the search mask: the title is present and contains the search text, both lower-cased; a missing title never matches |
| Views.SearchTitle | anime.py:69-71 | an empty search text returns the rows unchanged; otherwise it gives exactly the rows whose present title contains the text when both are lower-cased, in order, and no row with a missing title |
| Views.SearchIgnoresCase | anime.py:71 | two search texts that differ only in letter case show the same rows |
| Records.KeepKeep | anime.py:66-71 | applying one mask and then another keeps exactly the rows passing both |
| Records.KeepSameMask | anime.py:66-71 | two masks that agree on every row select the same rows |
| Views.View | anime.py:63-74 | the displayed rows are an order-preserving subsequence of the table holding every row that passes both the genre filter and the search, as often as the table does, and no other row |
| Records.SubsequenceTransitive | anime.py:63-71 | a selection of a selection is a selection of the table, in table order |
| Views.ViewIsIntersection | anime.py:63-74 | the displayed rows are exactly those passing both the genre filter and the search, in table order |
| Records.KeepAppend | anime.py:52 | selecting from a table with one row appended gives the old selection, followed by that row when it matches |
| Views.AppendedRowShown | anime.py:52-71 | after a row is appended, its genre is offered, and filtering by that genre with any search text the row matches shows it after the rows shown before |
| Store.Survives | anime.py:81 | the delete mask: a row stays unless its title is exactly the given text; a missing title stays |
| Store.RemoveTitle | anime.py:81 | deletion keeps, in order, exactly the rows whose title is not exactly the given one (no stripping, case-sensitive; a missing title is kept), and no kept row has that title |
| Records.KeepSplitsCount | anime.py:80-82 | kept rows plus dropped rows make up the whole table |
| Records.CountSameMask | anime.py:80-82 | two masks that agree on every row of the table count the same rows |
| Store.RemoveTitleCount | anime.py:80-84 | deletion lowers the row count by exactly the number of rows with that title; the count falls exactly when such a row exists, and otherwise the table is unchanged |
| Store.AnimeLog.Delete | anime.py:78-90 | the table loses exactly the rows with that title; when one existed the file is overwritten and the outcome is Deleted, otherwise the outcome is NotFound and table, file and write count are unchanged |
| Store.ExampleSession | anime.py:24-90 | from no file, submitting an already stripped title registers it, deleting that title reports it deleted, and the file ends empty after exactly two writes |
| Store.SingleRowRemoval | anime.py:78-84 | a one-row table holds the row's title, and deleting that title empties the table |
| Store.SingleRowShown | anime.py:60-74 | in a one-row table the row's genre is offered, and choosing it with an empty search shows the row |
| Store.ExampleRow | anime.py:44-49 | the form builds the stored row for "Frieren" with genre ストーリー, rating 9 and comment "great" |
| Store.ExampleOptions | anime.py:60 | for a table holding that one row, the options are "All" and ストーリー |
| Store.ExampleSearch | anime.py:63-71 | with "All" selected, the search "frie" finds that row |

## Left out

- Streamlit: titles, widgets, the success and warning messages, and
  `st.experimental_rerun`. Outcomes are the `Outcome` datatype. The rerun
  re-reads the file, and `Valid()` states that this gives the same table.
- CSV persistence is modelled as a whole-table value (`Option<Table>`).
  Serialisation, field escaping and type coercion on reload are not
  modelled. Examples: an empty comment, or a title pandas treats as
  missing ("NA", "None", "null"), reads back as NaN, and a numeric-looking
  title such as "86" reads back as a number.
- Views.SearchTitle: pandas `str.contains` treats the search text as a
  regular expression (`regex=True` is the default). The model uses a plain
  substring test, so search texts with regular-expression metacharacters
  match differently; an invalid pattern raises in the program and is not
  modelled. Nor is the error raised when every title cell of the table is
  missing (for example, the only entry is titled "NA"): pandas then reads
  the title column as numbers, and a non-empty search raises in the
  program, while the model returns no rows.
- Text.LowerChar: only the Basic Latin and full-width Latin capitals are mapped.
  Python's other Unicode case mappings and the case-insensitive matching of
  its `re` module are not modelled. Japanese kana and kanji have no case.
- Text.Lower: inherits that limit, since it applies `Text.LowerChar` to each
  character.
- Missing genre, rating or comment cells are not modelled. The genre column
  is always text. In the program, sorting a column that mixes NaN with text
  raises an error.
- Titles read back as non-text cells are not modelled. For example, a
  column of numbers makes the `.str` accessor fail.
- The filter accepts any string as the selected genre. On the page the
  choice always comes from the option list. If the table held a genre
  labelled "All", that label would be offered twice. `Views.GenreOptions`
  states the options exactly, and this case is covered by it.
- Concurrent sessions writing the same file are not modelled. The program
  has no concurrency logic.
