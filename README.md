# Modest Movie Metadata: a verified model of the folder-name core

Modest Movie Metadata is a small desktop tool. It takes a movie title, a
release year and an IMDb id, looks the movie up in the IMDb database through
Cinemagoer, and builds the folder name that media servers expect:

    <title without forbidden characters> (<year>) [imdbid-<IMDb field>]

This project models the tool's core in Dafny and proves properties about it.
The core covers:

- IMDb id extraction, year coercion, the lookup with its one-year window, the
  IMDb title URL and title sanitising (`tools/movieinfo.py`);
- the main window's form: four fields, the busy indicator and the clipboard,
  updated in place by the window's handlers (`ui/mainwindow.py`);
- the disambiguation dialog's table model and row selection
  (`ui/selectrecord.py`);
- the colour-closeness test (`tools/viewutils.py`).

Files:

| file | module | models |
|---|---|---|
| `wrappers.dfy` | `Wrappers` | `Option` |
| `pystrings.dfy` | `PyStrings` | the Python `str` builtins used: `isdigit`, `strip`, `startswith`, slicing, `int(str)`, `str(int)` |
| `movieinfo.dfy` | `Movies` | `tools/movieinfo.py` |
| `mainwindow.dfy` | `Window` | `ui/mainwindow.py`; the class `MainWindow` holds the form state |
| `selectrecord.dfy` | `RecordSelection` | `ui/selectrecord.py`; the class `SelectRecord` holds the dialog state |
| `viewutils.dfy` | `ViewUtils` | `close_color` in `tools/viewutils.py` |
| `scenarios.dfy` | `Scenarios` | worked examples derived from the general definitions |

The year spin box is modelled as Qt keeps it: a value, clamped into the range
1894 to 2080 set at `mainwindow.py:65`, and a text that `clear()` empties while
the value stays. `generateOutput` reads the text (`Shown` is 0 while it is
empty); `getButtonClicked` reads the value. So, as written, a cleared spin
box still sends its kept value (1894 after a reset) with every lookup, the
check for an entirely empty form never stops one, and a title search from a
cleared box is filtered to 1893 to 1895 (`LookupFromSpinBox`,
`Scenarios.TitleSearchFromClearedBox`, `Scenarios.ClearedBoxFiltersResults`).

The two Cinemagoer calls, `get_movie` and `search_movie`, are function
parameters of `FetchMovieInfo`. Each returns `Failed` (the `IMDbError` case)
or an answer. The window's invariant `MainWindow.Valid()` says that the
folder label always shows `FolderName` of the current title, year and IMDb
text. Every handler that can be called on a valid window keeps it valid.

The main window puts the IMDb field into the bracket exactly as it is, so the
field "tt0111161" gives "[imdbid-tt0111161]".
`getButtonClicked` drops the first two characters of the IMDb field without
checking that they are "tt". The model keeps both behaviours as written.
`Scenarios.BareNumberLosesTwoDigits` shows the second one.

## Model

| member | source | states |
|---|---|---|
| Movies.DigitRun | src/modestmoviemetadata/tools/movieinfo.py:20 | the greedy `\d+` run: every character in it is a digit, and the character after it is not (or the text ends) |
| Movies.LeftmostMatch | src/modestmoviemetadata/tools/movieinfo.py:20 | `re.search` scanning: `None` exactly when `tt` followed by a digit starts nowhere at or after `i`; otherwise the first such position |
| Movies.GetImdb | src/modestmoviemetadata/tools/movieinfo.py:19-23 | a non-empty result is "tt" followed by one or more digits |
| Movies.GetImdbEmpty | src/modestmoviemetadata/tools/movieinfo.py:19-23 | `get_imdb` returns "" exactly when no `tt` in the text is immediately followed by a digit |
| Movies.GetImdbAt | src/modestmoviemetadata/tools/movieinfo.py:20-22 | at the leftmost match, `get_imdb` returns `tt` with the whole digit run after it, and the result occurs in the text at that position |
| Movies.GetImdbIdempotent | src/modestmoviemetadata/tools/movieinfo.py:20-22 | `get_imdb` applied to its own non-empty result returns it unchanged |
| Movies.GetYear | src/modestmoviemetadata/tools/movieinfo.py:26-32 | an integer year is kept; a missing year or text `int()` rejects becomes 0; numeric text becomes its value |
| Movies.GetYearOfText | src/modestmoviemetadata/tools/movieinfo.py:26-32 | a year delivered as its decimal text is read back exactly |
| Movies.ToMovieInfo | src/modestmoviemetadata/tools/movieinfo.py:63-67 | one record carries the backend title, the coerced year and the backend id |
| Movies.AllInfos | src/modestmoviemetadata/tools/movieinfo.py:61-69 | without a year, one record per backend result, in backend order |
| Movies.NearYear | src/modestmoviemetadata/tools/movieinfo.py:78 | the window test of the comprehension: the coerced year lies in `[year - 1, year + 1]` |
| Movies.InfosNear | src/modestmoviemetadata/tools/movieinfo.py:70-79 | with a year, every kept record is within one year of it, every backend movie within one year is kept, and nothing else is |
| Movies.InfosNearAppend | src/modestmoviemetadata/tools/movieinfo.py:71-79 | the year filter distributes over concatenation, so it keeps backend order |
| Movies.InfosNearKeepsAll | src/modestmoviemetadata/tools/movieinfo.py:70-79 | when every backend movie is within one year, the filter drops nothing |
| Movies.FetchMovieInfo | src/modestmoviemetadata/tools/movieinfo.py:35-79 | an id lookup gives one record carrying the requested id; a backend error on either path gives `None`, not an empty list; a title search gives all results without a year and with a year exactly `InfosNear` of the results, those within one year of it |
| Movies.MakeImdbUrl | src/modestmoviemetadata/tools/movieinfo.py:82-83 | the URL is "https://www.imdb.com/title/tt", then the id, then "/" |
| Movies.MakeImdbUrlInjective | src/modestmoviemetadata/tools/movieinfo.py:82-83 | different ids give different URLs |
| Movies.GetImdbOfUrl | src/modestmoviemetadata/tools/movieinfo.py:19-23 | `get_imdb` reads "tt" plus the id back from the title URL of a numeric id |
| Movies.Without | src/modestmoviemetadata/tools/movieinfo.py:88 | deleting characters never lengthens a text, and no deleted character is left |
| Movies.WithoutWithout | src/modestmoviemetadata/tools/movieinfo.py:87-88 | deleting one set of characters and then another deletes their union |
| Movies.WithoutAppend | src/modestmoviemetadata/tools/movieinfo.py:88 | deletion distributes over concatenation, so the kept characters stay in order |
| Movies.WithoutAbsent | src/modestmoviemetadata/tools/movieinfo.py:88 | deleting characters that do not occur changes nothing |
| Movies.WithoutCounts | src/modestmoviemetadata/tools/movieinfo.py:86-89 | every character outside the deleted set is kept as many times as it occurs; deleted ones occur zero times |
| Movies.Sanitised | src/modestmoviemetadata/tools/movieinfo.py:86-89 | the sanitised title is no longer than the title and holds none of the eleven characters `sanitise_title` removes |
| Movies.ForbiddenPrefix | src/modestmoviemetadata/tools/movieinfo.py:87 | the characters removed after `k` rounds of the loop are the first `k` of the forbidden string |
| Movies.SanitiseTitle | src/modestmoviemetadata/tools/movieinfo.py:86-89 | the loop that removes one forbidden character per round returns exactly the title with all eleven deleted |
| Movies.ForbiddenPrefixAll | src/modestmoviemetadata/tools/movieinfo.py:87 | after all rounds the removed set is exactly the eleven forbidden characters |
| Movies.SanitisedIdempotent | src/modestmoviemetadata/tools/movieinfo.py:86-89 | sanitising twice is sanitising once |
| Movies.SanitisedClean | src/modestmoviemetadata/tools/movieinfo.py:86-89 | a title with no forbidden character is unchanged |
| Movies.SanitisedAppend | src/modestmoviemetadata/tools/movieinfo.py:86-89 | sanitising a concatenation sanitises each part |
| Movies.SanitisedDropsForbidden | src/modestmoviemetadata/tools/movieinfo.py:86-89 | a forbidden character between two clean parts is deleted and the parts are kept |
| PyStrings.IsDigits | src/modestmoviemetadata/ui/mainwindow.py:242 | `str.isdigit()`: at least one character and every character an ASCII digit |
| PyStrings.StartsWith | src/modestmoviemetadata/ui/mainwindow.py:199 | `str.startswith(p)`: the first `|p|` characters are `p` |
| PyStrings.StartsWithSplit | src/modestmoviemetadata/ui/mainwindow.py:199 | `s.startswith(p)` holds exactly when `s` is `p` followed by more text |
| PyStrings.Drop | src/modestmoviemetadata/ui/mainwindow.py:241 | `s[2:]` holds the characters after the first two, and is empty for a shorter text |
| PyStrings.Strip | src/modestmoviemetadata/ui/mainwindow.py:233-235 | the stripped text is no longer and has no white space at either end |
| PyStrings.StripRemovesOnlySpace | src/modestmoviemetadata/ui/mainwindow.py:233-235 | `strip` removes a run of white space at each end and nothing else: the result is the part of the text between them |
| PyStrings.StripUnpadded | src/modestmoviemetadata/ui/mainwindow.py:233-235 | a text without white space at either end is unchanged by `strip` |
| PyStrings.StripIdempotent | src/modestmoviemetadata/ui/mainwindow.py:233-235 | `strip` is idempotent |
| PyStrings.NatToString | src/modestmoviemetadata/ui/mainwindow.py:207 | a year's text is one or more digits without a leading zero |
| PyStrings.IntToString | src/modestmoviemetadata/ui/mainwindow.py:207 | the text of a negative number is a minus sign and digits |
| PyStrings.ParseInt | src/modestmoviemetadata/tools/movieinfo.py:28-29 | `int()` succeeds exactly on optional white space, an optional sign and one or more digits |
| PyStrings.ParseIntOfIntToString | src/modestmoviemetadata/tools/movieinfo.py:28 | `int(str(n)) == n` |
| Window.YearText | src/modestmoviemetadata/ui/mainwindow.py:207-209 | the year text is empty exactly when the shown year is 0 (cleared), and digits for a positive year |
| Window.SetValue | src/modestmoviemetadata/ui/mainwindow.py:283 | `setValue` clamps the value into 1894..2080 and shows it: kept inside the range, the nearest bound outside it |
| Window.Shown | src/modestmoviemetadata/ui/mainwindow.py:207 | the year the spin box text shows is 0 exactly when the text was cleared, and otherwise the value |
| Window.YearTextReadsBack | src/modestmoviemetadata/ui/mainwindow.py:207 | the year text of a shown year reads back as that year with `int()`, and a positive year has no leading zero, so the text is exactly `str(year)` |
| Window.FolderName | src/modestmoviemetadata/ui/mainwindow.py:205-215 | the folder name is empty exactly when the title or the year text is empty |
| Window.FolderNameLegal | src/modestmoviemetadata/ui/mainwindow.py:205-215 | the folder name holds no forbidden character whenever the IMDb field holds none |
| Window.FolderNameCarriesId | src/modestmoviemetadata/ui/mainwindow.py:165-215 | `get_imdb` of a copied folder name is the IMDb field, when the IMDb field is "tt" followed by digits and the sanitised title holds no `tt<digit>`, so the clipboard watcher does not react to the program's own copy |
| Window.FolderNameWithoutId | src/modestmoviemetadata/ui/mainwindow.py:212-215 | with the IMDb field empty the name is the sanitised title and " (year)", with no bracket |
| Window.FolderNameWithId | src/modestmoviemetadata/ui/mainwindow.py:212-214 | with a non-empty IMDb field the folder name is the name without it followed by " [imdbid-", the field as it is, and "]" |
| Window.FolderNameOfLegalTitle | src/modestmoviemetadata/ui/mainwindow.py:212-215 | a title with nothing to sanitise appears verbatim: title, " (", year, ") [imdbid-", IMDb field, "]" |
| Window.LookupRequest | src/modestmoviemetadata/ui/mainwindow.py:231-243 | no lookup when title, year and IMDb text are all empty, or when the IMDb text after two characters is not all digits; otherwise the stripped title, the spin box value (`None` for 0) and the IMDb text without its first two characters |
| Window.ImdbPasteTriggers | src/modestmoviemetadata/ui/mainwindow.py:189 | the paste test: starts with "tt", longer than 2, and the rest is all digits |
| Window.IdOnlyRequest | src/modestmoviemetadata/ui/mainwindow.py:231-243 | with an empty title, "tt<digits>" asks for exactly those digits, with whatever year the spin box holds |
| Window.UrlLookup | src/modestmoviemetadata/ui/mainwindow.py:165-172 | an IMDb title URL on the clipboard leads to a lookup of its id, with the year the cleared spin box keeps |
| Window.LookupFromSpinBox | src/modestmoviemetadata/ui/mainwindow.py:231-243 | with the spin box value in its range, a lookup is refused only for a bad IMDb text, and it always carries the value as its year |
| Window.NormalisedImdb | src/modestmoviemetadata/ui/mainwindow.py:196-202 | text starting with "tt", or without an id in it, is kept; otherwise it becomes the id `get_imdb` finds, whenever one is found |
| Window.NormalisedUrl | src/modestmoviemetadata/ui/mainwindow.py:196-202 | an IMDb title URL typed into the IMDb field becomes "tt" plus its id |
| Window.NormalisedImdbIdempotent | src/modestmoviemetadata/ui/mainwindow.py:196-202 | rewriting the IMDb field twice is rewriting it once |
| Window.ChosenRecord | src/modestmoviemetadata/ui/mainwindow.py:251-266 | no record after a failed lookup or zero results, the only one when there is one, and with several only the row the user picked |
| Window.AppliedWithoutDialog | src/modestmoviemetadata/ui/mainwindow.py:251-266 | without a dialog pick, a record is applied exactly when the lookup found one record |
| Window.DialogPickApplied | src/modestmoviemetadata/ui/selectrecord.py:135-139 | a double-click on the title or year cell of a row applies that row's record, the one whose title the row shows |
| Window.DialogClosedAppliesNothing | src/modestmoviemetadata/ui/mainwindow.py:263-267 | with several records, closing the dialog without a pick applies nothing |
| Window.Merged | src/modestmoviemetadata/ui/mainwindow.py:275-290 | a non-empty title replaces the title and a non-zero year is set (clamped) into the spin box; the IMDb field becomes "tt<id>" only when it is empty, so an id there is never overwritten |
| Window.MergedIdempotent | src/modestmoviemetadata/ui/mainwindow.py:275-290 | applying the same record twice is applying it once |
| Window.MainWindow.constructor | src/modestmoviemetadata/ui/mainwindow.py:35-139 | a new window has empty fields, a cleared spin box holding 1894, an empty label, and is valid |
| Window.MainWindow.GenerateOutput | src/modestmoviemetadata/ui/mainwindow.py:205-215 | the label becomes the folder name of the current fields |
| Window.MainWindow.CopyButtonClicked | src/modestmoviemetadata/ui/mainwindow.py:217-221 | the clipboard gets the label only when the label is non-empty |
| Window.MainWindow.ResetButtonClicked | src/modestmoviemetadata/ui/mainwindow.py:223-229 | title, IMDb field and label are empty and the spin box is cleared, holding 1894 |
| Window.MainWindow.GetButtonClicked | src/modestmoviemetadata/ui/mainwindow.py:231-249 | the lookup started is `LookupRequest` of the title, the spin box value and the IMDb text; it carries the value as its year; the busy indicator starts exactly when one is |
| Window.MainWindow.TitleEditTextEdited | src/modestmoviemetadata/ui/mainwindow.py:174-176 | the title is the edited text and the label follows it |
| Window.MainWindow.TitleEditPasted | src/modestmoviemetadata/ui/mainwindow.py:178-182 | the pasted title is kept and everything else is cleared |
| Window.MainWindow.YearSpinboxValueChanged | src/modestmoviemetadata/ui/mainwindow.py:192-194 | the spin box holds the new value, clamped, and the label follows it |
| Window.MainWindow.ImdbEditTextEdited | src/modestmoviemetadata/ui/mainwindow.py:196-203 | the IMDb field is the edited text rewritten by `NormalisedImdb`, and the label follows it |
| Window.MainWindow.ImdbEditPasted | src/modestmoviemetadata/ui/mainwindow.py:184-190 | the pasted text is kept, everything else cleared (the spin box keeps 1894), and a lookup of its digits starts exactly when it is "tt" followed by digits |
| Window.MainWindow.ClipboardDataChanged | src/modestmoviemetadata/ui/mainwindow.py:165-172 | an id in the clipboard that differs from the IMDb field replaces the form and is looked up with the year 1894; otherwise nothing changes |
| Window.MainWindow.SetMovieInfo | src/modestmoviemetadata/ui/mainwindow.py:275-290 | the fields become `Merged` of the old fields and the record |
| Window.MainWindow.MovieInfoExtracted | src/modestmoviemetadata/ui/mainwindow.py:251-273 | the busy indicator stops; the chosen record, if any, is merged, the label regenerated and copied; with none, the fields stay as they were |
| Window.MainWindow.MovieInfoException | src/modestmoviemetadata/ui/mainwindow.py:292-297 | the busy indicator stops and nothing else changes |
| RecordSelection.RowCount | src/modestmoviemetadata/ui/selectrecord.py:76-77 | one row per record |
| RecordSelection.ColumnCount | src/modestmoviemetadata/ui/selectrecord.py:70-80 | the column count equals the number of header labels |
| RecordSelection.HeaderData | src/modestmoviemetadata/ui/selectrecord.py:82-94 | the horizontal display header of section i is ("Title", "Year", "IMDb")[i], the vertical one i + 1, and every other role has none |
| RecordSelection.Data | src/modestmoviemetadata/ui/selectrecord.py:96-118 | nothing for an invalid index or another role; blue foreground in column 2; title, year, then the IMDb URL for display and the raw id for the user role |
| RecordSelection.HeadersCoverTable | src/modestmoviemetadata/ui/selectrecord.py:70-94 | every column the model reports has a non-empty header label, and every row its 1-based number |
| RecordSelection.RowsShowRecords | src/modestmoviemetadata/ui/selectrecord.py:76-112 | every row the model reports shows its own record's title and year |
| RecordSelection.ImdbCellLinksToStoredId | src/modestmoviemetadata/ui/selectrecord.py:113-118 | the URL shown in an IMDb cell is the title page of the id stored there, and `get_imdb` reads that id back from it |
| RecordSelection.CellDoubleClicked | src/modestmoviemetadata/ui/selectrecord.py:135-139 | a double-click selects a row exactly when the index is valid and in column 0 or 1, and the row is the clicked one |
| RecordSelection.SelectRecord.constructor | src/modestmoviemetadata/ui/selectrecord.py:31-46 | no row is chosen until a selection |
| RecordSelection.SelectRecord.TableMovieSelected | src/modestmoviemetadata/ui/selectrecord.py:59-62 | the clicked row is stored and the dialog accepted |
| RecordSelection.SelectRecord.Reject | src/modestmoviemetadata/ui/selectrecord.py:39-40 | closing rejects the dialog and keeps the row |
| RecordSelection.SelectRecord.DoubleClick | src/modestmoviemetadata/ui/selectrecord.py:135-139 | a selecting double-click stores its row and accepts; any other changes nothing |
| ViewUtils.CloseColor | src/modestmoviemetadata/tools/viewutils.py:23-29 | close exactly when the summed absolute differences of red, green and blue are below 30 |
| ViewUtils.CloseColorReflexive | src/modestmoviemetadata/tools/viewutils.py:23-29 | every colour is close to itself |
| ViewUtils.CloseColorSymmetric | src/modestmoviemetadata/tools/viewutils.py:25-28 | closeness is symmetric |
| ViewUtils.CloseColorIgnoresAlpha | src/modestmoviemetadata/tools/viewutils.py:25-27 | the alpha channel is never consulted |
| ViewUtils.CloseColorStrict | src/modestmoviemetadata/tools/viewutils.py:28 | a total difference of exactly 30 is not close |
| Scenarios.YearText1994 | src/modestmoviemetadata/ui/mainwindow.py:207 | the year 1994 is shown as "1994" |
| Scenarios.FolderNameShawshank | src/modestmoviemetadata/ui/mainwindow.py:205-215 | "The Shawshank Redemption", 1994 and "tt0111161" give "The Shawshank Redemption (1994) [imdbid-tt0111161]" |
| Scenarios.SanitisedSe7en | src/modestmoviemetadata/tools/movieinfo.py:86-89 | "Se7en: Director's Cut" loses only its colon |
| Scenarios.BareNumberLosesTwoDigits | src/modestmoviemetadata/ui/mainwindow.py:235-243 | an IMDb field "0111161" without "tt" asks for "11161" |
| Scenarios.OwnCopyFindsIdInTitle | src/modestmoviemetadata/ui/mainwindow.py:165-172 | the label copied for "Mutt3", 2001, "tt0123456" gives `get_imdb` "tt3", not the IMDb field, so the clipboard handler would reset the form and look up "3" |
| Scenarios.TitleSearchFromClearedBox | src/modestmoviemetadata/ui/mainwindow.py:223-243 | on a reset form the spin box shows nothing, yet a title search asks for 1894 |
| Scenarios.ClearedBoxFiltersResults | src/modestmoviemetadata/tools/movieinfo.py:70-79 | a title search with the reset spin box's 1894 keeps only results from 1893 to 1895 |
| Scenarios.ShawshankById | src/modestmoviemetadata/ui/mainwindow.py:231-290 | "tt0111161" on a reset form asks for "0111161" (with 1894 as the year); the single answer is applied automatically; the folder name keeps the field verbatim |

## Left out

- The Cinemagoer calls `get_movie` and `search_movie` are parameters of `FetchMovieInfo`. The network, the backend itself, and Cinemagoer's own conversions are not modelled. A missing backend title is modelled as "".
- The worker thread pool, the `Worker` signals and the progress callback are left out. `GetButtonClicked` returns the request it would hand to the worker. The window receives the worker's result through `MovieInfoExtracted` or `MovieInfoException`.
- The single-instance IPC, logging, file tools, startup, resources, audio and the `ic(...)` debug calls are left out. They do I/O and do not affect the folder name.
- Widget layout, styling, the about dialog, the custom line edit and spin box widgets, and `boxBorderColor` are left out. They render pixels.
- Qt signal dispatch is left out. The handlers are methods called directly. Signals blocked during `setMovieInfo` are simply not called. A `setText` that does not fire `textEdited` does not regenerate the label, as in Qt. The clipboard change that the window's own copy causes is not re-delivered to `ClipboardDataChanged`. When the IMDb field is "tt" followed by digits and the sanitised title holds no "tt" followed by a digit, `FolderNameCarriesId` shows that the copy reads back as the field, so that call would change nothing. Outside those conditions the copy can read back as a different id, and then that call resets the form and starts a second lookup: `Scenarios.OwnCopyFindsIdInTitle` shows the copy of "Mutt3", 2001, "tt0123456" reading back as "tt3", and a field with trailing white space such as "tt0111161 " also reads back differently.
- `QTimer.singleShot(0, ...)` defers the copy after a record is applied. `MovieInfoExtracted` performs the copy at once.
- The spin box's `valueChanged` is modelled as firing on every value the user enters. Qt does not fire it when the user empties the box by hand or retypes the value it kept, so in the program the label can then lag behind the spin box. The model does not capture that lag.
- `MovieInfo.year` is an `int`, with 0 for Python's `None`. A float year from the backend, truncated by `int()`, is not modelled.
- PyStrings.IsDigit: only ASCII digits count. Python's `\d` also matches other Unicode decimal digits, and `str.isdigit` accepts every Unicode digit character, including ones that are not decimal such as '²', so "tt²" passes the test of `getButtonClicked`.
- PyStrings.IsSpace: only ASCII white space counts. `int()` and `strip` also skip Unicode spaces.
- PyStrings.ParseInt: underscores between digits are not accepted, although Python's `int()` accepts them.
- The web browser opened by a single click on an IMDb cell (`cellClicked`) is left out. It is external I/O.
- RecordSelection.HeaderData: requires a horizontal display section within the three columns. Qt never asks for any other section. Python's tuple indexing would return a label for sections -3 to -1 and raise `IndexError` above 2 or below -3; neither case is modelled.
- RecordSelection.Data: requires a display or user row within the records. Qt only asks for existing rows.
- Window.MainWindow.MovieInfoExtracted: requires that the dialog's row is one of the records. The dialog only reports rows of its own table.
- Window.FolderName: its own contract states only when the name is empty. Its layout is stated by lemmas: `FolderNameWithoutId` for an empty IMDb field, `FolderNameWithId` for a non-empty one (together they give the layout for every title), `FolderNameOfLegalTitle` for a clean title with an IMDb field, `FolderNameLegal` for its characters, and `FolderNameCarriesId` for the id read back from it.
- PyStrings.Strip: its own contract states the shape of the result. That the result is the original text with only white space removed at each end is stated by `StripRemovesOnlySpace`, kept apart so that every caller does not carry it.
- Window.YearText: its own contract states when the text is empty and that it is digits. That it reads back as the shown year, without a leading zero, is stated by `YearTextReadsBack`.
