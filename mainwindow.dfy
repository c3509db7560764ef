/**
 * ui/mainwindow.py: the form behind the main window. Four fields (title text,
 * year, IMDb text, folder label) plus the busy indicator and the clipboard;
 * each handler updates them in place. `Valid()` says the folder label always
 * shows the folder name of the current fields.
 */
module Window {
  import opened Wrappers
  import opened PyStrings
  import opened Movies
  import RecordSelection

  /** The arguments `getButtonClicked` hands to `fetch_movie_info`. */
  datatype Request = Request(title: string, year: Option<int>, imdbId: string)

  /** The year spin box's range, set when the window is built. */
  const MinYear: int := 1894
  const MaxYear: int := 2080

  /**
   * The year spin box: its `value()` and whether its text has been cleared.
   * `clear()` empties the text and keeps the value.
   */
  datatype SpinBox = SpinBox(value: int, cleared: bool)

  /** `setValue(v)`: the spin box clamps `v` into its range and shows it. */
  function SetValue(v: int): (b: SpinBox)
    ensures MinYear <= b.value <= MaxYear && !b.cleared
    ensures MinYear <= v <= MaxYear ==> b.value == v
    ensures v < MinYear ==> b.value == MinYear
    ensures v > MaxYear ==> b.value == MaxYear
  {
    SpinBox(if v < MinYear then MinYear else if v > MaxYear then MaxYear else v, false)
  }

  /** A reset spin box: `setValue(0)` clamps to the minimum, then `clear()` empties the text. */
  const ClearedBox: SpinBox := SpinBox(MinYear, true)

  /** The year the spin box's text shows: 0 while the text is empty. */
  function Shown(b: SpinBox): (year: int)
    requires MinYear <= b.value
    ensures year == 0 <==> b.cleared
    ensures !b.cleared ==> year == b.value
  {
    if b.cleared then 0 else b.value
  }

  /** The three input fields: title text, year spin box, IMDb text. */
  datatype Fields = Fields(title: string, year: SpinBox, imdb: string)

  /** The year spin box's text for the year it shows: empty when that is 0 (cleared). */
  function YearText(year: int): (r: string)
    ensures r == "" <==> year == 0
    ensures year > 0 ==> IsDigits(r)
  {
    if year == 0 then "" else IntToString(year)
  }

  /**
   * The year text reads back as the year, `int(text) == year`, and a positive
   * year is written without a leading zero: the text is exactly `str(year)`.
   */
  lemma YearTextReadsBack(year: int)
    requires year != 0
    ensures ParseInt(YearText(year)) == Some(year)
    ensures year > 0 ==> |YearText(year)| == 1 || YearText(year)[0] != '0'
  {
    ParseIntOfIntToString(year);
  }

  /**
   * `generateOutput`: "<sanitised title> (<year>)", followed by
   * " [imdbid-<IMDb text>]" when the IMDb field is not empty; nothing at all
   * unless both title and year are filled in.
   */
  function FolderName(title: string, year: int, imdb: string): (name: string)
    ensures name == "" <==> title == "" || year == 0
  {
    if title == "" || YearText(year) == "" then ""
    else
      var text := Sanitised(title) + " (" + YearText(year) + ")";
      if imdb != "" then text + " [imdbid-" + imdb + "]" else text
  }

  /** The folder name is a legal folder name whenever the IMDb text is. */
  lemma FolderNameLegal(title: string, year: int, imdb: string)
    requires Legal(imdb)
    ensures Legal(FolderName(title, year, imdb))
  {
    if title != "" && year != 0 {
      var y := YearText(year);
      assert Legal(y) by {
        if year < 0 {
          assert forall i :: 1 <= i < |y| ==> y[i] == y[1..][i - 1];
        }
      }
      LegalAppend(Sanitised(title), " (");
      LegalAppend(Sanitised(title) + " (", y);
      LegalAppend(Sanitised(title) + " (" + y, ")");
      if imdb != "" {
        var text := Sanitised(title) + " (" + y + ")";
        LegalAppend(text, " [imdbid-");
        LegalAppend(text + " [imdbid-", imdb);
        LegalAppend(text + " [imdbid-" + imdb, "]");
      }
    }
  }

  /**
   * No match starts in `s + mid` when `get_imdb` finds none in `s`, `mid`
   * holds no 't' and begins with something other than a digit.
   */
  lemma NoMatchInFront(s: string, mid: string, rest: string)
    requires GetImdb(s) == ""
    requires |mid| > 0 && !IsDigit(mid[0])
    requires forall i :: 0 <= i < |mid| ==> mid[i] != 't'
    ensures forall j :: 0 <= j < |s + mid| ==> !MatchAt(s + mid + rest, j)
  {
    GetImdbEmpty(s);
    var t := s + mid + rest;
    forall j | 0 <= j < |s| + |mid| ensures !MatchAt(t, j) {
      if j + 2 < |s| {
        assert t[j] == s[j] && t[j + 1] == s[j + 1] && t[j + 2] == s[j + 2];
        assert !MatchAt(s, j);
      } else if j < |s| {
        assert t[|s|] == mid[0];
      } else {
        assert t[j] == mid[j - |s|];
      }
    }
  }

  /** The text between the title and the IMDb text in a folder name holds no 't'. */
  lemma FolderNameMiddle(year: int)
    requires year != 0
    ensures forall i :: 0 <= i < |" (" + YearText(year) + ") [imdbid-"| ==> (" (" + YearText(year) + ") [imdbid-")[i] != 't'
  {
    var y := YearText(year);
    var mid := " (" + y + ") [imdbid-";
    assert forall i :: 0 <= i < |y| ==> y[i] == '-' || IsDigit(y[i]) by {
      if year < 0 {
        assert forall i :: 1 <= i < |y| ==> y[i] == y[1..][i - 1];
      }
    }
    assert forall i :: 2 <= i < 2 + |y| ==> mid[i] == y[i - 2];
    assert forall i :: 2 + |y| <= i < |mid| ==> mid[i] == ") [imdbid-"[i - 2 - |y|];
  }

  /** With no match in `front`, `get_imdb` finds the "tt<digits>" that follows it. */
  lemma GetImdbAfterFront(front: string, imdb: string)
    requires StartsWith(imdb, "tt") && IsDigits(imdb[2..])
    requires forall j :: 0 <= j < |front| ==> !MatchAt(front + imdb + "]", j)
    ensures GetImdb(front + imdb + "]") == imdb
  {
    var text := front + imdb + "]";
    var k := |front|;
    assert text[k..k + |imdb|] == imdb;
    assert MatchAt(text, k);
    GetImdbAt(text, k);
    DigitRunExact(text, k + 2, |imdb| - 2);
  }

  /**
   * The IMDb id `get_imdb` reads back from a copied folder name is the IMDb
   * field, as long as the sanitised title itself holds no `tt` followed by a
   * digit. So the clipboard watcher ignores the name the program just copied.
   */
  lemma FolderNameCarriesId(title: string, year: int, imdb: string)
    requires title != "" && year != 0
    requires StartsWith(imdb, "tt") && IsDigits(imdb[2..])
    requires GetImdb(Sanitised(title)) == ""
    ensures GetImdb(FolderName(title, year, imdb)) == imdb
  {
    var s := Sanitised(title);
    var mid := " (" + YearText(year) + ") [imdbid-";
    var name := FolderName(title, year, imdb);
    assert name == s + mid + imdb + "]";
    assert forall j :: 0 <= j < |s + mid| ==> !MatchAt(name, j) by {
      FolderNameMiddle(year);
      NoMatchInFront(s, mid, imdb + "]");
      assert s + mid + (imdb + "]") == name;
    }
    GetImdbAfterFront(s + mid, imdb);
  }

  /** With the IMDb field empty the folder name has no bracket: title and year only. */
  lemma FolderNameWithoutId(title: string, year: int)
    requires title != "" && year != 0
    ensures FolderName(title, year, "") == Sanitised(title) + " (" + YearText(year) + ")"
    ensures FolderName(title, year, "")[|FolderName(title, year, "")| - 1] == ')'
  {
  }

  /**
   * With an IMDb field the folder name is the name without it followed by the
   * field, verbatim, in " [imdbid-...]".
   */
  lemma FolderNameWithId(title: string, year: int, imdb: string)
    requires title != "" && year != 0 && imdb != ""
    ensures FolderName(title, year, imdb) == FolderName(title, year, "") + " [imdbid-" + imdb + "]"
  {
  }

  /** A title with nothing to sanitise appears verbatim in the folder name. */
  lemma FolderNameOfLegalTitle(title: string, year: int, imdb: string)
    requires title != "" && year != 0 && imdb != ""
    requires Legal(title)
    ensures FolderName(title, year, imdb) == title + " (" + YearText(year) + ") [imdbid-" + imdb + "]"
  {
    SanitisedClean(title);
    var y := YearText(year);
    assert FolderName(title, year, imdb) == title + " (" + y + ")" + " [imdbid-" + imdb + "]";
    assert (title + " (" + y + ")") + " [imdbid-" == title + " (" + y + ") [imdbid-";
  }

  /**
   * `getButtonClicked`'s checks: no lookup when title, year and IMDb text are
   * all empty, or when the IMDb text after its first two characters is not all
   * digits; otherwise the stripped title, the year (`None` for 0) and the IMDb
   * text without its first two characters.
   */
  function LookupRequest(title: string, year: int, imdb: string): (r: Option<Request>)
    ensures r.None? <==> (Strip(title) == "" && year == 0 && Strip(imdb) == "")
                         || (Strip(imdb) != "" && !IsDigits(Drop(Strip(imdb), 2)))
    ensures r.Some? ==> r.value.title == Strip(title) && (r.value.year.None? <==> year == 0)
    ensures r.Some? && year != 0 ==> r.value.year == Some(year)
    ensures r.Some? ==> (r.value.imdbId == "" <==> Strip(imdb) == "")
    ensures r.Some? && r.value.imdbId != "" ==> IsDigits(r.value.imdbId) && r.value.imdbId == Strip(imdb)[2..]
  {
    var t := Strip(title);
    var y := if year == 0 then None else Some(year);
    var id := Strip(imdb);
    if t == "" && y.None? && id == "" then None
    else if id != "" && !IsDigits(Drop(id, 2)) then None
    else Some(Request(t, y, if id != "" then Drop(id, 2) else ""))
  }

  /** `imdbEditPasted`'s test: "tt" and then one or more digits. */
  predicate ImdbPasteTriggers(text: string) {
    StartsWith(text, "tt") && |text| > 2 && IsDigits(text[2..])
  }

  /**
   * With an empty title, an IMDb text "tt<digits>" asks for exactly those
   * digits, whatever year the spin box holds.
   */
  lemma {:induction false} IdOnlyRequest(text: string, year: int)
    requires ImdbPasteTriggers(text)
    ensures LookupRequest("", year, text) == Some(Request("", if year == 0 then None else Some(year), text[2..]))
  {
    assert !IsSpace(text[|text| - 1]) by {
      assert text[|text| - 1] == text[2..][|text| - 3];
    }
    StripUnpadded(text);
    StripUnpadded("");
  }

  /** An IMDb title URL on the clipboard leads to a lookup of the id in it. */
  lemma UrlLookup(imdbId: string)
    requires IsDigits(imdbId)
    ensures LookupRequest("", MinYear, GetImdb(MakeImdbUrl(imdbId))) == Some(Request("", Some(MinYear), imdbId))
  {
    GetImdbOfUrl(imdbId);
    assert ("tt" + imdbId)[2..] == imdbId;
    IdOnlyRequest("tt" + imdbId, MinYear);
  }

  /**
   * The spin box's value is never 0, so `value() or None` is never `None`:
   * the "nothing filled in" check never stops a lookup, and a title search
   * from a cleared spin box is still filtered by the value it kept.
   */
  lemma LookupFromSpinBox(title: string, b: SpinBox, imdb: string)
    requires MinYear <= b.value <= MaxYear
    ensures LookupRequest(title, b.value, imdb).None? <==> Strip(imdb) != "" && !IsDigits(Drop(Strip(imdb), 2))
    ensures LookupRequest(title, b.value, imdb).Some? ==> LookupRequest(title, b.value, imdb).value.year == Some(b.value)
  {
  }

  /**
   * `imdbEditTextEdited`'s rewrite of the IMDb text: text not starting with
   * "tt" is replaced by the id `get_imdb` finds in it, if it finds one.
   */
  function NormalisedImdb(text: string): (r: string)
    ensures r == text || (r == GetImdb(text) && r != "")
    ensures StartsWith(text, "tt") || GetImdb(text) == "" ==> r == text
    ensures !StartsWith(text, "tt") && GetImdb(text) != "" ==> r == GetImdb(text)
    ensures r != text ==> StartsWith(r, "tt") && IsDigits(r[2..])
  {
    if !StartsWith(text, "tt") && GetImdb(text) != "" then GetImdb(text) else text
  }

  /** Typing or pasting an IMDb title URL into the field turns it into "tt<id>". */
  lemma NormalisedUrl(imdbId: string)
    requires IsDigits(imdbId)
    ensures NormalisedImdb(MakeImdbUrl(imdbId)) == "tt" + imdbId
  {
    GetImdbOfUrl(imdbId);
    var url := MakeImdbUrl(imdbId);
    assert !StartsWith(url, "tt") by {
      assert url[..2][0] == url[0] == 'h';
    }
  }

  /** Rewriting the IMDb text twice is rewriting it once. */
  lemma NormalisedImdbIdempotent(text: string)
    ensures NormalisedImdb(NormalisedImdb(text)) == NormalisedImdb(text)
  {
    var r := NormalisedImdb(text);
    if r != text {
      assert StartsWith(r, "tt");
    }
  }

  /**
   * `movieInfoExtracted`'s choice of record: none after a failed lookup or
   * with no results, the only one when there is exactly one, and otherwise the
   * row picked in the disambiguation dialog, if the user picked one.
   */
  function ChosenRecord(infos: Option<seq<MovieInfo>>, dialogRow: Option<int>): (r: Option<MovieInfo>)
    requires infos.Some? && |infos.value| > 1 && dialogRow.Some? ==> 0 <= dialogRow.value < |infos.value|
    ensures r.Some? ==> infos.Some? && r.value in infos.value
    ensures infos.None? || infos.value == [] ==> r.None?
    ensures infos.Some? && |infos.value| == 1 ==> r == Some(infos.value[0])
    ensures infos.Some? && |infos.value| > 1 ==> (r.Some? <==> dialogRow.Some?)
    ensures infos.Some? && |infos.value| > 1 && dialogRow.Some? ==> r == Some(infos.value[dialogRow.value])
  {
    match infos
    case None => None
    case Some(s) =>
      if |s| == 1 then Some(s[0])
      else if |s| > 1 && dialogRow.Some? then Some(s[dialogRow.value])
      else None
  }

  /** Without a dialog pick, a record is applied exactly when the lookup found one record. */
  lemma AppliedWithoutDialog(infos: Option<seq<MovieInfo>>)
    ensures ChosenRecord(infos, None).Some? <==> infos.Some? && |infos.value| == 1
  {
  }

  /**
   * `setMovieInfo`: a non-empty title and a non-zero year replace the fields;
   * the IMDb field is filled with "tt<id>" only when it is empty, so an id
   * already there is never overwritten.
   */
  function Merged(f: Fields, info: MovieInfo): (g: Fields)
    ensures g.title == (if info.title != "" then info.title else f.title)
    ensures g.year == (if info.year != 0 then SetValue(info.year) else f.year)
    ensures f.imdb != "" ==> g.imdb == f.imdb
    ensures f.imdb == "" ==> g.imdb == "tt" + info.imdbId
  {
    Fields(if info.title != "" then info.title else f.title,
           if info.year != 0 then SetValue(info.year) else f.year,
           if f.imdb == "" then "tt" + info.imdbId else f.imdb)
  }

  /**
   * A double-click on the title or year cell of a row in the disambiguation
   * dialog applies that row's record: the one whose title the row shows.
   */
  lemma DialogPickApplied(infos: seq<MovieInfo>, row: int, column: int)
    requires |infos| > 1 && 0 <= row < RecordSelection.RowCount(infos)
    requires column == 0 || column == 1
    ensures var picked := RecordSelection.CellDoubleClicked(RecordSelection.Index(row, column));
            picked == Some(row) &&
            ChosenRecord(Some(infos), picked) == Some(infos[row]) &&
            RecordSelection.Data(infos, RecordSelection.Index(row, 0), RecordSelection.DisplayRole)
              == RecordSelection.Text(ChosenRecord(Some(infos), picked).value.title)
  {
  }

  /** Closing the dialog without a pick applies nothing when there are several records. */
  lemma DialogClosedAppliesNothing(infos: seq<MovieInfo>)
    requires |infos| > 1
    ensures ChosenRecord(Some(infos), None) == None
  {
  }

  /** Applying the same record twice is applying it once. */
  lemma MergedIdempotent(f: Fields, info: MovieInfo)
    ensures Merged(Merged(f, info), info) == Merged(f, info)
  {
  }

  /** The main window's form state. */
  class MainWindow {
    var title: string      // titleEdit.text()
    var year: SpinBox      // yearSpinbox
    var imdb: string       // imdbEdit.text()
    var folder: string     // folderLabel.text()
    var busy: bool         // progressBar in its busy (0, 0) range
    var clipboard: string  // the clipboard text the window last wrote

    /**
     * The spin box's value lies in its range, and the folder label shows the
     * folder name of the current fields.
     */
    ghost predicate Valid()
      reads this
    {
      MinYear <= year.value <= MaxYear &&
      folder == FolderName(title, Shown(year), imdb)
    }

    function CurrentFields(): Fields
      reads this
    {
      Fields(title, year, imdb)
    }

    constructor ()
      ensures Valid() && CurrentFields() == Fields("", ClearedBox, "") && folder == ""
      ensures !busy && clipboard == ""
    {
      title, year, imdb, folder := "", ClearedBox, "", "";
      busy, clipboard := false, "";
    }

    /** `generateOutput`: recompute the folder label from the fields. */
    method GenerateOutput()
      requires MinYear <= year.value <= MaxYear
      modifies this`folder
      ensures Valid()
    {
      var yearText := YearText(Shown(year));
      if title == "" || yearText == "" {
        folder := "";
        return;
      }
      var clean := SanitiseTitle(title);
      var text := clean + " (" + yearText + ")";
      if imdb != "" {
        text := text + " [imdbid-" + imdb + "]";
      }
      folder := text;
    }

    /** `copyButtonClicked`: put a non-empty folder label on the clipboard. */
    method CopyButtonClicked()
      requires Valid()
      modifies this`clipboard
      ensures Valid()
      ensures clipboard == if folder != "" then folder else old(clipboard)
    {
      if folder != "" {
        clipboard := folder;
      }
    }

    /** `resetButtonClicked`: empty all fields and the label. */
    method ResetButtonClicked()
      modifies this`title, this`year, this`imdb, this`folder
      ensures Valid() && CurrentFields() == Fields("", ClearedBox, "") && folder == ""
    {
      title, year, imdb, folder := "", ClearedBox, "", "";
    }

    /** `getButtonClicked`: validate the fields and, if they pass, start a lookup. */
    method GetButtonClicked() returns (request: Option<Request>)
      requires Valid()
      modifies this`busy
      ensures Valid()
      ensures request == LookupRequest(title, year.value, imdb)
      ensures request.Some? ==> request.value.year == Some(year.value)
      ensures busy == (old(busy) || request.Some?)
    {
      var t := Strip(title);
      var y := if year.value == 0 then None else Some(year.value);
      var id := Strip(imdb);
      if t == "" && y.None? && id == "" {
        return None;
      }
      if id != "" {
        id := Drop(id, 2);
        if !IsDigits(id) {
          return None;
        }
      }
      busy := true;
      request := Some(Request(t, y, id));
    }

    /** `titleEditTextEdited`: the title field now holds `text`. */
    method TitleEditTextEdited(text: string)
      requires Valid()
      modifies this`title, this`folder
      ensures Valid() && title == text
    {
      title := text;
      GenerateOutput();
    }

    /** `titleEditPasted`: keep the pasted title and clear everything else. */
    method TitleEditPasted()
      modifies this`title, this`year, this`imdb, this`folder
      ensures Valid() && CurrentFields() == Fields(old(title), ClearedBox, "") && folder == ""
    {
      var text := title;
      ResetButtonClicked();
      title := text;
    }

    /** `yearSpinboxValueChanged`: the user set the spin box to `value`. */
    method YearSpinboxValueChanged(value: int)
      modifies this`year, this`folder
      ensures Valid() && year == SetValue(value)
    {
      year := SetValue(value);
      GenerateOutput();
    }

    /** `imdbEditTextEdited`: the IMDb field now holds `text`, rewritten to an id where one is found. */
    method ImdbEditTextEdited(text: string)
      requires Valid()
      modifies this`imdb, this`folder
      ensures Valid() && imdb == NormalisedImdb(text)
    {
      imdb := text;
      if !StartsWith(text, "tt") {
        var found := GetImdb(text);
        if found != "" {
          imdb := found;
        }
      }
      GenerateOutput();
    }

    /**
     * `imdbEditPasted`: keep the pasted IMDb text, clear everything else, and
     * look it up when it is "tt" followed by digits.
     */
    method ImdbEditPasted() returns (request: Option<Request>)
      modifies this`title, this`year, this`imdb, this`folder, this`busy
      ensures Valid() && CurrentFields() == Fields("", ClearedBox, old(imdb)) && folder == ""
      ensures request == if ImdbPasteTriggers(old(imdb)) then Some(Request("", Some(MinYear), old(imdb)[2..])) else None
      ensures busy == (old(busy) || request.Some?)
    {
      var text := imdb;
      ResetButtonClicked();
      imdb := text;
      if StartsWith(text, "tt") && |text| > 2 && IsDigits(text[2..]) {
        IdOnlyRequest(text, MinYear);
        request := GetButtonClicked();
      } else {
        request := None;
      }
    }

    /**
     * `clipboardDataChanged`: an IMDb id in new clipboard text that differs
     * from the IMDb field replaces the whole form and is looked up.
     */
    method ClipboardDataChanged(text: string) returns (request: Option<Request>)
      requires Valid()
      modifies this`title, this`year, this`imdb, this`folder, this`busy
      ensures Valid()
      ensures GetImdb(text) == "" || GetImdb(text) == old(imdb) ==>
                CurrentFields() == old(CurrentFields()) && folder == old(folder) && request.None? && busy == old(busy)
      ensures GetImdb(text) != "" && GetImdb(text) != old(imdb) ==>
                CurrentFields() == Fields("", ClearedBox, GetImdb(text)) && folder == "" && busy &&
                request == Some(Request("", Some(MinYear), GetImdb(text)[2..]))
    {
      var found := GetImdb(text);
      if found != "" && found != imdb {
        assert ImdbPasteTriggers(found);
        IdOnlyRequest(found, MinYear);
        ResetButtonClicked();
        imdb := found;
        assert Valid() && year == ClearedBox;
        request := GetButtonClicked();
        assert request == Some(Request("", Some(MinYear), found[2..]));
      } else {
        request := None;
      }
    }

    /** `setMovieInfo`: merge a chosen record into the fields (the label is left alone). */
    method SetMovieInfo(info: MovieInfo)
      modifies this`title, this`year, this`imdb
      ensures CurrentFields() == Merged(old(CurrentFields()), info)
    {
      if info.title != "" {
        title := info.title;
      }
      if info.year != 0 {
        year := SetValue(info.year);
      }
      if imdb == "" {
        imdb := "tt" + info.imdbId;
      }
    }

    /**
     * `movieInfoExtracted`: stop the busy indicator, pick the record, apply it,
     * regenerate the label and copy it. `dialogRow` is the row the user chose
     * in the disambiguation dialog (`None` when it was closed).
     */
    method MovieInfoExtracted(infos: Option<seq<MovieInfo>>, dialogRow: Option<int>)
      requires Valid()
      requires infos.Some? && |infos.value| > 1 && dialogRow.Some? ==> 0 <= dialogRow.value < |infos.value|
      modifies this`title, this`year, this`imdb, this`folder, this`busy, this`clipboard
      ensures Valid() && !busy
      ensures var chosen := ChosenRecord(infos, dialogRow);
              CurrentFields() == (if chosen.Some? then Merged(old(CurrentFields()), chosen.value) else old(CurrentFields()))
      ensures clipboard == if ChosenRecord(infos, dialogRow).Some? && folder != "" then folder else old(clipboard)
    {
      busy := false;
      var chosen := ChosenRecord(infos, dialogRow);
      if chosen.Some? {
        SetMovieInfo(chosen.value);
        GenerateOutput();
        CopyButtonClicked();
      }
    }

    /** `movieInfoException`: stop the busy indicator and change nothing else. */
    method MovieInfoException()
      requires Valid()
      modifies this`busy
      ensures Valid() && !busy
    {
      busy := false;
    }
  }
}
