/**
 * Worked examples: the folder names and lookups the program produces for
 * particular inputs, derived from the general definitions.
 */
module Scenarios {
  import opened Wrappers
  import opened PyStrings
  import opened Movies
  import opened Window

  lemma YearText1994()
    ensures YearText(1994) == "1994"
  {
    assert NatToString(1) == "1";
    assert NatToString(19) == "19";
    assert NatToString(199) == "199";
    assert NatToString(1994) == "1994";
  }

  /** "The Shawshank Redemption" needs no sanitising. */
  lemma ShawshankTitleLegal(title: string)
    requires title == "The Shawshank Redemption"
    ensures Legal(title)
  {
  }

  /** The folder name of "The Shawshank Redemption", 1994, tt0111161: the field goes into the bracket as it is. */
  lemma FolderNameShawshank(title: string, imdb: string)
    requires title == "The Shawshank Redemption" && imdb == "tt0111161"
    ensures FolderName(title, 1994, imdb) == "The Shawshank Redemption (1994) [imdbid-tt0111161]"
  {
    ShawshankTitleLegal(title);
    FolderNameOfLegalTitle(title, 1994, imdb);
    YearText1994();
  }

  /** Sanitising "Se7en: Director's Cut" removes only the colon. */
  lemma SanitisedSe7en()
    ensures Sanitised("Se7en: Director's Cut") == "Se7en Director's Cut"
  {
    SanitisedDropsForbidden("Se7en", ':', " Director's Cut");
    assert "Se7en" + [':'] + " Director's Cut" == "Se7en: Director's Cut";
    assert "Se7en" + " Director's Cut" == "Se7en Director's Cut";
  }

  /**
   * The first two characters are dropped without checking that they are "tt":
   * a bare IMDb number typed into the field loses its first two digits.
   */
  lemma BareNumberLosesTwoDigits()
    ensures LookupRequest("", MinYear, "0111161") == Some(Request("", Some(MinYear), "11161"))
  {
    StripUnpadded("0111161");
    StripUnpadded("");
  }

  lemma YearText2001()
    ensures YearText(2001) == "2001"
  {
    assert NatToString(2) == "2";
    assert NatToString(20) == "20";
    assert NatToString(200) == "200";
    assert NatToString(2001) == "2001";
  }

  /** A title with "tt" and a digit in it, and nothing to sanitise. */
  lemma MuttTitleLegal(title: string)
    requires title == "Mutt3"
    ensures Legal(title)
  {
  }

  /** The folder name of "Mutt3", 2001, tt0123456. */
  lemma FolderNameMutt3(title: string, imdb: string)
    requires title == "Mutt3" && imdb == "tt0123456"
    ensures FolderName(title, 2001, imdb) == "Mutt3 (2001) [imdbid-tt0123456]"
  {
    MuttTitleLegal(title);
    FolderNameOfLegalTitle(title, 2001, imdb);
    YearText2001();
  }

  /** `get_imdb` takes the first "tt" followed by a digit, here the one in the title. */
  lemma GetImdbOfMutt3(name: string)
    requires name == "Mutt3 (2001) [imdbid-tt0123456]"
    ensures GetImdb(name) == "tt3"
  {
    assert MatchAt(name, 2);
    assert !MatchAt(name, 0) && !MatchAt(name, 1);
    assert DigitRun(name, 4) == 1 by {
      assert DigitRun(name, 5) == 0;
    }
    GetImdbAt(name, 2);
    assert name[2..5] == "tt3";
  }

  /**
   * The window's own copy, seen again by the clipboard handler, does not
   * always read back as the IMDb field: a title holding "tt" and a digit is
   * found first, so the handler resets the form and looks up "3".
   */
  lemma OwnCopyFindsIdInTitle(title: string, imdb: string)
    requires title == "Mutt3" && imdb == "tt0123456"
    ensures GetImdb(FolderName(title, 2001, imdb)) == "tt3"
    ensures GetImdb(FolderName(title, 2001, imdb)) != imdb
  {
    FolderNameMutt3(title, imdb);
    GetImdbOfMutt3(FolderName(title, 2001, imdb));
  }

  /**
   * A title search from a freshly reset form: the spin box shows nothing but
   * still holds 1894, so the search asks for that year.
   */
  lemma TitleSearchFromClearedBox(title: string)
    requires title == "Heat"
    ensures Shown(ClearedBox) == 0 && YearText(Shown(ClearedBox)) == ""
    ensures LookupRequest(title, ClearedBox.value, "") == Some(Request(title, Some(1894), ""))
  {
    StripUnpadded(title);
  }

  /** ... and its results are filtered to the years 1893 to 1895. */
  lemma ClearedBoxFiltersResults(title: string, getMovie: string -> Reply<BackendMovie>,
                                 searchMovie: string -> Reply<seq<BackendMovie>>)
    requires searchMovie(title).Answered?
    ensures var r := FetchMovieInfo(title, Some(ClearedBox.value), "", getMovie, searchMovie);
            r.Some? && forall i :: 0 <= i < |r.value| ==> 1893 <= r.value[i].year <= 1895
  {
  }

  /**
   * The lookup by id end to end: "tt0111161" on a reset form asks for
   * "0111161" (with the spin box's kept value as the year); the one record the
   * backend returns is applied automatically and the folder name keeps the
   * IMDb field as it was.
   */
  lemma ShawshankById(imdb: string, title: string,
                      getMovie: string -> Reply<BackendMovie>, searchMovie: string -> Reply<seq<BackendMovie>>)
    requires imdb == "tt0111161" && title == "The Shawshank Redemption"
    requires getMovie("0111161") == Answered(BackendMovie(title, YearNumber(1994), "0111161"))
    ensures LookupRequest("", MinYear, imdb) == Some(Request("", Some(MinYear), "0111161"))
    ensures var infos := FetchMovieInfo("", Some(MinYear), "0111161", getMovie, searchMovie);
            ChosenRecord(infos, None) == Some(MovieInfo(title, 1994, "0111161")) &&
            Merged(Fields("", ClearedBox, imdb), ChosenRecord(infos, None).value) == Fields(title, SpinBox(1994, false), imdb)
    ensures FolderName(title, Shown(SpinBox(1994, false)), imdb) == "The Shawshank Redemption (1994) [imdbid-tt0111161]"
  {
    assert imdb[2..] == "0111161";
    IdOnlyRequest(imdb, MinYear);
    FolderNameShawshank(title, imdb);
  }
}
