/**
  The USEPA provenance header: month and year are picked out of the
  `lastUpdated` phrase ("atualizado em <mês> de <ano>") by position after a
  split on single spaces.
 */
module Header {
  import opened Common
  import opened Text

  /** The error the header expression throws when the phrase has fewer than three words. */
  const UndefinedMonth: string := "TypeError: Cannot read properties of undefined (reading 'toUpperCase')"

  /**
    The text after "USEPA, ": `"-"` without a phrase; otherwise word 2 upper-cased,
    a space and word 4, where a missing word 4 renders as "undefined".
   */
  function UsepaLabel(lastUpdated: Option<string>): (r: Evaluation<string>)
    ensures r == Ok("-") <==> lastUpdated.None? || lastUpdated.value == ""
    ensures r.Crash? <==> lastUpdated.Some? && lastUpdated.value != "" && Count(lastUpdated.value, ' ') < 2
    ensures r.Crash? ==> r.reason == UndefinedMonth
  {
    if lastUpdated.None? || lastUpdated.value == "" then Ok("-")
    else
      var words := SplitOn(lastUpdated.value, " ");
      SplitOnCharCount(lastUpdated.value, ' ');
      if |words| < 3 then Crash(UndefinedMonth)
      else
        var shown := Upper(words[2]) + " " + (if |words| > 4 then words[4] else "undefined");
        assert shown[|Upper(words[2])|] == ' ';
        Ok(shown)
  }

  /**
    The whole first-row USEPA header cell: `"USEPA, -"` exactly when there is
    no phrase, and the `toUpperCase` error exactly when the phrase is too short.
   */
  function UsepaHeader(lastUpdated: Option<string>): (r: Evaluation<string>)
    ensures r == Ok("USEPA, -") <==> lastUpdated.None? || lastUpdated.value == ""
    ensures r == Crash(UndefinedMonth) <==> lastUpdated.Some? && lastUpdated.value != "" && Count(lastUpdated.value, ' ') < 2
  {
    match UsepaLabel(lastUpdated)
    case Ok(shown) =>
      assert ("USEPA, " + shown)[7..] == shown && "USEPA, -"[7..] == "-";
      assert "USEPA, " + "-" == "USEPA, -";
      Ok("USEPA, " + shown)
    case Crash(e) => Crash(e)
  }

  /** Splitting a space-join of space-free words gives back the words. */
  lemma SplitWords(words: seq<string>)
    requires |words| >= 1
    requires forall k :: 0 <= k < |words| ==> ' ' !in words[k]
    ensures SplitOn(Join(words, " "), " ") == words
  {
    forall k | 0 <= k < |words| ensures SepFree(words[k], " ") {
      SepFreeChar(words[k], ' ');
      assert [' '] == " ";
    }
    SplitOnJoin(words, " ");
  }

  /** The label read off a phrase whose words are known. */
  lemma LabelOfWords(phrase: string, words: seq<string>)
    requires phrase != "" && SplitOn(phrase, " ") == words && |words| >= 3
    ensures UsepaLabel(Some(phrase)) == Ok(Upper(words[2]) + " " + (if |words| > 4 then words[4] else "undefined"))
  {
  }

  lemma PhraseWords(month: string, year: string)
    requires ' ' !in month && ' ' !in year
    ensures SplitOn("atualizado em " + month + " de " + year, " ") == ["atualizado", "em", month, "de", year]
  {
    var words := ["atualizado", "em", month, "de", year];
    assert words[1..] == ["em", month, "de", year];
    assert words[1..][1..] == [month, "de", year];
    assert words[1..][1..][1..] == ["de", year];
    assert words[1..][1..][1..][1..] == [year];
    assert Join(words[1..][1..][1..], " ") == "de " + year;
    assert Join(words[1..][1..], " ") == month + " de " + year;
    assert Join(words[1..], " ") == "em " + month + " de " + year;
    assert Join(words, " ") == "atualizado " + ("em " + month + " de " + year);
    assert Join(words, " ") == "atualizado em " + month + " de " + year;
    assert ' ' !in "atualizado" && ' ' !in "em" && ' ' !in "de";
    SplitWords(words);
  }

  /** The phrase the data source publishes yields the upper-cased month and the year. */
  lemma StandardPhrase(month: string, year: string)
    requires ' ' !in month && ' ' !in year
    ensures UsepaLabel(Some("atualizado em " + month + " de " + year)) == Ok(Upper(month) + " " + year)
  {
    var phrase := "atualizado em " + month + " de " + year;
    PhraseWords(month, year);
    assert |phrase| > 0;
    LabelOfWords(phrase, ["atualizado", "em", month, "de", year]);
  }

  /** The header of the published phrase: `"USEPA, "`, the upper-cased month, a space and the year. */
  lemma StandardHeader(month: string, year: string)
    requires ' ' !in month && ' ' !in year
    ensures UsepaHeader(Some("atualizado em " + month + " de " + year)) == Ok("USEPA, " + Upper(month) + " " + year)
  {
    StandardPhrase(month, year);
    assert "USEPA, " + (Upper(month) + " " + year) == "USEPA, " + Upper(month) + " " + year;
  }

  lemma ShortWords(month: string)
    requires ' ' !in month
    ensures SplitOn("atualizado em " + month, " ") == ["atualizado", "em", month]
  {
    var words := ["atualizado", "em", month];
    assert words[1..] == ["em", month];
    assert words[1..][1..] == [month];
    assert Join(words[1..], " ") == "em " + month;
    assert Join(words, " ") == "atualizado " + ("em " + month);
    assert Join(words, " ") == "atualizado em " + month;
    assert ' ' !in "atualizado" && ' ' !in "em";
    SplitWords(words);
  }

  /** A phrase that stops after the month renders the year as "undefined". */
  lemma ShortPhrase(month: string)
    requires ' ' !in month
    ensures UsepaLabel(Some("atualizado em " + month)) == Ok(Upper(month) + " undefined")
  {
    var phrase := "atualizado em " + month;
    ShortWords(month);
    assert |phrase| > 0;
    LabelOfWords(phrase, ["atualizado", "em", month]);
    assert Upper(month) + " " + "undefined" == Upper(month) + " undefined";
  }

  /** Fewer than two spaces leave no word 2 to upper-case: the header throws. */
  lemma TooShortCrashes(phrase: string)
    requires phrase != "" && Count(phrase, ' ') < 2
    ensures UsepaLabel(Some(phrase)) == Crash(UndefinedMonth)
  {
    SplitOnCharCount(phrase, ' ');
    assert " " == [' '];
  }
}
