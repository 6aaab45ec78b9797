/** The client component's state and the two handlers that change it without
    going to the network: append-mode keyword insertion and the blank-text guard
    of the analyze button. */
module AppModel {
  import opened Wrappers
  import opened JsString
  import opened Seqs

  /** The analysis results the component keeps. Only `keywords` is changed here;
      `suggestions` stands for the fields that the handlers carry over unchanged. */
  datatype Results = Results(keywords: seq<string>, suggestions: seq<string>)

  /** The error shown when the text is blank. */
  const BlankTextError := "Please enter some text."

  /** Append mode: the trimmed text, a period, a space and the keyword. */
  function AppendKeyword(text: string, keyword: string): (r: string)
    ensures Contains(Lower(r), Lower(keyword))
  {
    var r := Trim(text) + ". " + keyword;
    LowerConcat(Trim(text) + ". ", keyword);
    ContainsMiddle(Lower(Trim(text) + ". "), Lower(keyword), []);
    assert Lower(r) == Lower(Trim(text) + ". ") + Lower(keyword) + [];
    r
  }

  /** A keyword already in the text, ignoring case, is not inserted; in particular
      the empty keyword, which every text contains. */
  predicate InText(text: string, keyword: string) {
    Contains(Lower(text), Lower(keyword))
  }

  lemma EmptyKeywordInText(text: string)
    ensures InText(text, "")
  {
    assert Lower("") <= Lower(text);
  }

  class App {
    var text: string
    var results: Option<Results>
    var error: string

    constructor ()
      ensures text == "" && results == None && error == ""
    {
      text := "";
      results := None;
      error := "";
    }

    /** `handleInsertKeyword(keyword)`: a keyword already in the text changes
        nothing; otherwise the keyword is appended to the text and every copy of
        it leaves the suggestion list. The results must be present then, as they
        are whenever the keyword buttons are shown. */
    method InsertKeyword(keyword: string)
      requires InText(text, keyword) || results.Some?
      modifies this
      ensures old(InText(text, keyword)) ==> text == old(text) && results == old(results)
      ensures !old(InText(text, keyword)) ==>
        text == AppendKeyword(old(text), keyword)
        && results == Some(old(results).value.(keywords := Without(old(results).value.keywords, keyword)))
      ensures error == old(error)
      ensures InText(text, keyword)
    {
      if InText(text, keyword) {
        return;
      }
      text := AppendKeyword(text, keyword);
      var prev := results.value;
      results := Some(prev.(keywords := Without(prev.keywords, keyword)));
    }

    /** The guard at the start of `handleAnalyze`: the error is cleared, and a
        text that is empty after trimming sets the blank-text error and stops
        there. `send` tells whether the request would go out; the results are
        not touched by the guard. */
    method Analyze() returns (send: bool)
      modifies this`error
      ensures send <==> exists i :: 0 <= i < |text| && !IsSpace(text[i])
      ensures error == if send then "" else BlankTextError
    {
      error := "";
      TrimEmptyIff(text);
      if Trim(text) == "" {
        error := BlankTextError;
        return false;
      }
      send := true;
    }
  }

  /** The two updates of an insertion: after the append the keyword is in the text,
      so a second insertion of the same keyword is a no-op; the suggestion list
      loses exactly the copies of the inserted keyword, keeps every copy of every
      other entry in order, never grows, and filtering it again changes nothing. */
  lemma AppendAndFilter(text: string, keywords: seq<string>, keyword: string)
    ensures InText(AppendKeyword(text, keyword), keyword)
    ensures keyword !in Without(keywords, keyword)
    ensures multiset(Without(keywords, keyword)) == multiset(keywords)[keyword := 0]
    ensures IsSubsequence(Without(keywords, keyword), keywords)
    ensures |Without(keywords, keyword)| <= |keywords|
    ensures Without(Without(keywords, keyword), keyword) == Without(keywords, keyword)
  {
    WithoutSpec(keywords, keyword);
    WithoutCount(keywords, keyword);
    WithoutSpec(Without(keywords, keyword), keyword);
  }
}
