/** The keyword suggestion filter of the server (`extractKeywords`): turns the
    entities or the words of an already-decoded text-analysis response into an
    ordered list of distinct keywords. */
module Keywords {
  import opened Wrappers
  import opened JsString
  import opened Seqs

  /** An entity found in the text; only the text it matched is used. */
  datatype Entity = Entity(matchedText: string)

  /** A word of the text with its lemma (`lemma`) and part-of-speech tag. */
  datatype Word = Word(lemmaText: string, partOfSpeech: string)

  /** The `response` object; either list may be absent. */
  datatype Payload = Payload(entities: Option<seq<Entity>>, words: Option<seq<Word>>)

  /** The decoded reply of the analysis service; `response` may be absent. */
  datatype AnalysisData = AnalysisData(response: Option<Payload>)

  /** The fixed stopword set of the keyword filter. */
  const Stopwords: set<string> := {"the", "and", "but", "with", "this", "that", "for", "you"}

  /** `entities`, defaulting to the empty list. */
  function EntitiesOf(data: AnalysisData): seq<Entity> {
    match data.response
    case None => []
    case Some(p) => p.entities.GetOr([])
  }

  /** `words`, defaulting to the empty list. */
  function WordsOf(data: AnalysisData): seq<Word> {
    match data.response
    case None => []
    case Some(p) => p.words.GetOr([])
  }

  /** `entities.map(e => e.matchedText.trim())`. */
  function EntityCandidates(es: seq<Entity>): (r: seq<string>)
    ensures |r| == |es|
    ensures forall i :: 0 <= i < |es| ==> r[i] == Trim(es[i].matchedText)
  {
    seq(|es|, i requires 0 <= i < |es| => Trim(es[i].matchedText))
  }

  /** A candidate worth suggesting: longer than two characters and not a stopword
      once lower-cased. */
  predicate Admissible(kw: string) {
    |kw| > 2 && Lower(kw) !in Stopwords
  }

  /** The filter callback of the entity branch at position `i` of the mapped list:
      admissible, and `i` is the first position of that candidate. */
  predicate KeptAt(arr: seq<string>, i: nat)
    requires i < |arr|
  {
    Admissible(arr[i]) && IndexOf(arr, arr[i]) == i
  }

  /** The entity branch's `filter` applied to the first `n` candidates: the
      admissible candidates among them, each once, in first-occurrence order. */
  function FilterFirst(arr: seq<string>, n: nat): (r: seq<string>)
    requires n <= |arr|
    ensures forall k :: k in r <==> k in arr[..n] && Admissible(k)
    ensures forall k :: k in r ==> IndexOf(arr, k) < n
    ensures InFirstOccurrenceOrder(r, arr)
    decreases n
  {
    if n == 0 then []
    else
      var r := FilterFirst(arr, n - 1);
      assert arr[..n] == arr[..n - 1] + [arr[n - 1]];
      assert forall k :: k in arr[..n - 1] ==> IndexOf(arr, k) < n - 1 by {
        forall k | k in arr[..n - 1] ensures IndexOf(arr, k) < n - 1 {
          IndexOfPrefix(arr, n - 1, k);
        }
      }
      if KeptAt(arr, n - 1) then r + [arr[n - 1]] else r
  }

  /** The keywords of the entity branch (lines 38-44). */
  function EntityKeywords(es: seq<Entity>): seq<string> {
    var arr := EntityCandidates(es);
    FilterFirst(arr, |arr|)
  }

  /** The words filter of line 49: not punctuation, lemma longer than two characters. */
  predicate WordKept(w: Word) {
    w.partOfSpeech != "PUNCT" && |w.lemmaText| > 2
  }

  /** Lines 48-55 before de-duplication: the lower-cased lemmas of the kept words
      that are not stopwords, in word order. */
  function LemmaCandidates(ws: seq<Word>): (r: seq<string>)
    ensures forall k :: k in r <==> exists w :: w in ws && WordKept(w) && Lower(w.lemmaText) == k && k !in Stopwords
    decreases |ws|
  {
    if ws == [] then []
    else
      var rest := LemmaCandidates(ws[1..]);
      assert forall w :: w in ws <==> w == ws[0] || w in ws[1..] by {
        assert ws == [ws[0]] + ws[1..];
      }
      var k := Lower(ws[0].lemmaText);
      if WordKept(ws[0]) && k !in Stopwords then [k] + rest else rest
  }

  /** A single word contributes its lower-cased lemma exactly when it passes both filters. */
  lemma LemmaCandidatesOne(w: Word)
    ensures LemmaCandidates([w])
      == if WordKept(w) && Lower(w.lemmaText) !in Stopwords then [Lower(w.lemmaText)] else []
  {
    assert [w][1..] == [];
  }

  /** The candidates keep word order: those of consecutive stretches of words are
      concatenated. */
  lemma {:induction false} LemmaCandidatesConcat(a: seq<Word>, b: seq<Word>)
    ensures LemmaCandidates(a + b) == LemmaCandidates(a) + LemmaCandidates(b)
    decreases |a|
  {
    if a == [] {
      assert a + b == b;
    } else {
      assert (a + b)[0] == a[0] && (a + b)[1..] == a[1..] + b;
      LemmaCandidatesConcat(a[1..], b);
    }
  }

  /** The keywords of the words branch (lines 52-56). */
  function WordKeywords(ws: seq<Word>): seq<string> {
    Dedup(LemmaCandidates(ws))
  }

  /** Lower-casing is idempotent. */
  lemma LowerLower(s: string)
    ensures Lower(Lower(s)) == Lower(s)
  {
  }

  /** `extractKeywords(data)`. */
  function ExtractKeywords(data: AnalysisData): (r: seq<string>)
    ensures data.response.None? ==> r == []
    ensures EntitiesOf(data) == [] && WordsOf(data) == [] ==> r == []
    ensures Distinct(r)
    ensures forall k :: k in r ==> Admissible(k)
    ensures EntitiesOf(data) != [] ==>
      (forall k :: k in r <==> k in EntityCandidates(EntitiesOf(data)) && Admissible(k))
      && InFirstOccurrenceOrder(r, EntityCandidates(EntitiesOf(data)))
    ensures EntitiesOf(data) == [] ==>
      (forall k :: k in r <==> k in LemmaCandidates(WordsOf(data)))
      && (forall k :: k in r ==> k == Lower(k))
      && InFirstOccurrenceOrder(r, LemmaCandidates(WordsOf(data)))
  {
    var es := EntitiesOf(data);
    var ws := WordsOf(data);
    if data.response.None? then []
    else if |es| > 0 then
      var arr := EntityCandidates(es);
      var r := EntityKeywords(es);
      assert arr[..|arr|] == arr;
      OrderedIsDistinct(r, arr);
      r
    else if |ws| > 0 then
      var r := WordKeywords(ws);
      DedupSpec(LemmaCandidates(ws));
      assert forall k :: k in r ==> Admissible(k) && k == Lower(k) by {
        forall k | k in r ensures Admissible(k) && k == Lower(k) {
          var w :| w in ws && WordKept(w) && Lower(w.lemmaText) == k && k !in Stopwords;
          LowerLower(w.lemmaText);
        }
      }
      r
    else []
  }

  /** Once there is at least one entity, the words do not matter, even when the
      filter drops every entity. */
  lemma ExtractIgnoresWords(es: seq<Entity>, ws1: Option<seq<Word>>, ws2: Option<seq<Word>>)
    requires es != []
    ensures ExtractKeywords(AnalysisData(Some(Payload(Some(es), ws1))))
         == ExtractKeywords(AnalysisData(Some(Payload(Some(es), ws2))))
  {
  }
}
