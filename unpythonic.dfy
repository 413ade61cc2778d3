/**
  `unpythonic_analyzer_refactored.py`: the same pipeline with the word
  counts built by hand. The dictionary is filled in place by a loop, so that
  step is a method whose loop carries the dictionary as a map together with
  its key insertion order; the comprehension and the sort-and-slice are
  expressions inside the same method.
 */
module UnpythonicAnalyzer {
  import opened Frequencies
  import opened Ranking
  import TextAnalyzer

  /** The counting loop: for each word, raise its count if it is already a
      key, otherwise insert it with count one. */
  method CountByHand(myList: seq<string>) returns (wordCountDict: map<string, nat>, keyOrder: seq<string>)
    ensures FreqTable(keyOrder, wordCountDict) == TextAnalyzer.CountWords(myList)
    ensures forall w :: w in wordCountDict <==> w in myList
    ensures forall w | w in wordCountDict :: wordCountDict[w] == Occurrences(myList, w)
    ensures Valid(FreqTable(keyOrder, wordCountDict))
    ensures SumCounts(Items(FreqTable(keyOrder, wordCountDict))) == |myList|
  {
    wordCountDict := map[];
    keyOrder := [];
    for i := 0 to |myList|
      invariant FreqTable(keyOrder, wordCountDict) == TextAnalyzer.CountWords(myList[..i])
    {
      var wordItem := myList[i];
      assert myList[..i + 1] == myList[..i] + [wordItem];
      TextAnalyzer.CountWordsSnoc(myList[..i], wordItem);
      if wordItem in wordCountDict {
        wordCountDict := wordCountDict[wordItem := wordCountDict[wordItem] + 1];
      } else {
        wordCountDict := wordCountDict[wordItem := 1];
        keyOrder := keyOrder + [wordItem];
      }
    }
    assert myList[..|myList|] == myList;
    TextAnalyzer.CountsSumToLength(myList);
  }

  /** `[w for w in my_list if len(w) > 3]`: the words longer than `k`, in
      order, duplicates kept. */
  function LongerThan(tokens: seq<string>, k: int): (long: seq<string>)
    ensures |long| <= |tokens|
    ensures forall i | 0 <= i < |long| :: |long[i]| > k
    ensures forall w :: multiset(long)[w] == if |w| > k then multiset(tokens)[w] else 0
  {
    if tokens == [] then []
    else
      assert tokens == [tokens[0]] + tokens[1..];
      var rest := LongerThan(tokens[1..], k);
      if |tokens[0]| > k then
        assert ([tokens[0]] + rest)[1..] == rest;
        [tokens[0]] + rest
      else rest
  }

  /** `len(w) > k` keeps exactly what `len(w) >= k + 1` keeps, so the
      `> 3` filter and `find_long_words(tokens, 4)` agree. */
  lemma {:induction false} LongerThanIsFindLongWords(tokens: seq<string>, k: int)
    ensures LongerThan(tokens, k) == TextAnalyzer.FindLongWords(tokens, k + 1)
  {
    if tokens != [] {
      LongerThanIsFindLongWords(tokens[1..], k);
    }
  }

  /** `analyze_text` once the file's text is in hand: tokenize, count by hand,
      filter with `> 3`, sort the items by count in reverse and keep five. It
      reports exactly what the library-based analyzer reports. */
  method AnalyzeText(theTextContent: string) returns (report: TextAnalyzer.Report)
    ensures report == TextAnalyzer.AnalyzeText(theTextContent)
  {
    var myList := TextAnalyzer.Tokenize(theTextContent);
    var wordCountDict, keyOrder := CountByHand(myList);
    var longWords := LongerThan(myList, 3);
    LongerThanIsFindLongWords(myList, 3);
    var mostFrequent := Take(SortByCount(Items(FreqTable(keyOrder, wordCountDict))), 5);
    report := TextAnalyzer.Report(|myList|, |wordCountDict|, mostFrequent, |longWords|);
  }
}
