/**
  `text_analyzer.py`: the pipeline written with library calls. Every step
  is a single expression, so every step is a function here. The file's text
  is a parameter (reading it is left out) and the report is the record of
  the figures `print_report` prints.
 */
module TextAnalyzer {
  import opened Chars
  import opened Tokens
  import opened Frequencies
  import opened Ranking

  /** `tokenize(text)`, that is `text.lower().split()`. */
  function Tokenize(text: string): (tokens: seq<string>)
    ensures forall k | 0 <= k < |tokens| :: IsToken(tokens[k]) && IsLowercase(tokens[k])
    ensures Concat(tokens) == RemoveSpaces(Lower(text))
    ensures tokens == [] <==> forall i | 0 <= i < |text| :: IsSpace(text[i])
  {
    var lowered := Lower(text);
    SplitConcat(lowered);
    SplitEmptyIffBlank(lowered);
    Split(lowered)
  }

  lemma {:induction false} JoinIsLowercase(ws: seq<string>)
    requires forall k | 0 <= k < |ws| :: IsLowercase(ws[k])
    ensures IsLowercase(JoinWithSpace(ws))
  {
    if |ws| == 1 {
      assert Concat(ws) == ws[0] + Concat([]);
    } else if |ws| > 1 {
      JoinIsLowercase(ws[1..]);
      var j := JoinWithSpace(ws[1..]);
      assert JoinWithSpace(ws) == ws[0] + " " + j;
      forall i | 0 <= i < |JoinWithSpace(ws)| ensures !IsUpper(JoinWithSpace(ws)[i]) {
        if i > |ws[0]| {
          assert JoinWithSpace(ws)[i] == j[i - |ws[0]| - 1];
        }
      }
    }
  }

  /** Round trip: lowercase tokens written out with single spaces tokenize
      back to themselves. */
  lemma TokenizeJoin(ws: seq<string>)
    requires forall k | 0 <= k < |ws| :: IsToken(ws[k]) && IsLowercase(ws[k])
    ensures Tokenize(JoinWithSpace(ws)) == ws
  {
    var text := JoinWithSpace(ws);
    JoinIsLowercase(ws);
    assert Lower(text) == text;
    SplitJoin(ws);
  }

  /** A worked case: punctuation stays attached, capitals are lowered. */
  const SampleText: string := "The cat. the CAT"
  const SampleTokens: seq<string> := ["the", "cat.", "the", "cat"]

  lemma TokenizeSample()
    ensures Tokenize(SampleText) == SampleTokens
  {
    SampleLowered();
    SampleJoined();
    SplitJoin(SampleTokens);
  }

  lemma SampleLowered()
    ensures Lower(SampleText) == "the cat. the cat"
  {
  }

  lemma SampleJoined()
    ensures JoinWithSpace(SampleTokens) == "the cat. the cat"
  {
    var j := JoinWithSpace(["cat"]);
    assert j == "cat";
    j := JoinStep("the", ["cat"], j);
    j := JoinStep("cat.", ["the", "cat"], j);
    j := JoinStep("the", ["cat.", "the", "cat"], j);
    assert j == "the cat. the cat";
  }

  /** One step of the worked join: `w + " " + joined`, which is the join of `[w] + ws`. */
  lemma JoinStep(w: string, ws: seq<string>, joined: string) returns (r: string)
    requires ws != [] && JoinWithSpace(ws) == joined
    ensures r == w + " " + joined && JoinWithSpace([w] + ws) == r
  {
    assert ([w] + ws)[1..] == ws;
    r := w + " " + joined;
  }

  /** `count_words(tokens)`, that is `Counter(tokens)`: the multiset of the
      tokens, its keys in the order the words first occur. */
  function CountWords(tokens: seq<string>): (freqs: FreqTable)
    ensures Valid(freqs)
    ensures forall w :: w in freqs.counts <==> w in tokens
    ensures forall w | w in freqs.counts :: freqs.counts[w] == Occurrences(tokens, w) >= 1
  {
    FreqTable(FirstOccurrences(tokens), WordCounts(tokens))
  }

  /** The counting half of `Counter(tokens)`: `Counter.update` walks the
      tokens and sets each one's count to its old count (zero if absent)
      plus one. */
  function WordCounts(tokens: seq<string>): (counts: map<string, nat>)
    ensures forall w :: w in counts <==> w in tokens
    ensures forall w | w in counts :: counts[w] == Occurrences(tokens, w) >= 1
  {
    if tokens == [] then map[]
    else
      var init, w := tokens[..|tokens| - 1], tokens[|tokens| - 1];
      var before := WordCounts(init);
      assert tokens == init + [w];
      CountKeysSnoc(init, w);
      forall x | x in tokens ensures Occurrences(tokens, x) == Occurrences(init, x) + if x == w then 1 else 0 {
        OccurrencesSnoc(init, w, x);
      }
      if w in before then before[w := before[w] + 1]
      else
        MultisetCountsOccurrences(init);
        assert multiset(init)[w] == 0;
        before[w := 1]
  }

  /** One more token changes the table as the hand-written loop does: a word
      already present has its count raised by exactly one, a new word is
      appended with count one, and no other key changes. */
  lemma CountWordsSnoc(tokens: seq<string>, w: string)
    ensures w in CountWords(tokens).counts ==>
      && CountWords(tokens + [w]).order == CountWords(tokens).order
      && CountWords(tokens + [w]).counts
         == CountWords(tokens).counts[w := CountWords(tokens).counts[w] + 1]
    ensures w !in CountWords(tokens).counts ==>
      && CountWords(tokens + [w]).order == CountWords(tokens).order + [w]
      && CountWords(tokens + [w]).counts == CountWords(tokens).counts[w := 1]
  {
    var ts := tokens + [w];
    assert ts[..|ts| - 1] == tokens;
  }

  lemma CountKeysSnoc(tokens: seq<string>, w: string)
    ensures forall x :: x in tokens + [w] <==> x in tokens || x == w
  {
    forall x ensures x in tokens + [w] <==> x in tokens || x == w {
      assert x in tokens ==> x in tokens + [w];
      assert (tokens + [w])[|tokens|] == w;
    }
  }

  lemma {:induction false} OccurrencesSnoc(tokens: seq<string>, w: string, x: string)
    ensures Occurrences(tokens + [w], x) == Occurrences(tokens, x) + if x == w then 1 else 0
  {
    if tokens == [] {
      assert tokens + [w] == [w];
    } else {
      assert (tokens + [w])[1..] == tokens[1..] + [w];
      OccurrencesSnoc(tokens[1..], w, x);
    }
  }

  /** The counts add up to the number of tokens. */
  lemma {:induction false} CountsSumToLength(tokens: seq<string>)
    ensures SumCounts(Items(CountWords(tokens))) == |tokens|
  {
    if tokens != [] {
      var init, w := tokens[..|tokens| - 1], tokens[|tokens| - 1];
      assert tokens == init + [w];
      CountsSumToLength(init);
      SumGrowsByOne(init, w);
    }
  }

  lemma SumGrowsByOne(tokens: seq<string>, w: string)
    ensures SumCounts(Items(CountWords(tokens + [w]))) == SumCounts(Items(CountWords(tokens))) + 1
  {
    CountWordsSnoc(tokens, w);
    SumAfterStep(CountWords(tokens), CountWords(tokens + [w]), w);
  }

  /** `len(freqs) <= len(tokens)`, with equality exactly when no token repeats. */
  lemma UniqueAtMostTotal(tokens: seq<string>)
    ensures |CountWords(tokens).counts| <= |tokens|
    ensures |CountWords(tokens).counts| == |tokens| <==> Distinct(tokens)
  {
    TableSize(CountWords(tokens));
    FirstOccurrencesAllIffDistinct(tokens);
  }

  /** `a` can be obtained from `b` by deleting elements, order kept. */
  predicate IsSubsequence(a: seq<string>, b: seq<string>) {
    if a == [] then true
    else if b == [] then false
    else if a[0] == b[0] then IsSubsequence(a[1..], b[1..])
    else IsSubsequence(a, b[1..])
  }

  /** `find_long_words(tokens, min_length)`: the tokens of length at least
      `min_length`, in order, duplicates kept. */
  function FindLongWords(tokens: seq<string>, minLength: int): (long: seq<string>)
    ensures |long| <= |tokens|
    ensures IsSubsequence(long, tokens)
    ensures forall k | 0 <= k < |long| :: |long[k]| >= minLength
    ensures forall w :: multiset(long)[w] == if |w| >= minLength then multiset(tokens)[w] else 0
  {
    if tokens == [] then []
    else
      assert tokens == [tokens[0]] + tokens[1..];
      var rest := FindLongWords(tokens[1..], minLength);
      if |tokens[0]| >= minLength then
        assert ([tokens[0]] + rest)[1..] == rest;
        [tokens[0]] + rest
      else rest
  }

  /** `top_n(freqs, n)`, that is `freqs.most_common(n)`: the `n` most frequent
      entries, highest count first, ties in the table's key order. */
  function TopN(freqs: FreqTable, n: int): (top: seq<Entry>)
    requires Valid(freqs)
    ensures |top| == if n <= 0 then 0 else if n < |freqs.counts| then n else |freqs.counts|
    ensures NonIncreasing(top)
    ensures forall e | e in top :: e.0 in freqs.counts && freqs.counts[e.0] == e.1
    ensures forall e, f | e in top && f in Items(freqs) && f !in top :: e.1 >= f.1
    ensures forall c: nat :: WithCount(top, c) <= WithCount(Items(freqs), c)
  {
    TableSize(freqs);
    if n <= 0 then []
    else
      TopOfSorted(Items(freqs), n);
      TopEntriesInTable(freqs, Take(SortByCount(Items(freqs)), n));
      Take(SortByCount(Items(freqs)), n)
  }

  /** Words with equal counts are listed by `top_n` in the order in which
      they first occur in the tokens. */
  lemma TopNTiesInFirstOccurrenceOrder(tokens: seq<string>, n: int, i: nat, j: nat)
    requires i < j < |TopN(CountWords(tokens), n)|
    requires TopN(CountWords(tokens), n)[i].1 == TopN(CountWords(tokens), n)[j].1
    ensures TopN(CountWords(tokens), n)[i].0 in tokens && TopN(CountWords(tokens), n)[j].0 in tokens
    ensures IndexOf(tokens, TopN(CountWords(tokens), n)[i].0) < IndexOf(tokens, TopN(CountWords(tokens), n)[j].0)
  {
    var freqs := CountWords(tokens);
    var top, items := TopN(freqs, n), Items(freqs);
    assert top[i] in top && top[j] in top;
    TiesKeepInputOrder(items, top, i, j);
    var i', j' :| 0 <= i' < j' < |items| && items[i'] == top[i] && items[j'] == top[j];
    assert top[i].0 == freqs.order[i'] && top[j].0 == freqs.order[j'];
    FirstOccurrencesOrdered(tokens);
  }

  lemma TopEntriesInTable(freqs: FreqTable, top: seq<Entry>)
    requires Valid(freqs) && multiset(top) <= multiset(Items(freqs))
    ensures forall e | e in top :: e.0 in freqs.counts && freqs.counts[e.0] == e.1
  {
    forall e | e in top ensures e.0 in freqs.counts && freqs.counts[e.0] == e.1 {
      assert e in multiset(Items(freqs));
      InItems(freqs, e);
    }
  }

  /** The figures `print_report` prints: total words, unique words, the top
      five entries and the number of long words. */
  datatype Report = Report(totalWords: nat, uniqueWords: nat, mostFrequent: seq<Entry>, longWordCount: nat)

  /** `print_report(tokens, freqs, long_words)` without the printing. */
  function ReportFigures(tokens: seq<string>, freqs: FreqTable, longWords: seq<string>): (r: Report)
    requires Valid(freqs)
    ensures r.totalWords == |tokens| && r.uniqueWords == |freqs.counts|
    ensures r.longWordCount == |longWords|
    ensures |r.mostFrequent| <= 5
    ensures forall e | e in r.mostFrequent :: e.0 in freqs.counts && freqs.counts[e.0] == e.1
  {
    Report(|tokens|, |freqs.counts|, TopN(freqs, 5), |longWords|)
  }

  /** `analyze_text` once the file's text is in hand. */
  function AnalyzeText(text: string): (r: Report)
    ensures r.uniqueWords <= r.totalWords
    ensures r.uniqueWords == r.totalWords <==> Distinct(Tokenize(text))
    ensures r.longWordCount <= r.totalWords
    ensures |r.mostFrequent| == if r.uniqueWords < 5 then r.uniqueWords else 5
    ensures r.totalWords == 0 <==> forall i | 0 <= i < |text| :: IsSpace(text[i])
    ensures r.totalWords == 0 ==> r.uniqueWords == 0 && r.mostFrequent == [] && r.longWordCount == 0
  {
    var tokens := Tokenize(text);
    var freqs := CountWords(tokens);
    var longWords := FindLongWords(tokens, 4);
    UniqueAtMostTotal(tokens);
    ReportFigures(tokens, freqs, longWords)
  }
}
