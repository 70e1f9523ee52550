/**
 * The documents and queries of the document index's tests, and the words
 * the whitespace split finds in them.
 */
module DocumentTestText {
  import opened WhitespaceIndexing

  /**
   * The documents of the `get`, `get_ordered` and `get_equal_query_quality`
   * tests, each written as its words joined by single spaces:
   * "the quick brown fox jumps over the lazy dog", "lorem ipusm dolor sit"
   * and "brown jumps".
   */
  function TestDocuments(): seq<string>
  {
    [Join(FirstWords()), Join(SecondWords()), Join(ThirdWords())]
  }

  /** The joined documents are the literal strings of the tests. */
  lemma TestDocumentsSpelled()
    ensures TestDocuments() ==
            ["the quick brown fox jumps over the lazy dog", "lorem ipusm dolor sit", "brown jumps"]
  {
    FirstSpelled();
    SecondSpelled();
    ThirdSpelled();
  }

  /** Joining two non-empty runs of words puts one space between them. */
  lemma {:induction false} JoinAppend(a: seq<string>, b: seq<string>)
    requires a != [] && b != []
    ensures Join(a + b) == Join(a) + " " + Join(b)
  {
    if |a| > 1 {
      assert (a + b)[1..] == a[1..] + b;
      JoinAppend(a[1..], b);
    } else {
      assert (a + b)[1..] == b;
    }
  }

  lemma FirstSpelled()
    ensures Join(FirstWords()) == "the quick brown fox jumps over the lazy dog"
  {
    var front, back := ["the", "quick", "brown", "fox"], ["jumps", "over", "the", "lazy", "dog"];
    assert FirstWords() == front + back;
    JoinAppend(front, back);
    FrontSpelled();
    BackSpelled();
    SentenceGlued();
  }

  lemma FrontSpelled()
    ensures Join(["the", "quick", "brown", "fox"]) == "the quick brown fox"
  {
    var ws := ["the", "quick", "brown", "fox"];
    assert Join(ws[3..]) == "fox";
    assert Join(ws[2..]) == "brown fox";
    assert Join(ws[1..]) == "quick brown fox";
  }

  lemma BackSpelled()
    ensures Join(["jumps", "over", "the", "lazy", "dog"]) == "jumps over the lazy dog"
  {
    var ws := ["jumps", "over", "the", "lazy", "dog"];
    assert Join(ws[4..]) == "dog";
    assert Join(ws[3..]) == "lazy dog";
    assert Join(ws[2..]) == "the lazy dog";
    assert Join(ws[1..]) == "over the lazy dog";
  }

  lemma SentenceGlued()
    ensures "the quick brown fox" + " " + "jumps over the lazy dog" == "the quick brown fox jumps over the lazy dog"
  {
  }

  lemma SecondSpelled()
    ensures Join(SecondWords()) == "lorem ipusm dolor sit"
  {
    var ws := SecondWords();
    assert Join(ws[3..]) == "sit";
    assert Join(ws[2..]) == "dolor sit";
    assert Join(ws[1..]) == "ipusm dolor sit";
  }

  lemma ThirdSpelled()
    ensures Join(ThirdWords()) == "brown jumps"
  {
    var ws := ThirdWords();
    assert Join(ws[1..]) == "jumps";
  }

  function FirstWords(): seq<string>
  {
    ["the", "quick", "brown", "fox", "jumps", "over", "the", "lazy", "dog"]
  }

  function SecondWords(): seq<string>
  {
    ["lorem", "ipusm", "dolor", "sit"]
  }

  function ThirdWords(): seq<string>
  {
    ["brown", "jumps"]
  }

  /** Some word of the query `ws` is among the words `doc`. */
  predicate SharesWord(ws: seq<string>, doc: seq<string>)
  {
    exists j :: 0 <= j < |ws| && ws[j] in doc
  }

  lemma TestWordsAreWords()
    ensures IsWord("the") && IsWord("quick") && IsWord("brown") && IsWord("fox") && IsWord("jumps")
    ensures IsWord("over") && IsWord("lazy") && IsWord("dog")
    ensures IsWord("lorem") && IsWord("ipusm") && IsWord("dolor") && IsWord("sit")
  {
  }

  lemma FirstDocumentWords()
    ensures Words(TestDocuments()[0]) == FirstWords()
  {
    TestWordsAreWords();
    JoinWords(FirstWords());
  }

  lemma SecondDocumentWords()
    ensures Words(TestDocuments()[1]) == SecondWords()
  {
    TestWordsAreWords();
    JoinWords(SecondWords());
  }

  lemma ThirdDocumentWords()
    ensures Words(TestDocuments()[2]) == ThirdWords()
  {
    TestWordsAreWords();
    JoinWords(ThirdWords());
  }

  /** The query of the `get` test is found in the first document only. */
  lemma QueryThe()
    ensures Words("the") == ["the"]
    ensures SharesWord(["the"], FirstWords())
    ensures !SharesWord(["the"], SecondWords()) && !SharesWord(["the"], ThirdWords())
  {
    TestWordsAreWords();
    assert Join(["the"]) == "the";
    JoinWords(["the"]);
    assert ["the"][0] in FirstWords();
  }

  /** A word starting with none of the second document's initials is not among its words. */
  lemma NotInSecondDocument(w: string)
    requires |w| > 0 && w[0] !in {'l', 'i', 'd', 's'}
    ensures w !in SecondWords()
  {
    forall i | 0 <= i < |SecondWords()| ensures SecondWords()[i][0] in {'l', 'i', 'd', 's'} {
    }
  }

  lemma BrownFoxJumpsWords()
    ensures Words("brown fox jumps") == ["brown", "fox", "jumps"]
  {
    TestWordsAreWords();
    assert Join(["brown", "fox", "jumps"]) == "brown fox jumps";
    JoinWords(["brown", "fox", "jumps"]);
  }

  /** The query of the `get_ordered` test is found in the first and third documents. */
  lemma QueryBrownFoxJumps()
    ensures SharesWord(["brown", "fox", "jumps"], FirstWords())
    ensures !SharesWord(["brown", "fox", "jumps"], SecondWords())
    ensures SharesWord(["brown", "fox", "jumps"], ThirdWords())
  {
    var ws := ["brown", "fox", "jumps"];
    assert ws[0] == FirstWords()[2] && ws[0] == ThirdWords()[0];
    NotInSecondDocument(ws[0]);
    NotInSecondDocument(ws[1]);
    NotInSecondDocument(ws[2]);
  }

  lemma BrownJumpsWords()
    ensures Words("brown jumps") == ["brown", "jumps"]
  {
    TestWordsAreWords();
    assert Join(["brown", "jumps"]) == "brown jumps";
    JoinWords(["brown", "jumps"]);
  }

  /** The query of the `get_equal_query_quality` test is found in the first and third documents. */
  lemma QueryBrownJumps()
    ensures SharesWord(["brown", "jumps"], FirstWords())
    ensures !SharesWord(["brown", "jumps"], SecondWords())
    ensures SharesWord(["brown", "jumps"], ThirdWords())
  {
    var ws := ["brown", "jumps"];
    assert ws[0] == FirstWords()[2] && ws[0] == ThirdWords()[0];
    NotInSecondDocument(ws[0]);
    NotInSecondDocument(ws[1]);
  }
}

/** The `get`, `get_ordered` and `get_equal_query_quality` tests of the document index. */
module DocumentTests {
  import opened WhitespaceIndexing
  import opened Core
  import opened DocumentIndex
  import opened DocumentTestText

  /** Over three documents the ascending positions are read off membership. */
  lemma AscendingBelowThree(s: set<nat>)
    ensures Ascending(s, 3) == (if 0 in s then [0] else []) + (if 1 in s then [1] else []) + (if 2 in s then [2] else [])
  {
    assert Ascending(s, 1) == (if 0 in s then [0] else []);
    assert Ascending(s, 2) == Ascending(s, 1) + (if 1 in s then [1] else []);
  }

  /** Searching the test documents: the positions of the documents sharing a word with the query. */
  lemma TestSearch(search: string, ws: seq<string>)
    requires Words(search) == ws
    ensures SearchPositions(Build(SplitWords, TestDocuments()), search, 3) ==
            (if SharesWord(ws, FirstWords()) then [0] else [])
            + (if SharesWord(ws, SecondWords()) then [1] else [])
            + (if SharesWord(ws, ThirdWords()) then [2] else [])
  {
    var m := Build(SplitWords, TestDocuments());
    FirstDocumentWords();
    SecondDocumentWords();
    ThirdDocumentWords();
    SearchFindsDocuments(TestDocuments(), search, 0);
    SearchFindsDocuments(TestDocuments(), search, 1);
    SearchFindsDocuments(TestDocuments(), search, 2);
    AscendingBelowThree(MatchedPositions(m, ws));
  }

  /** The `get` test: only the first document contains "the". */
  method GetThe() returns (found: seq<string>)
    ensures |found| == 1
  {
    QueryThe();
    TestSearch("the", ["the"]);
    var ri := DocumentReverseIndex.FromBuffer(TestDocuments());
    found := ri.Get("the", 10);
  }

  /**
   * The `get_ordered` test: two documents match, and the first one returned
   * is the first in the buffer, which is also the one matching more words.
   */
  method GetOrdered() returns (found: seq<string>)
    ensures |found| == 2
    ensures found[0] == TestDocuments()[0]
  {
    BrownFoxJumpsWords();
    QueryBrownFoxJumps();
    TestSearch("brown fox jumps", ["brown", "fox", "jumps"]);
    var ri := DocumentReverseIndex.FromBuffer(TestDocuments());
    found := ri.Get("brown fox jumps", 10);
  }

  /**
   * The `get_equal_query_quality` test: both matching documents contain
   * both words, and they come back in buffer order.
   */
  method GetEqualQueryQuality() returns (found: seq<string>)
    ensures |found| == 2
    ensures found[0] == TestDocuments()[0] && found[1] == TestDocuments()[2]
  {
    BrownJumpsWords();
    QueryBrownJumps();
    TestSearch("brown jumps", ["brown", "jumps"]);
    var ri := DocumentReverseIndex.FromBuffer(TestDocuments());
    found := ri.Get("brown jumps", 10);
  }
}
