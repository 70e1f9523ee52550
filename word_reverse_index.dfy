/**
 * The word-completion index: the core driven by the prefix split, so that
 * looking up a prefix gives back the words that start with it.
 */
module WordIndex {
  import opened KeyMaps
  import opened StringOrder
  import opened PrefixIndexing
  import opened Core

  predicate AllAscii(items: seq<string>)
  {
    forall i :: 0 <= i < |items| ==> IsAscii(items[i])
  }

  /** The items that have `k` as a non-empty prefix, in buffer order. */
  function Completions(items: seq<string>, k: string): seq<string>
  {
    if items == [] then []
    else
      var last := items[|items| - 1];
      Completions(items[..|items| - 1], k) + (if IsNonEmptyPrefix(k, last) then [last] else [])
  }

  /**
   * In a prefix-built map over ASCII items, the items held under `k` are
   * exactly the items that start with `k`, in buffer order, each once.
   */
  lemma {:induction false} AsciiLookup(buffer: seq<string>, k: string, n: nat)
    requires n <= |buffer| && AllAscii(buffer)
    ensures ItemsAt(buffer, Occurrences(SplitPrefixes, buffer, k, n)) == Completions(buffer[..n], k)
  {
    if n > 0 {
      var last := buffer[n - 1];
      var prev := Occurrences(SplitPrefixes, buffer, k, n - 1);
      var tail := Repeat(n - 1, Hits(SplitPrefixes, last, k));
      var here := if IsNonEmptyPrefix(k, last) then [last] else [];
      assert ItemsAt(buffer, tail) == here by {
        AsciiPrefixHits(last, k);
      }
      assert buffer[..n][..n - 1] == buffer[..n - 1];
      calc {
        ItemsAt(buffer, Occurrences(SplitPrefixes, buffer, k, n));
        ItemsAt(buffer, prev + tail);
        ItemsAt(buffer, prev) + ItemsAt(buffer, tail);
        { AsciiLookup(buffer, k, n - 1); }
        Completions(buffer[..n - 1], k) + here;
        Completions(buffer[..n], k);
      }
    }
  }

  class WordReverseIndex {
    const core: ReverseIndex

    /** The core is valid and its map is the prefix build of its buffer. */
    ghost predicate Valid()
      reads core
    {
      core.Valid() && core.keyMap == Build(SplitPrefixes, core.buffer)
    }

    /** Wraps a core built with the prefix split (`.apply(WordReverseIndex)`). */
    constructor (core: ReverseIndex)
      requires core.Valid() && core.keyMap == Build(SplitPrefixes, core.buffer)
      ensures this.core == core && Valid()
    {
      this.core := core;
    }

    /** `from_buffer`: builds the prefix index of `buffer`. */
    static method FromBuffer(buffer: seq<string>) returns (w: WordReverseIndex)
      ensures fresh(w) && fresh(w.core) && w.Valid()
      ensures w.core.buffer == buffer
    {
      var ri := new ReverseIndex.FromBuffer(buffer, SplitPrefixes);
      w := new WordReverseIndex(ri);
    }

    /**
     * `add_word`: appends `s` and indexes it under its prefixes only; the map
     * stays the prefix build of the longer buffer.
     */
    method AddWord(s: string)
      requires Valid()
      modifies core
      ensures Valid()
      ensures core.buffer == old(core.buffer) + [s]
      ensures forall k :: Lookup(core.keyMap, k) == Lookup(old(core.keyMap), k) + Repeat(|old(core.buffer)|, PrefixHits(s, k))
    {
      BuildAppend(SplitPrefixes, core.buffer, s);
      core.AddWord(s, SplitPrefixes);
    }

    /**
     * `get`: the words indexed under `search`. In general each item appears
     * once per push under `search`; on ASCII items these are exactly the items
     * that start with `search`, in buffer order.
     */
    function Get(search: string): (r: seq<string>)
      reads core
      requires Valid()
      ensures r == ItemsAt(core.buffer, Occurrences(SplitPrefixes, core.buffer, search, |core.buffer|))
      ensures AllAscii(core.buffer) ==> r == Completions(core.buffer, search)
    {
      BuildLookup(SplitPrefixes, core.buffer, search, |core.buffer|);
      if AllAscii(core.buffer) then
        AsciiLookup(core.buffer, search, |core.buffer|);
        assert core.buffer[..|core.buffer|] == core.buffer;
        core.Get(search)
      else
        core.Get(search)
    }

    /** `concatonate_dedup_and_reindex` with the prefix split. */
    method ConcatenateDedupAndReindex(more: seq<string>) returns (w: WordReverseIndex)
      requires Valid()
      ensures fresh(w) && fresh(w.core) && w.Valid()
      ensures StrictlySorted(w.core.buffer)
      ensures forall x :: x in w.core.buffer <==> x in core.buffer || x in more
    {
      var ri := core.ConcatenateDedupAndReindex(more, SplitPrefixes);
      w := new WordReverseIndex(ri);
    }
  }

  /** A word with a two-byte character is pushed twice under its whole-word key. */
  lemma TwoByteWordIndexedTwice()
    ensures Lookup(Build(SplitPrefixes, ["\U{E9}"]), "\U{E9}") == [0, 0]
  {
    BuildLookup(SplitPrefixes, ["\U{E9}"], "\U{E9}", 1);
  }

  /** The words of the `ri_substring` and `ri_fullstring` tests. */
  function TestWords(): seq<string>
  {
    ["app", "apple", "banana", "yeet", "hello", "hell"]
  }

  lemma TestWordsAreAscii()
    ensures AllAscii(TestWords())
    ensures AllAscii(["app", "apple", "yeet"])
  {
    assert IsAscii("app") && IsAscii("apple") && IsAscii("banana");
    assert IsAscii("yeet") && IsAscii("hello") && IsAscii("hell");
  }

  lemma CompletionsSnoc(items: seq<string>, x: string, k: string)
    ensures Completions(items + [x], k) == Completions(items, k) + (if IsNonEmptyPrefix(k, x) then [x] else [])
  {
    assert (items + [x])[..|items|] == items;
  }

  /** Completions over the test words, taken one word at a time. */
  lemma TestWordsSteps(k: string)
    ensures Completions(TestWords(), k) ==
            (if IsNonEmptyPrefix(k, "app") then ["app"] else [])
            + (if IsNonEmptyPrefix(k, "apple") then ["apple"] else [])
            + (if IsNonEmptyPrefix(k, "banana") then ["banana"] else [])
            + (if IsNonEmptyPrefix(k, "yeet") then ["yeet"] else [])
            + (if IsNonEmptyPrefix(k, "hello") then ["hello"] else [])
            + (if IsNonEmptyPrefix(k, "hell") then ["hell"] else [])
  {
    var w1, w2, w3 := ["app"], ["app", "apple"], ["app", "apple", "banana"];
    var w4, w5 := ["app", "apple", "banana", "yeet"], ["app", "apple", "banana", "yeet", "hello"];
    assert [] + ["app"] == w1 && w1 + ["apple"] == w2 && w2 + ["banana"] == w3;
    assert w3 + ["yeet"] == w4 && w4 + ["hello"] == w5 && w5 + ["hell"] == TestWords();
    CompletionsSnoc([], "app", k);
    CompletionsSnoc(w1, "apple", k);
    CompletionsSnoc(w2, "banana", k);
    CompletionsSnoc(w3, "yeet", k);
    CompletionsSnoc(w4, "hello", k);
    CompletionsSnoc(w5, "hell", k);
  }

  lemma TestWordsCompletions()
    ensures Completions(TestWords(), "app") == ["app", "apple"]
    ensures Completions(TestWords(), "apple") == ["apple"]
  {
    assert "banana"[..3] != "app" by { assert "banana"[0] != "app"[0]; }
    assert "yeet"[..3] != "app" by { assert "yeet"[0] != "app"[0]; }
    assert "hello"[..3] != "app" by { assert "hello"[0] != "app"[0]; }
    assert "hell"[..3] != "app" by { assert "hell"[0] != "app"[0]; }
    assert "banana"[..5] != "apple" by { assert "banana"[0] != "apple"[0]; }
    assert "hello"[..5] != "apple" by { assert "hello"[0] != "apple"[0]; }
    assert "apple"[..3] == "app";
    TestWordsSteps("app");
    TestWordsSteps("apple");
  }

  /** The `ri_substring` test: two words start with "app". */
  method RiSubstring() returns (found: seq<string>)
    ensures found == ["app", "apple"]
  {
    TestWordsAreAscii();
    TestWordsCompletions();
    var ri := WordReverseIndex.FromBuffer(TestWords());
    found := ri.Get("app");
  }

  /** The `ri_fullstring` test: one word starts with "apple". */
  method RiFullstring() returns (found: seq<string>)
    ensures found == ["apple"]
  {
    TestWordsAreAscii();
    TestWordsCompletions();
    var ri := WordReverseIndex.FromBuffer(TestWords());
    found := ri.Get("apple");
  }

  lemma AddWordCompletions()
    ensures Completions(["app", "apple", "yeet"], "ye") == ["yeet"]
  {
    assert "app"[..2] != "ye" by { assert "app"[0] != "ye"[0]; }
    assert "apple"[..2] != "ye" by { assert "apple"[0] != "ye"[0]; }
    assert "yeet"[..2] == "ye";
    CompletionsSnoc([], "app", "ye");
    CompletionsSnoc(["app"], "apple", "ye");
    CompletionsSnoc(["app", "apple"], "yeet", "ye");
    assert [] + ["app"] == ["app"] && ["app"] + ["apple"] == ["app", "apple"];
    assert ["app", "apple"] + ["yeet"] == ["app", "apple", "yeet"];
  }

  /** The `ri_add_word` test: after adding "yeet", "ye" completes to it alone. */
  method RiAddWord() returns (found: seq<string>)
    ensures found == ["yeet"]
  {
    TestWordsAreAscii();
    AddWordCompletions();
    var ri := WordReverseIndex.FromBuffer(["app", "apple"]);
    ri.AddWord("yeet");
    assert ri.core.buffer == ["app", "apple", "yeet"];
    found := ri.Get("ye");
  }
}
