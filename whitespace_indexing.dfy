/**
 * The index function of the document index: position `p` holding the
 * document `s` is pushed under every whitespace-delimited word of `s`, once
 * per occurrence of the word.
 */
module WhitespaceIndexing {
  import opened KeyMaps

  /** `char::is_whitespace`: the characters with the Unicode White_Space property. */
  predicate IsWhitespace(c: char)
  {
    var n := c as int;
    (0x09 <= n <= 0x0D) || n == 0x20 || n == 0x85 || n == 0xA0 || n == 0x1680
    || (0x2000 <= n <= 0x200A) || n == 0x2028 || n == 0x2029 || n == 0x202F
    || n == 0x205F || n == 0x3000
  }

  /** A non-empty run of non-whitespace characters. */
  predicate IsWord(w: string)
  {
    |w| > 0 && forall j :: 0 <= j < |w| ==> !IsWhitespace(w[j])
  }

  /** The length of the run of non-whitespace characters at the start of `s`. */
  function WordLen(s: string): (n: nat)
    ensures n <= |s|
    ensures forall j :: 0 <= j < n ==> !IsWhitespace(s[j])
    ensures n < |s| ==> IsWhitespace(s[n])
  {
    if s == [] || IsWhitespace(s[0]) then 0 else 1 + WordLen(s[1..])
  }

  /** `str::split_whitespace`: the maximal runs of non-whitespace characters, left to right. */
  function Words(s: string): (ws: seq<string>)
    ensures forall i :: 0 <= i < |ws| ==> IsWord(ws[i])
    decreases |s|
  {
    if s == [] then []
    else if IsWhitespace(s[0]) then Words(s[1..])
    else
      var n := WordLen(s);
      [s[..n]] + Words(s[n..])
  }

  /** The words joined without separators. */
  function Concat(ws: seq<string>): string
  {
    if ws == [] then [] else ws[0] + Concat(ws[1..])
  }

  /** `s` with its whitespace characters removed. */
  function Squeeze(s: string): string
  {
    if s == [] then [] else (if IsWhitespace(s[0]) then [] else [s[0]]) + Squeeze(s[1..])
  }

  lemma {:induction false} SqueezeAppend(a: string, b: string)
    ensures Squeeze(a + b) == Squeeze(a) + Squeeze(b)
  {
    if a == [] {
      assert a + b == b;
    } else {
      var head := if IsWhitespace(a[0]) then [] else [a[0]];
      assert (a + b)[0] == a[0];
      assert (a + b)[1..] == a[1..] + b;
      calc {
        Squeeze(a + b);
        head + Squeeze(a[1..] + b);
        { SqueezeAppend(a[1..], b); }
        head + (Squeeze(a[1..]) + Squeeze(b));
        (head + Squeeze(a[1..])) + Squeeze(b);
        Squeeze(a) + Squeeze(b);
      }
    }
  }

  lemma {:induction false} SqueezeWord(w: string)
    requires forall j :: 0 <= j < |w| ==> !IsWhitespace(w[j])
    ensures Squeeze(w) == w
  {
    if w != [] {
      SqueezeWord(w[1..]);
    }
  }

  lemma {:induction false} SqueezeEmpty(s: string)
    ensures Squeeze(s) == [] <==> forall j :: 0 <= j < |s| ==> IsWhitespace(s[j])
  {
    if s != [] {
      SqueezeEmpty(s[1..]);
      assert forall j :: 1 <= j < |s| ==> s[j] == s[1..][j - 1];
    }
  }

  /** Splitting loses only whitespace: the words, joined, are `s` without its whitespace. */
  lemma {:induction false} WordsConcat(s: string)
    ensures Concat(Words(s)) == Squeeze(s)
    decreases |s|
  {
    if s != [] {
      if IsWhitespace(s[0]) {
        WordsConcat(s[1..]);
      } else {
        var n := WordLen(s);
        WordsConcat(s[n..]);
        assert s == s[..n] + s[n..];
        SqueezeAppend(s[..n], s[n..]);
        SqueezeWord(s[..n]);
        assert Words(s)[1..] == Words(s[n..]);
      }
    }
  }

  /** A document has no words exactly when it is empty or all whitespace. */
  lemma BlankHasNoWords(s: string)
    ensures Words(s) == [] <==> forall j :: 0 <= j < |s| ==> IsWhitespace(s[j])
  {
    WordsConcat(s);
    SqueezeEmpty(s);
    if Words(s) != [] {
      assert IsWord(Words(s)[0]);
      assert Concat(Words(s)) == Words(s)[0] + Concat(Words(s)[1..]);
    }
  }

  /** The words separated by single spaces. */
  function Join(ws: seq<string>): string
  {
    if ws == [] then [] else if |ws| == 1 then ws[0] else ws[0] + " " + Join(ws[1..])
  }

  lemma {:induction false} WordLenOfWord(w: string, rest: string)
    requires IsWord(w) && (rest == [] || IsWhitespace(rest[0]))
    ensures WordLen(w + rest) == |w|
    decreases |w|
  {
    if |w| > 1 {
      assert (w + rest)[1..] == w[1..] + rest;
      WordLenOfWord(w[1..], rest);
    } else {
      assert (w + rest)[1..] == rest;
    }
  }

  /** Splitting words joined by single spaces gives the words back. */
  lemma {:induction false} JoinWords(ws: seq<string>)
    requires forall i :: 0 <= i < |ws| ==> IsWord(ws[i])
    ensures Words(Join(ws)) == ws
  {
    if |ws| == 1 {
      WordLenOfWord(ws[0], []);
      assert ws[0] + [] == ws[0];
      assert Join(ws)[WordLen(Join(ws))..] == [];
    } else if |ws| > 1 {
      var rest := " " + Join(ws[1..]);
      assert Join(ws) == ws[0] + rest;
      WordLenOfWord(ws[0], rest);
      assert Join(ws)[|ws[0]|..] == rest;
      assert (ws[0] + rest)[..|ws[0]|] == ws[0];
      JoinWords(ws[1..]);
      assert rest[1..] == Join(ws[1..]);
      assert Words(rest) == Words(Join(ws[1..]));
    }
  }

  /** The map after pushing `p` under each of `ws`, in order. */
  function PushWords(m: KeyMap, ws: seq<string>, p: nat): KeyMap
  {
    if ws == [] then m else Push(PushWords(m, ws[..|ws| - 1], p), ws[|ws| - 1], p)
  }

  /** The whole word loop for document `s` at position `p`. */
  function SplitWords(m: KeyMap, s: string, p: nat): KeyMap
  {
    PushWords(m, Words(s), p)
  }

  /** The count of `k` among `ws` is its count before the last word, plus the last word. */
  lemma CountLast(ws: seq<string>, k: string)
    requires ws != []
    ensures multiset(ws)[k] == multiset(ws[..|ws| - 1])[k] + (if ws[|ws| - 1] == k then 1 else 0)
  {
    assert ws == ws[..|ws| - 1] + [ws[|ws| - 1]];
  }

  /** Pushing the words appends one copy of `p` per occurrence of a key among them. */
  lemma {:induction false} PushWordsLookup(m: KeyMap, ws: seq<string>, p: nat, k: string)
    ensures Lookup(PushWords(m, ws, p), k) == Lookup(m, k) + Repeat(p, multiset(ws)[k])
  {
    if ws != [] {
      var init, last := ws[..|ws| - 1], ws[|ws| - 1];
      var c := multiset(init)[k];
      var here: seq<nat> := if last == k then [p] else [];
      CountLast(ws, k);
      calc {
        Lookup(PushWords(m, ws, p), k);
        Lookup(Push(PushWords(m, init, p), last, p), k);
        Lookup(PushWords(m, init, p), k) + here;
        { PushWordsLookup(m, init, p, k); }
        (Lookup(m, k) + Repeat(p, c)) + here;
        Lookup(m, k) + (Repeat(p, c) + here);
        { RepeatSnoc(p, c, here); }
        Lookup(m, k) + Repeat(p, c + |here|);
      }
    } else {
      assert Lookup(m, k) + Repeat(p, 0) == Lookup(m, k);
    }
  }

  /**
   * Indexing document `s` at `p` appends one copy of `p` to the list of each
   * word of `s` for each time the word occurs; keys that are not words of
   * `s` keep their lists, and a blank document changes nothing.
   */
  lemma SplitWordsLookup(m: KeyMap, s: string, p: nat, k: string)
    ensures Lookup(SplitWords(m, s, p), k) == Lookup(m, k) + Repeat(p, multiset(Words(s))[k])
    ensures (forall j :: 0 <= j < |s| ==> IsWhitespace(s[j])) ==> SplitWords(m, s, p) == m
  {
    PushWordsLookup(m, Words(s), p, k);
    BlankHasNoWords(s);
  }

  /**
   * `split_string_and_index` of the document index: for each word of
   * `buffer[p]`, push `p` under that word.
   */
  method IndexWords(m: KeyMap, buffer: seq<string>, p: nat) returns (m': KeyMap)
    requires p < |buffer|
    ensures m' == SplitWords(m, buffer[p], p)
  {
    var words := Words(buffer[p]);
    m' := m;
    for j := 0 to |words|
      invariant m' == PushWords(m, words[..j], p)
    {
      var word := words[j];
      assert words[..j + 1][..j] == words[..j];
      assert PushWords(m, words[..j + 1], p) == Push(m', word, p);
      if word in m' {
        m' := m'[word := m'[word] + [p]];
      } else {
        m' := m'[word := [p]];
      }
    }
    assert words[..|words|] == words;
  }
}
