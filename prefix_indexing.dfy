/**
 * The index function of the word-completion index: position `p` holding the
 * string `s` is pushed under every prefix of `s`.
 *
 * The loop counts up to the length of `s` in UTF-8 bytes, while each key is
 * made of the first `i` characters. For ASCII text the two agree and every
 * non-empty prefix receives `p` once; when a character needs more than one
 * byte, the loop runs past the last character and the whole string receives
 * `p` once more for every extra byte.
 */
module PrefixIndexing {
  import opened KeyMaps

  /** Bytes taken by `c` in UTF-8. */
  function Utf8Width(c: char): nat
  {
    if c as int < 0x80 then 1
    else if c as int < 0x800 then 2
    else if c as int < 0x1_0000 then 3
    else 4
  }

  /** `str::len`: the length of `s` in UTF-8 bytes, never less than its character count. */
  function ByteLen(s: string): (n: nat)
    ensures n >= |s|
  {
    if s == [] then 0 else Utf8Width(s[0]) + ByteLen(s[1..])
  }

  predicate IsAscii(s: string)
  {
    forall i :: 0 <= i < |s| ==> s[i] as int < 0x80
  }

  lemma {:induction false} AsciiByteLen(s: string)
    requires IsAscii(s)
    ensures ByteLen(s) == |s|
  {
    if s != [] {
      AsciiByteLen(s[1..]);
    }
  }

  predicate IsNonEmptyPrefix(k: string, s: string)
  {
    0 < |k| <= |s| && s[..|k|] == k
  }

  /** `s.chars().take(i).collect()`: the first `i` characters, or all of `s` if it is shorter. */
  function PrefixKey(s: string, i: nat): (k: string)
  {
    s[..Min(i, |s|)]
  }

  /** The map after the iterations `i = 1..=n` of the prefix loop. */
  function PushPrefixes(m: KeyMap, s: string, p: nat, n: nat): KeyMap
  {
    if n == 0 then m else Push(PushPrefixes(m, s, p, n - 1), PrefixKey(s, n), p)
  }

  /** The whole prefix loop for `s` at position `p`: `i` runs over `1..=s.len()`. */
  function SplitPrefixes(m: KeyMap, s: string, p: nat): KeyMap
  {
    PushPrefixes(m, s, p, ByteLen(s))
  }

  /** How many copies of its position a string `s` pushes under `k`. */
  function PrefixHits(s: string, k: string): nat
  {
    if !IsNonEmptyPrefix(k, s) then 0
    else if |k| < |s| then 1
    else ByteLen(s) - |s| + 1
  }

  /**
   * How many of the iterations `i = 1..=n` push under `k`: a shorter prefix
   * once, when `i` reaches its length; the whole of `s` at every `i` from
   * `|s|` on.
   */
  function PushCount(s: string, k: string, n: nat): nat
  {
    if IsNonEmptyPrefix(k, s) && |k| <= n then (if |k| < |s| then 1 else n - |s| + 1) else 0
  }

  /** Iteration `n` pushes under `k` exactly when its key is `k`. */
  lemma PrefixKeyStep(s: string, k: string, n: nat)
    requires 0 < n <= ByteLen(s)
    ensures PushCount(s, k, n) == PushCount(s, k, n - 1) + (if PrefixKey(s, n) == k then 1 else 0)
  {
    assert s != [];
  }

  /** After `n` iterations each key holds its old list plus the copies of `p` pushed so far. */
  lemma {:induction false} PushPrefixesLookup(m: KeyMap, s: string, p: nat, n: nat, k: string)
    requires n <= ByteLen(s)
    ensures Lookup(PushPrefixes(m, s, p, n), k) == Lookup(m, k) + Repeat(p, PushCount(s, k, n))
  {
    if n > 0 {
      var c := PushCount(s, k, n - 1);
      var here: seq<nat> := if PrefixKey(s, n) == k then [p] else [];
      PrefixKeyStep(s, k, n);
      calc {
        Lookup(PushPrefixes(m, s, p, n), k);
        Lookup(Push(PushPrefixes(m, s, p, n - 1), PrefixKey(s, n), p), k);
        Lookup(PushPrefixes(m, s, p, n - 1), k) + here;
        { PushPrefixesLookup(m, s, p, n - 1, k); }
        (Lookup(m, k) + Repeat(p, c)) + here;
        Lookup(m, k) + (Repeat(p, c) + here);
        { RepeatSnoc(p, c, here); }
        Lookup(m, k) + Repeat(p, c + |here|);
      }
    } else {
      assert Lookup(m, k) + Repeat(p, 0) == Lookup(m, k);
    }
  }

  /**
   * Indexing `s` at `p` appends `PrefixHits(s, k)` copies of `p` to the list
   * of every key `k` and changes nothing else: a key that is not a non-empty
   * prefix of `s` keeps its list, and the empty string adds no key at all.
   */
  lemma SplitPrefixesLookup(m: KeyMap, s: string, p: nat, k: string)
    ensures Lookup(SplitPrefixes(m, s, p), k) == Lookup(m, k) + Repeat(p, PrefixHits(s, k))
    ensures s == [] ==> SplitPrefixes(m, s, p) == m
  {
    PushPrefixesLookup(m, s, p, ByteLen(s), k);
  }

  /** On ASCII text each non-empty prefix receives the position exactly once. */
  lemma AsciiPrefixHits(s: string, k: string)
    requires IsAscii(s)
    ensures PrefixHits(s, k) == if IsNonEmptyPrefix(k, s) then 1 else 0
  {
    AsciiByteLen(s);
  }

  /**
   * `split_string_and_index` of the word index: for `i` in `1..=len`, push
   * `p` under the first `i` characters of `buffer[p]`.
   */
  method IndexPrefixes(m: KeyMap, buffer: seq<string>, p: nat) returns (m': KeyMap)
    requires p < |buffer|
    ensures m' == SplitPrefixes(m, buffer[p], p)
  {
    var s := buffer[p];
    var len := ByteLen(s);
    m' := m;
    for i := 1 to len + 1
      invariant m' == PushPrefixes(m, s, p, i - 1)
    {
      var key := PrefixKey(s, i);
      assert PushPrefixes(m, s, p, i) == Push(m', key, p);
      if key in m' {
        m' := m'[key := m'[key] + [p]];
      } else {
        m' := m'[key := [p]];
      }
    }
  }
}
