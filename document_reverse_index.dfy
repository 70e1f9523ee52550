/**
 * The document-search index: the core driven by the whitespace split, so
 * that a query of several words finds the documents containing any of them.
 *
 * The search tallies, per position, how many times it was found, but then
 * hands out the positions in ascending order and drops the tallies: results
 * come in buffer order, not ranked by the number of matching words.
 */
module DocumentIndex {
  import opened KeyMaps
  import opened StringOrder
  import opened WhitespaceIndexing
  import opened Core
  import opened Iteration

  function Elements(ps: seq<nat>): set<nat>
  {
    set x | x in ps
  }

  /** The positions held under any of the words `ws`. */
  function MatchedPositions(m: KeyMap, ws: seq<string>): set<nat>
  {
    if ws == [] then {} else MatchedPositions(m, ws[..|ws| - 1]) + Elements(Lookup(m, ws[|ws| - 1]))
  }

  lemma {:induction false} MatchedPositionsMembership(m: KeyMap, ws: seq<string>, x: nat)
    ensures x in MatchedPositions(m, ws) <==> exists j :: 0 <= j < |ws| && x in Lookup(m, ws[j])
  {
    if ws != [] {
      var init := ws[..|ws| - 1];
      MatchedPositionsMembership(m, init, x);
      if x in MatchedPositions(m, ws) && x !in MatchedPositions(m, init) {
        assert x in Lookup(m, ws[|ws| - 1]);
      }
      if j :| 0 <= j < |ws| && x in Lookup(m, ws[j]) {
        if j < |ws| - 1 {
          assert ws[j] == init[j];
        }
      }
    }
  }

  /**
   * The members of `s` below `bound`, in ascending order: the order in which
   * a `BTreeMap` hands out its keys.
   */
  function Ascending(s: set<nat>, bound: nat): (r: seq<nat>)
    ensures forall i :: 0 <= i < |r| ==> r[i] < bound
    ensures forall i, j :: 0 <= i < j < |r| ==> r[i] < r[j]
    ensures forall x :: x in r <==> x in s && x < bound
  {
    if bound == 0 then []
    else
      var prev := Ascending(s, bound - 1);
      assert forall i :: 0 <= i < |prev| ==> prev[i] < bound - 1;
      prev + (if bound - 1 in s then [bound - 1] else [])
  }

  /** The positions a search for `search` yields over a map with positions below `bound`. */
  function SearchPositions(m: KeyMap, search: string, bound: nat): (r: seq<nat>)
    ensures forall i :: 0 <= i < |r| ==> r[i] < bound
  {
    Ascending(MatchedPositions(m, Words(search)), bound)
  }

  /**
   * When every stored position is below `bound`, a search yields each
   * position held under any word of the query, and nothing else.
   */
  lemma SearchPositionsMembership(m: KeyMap, search: string, bound: nat, x: nat)
    requires InRange(m, bound)
    ensures x in SearchPositions(m, search, bound) <==>
            exists j :: 0 <= j < |Words(search)| && x in Lookup(m, Words(search)[j])
  {
    var ws := Words(search);
    MatchedPositionsMembership(m, ws, x);
    if j :| 0 <= j < |ws| && x in Lookup(m, ws[j]) {
      var i :| 0 <= i < |Lookup(m, ws[j])| && Lookup(m, ws[j])[i] == x;
    }
  }

  /** A query none of whose words is a key, including a blank query, finds nothing. */
  lemma NoMatchFindsNothing(m: KeyMap, search: string, bound: nat)
    requires InRange(m, bound)
    requires forall j :: 0 <= j < |Words(search)| ==> Words(search)[j] !in m
    ensures SearchPositions(m, search, bound) == []
  {
    var r := SearchPositions(m, search, bound);
    if r != [] {
      SearchPositionsMembership(m, search, bound, r[0]);
    }
  }

  /**
   * The inner fold of `get_raw_indicies`: each position of `indices` gets its
   * tally raised by one, entering the map with 1 the first time it is seen.
   */
  method Tally(counts: map<nat, nat>, indices: seq<nat>) returns (counts': map<nat, nat>)
    ensures counts'.Keys == counts.Keys + Elements(indices)
    ensures forall x :: x in counts' ==>
              counts'[x] == (if x in counts then counts[x] else 0) + multiset(indices)[x]
  {
    counts' := counts;
    for t := 0 to |indices|
      invariant counts'.Keys == counts.Keys + Elements(indices[..t])
      invariant forall x :: x in counts' ==>
                  counts'[x] == (if x in counts then counts[x] else 0) + multiset(indices[..t])[x]
    {
      assert indices[..t + 1] == indices[..t] + [indices[t]];
      var index := indices[t];
      if index in counts' {
        counts' := counts'[index := counts'[index] + 1];
      } else {
        counts' := counts'[index := 1];
      }
    }
    assert indices[..|indices|] == indices;
  }

  /** `filter_map(|index| buffer.get(index))`: the items at the positions inside the buffer. */
  function ItemsInBuffer(ps: seq<nat>, buffer: seq<string>): (r: seq<string>)
    ensures (forall i :: 0 <= i < |ps| ==> ps[i] < |buffer|) ==>
              |r| == |ps| && forall i :: 0 <= i < |ps| ==> r[i] == buffer[ps[i]]
  {
    if ps == [] then []
    else (if ps[0] < |buffer| then [buffer[ps[0]]] else []) + ItemsInBuffer(ps[1..], buffer)
  }

  /**
   * Over a whitespace-built map, a search yields exactly the documents that
   * contain at least one of the query's words.
   */
  lemma SearchFindsDocuments(buffer: seq<string>, search: string, i: nat)
    ensures i in SearchPositions(Build(SplitWords, buffer), search, |buffer|) <==>
            i < |buffer| && exists j :: 0 <= j < |Words(search)| && Words(search)[j] in Words(buffer[i])
  {
    var m, ws := Build(SplitWords, buffer), Words(search);
    MatchedPositionsMembership(m, ws, i);
    forall j | 0 <= j < |ws|
      ensures i in Lookup(m, ws[j]) <==> i < |buffer| && ws[j] in Words(buffer[i])
    {
      BuildLookup(SplitWords, buffer, ws[j], |buffer|);
      OccurrencesMembership(SplitWords, buffer, ws[j], |buffer|, i);
      if i < |buffer| {
        assert ws[j] in Words(buffer[i]) <==> ws[j] in multiset(Words(buffer[i]));
      }
    }
  }

  class DocumentReverseIndex {
    const core: ReverseIndex

    /** The core is valid and its map is the whitespace build of its buffer. */
    ghost predicate Valid()
      reads core
    {
      core.Valid() && core.keyMap == Build(SplitWords, core.buffer)
    }

    /** Wraps a core built with the whitespace split (`.apply(DocumentReverseIndex)`). */
    constructor (core: ReverseIndex)
      requires core.Valid() && core.keyMap == Build(SplitWords, core.buffer)
      ensures this.core == core && Valid()
    {
      this.core := core;
    }

    /** `from_buffer`: builds the word index of the documents, with no deduplication. */
    static method FromBuffer(buffer: seq<string>) returns (d: DocumentReverseIndex)
      ensures fresh(d) && fresh(d.core) && d.Valid()
      ensures d.core.buffer == buffer
    {
      var ri := new ReverseIndex.FromBuffer(buffer, SplitWords);
      d := new DocumentReverseIndex(ri);
    }

    /**
     * `add_document`: appends `s` and indexes its words only; each word gains
     * one copy of the new position per occurrence in `s`.
     */
    method AddDocument(s: string)
      requires Valid()
      modifies core
      ensures Valid()
      ensures core.buffer == old(core.buffer) + [s]
      ensures forall k :: Lookup(core.keyMap, k) == Lookup(old(core.keyMap), k) + Repeat(|old(core.buffer)|, multiset(Words(s))[k])
    {
      BuildAppend(SplitWords, core.buffer, s);
      core.AddWord(s, SplitWords);
    }

    /**
     * `get_raw_indicies`: every position held under any word of `search`,
     * each once, in ascending order; words absent from the map add nothing.
     */
    method GetRawIndices(search: string) returns (r: seq<nat>)
      requires Valid()
      ensures r == SearchPositions(core.keyMap, search, |core.buffer|)
      ensures forall i, j :: 0 <= i < j < |r| ==> r[i] < r[j]
      ensures forall x :: x in r <==> exists j :: 0 <= j < |Words(search)| && x in Lookup(core.keyMap, Words(search)[j])
    {
      var m := core.keyMap;
      var searchWords := Words(search);
      var counts: map<nat, nat> := map[];
      for j := 0 to |searchWords|
        invariant counts.Keys == MatchedPositions(m, searchWords[..j])
      {
        var word := searchWords[j];
        assert searchWords[..j + 1][..j] == searchWords[..j];
        assert MatchedPositions(m, searchWords[..j + 1]) ==
               MatchedPositions(m, searchWords[..j]) + Elements(Lookup(m, word));
        if word in m {
          counts := Tally(counts, m[word]);
        } else {
          assert Elements(Lookup(m, word)) == {};
        }
      }
      assert searchWords[..|searchWords|] == searchWords;
      r := Ascending(counts.Keys, |core.buffer|);
      forall x ensures x in r <==> exists j :: 0 <= j < |searchWords| && x in Lookup(m, searchWords[j]) {
        SearchPositionsMembership(m, search, |core.buffer|, x);
      }
    }

    /**
     * `get`: the documents at the first `n` positions of the search, in
     * ascending position order.
     */
    method Get(search: string, n: nat) returns (r: seq<string>)
      requires Valid()
      ensures var ps := SearchPositions(core.keyMap, search, |core.buffer|);
              |r| == Min(n, |ps|) && forall i :: 0 <= i < |r| ==> r[i] == core.buffer[ps[i]]
    {
      var raw := GetRawIndices(search);
      var found := ItemsInBuffer(raw, core.buffer);
      r := found[..Min(n, |found|)];
    }

    /**
     * `get_indices`: handles to the same positions as `get`, in the same
     * order and with the same bound.
     */
    method GetIndices(search: string, n: nat) returns (r: seq<RiIndex>)
      requires Valid()
      ensures var ps := SearchPositions(core.keyMap, search, |core.buffer|);
              |r| == Min(n, |ps|) && forall i :: 0 <= i < |r| ==> r[i] == RiIndex(ps[i], core)
      ensures forall i :: 0 <= i < |r| ==> r[i].index < |core.buffer|
    {
      var raw := GetRawIndices(search);
      var handles := seq(|raw|, i requires 0 <= i < |raw| => RiIndex(raw[i], core));
      r := handles[..Min(n, |handles|)];
    }

    /** `concatonate_dedup_and_reindex` with the whitespace split. */
    method ConcatenateDedupAndReindex(more: seq<string>) returns (d: DocumentReverseIndex)
      requires Valid()
      ensures fresh(d) && fresh(d.core) && d.Valid()
      ensures StrictlySorted(d.core.buffer)
      ensures forall x :: x in d.core.buffer <==> x in core.buffer || x in more
    {
      var ri := core.ConcatenateDedupAndReindex(more, SplitWords);
      d := new DocumentReverseIndex(ri);
    }
  }
}
