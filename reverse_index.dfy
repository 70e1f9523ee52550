/**
 * The generic reverse index: a buffer of items and a map from keys to the
 * buffer positions indexed under them, populated by an index function that is
 * run once per position.
 */
module Core {
  import opened KeyMaps
  import opened StringOrder
  import PrefixIndexing
  import WhitespaceIndexing

  /**
   * The index function handed to the core. The two functions of the library
   * are the only ones it is ever given: the prefix split of the word index
   * and the whitespace split of the document index.
   */
  datatype IndexFn = SplitPrefixes | SplitWords

  /** The map after running `f` for position `p` of `buffer`. */
  function Step(f: IndexFn, m: KeyMap, buffer: seq<string>, p: nat): KeyMap
    requires p < |buffer|
  {
    match f
    case SplitPrefixes => PrefixIndexing.SplitPrefixes(m, buffer[p], p)
    case SplitWords => WhitespaceIndexing.SplitWords(m, buffer[p], p)
  }

  /** How many copies of its position the item `s` receives under key `k` from `f`. */
  function Hits(f: IndexFn, s: string, k: string): nat
  {
    match f
    case SplitPrefixes => PrefixIndexing.PrefixHits(s, k)
    case SplitWords => multiset(WhitespaceIndexing.Words(s))[k]
  }

  /**
   * An index function only appends its own position: every list becomes the
   * old list followed by `Hits` copies of `p`.
   */
  lemma StepLookup(f: IndexFn, m: KeyMap, buffer: seq<string>, p: nat, k: string)
    requires p < |buffer|
    ensures Lookup(Step(f, m, buffer, p), k) == Lookup(m, k) + Repeat(p, Hits(f, buffer[p], k))
  {
    match f
    case SplitPrefixes => PrefixIndexing.SplitPrefixesLookup(m, buffer[p], p, k);
    case SplitWords => WhitespaceIndexing.SplitWordsLookup(m, buffer[p], p, k);
  }

  /**
   * A list of positions below `p`, in order, stays in order and below
   * `p + 1` when copies of `p` are appended.
   */
  lemma AppendKeepsList(before: seq<nat>, after: seq<nat>, p: nat, c: nat)
    requires after == before + Repeat(p, c)
    requires forall i :: 0 <= i < |before| ==> before[i] < p
    requires forall i, j :: 0 <= i <= j < |before| ==> before[i] <= before[j]
    ensures forall i :: 0 <= i < |after| ==> after[i] < p + 1
    ensures forall i, j :: 0 <= i <= j < |after| ==> after[i] <= after[j]
  {
    forall i, j | 0 <= i <= j < |after| ensures after[i] <= after[j] {
      if i < |before| && |before| <= j {
        assert after[i] == before[i] && after[j] == p;
      }
    }
  }

  /**
   * Running an index function for position `p` on a map whose positions are
   * all below `p` keeps every position below `p + 1` and every list in order.
   */
  lemma StepKeepsInvariants(f: IndexFn, m: KeyMap, buffer: seq<string>, p: nat)
    requires p < |buffer|
    requires InRange(m, p) && Ordered(m)
    ensures InRange(Step(f, m, buffer, p), p + 1)
    ensures Ordered(Step(f, m, buffer, p))
  {
    var m' := Step(f, m, buffer, p);
    forall k
      ensures forall i :: 0 <= i < |Lookup(m', k)| ==> Lookup(m', k)[i] < p + 1
      ensures forall i, j :: 0 <= i <= j < |Lookup(m', k)| ==> Lookup(m', k)[i] <= Lookup(m', k)[j]
    {
      StepLookup(f, m, buffer, p, k);
      AppendKeepsList(Lookup(m, k), Lookup(m', k), p, Hits(f, buffer[p], k));
    }
  }

  /** The map after running `f` for positions `0..n`, in ascending order, from an empty map. */
  function BuildUpTo(f: IndexFn, buffer: seq<string>, n: nat): KeyMap
    requires n <= |buffer|
  {
    if n == 0 then map[] else Step(f, BuildUpTo(f, buffer, n - 1), buffer, n - 1)
  }

  /** The map `from_buffer` produces. */
  function Build(f: IndexFn, buffer: seq<string>): KeyMap
  {
    BuildUpTo(f, buffer, |buffer|)
  }

  /** Positions `0..n` in ascending order, each as many times as `f` indexes its item under `k`. */
  function Occurrences(f: IndexFn, buffer: seq<string>, k: string, n: nat): (r: seq<nat>)
    requires n <= |buffer|
    ensures forall i :: 0 <= i < |r| ==> r[i] < n
  {
    if n == 0 then [] else Occurrences(f, buffer, k, n - 1) + Repeat(n - 1, Hits(f, buffer[n - 1], k))
  }

  /** One more position of the build appends only that position's copies. */
  lemma BuildUpToLookup(f: IndexFn, buffer: seq<string>, k: string, n: nat)
    requires 0 < n <= |buffer|
    ensures Lookup(BuildUpTo(f, buffer, n), k) ==
            Lookup(BuildUpTo(f, buffer, n - 1), k) + Repeat(n - 1, Hits(f, buffer[n - 1], k))
  {
    var prev := BuildUpTo(f, buffer, n - 1);
    assert BuildUpTo(f, buffer, n) == Step(f, prev, buffer, n - 1);
    StepLookup(f, prev, buffer, n - 1, k);
  }

  /**
   * In a built map, the list of `k` holds exactly the positions whose index
   * run pushed under `k`, in the order of those pushes.
   */
  lemma {:induction false} BuildLookup(f: IndexFn, buffer: seq<string>, k: string, n: nat)
    requires n <= |buffer|
    ensures Lookup(BuildUpTo(f, buffer, n), k) == Occurrences(f, buffer, k, n)
  {
    if n > 0 {
      var extra := Repeat(n - 1, Hits(f, buffer[n - 1], k));
      calc {
        Lookup(BuildUpTo(f, buffer, n), k);
      == { BuildUpToLookup(f, buffer, k, n); }
        Lookup(BuildUpTo(f, buffer, n - 1), k) + extra;
      == { BuildLookup(f, buffer, k, n - 1); }
        Occurrences(f, buffer, k, n - 1) + extra;
      ==
        Occurrences(f, buffer, k, n);
      }
    }
  }

  lemma {:induction false} OccurrencesMembership(f: IndexFn, buffer: seq<string>, k: string, n: nat, i: nat)
    requires n <= |buffer|
    ensures i in Occurrences(f, buffer, k, n) <==> i < n && Hits(f, buffer[i], k) > 0
  {
    if n > 0 {
      var prev := Occurrences(f, buffer, k, n - 1);
      var last := Repeat(n - 1, Hits(f, buffer[n - 1], k));
      assert Occurrences(f, buffer, k, n) == prev + last;
      assert i in prev + last <==> i in prev || i in last;
      OccurrencesMembership(f, buffer, k, n - 1, i);
      assert i in last <==> i == n - 1 && |last| > 0;
    }
  }

  /** The positions of `Occurrences` never decrease. */
  lemma {:induction false} OccurrencesAscending(f: IndexFn, buffer: seq<string>, k: string, n: nat)
    requires n <= |buffer|
    ensures forall i, j :: 0 <= i <= j < |Occurrences(f, buffer, k, n)| ==>
              Occurrences(f, buffer, k, n)[i] <= Occurrences(f, buffer, k, n)[j]
  {
    if n > 0 {
      OccurrencesAscending(f, buffer, k, n - 1);
      var prev := Occurrences(f, buffer, k, n - 1);
      var extra := Repeat(n - 1, Hits(f, buffer[n - 1], k));
      assert Occurrences(f, buffer, k, n) == prev + extra;
      forall i, j | 0 <= i <= j < |prev + extra| ensures (prev + extra)[i] <= (prev + extra)[j] {
        if i < |prev| && |prev| <= j {
          assert prev[i] < n - 1;
        }
      }
    }
  }

  /** A built map holds only positions of the buffer, each list in build order. */
  lemma BuildInvariants(f: IndexFn, buffer: seq<string>, n: nat)
    requires n <= |buffer|
    ensures InRange(BuildUpTo(f, buffer, n), n)
    ensures Ordered(BuildUpTo(f, buffer, n))
  {
    var m := BuildUpTo(f, buffer, n);
    forall k, i | 0 <= i < |Lookup(m, k)| ensures Lookup(m, k)[i] < n {
      BuildLookup(f, buffer, k, n);
    }
    forall k, i, j | 0 <= i <= j < |Lookup(m, k)| ensures Lookup(m, k)[i] <= Lookup(m, k)[j] {
      BuildLookup(f, buffer, k, n);
      OccurrencesAscending(f, buffer, k, n);
    }
  }

  /** Building only reads the items below `n`. */
  lemma {:induction false} BuildUpToPrefix(f: IndexFn, a: seq<string>, b: seq<string>, n: nat)
    requires n <= |a| && n <= |b| && a[..n] == b[..n]
    ensures BuildUpTo(f, a, n) == BuildUpTo(f, b, n)
  {
    if n > 0 {
      assert a[..n - 1] == a[..n][..n - 1] && b[..n - 1] == b[..n][..n - 1];
      BuildUpToPrefix(f, a, b, n - 1);
      assert a[n - 1] == a[..n][n - 1] == b[..n][n - 1] == b[n - 1];
    }
  }

  /** Appending an item and indexing only its position gives the map of a full rebuild. */
  lemma BuildAppend(f: IndexFn, buffer: seq<string>, item: string)
    ensures Build(f, buffer + [item]) == Step(f, Build(f, buffer), buffer + [item], |buffer|)
  {
    BuildUpToPrefix(f, buffer, buffer + [item], |buffer|);
  }

  /** Maps positions to the items they hold. */
  function ItemsAt(buffer: seq<string>, ps: seq<nat>): (r: seq<string>)
    requires forall i :: 0 <= i < |ps| ==> ps[i] < |buffer|
    ensures |r| == |ps|
    ensures forall i :: 0 <= i < |ps| ==> r[i] == buffer[ps[i]]
  {
    if ps == [] then [] else [buffer[ps[0]]] + ItemsAt(buffer, ps[1..])
  }

  /** Runs the index function `f` for position `p`: `index_fn(&mut ri, p)`. */
  method RunIndexFn(f: IndexFn, m: KeyMap, buffer: seq<string>, p: nat) returns (m': KeyMap)
    requires p < |buffer|
    ensures m' == Step(f, m, buffer, p)
  {
    match f
    case SplitPrefixes => m' := PrefixIndexing.IndexPrefixes(m, buffer, p);
    case SplitWords => m' := WhitespaceIndexing.IndexWords(m, buffer, p);
  }

  class ReverseIndex {
    var keyMap: KeyMap
    var buffer: seq<string>

    /** Every stored position is a position of the buffer, and every list is in build order. */
    ghost predicate Valid()
      reads this
    {
      InRange(keyMap, |buffer|) && Ordered(keyMap)
    }

    /**
     * `from_buffer`: keeps `items` as the buffer and runs `f` once for each
     * position, in ascending order, starting from an empty map.
     */
    constructor FromBuffer(items: seq<string>, f: IndexFn)
      ensures Valid()
      ensures buffer == items
      ensures keyMap == Build(f, items)
      ensures items == [] ==> keyMap == map[]
    {
      keyMap := map[];
      buffer := items;
      new;
      for index := 0 to |buffer|
        invariant buffer == items
        invariant keyMap == BuildUpTo(f, buffer, index)
      {
        assert BuildUpTo(f, buffer, index + 1) == Step(f, keyMap, buffer, index);
        keyMap := RunIndexFn(f, keyMap, buffer, index);
      }
      BuildInvariants(f, buffer, |buffer|);
    }

    /** The `Index<usize>` impl: the item at position `i`. */
    function Index(i: nat): (r: string)
      reads this
      requires i < |buffer|
      ensures r == buffer[i]
    {
      buffer[i]
    }

    /**
     * `add_word`: appends `item` and runs `f` for the new position only. Old
     * positions keep their items, and each list gains only copies of the new
     * position.
     */
    method AddWord(item: string, f: IndexFn)
      requires Valid()
      modifies this
      ensures Valid()
      ensures buffer == old(buffer) + [item]
      ensures keyMap == Step(f, old(keyMap), buffer, |old(buffer)|)
      ensures forall k :: Lookup(keyMap, k) == Lookup(old(keyMap), k) + Repeat(|old(buffer)|, Hits(f, item, k))
    {
      buffer := buffer + [item];
      var length := |buffer|;
      StepKeepsInvariants(f, keyMap, buffer, length - 1);
      forall k ensures Lookup(Step(f, keyMap, buffer, length - 1), k) == Lookup(keyMap, k) + Repeat(length - 1, Hits(f, item, k)) {
        StepLookup(f, keyMap, buffer, length - 1, k);
      }
      keyMap := RunIndexFn(f, keyMap, buffer, length - 1);
    }

    /**
     * `get`: the items at the positions held under `search`, in the stored
     * order, or nothing when the key is absent.
     */
    function Get(search: string): (r: seq<string>)
      reads this
      requires Valid()
      ensures |r| == |Lookup(keyMap, search)|
      ensures forall i :: 0 <= i < |r| ==> r[i] == buffer[Lookup(keyMap, search)[i]]
      ensures search !in keyMap ==> r == []
    {
      if search in keyMap then
        assert keyMap[search] == Lookup(keyMap, search);
        ItemsAt(buffer, keyMap[search])
      else
        []
    }

    /** `eject_buffer`: gives back the items. */
    function EjectBuffer(): (r: seq<string>)
      reads this
      ensures r == buffer
    {
      buffer
    }

    /**
     * `concatonate_dedup_and_reindex`: appends `more` to the ejected buffer,
     * sorts, removes adjacent duplicates and builds a fresh index with `f`.
     */
    method ConcatenateDedupAndReindex(more: seq<string>, f: IndexFn) returns (r: ReverseIndex)
      ensures fresh(r) && r.Valid()
      ensures r.buffer == Dedup(Sort(buffer + more))
      ensures StrictlySorted(r.buffer)
      ensures forall x :: x in r.buffer <==> x in buffer || x in more
      ensures r.keyMap == Build(f, r.buffer)
    {
      var combined := EjectBuffer();
      combined := combined + more;
      combined := Sort(combined);
      combined := Dedup(combined);
      SortDedup(buffer + more);
      r := new ReverseIndex.FromBuffer(combined, f);
    }
  }
}
