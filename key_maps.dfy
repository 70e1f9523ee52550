/**
 * The key map at the centre of the reverse index: each key (a prefix or a word)
 * maps to the list of buffer positions indexed under it, in the order they
 * were pushed.
 */
module KeyMaps {

  /** The `BTreeMap<String, Vec<usize>>` of the reverse index. */
  type KeyMap = map<string, seq<nat>>

  /** The list held for key `k`; an absent key reads as the empty list. */
  function Lookup(m: KeyMap, k: string): seq<nat>
  {
    if k in m then m[k] else []
  }

  /** `c` copies of position `p`. */
  function Repeat(p: nat, c: nat): (r: seq<nat>)
    ensures |r| == c
    ensures forall i :: 0 <= i < c ==> r[i] == p
  {
    if c == 0 then [] else Repeat(p, c - 1) + [p]
  }

  /** Appending zero or one copy of `p` to `c` copies of `p`. */
  lemma RepeatSnoc(p: nat, c: nat, here: seq<nat>)
    requires here == [] || here == [p]
    ensures Repeat(p, c) + here == Repeat(p, c + |here|)
  {
    if here == [] {
      assert Repeat(p, c) + here == Repeat(p, c);
    }
  }

  /**
   * One insertion by an index function: push `p` at the end of the list of
   * `k`, or create the list `[p]` when `k` is absent.
   */
  function Push(m: KeyMap, k: string, p: nat): (m': KeyMap)
    ensures m'.Keys == m.Keys + {k}
    ensures Lookup(m', k) == Lookup(m, k) + [p]
    ensures forall j :: j != k ==> Lookup(m', j) == Lookup(m, j)
  {
    if k in m then m[k := m[k] + [p]] else m[k := [p]]
  }

  /** Every position held under any key is below `n`. */
  ghost predicate InRange(m: KeyMap, n: nat)
  {
    forall k, i :: 0 <= i < |Lookup(m, k)| ==> Lookup(m, k)[i] < n
  }

  /** Every key's list is non-decreasing (positions are pushed in build order). */
  ghost predicate Ordered(m: KeyMap)
  {
    forall k, i, j :: 0 <= i <= j < |Lookup(m, k)| ==> Lookup(m, k)[i] <= Lookup(m, k)[j]
  }

  function Min(a: nat, b: nat): nat
  {
    if a <= b then a else b
  }
}
