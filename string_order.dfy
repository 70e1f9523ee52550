/**
 * The natural order of `String` (Rust's `Ord`), and the `sort` and `dedup`
 * that the merge-and-reindex operation applies to the combined buffer.
 * Rust compares strings byte by byte; on UTF-8 text that is the lexicographic
 * order of the code points, which is what `Below` states on `char`s.
 */
module StringOrder {

  /** `a <= b` lexicographically. */
  predicate Below(a: string, b: string)
  {
    |a| == 0 || (|b| > 0 && (a[0] < b[0] || (a[0] == b[0] && Below(a[1..], b[1..]))))
  }

  lemma {:induction false} BelowTotal(a: string, b: string)
    ensures Below(a, b) || Below(b, a)
  {
    if |a| > 0 && |b| > 0 && a[0] == b[0] {
      BelowTotal(a[1..], b[1..]);
    }
  }

  lemma {:induction false} BelowAntisymmetric(a: string, b: string)
    requires Below(a, b) && Below(b, a)
    ensures a == b
  {
    if |a| > 0 && |b| > 0 {
      BelowAntisymmetric(a[1..], b[1..]);
      assert a == [a[0]] + a[1..];
      assert b == [b[0]] + b[1..];
    }
  }

  lemma {:induction false} BelowTransitive(a: string, b: string, c: string)
    requires Below(a, b) && Below(b, c)
    ensures Below(a, c)
  {
    if |a| > 0 && a[0] == b[0] && b[0] == c[0] {
      BelowTransitive(a[1..], b[1..], c[1..]);
    }
  }

  predicate Sorted(s: seq<string>)
  {
    forall i, j :: 0 <= i < j < |s| ==> Below(s[i], s[j])
  }

  /** Sorted with no two equal items. */
  predicate StrictlySorted(s: seq<string>)
  {
    forall i, j :: 0 <= i < j < |s| ==> Below(s[i], s[j]) && s[i] != s[j]
  }

  /** Inserts `x` into a sorted sequence, keeping it sorted. */
  function Insert(x: string, s: seq<string>): (r: seq<string>)
    requires Sorted(s)
    ensures Sorted(r)
    ensures multiset(r) == multiset(s) + multiset{x}
  {
    if s == [] then [x]
    else if Below(x, s[0]) then
      InsertInFront(x, s);
      [x] + s
    else
      var rest := Insert(x, s[1..]);
      InsertBehind(x, s, rest);
      [s[0]] + rest
  }

  lemma InsertInFront(x: string, s: seq<string>)
    requires Sorted(s) && s != [] && Below(x, s[0])
    ensures Sorted([x] + s)
  {
    forall j | 0 <= j < |s| ensures Below(x, s[j]) {
      if j > 0 {
        BelowTransitive(x, s[0], s[j]);
      }
    }
  }

  lemma InsertBehind(x: string, s: seq<string>, rest: seq<string>)
    requires Sorted(s) && s != [] && !Below(x, s[0])
    requires Sorted(rest) && multiset(rest) == multiset(s[1..]) + multiset{x}
    ensures Sorted([s[0]] + rest)
    ensures multiset([s[0]] + rest) == multiset(s) + multiset{x}
  {
    BelowTotal(x, s[0]);
    forall j | 0 <= j < |rest| ensures Below(s[0], rest[j]) {
      assert rest[j] in multiset(rest);
      if rest[j] != x {
        assert rest[j] in multiset(s[1..]);
        var m :| 0 <= m < |s[1..]| && s[1..][m] == rest[j];
        assert s[m + 1] == rest[j];
      }
    }
    assert s == [s[0]] + s[1..];
  }

  /** What `Vec::sort` leaves: the items in ascending order (insertion sort). */
  function Sort(s: seq<string>): (r: seq<string>)
    ensures Sorted(r)
    ensures multiset(r) == multiset(s)
  {
    if s == [] then []
    else
      assert s == [s[0]] + s[1..];
      Insert(s[0], Sort(s[1..]))
  }

  /** What `Vec::dedup` leaves: every run of equal adjacent items reduced to one. */
  function Dedup(s: seq<string>): (r: seq<string>)
    ensures forall x :: x in r <==> x in s
    ensures forall i :: 0 <= i < |r| - 1 ==> r[i] != r[i + 1]
    ensures |s| > 0 ==> |r| > 0 && r[0] == s[0]
    ensures (forall i :: 0 <= i < |s| - 1 ==> s[i] != s[i + 1]) ==> r == s
  {
    if |s| <= 1 then s
    else if s[0] == s[1] then
      assert s == [s[0]] + s[1..];
      Dedup(s[1..])
    else
      assert s == [s[0]] + s[1..];
      [s[0]] + Dedup(s[1..])
  }

  /**
   * `dedup` works run by run and keeps the order: where the last item of `a`
   * differs from the first of `b`, deduplicating `a + b` deduplicates each
   * part in place.
   */
  lemma {:induction false} DedupAppend(a: seq<string>, b: seq<string>)
    requires a != [] && b != [] && a[|a| - 1] != b[0]
    ensures Dedup(a + b) == Dedup(a) + Dedup(b)
  {
    assert (a + b)[0] == a[0];
    if |a| == 1 {
      assert (a + b)[1] == b[0];
      assert (a + b)[1..] == b;
    } else {
      assert (a + b)[1] == a[1];
      assert (a + b)[1..] == a[1..] + b;
      DedupAppend(a[1..], b);
    }
  }

  /** Only adjacent repeats go: an item repeated further on stays. */
  lemma DedupKeepsSeparatedRepeats()
    ensures Dedup(["a", "b", "a"]) == ["a", "b", "a"]
  {
    var s := ["a", "b", "a"];
    assert s[0] != s[1] && s[1] != s[2];
  }

  /** A run of equal items collapses to one item. */
  lemma DedupRun(x: string, s: seq<string>)
    ensures Dedup([x, x] + s) == Dedup([x] + s)
  {
    assert ([x, x] + s)[1..] == [x] + s;
  }

  /** Deduplicating a sorted sequence leaves it strictly sorted. */
  lemma {:induction false} DedupSorted(s: seq<string>)
    requires Sorted(s)
    ensures StrictlySorted(Dedup(s))
  {
    if |s| > 1 {
      DedupSorted(s[1..]);
      if s[0] != s[1] {
        var rest := Dedup(s[1..]);
        forall j | 0 <= j < |rest| ensures Below(s[0], rest[j]) && s[0] != rest[j] {
          assert rest[j] in s[1..];
          var m :| 1 <= m < |s| && s[m] == rest[j];
          if s[0] == s[m] {
            BelowAntisymmetric(s[0], s[1]);
          }
        }
      }
    }
  }

  /** Sorting then deduplicating: strictly sorted, with exactly the items of the input. */
  lemma SortDedup(s: seq<string>)
    ensures StrictlySorted(Dedup(Sort(s)))
    ensures forall x :: x in Dedup(Sort(s)) <==> x in s
  {
    DedupSorted(Sort(s));
    forall x ensures x in Sort(s) <==> x in s {
      assert x in multiset(Sort(s)) <==> x in multiset(s);
    }
  }
}
