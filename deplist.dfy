/**
 * First-occurrence deduplication of a dependency list, as `parseDeps` builds
 * `depList`: scan left to right and append an id only when it is not
 * already in the list.
 */
module DepList {

  /** The list `parseDeps` accumulates after scanning all of `s`. */
  function Dedup(s: seq<string>): (d: seq<string>)
    // never longer than the input, and the first id always comes first
    ensures |d| <= |s|
    ensures s != [] ==> d != [] && d[0] == s[0]
    decreases |s|
  {
    if s == [] then []
    else
      var d := Dedup(s[..|s| - 1]);
      if s[|s| - 1] in d then d else d + [s[|s| - 1]]
  }

  predicate Distinct(s: seq<string>)
  {
    forall i, j | 0 <= i < j < |s| :: s[i] != s[j]
  }

  /** The index of the first occurrence of `x` in `s`. */
  function FirstIndex(s: seq<string>, x: string): (k: nat)
    requires x in s
    ensures k < |s| && s[k] == x && x !in s[..k]
  {
    if s[0] == x then 0
    else
      var k := FirstIndex(s[1..], x);
      assert s[1..][..k] == s[1..k + 1];
      assert s[..k + 1] == [s[0]] + s[1..k + 1];
      k + 1
  }

  /** An id absent from a prefix differs from each of its positions. */
  lemma NotInPrefix(s: seq<string>, x: string, n: nat)
    requires n <= |s| && x !in s[..n]
    ensures forall i | 0 <= i < n :: s[i] != x
  {
    forall i | 0 <= i < n ensures s[i] != x {
      assert s[..n][i] == s[i];
    }
  }

  /** `d` lists its elements in the order in which they first occur in `s`. */
  predicate InFirstOccurrenceOrder(s: seq<string>, d: seq<string>)
    requires forall x | x in d :: x in s
  {
    forall i, j | 0 <= i < j < |d| :: FirstIndex(s, d[i]) < FirstIndex(s, d[j])
  }

  /** Deduplication neither loses nor invents ids. */
  lemma {:induction false} DedupElements(s: seq<string>)
    ensures forall x :: x in Dedup(s) <==> x in s
    decreases |s|
  {
    if s != [] {
      var p := s[..|s| - 1];
      DedupElements(p);
      assert s == p + [s[|s| - 1]];
    }
  }

  /** No id appears twice in the deduplicated list. */
  lemma {:induction false} DedupDistinct(s: seq<string>)
    ensures Distinct(Dedup(s))
    decreases |s|
  {
    if s != [] {
      DedupDistinct(s[..|s| - 1]);
    }
  }

  /** A prefix's first occurrences are the whole sequence's first occurrences. */
  lemma FirstIndexExtend(p: seq<string>, y: string, x: string)
    requires x in p
    ensures x in p + [y] && FirstIndex(p + [y], x) == FirstIndex(p, x)
  {
    var s := p + [y];
    var k, k' := FirstIndex(p, x), FirstIndex(s, x);
    assert s[..k] == p[..k];
    assert s[..k + 1] == p[..k + 1];
  }

  /** The ids of the deduplicated list keep the order of their first occurrences. */
  lemma {:induction false} DedupFirstOccurrenceOrder(s: seq<string>)
    ensures forall x | x in Dedup(s) :: x in s
    ensures InFirstOccurrenceOrder(s, Dedup(s))
    decreases |s|
  {
    DedupElements(s);
    if s != [] {
      var p, y := s[..|s| - 1], s[|s| - 1];
      assert s == p + [y];
      var d := Dedup(p);
      DedupElements(p);
      DedupFirstOccurrenceOrder(p);
      forall x | x in d
        ensures FirstIndex(s, x) == FirstIndex(p, x)
      {
        FirstIndexExtend(p, y, x);
      }
      if y !in d {
        assert y !in p;
        assert FirstIndex(s, y) == |p|;
        assert Dedup(s) == d + [y];
        forall i, j | 0 <= i < j < |d| + 1
          ensures FirstIndex(s, Dedup(s)[i]) < FirstIndex(s, Dedup(s)[j])
        {
          if j == |d| {
            assert Dedup(s)[i] == d[i];
            FirstIndexExtend(p, y, d[i]);
          } else {
            assert Dedup(s)[i] == d[i] && Dedup(s)[j] == d[j];
          }
        }
      }
    }
  }

  /** Deduplicating an already duplicate-free list changes nothing. */
  lemma {:induction false} DedupOfDistinct(s: seq<string>)
    requires Distinct(s)
    ensures Dedup(s) == s
    decreases |s|
  {
    if s != [] {
      var p := s[..|s| - 1];
      DedupOfDistinct(p);
      assert s[|s| - 1] !in p;
      assert s == p + [s[|s| - 1]];
    }
  }

  /** Deduplication is idempotent. */
  lemma {:induction false} DedupIdempotent(s: seq<string>)
    ensures Dedup(Dedup(s)) == Dedup(s)
  {
    DedupDistinct(s);
    DedupOfDistinct(Dedup(s));
  }

  /** The repeated id of `[a, a, b]` is skipped: it deduplicates to `[a, b]`. */
  lemma RepeatSkipped(a: string, b: string)
    requires a != b
    ensures Dedup([a, a, b]) == [a, b]
  {
    assert [a, a, b][..2] == [a, a] && [a, a][..1] == [a] && [a][..0] == [];
    assert Dedup([a]) == [a];
    assert Dedup([a, a]) == [a];
  }
}
