/** The two orderings of the search: cipherwords longest first (`sortCipherwords`),
    candidates by ascending frequency-table value (`sortCandidates`). */
module Ordering {
  import opened Canonical
  import opened WordHash
  import opened Sorting
  import opened Sequences

  /** The comprehension of `sortCipherwords`: the cipherwords whose pattern has a bucket. */
  function Known(cipherwords: seq<string>, wordHash: WordHash): (r: seq<string>)
    requires AllHashable(cipherwords)
    ensures forall w :: w in r <==> w in cipherwords && Pattern(w) in wordHash
    ensures multiset(r) <= multiset(cipherwords)
  {
    if cipherwords == [] then []
    else
      assert cipherwords == [cipherwords[0]] + cipherwords[1..];
      (if Pattern(cipherwords[0]) in wordHash then [cipherwords[0]] else [])
        + Known(cipherwords[1..], wordHash)
  }

  /** The comprehension drops no repetition: a known cipherword occurs in the result
      as often as in the input, any other word not at all. */
  lemma {:induction false} KnownCount(cipherwords: seq<string>, wordHash: WordHash, w: string)
    requires AllHashable(cipherwords)
    ensures multiset(Known(cipherwords, wordHash))[w]
      == (if w in cipherwords && Pattern(w) in wordHash then multiset(cipherwords)[w] else 0)
  {
    if cipherwords != [] {
      var c, rest := cipherwords[0], cipherwords[1..];
      assert cipherwords == [c] + rest;
      KnownCount(rest, wordHash, w);
      var head := if Pattern(c) in wordHash then [c] else [];
      assert Known(cipherwords, wordHash) == head + Known(rest, wordHash);
      assert multiset(cipherwords) == multiset{c} + multiset(rest);
      if w == c {
        assert w in cipherwords;
      } else if w !in cipherwords {
        assert w !in rest;
      }
    }
  }

  /** The comprehension keeps the words' order: filtering a concatenation is
      concatenating the filtered parts. */
  lemma {:induction false} KnownConcat(a: seq<string>, b: seq<string>, wordHash: WordHash)
    requires AllHashable(a) && AllHashable(b)
    ensures AllHashable(a + b)
    ensures Known(a + b, wordHash) == Known(a, wordHash) + Known(b, wordHash)
  {
    assert forall w :: w in a + b ==> w in a || w in b;
    if a != [] {
      assert (a + b)[0] == a[0] && (a + b)[1..] == a[1..] + b;
      KnownConcat(a[1..], b, wordHash);
      var head := if Pattern(a[0]) in wordHash then [a[0]] else [];
      var ka, kb := Known(a[1..], wordHash), Known(b, wordHash);
      assert Known(a + b, wordHash) == head + (ka + kb);
      assert Known(a, wordHash) == head + ka;
      ConcatAssoc(head, ka, kb);
    } else {
      assert a + b == b;
    }
  }

  /** `sortCipherwords`: the known cipherwords, longest first, equal lengths in input order. */
  function SortCipherwords(cipherwords: seq<string>, wordHash: WordHash): (r: seq<string>)
    requires AllHashable(cipherwords)
    ensures multiset(r) == multiset(Known(cipherwords, wordHash))
    ensures forall w :: w in r <==> w in cipherwords && Pattern(w) in wordHash
    ensures forall i, j :: 0 <= i < j < |r| ==> |r[i]| >= |r[j]|
    ensures forall n :: OfLength(r, n) == OfLength(Known(cipherwords, wordHash), n)
  {
    var known := Known(cipherwords, wordHash);
    var r := SortBy(known, NegLength);
    assert forall w :: w in r <==> w in multiset(r);
    assert forall w :: w in known <==> w in multiset(known);
    r
  }

  /** The words of `ws` of length `n`, in their order in `ws`. */
  function OfLength(ws: seq<string>, n: int): seq<string> {
    WithKey(ws, NegLength, -n)
  }

  /** The sort key of `sortCipherwords`, `-len(cipherword)`. */
  function NegLength(w: string): int {
    -|w|
  }

  /** The sort key of `sortCandidates`, `frequencyTable[candidate]`; it is only
      applied to words of the table. */
  function Rank(frequencyTable: map<string, int>): string -> int {
    w => if w in frequencyTable then frequencyTable[w] else 0
  }

  /** `sortCandidates`: a permutation of the candidates in ascending frequency-table
      value, equal values in input order. */
  function SortCandidates(candidates: seq<string>, frequencyTable: map<string, int>): (r: seq<string>)
    requires forall c :: c in candidates ==> c in frequencyTable
    ensures multiset(r) == multiset(candidates)
    ensures forall c :: c in r <==> c in candidates
    ensures forall i, j :: 0 <= i < j < |r| ==> frequencyTable[r[i]] <= frequencyTable[r[j]]
    ensures forall k :: WithKey(r, Rank(frequencyTable), k) == WithKey(candidates, Rank(frequencyTable), k)
  {
    var r := SortBy(candidates, Rank(frequencyTable));
    assert forall c :: c in r <==> c in multiset(r);
    assert forall c :: c in candidates <==> c in multiset(candidates);
    r
  }
}
