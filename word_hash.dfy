/** The pattern index `generateWordHash`: the first `dictionarySize` words of the
    frequency-ranked word list, grouped by canonical pattern. */
module WordHash {
  import opened Canonical

  /** Pattern -> the words having that pattern. */
  type WordHash = map<string, seq<string>>

  /** Python's slice `s[:n]`: a negative `n` counts from the end, and an `n` past the
      end is clipped. */
  function Take<T>(s: seq<T>, n: int): (r: seq<T>)
    ensures r <= s
    ensures n >= 0 ==> |r| == if n <= |s| then n else |s|
    ensures n < 0 ==> |r| == if -n <= |s| then |s| + n else 0
  {
    if n >= 0 then (if n <= |s| then s[..n] else s)
    else (if -n <= |s| then s[..|s| + n] else [])
  }

  predicate AllHashable(ws: seq<string>) {
    forall w :: w in ws ==> Hashable(w)
  }

  /** The words of `ws` with pattern `p`, in input order. */
  function Bucket(ws: seq<string>, p: string): (b: seq<string>)
    requires AllHashable(ws)
    ensures forall w :: w in b <==> w in ws && Pattern(w) == p
  {
    if ws == [] then []
    else
      assert ws == ws[..|ws| - 1] + [ws[|ws| - 1]];
      Bucket(ws[..|ws| - 1], p) + (if Pattern(ws[|ws| - 1]) == p then [ws[|ws| - 1]] else [])
  }

  /** `wh` is the index of `ws`: its keys are the patterns occurring in `ws`, and the
      bucket of each is exactly the words of `ws` with that pattern, in input order. */
  predicate IsIndexOf(wh: WordHash, ws: seq<string>)
    requires AllHashable(ws)
  {
    && (forall w :: w in ws ==> Pattern(w) in wh)
    && (forall p :: p in wh ==> wh[p] == Bucket(ws, p) && wh[p] != [])
  }

  /** Buckets keep the input order: the bucket of a concatenation is the concatenation
      of the buckets. */
  lemma {:induction false} BucketConcat(a: seq<string>, b: seq<string>, p: string)
    requires AllHashable(a) && AllHashable(b)
    ensures AllHashable(a + b)
    ensures Bucket(a + b, p) == Bucket(a, p) + Bucket(b, p)
  {
    if b != [] {
      var b' := b[..|b| - 1];
      assert (a + b)[..|a + b| - 1] == a + b';
      BucketConcat(a, b', p);
    } else {
      assert a + b == a;
    }
  }

  /** The index of a list determines every bucket, so building it twice from the same
      words yields the same index. */
  lemma IndexUnique(wh1: WordHash, wh2: WordHash, ws: seq<string>)
    requires AllHashable(ws) && IsIndexOf(wh1, ws) && IsIndexOf(wh2, ws)
    ensures wh1 == wh2
  {
    forall p | p in wh1 ensures p in wh2 {
      assert wh1[p][0] in Bucket(ws, p);
    }
    forall p | p in wh2 ensures p in wh1 {
      assert wh2[p][0] in Bucket(ws, p);
    }
  }

  /** Appending a word appends it to its own bucket and to no other. */
  lemma BucketSnoc(ws: seq<string>, w: string, p: string)
    requires AllHashable(ws) && Hashable(w)
    ensures AllHashable(ws + [w])
    ensures Bucket(ws + [w], p) == Bucket(ws, p) + (if Pattern(w) == p then [w] else [])
  {
    var ws' := ws + [w];
    assert ws'[..|ws'| - 1] == ws;
  }

  /** A pattern no word has gets an empty bucket. */
  lemma {:induction false} BucketEmpty(ws: seq<string>, p: string)
    requires AllHashable(ws) && forall w :: w in ws ==> Pattern(w) != p
    ensures Bucket(ws, p) == []
  {
    if ws != [] {
      BucketEmpty(ws[..|ws| - 1], p);
    }
  }

  /** One iteration of the loop of `generateWordHash`: appending `w` to its bucket, or
      opening a bucket for it, turns the index of `ws` into the index of `ws + [w]`. */
  lemma {:induction false} IndexExtend(wh: WordHash, ws: seq<string>, w: string)
    requires AllHashable(ws) && Hashable(w) && IsIndexOf(wh, ws)
    ensures AllHashable(ws + [w])
    ensures IsIndexOf(if Pattern(w) in wh then wh[Pattern(w) := wh[Pattern(w)] + [w]]
                      else wh[Pattern(w) := [w]], ws + [w])
  {
    var ws' := ws + [w];
    var q := Pattern(w);
    BucketSnoc(ws, w, q);
    var wh' := if q in wh then wh[q := wh[q] + [w]] else wh[q := [w]];
    forall p | p in wh'
      ensures wh'[p] == Bucket(ws', p) && wh'[p] != []
    {
      BucketSnoc(ws, w, p);
      if p != q {
        assert wh'[p] == wh[p];
      } else if q !in wh {
        BucketEmpty(ws, q);
      }
    }
    forall v | v in ws'
      ensures Pattern(v) in wh'
    {
      if v != w {
        assert v in ws;
      }
    }
    assert IsIndexOf(wh', ws');
    if q in wh {
      assert wh' == wh[Pattern(w) := wh[Pattern(w)] + [w]];
    } else {
      assert wh' == wh[Pattern(w) := [w]];
    }
  }

  /** `generateWordHash(dictionarySize)` over the word list `words`. */
  method GenerateWordHash(words: seq<string>, dictionarySize: int) returns (wordHash: WordHash)
    requires AllHashable(Take(words, dictionarySize))
    ensures IsIndexOf(wordHash, Take(words, dictionarySize))
    ensures forall p, w :: p in wordHash && w in wordHash[p] ==> Hashable(w) && Pattern(w) == p
    ensures forall w :: w in Take(words, dictionarySize) ==> Pattern(w) in wordHash && w in wordHash[Pattern(w)]
  {
    var ws := Take(words, dictionarySize);
    wordHash := map[];
    for k := 0 to |ws|
      invariant AllHashable(ws[..k])
      invariant IsIndexOf(wordHash, ws[..k])
    {
      var word := ws[k];
      assert ws[..k + 1] == ws[..k] + [word];
      IndexExtend(wordHash, ws[..k], word);
      var pattern := HashWord(word);
      if pattern in wordHash {
        wordHash := wordHash[pattern := wordHash[pattern] + [word]];
      } else {
        wordHash := wordHash[pattern := [word]];
      }
    }
    assert ws[..|ws|] == ws;
    forall w | w in ws
      ensures Pattern(w) in wordHash && w in wordHash[Pattern(w)]
    {
      assert w in Bucket(ws, Pattern(w));
    }
  }
}
