/** The canonicaliser `hashWord`: a word's letter-equality pattern, e.g. HELLO -> ABCCD. */
module Canonical {
  import opened Alphabet

  /** Pairwise-distinct characters. */
  predicate Distinct(d: string) {
    forall i, j :: 0 <= i < j < |d| ==> d[i] != d[j]
  }

  /** The distinct characters of `w` in order of first occurrence: the keys of
      `seen` in the order `hashWord` inserts them. */
  function Firsts(w: string): (d: string)
    ensures Distinct(d)
    ensures forall c :: c in d <==> c in w
  {
    if w == [] then []
    else if w[|w| - 1] in Firsts(w[..|w| - 1]) then Firsts(w[..|w| - 1])
    else Firsts(w[..|w| - 1]) + [w[|w| - 1]]
  }

  /** The position of `c` in `d` (its first one). */
  function IndexOf(d: string, c: char): (k: nat)
    requires c in d
    ensures k < |d| && d[k] == c
    ensures forall j :: 0 <= j < k ==> d[j] != c
  {
    if d[0] == c then 0 else 1 + IndexOf(d[1..], c)
  }

  /** `hashWord` indexes `LETTERS` with the number of distinct characters seen,
      so it fails on a word with more than 26 distinct characters. */
  predicate Hashable(w: string) {
    |Firsts(w)| <= |Letters|
  }

  /** The symbol `hashWord` gives to `c` after having seen the characters `d`:
      the one already handed to `c`, or else the next unused letter. */
  function Symbol(d: string, c: char): char
    requires |d| <= |Letters| && (|d| < |Letters| || c in d)
  {
    if c in d then Letters[IndexOf(d, c)] else Letters[|d|]
  }

  /** The canonical form of `w`, built one character at a time as `hashWord` does:
      a repeated character reuses its symbol, a new one gets the next unused letter. */
  function Pattern(w: string): (p: string)
    requires Hashable(w)
    ensures |p| == |w|
  {
    if w == [] then [] else Pattern(w[..|w| - 1]) + [Symbol(Firsts(w[..|w| - 1]), w[|w| - 1])]
  }

  /** A prefix's distinct characters are a prefix of the word's. */
  lemma {:induction false} FirstsPrefix(w: string, k: nat)
    requires k <= |w|
    ensures Firsts(w[..k]) <= Firsts(w)
  {
    if k < |w| {
      var init := w[..|w| - 1];
      FirstsPrefix(init, k);
      assert init[..k] == w[..k];
      var a, b, c := Firsts(w[..k]), Firsts(init), Firsts(w);
      assert b <= c;
      assert a == b[..|a|] && b == c[..|b|];
      assert a == c[..|a|];
    } else {
      assert w[..k] == w;
    }
  }

  lemma IndexOfPrefix(d: string, e: string, c: char)
    requires c in d && d <= e
    ensures IndexOf(e, c) == IndexOf(d, c)
  {
    var k := IndexOf(d, c);
    assert forall j :: 0 <= j < |d| ==> d[j] == e[j];
    assert e[k] == c;
  }

  /** Position i of the pattern is the letter whose index is the rank of `w[i]`
      among the word's distinct characters in order of first occurrence. */
  lemma {:induction false} PatternAt(w: string, i: nat)
    requires Hashable(w) && i < |w|
    ensures Pattern(w)[i] == Letters[IndexOf(Firsts(w), w[i])]
  {
    var init := w[..|w| - 1];
    var d := Firsts(init);
    FirstsPrefix(w, |w| - 1);
    assert Hashable(init);
    assert Pattern(w) == Pattern(init) + [Symbol(d, w[|w| - 1])];
    if i < |w| - 1 {
      PatternAt(init, i);
      assert Pattern(w)[i] == Pattern(init)[i] && w[i] == init[i];
      IndexOfPrefix(d, Firsts(w), w[i]);
    } else if w[i] in d {
      IndexOfPrefix(d, Firsts(w), w[i]);
    } else {
      assert Firsts(w) == d + [w[i]];
      assert IndexOf(Firsts(w), w[i]) == |d|;
    }
  }

  /** Two positions get the same symbol exactly when they hold the same character. */
  lemma PatternShape(w: string, i: nat, j: nat)
    requires Hashable(w) && i < |w| && j < |w|
    ensures Pattern(w)[i] == Pattern(w)[j] <==> w[i] == w[j]
  {
    PatternAt(w, i);
    PatternAt(w, j);
    LettersAreUpper();
  }

  /** Same repeated-letter structure. */
  predicate SameShape(u: string, v: string) {
    |u| == |v| && forall i, j :: 0 <= i < |u| && 0 <= j < |u| ==> (u[i] == u[j] <==> v[i] == v[j])
  }

  lemma {:induction false} FirstsSameShape(u: string, v: string)
    requires SameShape(u, v)
    ensures |Firsts(u)| == |Firsts(v)|
  {
    if u != [] {
      var n := |u| - 1;
      var iu, iv := u[..n], v[..n];
      assert SameShape(iu, iv);
      FirstsSameShape(iu, iv);
      InFirstsInit(u, v);
    }
  }

  /** For same-shaped words, the last character is new in one exactly when it is new in the other. */
  lemma InFirstsInit(u: string, v: string)
    requires SameShape(u, v) && u != []
    ensures (u[|u| - 1] in Firsts(u[..|u| - 1])) <==> (v[|v| - 1] in Firsts(v[..|v| - 1]))
  {
    var n := |u| - 1;
    if u[n] in Firsts(u[..n]) {
      var i :| 0 <= i < n && u[..n][i] == u[n];
      assert v[..n][i] == v[n];
    }
    if v[n] in Firsts(v[..n]) {
      var i :| 0 <= i < n && v[..n][i] == v[n];
      assert u[..n][i] == u[n];
    }
  }

  /** Words with the same repeated-letter structure have the same pattern. */
  lemma {:induction false} SameShapeSamePattern(u: string, v: string)
    requires Hashable(u) && SameShape(u, v)
    ensures Hashable(v) && Pattern(u) == Pattern(v)
  {
    FirstsSameShape(u, v);
    if u != [] {
      var n := |u| - 1;
      var iu, iv := u[..n], v[..n];
      assert SameShape(iu, iv);
      FirstsPrefix(u, n);
      FirstsSameShape(iu, iv);
      SameShapeSamePattern(iu, iv);
      InFirstsInit(u, v);
      var du, dv := Firsts(iu), Firsts(iv);
      if u[n] in du {
        var i :| 0 <= i < n && iu[i] == u[n];
        assert iv[i] == v[n];
        PatternAt(iu, i);
        PatternAt(iv, i);
        LettersAreUpper();
      }
    }
  }

  /** Two words share a pattern iff they share their repeated-letter structure
      (LETTER and BETTER do, HELLO and WORLD do not). */
  lemma PatternIffSameShape(u: string, v: string)
    requires Hashable(u) && Hashable(v)
    ensures Pattern(u) == Pattern(v) <==> SameShape(u, v)
  {
    if Pattern(u) == Pattern(v) {
      forall i, j | 0 <= i < |u| && 0 <= j < |u|
        ensures u[i] == u[j] <==> v[i] == v[j]
      {
        PatternShape(u, i, j);
        PatternShape(v, i, j);
      }
    }
    if SameShape(u, v) {
      SameShapeSamePattern(u, v);
    }
  }

  /** A pattern is its own canonical form. */
  lemma PatternIdempotent(w: string)
    requires Hashable(w)
    ensures Hashable(Pattern(w)) && Pattern(Pattern(w)) == Pattern(w)
  {
    var p := Pattern(w);
    forall i, j | 0 <= i < |w| && 0 <= j < |w|
      ensures w[i] == w[j] <==> p[i] == p[j]
    {
      PatternShape(w, i, j);
    }
    assert SameShape(w, p);
    SameShapeSamePattern(w, p);
  }

  /** New symbols are introduced in alphabetical order: the distinct symbols of a
      pattern, in order of first occurrence, are A, B, C, ... */
  lemma {:induction false} PatternFirsts(w: string)
    requires Hashable(w)
    ensures Firsts(Pattern(w)) == Letters[..|Firsts(w)|]
  {
    if w != [] {
      var n := |w| - 1;
      var init := w[..n];
      TakeOneMore(w, n);
      assert w[..n + 1] == w;
      Snoc(init, w[n]);
      FirstsPrefix(w, n);
      PatternFirsts(init);
      var d := Firsts(init);
      var sym := Symbol(d, w[n]);
      var p := Pattern(init) + [sym];
      assert p == Pattern(w);
      Snoc(Pattern(init), sym);
      if w[n] in d {
        TakeHas(Letters, |d|, IndexOf(d, w[n]));
      } else {
        LettersDistinct();
        TakeNext(Letters, |d|);
      }
    }
  }

  lemma LettersDistinct()
    ensures Distinct(Letters)
  {
    LettersAreUpper();
  }

  lemma TakeHas(s: string, m: nat, k: nat)
    requires k < m <= |s|
    ensures s[k] in s[..m]
  {
    assert s[..m][k] == s[k];
  }

  lemma TakeNext(s: string, m: nat)
    requires m < |s| && Distinct(s)
    ensures s[m] !in s[..m] && s[..m + 1] == s[..m] + [s[m]]
  {
  }

  /** How the distinct characters and the pattern grow by one character. */
  lemma {:induction false} HashStep(word: string, k: nat)
    requires k < |word| && Hashable(word)
    ensures Hashable(word[..k + 1])
    ensures Firsts(word[..k + 1]) <= Firsts(word)
    ensures Firsts(word[..k + 1]) ==
      if word[k] in Firsts(word[..k]) then Firsts(word[..k]) else Firsts(word[..k]) + [word[k]]
    ensures Pattern(word[..k + 1]) == Pattern(word[..k]) + [Symbol(Firsts(word[..k]), word[k])]
  {
    TakeOneMore(word, k);
    Snoc(word[..k], word[k]);
    FirstsPrefix(word, k + 1);
  }

  lemma TakeOneMore(s: string, k: nat)
    requires k < |s|
    ensures s[..k + 1] == s[..k] + [s[k]]
  {
  }

  /** Firsts and Pattern of a word extended by one character. */
  lemma Snoc(u: string, c: char)
    ensures Firsts(u + [c]) == if c in Firsts(u) then Firsts(u) else Firsts(u) + [c]
    ensures Hashable(u + [c]) ==> Pattern(u + [c]) == Pattern(u) + [Symbol(Firsts(u), c)]
  {
    var w := u + [c];
    assert w[..|w| - 1] == u;
  }

  /** `hashWord`: the loop keeps `seen` (character -> symbol), the counter `i` of
      symbols handed out, and the pattern built so far. */
  method HashWord(word: string) returns (pattern: string)
    requires Hashable(word)
    ensures pattern == Pattern(word)
  {
    var seen: map<char, char> := map[];
    var i := 0;
    pattern := "";
    for k := 0 to |word|
      invariant Hashable(word[..k])
      invariant pattern == Pattern(word[..k])
      invariant i == |Firsts(word[..k])|
      invariant forall c :: c in seen <==> c in Firsts(word[..k])
      invariant forall c :: c in seen ==> seen[c] == Letters[IndexOf(Firsts(word[..k]), c)]
    {
      ghost var d := Firsts(word[..k]);
      HashStep(word, k);
      var ch := word[k];
      if ch in seen {
        pattern := pattern + [seen[ch]];
      } else {
        seen := seen[ch := Letters[i]];
        pattern := pattern + [seen[ch]];
        i := i + 1;
        forall c | c in seen
          ensures seen[c] == Letters[IndexOf(d + [ch], c)]
        {
          if c != ch {
            IndexOfPrefix(d, d + [ch], c);
          }
        }
      }
    }
    assert word[..|word|] == word;
  }

  /** A word over A-Z never has more than 26 distinct characters, so `hashWord`
      never fails on a cipherword taken from a cleaned puzzle. */
  lemma UpperHashable(w: string)
    requires forall c :: c in w ==> IsUpper(c)
    ensures Hashable(w)
  {
    FewUpper(Firsts(w));
  }
}
