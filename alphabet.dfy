/** Character classes used by the solver: the cipher alphabet `string.ascii_uppercase`,
    the whitespace that Python's `str.isspace` (and the regex class `\s`) recognises,
    and the two dash characters that split hyphenated words. */
module Alphabet {

  /** `string.ascii_uppercase`. */
  const Letters: string := "ABCDEFGHIJKLMNOPQRSTUVWXYZ"

  predicate IsUpper(c: char) {
    'A' <= c <= 'Z'
  }

  /** The characters for which Python's `str.isspace()` holds. */
  predicate IsSpace(c: char) {
    ('\U{0009}' <= c <= '\U{000D}') || ('\U{001C}' <= c <= '\U{0020}') ||
    c == '\U{0085}' || c == '\U{00A0}' || c == '\U{1680}' ||
    ('\U{2000}' <= c <= '\U{200A}') || c == '\U{2028}' || c == '\U{2029}' ||
    c == '\U{202F}' || c == '\U{205F}' || c == '\U{3000}'
  }

  /** The hyphen-minus and the en dash, both turned into word breaks. */
  predicate IsDash(c: char) {
    c == '-' || c == '\U{2013}'
  }

  /** A character that survives the punctuation filter `[^A-Z\s]`. */
  predicate Kept(c: char) {
    IsUpper(c) || IsSpace(c)
  }

  /** The symbols of `Letters` are pairwise distinct and are exactly the upper-case letters. */
  lemma LettersAreUpper()
    ensures |Letters| == 26
    ensures forall c :: c in Letters <==> IsUpper(c)
    ensures forall k :: 0 <= k < 26 ==> Letters[k] as int == 65 + k
    ensures forall i, j :: 0 <= i < 26 && 0 <= j < 26 && Letters[i] == Letters[j] ==> i == j
  {
    forall c | IsUpper(c)
      ensures c in Letters
    {
      assert Letters[c as int - 65] == c;
    }
  }

  /** Distinct characters drawn from the upper-case alphabet number at most 26. */
  lemma {:induction false} FewUpper(d: string)
    requires forall i, j :: 0 <= i < j < |d| ==> d[i] != d[j]
    requires forall c :: c in d ==> IsUpper(c)
    ensures |d| <= 26
  {
    var s := set c | c in d;
    var all := set c | c in Letters;
    LettersAreUpper();
    DistinctSize(d);
    assert s <= all;
    SubsetSize(s, all);
    SeqSetSize(Letters);
  }

  lemma {:induction false} DistinctSize(d: string)
    requires forall i, j :: 0 <= i < j < |d| ==> d[i] != d[j]
    ensures |(set c | c in d)| == |d|
  {
    if d != [] {
      var t := d[1..];
      DistinctSize(t);
      assert (set c | c in d) == {d[0]} + (set c | c in t);
      assert d[0] !in (set c | c in t);
    }
  }

  lemma {:induction false} SeqSetSize(d: string)
    ensures |(set c | c in d)| <= |d|
  {
    if d != [] {
      var t := d[1..];
      SeqSetSize(t);
      assert (set c | c in d) == {d[0]} + (set c | c in t);
    }
  }

  lemma SubsetSize(a: set<char>, b: set<char>)
    requires a <= b
    ensures |a| <= |b|
  {
    assert b == a + (b - a);
  }
}
