/** Puzzle-text cleaning: `removePunctuation`, and the whitespace split that turns the
    cleaned text into cipherwords. */
module Punctuation {
  import opened Alphabet
  import opened Sequences

  /** The first loop of `removePunctuation`: each dash becomes a space. */
  function Dehyphenate(s: string): (r: string)
    ensures |r| == |s|
    ensures forall i :: 0 <= i < |s| ==> r[i] == if IsDash(s[i]) then ' ' else s[i]
  {
    if s == [] then [] else Dehyphenate(s[..|s| - 1]) + [if IsDash(s[|s| - 1]) then ' ' else s[|s| - 1]]
  }

  /** `PUNCTUATION.sub('', s)`: drops every character outside `A-Z` and whitespace. */
  function Strip(s: string): (r: string)
    ensures |r| <= |s|
    ensures forall c :: c in r ==> Kept(c)
  {
    if s == [] then [] else Strip(s[..|s| - 1]) + (if Kept(s[|s| - 1]) then [s[|s| - 1]] else [])
  }

  /** The result of `removePunctuation`: never longer than the text, and only A-Z and
      whitespace. */
  function Cleaned(s: string): (r: string)
    ensures |r| <= |s|
    ensures forall c :: c in r ==> Kept(c)
  {
    Strip(Dehyphenate(s))
  }

  lemma {:induction false} StripConcat(a: string, b: string)
    ensures Strip(a + b) == Strip(a) + Strip(b)
  {
    if b != [] {
      var b' := b[..|b| - 1];
      assert (a + b)[..|a + b| - 1] == a + b';
      StripConcat(a, b');
    } else {
      assert a + b == a;
    }
  }

  lemma {:induction false} StripKept(s: string)
    requires forall c :: c in s ==> Kept(c)
    ensures Strip(s) == s
  {
    if s != [] {
      StripKept(s[..|s| - 1]);
      assert s == s[..|s| - 1] + [s[|s| - 1]];
    }
  }

  /** Cleaning works character by character and keeps their order: the cleaning of a
      concatenation is the concatenation of the cleanings. */
  lemma CleanedConcat(a: string, b: string)
    ensures Cleaned(a + b) == Cleaned(a) + Cleaned(b)
  {
    assert Dehyphenate(a + b) == Dehyphenate(a) + Dehyphenate(b);
    StripConcat(Dehyphenate(a), Dehyphenate(b));
  }

  /** What cleaning does to one character: a dash becomes a space, an upper-case letter
      or a whitespace character stays, anything else is dropped. */
  lemma CleanedChar(c: char)
    ensures Cleaned([c]) == if IsDash(c) then " " else if Kept(c) then [c] else []
  {
    assert Strip([]) == [];
    assert Dehyphenate([c])[..0] == [];
  }

  /** Text made only of upper-case letters and whitespace is left as it is; in
      particular cleaning twice changes nothing more. */
  lemma CleanedIdentity(s: string)
    requires forall c :: c in s ==> Kept(c)
    ensures Cleaned(s) == s
    ensures Cleaned(Cleaned(s)) == Cleaned(s)
  {
    assert forall i :: 0 <= i < |s| ==> Kept(s[i]) && !IsDash(s[i]);
    assert Dehyphenate(s) == s;
    StripKept(s);
  }

  lemma CleanedIdempotent(s: string)
    ensures Cleaned(Cleaned(s)) == Cleaned(s)
  {
    CleanedIdentity(Cleaned(s));
  }

  /** `removePunctuation(message)`. */
  method RemovePunctuation(message: string) returns (r: string)
    ensures r == Cleaned(message)
    ensures forall c :: c in r ==> IsUpper(c) || IsSpace(c)
  {
    var newMessage := "";
    for i := 0 to |message|
      invariant newMessage == Dehyphenate(message[..i])
    {
      assert message[..i + 1][..i] == message[..i];
      var ch := message[i];
      if ch == '-' || ch == '\U{2013}' {
        newMessage := newMessage + " ";
      } else {
        newMessage := newMessage + [ch];
      }
    }
    assert message[..|message|] == message;
    // The substitution of the regular expression `[^A-Z\s]` by the empty string.
    r := "";
    for i := 0 to |newMessage|
      invariant r == Strip(newMessage[..i])
    {
      assert newMessage[..i + 1][..i] == newMessage[..i];
      var ch := newMessage[i];
      if 'A' <= ch <= 'Z' || IsSpace(ch) {
        r := r + [ch];
      }
    }
    assert newMessage[..|newMessage|] == newMessage;
  }

  /** The word starting at the front of `s`: its longest prefix without whitespace. */
  function TakeWord(s: string): (t: string)
    ensures t <= s
    ensures forall c :: c in t ==> !IsSpace(c)
    ensures s != [] && !IsSpace(s[0]) ==> t != []
  {
    if s == [] || IsSpace(s[0]) then [] else [s[0]] + TakeWord(s[1..])
  }

  /** Python's `str.split()`: the maximal runs of non-whitespace characters. */
  function Split(s: string): (ws: seq<string>)
    ensures forall w :: w in ws ==> w != [] && forall c :: c in w ==> c in s && !IsSpace(c)
    decreases |s|
  {
    if s == [] then []
    else if IsSpace(s[0]) then Split(s[1..])
    else
      var t := TakeWord(s);
      assert s == t + s[|t|..];
      [t] + Split(s[|t|..])
  }

  /** The characters of `s` that are not whitespace, in order. */
  function NonSpace(s: string): string {
    if s == [] then [] else (if IsSpace(s[0]) then [] else [s[0]]) + NonSpace(s[1..])
  }

  function Concat(ws: seq<string>): string {
    if ws == [] then [] else ws[0] + Concat(ws[1..])
  }

  lemma {:induction false} NonSpaceConcat(a: string, b: string)
    ensures NonSpace(a + b) == NonSpace(a) + NonSpace(b)
  {
    if a != [] {
      assert (a + b)[1..] == a[1..] + b;
      NonSpaceConcat(a[1..], b);
    } else {
      assert a + b == b;
    }
  }

  lemma {:induction false} NonSpaceWord(t: string)
    requires forall c :: c in t ==> !IsSpace(c)
    ensures NonSpace(t) == t
  {
    if t != [] {
      NonSpaceWord(t[1..]);
    }
  }

  /** Splitting loses no character but whitespace, and keeps their order. */
  lemma {:induction false} SplitKeepsText(s: string)
    ensures Concat(Split(s)) == NonSpace(s)
    decreases |s|
  {
    if s != [] {
      if IsSpace(s[0]) {
        SplitKeepsText(s[1..]);
      } else {
        var t := TakeWord(s);
        var rest := s[|t|..];
        assert s == t + rest;
        SplitKeepsText(rest);
        NonSpaceConcat(t, rest);
        NonSpaceWord(t);
        assert Split(s) == [t] + Split(rest);
      }
    }
  }

  /** A word ends at the first whitespace character: what follows it does not matter. */
  lemma {:induction false} TakeWordSpace(a: string, c: char, b: string)
    requires IsSpace(c)
    ensures TakeWord(a + [c] + b) == TakeWord(a)
  {
    if a == [] {
      assert (a + [c] + b)[0] == c;
    } else {
      assert (a + [c] + b)[0] == a[0] && (a + [c] + b)[1..] == a[1..] + [c] + b;
      TakeWordSpace(a[1..], c, b);
    }
  }

  /** A run without whitespace is taken whole. */
  lemma {:induction false} TakeWordAll(w: string)
    requires forall c :: c in w ==> !IsSpace(c)
    ensures TakeWord(w) == w
  {
    if w != [] {
      TakeWordAll(w[1..]);
      assert w == [w[0]] + w[1..];
    }
  }

  /** A non-empty run without whitespace is one word. */
  lemma SplitWord(w: string)
    requires w != [] && forall c :: c in w ==> !IsSpace(c)
    ensures Split(w) == [w]
  {
    TakeWordAll(w);
    assert w[|w|..] == [];
  }

  /** Whitespace separates words: splitting at a whitespace character splits the two
      sides independently. */
  lemma {:induction false} SplitAtSpace(a: string, c: char, b: string)
    requires IsSpace(c)
    ensures Split(a + [c] + b) == Split(a) + Split(b)
    decreases |a|
  {
    var s := a + [c] + b;
    if a == [] {
      assert s[0] == c && s[1..] == b;
    } else if IsSpace(a[0]) {
      assert s[0] == a[0] && s[1..] == a[1..] + [c] + b;
      SplitAtSpace(a[1..], c, b);
    } else {
      assert s[0] == a[0];
      TakeWordSpace(a, c, b);
      var t := TakeWord(a);
      var rest := a[|t|..];
      assert a == t + rest;
      assert s[|t|..] == rest + [c] + b;
      SplitAtSpace(rest, c, b);
      var x, y := Split(rest), Split(b);
      assert Split(s) == [t] + (x + y);
      assert Split(a) == [t] + x;
      ConcatAssoc([t], x, y);
    }
  }
}
