/** The decryptor `decryptMessage`: substitutes each symbol of the message through
    the letter map, rendering unset letters as '.'. */
module Decryption {
  import opened Wrappers
  import opened Canonical
  import opened LetterMaps

  /** How one symbol is rendered: a key's value, '.' for a key that is unset, and the
      symbol itself when it is not a key. */
  function Render(m: LetterMap, c: char): char {
    if c in m then (if m[c].Some? then m[c].value else '.') else c
  }

  /** The decryption of `s` under `m`. */
  function Decrypt(m: LetterMap, s: string): (r: string)
    ensures |r| == |s|
    ensures forall i :: 0 <= i < |s| ==> r[i] == Render(m, s[i])
  {
    if s == [] then [] else Decrypt(m, s[..|s| - 1]) + [Render(m, s[|s| - 1])]
  }

  /** `decryptMessage(letterMap, encryptedMessage)`; the argument map is a value and
      stays as it was. */
  method DecryptMessage(letterMap: LetterMap, encryptedMessage: string) returns (translated: string)
    ensures translated == Decrypt(letterMap, encryptedMessage)
  {
    // The copy of the map whose unset entries become '.'.
    var transMap := map key | key in letterMap :: if letterMap[key].Some? then letterMap[key].value else '.';
    translated := "";
    for i := 0 to |encryptedMessage|
      invariant |translated| == i
      invariant forall j :: 0 <= j < i ==> translated[j] == Render(letterMap, encryptedMessage[j])
    {
      var symbol := encryptedMessage[i];
      if symbol in transMap {
        translated := translated + [transMap[symbol]];
      } else {
        translated := translated + [symbol];
      }
    }
  }

  /** The map that undoes a bijective `m` on its set letters. */
  function Inverse(m: LetterMap): (inv: LetterMap)
    requires Injective(m)
  {
    map k | k in m && m[k].Some? :: m[k].value := Some(k)
  }

  /** Decryption round trip: when every letter of the message is set in a bijective map,
      and no symbol passed through unchanged is one of its plain letters, decrypting
      with the inverse map gives back the message. */
  lemma RoundTrip(m: LetterMap, s: string)
    requires Injective(m)
    requires forall i :: 0 <= i < |s| && s[i] in m ==> m[s[i]].Some?
    requires forall i :: 0 <= i < |s| && s[i] !in m ==> Some(s[i]) !in m.Values
    ensures Decrypt(Inverse(m), Decrypt(m, s)) == s
  {
    var inv := Inverse(m);
    var d := Decrypt(m, s);
    forall i | 0 <= i < |s|
      ensures Render(inv, d[i]) == s[i]
    {
      var c := s[i];
      if c in m {
        var v := m[c].value;
        assert v in inv && inv[v] == Some(c);
      }
    }
  }

  /** Under the extension of a map by a candidate of the cipherword's pattern, the
      cipherword decrypts to the candidate. */
  lemma {:induction false} ExtensionDecryptsWord(m: LetterMap, cipherword: string, candidate: string)
    requires SameShape(cipherword, candidate)
    ensures Decrypt(Assign(m, Zip(cipherword, candidate)), cipherword) == candidate
  {
    var ps := Zip(cipherword, candidate);
    ZipSameShape(cipherword, candidate);
    forall i | 0 <= i < |cipherword|
      ensures Render(Assign(m, ps), cipherword[i]) == candidate[i]
    {
      AssignFunctional(m, ps, i);
    }
  }

  /** A successful extension renders every letter the map already set just as before. */
  lemma ExtensionKeepsRendering(m: LetterMap, cipherword: string, candidate: string, s: string)
    requires LooksUp(m, Zip(cipherword, candidate)) && TryExtend(m, cipherword, candidate).Some?
    ensures forall i :: 0 <= i < |s| && s[i] in m && m[s[i]].Some? ==>
      Decrypt(TryExtend(m, cipherword, candidate).value, s)[i] == Decrypt(m, s)[i]
  {
    ExtendKeepsEntries(m, cipherword, candidate);
  }
}
