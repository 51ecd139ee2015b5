/** Letter mappings and the constraint engine: `blankMap`, `consistent`, `mergeMaps`. */
module LetterMaps {
  import opened Wrappers
  import opened Alphabet
  import opened Canonical

  /** Cipher letter -> plain letter; `None` is the empty string that marks an unset letter. */
  type LetterMap = map<char, Option<char>>

  /** `blankMap()`: every letter A-Z is a key, none is set. */
  function BlankMap(): (m: LetterMap)
    ensures forall c :: c in m <==> IsUpper(c)
    ensures forall c :: c in m ==> m[c] == None
  {
    LettersAreUpper();
    map c | c in Letters :: None
  }

  /** No two cipher letters are set to the same plain letter. */
  predicate Injective(m: LetterMap) {
    forall a, b :: a in m && b in m && a != b && m[a].Some? ==> m[a] != m[b]
  }

  /** Python's `zip(a, b)`: the pairs of equal positions, up to the shorter length. */
  function Zip(a: string, b: string): (ps: seq<(char, char)>)
    ensures |ps| == if |a| <= |b| then |a| else |b|
    ensures forall i :: 0 <= i < |ps| ==> ps[i] == (a[i], b[i])
  {
    if a == [] || b == [] then [] else [(a[0], b[0])] + Zip(a[1..], b[1..])
  }

  /** The cipher letters that `consistent` looks up are keys of the map. */
  predicate LooksUp(m: LetterMap, ps: seq<(char, char)>) {
    forall i :: 0 <= i < |ps| ==> ps[i].0 in m
  }

  /** The loop of `mergeMaps`: set each cipher letter to its plain letter, in order. */
  function Assign(m: LetterMap, ps: seq<(char, char)>): (r: LetterMap)
    ensures forall c :: c in r <==> c in m || exists i :: 0 <= i < |ps| && ps[i].0 == c
  {
    if ps == [] then m
    else
      assert forall i :: 0 <= i < |ps| - 1 ==> ps[..|ps| - 1][i] == ps[i];
      Assign(m, ps[..|ps| - 1])[ps[|ps| - 1].0 := Some(ps[|ps| - 1].1)]
  }

  /** Position `i` of `consistent` rejects the candidate: the cipher letter is set to
      another letter, or it is unset and its plain letter is already some letter's value. */
  predicate Clashes(m: LetterMap, c: char, p: char)
    requires c in m
  {
    (m[c].Some? && m[c].value != p) || (m[c].None? && Some(p) in m.Values)
  }

  /** The result of `consistent`. */
  function TryExtend(m: LetterMap, cipherword: string, candidate: string): (r: Option<LetterMap>)
    requires LooksUp(m, Zip(cipherword, candidate))
    ensures r.Some? ==> r.value.Keys == m.Keys
  {
    var ps := Zip(cipherword, candidate);
    if exists i :: 0 <= i < |ps| && Clashes(m, ps[i].0, ps[i].1) then None
    else Some(Assign(m, ps))
  }

  /** A key no pair mentions keeps its entry. */
  lemma {:induction false} AssignUntouched(m: LetterMap, ps: seq<(char, char)>, c: char)
    requires c in m && forall i :: 0 <= i < |ps| ==> ps[i].0 != c
    ensures Assign(m, ps)[c] == m[c]
  {
    if ps != [] {
      AssignUntouched(m, ps[..|ps| - 1], c);
    }
  }

  /** Each cipher letter is mapped to one plain letter only. */
  predicate Functional(ps: seq<(char, char)>) {
    forall i, j :: 0 <= i < |ps| && 0 <= j < |ps| && ps[i].0 == ps[j].0 ==> ps[i].1 == ps[j].1
  }

  /** When the pairs never map a letter two ways, every pair is in the result. */
  lemma {:induction false} AssignFunctional(m: LetterMap, ps: seq<(char, char)>, i: nat)
    requires Functional(ps) && i < |ps|
    ensures Assign(m, ps)[ps[i].0] == Some(ps[i].1)
  {
    var n := |ps| - 1;
    if i < n && ps[i].0 != ps[n].0 {
      assert Functional(ps[..n]);
      AssignFunctional(m, ps[..n], i);
    }
  }

  /** Words of one pattern pair their letters one-to-one. */
  lemma ZipSameShape(cipherword: string, candidate: string)
    requires SameShape(cipherword, candidate)
    ensures Functional(Zip(cipherword, candidate))
    ensures forall i, j :: 0 <= i < |cipherword| && 0 <= j < |cipherword| ==>
      (cipherword[i] == cipherword[j] <==> candidate[i] == candidate[j])
  {
  }

  /** A letter whose entry every pair agrees with keeps it. */
  lemma {:induction false} AssignAgreeing(m: LetterMap, ps: seq<(char, char)>, c: char, p: char)
    requires c in m && m[c] == Some(p)
    requires forall i :: 0 <= i < |ps| && ps[i].0 == c ==> ps[i].1 == p
    ensures Assign(m, ps)[c] == Some(p)
  {
    if ps != [] {
      AssignAgreeing(m, ps[..|ps| - 1], c, p);
    }
  }

  /** Entries already set are never changed by a successful extension. */
  lemma ExtendKeepsEntries(m: LetterMap, cipherword: string, candidate: string)
    requires LooksUp(m, Zip(cipherword, candidate)) && TryExtend(m, cipherword, candidate).Some?
    ensures forall c :: c in m && m[c].Some? ==> TryExtend(m, cipherword, candidate).value[c] == m[c]
  {
    var ps := Zip(cipherword, candidate);
    forall c | c in m && m[c].Some?
      ensures Assign(m, ps)[c] == m[c]
    {
      forall i | 0 <= i < |ps| && ps[i].0 == c
        ensures ps[i].1 == m[c].value
      {
        assert !Clashes(m, ps[i].0, ps[i].1);
      }
      AssignAgreeing(m, ps, c, m[c].value);
    }
  }

  /** A successful extension of a bijective map by a candidate of the cipherword's
      pattern is bijective: no two cipher letters end up sharing a plain letter. */
  lemma ExtendInjective(m: LetterMap, cipherword: string, candidate: string)
    requires LooksUp(m, Zip(cipherword, candidate)) && TryExtend(m, cipherword, candidate).Some?
    requires Injective(m) && SameShape(cipherword, candidate)
    ensures Injective(TryExtend(m, cipherword, candidate).value)
  {
    var ps := Zip(cipherword, candidate);
    var r := Assign(m, ps);
    ZipSameShape(cipherword, candidate);
    forall a, b | a in r && b in r && a != b && r[a].Some?
      ensures r[a] != r[b]
    {
      var ta := exists i :: 0 <= i < |ps| && ps[i].0 == a;
      var tb := exists i :: 0 <= i < |ps| && ps[i].0 == b;
      if ta && tb {
        var i :| 0 <= i < |ps| && ps[i].0 == a;
        var j :| 0 <= j < |ps| && ps[j].0 == b;
        AssignFunctional(m, ps, i);
        AssignFunctional(m, ps, j);
      } else if ta {
        var i :| 0 <= i < |ps| && ps[i].0 == a;
        AssignFunctional(m, ps, i);
        AssignUntouched(m, ps, b);
        assert !Clashes(m, a, ps[i].1);
        NotSharedWithOther(m, a, b, ps[i].1);
      } else if tb {
        var j :| 0 <= j < |ps| && ps[j].0 == b;
        AssignFunctional(m, ps, j);
        AssignUntouched(m, ps, a);
        assert !Clashes(m, b, ps[j].1);
        NotSharedWithOther(m, b, a, ps[j].1);
      } else {
        AssignUntouched(m, ps, a);
        AssignUntouched(m, ps, b);
      }
    }
  }

  /** If `c` may take `p` without a clash, no other letter already holds `p`. */
  lemma NotSharedWithOther(m: LetterMap, c: char, other: char, p: char)
    requires c in m && other in m && c != other && Injective(m) && !Clashes(m, c, p)
    ensures m[other] != Some(p)
  {
    if m[c].None? {
      assert m[other] in m.Values;
    }
  }

  /** One round of the `mergeMaps` loop. */
  lemma AssignStep(m: LetterMap, ps: seq<(char, char)>, i: nat)
    requires i < |ps|
    ensures Assign(m, ps[..i + 1]) == Assign(m, ps[..i])[ps[i].0 := Some(ps[i].1)]
  {
    assert ps[..i + 1][..i] == ps[..i];
  }

  /** `mergeMaps`: a copy of the map in which each cipher letter of the word is set to
      the candidate's letter at the same position. */
  method MergeMaps(letterMap: LetterMap, cipherword: string, candidate: string) returns (r: LetterMap)
    ensures r == Assign(letterMap, Zip(cipherword, candidate))
    ensures forall c :: c in r <==> c in letterMap || exists i :: 0 <= i < |Zip(cipherword, candidate)| && cipherword[i] == c
    ensures forall c :: c in letterMap && (forall i :: 0 <= i < |Zip(cipherword, candidate)| ==> cipherword[i] != c)
              ==> r[c] == letterMap[c]
  {
    var ps := Zip(cipherword, candidate);
    r := letterMap;
    for i := 0 to |ps|
      invariant r == Assign(letterMap, ps[..i])
    {
      var cipherletter, letter := cipherword[i], candidate[i];
      AssignStep(letterMap, ps, i);
      r := r[cipherletter := Some(letter)];
    }
    assert ps[..|ps|] == ps;
    assert forall i :: 0 <= i < |ps| ==> ps[i].0 == cipherword[i];
    forall c | c in letterMap && (forall i :: 0 <= i < |ps| ==> cipherword[i] != c)
      ensures r[c] == letterMap[c]
    {
      AssignUntouched(letterMap, ps, c);
    }
  }

  /** `consistent`: `None` exactly when some position clashes with the map, and
      otherwise the merged map. */
  method Consistent(letterMap: LetterMap, cipherword: string, candidate: string) returns (r: Option<LetterMap>)
    requires LooksUp(letterMap, Zip(cipherword, candidate))
    ensures r.None? <==> exists i :: 0 <= i < |Zip(cipherword, candidate)| && Clashes(letterMap, cipherword[i], candidate[i])
    ensures r == TryExtend(letterMap, cipherword, candidate)
  {
    var ps := Zip(cipherword, candidate);
    for i := 0 to |ps|
      invariant forall j :: 0 <= j < i ==> !Clashes(letterMap, ps[j].0, ps[j].1)
    {
      var cipherletter, letter := cipherword[i], candidate[i];
      var mapped := letterMap[cipherletter];
      if mapped.Some? && mapped.value != letter {
        return None;
      }
      if mapped.None? && Some(letter) in letterMap.Values {
        return None;
      }
    }
    var merged := MergeMaps(letterMap, cipherword, candidate);
    r := Some(merged);
  }
}
