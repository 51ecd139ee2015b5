/** The backtracking search `solve`, as a function from the solver's observable state to its
    new state, and what it achieves: the best score it reaches equals the best leaf score
    of the same search tree without pruning (pruning loses nothing), and every translation
    it prints comes from an injective letter map. */
module SearchTree {
  import opened Wrappers
  import opened Canonical
  import opened WordHash
  import opened Ordering
  import opened LetterMaps
  import opened Decryption

  /** The read-only data `solve` works on: the puzzle text as entered (punctuation and
      all; it is what each printed translation decrypts), the pattern index of the
      dictionary and the frequency table. */
  datatype Puzzle = Puzzle(message: string, wordHash: WordHash, frequencyTable: map<string, int>)

  /** What `generateWordHash` guarantees about the index, and that every dictionary word
      has a frequency-table entry (the dictionary is the table's key list). */
  predicate ValidPuzzle(pz: Puzzle) {
    forall p, w :: p in pz.wordHash && w in pz.wordHash[p] ==>
      w in pz.frequencyTable && Hashable(w) && Pattern(w) == p
  }

  /** What every call of `solve` may rely on: each remaining cipherword hashes, has a
      bucket, and consists of letters that are keys of the letter map. */
  predicate Ready(pz: Puzzle, m: LetterMap, cws: seq<string>) {
    forall i :: 0 <= i < |cws| ==>
      Hashable(cws[i]) && Pattern(cws[i]) in pz.wordHash && forall c :: c in cws[i] ==> c in m
  }

  /** Every word of a bucket has a frequency-table entry, so `sortCandidates` may key on it. */
  lemma BucketRanked(pz: Puzzle, p: string)
    requires ValidPuzzle(pz) && p in pz.wordHash
    ensures forall w :: w in pz.wordHash[p] ==> w in pz.frequencyTable
  {
  }

  /** `sortCandidates(wordHash[hashWord(w)])`. */
  function Candidates(pz: Puzzle, w: string): (cands: seq<string>)
    requires ValidPuzzle(pz) && Hashable(w) && Pattern(w) in pz.wordHash
    ensures forall c :: c in cands <==> c in pz.wordHash[Pattern(w)]
  {
    SortCandidates(pz.wordHash[Pattern(w)], pz.frequencyTable)
  }

  /** The state `solve` changes: the global `bestScore` and what has been printed. The
      score and the letter map behind each printed translation are kept beside it. */
  datatype State = State(best: int, printed: seq<string>, scores: seq<int>, maps: seq<LetterMap>)

  function Max(a: int, b: int): int {
    if a < b then b else a
  }

  lemma ReadyStep(pz: Puzzle, m: LetterMap, m': LetterMap, cws: seq<string>)
    requires Ready(pz, m, cws) && cws != [] && m'.Keys == m.Keys
    ensures Ready(pz, m', cws[1..])
  {
    assert forall i :: 0 <= i < |cws| - 1 ==> cws[1..][i] == cws[i + 1];
  }

  lemma ZipLooksUp(m: LetterMap, cw: string, cand: string)
    requires forall c :: c in cw ==> c in m
    ensures LooksUp(m, Zip(cw, cand))
  {
    var ps := Zip(cw, cand);
    assert forall i :: 0 <= i < |ps| ==> ps[i].0 == cw[i];
  }

  /** The map `solve` recurses with for candidate `cand`: `consistent`'s result when it is
      a (non-empty, hence truthy) map. */
  function Extension(m: LetterMap, cw: string, cand: string): (r: Option<LetterMap>)
    requires forall c :: c in cw ==> c in m
    ensures r.Some? ==> r.value.Keys == m.Keys && r.value != map[]
    ensures r.Some? <==> !(exists i :: 0 <= i < |Zip(cw, cand)| && Clashes(m, cw[i], cand[i])) && m != map[]
  {
    ZipLooksUp(m, cw, cand);
    var r := TryExtend(m, cw, cand);
    if r.Some? && r.value != map[] then r else None
  }

  /** `solve(letterMap, score, cipherwordList)` from state `st`. */
  function Search(pz: Puzzle, st: State, m: LetterMap, score: int, cws: seq<string>): State
    requires ValidPuzzle(pz) && Ready(pz, m, cws)
    decreases |cws|, 1, 0
  {
    if st.best > score + |cws| then st
    else if cws == [] then
      if score >= st.best then
        State(score, st.printed + [Decrypt(m, pz.message)], st.scores + [score], st.maps + [m])
      else st
    else
      ReadyStep(pz, m, m, cws);
      Search(pz, TryAll(pz, st, m, score, cws, Candidates(pz, cws[0])), m, score, cws[1..])
  }

  /** The candidate loop of `solve` over `cands`, for the first cipherword of `cws`. */
  function TryAll(pz: Puzzle, st: State, m: LetterMap, score: int, cws: seq<string>, cands: seq<string>): State
    requires ValidPuzzle(pz) && Ready(pz, m, cws) && cws != []
    decreases |cws|, 0, |cands|
  {
    if cands == [] then st
    else
      var r := Extension(m, cws[0], cands[0]);
      if r.Some? then
        ReadyStep(pz, m, r.value, cws);
        TryAll(pz, Search(pz, st, r.value, score + 1, cws[1..]), m, score, cws, cands[1..])
      else TryAll(pz, st, m, score, cws, cands[1..])
  }

  /** The best score reachable from this call in the search tree without pruning: the
      largest `score` among its leaves. */
  function Opt(pz: Puzzle, m: LetterMap, score: int, cws: seq<string>): int
    requires ValidPuzzle(pz) && Ready(pz, m, cws)
    decreases |cws|, 1, 0
  {
    if cws == [] then score
    else
      ReadyStep(pz, m, m, cws);
      MaxOpt(pz, m, score, cws, Candidates(pz, cws[0]), Opt(pz, m, score, cws[1..]))
  }

  /** `acc` raised to the best score reachable through each candidate of `cands`. */
  function MaxOpt(pz: Puzzle, m: LetterMap, score: int, cws: seq<string>, cands: seq<string>, acc: int): int
    requires ValidPuzzle(pz) && Ready(pz, m, cws) && cws != []
    decreases |cws|, 0, |cands|
  {
    if cands == [] then acc
    else
      var r := Extension(m, cws[0], cands[0]);
      if r.Some? then
        ReadyStep(pz, m, r.value, cws);
        MaxOpt(pz, m, score, cws, cands[1..], Max(acc, Opt(pz, r.value, score + 1, cws[1..])))
      else MaxOpt(pz, m, score, cws, cands[1..], acc)
  }

  /** The bound check of `solve`: a call that cannot beat `bestScore` returns at once. */
  lemma SearchPruned(pz: Puzzle, st: State, m: LetterMap, score: int, cws: seq<string>)
    requires ValidPuzzle(pz) && Ready(pz, m, cws) && st.best > score + |cws|
    ensures Search(pz, st, m, score, cws) == st
  {
  }

  /** A leaf of `solve` that passed the bound check prints its translation and makes its
      score the best. */
  lemma SearchLeaf(pz: Puzzle, st: State, m: LetterMap, score: int)
    requires ValidPuzzle(pz) && Ready(pz, m, []) && st.best <= score
    ensures Search(pz, st, m, score, []) ==
      State(score, st.printed + [Decrypt(m, pz.message)], st.scores + [score], st.maps + [m])
  {
  }

  /** One step of `solve` past its bound check: the candidate loop, then the skip branch. */
  lemma SearchStep(pz: Puzzle, st: State, m: LetterMap, score: int, cws: seq<string>)
    requires ValidPuzzle(pz) && Ready(pz, m, cws)
    requires st.best <= score + |cws| && cws != []
    ensures Ready(pz, m, cws[1..])
    ensures Search(pz, st, m, score, cws) ==
      Search(pz, TryAll(pz, st, m, score, cws, Candidates(pz, cws[0])), m, score, cws[1..])
  {
    ReadyStep(pz, m, m, cws);
  }

  /** One round of the candidate loop. */
  lemma TryAllStep(pz: Puzzle, st: State, m: LetterMap, score: int, cws: seq<string>, cands: seq<string>)
    requires ValidPuzzle(pz) && Ready(pz, m, cws) && cws != [] && cands != []
    ensures forall c :: c in cws[0] ==> c in m
    ensures Extension(m, cws[0], cands[0]).Some? ==> Ready(pz, Extension(m, cws[0], cands[0]).value, cws[1..])
    ensures TryAll(pz, st, m, score, cws, cands) ==
      if Extension(m, cws[0], cands[0]).Some? then
        TryAll(pz, Search(pz, st, Extension(m, cws[0], cands[0]).value, score + 1, cws[1..]), m, score, cws, cands[1..])
      else TryAll(pz, st, m, score, cws, cands[1..])
  {
    var r := Extension(m, cws[0], cands[0]);
    if r.Some? {
      ReadyStep(pz, m, r.value, cws);
    }
  }

  /** Round `i` of the candidate loop over `cands`. */
  lemma TryAllAt(pz: Puzzle, st: State, m: LetterMap, score: int, cws: seq<string>, cands: seq<string>, i: nat)
    requires ValidPuzzle(pz) && Ready(pz, m, cws) && cws != [] && i < |cands|
    ensures forall c :: c in cws[0] ==> c in m
    ensures Extension(m, cws[0], cands[i]).Some? ==> Ready(pz, Extension(m, cws[0], cands[i]).value, cws[1..])
    ensures TryAll(pz, st, m, score, cws, cands[i..]) ==
      if Extension(m, cws[0], cands[i]).Some? then
        TryAll(pz, Search(pz, st, Extension(m, cws[0], cands[i]).value, score + 1, cws[1..]), m, score, cws, cands[i + 1..])
      else TryAll(pz, st, m, score, cws, cands[i + 1..])
  {
    assert cands[i..][0] == cands[i] && cands[i..][1..] == cands[i + 1..];
    TryAllStep(pz, st, m, score, cws, cands[i..]);
  }

  /** `consistent`'s result, read as Python reads `if newMap:`. */
  lemma ExtensionOfConsistent(m: LetterMap, cw: string, cand: string, newMap: Option<LetterMap>)
    requires (forall c :: c in cw ==> c in m) && LooksUp(m, Zip(cw, cand))
    requires newMap == TryExtend(m, cw, cand)
    ensures Extension(m, cw, cand) == if newMap.Some? && newMap.value != map[] then newMap else None
  {
  }

  lemma TryAllDone(pz: Puzzle, st: State, m: LetterMap, score: int, cws: seq<string>)
    requires ValidPuzzle(pz) && Ready(pz, m, cws) && cws != []
    ensures TryAll(pz, st, m, score, cws, []) == st
  {
  }

  lemma OptStep(pz: Puzzle, m: LetterMap, score: int, cws: seq<string>)
    requires ValidPuzzle(pz) && Ready(pz, m, cws) && cws != []
    ensures Ready(pz, m, cws[1..])
    ensures Opt(pz, m, score, cws) ==
      MaxOpt(pz, m, score, cws, Candidates(pz, cws[0]), Opt(pz, m, score, cws[1..]))
  {
    ReadyStep(pz, m, m, cws);
  }

  /** One round of the candidate fold. */
  lemma MaxOptStep(pz: Puzzle, m: LetterMap, score: int, cws: seq<string>, cands: seq<string>, acc: int)
    requires ValidPuzzle(pz) && Ready(pz, m, cws) && cws != [] && cands != []
    ensures Extension(m, cws[0], cands[0]).Some? ==> Ready(pz, Extension(m, cws[0], cands[0]).value, cws[1..])
    ensures MaxOpt(pz, m, score, cws, cands, acc) ==
      if Extension(m, cws[0], cands[0]).Some? then
        MaxOpt(pz, m, score, cws, cands[1..], Max(acc, Opt(pz, Extension(m, cws[0], cands[0]).value, score + 1, cws[1..])))
      else MaxOpt(pz, m, score, cws, cands[1..], acc)
  {
    var r := Extension(m, cws[0], cands[0]);
    if r.Some? {
      ReadyStep(pz, m, r.value, cws);
    }
  }

  /** Every leaf below a call scores at least `score` and at most one more per remaining
      cipherword. */
  lemma {:induction false} OptBounds(pz: Puzzle, m: LetterMap, score: int, cws: seq<string>)
    requires ValidPuzzle(pz) && Ready(pz, m, cws)
    ensures score <= Opt(pz, m, score, cws) <= score + |cws|
    decreases |cws|, 1, 0
  {
    if cws != [] {
      ReadyStep(pz, m, m, cws);
      OptBounds(pz, m, score, cws[1..]);
      MaxOptBounds(pz, m, score, cws, Candidates(pz, cws[0]), Opt(pz, m, score, cws[1..]));
    }
  }

  lemma {:induction false} MaxOptBounds(pz: Puzzle, m: LetterMap, score: int, cws: seq<string>, cands: seq<string>, acc: int)
    requires ValidPuzzle(pz) && Ready(pz, m, cws) && cws != []
    ensures acc <= MaxOpt(pz, m, score, cws, cands, acc) <= Max(acc, score + |cws|)
    decreases |cws|, 0, |cands|
  {
    if cands != [] {
      MaxOptStep(pz, m, score, cws, cands, acc);
      var r := Extension(m, cws[0], cands[0]);
      if r.Some? {
        OptBounds(pz, r.value, score + 1, cws[1..]);
        MaxOptBounds(pz, m, score, cws, cands[1..], Max(acc, Opt(pz, r.value, score + 1, cws[1..])));
      } else {
        MaxOptBounds(pz, m, score, cws, cands[1..], acc);
      }
    }
  }

  /** Raising the running maximum of the candidate fold raises its result the same way. */
  lemma {:induction false} MaxOptShift(pz: Puzzle, m: LetterMap, score: int, cws: seq<string>, cands: seq<string>, a: int, b: int)
    requires ValidPuzzle(pz) && Ready(pz, m, cws) && cws != []
    ensures Max(MaxOpt(pz, m, score, cws, cands, a), b) == MaxOpt(pz, m, score, cws, cands, Max(a, b))
    decreases |cands|
  {
    if cands != [] {
      MaxOptStep(pz, m, score, cws, cands, a);
      MaxOptStep(pz, m, score, cws, cands, Max(a, b));
      var r := Extension(m, cws[0], cands[0]);
      if r.Some? {
        var o := Opt(pz, r.value, score + 1, cws[1..]);
        MaxOptShift(pz, m, score, cws, cands[1..], Max(a, o), b);
        assert Max(Max(a, o), b) == Max(Max(a, b), o);
      } else {
        MaxOptShift(pz, m, score, cws, cands[1..], a, b);
      }
    }
  }
  /** `solve` leaves `bestScore` at the larger of its old value and the unpruned optimum:
      pruning never loses a better solution. */
  lemma {:induction false} SearchBest(pz: Puzzle, st: State, m: LetterMap, score: int, cws: seq<string>)
    requires ValidPuzzle(pz) && Ready(pz, m, cws)
    ensures Search(pz, st, m, score, cws).best == Max(st.best, Opt(pz, m, score, cws))
    ensures |Search(pz, st, m, score, cws).printed| >= |st.printed|
    ensures Search(pz, st, m, score, cws).best > st.best ==> |Search(pz, st, m, score, cws).printed| > |st.printed|
    decreases |cws|, 1, 0
  {
    OptBounds(pz, m, score, cws);
    if st.best > score + |cws| || cws == [] {
    } else {
      ReadyStep(pz, m, m, cws);
      var cands := Candidates(pz, cws[0]);
      var rest := Opt(pz, m, score, cws[1..]);
      var st1 := TryAll(pz, st, m, score, cws, cands);
      TryAllBest(pz, st, m, score, cws, cands);
      SearchBest(pz, st1, m, score, cws[1..]);
      MaxOptShift(pz, m, score, cws, cands, st.best, rest);
      MaxOptShift(pz, m, score, cws, cands, rest, st.best);
    }
  }

  /** The candidate loop: `bestScore` becomes the running maximum over the candidates'
      subtrees. */
  lemma {:induction false} TryAllBest(pz: Puzzle, st: State, m: LetterMap, score: int, cws: seq<string>, cands: seq<string>)
    requires ValidPuzzle(pz) && Ready(pz, m, cws) && cws != []
    ensures TryAll(pz, st, m, score, cws, cands).best == MaxOpt(pz, m, score, cws, cands, st.best)
    ensures |TryAll(pz, st, m, score, cws, cands).printed| >= |st.printed|
    ensures TryAll(pz, st, m, score, cws, cands).best > st.best ==> |TryAll(pz, st, m, score, cws, cands).printed| > |st.printed|
    decreases |cws|, 0, |cands|
  {
    if cands != [] {
      var r := Extension(m, cws[0], cands[0]);
      if r.Some? {
        ReadyStep(pz, m, r.value, cws);
        var o := Opt(pz, r.value, score + 1, cws[1..]);
        var st1 := Search(pz, st, r.value, score + 1, cws[1..]);
        SearchBest(pz, st, r.value, score + 1, cws[1..]);
        TryAllBest(pz, st1, m, score, cws, cands[1..]);
      } else {
        TryAllBest(pz, st, m, score, cws, cands[1..]);
      }
    }
  }

  /** A call whose subtree cannot reach `bestScore` changes nothing and prints nothing. */
  lemma {:induction false} SearchBelow(pz: Puzzle, st: State, m: LetterMap, score: int, cws: seq<string>)
    requires ValidPuzzle(pz) && Ready(pz, m, cws)
    requires Opt(pz, m, score, cws) < st.best
    ensures Search(pz, st, m, score, cws) == st
    decreases |cws|, 1, 0
  {
    OptBounds(pz, m, score, cws);
    if st.best <= score + |cws| && cws != [] {
      SearchStep(pz, st, m, score, cws);
      OptStep(pz, m, score, cws);
      var cands := Candidates(pz, cws[0]);
      TryAllBelow(pz, st, m, score, cws, cands, Opt(pz, m, score, cws[1..]));
      SearchBelow(pz, st, m, score, cws[1..]);
    }
  }

  /** The candidate loop changes nothing when no candidate's subtree reaches `bestScore`,
      that is when the fold from any `a` stays below it. */
  lemma {:induction false} TryAllBelow(pz: Puzzle, st: State, m: LetterMap, score: int, cws: seq<string>, cands: seq<string>, a: int)
    requires ValidPuzzle(pz) && Ready(pz, m, cws) && cws != []
    requires MaxOpt(pz, m, score, cws, cands, a) < st.best
    ensures a < st.best
    ensures TryAll(pz, st, m, score, cws, cands) == st
    decreases |cws|, 0, |cands|
  {
    MaxOptBounds(pz, m, score, cws, cands, a);
    if cands != [] {
      var r := Extension(m, cws[0], cands[0]);
      if r.Some? {
        ReadyStep(pz, m, r.value, cws);
        var o := Opt(pz, r.value, score + 1, cws[1..]);
        TryAllBelow(pz, st, m, score, cws, cands[1..], Max(a, o));
        SearchBelow(pz, st, r.value, score + 1, cws[1..]);
      } else {
        TryAllBelow(pz, st, m, score, cws, cands[1..], a);
      }
    }
  }

  /** A call whose subtree reaches `bestScore` prints at least one translation. */
  lemma {:induction false} SearchEmits(pz: Puzzle, st: State, m: LetterMap, score: int, cws: seq<string>)
    requires ValidPuzzle(pz) && Ready(pz, m, cws)
    requires Opt(pz, m, score, cws) >= st.best
    ensures |Search(pz, st, m, score, cws).printed| > |st.printed|
    decreases |cws|, 1, 0
  {
    OptBounds(pz, m, score, cws);
    if cws != [] {
      SearchStep(pz, st, m, score, cws);
      OptStep(pz, m, score, cws);
      var cands := Candidates(pz, cws[0]);
      var rest := Opt(pz, m, score, cws[1..]);
      var st1 := TryAll(pz, st, m, score, cws, cands);
      TryAllBest(pz, st, m, score, cws, cands);
      SearchBest(pz, st1, m, score, cws[1..]);
      if rest < st.best {
        TryAllEmits(pz, st, m, score, cws, cands, rest);
      } else if st1.best == st.best {
        SearchEmits(pz, st1, m, score, cws[1..]);
      }
    }
  }

  /** The candidate loop prints when the fold from some `a` below `bestScore` reaches it. */
  lemma {:induction false} TryAllEmits(pz: Puzzle, st: State, m: LetterMap, score: int, cws: seq<string>, cands: seq<string>, a: int)
    requires ValidPuzzle(pz) && Ready(pz, m, cws) && cws != []
    requires a < st.best && MaxOpt(pz, m, score, cws, cands, a) >= st.best
    ensures |TryAll(pz, st, m, score, cws, cands).printed| > |st.printed|
    decreases |cws|, 0, |cands|
  {
    if cands != [] {
      var r := Extension(m, cws[0], cands[0]);
      if r.Some? {
        ReadyStep(pz, m, r.value, cws);
        var o := Opt(pz, r.value, score + 1, cws[1..]);
        var st1 := Search(pz, st, r.value, score + 1, cws[1..]);
        if o >= st.best {
          SearchEmits(pz, st, r.value, score + 1, cws[1..]);
          TryAllBest(pz, st1, m, score, cws, cands[1..]);
        } else {
          SearchBelow(pz, st, r.value, score + 1, cws[1..]);
          TryAllEmits(pz, st, m, score, cws, cands[1..], Max(a, o));
        }
      } else {
        TryAllEmits(pz, st, m, score, cws, cands[1..], a);
      }
    }
  }

  /** What the printed output satisfies: each printed line is the decryption of the puzzle
      under an injective letter map, the scores of the printed lines never decrease, and
      the last one printed has the current `bestScore`. */
  predicate Logged(pz: Puzzle, st: State) {
    |st.printed| == |st.scores| == |st.maps| &&
    (forall i :: 0 <= i < |st.maps| ==>
      Injective(st.maps[i]) && st.printed[i] == Decrypt(st.maps[i], pz.message)) &&
    (forall i, j :: 0 <= i < j < |st.scores| ==> st.scores[i] <= st.scores[j]) &&
    (|st.scores| > 0 ==> st.scores[|st.scores| - 1] == st.best)
  }

  /** The last translation printed has the current `bestScore`. */
  lemma LoggedLast(pz: Puzzle, st: State)
    requires Logged(pz, st) && |st.printed| > 0
    ensures |st.scores| == |st.printed| && st.scores[|st.scores| - 1] == st.best
  {
  }

  /** No printed score exceeds the current `bestScore`. */
  lemma LoggedBounded(pz: Puzzle, st: State)
    requires Logged(pz, st)
    ensures forall i :: 0 <= i < |st.scores| ==> st.scores[i] <= st.best
  {
    forall i | 0 <= i < |st.scores| - 1
      ensures st.scores[i] <= st.best
    {
      assert st.scores[i] <= st.scores[|st.scores| - 1];
    }
  }

  /** Printing a leaf at or above `bestScore` keeps the output `Logged`. */
  lemma LoggedAppend(pz: Puzzle, st: State, m: LetterMap, score: int)
    requires Logged(pz, st) && Injective(m) && st.best <= score
    ensures Logged(pz, State(score, st.printed + [Decrypt(m, pz.message)], st.scores + [score], st.maps + [m]))
  {
    var st' := State(score, st.printed + [Decrypt(m, pz.message)], st.scores + [score], st.maps + [m]);
    forall i, j | 0 <= i < j < |st'.scores|
      ensures st'.scores[i] <= st'.scores[j]
    {
      if j == |st.scores| && i < j - 1 {
        assert st.scores[i] <= st.scores[j - 1];
      }
    }
  }

  /** `m2` has the letters of `m` as keys and keeps every letter `m` has already set. */
  predicate Extends(m: LetterMap, m2: LetterMap) {
    m2.Keys == m.Keys && forall c :: c in m && m[c].Some? ==> c in m2 && m2[c] == m[c]
  }

  /** The map `solve` recurses with for a candidate of the word's own pattern is injective
      and extends the current map. */
  lemma ExtensionValid(pz: Puzzle, m: LetterMap, cw: string, cand: string)
    requires ValidPuzzle(pz) && Injective(m) && Hashable(cw) && Pattern(cw) in pz.wordHash
    requires (forall c :: c in cw ==> c in m) && cand in pz.wordHash[Pattern(cw)]
    ensures Extension(m, cw, cand).Some? ==>
      Injective(Extension(m, cw, cand).value) && Extends(m, Extension(m, cw, cand).value)
  {
    ZipLooksUp(m, cw, cand);
    var r := Extension(m, cw, cand);
    if r.Some? {
      assert TryExtend(m, cw, cand) == r;
      assert Hashable(cand) && Pattern(cand) == Pattern(cw);
      PatternIffSameShape(cw, cand);
      ExtendInjective(m, cw, cand);
      ExtendKeepsEntries(m, cw, cand);
    }
  }

  /** `solve` only appends to the output, keeps it `Logged`, and every translation it adds
      comes from a map that extends the one it was called with. */
  lemma {:induction false} SearchLog(pz: Puzzle, st: State, m: LetterMap, score: int, cws: seq<string>)
    requires ValidPuzzle(pz) && Ready(pz, m, cws) && Injective(m) && Logged(pz, st)
    ensures Logged(pz, Search(pz, st, m, score, cws))
    ensures st.printed <= Search(pz, st, m, score, cws).printed
    ensures st.scores <= Search(pz, st, m, score, cws).scores
    ensures st.maps <= Search(pz, st, m, score, cws).maps
    ensures forall i :: |st.maps| <= i < |Search(pz, st, m, score, cws).maps| ==>
      Extends(m, Search(pz, st, m, score, cws).maps[i])
    decreases |cws|, 1, 0
  {
    if st.best > score + |cws| {
      SearchPruned(pz, st, m, score, cws);
    } else if cws == [] {
      SearchLeaf(pz, st, m, score);
      LoggedAppend(pz, st, m, score);
    } else {
      SearchStep(pz, st, m, score, cws);
      var cands := Candidates(pz, cws[0]);
      var st1 := TryAll(pz, st, m, score, cws, cands);
      TryAllLog(pz, st, m, score, cws, cands);
      SearchLog(pz, st1, m, score, cws[1..]);
      var st2 := Search(pz, st1, m, score, cws[1..]);
      forall i | |st.maps| <= i < |st2.maps|
        ensures Extends(m, st2.maps[i])
      {
        if i < |st1.maps| {
          assert st2.maps[i] == st1.maps[i];
        }
      }
    }
  }

  lemma {:induction false} TryAllLog(pz: Puzzle, st: State, m: LetterMap, score: int, cws: seq<string>, cands: seq<string>)
    requires ValidPuzzle(pz) && Ready(pz, m, cws) && cws != [] && Injective(m) && Logged(pz, st)
    requires forall c :: c in cands ==> c in pz.wordHash[Pattern(cws[0])]
    ensures Logged(pz, TryAll(pz, st, m, score, cws, cands))
    ensures st.printed <= TryAll(pz, st, m, score, cws, cands).printed
    ensures st.scores <= TryAll(pz, st, m, score, cws, cands).scores
    ensures st.maps <= TryAll(pz, st, m, score, cws, cands).maps
    ensures forall i :: |st.maps| <= i < |TryAll(pz, st, m, score, cws, cands).maps| ==>
      Extends(m, TryAll(pz, st, m, score, cws, cands).maps[i])
    decreases |cws|, 0, |cands|
  {
    if cands != [] {
      TryAllStep(pz, st, m, score, cws, cands);
      var r := Extension(m, cws[0], cands[0]);
      if r.Some? {
        ExtensionValid(pz, m, cws[0], cands[0]);
        var st1 := Search(pz, st, r.value, score + 1, cws[1..]);
        SearchLog(pz, st, r.value, score + 1, cws[1..]);
        TryAllLog(pz, st1, m, score, cws, cands[1..]);
        var st2 := TryAll(pz, st1, m, score, cws, cands[1..]);
        forall i | |st.maps| <= i < |st2.maps|
          ensures Extends(m, st2.maps[i])
        {
          if i < |st1.maps| {
            assert st2.maps[i] == st1.maps[i];
            ExtendsTransitive(m, r.value, st1.maps[i]);
          }
        }
      } else {
        TryAllLog(pz, st, m, score, cws, cands[1..]);
      }
    }
  }

  lemma ExtendsTransitive(m1: LetterMap, m2: LetterMap, m3: LetterMap)
    requires Extends(m1, m2) && Extends(m2, m3)
    ensures Extends(m1, m3)
  {
  }

  /** A search started at or above `bestScore` prints at least once; afterwards the
      output is `Logged`, and every new line comes from a map that extends the starting
      one. */
  lemma SearchPrints(pz: Puzzle, st: State, m: LetterMap, score: int, cws: seq<string>)
    requires ValidPuzzle(pz) && Ready(pz, m, cws) && Injective(m) && Logged(pz, st) && st.best <= score
    ensures Logged(pz, Search(pz, st, m, score, cws))
    ensures |Search(pz, st, m, score, cws).printed| > |st.printed|
    ensures forall i :: |st.maps| <= i < |Search(pz, st, m, score, cws).maps| ==>
      Extends(m, Search(pz, st, m, score, cws).maps[i])
  {
    OptBounds(pz, m, score, cws);
    SearchEmits(pz, st, m, score, cws);
    SearchLog(pz, st, m, score, cws);
  }
}
