/** The solver's global state and its entry point: `bestScore`, the printed translations,
    `solve` as a recursive method, and the main run that cleans, splits and orders the
    cipherwords before solving from a blank map. */
module Solving {
  import opened Alphabet
  import opened Canonical
  import opened WordHash
  import opened Ordering
  import opened LetterMaps
  import opened Decryption
  import opened Punctuation
  import opened SearchTree

  /** After cleaning, every word of the puzzle is upper-case letters only. */
  lemma CleanWordsUpper(message: string)
    ensures forall w, c :: w in Split(Cleaned(message)) && c in w ==> IsUpper(c)
    ensures AllHashable(Split(Cleaned(message)))
  {
    forall w | w in Split(Cleaned(message)) ensures Hashable(w) {
      UpperHashable(w);
    }
  }

  /** `sortCipherwords(removePunctuation(message).split())`: the words of the puzzle that
      have a bucket, longest first, ready to be solved from a blank map. */
  function Cipherwords(pz: Puzzle): (cws: seq<string>)
    ensures forall w :: w in cws ==> w in Split(Cleaned(pz.message))
    ensures forall i, j :: 0 <= i < j < |cws| ==> |cws[i]| >= |cws[j]|
  {
    CleanWordsUpper(pz.message);
    SortCipherwords(Split(Cleaned(pz.message)), pz.wordHash)
  }

  /** Every cipherword kept has a bucket and can be looked up in a blank map; every word of
      the cleaned puzzle that has a bucket is kept. */
  lemma CipherwordsReady(pz: Puzzle)
    ensures Ready(pz, BlankMap(), Cipherwords(pz))
    ensures forall w :: w in Split(Cleaned(pz.message)) ==>
      Hashable(w) && (w in Cipherwords(pz) <==> Pattern(w) in pz.wordHash)
  {
    var cws := Cipherwords(pz);
    CleanWordsUpper(pz.message);
    forall i | 0 <= i < |cws|
      ensures Hashable(cws[i]) && Pattern(cws[i]) in pz.wordHash && forall c :: c in cws[i] ==> c in BlankMap()
    {
      assert cws[i] in cws;
    }
  }

  /** The index built from the first `n` dictionary words, with the frequency table whose
      key list is the dictionary, is a valid puzzle for every message. */
  lemma DictionaryValid(message: string, words: seq<string>, n: int, wh: WordHash, ft: map<string, int>)
    requires forall w :: w in words ==> w in ft
    requires AllHashable(Take(words, n)) && IsIndexOf(wh, Take(words, n))
    ensures ValidPuzzle(Puzzle(message, wh, ft))
  {
    var ws := Take(words, n);
    forall p, w | p in wh && w in wh[p]
      ensures w in ft && Hashable(w) && Pattern(w) == p
    {
      assert w in Bucket(ws, p);
      var i :| 0 <= i < |ws| && ws[i] == w;
      assert words[i] == w;
    }
  }

  /** The state the main run ends in: `solve(blankMap(), 0, cipherwordList)` with
      `bestScore` 0 and nothing printed yet. */
  function Outcome(pz: Puzzle): State
    requires ValidPuzzle(pz)
  {
    CipherwordsReady(pz);
    Search(pz, State(0, [], [], []), BlankMap(), 0, Cipherwords(pz))
  }

  /** The best score of the main run equals the best leaf score of the unpruned search
      tree over the puzzle's cipherwords: pruning loses nothing. */
  lemma SolvedOptimal(pz: Puzzle)
    requires ValidPuzzle(pz)
    ensures Ready(pz, BlankMap(), Cipherwords(pz))
    ensures Outcome(pz).best == Opt(pz, BlankMap(), 0, Cipherwords(pz))
    ensures 0 <= Outcome(pz).best <= |Cipherwords(pz)|
  {
    CipherwordsReady(pz);
    OptBounds(pz, BlankMap(), 0, Cipherwords(pz));
    SearchBest(pz, State(0, [], [], []), BlankMap(), 0, Cipherwords(pz));
  }

  /** The main run prints at least one translation, and every printed translation is the
      puzzle decrypted by an injective letter map over A-Z. */
  lemma SolvedLogged(pz: Puzzle)
    requires ValidPuzzle(pz)
    ensures Logged(pz, Outcome(pz)) && |Outcome(pz).printed| >= 1
    ensures forall i :: 0 <= i < |Outcome(pz).maps| ==> Extends(BlankMap(), Outcome(pz).maps[i])
  {
    CipherwordsReady(pz);
    assert Injective(BlankMap());
    assert Logged(pz, State(0, [], [], []));
    SearchPrints(pz, State(0, [], [], []), BlankMap(), 0, Cipherwords(pz));
  }

  /** The last translation the main run prints achieves the best score. */
  lemma SolvedPrinted(pz: Puzzle)
    requires ValidPuzzle(pz)
    ensures |Outcome(pz).scores| >= 1
    ensures Outcome(pz).scores[|Outcome(pz).scores| - 1] == Outcome(pz).best
  {
    SolvedLogged(pz);
    LoggedLast(pz, Outcome(pz));
  }

  /** Every score printed by the main run is at most the number of cipherwords. */
  lemma SolvedScoresBounded(pz: Puzzle)
    requires ValidPuzzle(pz)
    ensures forall i :: 0 <= i < |Outcome(pz).scores| ==> Outcome(pz).scores[i] <= |Cipherwords(pz)|
  {
    SolvedOptimal(pz);
    SolvedLogged(pz);
    LoggedBounded(pz, Outcome(pz));
  }

  /** A puzzle none of whose words has a dictionary bucket ends with score 0 and a single
      line: the puzzle decrypted by the blank map. */
  lemma NoMatches(pz: Puzzle)
    requires ValidPuzzle(pz)
    requires forall w :: w in Split(Cleaned(pz.message)) && Hashable(w) ==> Pattern(w) !in pz.wordHash
    ensures Outcome(pz) == State(0, [Decrypt(BlankMap(), pz.message)], [0], [BlankMap()])
  {
    CipherwordsReady(pz);
    assert Cipherwords(pz) == [];
    SearchLeaf(pz, State(0, [], [], []), BlankMap(), 0);
  }

  class Solver {
    const puzzle: Puzzle
    var bestScore: int
    var printed: seq<string>
    ghost var printedScores: seq<int>
    ghost var printedMaps: seq<LetterMap>

    ghost function Current(): State
      reads this
    {
      State(bestScore, printed, printedScores, printedMaps)
    }

    constructor (message: string, wordHash: WordHash, frequencyTable: map<string, int>)
      ensures puzzle == Puzzle(message, wordHash, frequencyTable)
      ensures Current() == State(0, [], [], [])
    {
      puzzle := Puzzle(message, wordHash, frequencyTable);
      bestScore := 0;
      printed := [];
      printedScores := [];
      printedMaps := [];
    }

    /** `solve(letterMap, score, cipherwordList)`. */
    method Solve(letterMap: LetterMap, score: int, cipherwordList: seq<string>)
      requires ValidPuzzle(puzzle) && Ready(puzzle, letterMap, cipherwordList)
      modifies this
      ensures Current() == Search(puzzle, old(Current()), letterMap, score, cipherwordList)
      decreases |cipherwordList|
    {
      if bestScore > score + |cipherwordList| {
        SearchPruned(puzzle, Current(), letterMap, score, cipherwordList);
        return;
      }
      if |cipherwordList| == 0 {
        SearchLeaf(puzzle, Current(), letterMap, score);
        if score >= bestScore {
          var translation := DecryptMessage(letterMap, puzzle.message);
          printed := printed + [translation];
          printedScores := printedScores + [score];
          printedMaps := printedMaps + [letterMap];
          bestScore := score;
        }
        return;
      }
      ghost var start := Current();
      SearchStep(puzzle, start, letterMap, score, cipherwordList);
      var canonical := HashWord(cipherwordList[0]);
      BucketRanked(puzzle, canonical);
      var candidates := SortCandidates(puzzle.wordHash[canonical], puzzle.frequencyTable);
      assert candidates == Candidates(puzzle, cipherwordList[0]);
      for i := 0 to |candidates|
        invariant TryAll(puzzle, Current(), letterMap, score, cipherwordList, candidates[i..]) ==
          TryAll(puzzle, start, letterMap, score, cipherwordList, candidates)
      {
        ghost var before := Current();
        TryAllAt(puzzle, before, letterMap, score, cipherwordList, candidates, i);
        ZipLooksUp(letterMap, cipherwordList[0], candidates[i]);
        var newMap := Consistent(letterMap, cipherwordList[0], candidates[i]);
        ExtensionOfConsistent(letterMap, cipherwordList[0], candidates[i], newMap);
        if newMap.Some? && newMap.value != map[] {
          Solve(newMap.value, score + 1, cipherwordList[1..]);
        }
      }
      assert candidates[|candidates|..] == [];
      ghost var tried := Current();
      TryAllDone(puzzle, tried, letterMap, score, cipherwordList);
      Solve(letterMap, score, cipherwordList[1..]);
      assert Current() == Search(puzzle, tried, letterMap, score, cipherwordList[1..]);
    }

    /** The main run: clean and split the puzzle, order its cipherwords, reset `bestScore`
        and solve from a blank map. */
    method Run()
      requires ValidPuzzle(puzzle)
      modifies this
      ensures Current() == Outcome(puzzle)
      ensures Ready(puzzle, BlankMap(), Cipherwords(puzzle))
      ensures bestScore == Opt(puzzle, BlankMap(), 0, Cipherwords(puzzle))
      ensures Logged(puzzle, Current()) && |printed| >= 1
      ensures printedScores[|printedScores| - 1] == bestScore
    {
      var cleaned := RemovePunctuation(puzzle.message);
      CleanWordsUpper(puzzle.message);
      var cipherwordList := SortCipherwords(Split(cleaned), puzzle.wordHash);
      assert cipherwordList == Cipherwords(puzzle);
      CipherwordsReady(puzzle);
      bestScore := 0;
      printed := [];
      printedScores := [];
      printedMaps := [];
      Solve(BlankMap(), 0, cipherwordList);
      assert Current() == Outcome(puzzle);
      SolvedOptimal(puzzle);
      SolvedLogged(puzzle);
      SolvedPrinted(puzzle);
    }
  }
}
