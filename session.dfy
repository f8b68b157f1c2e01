/** The vocabulary review session (src/renderer/components/VocabularySession.tsx):
    the word list, which grows only by appending repeats of the current
    word; the current position; and the recorded answers, one per term.
    The state and its transitions are stated as functions on `State`, the
    properties the view relies on are lemmas about those functions, and the
    class `ReviewSession` updates its fields step by step as the component's
    handlers do, each method proved to perform the matching transition. */
module Session {
  import opened Wrappers
  import opened Types

  datatype Direction = Prev | Next

  datatype SessionError = IncompleteSession

  /** A snapshot of the session: the word list it was started with, the
      current word list, the current position and the recorded answers. */
  datatype State = State(
    original: seq<VocabularyWord>,
    wordList: seq<VocabularyWord>,
    currentIndex: nat,
    results: seq<WordResult>)

  predicate HasCurrent(s: State) {
    s.currentIndex < |s.wordList|
  }

  function CurrentWord(s: State): VocabularyWord
    requires HasCurrent(s)
  {
    s.wordList[s.currentIndex]
  }

  /** No two records share a term. */
  predicate UniqueTerms(results: seq<WordResult>) {
    forall i, j :: 0 <= i < j < |results| ==> results[i].word.term != results[j].word.term
  }

  /** No two words of a list share a term. */
  predicate DistinctTerms(words: seq<VocabularyWord>) {
    forall i, j :: 0 <= i < j < |words| ==> words[i].term != words[j].term
  }

  /** What every reachable session satisfies: it was started from a non-empty
      list, which is still a prefix of the word list; the position is in
      range; every listed or recorded word comes from the original list; and
      there is at most one record per term. */
  predicate Inv(s: State)
    ensures Inv(s) ==> HasCurrent(s) && |s.original| <= |s.wordList|
  {
    && |s.original| > 0
    && s.original <= s.wordList
    && s.currentIndex < |s.wordList|
    && (forall k :: 0 <= k < |s.wordList| ==> s.wordList[k] in s.original)
    && (forall k :: 0 <= k < |s.results| ==> s.results[k].word in s.original)
    && UniqueTerms(s.results)
  }

  /** `results.findIndex(r => r.word.term === term)`: the position of the
      first record for `term`, or -1 when there is none. */
  function FindIndex(results: seq<WordResult>, term: string): (i: int)
    ensures -1 <= i < |results|
    ensures i < 0 <==> forall j :: 0 <= j < |results| ==> results[j].word.term != term
    ensures 0 <= i ==> results[i].word.term == term
    ensures 0 <= i ==> forall j :: 0 <= j < i ==> results[j].word.term != term
  {
    if results == [] then -1
    else if results[0].word.term == term then 0
    else
      var i := FindIndex(results[1..], term);
      if i < 0 then -1 else i + 1
  }

  /** Two record lists that agree, position by position, on which records
      belong to `term` find the same first record for it. */
  lemma SameFirstMatch(a: seq<WordResult>, b: seq<WordResult>, term: string)
    requires |a| == |b|
    requires forall j :: 0 <= j < |a| ==> (a[j].word.term == term <==> b[j].word.term == term)
    ensures FindIndex(a, term) == FindIndex(b, term)
  {
  }

  /** `results.find(r => r.word.term === term)`. Under unique terms it is the
      one record for `term`, wherever it stands. */
  function Lookup(results: seq<WordResult>, term: string): (r: Option<WordResult>)
    ensures r.None? <==> forall j :: 0 <= j < |results| ==> results[j].word.term != term
    ensures r.Some? ==> r.value.word.term == term && r.value in results
    ensures UniqueTerms(results) ==>
      forall j :: 0 <= j < |results| && results[j].word.term == term ==> r == Some(results[j])
  {
    var i := FindIndex(results, term);
    if i < 0 then None else Some(results[i])
  }

  /** The latest answer recorded for `term`, if any. */
  function LatestAnswer(results: seq<WordResult>, term: string): (r: Option<bool>)
    ensures r.None? <==> forall j :: 0 <= j < |results| ==> results[j].word.term != term
    ensures UniqueTerms(results) ==> forall j ::
      (0 <= j < |results| && results[j].word.term == term) ==> r == Some(results[j].known)
  {
    match Lookup(results, term)
    case None => None
    case Some(rec) => Some(rec.known)
  }

  /** Whether the record for `term` says it was ever answered "didn't know". */
  predicate EverUnknown(results: seq<WordResult>, term: string) {
    Lookup(results, term).Some? && Lookup(results, term).value.wasUnknown
  }

  /** Replacing the first record for `w.term` in place. */
  lemma ReplaceRecord(results: seq<WordResult>, w: VocabularyWord, known: bool)
    requires FindIndex(results, w.term) >= 0
    ensures var i := FindIndex(results, w.term);
      var r := results[i := WordResult(w, known, results[i].wasUnknown || !known)];
      && Lookup(r, w.term) == Some(WordResult(w, known, EverUnknown(results, w.term) || !known))
      && (forall t :: t != w.term ==> Lookup(r, t) == Lookup(results, t))
      && (UniqueTerms(results) ==> UniqueTerms(r))
  {
    var i := FindIndex(results, w.term);
    var r := results[i := WordResult(w, known, results[i].wasUnknown || !known)];
    SameFirstMatch(results, r, w.term);
    assert Lookup(results, w.term) == Some(results[i]);
    assert Lookup(r, w.term) == Some(r[i]);
    forall t | t != w.term ensures Lookup(r, t) == Lookup(results, t) {
      SameFirstMatch(results, r, t);
    }
    ReplaceKeepsUnique(results, i, WordResult(w, known, results[i].wasUnknown || !known));
  }

  /** Overwriting a record with one for the same term keeps terms unique. */
  lemma ReplaceKeepsUnique(results: seq<WordResult>, i: nat, rec: WordResult)
    requires i < |results| && rec.word.term == results[i].word.term
    ensures UniqueTerms(results) ==> UniqueTerms(results[i := rec])
  {
  }

  /** The first record for `t` after appending `x`. */
  lemma FindIndexAppend(results: seq<WordResult>, x: WordResult, t: string)
    ensures FindIndex(results + [x], t) ==
      if FindIndex(results, t) >= 0 then FindIndex(results, t)
      else if x.word.term == t then |results| else -1
  {
    var r := results + [x];
    var i, k := FindIndex(results, t), FindIndex(r, t);
    assert forall j :: 0 <= j < |results| ==> r[j] == results[j];
    assert r[|results|] == x;
    if i >= 0 {
      assert r[i].word.term == t;
    } else if x.word.term == t {
      assert k == |results|;
    }
  }

  /** Appending a first record for `w.term`. */
  lemma AppendRecord(results: seq<WordResult>, w: VocabularyWord, known: bool)
    requires FindIndex(results, w.term) < 0
    ensures var r := results + [WordResult(w, known, !known)];
      && Lookup(r, w.term) == Some(WordResult(w, known, EverUnknown(results, w.term) || !known))
      && (forall t :: t != w.term ==> Lookup(r, t) == Lookup(results, t))
      && (UniqueTerms(results) ==> UniqueTerms(r))
  {
    var x := WordResult(w, known, !known);
    var r := results + [x];
    FindIndexAppend(results, x, w.term);
    assert r[|results|] == x;
    forall t | t != w.term ensures Lookup(r, t) == Lookup(results, t) {
      FindIndexAppend(results, x, t);
      if FindIndex(results, t) >= 0 { assert r[FindIndex(results, t)] == results[FindIndex(results, t)]; }
    }
  }

  /** The record update of `handleResponse`: a term without a record gets a
      new record at the end; a term with one has it replaced in place, with
      `wasUnknown` kept once set. Afterwards the record for the term holds
      the word shown, the new answer and the sticky flag; the records of every
      other term are untouched; and terms stay unique. */
  function Upsert(results: seq<WordResult>, w: VocabularyWord, known: bool): (r: seq<WordResult>)
    ensures Lookup(results, w.term).None? ==> r == results + [WordResult(w, known, !known)]
    ensures Lookup(results, w.term).Some? ==>
      && |r| == |results|
      && var i := FindIndex(results, w.term);
         && r[i] == WordResult(w, known, results[i].wasUnknown || !known)
         && forall j :: 0 <= j < |results| && j != i ==> r[j] == results[j]
    ensures Lookup(r, w.term) == Some(WordResult(w, known, EverUnknown(results, w.term) || !known))
    ensures forall t :: t != w.term ==> Lookup(r, t) == Lookup(results, t)
    ensures UniqueTerms(results) ==> UniqueTerms(r)
  {
    var i := FindIndex(results, w.term);
    if i >= 0 then
      ReplaceRecord(results, w, known);
      results[i := WordResult(w, known, results[i].wasUnknown || !known)]
    else
      AppendRecord(results, w, known);
      results + [WordResult(w, known, !known)]
  }

  /** The session as it starts: the supplied list, the first word, no
      answers. It cannot be finished yet, and the Next button is disabled. */
  function Start(words: seq<VocabularyWord>): (s: State)
    requires |words| > 0
    ensures Inv(s)
    ensures s.original == words && s.wordList == words && s.currentIndex == 0 && s.results == []
    ensures !CanFinish(s)
    ensures ClickNavigation(s, Next) == s
  {
    State(words, words, 0, [])
  }

  /** `handleResponse(known)`. The answer is recorded for the current term
      (`Upsert`). "Didn't know" appends the current word to the list and moves
      on to the next position, which exists because the list just grew;
      "known" moves on unless at the last position. The list only grows, by
      at most one word, the original list stays a prefix, the position stays
      in range, and the invariant is kept. */
  function Respond(s: State, known: bool): (r: State)
    requires HasCurrent(s)
    ensures r.original == s.original
    ensures r.results == Upsert(s.results, CurrentWord(s), known)
    ensures !known ==> r.wordList == s.wordList + [CurrentWord(s)]
    ensures known ==> r.wordList == s.wordList
    ensures |r.wordList| == |s.wordList| + (if known then 0 else 1)
    ensures s.wordList <= r.wordList
    ensures r.currentIndex == s.currentIndex + 1 <==> !known || s.currentIndex < |s.wordList| - 1
    ensures r.currentIndex != s.currentIndex + 1 ==> r.currentIndex == s.currentIndex
    ensures HasCurrent(r)
    ensures Inv(s) ==> Inv(r)
    ensures LatestAnswer(r.results, CurrentWord(s).term) == Some(known)
    ensures forall t {:trigger EverUnknown(r.results, t)} ::
      EverUnknown(r.results, t) == (EverUnknown(s.results, t) || (t == CurrentWord(s).term && !known))
    ensures forall t {:trigger Lookup(r.results, t)} ::
      Lookup(r.results, t).Some? == (Lookup(s.results, t).Some? || t == CurrentWord(s).term)
  {
    var w := CurrentWord(s);
    var results := Upsert(s.results, w, known);
    assert forall t :: t != w.term ==> Lookup(results, t) == Lookup(s.results, t);
    if !known then
      State(s.original, s.wordList + [w], s.currentIndex + 1, results)
    else if s.currentIndex < |s.wordList| - 1 then
      State(s.original, s.wordList, s.currentIndex + 1, results)
    else
      State(s.original, s.wordList, s.currentIndex, results)
  }

  /** `handleNavigation(direction)`: Prev moves back unless at the first
      position, Next moves on unless at the last; nothing else changes. */
  function Navigate(s: State, direction: Direction): (r: State)
    ensures r.original == s.original && r.wordList == s.wordList && r.results == s.results
    ensures direction == Prev ==>
      r.currentIndex == if s.currentIndex > 0 then s.currentIndex - 1 else s.currentIndex
    ensures direction == Next ==>
      r.currentIndex == if s.currentIndex < |s.wordList| - 1 then s.currentIndex + 1 else s.currentIndex
    ensures HasCurrent(s) ==> HasCurrent(r)
    ensures Inv(s) ==> Inv(r)
  {
    if direction == Prev && s.currentIndex > 0 then
      s.(currentIndex := s.currentIndex - 1)
    else if direction == Next && s.currentIndex < |s.wordList| - 1 then
      s.(currentIndex := s.currentIndex + 1)
    else
      s
  }

  /** `getCurrentResponse()`: the latest answer for the current term. */
  function CurrentResponse(s: State): (r: Option<bool>)
    requires HasCurrent(s)
    ensures r.None? <==> forall j :: 0 <= j < |s.results| ==> s.results[j].word.term != CurrentWord(s).term
    ensures UniqueTerms(s.results) ==> forall j ::
      (0 <= j < |s.results| && s.results[j].word.term == CurrentWord(s).term) ==> r == Some(s.results[j].known)
  {
    LatestAnswer(s.results, CurrentWord(s).term)
  }

  /** `isCurrentAnswered()`: some record belongs to the current term. */
  predicate IsCurrentAnswered(s: State)
    requires HasCurrent(s)
    ensures IsCurrentAnswered(s) <==> exists j :: 0 <= j < |s.results| && s.results[j].word.term == CurrentWord(s).term
    ensures IsCurrentAnswered(s) <==> CurrentResponse(s).Some?
  {
    FindIndex(s.results, CurrentWord(s).term) >= 0
  }

  /** Whether a navigation button is enabled: Previous is disabled at the
      first position, Next at the last position and while the current word
      is unanswered. */
  predicate ButtonEnabled(s: State, direction: Direction)
    requires HasCurrent(s)
    ensures direction == Prev ==> (ButtonEnabled(s, direction) <==> s.currentIndex > 0)
    ensures direction == Next ==>
      (ButtonEnabled(s, direction) <==> s.currentIndex + 1 < |s.wordList| && IsCurrentAnswered(s))
  {
    match direction
    case Prev => s.currentIndex != 0
    case Next => !(s.currentIndex == |s.wordList| - 1 || !IsCurrentAnswered(s))
  }

  /** A click on a navigation button: the handler runs only when the button is
      enabled. For Previous the button adds nothing to the handler's own
      check; Next moves only from an answered word that is not the last. */
  function ClickNavigation(s: State, direction: Direction): (r: State)
    requires HasCurrent(s)
    ensures direction == Prev ==> r == Navigate(s, Prev)
    ensures direction == Next ==>
      r.currentIndex == if IsCurrentAnswered(s) && s.currentIndex < |s.wordList| - 1 then s.currentIndex + 1 else s.currentIndex
    ensures r.original == s.original && r.wordList == s.wordList && r.results == s.results
    ensures HasCurrent(r)
    ensures Inv(s) ==> Inv(r)
  {
    if ButtonEnabled(s, direction) then Navigate(s, direction) else s
  }

  /** The guard of `handleFinish`: one record per original list entry, and
      every record's latest answer is "known". */
  predicate CanFinish(s: State)
    ensures CanFinish(s) && UniqueTerms(s.results) ==>
      forall j :: 0 <= j < |s.results| ==> LatestAnswer(s.results, s.results[j].word.term) == Some(true)
  {
    |s.results| == |s.original| && forall j :: 0 <= j < |s.results| ==> s.results[j].known
  }

  /** The set of terms of a word list. */
  function WordTerms(words: seq<VocabularyWord>): set<string> {
    set j | 0 <= j < |words| :: words[j].term
  }

  /** The set of terms of a record list. */
  function ResultTerms(results: seq<WordResult>): set<string> {
    set j | 0 <= j < |results| :: results[j].word.term
  }

  lemma WordTermsSnoc(words: seq<VocabularyWord>)
    requires words != []
    ensures WordTerms(words) == WordTerms(words[..|words| - 1]) + {words[|words| - 1].term}
  {
    var p := words[..|words| - 1];
    forall t | t in WordTerms(words) ensures t in WordTerms(p) + {words[|words| - 1].term} {
      var j :| 0 <= j < |words| && words[j].term == t;
      if j < |words| - 1 { assert p[j] == words[j]; }
    }
    forall t | t in WordTerms(p) ensures t in WordTerms(words) {
      var j :| 0 <= j < |p| && p[j].term == t;
      assert words[j] == p[j];
    }
  }

  /** A list with distinct terms, extended by a word of a new term, still has
      distinct terms; a list whose prefix repeats a term repeats it too. */
  lemma DistinctSnoc(words: seq<VocabularyWord>)
    requires words != []
    ensures DistinctTerms(words) <==>
      DistinctTerms(words[..|words| - 1]) && words[|words| - 1].term !in WordTerms(words[..|words| - 1])
  {
    var p := words[..|words| - 1];
    var w := words[|words| - 1];
    assert forall j :: 0 <= j < |p| ==> p[j] == words[j];
    if DistinctTerms(words) {
      forall j | 0 <= j < |p| ensures p[j].term != w.term {
        assert words[j].term != words[|words| - 1].term;
      }
    }
  }

  /** A list has at most as many terms as entries, and exactly as many when
      no term repeats. */
  lemma {:induction false} WordTermsCount(words: seq<VocabularyWord>)
    ensures |WordTerms(words)| <= |words|
    ensures |WordTerms(words)| == |words| <==> DistinctTerms(words)
  {
    if words != [] {
      WordTermsCount(words[..|words| - 1]);
      WordTermsSnoc(words);
      DistinctSnoc(words);
    }
  }

  /** A record list with unique terms has as many terms as records. */
  lemma {:induction false} ResultTermsCount(results: seq<WordResult>)
    requires UniqueTerms(results)
    ensures |ResultTerms(results)| == |results|
  {
    if results != [] {
      var p := results[..|results| - 1];
      var last := results[|results| - 1];
      ResultTermsCount(p);
      assert ResultTerms(results) == ResultTerms(p) + {last.word.term} by {
        forall t | t in ResultTerms(results) ensures t in ResultTerms(p) + {last.word.term} {
          var j :| 0 <= j < |results| && results[j].word.term == t;
          if j < |results| - 1 { assert p[j] == results[j]; }
        }
      }
      assert last.word.term !in ResultTerms(p) by {
        forall j | 0 <= j < |p| ensures p[j].word.term != last.word.term {
          assert p[j] == results[j];
        }
      }
    }
  }

  /** In a reachable session every recorded term is a term of the original list. */
  lemma ResultTermsFromOriginal(s: State)
    requires Inv(s)
    ensures ResultTerms(s.results) <= WordTerms(s.original)
  {
    forall t | t in ResultTerms(s.results) ensures t in WordTerms(s.original) {
      var j :| 0 <= j < |s.results| && s.results[j].word.term == t;
      var k :| 0 <= k < |s.original| && s.original[k] == s.results[j].word;
    }
  }

  lemma SubsetOfSameSize(a: set<string>, b: set<string>)
    requires a <= b && |a| == |b|
    ensures a == b
  {
    assert a + (b - a) == b;
    assert a * (b - a) == {};
    assert |b - a| == 0;
    assert b - a == {};
  }

  /** Every original word answered "known" when the session can be finished
      and the original list has no repeated term. */
  lemma FinishMeansAllKnown(s: State)
    requires Inv(s) && DistinctTerms(s.original) && CanFinish(s)
    ensures forall k :: 0 <= k < |s.original| ==> LatestAnswer(s.results, s.original[k].term) == Some(true)
  {
    WordTermsCount(s.original);
    ResultTermsCount(s.results);
    ResultTermsFromOriginal(s);
    SubsetOfSameSize(ResultTerms(s.results), WordTerms(s.original));
    forall k | 0 <= k < |s.original| ensures LatestAnswer(s.results, s.original[k].term) == Some(true) {
      assert s.original[k].term in WordTerms(s.original);
      var j :| 0 <= j < |s.results| && s.results[j].word.term == s.original[k].term;
    }
  }

  /** The session can be finished once every original word's latest answer is
      "known", when the original list has no repeated term. */
  lemma AllKnownMeansFinish(s: State)
    requires Inv(s) && DistinctTerms(s.original)
    requires forall k :: 0 <= k < |s.original| ==> LatestAnswer(s.results, s.original[k].term) == Some(true)
    ensures CanFinish(s)
  {
    WordTermsCount(s.original);
    ResultTermsCount(s.results);
    ResultTermsFromOriginal(s);
    EveryTermAnswered(s);
    assert ResultTerms(s.results) == WordTerms(s.original);
    EveryRecordKnown(s);
  }

  /** Every original term has a record once each has a latest answer. */
  lemma EveryTermAnswered(s: State)
    requires forall k :: 0 <= k < |s.original| ==> LatestAnswer(s.results, s.original[k].term) == Some(true)
    ensures WordTerms(s.original) <= ResultTerms(s.results)
  {
    forall t | t in WordTerms(s.original) ensures t in ResultTerms(s.results) {
      var k :| 0 <= k < |s.original| && s.original[k].term == t;
      assert LatestAnswer(s.results, s.original[k].term) == Some(true);
    }
  }

  /** With unique terms, a record is the latest answer for its term, so it
      says "known" when every original term's latest answer does. */
  lemma EveryRecordKnown(s: State)
    requires Inv(s)
    requires forall k :: 0 <= k < |s.original| ==> LatestAnswer(s.results, s.original[k].term) == Some(true)
    ensures forall j :: 0 <= j < |s.results| ==> s.results[j].known
  {
    forall j | 0 <= j < |s.results| ensures s.results[j].known {
      var k :| 0 <= k < |s.original| && s.original[k] == s.results[j].word;
      assert LatestAnswer(s.results, s.original[k].term) == Some(true);
    }
  }

  /** When the original list has no repeated term, the session can be
      finished exactly when every original word's latest answer is "known". */
  lemma FinishIffAllKnown(s: State)
    requires Inv(s) && DistinctTerms(s.original)
    ensures CanFinish(s) <==>
      forall k :: 0 <= k < |s.original| ==> LatestAnswer(s.results, s.original[k].term) == Some(true)
  {
    if CanFinish(s) {
      FinishMeansAllKnown(s);
    }
    if forall k :: 0 <= k < |s.original| ==> LatestAnswer(s.results, s.original[k].term) == Some(true) {
      AllKnownMeansFinish(s);
    }
  }

  /** When the original list repeats a term, the session can never be
      finished: the records, one per term, are fewer than the list entries. */
  lemma DuplicateTermBlocksFinish(s: State)
    requires Inv(s) && !DistinctTerms(s.original)
    ensures !CanFinish(s)
  {
    WordTermsCount(s.original);
    ResultTermsCount(s.results);
    ResultTermsFromOriginal(s);
    assert |ResultTerms(s.results)| <= |WordTerms(s.original)| by {
      assert |WordTerms(s.original)| == |WordTerms(s.original) - ResultTerms(s.results)| + |ResultTerms(s.results)|;
    }
  }

  /** A user action: an answer button, or a navigation button. */
  datatype Event = Answer(known: bool) | Click(direction: Direction)

  function Step(s: State, e: Event): (r: State)
    requires HasCurrent(s)
    ensures HasCurrent(r)
    ensures Inv(s) ==> Inv(r)
  {
    match e
    case Answer(known) => Respond(s, known)
    case Click(direction) => ClickNavigation(s, direction)
  }

  /** The session after a sequence of user actions. */
  function Run(s: State, events: seq<Event>): (r: State)
    requires Inv(s)
    ensures Inv(r)
    decreases |events|
  {
    if events == [] then s else Run(Step(s, events[0]), events[1..])
  }

  /** The number of "didn't know" answers among the actions. */
  function CountUnknown(events: seq<Event>): nat {
    if events == [] then 0
    else (if events[0] == Answer(false) then 1 else 0) + CountUnknown(events[1..])
  }

  /** Whether, during the run, `term` was the current term at some
      "didn't know" answer. */
  predicate AnsweredUnknownDuring(s: State, events: seq<Event>, term: string)
    requires Inv(s)
    decreases |events|
  {
    if events == [] then false
    else
      (events[0] == Answer(false) && CurrentWord(s).term == term)
      || AnsweredUnknownDuring(Step(s, events[0]), events[1..], term)
  }

  /** Repeat-queue growth: after a run, the word list is the old one extended
      by exactly one entry per "didn't know" answer. */
  lemma {:induction false} RunQueueGrowth(s: State, events: seq<Event>)
    requires Inv(s)
    ensures s.wordList <= Run(s, events).wordList
    ensures |Run(s, events).wordList| == |s.wordList| + CountUnknown(events)
    ensures Run(s, events).original == s.original
    decreases |events|
  {
    if events != [] {
      RunQueueGrowth(Step(s, events[0]), events[1..]);
    }
  }

  /** `wasUnknown` after a run: the record for a term says "was unknown"
      exactly when it did before or the term was answered "didn't know"
      during the run, even if it was answered "known" later. Starting a
      session from scratch, it is exactly whether the term was ever answered
      "didn't know". */
  lemma {:induction false} RunWasUnknown(s: State, events: seq<Event>, term: string)
    requires Inv(s)
    ensures EverUnknown(Run(s, events).results, term)
        == (EverUnknown(s.results, term) || AnsweredUnknownDuring(s, events, term))
    decreases |events|
  {
    if events != [] {
      RunWasUnknown(Step(s, events[0]), events[1..], term);
    }
  }

  /** The walk-through of a two-word session: A known, then B unknown (B is
      queued again and becomes current), then the repeated B known; the
      session can then be finished with A never unknown and B once unknown. */
  lemma ReviewScenario(a: VocabularyWord, b: VocabularyWord)
    requires a.term != b.term
    ensures
      var s0 := Start([a, b]);
      var s1 := Respond(s0, true);
      var s2 := Respond(s1, false);
      var s3 := Respond(s2, true);
      && s1.currentIndex == 1
      && s2.wordList == [a, b, b] && s2.currentIndex == 2 && !CanFinish(s2)
      && s3.results == [WordResult(a, true, false), WordResult(b, true, true)]
      && CanFinish(s3)
  {
    var ra := [WordResult(a, true, false)];
    var s1 := State([a, b], [a, b], 1, ra);
    KnownFirst(a, b);
    var s2 := State([a, b], [a, b, b], 2, ra + [WordResult(b, false, true)]);
    UnknownSecond(a, b);
    KnownRepeat(a, b);
  }

  /** The first answer of the scenario: `a` known. */
  lemma KnownFirst(a: VocabularyWord, b: VocabularyWord)
    ensures Respond(Start([a, b]), true) == State([a, b], [a, b], 1, [WordResult(a, true, false)])
  {
    var s0 := Start([a, b]);
    assert CurrentWord(s0) == a;
    assert Upsert([], a, true) == [WordResult(a, true, false)];
  }

  /** The second answer: `b` not known, so `b` is queued again. */
  lemma UnknownSecond(a: VocabularyWord, b: VocabularyWord)
    requires a.term != b.term
    ensures
      var ra := [WordResult(a, true, false)];
      Respond(State([a, b], [a, b], 1, ra), false)
        == State([a, b], [a, b, b], 2, ra + [WordResult(b, false, true)])
  {
    var ra := [WordResult(a, true, false)];
    var s1 := State([a, b], [a, b], 1, ra);
    assert CurrentWord(s1) == b;
    assert FindIndex(ra, b.term) == -1;
    assert Upsert(ra, b, false) == ra + [WordResult(b, false, true)];
  }

  /** The third answer: the repeated `b` known, which overwrites its record
      but keeps the fact that it was once not known; the session can then
      finish. */
  lemma KnownRepeat(a: VocabularyWord, b: VocabularyWord)
    requires a.term != b.term
    ensures
      var ra := [WordResult(a, true, false)];
      var s2 := State([a, b], [a, b, b], 2, ra + [WordResult(b, false, true)]);
      && !CanFinish(s2)
      && Respond(s2, true) == State([a, b], [a, b, b], 2, [WordResult(a, true, false), WordResult(b, true, true)])
      && CanFinish(Respond(s2, true))
  {
    var ra := [WordResult(a, true, false)];
    var rs := ra + [WordResult(b, false, true)];
    var s2 := State([a, b], [a, b, b], 2, rs);
    assert !rs[1].known;
    assert CurrentWord(s2) == b;
    assert FindIndex(rs, b.term) == 1;
    assert Upsert(rs, b, true) == [WordResult(a, true, false), WordResult(b, true, true)];
  }

  /** The session component's state, updated in place by its handlers. */
  class ReviewSession {
    const original: seq<VocabularyWord>
    var wordList: seq<VocabularyWord>
    var currentIndex: nat
    var results: seq<WordResult>

    function Snapshot(): State
      reads this
    {
      State(original, wordList, currentIndex, results)
    }

    predicate Valid()
      reads this
    {
      Inv(Snapshot())
    }

    /** `useState(sessionData.vocabularyWords)`, `useState(0)`, `useState([])`.
        The upload screen publishes a session only for a non-empty list. */
    constructor (words: seq<VocabularyWord>)
      requires |words| > 0
      ensures Valid()
      ensures Snapshot() == Start(words)
    {
      original := words;
      wordList := words;
      currentIndex := 0;
      results := [];
    }

    method HandleResponse(known: bool)
      requires Valid()
      modifies this
      ensures Valid()
      ensures Snapshot() == Respond(old(Snapshot()), known)
    {
      ghost var expected := Respond(Snapshot(), known);
      var currentWord := wordList[currentIndex];
      var existingIndex := FindIndex(results, currentWord.term);
      if existingIndex >= 0 {
        var updated := WordResult(currentWord, known, results[existingIndex].wasUnknown || !known);
        results := results[existingIndex := updated];
      } else {
        results := results + [WordResult(currentWord, known, !known)];
      }
      assert results == expected.results;
      if !known {
        wordList := wordList + [currentWord];
        currentIndex := currentIndex + 1;
      } else if currentIndex < |wordList| - 1 {
        currentIndex := currentIndex + 1;
      }
      assert Snapshot() == expected;
    }

    method HandleNavigation(direction: Direction)
      requires Valid()
      modifies this
      ensures Valid()
      ensures Snapshot() == Navigate(old(Snapshot()), direction)
    {
      if direction == Prev && currentIndex > 0 {
        currentIndex := currentIndex - 1;
      } else if direction == Next && currentIndex < |wordList| - 1 {
        currentIndex := currentIndex + 1;
      }
    }

    /** A click on a navigation button, which calls the handler only when the
        button is enabled. */
    method ClickButton(direction: Direction)
      requires Valid()
      modifies this
      ensures Valid()
      ensures Snapshot() == ClickNavigation(old(Snapshot()), direction)
    {
      if ButtonEnabled(Snapshot(), direction) {
        HandleNavigation(direction);
      }
    }

    /** `handleFinish()`: hands the records on when the finish guard holds and
        reports an incomplete session otherwise. It changes nothing, so a
        refused finish leaves the session as it was. */
    method HandleFinish() returns (outcome: Result<seq<WordResult>, SessionError>)
      ensures outcome.Success? <==> CanFinish(Snapshot())
      ensures outcome.Success? ==> outcome.value == results
      ensures outcome.Success? ==> forall j :: 0 <= j < |outcome.value| ==> outcome.value[j].known
      ensures outcome.Failure? ==> outcome.error == IncompleteSession
    {
      if |results| == |original| && forall j :: 0 <= j < |results| ==> results[j].known {
        outcome := Success(results);
      } else {
        outcome := Failure(IncompleteSession);
      }
    }
  }
}
