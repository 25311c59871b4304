/**
 * The review engine of `cog_psy_game/game.py`: which terms are still due for
 * practice, the history of attempts and its store, and the flash-card loop.
 *
 * The table library's merge, group-by and fill are replaced by an explicit
 * count of attempts per term and a filter over the term rows.
 */
module Game {
  import opened Text
  import opened Wrappers

  /** `PRACTICE_TRESHOLD`: a term is due while it has fewer attempts than this. */
  const PracticeThreshold: nat := 2

  /** A row of the term table: the `Term` and `Definition` columns. */
  datatype TermRow = TermRow(term: string, definition: string)

  /** A row of the history: the `Term`, `Time` and `Correct` columns. */
  datatype Attempt = Attempt(term: string, time: string, correct: bool)

  // ---------------------------------------------------------------------------
  // Counting attempts
  // ---------------------------------------------------------------------------

  /** The terms of the history, one per attempt, in order. */
  function TermsOf(history: seq<Attempt>): (ts: seq<string>)
    ensures |ts| == |history|
    ensures forall i {:trigger ts[i]} :: 0 <= i < |history| ==> ts[i] == history[i].term
  {
    seq(|history|, i requires 0 <= i < |history| => history[i].term)
  }

  /**
   * The number of attempts at `term` in the history: the per-term count of
   * the group-by, with 0 for a term that was never attempted.
   */
  function AttemptCount(history: seq<Attempt>, term: string): (n: nat)
    ensures n <= |history|
  {
    if history == [] then 0
    else (if history[0].term == term then 1 else 0) + AttemptCount(history[1..], term)
  }

  /** The count is the multiplicity of the term among the history's terms. */
  lemma {:induction false} AttemptCountIsMultiplicity(history: seq<Attempt>, term: string)
    ensures AttemptCount(history, term) == multiset(TermsOf(history))[term]
  {
    if history != [] {
      AttemptCountIsMultiplicity(history[1..], term);
      assert TermsOf(history) == [history[0].term] + TermsOf(history[1..]);
    }
  }

  /** Appending one attempt adds one to its own term's count and nothing to the others. */
  lemma {:induction false} AttemptCountAppend(history: seq<Attempt>, a: Attempt, term: string)
    ensures AttemptCount(history + [a], term)
         == AttemptCount(history, term) + (if a.term == term then 1 else 0)
  {
    if history != [] {
      assert (history + [a])[1..] == history[1..] + [a];
      AttemptCountAppend(history[1..], a, term);
    }
  }

  /** More history never lowers a count. */
  lemma {:induction false} AttemptCountGrows(history: seq<Attempt>, more: seq<Attempt>, term: string)
    ensures AttemptCount(history + more, term) >= AttemptCount(history, term)
  {
    if history != [] {
      assert (history + more)[1..] == history[1..] + more;
      AttemptCountGrows(history[1..], more, term);
    }
  }

  // ---------------------------------------------------------------------------
  // prioritize_terms
  // ---------------------------------------------------------------------------

  /** A term row is due while its term has fewer than `PracticeThreshold` attempts. */
  predicate NeedsReview(history: seq<Attempt>, row: TermRow) {
    AttemptCount(history, row.term) < PracticeThreshold
  }

  /**
   * `prioritize_terms`: the term rows that need review, in table order. A row
   * is kept iff it is due.
   */
  function PrioritizeTerms(terms: seq<TermRow>, history: seq<Attempt>): (due: seq<TermRow>)
    ensures |due| <= |terms|
  {
    if terms == [] then []
    else (if NeedsReview(history, terms[0]) then [terms[0]] else []) + PrioritizeTerms(terms[1..], history)
  }

  /** `xs` is `ys` with some elements left out, the rest in their order. */
  predicate IsSubsequence<T(==)>(xs: seq<T>, ys: seq<T>) {
    if xs == [] then true
    else if ys == [] then false
    else if xs[0] == ys[0] then IsSubsequence(xs[1..], ys[1..])
    else IsSubsequence(xs, ys[1..])
  }

  /** The due rows keep the table's order. */
  lemma {:induction false} PrioritizeIsSubsequence(terms: seq<TermRow>, history: seq<Attempt>)
    ensures IsSubsequence(PrioritizeTerms(terms, history), terms)
  {
    if terms != [] {
      var rest := PrioritizeTerms(terms[1..], history);
      PrioritizeIsSubsequence(terms[1..], history);
      if NeedsReview(history, terms[0]) {
        assert PrioritizeTerms(terms, history) == [terms[0]] + rest;
        assert ([terms[0]] + rest)[1..] == rest;
      } else {
        assert PrioritizeTerms(terms, history) == rest;
        if rest != [] {
          assert NeedsReview(history, rest[0]) by {
            PrioritizeMembers(terms[1..], history, rest[0]);
          }
          assert rest[0] != terms[0];
        }
      }
    }
  }

  /**
   * Duplicated rows are kept or dropped together: a due row occurs as often
   * as in the table, any other row not at all.
   */
  lemma {:induction false} PrioritizeMultiplicity(terms: seq<TermRow>, history: seq<Attempt>, row: TermRow)
    ensures multiset(PrioritizeTerms(terms, history))[row]
         == if NeedsReview(history, row) then multiset(terms)[row] else 0
  {
    if terms != [] {
      PrioritizeMultiplicity(terms[1..], history, row);
      assert terms == [terms[0]] + terms[1..];
    }
  }

  /** A row is among the due rows iff it is in the table and due. */
  lemma PrioritizeMembers(terms: seq<TermRow>, history: seq<Attempt>, row: TermRow)
    ensures row in PrioritizeTerms(terms, history) <==> row in terms && NeedsReview(history, row)
  {
    PrioritizeMultiplicity(terms, history, row);
  }

  /** With an empty history every row is due. */
  lemma {:induction false} PrioritizeEmptyHistory(terms: seq<TermRow>)
    ensures PrioritizeTerms(terms, []) == terms
  {
    if terms != [] {
      PrioritizeEmptyHistory(terms[1..]);
      assert terms == [terms[0]] + terms[1..];
    }
  }

  /** Recording more attempts can only remove rows from the due set. */
  lemma PrioritizeShrinks(terms: seq<TermRow>, history: seq<Attempt>, more: seq<Attempt>)
    ensures multiset(PrioritizeTerms(terms, history + more)) <= multiset(PrioritizeTerms(terms, history))
  {
    forall row
      ensures multiset(PrioritizeTerms(terms, history + more))[row]
           <= multiset(PrioritizeTerms(terms, history))[row]
    {
      PrioritizeMultiplicity(terms, history + more, row);
      PrioritizeMultiplicity(terms, history, row);
      AttemptCountGrows(history, more, row.term);
    }
  }

  /**
   * A one-term session: the term is due with an empty history, and it is
   * no longer due once two attempts at it are recorded.
   */
  lemma TwoAttemptsMaster()
    ensures var terms := [TermRow("Memory", "The retention of information (Ch. 1)")];
      && PrioritizeTerms(terms, []) == terms
      && PrioritizeTerms(terms, [Attempt("Memory", "t1", true), Attempt("Memory", "t2", false)]) == []
  {
  }

  // ---------------------------------------------------------------------------
  // How far the table is from mastered
  // ---------------------------------------------------------------------------

  /** The attempts a row still lacks before it stops being due. */
  function Shortfall(history: seq<Attempt>, row: TermRow): nat {
    var n := AttemptCount(history, row.term);
    if n < PracticeThreshold then PracticeThreshold - n else 0
  }

  /** The attempts all rows still lack, summed over the table. */
  function Deficit(terms: seq<TermRow>, history: seq<Attempt>): nat {
    if terms == [] then 0 else Shortfall(history, terms[0]) + Deficit(terms[1..], history)
  }

  /** Nothing is lacking exactly when nothing is due. */
  lemma {:induction false} DeficitZeroIffNoneDue(terms: seq<TermRow>, history: seq<Attempt>)
    ensures Deficit(terms, history) == 0 <==> PrioritizeTerms(terms, history) == []
  {
    if terms != [] {
      DeficitZeroIffNoneDue(terms[1..], history);
    }
  }

  /** One more attempt never increases the deficit. */
  lemma {:induction false} DeficitNonIncreasing(terms: seq<TermRow>, history: seq<Attempt>, a: Attempt)
    ensures Deficit(terms, history + [a]) <= Deficit(terms, history)
  {
    if terms != [] {
      AttemptCountAppend(history, a, terms[0].term);
      DeficitNonIncreasing(terms[1..], history, a);
    }
  }

  /** An attempt at a due row strictly lowers the deficit. */
  lemma {:induction false} DeficitDrops(terms: seq<TermRow>, history: seq<Attempt>, a: Attempt)
    requires exists row :: row in terms && NeedsReview(history, row) && row.term == a.term
    ensures Deficit(terms, history + [a]) < Deficit(terms, history)
  {
    AttemptCountAppend(history, a, terms[0].term);
    if NeedsReview(history, terms[0]) && terms[0].term == a.term {
      DeficitNonIncreasing(terms[1..], history, a);
    } else {
      var row :| row in terms && NeedsReview(history, row) && row.term == a.term;
      assert row in terms[1..];
      DeficitDrops(terms[1..], history, a);
    }
  }

  // ---------------------------------------------------------------------------
  // The history store: load_history, save_history, update_history
  // ---------------------------------------------------------------------------

  /** The history a file holds; a missing file holds an empty history. */
  function LoadHistory(file: Option<seq<Attempt>>): seq<Attempt> {
    match file
    case None => []
    case Some(rows) => rows
  }

  /** The history file on disk. Parsing and writing the CSV text are left out. */
  class HistoryStore {
    /** The file's rows; `None` while the file does not exist. */
    var file: Option<seq<Attempt>>

    constructor (file: Option<seq<Attempt>>)
      ensures this.file == file
    {
      this.file := file;
    }

    /** `load_history`: the file's rows, or an empty history when it is missing. */
    method Load() returns (history: seq<Attempt>)
      ensures history == LoadHistory(file)
    {
      match file
      case None => history := [];
      case Some(rows) => history := rows;
    }

    /**
     * `update_history`: reads the file, appends one attempt stamped with
     * `timestamp`, and writes the whole history back.
     */
    method UpdateHistory(term: string, correct: bool, timestamp: string)
      modifies this
      ensures file == Some(LoadHistory(old(file)) + [Attempt(term, timestamp, correct)])
    {
      var historyRows := Load();
      var newRow := Attempt(term, timestamp, correct);
      historyRows := historyRows + [newRow];
      file := Some(historyRows);
    }
  }

  // ---------------------------------------------------------------------------
  // main: the flash-card loop
  // ---------------------------------------------------------------------------

  /**
   * What the user types in one round: the show-answer prompt's line, the
   * assessment prompt's line, and the clock reading `update_history` stamps.
   */
  datatype Answer = Answer(showLine: string, assessment: string, timestamp: string)

  /** One round as played: the pair shown, whether its definition was shown, the outcome. */
  datatype Turn = Turn(pair: TermRow, definitionShown: bool, correct: bool)

  /**
   * How a session ends: every term practised enough, or the console input
   * ended while the loop was still asking.
   */
  datatype SessionEnd = Mastered | InputExhausted

  /** The outcome rule: the lowered assessment is exactly `y`. */
  predicate IsAffirmative(assessment: string) {
    Lower(assessment) == "y"
  }

  /** Only `y` and `Y` are affirmative; any other input counts as incorrect. */
  lemma AffirmativeIff(assessment: string)
    ensures IsAffirmative(assessment) <==> assessment == "y" || assessment == "Y"
  {
    if assessment == "y" || assessment == "Y" {
      assert Lower(assessment)[0] == 'y';
    }
    if IsAffirmative(assessment) {
      assert |assessment| == 1;
      LowerCharIs(assessment[0], 'y');
      assert assessment == [assessment[0]];
    }
  }

  /** The attempts recorded for the first `|turns|` rounds. */
  function Attempts(turns: seq<Turn>, answers: seq<Answer>): (r: seq<Attempt>)
    requires |turns| <= |answers|
    ensures |r| == |turns|
    ensures forall k {:trigger r[k]} :: 0 <= k < |turns| ==>
      r[k] == Attempt(turns[k].pair.term, answers[k].timestamp, turns[k].correct)
  {
    seq(|turns|, k requires 0 <= k < |turns| => Attempt(turns[k].pair.term, answers[k].timestamp, turns[k].correct))
  }

  /** One more round records one more attempt, after whatever history `start` holds. */
  lemma AttemptsSnoc(start: seq<Attempt>, turns: seq<Turn>, turn: Turn, answers: seq<Answer>)
    requires |turns| < |answers|
    ensures Attempts(turns + [turn], answers)
         == Attempts(turns, answers) + [Attempt(turn.pair.term, answers[|turns|].timestamp, turn.correct)]
    ensures start + Attempts(turns + [turn], answers)
         == start + Attempts(turns, answers) + [Attempt(turn.pair.term, answers[|turns|].timestamp, turn.correct)]
  {
    var a := Attempt(turn.pair.term, answers[|turns|].timestamp, turn.correct);
    assert Attempts(turns + [turn], answers) == Attempts(turns, answers) + [a];
  }

  /** Every round shows the definition iff its show-answer line is empty and is graded by its assessment line. */
  ghost predicate FollowsAnswers(turns: seq<Turn>, answers: seq<Answer>)
    requires |turns| <= |answers|
  {
    forall j :: 0 <= j < |turns| ==>
      && turns[j].definitionShown == (answers[j].showLine == "")
      && turns[j].correct == IsAffirmative(answers[j].assessment)
  }

  /** Every round picked a pair that was due in the history as it stood at that round. */
  ghost predicate DueWhenPicked(terms: seq<TermRow>, start: seq<Attempt>, turns: seq<Turn>, answers: seq<Answer>)
    requires |turns| <= |answers|
  {
    forall j :: 0 <= j < |turns| ==>
      turns[j].pair in PrioritizeTerms(terms, start + Attempts(turns, answers)[..j])
  }

  /** A round that follows its answer line keeps `FollowsAnswers`. */
  lemma FollowsAnswersSnoc(turns: seq<Turn>, turn: Turn, answers: seq<Answer>)
    requires |turns| < |answers| && FollowsAnswers(turns, answers)
    requires turn.definitionShown == (answers[|turns|].showLine == "")
    requires turn.correct == IsAffirmative(answers[|turns|].assessment)
    ensures FollowsAnswers(turns + [turn], answers)
  {
    var t := turns + [turn];
    forall j | 0 <= j < |t|
      ensures t[j].definitionShown == (answers[j].showLine == "")
      ensures t[j].correct == IsAffirmative(answers[j].assessment)
    {
      if j < |turns| {
        assert t[j] == turns[j];
      }
    }
  }

  /** A round whose pick is due in the current history keeps `DueWhenPicked`. */
  lemma DueWhenPickedSnoc(terms: seq<TermRow>, start: seq<Attempt>, turns: seq<Turn>, turn: Turn, answers: seq<Answer>)
    requires |turns| < |answers| && DueWhenPicked(terms, start, turns, answers)
    requires turn.pair in PrioritizeTerms(terms, start + Attempts(turns, answers))
    ensures DueWhenPicked(terms, start, turns + [turn], answers)
  {
    var t := turns + [turn];
    var before, after := Attempts(turns, answers), Attempts(t, answers);
    AttemptsSnoc(start, turns, turn, answers);
    forall j | 0 <= j < |t|
      ensures t[j].pair in PrioritizeTerms(terms, start + after[..j])
    {
      if j < |turns| {
        assert after[..j] == before[..j];
      } else {
        assert after[..j] == before;
      }
    }
  }

  /**
   * The body of `main`'s loop once a due pair exists: pick any due pair
   * (`random.choice`), show its definition iff the show-answer line is empty,
   * grade it by the assessment line, and record the attempt in the store.
   */
  method PlayRound(due: seq<TermRow>, store: HistoryStore, answer: Answer) returns (turn: Turn)
    requires due != []
    modifies store
    ensures && turn.pair in due
            && turn.definitionShown == (answer.showLine == "")
            && turn.correct == IsAffirmative(answer.assessment)
            && store.file
               == Some(LoadHistory(old(store.file)) + [Attempt(turn.pair.term, answer.timestamp, turn.correct)])
  {
    var choice :| 0 <= choice < |due|;
    var pair := due[choice];
    var shown := answer.showLine == "";
    var correct := IsAffirmative(answer.assessment);
    store.UpdateHistory(pair.term, correct, answer.timestamp);
    turn := Turn(pair, shown, correct);
  }

  /** Every round picked one of the rows of `due`. */
  ghost predicate PickedFrom(turns: seq<Turn>, due: seq<TermRow>) {
    forall j :: 0 <= j < |turns| ==> turns[j].pair in due
  }

  /** One round of the loop as written keeps its loop invariants. */
  lemma RoundKeeps(start: seq<Attempt>, history: seq<Attempt>, turns: seq<Turn>, turn: Turn,
                   answers: seq<Answer>, due: seq<TermRow>)
    requires |turns| < |answers| && history == start + Attempts(turns, answers)
    requires PickedFrom(turns, due) && FollowsAnswers(turns, answers)
    requires turn.pair in due
    requires turn.definitionShown == (answers[|turns|].showLine == "")
    requires turn.correct == IsAffirmative(answers[|turns|].assessment)
    ensures history + [Attempt(turn.pair.term, answers[|turns|].timestamp, turn.correct)]
         == start + Attempts(turns + [turn], answers)
    ensures PickedFrom(turns + [turn], due) && FollowsAnswers(turns + [turn], answers)
  {
    AttemptsSnoc(start, turns, turn, answers);
    FollowsAnswersSnoc(turns, turn, answers);
    var t := turns + [turn];
    forall j | 0 <= j < |t|
      ensures t[j].pair in due
    {
      if j < |turns| {
        assert t[j] == turns[j];
      }
    }
  }

  /**
   * `main` as written: the history is loaded once before the loop and never
   * reloaded, so every round works from the same due set. Each round picks
   * an arbitrary due pair (`random.choice`), shows its definition iff the
   * show-answer line is empty, and records the outcome in the store.
   */
  method RunGame(terms: seq<TermRow>, store: HistoryStore, answers: seq<Answer>)
    returns (end: SessionEnd, turns: seq<Turn>)
    modifies store
    ensures var due := PrioritizeTerms(terms, LoadHistory(old(store.file)));
      && (end == Mastered <==> due == [])
      && (end == Mastered ==> turns == [] && store.file == old(store.file))
      && (end == InputExhausted ==> |turns| == |answers|)
      && |turns| <= |answers|
      && (forall k :: 0 <= k < |turns| ==>
            && turns[k].pair in due
            && turns[k].definitionShown == (answers[k].showLine == "")
            && turns[k].correct == IsAffirmative(answers[k].assessment))
      && LoadHistory(store.file) == LoadHistory(old(store.file)) + Attempts(turns, answers)
  {
    var history := store.Load();
    ghost var due := PrioritizeTerms(terms, history);
    turns := [];
    var k := 0;
    while true
      invariant && 0 <= k <= |answers| && |turns| == k
                && history == LoadHistory(old(store.file))
                && (k > 0 ==> due != [])
                && (k == 0 ==> store.file == old(store.file))
                && LoadHistory(store.file) == history + Attempts(turns, answers)
                && PickedFrom(turns, due) && FollowsAnswers(turns, answers)
      decreases |answers| - k
    {
      var termsToReview := PrioritizeTerms(terms, history);
      if termsToReview == [] {
        end := Mastered;
        break;
      }
      if k == |answers| {
        end := InputExhausted;
        break;
      }
      ghost var before := LoadHistory(store.file);
      var turn := PlayRound(termsToReview, store, answers[k]);
      RoundKeeps(history, before, turns, turn, answers, due);
      turns := turns + [turn];
      k := k + 1;
    }
  }

  /** One round of the refreshed loop keeps all of its loop invariants. */
  lemma RefreshedRoundKeeps(terms: seq<TermRow>, start: seq<Attempt>, history: seq<Attempt>,
                            turns: seq<Turn>, turn: Turn, answers: seq<Answer>, budget: nat)
    requires |turns| < |answers| && history == start + Attempts(turns, answers)
    requires DueWhenPicked(terms, start, turns, answers) && FollowsAnswers(turns, answers)
    requires |turns| + Deficit(terms, history) <= budget
    requires turn.pair in PrioritizeTerms(terms, history)
    requires turn.definitionShown == (answers[|turns|].showLine == "")
    requires turn.correct == IsAffirmative(answers[|turns|].assessment)
    ensures var next := history + [Attempt(turn.pair.term, answers[|turns|].timestamp, turn.correct)];
      && next == start + Attempts(turns + [turn], answers)
      && |turns| + 1 + Deficit(terms, next) <= budget
    ensures DueWhenPicked(terms, start, turns + [turn], answers)
    ensures FollowsAnswers(turns + [turn], answers)
  {
    var a := Attempt(turn.pair.term, answers[|turns|].timestamp, turn.correct);
    PrioritizeMembers(terms, history, turn.pair);
    DeficitDrops(terms, history, a);
    AttemptsSnoc(start, turns, turn, answers);
    FollowsAnswersSnoc(turns, turn, answers);
    DueWhenPickedSnoc(terms, start, turns, turn, answers);
  }


  /**
   * `main` with the history reloaded at the top of every round. The program
   * means each term to be practised `PRACTICE_TRESHOLD` times and then to
   * end with "You seem to know all the terms" (game.py lines 6 and 108).
   * Here every pick is due in the history as it stands at that round, and
   * the session reaches `Mastered` within `Deficit` answers.
   */
  method RunGameRefreshed(terms: seq<TermRow>, store: HistoryStore, answers: seq<Answer>)
    returns (end: SessionEnd, turns: seq<Turn>)
    modifies store
    ensures |turns| <= |answers|
    ensures |turns| <= Deficit(terms, LoadHistory(old(store.file)))
    ensures LoadHistory(store.file) == LoadHistory(old(store.file)) + Attempts(turns, answers)
    ensures end == Mastered <==> PrioritizeTerms(terms, LoadHistory(store.file)) == []
    ensures end == InputExhausted ==> |turns| == |answers| < Deficit(terms, LoadHistory(old(store.file)))
    ensures |answers| >= Deficit(terms, LoadHistory(old(store.file))) ==> end == Mastered
    ensures forall k :: 0 <= k < |turns| ==>
      && turns[k].pair in PrioritizeTerms(terms, LoadHistory(old(store.file)) + Attempts(turns, answers)[..k])
      && turns[k].definitionShown == (answers[k].showLine == "")
      && turns[k].correct == IsAffirmative(answers[k].assessment)
  {
    ghost var start := LoadHistory(old(store.file));
    ghost var budget := Deficit(terms, start);
    turns := [];
    var k := 0;
    while true
      invariant 0 <= k <= |answers| && |turns| == k
      invariant LoadHistory(store.file) == start + Attempts(turns, answers)
      invariant k + Deficit(terms, LoadHistory(store.file)) <= budget
      invariant DueWhenPicked(terms, start, turns, answers)
      invariant FollowsAnswers(turns, answers)
      decreases |answers| - k
    {
      var history := store.Load();
      assert history == LoadHistory(store.file);
      var termsToReview := PrioritizeTerms(terms, history);
      if termsToReview == [] {
        end := Mastered;
        break;
      }
      if k == |answers| {
        DeficitZeroIffNoneDue(terms, history);
        end := InputExhausted;
        break;
      }
      var turn := PlayRound(termsToReview, store, answers[k]);
      RefreshedRoundKeeps(terms, start, history, turns, turn, answers, budget);
      turns := turns + [turn];
      k := k + 1;
    }
  }
}
