/** The quiz page: the `Home` component's state, how an answer advances it,
    and what the page shows in each state. */
module Quiz {
  import opened QuizData
  import opened Tally
  import opened Ranking

  /** What the page renders: the current question with its step and the
      catalog length, or the result, where `None` is the "no result" message. */
  datatype Screen =
    | QuestionScreen(question: Question, step: nat, total: nat)
    | ResultScreen(character: Option<Character>)

  /** The component state as a value: the step and the collected ids. */
  datatype SessionState = SessionState(step: nat, answers: seq<string>)

  /** The state the page starts in (and returns to on a reload). */
  const Initial := SessionState(0, [])

  /** The state after choosing an option voting for `characterIds`. */
  function AfterAnswer(s: SessionState, characterIds: seq<string>): SessionState
  {
    SessionState(s.step + 1, s.answers + characterIds)
  }

  /** The state after choosing the options voting for `choices`, in order. */
  function Replay(s: SessionState, choices: seq<seq<string>>): SessionState
  {
    if choices == [] then s
    else AfterAnswer(Replay(s, choices[..|choices| - 1]), choices[|choices| - 1])
  }

  /** All the ids of `choices`, concatenated in order. */
  function Flatten(choices: seq<seq<string>>): seq<string>
  {
    if choices == [] then [] else Flatten(choices[..|choices| - 1]) + choices[|choices| - 1]
  }

  /** The character shown for the collected answers. */
  function Outcome(characters: seq<Character>, answers: seq<string>): Option<Character>
  {
    Find(characters, WinnerOf(answers))
  }

  /** What the page shows in state `s`. */
  function View(questions: seq<Question>, characters: seq<Character>, s: SessionState): Screen
  {
    if s.step >= |questions| then ResultScreen(Outcome(characters, s.answers))
    else QuestionScreen(questions[s.step], s.step, |questions|)
  }

  /** Each answer advances the step by one and appends its ids. */
  lemma {:induction false} ReplayAppends(s: SessionState, choices: seq<seq<string>>)
    ensures Replay(s, choices) == SessionState(s.step + |choices|, s.answers + Flatten(choices))
  {
    if choices != [] {
      var init := choices[..|choices| - 1];
      ReplayAppends(s, init);
      assert s.answers + Flatten(init) + choices[|choices| - 1]
        == s.answers + (Flatten(init) + choices[|choices| - 1]);
    }
  }

  /** From the initial state, k answers with k at most the catalog length put
      the page at step k: it shows question k while k is below the length and
      the result for exactly the collected ids once k equals it. */
  lemma {:induction false} Progression(questions: seq<Question>, characters: seq<Character>, choices: seq<seq<string>>)
    requires |choices| <= |questions|
    ensures Replay(Initial, choices) == SessionState(|choices|, Flatten(choices))
    ensures |choices| < |questions| ==>
      View(questions, characters, Replay(Initial, choices))
        == QuestionScreen(questions[|choices|], |choices|, |questions|)
    ensures |choices| == |questions| ==>
      View(questions, characters, Replay(Initial, choices))
        == ResultScreen(Outcome(characters, Flatten(choices)))
  {
    ReplayAppends(Initial, choices);
  }

  /** `ids` is the id list of one of the options of `q`. */
  ghost predicate Offers(q: Question, ids: seq<string>)
  {
    exists o :: o in q.options && o.characterIds == ids
  }

  /** Each choice is the id list of an option of the question it answers. */
  ghost predicate ChosenFromCatalog(questions: seq<Question>, choices: seq<seq<string>>)
  {
    && |choices| <= |questions|
    && forall i :: 0 <= i < |choices| ==> Offers(questions[i], choices[i])
  }

  /** `id` is listed by some option of some question. */
  ghost predicate InCatalog(questions: seq<Question>, id: string)
  {
    exists i, o :: 0 <= i < |questions| && o in questions[i].options && id in o.characterIds
  }

  /** Answers given through the page only hold ids listed in the catalog. */
  lemma {:induction false} AnswersFromCatalog(questions: seq<Question>, choices: seq<seq<string>>)
    requires ChosenFromCatalog(questions, choices)
    ensures forall x :: x in Flatten(choices) ==> InCatalog(questions, x)
  {
    if choices != [] {
      var n := |choices| - 1;
      assert forall i :: 0 <= i < n ==> choices[..n][i] == choices[i];
      AnswersFromCatalog(questions, choices[..n]);
      forall x | x in Flatten(choices) ensures InCatalog(questions, x) {
        if x !in Flatten(choices[..n]) {
          var o :| o in questions[n].options && o.characterIds == choices[n];
          assert x in o.characterIds;
        }
      }
    }
  }

  /** The result shown: nothing without answers; otherwise the first
      character of the table whose id is the most frequent answer (ties to
      the id answered first), or nothing when no character has that id. */
  lemma OutcomeCharacterization(characters: seq<Character>, answers: seq<string>)
    ensures answers == [] ==> Outcome(characters, answers) == None
    ensures Outcome(characters, answers).Some? ==>
      var c := Outcome(characters, answers).value;
      && c in characters
      && c.id in answers
      && (forall x :: x in answers ==> multiset(answers)[x] <= multiset(answers)[c.id])
      && (forall i :: 0 <= i < |answers| && c.id !in answers[..i] && answers[i] != c.id ==>
            multiset(answers)[answers[i]] < multiset(answers)[c.id])
      && (exists i :: 0 <= i < |characters| && characters[i] == c
            && forall j :: 0 <= j < i ==> characters[j].id != c.id)
    ensures answers != [] && Outcome(characters, answers).None? ==>
      forall c :: c in characters ==> Some(c.id) != WinnerOf(answers)
  {
    WinnerIsEarliestMostFrequent(answers);
  }

  /** The character table's order does not decide a tie: with answers
      `[first, second, second, first]` the page shows a character with id
      `first` whenever the table has one, even if a `second` comes earlier. */
  lemma TieIgnoresCharacterOrder(characters: seq<Character>, first: string, second: string)
    requires first != second
    requires exists c :: c in characters && c.id == first
    ensures Outcome(characters, [first, second, second, first]).Some?
    ensures Outcome(characters, [first, second, second, first]).value.id == first
  {
    TieGoesToFirstSeen(first, second);
  }

  /** The `Home` component: the catalog and character table it reads, and the
      step and id list it keeps in state. */
  class Home {
    const questions: seq<Question>
    const characters: seq<Character>
    var step: nat
    var answers: seq<string>

    /** The component state as a value. */
    ghost function State(): SessionState
      reads this
    {
      SessionState(step, answers)
    }

    /** Mounting the page (also what a reload does): step 0, no answers. */
    constructor (questions: seq<Question>, characters: seq<Character>)
      ensures this.questions == questions && this.characters == characters
      ensures step == 0 && answers == []
      ensures State() == Initial
    {
      this.questions := questions;
      this.characters := characters;
      step := 0;
      answers := [];
    }

    /** `handleAnswer`: appends the chosen option's ids and moves one step on. */
    method HandleAnswer(characterIds: seq<string>)
      modifies this
      ensures answers == old(answers) + characterIds
      ensures step == old(step) + 1
      ensures State() == AfterAnswer(old(State()), characterIds)
    {
      answers := answers + characterIds;
      step := step + 1;
    }

    /** The render: the current question while the step is below the catalog
        length, otherwise the result computed from the answers. */
    method Render() returns (screen: Screen)
      ensures screen == View(questions, characters, State())
      ensures step < |questions| ==> screen == QuestionScreen(questions[step], step, |questions|)
      ensures step >= |questions| ==> screen.ResultScreen?
    {
      if step >= |questions| {
        var keys, count := CountAnswers(answers);
        assert count == Counts(answers);
        var topId := TopId(Entries(keys, count));
        var character := Find(characters, topId);
        screen := ResultScreen(character);
      } else {
        screen := QuestionScreen(questions[step], step, |questions|);
      }
    }
  }
}
