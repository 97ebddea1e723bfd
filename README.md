# Attack on Titan personality quiz — the quiz engine

This project models the quiz engine of the `Home` page component in
`src/app/page.tsx`. The page asks the questions of a fixed catalog one at a
time. Each chosen option contributes the ids of the characters it votes for.
After the last question the page counts how often each id was chosen and
sorts the ids by descending count with a stable sort. The first id wins, and
its character is looked up in the character table.

Modules:

- `QuizData` (`quiz_data.dfy`): the `QuestionType` and `CharacterType` shapes
  as datatypes, and `Option` for JavaScript's `undefined`.
- `Tally` (`tally.dfy`): the `forEach` loop that fills the count record. The
  record is modelled as the pair of its key insertion order (`keys`) and its
  contents (`count`), since `Object.entries` lists string keys in insertion
  order.
- `Ranking` (`ranking.dfy`): the record's entries, the stable sort by
  descending count (a stable insertion sort), `topId = sorted[0]?.[0]` and
  `characters.find(c => c.id === topId)`.
- `Quiz` (`quiz.dfy`): the class `Home` with its two state fields `step` and
  `answers`, `handleAnswer`, and the render decision between the current
  question and the result. There are also value-level counterparts
  (`SessionState`, `AfterAnswer`, `Replay`) for stating progression over many
  answers.

The question catalog and the character table are constructor parameters of
`Home`. In the source they are imported JSON files whose contents are not
part of this model.

The page's engine is simple:

- Options carry plain id lists, not weighted score maps. Every occurrence
  of an id is worth exactly one.
- There is no "not started" state. The page starts at step 0.
- There are no error values. An option is not checked against the current
  question, and `handleAnswer` does not check the step.
- A tie is broken by the order in which the ids were first answered, not by
  the order of the character table (`Quiz.TieIgnoresCharacterOrder`). An
  unknown winning id and an empty answer list give the same "no result"
  screen.

## Model

| member | source | states |
|---|---|---|
| `Quiz.Home.constructor` | src/app/page.tsx:101-102 | the page starts at step 0 with no answers |
| `Quiz.Home.HandleAnswer` | src/app/page.tsx:104-107 | the old answers stay as an unchanged prefix and the option's ids follow, in order; the step grows by exactly one; nothing else changes; on the state value this is `Quiz.AfterAnswer` |
| `Quiz.Home.Render` | src/app/page.tsx:109-131 | below the catalog length the page shows `questions[step]` with the step and the total; from the catalog length on, it shows the result computed from the answers; both cases together are `Quiz.View` (the branch at lines 109 and 121-131) |
| `Quiz.ReplayAppends` | src/app/page.tsx:104-107 | `Quiz.Replay` (`handleAnswer` applied once per choice, as values): after any number of answers the step has grown by their number and the answers are the old ones followed by all chosen ids in order |
| `Quiz.Progression` | src/app/page.tsx:101-128 | from the initial state, after k ≤ N answers the step is k; while k < N the page shows question k, and after exactly N answers it shows the result for the collected ids |
| `Quiz.AnswersFromCatalog` | src/app/page.tsx:39-43 | when each answer is an option of the question it answers, every collected id is listed by some option of the catalog |
| `Quiz.OutcomeCharacterization` | src/app/page.tsx:109-118 | for `Quiz.Outcome` (the `find` of line 117 on the winning id, shown by the result screen of line 118): no answers give no character ("no result"); a shown character is the first one in the table with the winning id; that id has maximal count, and every other id answered before its first occurrence has a smaller count; no character is shown only when the table lacks the winning id |
| `Tally.CountAnswers` | src/app/page.tsx:111-114 | the record's keys are exactly the distinct answered ids, each count is the id's number of occurrences, the key order is the order of first occurrence, and the counts sum to the number of answers |
| `Tally.FirstOccurrences` | src/app/page.tsx:112-115 | the key order holds each answered id exactly once and nothing else |
| `Tally.FirstOccurrencesOrder` | src/app/page.tsx:112-115 | an id earlier in the key order was first answered earlier |
| `Ranking.SortDesc` | src/app/page.tsx:115 | the sorted entries are a permutation of the record's entries |
| `Ranking.SortDescSorted` | src/app/page.tsx:115 | the sorted entries are in descending order of count |
| `Ranking.SortDescHead` | src/app/page.tsx:115-116 | the first sorted entry is the earliest entry whose count is maximal, as given by an independent argmax definition |
| `Ranking.TopId` | src/app/page.tsx:115-116 | over `Ranking.Entries` (`Object.entries(count)` in key insertion order), `topId` is undefined exactly when the record has no entries, and otherwise is the id of the earliest entry of maximal count |
| `Ranking.Find` | src/app/page.tsx:117 | the lookup returns the first character whose id equals `topId`, and returns nothing exactly when `topId` is undefined or no character has that id |
| `Ranking.WinnerIsEarliestMostFrequent` | src/app/page.tsx:111-116 | for `Ranking.WinnerOf` (count, sort and `topId` together as one value): there is a winning id exactly when some id was answered; it was answered at least as often as every other id, and every other id answered before the winner's first occurrence was answered strictly less often, so among equally frequent ids the one answered first wins |
| `Ranking.FirstAnswerWinsTies` | src/app/page.tsx:112-116 | the first answered id wins whenever no id is answered more often |
| `Ranking.TieGoesToFirstSeen` | src/app/page.tsx:112-116 | with answers `[a, b, b, a]` the winning id is `a` |
| `Quiz.TieIgnoresCharacterOrder` | src/app/page.tsx:112-117 | with answers `[a, b, b, a]` the shown character has id `a` whenever the table has one, whatever the table's order |

## Left out

- Rendering: the `Question` and `Result` JSX, styling, the image placeholder, and the MBTI and keyword lists. `Screen` only records which question or which character is shown.
- `src/app/layout.tsx`: fonts, metadata and the HTML shell. It holds no logic.
- The "restart" button reloads the browser page. The model covers this only as constructing a fresh `Home`.
- The contents of `questions.json` and `characters.json`. They are parameters here.
- JavaScript's enumeration of integer-like keys, which come before the other keys in numeric order. Ids are assumed not to be integer-like, so insertion order holds.
- Ids that name a property of `Object.prototype`, such as `constructor`. For these, `count[id] || 0` reads the inherited property instead of 0. Ids are assumed to be ordinary keys.
- A character record without an `id` field: `find` would match it against an undefined `topId`. The model types `id` as a string, as `CharacterType` does.
- React's batching of the two state updates. Both use functional updates, so they are modelled as applied in order within one `handleAnswer`.
- Ranking.SortDesc: full stability (equal counts keep their relative order everywhere) is not stated. Only its effect on the first entry is proved (`Ranking.SortDescHead`), because that is the only entry the page reads.
