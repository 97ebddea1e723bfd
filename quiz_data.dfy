/** The shapes of the quiz content: the question catalog and the character table. */
module QuizData {

  /** A value that may be absent (JavaScript's `undefined`). */
  datatype Option<+T> = None | Some(value: T)

  /** One selectable answer: its label and the character ids it votes for. */
  datatype AnswerOption = AnswerOption(text: string, characterIds: seq<string>)

  /** A question of the catalog, with its options in display order. */
  datatype Question = Question(id: int, question: string, options: seq<AnswerOption>)

  /** A character that can be the result of the quiz; `image` is optional. */
  datatype Character = Character(
    id: string,
    name: string,
    keywords: seq<string>,
    mbti: seq<string>,
    description: string,
    detail: string,
    image: Option<seq<string>>)
}
