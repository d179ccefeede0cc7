/** The records the services exchange: one question and one quiz session. */
module Types {
  import opened Common

  /**
   * One multiple-choice question. Nothing in the services validates the
   * shape of a question that comes from the backend, so `options` and
   * `correctAnswer` are unconstrained here.
   */
  datatype Question = Question(
    id: string,
    question: string,
    options: seq<string>,
    correctAnswer: int,
    explanation: Option<string>)

  /** One visitor's quiz attempt; `answers` maps a question id to the submitted index. */
  datatype QuizSession = QuizSession(
    id: string,
    questions: seq<Question>,
    currentQuestionIndex: nat,
    answers: map<string, int>,
    score: nat,
    totalQuestions: nat)
}
