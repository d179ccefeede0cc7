/**
 * The quiz session manager (src/services/quizService.ts): an in-memory
 * registry of sessions, each a small state machine over its question list.
 * The session id (random in the source), the backend's replies, `JSON.parse`
 * and the fallback's random draws are inputs of the model.
 */
module Quiz {
  import opened Common
  import opened Text
  import opened Types
  import opened QuestionSource

  /** The two failures the service throws. */
  datatype QuizError = SessionNotFound | QuestionNotFound

  /** What `getSessionResults` returns; `percentage` is None where the source computes NaN or Infinity. */
  datatype Results = Results(score: nat, total: nat, percentage: Option<int>)

  /**
   * What one iteration of the `createSession` loop consumes from outside:
   * the backend's reply to `generateQuestion`, the draw of the fallback
   * inside `generateQuestion`, and the draw of the fallback in the catch.
   */
  datatype Attempt = Attempt(reply: ClientReply, draw: Draw, retryDraw: Draw)

  // ---------------------------------------------------------------------
  // Building a session

  /** The template literal `q${i + 1}`. */
  function QuestionId(i: nat): (id: string)
    ensures |id| >= 2 && id[0] == 'q' && id[1..] == NatToString(i + 1)
  {
    "q" + NatToString(i + 1)
  }

  /** Question ids of different iterations differ. */
  lemma QuestionIdInjective(i: nat, j: nat)
    requires QuestionId(i) == QuestionId(j)
    ensures i == j
  {
    assert QuestionId(i)[1..] == QuestionId(j)[1..];
    NatToStringInjective(i + 1, j + 1);
  }

  /**
   * The fields one iteration pushes: the backend's parsed question, or the
   * fallback again when reading a field of the parsed value throws (the
   * value was `null`).
   */
  function PayloadFor(topic: string, attempt: Attempt, parse: string -> Option<Json>): (p: Payload)
    requires topic != []
    ensures !Usable(attempt.reply, parse) ==> p == FallbackFor(topic, attempt.draw)
    ensures (Usable(attempt.reply, parse) && parse(StripFence(attempt.reply.response.value)).value.JsonNull?)
              ==> p == FallbackFor(topic, attempt.retryDraw)
    ensures (Usable(attempt.reply, parse) && parse(StripFence(attempt.reply.response.value)).value.JsonObject?)
              ==> p == parse(StripFence(attempt.reply.response.value)).value.payload
    ensures (!Usable(attempt.reply, parse) || parse(StripFence(attempt.reply.response.value)).value.JsonNull?)
              ==> WellFormed(p)
  {
    var data := Generated(topic, attempt.reply, parse, attempt.draw);
    if data.JsonObject? then data.payload else FallbackFor(topic, attempt.retryDraw)
  }

  function MakeQuestion(id: string, p: Payload): Question
  {
    Question(id, p.question, p.options, p.correctAnswer, p.explanation)
  }

  /** The questions of the first `n` iterations, in order. */
  function BuiltQuestions(topic: string, n: nat, attempt: nat -> Attempt,
                          parse: string -> Option<Json>): (qs: seq<Question>)
    requires topic != []
    ensures |qs| == n
    decreases n
  {
    if n == 0 then []
    else BuiltQuestions(topic, n - 1, attempt, parse)
         + [MakeQuestion(QuestionId(n - 1), PayloadFor(topic, attempt(n - 1), parse))]
  }

  /**
   * The questions of a new session are numbered q1..qn in order. Question
   * i carries the parsed object's fields when the backend's reply parses to
   * an object, the well-formed fallback of the first draw when the reply is
   * unusable, and the well-formed fallback of the second draw when it
   * parses to null (reading its fields throws into the catch).
   */
  lemma {:induction false} BuiltQuestionAt(topic: string, n: nat, attempt: nat -> Attempt,
                                           parse: string -> Option<Json>, i: nat)
    requires topic != [] && i < n
    ensures var q := BuiltQuestions(topic, n, attempt, parse)[i];
      q.id == QuestionId(i)
      && (Usable(attempt(i).reply, parse) && parse(StripFence(attempt(i).reply.response.value)).value.JsonObject?
          ==> q == MakeQuestion(QuestionId(i), parse(StripFence(attempt(i).reply.response.value)).value.payload))
      && (!Usable(attempt(i).reply, parse)
          ==> q == MakeQuestion(QuestionId(i), FallbackFor(topic, attempt(i).draw))
              && |q.options| == 4 && 0 <= q.correctAnswer <= 3)
      && (Usable(attempt(i).reply, parse) && parse(StripFence(attempt(i).reply.response.value)).value.JsonNull?
          ==> q == MakeQuestion(QuestionId(i), FallbackFor(topic, attempt(i).retryDraw))
              && |q.options| == 4 && 0 <= q.correctAnswer <= 3)
    decreases n
  {
    if i < n - 1 {
      BuiltQuestionAt(topic, n - 1, attempt, parse, i);
    }
  }

  /** No two questions of a new session share an id. */
  lemma BuiltQuestionIdsDistinct(topic: string, n: nat, attempt: nat -> Attempt,
                                 parse: string -> Option<Json>, i: nat, j: nat)
    requires topic != [] && i < j < n
    ensures BuiltQuestions(topic, n, attempt, parse)[i].id != BuiltQuestions(topic, n, attempt, parse)[j].id
  {
    BuiltQuestionAt(topic, n, attempt, parse, i);
    BuiltQuestionAt(topic, n, attempt, parse, j);
    if QuestionId(i) == QuestionId(j) {
      QuestionIdInjective(i, j);
    }
  }

  /** The session `createSession` registers: position 0, no answers, score 0. */
  function NewSession(id: string, questions: seq<Question>, questionCount: nat): QuizSession
  {
    QuizSession(id, questions, 0, map[], 0, questionCount)
  }

  // ---------------------------------------------------------------------
  // One session's state machine

  /** `questions.find(q => q.id === questionId)`, as the index of the first match. */
  function FirstWithId(qs: seq<Question>, questionId: string): (r: Option<nat>)
    ensures r.Some? ==> r.value < |qs| && qs[r.value].id == questionId
                        && forall k :: 0 <= k < r.value ==> qs[k].id != questionId
    ensures r.None? ==> forall k :: 0 <= k < |qs| ==> qs[k].id != questionId
    decreases |qs|
  {
    if qs == [] then None
    else if qs[0].id == questionId then Some(0)
    else
      var rest := FirstWithId(qs[1..], questionId);
      if rest.Some? then Some(rest.value + 1) else None
  }

  /** The session after a found question has been answered (`answers[id] = i`, `score++` when correct). */
  function Answered(s: QuizSession, k: nat, answerIndex: int): (a: QuizSession)
    requires k < |s.questions|
    ensures a.answers == s.answers[s.questions[k].id := answerIndex]
    ensures a.score == s.score + 1 <==> answerIndex == s.questions[k].correctAnswer
    ensures a.score == s.score <==> answerIndex != s.questions[k].correctAnswer
    ensures a.currentQuestionIndex == s.currentQuestionIndex && a.questions == s.questions
    ensures a.id == s.id && a.totalQuestions == s.totalQuestions
  {
    var q := s.questions[k];
    s.(answers := s.answers[q.id := answerIndex],
       score := if answerIndex == q.correctAnswer then s.score + 1 else s.score)
  }

  /** The question at the current position, or none once the position is past the end. */
  function CurrentOf(s: QuizSession): (r: Option<Question>)
    ensures r.None? <==> s.currentQuestionIndex >= |s.questions|
    ensures r.Some? ==> r.value == s.questions[s.currentQuestionIndex]
  {
    if s.currentQuestionIndex >= |s.questions| then None
    else Some(s.questions[s.currentQuestionIndex])
  }

  /** The session after `nextQuestion` has moved it on. */
  function Advanced(s: QuizSession): (a: QuizSession)
    ensures a.currentQuestionIndex == s.currentQuestionIndex + 1
    ensures a.questions == s.questions && a.answers == s.answers && a.score == s.score
    ensures a.id == s.id && a.totalQuestions == s.totalQuestions
  {
    s.(currentQuestionIndex := s.currentQuestionIndex + 1)
  }

  /** The session after `k` calls of `nextQuestion`. */
  function AdvancedTimes(s: QuizSession, k: nat): QuizSession
    decreases k
  {
    if k == 0 then s else Advanced(AdvancedTimes(s, k - 1))
  }

  /** Advancing only moves the position, by exactly one per call. */
  lemma {:induction false} AdvancedTimesMoves(s: QuizSession, k: nat)
    ensures AdvancedTimes(s, k) == s.(currentQuestionIndex := s.currentQuestionIndex + k)
    decreases k
  {
    if k > 0 {
      AdvancedTimesMoves(s, k - 1);
    }
  }

  /**
   * From a new session, the k-th `nextQuestion` returns question k while
   * there is one; the call that reaches the end and every later call return
   * none.
   */
  lemma NextQuestionSequence(s: QuizSession, k: nat)
    requires s.currentQuestionIndex == 0 && k >= 1
    ensures k < |s.questions| ==> CurrentOf(AdvancedTimes(s, k)) == Some(s.questions[k])
    ensures k >= |s.questions| ==> CurrentOf(AdvancedTimes(s, k)) == None
  {
    AdvancedTimesMoves(s, k);
  }

  /**
   * Submitting the correct answer to the same question again scores it
   * again: the score is not the number of correctly answered questions.
   */
  lemma ResubmissionRescores(s: QuizSession, k: nat)
    requires k < |s.questions|
    ensures var c := s.questions[k].correctAnswer;
      Answered(Answered(s, k, c), k, c).score == s.score + 2
      && Answered(Answered(s, k, c), k, c).answers == Answered(s, k, c).answers
  {
  }

  /** A one-question quiz answered correctly twice reports 200 percent. */
  lemma ResubmissionInflatesPercentage(q: Question)
    ensures var s := NewSession("s", [q], 1);
      var twice := Answered(Answered(s, 0, q.correctAnswer), 0, q.correctAnswer);
      twice.score == 2 && Percentage(twice.score, twice.totalQuestions) == Some(200)
  {
  }

  /** Every answered id belongs to a question of the session, and the session holds as many questions as it says. */
  predicate SessionOk(s: QuizSession)
  {
    |s.questions| == s.totalQuestions
    && forall id :: id in s.answers ==> exists k :: 0 <= k < |s.questions| && s.questions[k].id == id
  }

  /** A new session is well formed exactly when it holds as many questions as it was created for. */
  lemma NewSessionOk(id: string, questions: seq<Question>, questionCount: nat)
    requires |questions| == questionCount
    ensures SessionOk(NewSession(id, questions, questionCount))
  {
  }

  /** Answering and advancing keep a session well formed. */
  lemma TransitionsKeepSessionOk(s: QuizSession, k: nat, answerIndex: int)
    requires SessionOk(s) && k < |s.questions|
    ensures SessionOk(Answered(s, k, answerIndex)) && SessionOk(Advanced(s))
  {
    var a := Answered(s, k, answerIndex);
    forall id | id in a.answers
      ensures exists j :: 0 <= j < |a.questions| && a.questions[j].id == id
    {
      if id != s.questions[k].id {
        assert id in s.answers;
      } else {
        assert a.questions[k].id == id;
      }
    }
  }

  // ---------------------------------------------------------------------
  // Results

  /**
   * `Math.round((score / total) * 100)` on exact rationals: the integer
   * nearest to 100·score/total, halves rounded up. None when total is 0,
   * where the source gets NaN or Infinity.
   */
  function Percentage(score: nat, total: nat): (p: Option<int>)
    ensures total == 0 <==> p.None?
    ensures p.Some? ==> 2 * total * p.value <= 200 * score + total < 2 * total * (p.value + 1)
  {
    if total == 0 then None else Some((200 * score + total) / (2 * total))
  }

  /** `c·a < c·b` with `c > 0` gives `a < b`. */
  lemma MulLeftCancel(c: int, a: int, b: int)
    requires c > 0 && c * a < c * b
    ensures a < b
  {
  }

  /** Within the quiz's own range the percentage lies in [0, 100]. */
  lemma PercentageBounds(score: nat, total: nat)
    requires 0 < total && score <= total
    ensures 0 <= Percentage(score, total).value <= 100
  {
    var p := Percentage(score, total).value;
    assert 2 * total * p <= 200 * score + total <= 201 * total;
    MulLeftCancel(2 * total, p, 101);
  }

  /** Three right out of five is 60 percent. */
  lemma PercentageExample()
    ensures Percentage(3, 5) == Some(60)
  {
  }

  function ResultsOf(s: QuizSession): (r: Results)
    ensures r.score == s.score && r.total == s.totalQuestions
    ensures r.percentage == Percentage(s.score, s.totalQuestions)
  {
    Results(s.score, s.totalQuestions, Percentage(s.score, s.totalQuestions))
  }

  // ---------------------------------------------------------------------
  // The private fixed bank of `getFallbackQuestion`

  function FallbackBank(): (bank: seq<Payload>)
    ensures |bank| == 10
    ensures forall i :: 0 <= i < |bank| ==> WellFormed(bank[i])
  {
    [ Entry("What is the capital of France?", "London", "Berlin", "Paris", "Madrid", 2,
            "Paris is the capital and largest city of France."),
      Entry("Which planet is known as the Red Planet?", "Venus", "Mars", "Jupiter", "Saturn", 1,
            "Mars is called the Red Planet due to its reddish appearance."),
      Entry("What is the largest ocean on Earth?", "Atlantic Ocean", "Indian Ocean", "Arctic Ocean",
            "Pacific Ocean", 3, "The Pacific Ocean is the largest and deepest ocean on Earth."),
      Entry("Who wrote \"Romeo and Juliet\"?", "Charles Dickens", "William Shakespeare", "Jane Austen",
            "Mark Twain", 1, "William Shakespeare wrote the famous tragedy \"Romeo and Juliet\"."),
      Entry("What is the chemical symbol for gold?", "Ag", "Au", "Fe", "Cu", 1,
            "Au is the chemical symbol for gold, from the Latin word \"aurum\"."),
      Entry("What is the largest planet in our solar system?", "Earth", "Mars", "Jupiter", "Saturn", 2,
            "Jupiter is the largest planet in our solar system."),
      Entry("Which element has the chemical symbol 'O'?", "Oxygen", "Osmium", "Oganesson", "Osmium", 0,
            "Oxygen has the chemical symbol O."),
      Entry("What year did World War II end?", "1943", "1944", "1945", "1946", 2,
            "World War II ended in 1945."),
      Entry("What is the square root of 64?", "6", "7", "8", "9", 2,
            "The square root of 64 is 8."),
      Entry("Which country is home to the kangaroo?", "New Zealand", "Australia", "South Africa", "India", 1,
            "Kangaroos are native to Australia.") ]
  }

  /** `getFallbackQuestion(index, topic)`: bank entry `index % 10` under the id `q${index + 1}`; the topic is unused. */
  function FallbackQuestion(index: nat, topic: string): (q: Question)
    ensures q.id == QuestionId(index)
    ensures q == MakeQuestion(QuestionId(index), FallbackBank()[index % 10])
    ensures |q.options| == 4 && 0 <= q.correctAnswer <= 3
  {
    var question := FallbackBank()[index % |FallbackBank()|];
    MakeQuestion(QuestionId(index), question)
  }

  /** The bank repeats every ten indices. */
  lemma FallbackQuestionCycles(index: nat, topic: string)
    ensures FallbackQuestion(index + 10, topic).question == FallbackQuestion(index, topic).question
    ensures FallbackQuestion(index + 10, topic).id != FallbackQuestion(index, topic).id
  {
    assert (index + 10) % 10 == index % 10;
    if QuestionId(index + 10) == QuestionId(index) {
      QuestionIdInjective(index + 10, index);
    }
  }

  /**
   * One iteration of the `createSession` loop: parse what `generateQuestion`
   * returned, and fall back to the topic's bank when reading its fields throws.
   */
  method GenerateSessionQuestion(topic: string, i: nat, a: Attempt, parse: string -> Option<Json>)
    returns (question: Question)
    requires topic != []
    ensures question == MakeQuestion(QuestionId(i), PayloadFor(topic, a, parse))
  {
    var questionData := GenerateQuestion(topic, a.reply, parse, a.draw);
    if questionData.JsonObject? {
      question := MakeQuestion(QuestionId(i), questionData.payload);
    } else {
      var fallbackResponse := TopicSpecificFallback(topic, a.retryDraw);
      question := MakeQuestion(QuestionId(i), fallbackResponse);
    }
  }

  /** The loop of `createSession`: one question per iteration, in order. */
  method BuildSessionQuestions(topic: string, questionCount: nat, attempt: nat -> Attempt,
                               parse: string -> Option<Json>) returns (questions: seq<Question>)
    requires topic != []
    ensures questions == BuiltQuestions(topic, questionCount, attempt, parse)
  {
    questions := [];
    var i := 0;
    while i < questionCount
      invariant 0 <= i <= questionCount
      invariant questions == BuiltQuestions(topic, i, attempt, parse)
    {
      var question := GenerateSessionQuestion(topic, i, attempt(i), parse);
      questions := questions + [question];
      i := i + 1;
    }
  }

  // ---------------------------------------------------------------------
  // The service

  class QuizService {
    /** The session registry (the `sessions` Map). */
    var sessions: map<string, QuizSession>

    /** Every registered session is stored under its own id and is well formed. */
    ghost predicate Valid()
      reads this
    {
      forall id :: id in sessions ==> sessions[id].id == id && SessionOk(sessions[id])
    }

    constructor ()
      ensures Valid() && sessions == map[]
    {
      sessions := map[];
    }

    /**
     * `createSession(topic, questionCount)`: one question per iteration,
     * numbered q1..qn, then the new session is registered under `sessionId`
     * (replacing any session with that id).
     */
    method CreateSession(topic: string, questionCount: nat := 5, sessionId: string,
                         attempt: nat -> Attempt, parse: string -> Option<Json>)
      returns (session: QuizSession)
      requires topic != [] && Valid()
      modifies this
      ensures Valid()
      ensures session == NewSession(sessionId, BuiltQuestions(topic, questionCount, attempt, parse), questionCount)
      ensures sessions == old(sessions)[sessionId := session]
    {
      var questions := BuildSessionQuestions(topic, questionCount, attempt, parse);
      session := NewSession(sessionId, questions, questionCount);
      NewSessionOk(sessionId, questions, questionCount);
      sessions := sessions[sessionId := session];
    }

    /** `getSession`. */
    function GetSession(sessionId: string): (r: Option<QuizSession>)
      reads this
      ensures r.Some? <==> sessionId in sessions
      ensures r.Some? ==> r.value == sessions[sessionId]
    {
      if sessionId in sessions then Some(sessions[sessionId]) else None
    }

    /**
     * `submitAnswer`: record the answer for the first question with that id
     * and score it when it is right, on every submission; the two failures
     * change nothing.
     */
    method SubmitAnswer(sessionId: string, questionId: string, answerIndex: int)
      returns (r: Result<bool, QuizError>)
      requires Valid()
      modifies this
      ensures Valid()
      ensures sessionId !in old(sessions) ==> r == Err(SessionNotFound) && sessions == old(sessions)
      ensures (sessionId in old(sessions) && FirstWithId(old(sessions)[sessionId].questions, questionId).None?)
                ==> (r == Err(QuestionNotFound) && sessions == old(sessions))
      ensures (sessionId in old(sessions) && FirstWithId(old(sessions)[sessionId].questions, questionId).Some?) ==>
                var s := old(sessions)[sessionId];
                var k := FirstWithId(s.questions, questionId).value;
                r == Ok(answerIndex == s.questions[k].correctAnswer)
                && sessions == old(sessions)[sessionId := Answered(s, k, answerIndex)]
    {
      if sessionId !in sessions {
        return Err(SessionNotFound);
      }
      var session := sessions[sessionId];
      var found := FirstWithId(session.questions, questionId);
      if found.None? {
        return Err(QuestionNotFound);
      }
      var question := session.questions[found.value];
      TransitionsKeepSessionOk(session, found.value, answerIndex);
      sessions := sessions[sessionId := Answered(session, found.value, answerIndex)];
      r := Ok(answerIndex == question.correctAnswer);
    }

    /** `getCurrentQuestion`: none for an unknown session or a position past the end. */
    function GetCurrentQuestion(sessionId: string): (r: Option<Question>)
      reads this
      ensures r.None? <==> sessionId !in sessions
                           || sessions[sessionId].currentQuestionIndex >= |sessions[sessionId].questions|
      ensures r.Some? ==> r.value == sessions[sessionId].questions[sessions[sessionId].currentQuestionIndex]
      ensures (Valid() && r.None? && sessionId in sessions)
                ==> sessions[sessionId].currentQuestionIndex >= sessions[sessionId].totalQuestions
    {
      if sessionId !in sessions then None else CurrentOf(sessions[sessionId])
    }

    /** `nextQuestion`: move the position on by one, then read the current question. */
    method NextQuestion(sessionId: string) returns (r: Result<Option<Question>, QuizError>)
      requires Valid()
      modifies this
      ensures Valid()
      ensures sessionId !in old(sessions) ==> r == Err(SessionNotFound) && sessions == old(sessions)
      ensures sessionId in old(sessions) ==>
                sessions == old(sessions)[sessionId := Advanced(old(sessions)[sessionId])]
                && sessions[sessionId].currentQuestionIndex == old(sessions)[sessionId].currentQuestionIndex + 1
                && r == Ok(GetCurrentQuestion(sessionId))
    {
      if sessionId !in sessions {
        return Err(SessionNotFound);
      }
      var session := sessions[sessionId];
      sessions := sessions[sessionId := Advanced(session)];
      r := Ok(GetCurrentQuestion(sessionId));
    }

    /** `getSessionResults`. */
    function GetSessionResults(sessionId: string): (r: Result<Results, QuizError>)
      reads this
      ensures sessionId !in sessions <==> r == Err(SessionNotFound)
      ensures r.Ok? ==> r.value.score == sessions[sessionId].score
                        && r.value.total == sessions[sessionId].totalQuestions
                        && r.value.percentage == Percentage(sessions[sessionId].score, sessions[sessionId].totalQuestions)
      ensures Valid() && r.Ok? ==> r.value.total == |sessions[sessionId].questions|
    {
      if sessionId !in sessions then Err(SessionNotFound) else Ok(ResultsOf(sessions[sessionId]))
    }
  }
}
