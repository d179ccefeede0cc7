/**
 * The question source (src/services/ollamaService.ts): it asks an
 * external text-generation backend for a question and, on any failure,
 * answers with a question from a fixed bank chosen by keyword. The backend
 * call, `JSON.parse` and the pseudo-random number are inputs of the model.
 */
module QuestionSource {
  import opened Common
  import opened Text

  /** The fields a question payload carries (the JSON object of the reply). */
  datatype Payload = Payload(
    question: string,
    options: seq<string>,
    correctAnswer: int,
    explanation: Option<string>)

  /** A question with four options and a correct index among them. */
  predicate WellFormed(p: Payload)
  {
    |p.options| == 4 && 0 <= p.correctAnswer <= 3
  }

  /**
   * A parsed JSON value as the callers use it: `null`, on which reading a
   * field throws, or any other value, whose fields are read as a payload.
   */
  datatype Json = JsonNull | JsonObject(payload: Payload)

  /** What the backend client gives back: it threw, or it returned a record whose `response` may be absent. */
  datatype ClientReply = CallFailed | Replied(response: Option<string>)

  /** A value of `random()`: the fractional part `x - Math.floor(x)` of the sine hash. */
  type Draw = r: real | 0.0 <= r < 1.0

  /** The keys of the fallback bank, in declaration order. */
  datatype Category = Science | History | Geography | Math

  const Categories: seq<Category> := [Science, History, Geography, Math]

  function Key(c: Category): string
  {
    match c
    case Science => "science"
    case History => "history"
    case Geography => "geography"
    case Math => "math"
  }

  /** Position of a category in `Categories`. */
  function Rank(c: Category): nat
  {
    match c
    case Science => 0
    case History => 1
    case Geography => 2
    case Math => 3
  }

  function Entry(question: string, a: string, b: string, c: string, d: string,
                 correct: int, explanation: string): Payload
  {
    Payload(question, [a, b, c, d], correct, Some(explanation))
  }

  /** The fixed fallback questions of one category. */
  function Bank(c: Category): (bank: seq<Payload>)
    ensures |bank| == 3
    ensures forall i :: 0 <= i < |bank| ==> WellFormed(bank[i])
  {
    match c
    case Science => [
      Entry("What is the chemical symbol for oxygen?", "O", "Ox", "O2", "Oxy", 0,
            "O is the chemical symbol for oxygen."),
      Entry("Which planet is closest to the Sun?", "Venus", "Mercury", "Earth", "Mars", 1,
            "Mercury is the closest planet to the Sun."),
      Entry("What is the largest organ in the human body?", "Heart", "Brain", "Liver", "Skin", 3,
            "The skin is the largest organ in the human body.")]
    case History => [
      Entry("In what year did World War II end?", "1943", "1944", "1945", "1946", 2,
            "World War II ended in 1945."),
      Entry("Who was the first President of the United States?", "Thomas Jefferson", "John Adams",
            "George Washington", "Benjamin Franklin", 2,
            "George Washington was the first President of the United States."),
      Entry("What year did Columbus discover America?", "1490", "1491", "1492", "1493", 2,
            "Columbus discovered America in 1492.")]
    case Geography => [
      Entry("What is the capital of Japan?", "Tokyo", "Kyoto", "Osaka", "Yokohama", 0,
            "Tokyo is the capital of Japan."),
      Entry("Which is the largest country in South America?", "Argentina", "Brazil", "Peru", "Colombia", 1,
            "Brazil is the largest country in South America."),
      Entry("What is the longest river in the world?", "Amazon", "Nile", "Yangtze", "Mississippi", 1,
            "The Nile is the longest river in the world.")]
    case Math => [
      Entry("What is 15 + 27?", "40", "41", "42", "43", 2, "15 + 27 = 42"),
      Entry("What is the square root of 81?", "7", "8", "9", "10", 2,
            "The square root of 81 is 9."),
      Entry("How many sides does a hexagon have?", "5", "6", "7", "8", 1,
            "A hexagon has 6 sides.")]
  }

  /**
   * The category the keyword search settles on: the first key, in
   * declaration order, that occurs in the lower-cased topic, else science.
   */
  function CategoryFor(topicLower: string): (c: Category)
    ensures Contains(topicLower, Key(c)) ==>
              forall j :: 0 <= j < Rank(c) ==> !Contains(topicLower, Key(Categories[j]))
    ensures !Contains(topicLower, Key(c)) ==>
              c == Science && forall j :: 0 <= j < |Categories| ==> !Contains(topicLower, Key(Categories[j]))
  {
    if Contains(topicLower, "science") then Science
    else if Contains(topicLower, "history") then History
    else if Contains(topicLower, "geography") then Geography
    else if Contains(topicLower, "math") then Math
    else Science
  }

  /** The keyword loop with its early `break`. */
  method SelectCategory(topicLower: string) returns (bestMatch: Category)
    ensures bestMatch == CategoryFor(topicLower)
  {
    bestMatch := Science;
    var i := 0;
    while i < |Categories|
      invariant 0 <= i <= |Categories|
      invariant bestMatch == Science
      invariant forall j :: 0 <= j < i ==> !Contains(topicLower, Key(Categories[j]))
    {
      if Contains(topicLower, Key(Categories[i])) {
        bestMatch := Categories[i];
        break;
      }
      i := i + 1;
    }
    assert Key(Categories[0]) == "science" && Key(Categories[1]) == "history";
    assert Key(Categories[2]) == "geography" && Key(Categories[3]) == "math";
  }

  /** A topic that mentions "science" always falls back to the science bank. */
  lemma ScienceTopicsUseScience(topic: string)
    requires Contains(ToLower(topic), "science")
    ensures CategoryFor(ToLower(topic)) == Science
  {
  }

  /** `Math.floor(random() * n)`: an index into a bank of `n` entries. */
  function PickIndex(draw: Draw, n: nat): (i: nat)
    requires n > 0
    ensures i < n
  {
    var x := draw * n as real;
    assert 0.0 <= x < n as real;
    x.Floor
  }

  /**
   * The fallback question for a topic and a draw. The topic must not be
   * empty: on the empty string `charCodeAt(0)` is NaN, the index becomes
   * NaN and reading the chosen entry throws.
   */
  function FallbackFor(topic: string, draw: Draw): (p: Payload)
    requires topic != []
    ensures WellFormed(p)
    ensures exists i :: 0 <= i < |Bank(CategoryFor(ToLower(topic)))| && p == Bank(CategoryFor(ToLower(topic)))[i]
  {
    var bank := Bank(CategoryFor(ToLower(topic)));
    bank[PickIndex(draw, |bank|)]
  }

  /** `getTopicSpecificFallback`. */
  method TopicSpecificFallback(topic: string, draw: Draw) returns (p: Payload)
    requires topic != []
    ensures p == FallbackFor(topic, draw)
  {
    var topicLower := ToLower(topic);
    var bestMatch := SelectCategory(topicLower);
    var questions := Bank(bestMatch);
    var randomIndex := PickIndex(draw, |questions|);
    p := questions[randomIndex];
  }

  /**
   * The clean-up applied to the backend's text before parsing:
   * `trim()` followed by `replace(/^```json\s*|\s*```$/g, '')`.
   */
  function StripFence(reply: string): (r: string)
    ensures |r| <= |reply|
    ensures r == [] || (!IsSpace(r[0]) && !IsSpace(r[|r| - 1]))
  {
    var t := Trim(reply);
    TrimEndIsPrefix(TrimStart(reply));
    assert t == [] || !IsSpace(t[0]);
    var head := if StartsWith(t, "```json") then TrimStartIsSuffix(t[7..]); TrimStart(t[7..]) else t;
    assert head == [] || (!IsSpace(head[0]) && !IsSpace(head[|head| - 1]));
    if EndsWith(head, "```") then TrimEndIsPrefix(head[..|head| - 3]); TrimEnd(head[..|head| - 3]) else head
  }

  lemma TrimEndAppendSpace(s: string, c: char)
    requires IsSpace(c)
    ensures TrimEnd(s + [c]) == TrimEnd(s)
  {
    assert (s + [c])[..|s + [c]| - 1] == s;
  }

  lemma TrimStartPrependSpace(c: char, s: string)
    requires IsSpace(c)
    ensures TrimStart([c] + s) == TrimStart(s)
  {
    assert ([c] + s)[1..] == s;
  }

  lemma TrimStartAt(s: string)
    requires s != [] && !IsSpace(s[0])
    ensures TrimStart(s) == s
  {
  }

  lemma TrimEndAt(s: string)
    requires s != [] && !IsSpace(s[|s| - 1])
    ensures TrimEnd(s) == s
  {
  }

  /** The fenced text is already trimmed, and its opening marker is the "```json" prefix. */
  lemma FencedShape(body: string, s: string)
    requires s == "```json\n" + body + "\n```"
    ensures Trim(s) == s
    ensures StartsWith(s, "```json")
    ensures s[7..] == ['\n'] + (body + "\n```")
  {
    assert s[0] == '`';
    TrimStartAt(s);
    assert s[|s| - 1] == '`';
    TrimEndAt(s);
    assert s[..7] == "```json";
    assert s[7..] == ['\n'] + (body + "\n```");
  }

  /** How `StripFence` acts on a reply that opens with "```json" and ends with "```". */
  lemma StripBothFences(reply: string, head: string)
    requires StartsWith(Trim(reply), "```json")
    requires head == TrimStart(Trim(reply)[7..])
    requires EndsWith(head, "```")
    ensures StripFence(reply) == TrimEnd(head[..|head| - 3])
  {
  }

  /** A body between a "```json" line and a "```" line comes back exactly. */
  lemma StripFencedBody(body: string)
    requires body == [] || (!IsSpace(body[0]) && !IsSpace(body[|body| - 1]))
    ensures StripFence("```json\n" + body + "\n```") == body
  {
    if body == [] {
      StripFencedEmpty(body);
    } else {
      StripFencedNonEmpty(body);
    }
  }

  lemma StripFencedEmpty(body: string)
    requires body == []
    ensures StripFence("```json\n" + body + "\n```") == body
  {
    var s := "```json\n" + body + "\n```";
    FencedShape(body, s);
    var rest := body + "\n```";
    TrimStartPrependSpace('\n', rest);
    var head := TrimStart(rest);
    assert rest == ['\n'] + "```";
    TrimStartPrependSpace('\n', "```");
    TrimStartAt("```");
    assert head == "```";
    assert EndsWith(head, "```");
    StripBothFences(s, head);
    assert head[..0] == [];
  }

  lemma StripFencedNonEmpty(body: string)
    requires body != [] && !IsSpace(body[0]) && !IsSpace(body[|body| - 1])
    ensures StripFence("```json\n" + body + "\n```") == body
  {
    var s := "```json\n" + body + "\n```";
    FencedShape(body, s);
    var rest := body + "\n```";
    TrimStartPrependSpace('\n', rest);
    var head := TrimStart(rest);
    assert rest[0] == body[0];
    TrimStartAt(rest);
    assert head == rest;
    assert head[|head| - 3..] == "```";
    StripBothFences(s, head);
    assert head[..|head| - 3] == body + ['\n'];
    TrimEndAppendSpace(body, '\n');
    TrimEndAt(body);
  }

  /** A reply without fences is only trimmed. */
  lemma StripUnfenced(reply: string)
    requires !StartsWith(Trim(reply), "```json") && !EndsWith(Trim(reply), "```")
    ensures StripFence(reply) == Trim(reply)
  {
  }

  /** The backend answered with a non-empty `response` that `JSON.parse` accepts. */
  predicate Usable(reply: ClientReply, parse: string -> Option<Json>)
    ensures !Usable(reply, parse) <==>
              reply.CallFailed? || reply.response.None? || reply.response.value == []
              || parse(StripFence(reply.response.value)).None?
  {
    reply.Replied? && reply.response.Some? && reply.response.value != []
    && parse(StripFence(reply.response.value)).Some?
  }

  /**
   * What `generateQuestion` hands back, as a parsed value: the backend's
   * parsed reply when it is usable, otherwise the fallback question.
   */
  function Generated(topic: string, reply: ClientReply, parse: string -> Option<Json>, draw: Draw): (j: Json)
    requires topic != []
    ensures !Usable(reply, parse) ==> j.JsonObject? && WellFormed(j.payload)
    ensures !Usable(reply, parse) ==> j == JsonObject(FallbackFor(topic, draw))
    ensures Usable(reply, parse) ==> Some(j) == parse(StripFence(reply.response.value))
  {
    if Usable(reply, parse) then parse(StripFence(reply.response.value)).value
    else JsonObject(FallbackFor(topic, draw))
  }

  /** `generateQuestion`: any failure of the call, of the reply or of parsing routes to the fallback. */
  method GenerateQuestion(topic: string, reply: ClientReply, parse: string -> Option<Json>, draw: Draw)
    returns (j: Json)
    requires topic != []
    ensures j == Generated(topic, reply, parse, draw)
  {
    if reply.CallFailed? || reply.response.None? || reply.response.value == [] {
      var p := TopicSpecificFallback(topic, draw);
      return JsonObject(p);
    }
    var cleaned := StripFence(reply.response.value);
    var parsed := parse(cleaned);
    if parsed.None? {
      var p := TopicSpecificFallback(topic, draw);
      return JsonObject(p);
    }
    j := parsed.value;
  }
}
