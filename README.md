# Quiz service core, modelled in Dafny

The system is a small quiz server. It asks a local text-generation backend for
multiple-choice questions on a topic and keeps quiz sessions in memory. It
scores the answers submitted to a session and stores generated questions as
JSON files, one file per (topic, subtopic, grade, curriculum) key. This
project models the three services that do that work:

- `quiz_service.dfy` (module `Quiz`) models the session manager. The class
  `QuizService` holds the session registry as a `map`; its methods create a
  session, record an answer and move the position on. The functions read
  sessions and results. A session's life is stated as functions on one
  session (`Answered`, `Advanced`, `CurrentOf`, `Percentage`), with lemmas
  about them.
- `question_source.dfy` (module `QuestionSource`) models question
  generation and its fallback: the keyword choice of a fallback bank, the
  strip of the code fence around the backend's reply, and the rule that any
  failure yields a fallback question. The backend reply, `JSON.parse` and
  the pseudo-random draw are inputs.
- `question_store.dfy` (module `QuestionStore`) holds the pure part of the
  storage service. It covers text normalisation and file keys, reading a
  key back as a topic record, deduplication by question text, and one step
  of the migration from the older naming scheme. `topic_sort.dfy` (module
  `TopicSort`) holds the topic comparator and an in-place sort.
  `storage_service.dfy` (module `Storage`) is the class `StorageService`.
  Its `files` field is a map from file name to file content, and its methods
  walk a directory listing that is given as input.
- `text.dfy`, `types.dfy` and `common.dfy` hold string helpers, the
  `Question` and `QuizSession` records, and `Option`/`Result`.

The code increments the score on every correct submission, so a question
answered correctly twice counts twice; the model does the same.
`ResubmissionRescores` and `ResubmissionInflatesPercentage` state the
consequence: a one-question quiz answered correctly twice reports 200
percent.

Other behaviour kept as written:

- The session route calls `createSession(topic, subtopic, gradeLevel,
  curriculum, questionCount)`, but the method declares only `(topic,
  questionCount)`, so the route's subtopic lands in the count. The model
  keeps the method's declared signature, with its default of 5 questions.
  It models only natural-number counts, so it does not capture what that
  call does (see "## Left out").
- `listTopics` reads the second component of a key as the subtopic, even
  when that component is a grade or a curriculum (`GradeListedAsSubtopic`).
- The migration splits names on a single "_". It therefore re-keys current
  three-component keys, so `math__algebra__5.json` moves to
  `math__algebra_5.json` (`MigrateRekeysGradedKey`). It also re-keys the
  key of every multi-word topic stored without a subtopic, at every start:
  "World History" is stored as `world_history.json`, which moves to
  `world__history.json`, after which `getQuestions("World History")` finds
  no file and returns [] (`MigrateRekeysMultiWordTopic`, stated for two
  lower-case words; `SanitizeCaseInsensitive` covers the capitals).
- A topic whose key component ends in "_" (its text ends in punctuation)
  is split one character early when listed: "C++" with subtopic "b" is
  stored as `c___b.json`, which `listTopics` reports as topic "c" with
  subtopic " b" (`PunctuatedTopicMisread`, stated for any lower-case word
  followed by punctuation; `SanitizeCaseInsensitive` covers "C++").
- A file that cannot be read ends `listTopics` early. The records gathered
  so far are returned unsorted.

## Model

| member | source | states |
|---|---|---|
| Quiz.QuestionId | src/services/quizService.ts:27 | the id of iteration i is "q" followed by the decimal digits of i + 1 |
| Quiz.QuestionIdInjective | src/services/quizService.ts:26-27 | different iterations get different ids |
| Quiz.GenerateSessionQuestion | src/services/quizService.ts:18-45 | one loop iteration pushes the backend's parsed question, or the topic's fallback question when reading the parsed value's fields throws |
| Quiz.BuildSessionQuestions | src/services/quizService.ts:14-47 | the loop yields exactly the questions of iterations 0..n-1, in order |
| Quiz.BuiltQuestions | src/services/quizService.ts:17-47 | n iterations build exactly n questions |
| Quiz.PayloadFor | src/services/quizService.ts:20-45 | an unusable reply gives the fallback of the first draw; a usable reply that parses to null gives the fallback of the second draw (the catch); a usable reply that parses to an object gives that object's fields; both fallbacks are well formed |
| Quiz.BuiltQuestionAt | src/services/quizService.ts:17-47 | question i has id q(i+1); it carries the parsed object's fields when the reply was usable and parsed to an object; a well-formed fallback of the first draw when the reply was unusable; a well-formed fallback of the second draw when it parsed to null |
| Quiz.BuiltQuestionIdsDistinct | src/services/quizService.ts:26-40 | no two questions of a new session share an id |
| Quiz.NewSessionOk | src/services/quizService.ts:49-56 | a new session with questionCount questions is well formed (no answers, as many questions as its total) |
| Quiz.QuizService.constructor | src/services/quizService.ts:6-10 | the registry starts empty and valid |
| Quiz.QuizService.CreateSession | src/services/quizService.ts:12-60 | registers, under the given id, a session at position 0 with no answers, score 0, total questionCount (5 when omitted) and the built questions; every other session is unchanged and the registry stays valid |
| Quiz.QuizService.GetSession | src/services/quizService.ts:62-64 | returns the session exactly when the id is registered |
| Quiz.FirstWithId | src/services/quizService.ts:72 | finds the first question with that id, or none when no question has it |
| Quiz.QuizService.SubmitAnswer | src/services/quizService.ts:66-84 | throws "Session not found" or "Question not found" and changes nothing; otherwise records the answer under the first matching question, scores it when correct, returns whether it was correct, and leaves other sessions alone |
| Quiz.Answered | src/services/quizService.ts:77-81 | answering sets answers[id] and raises the score by one exactly when the answer is correct; position, questions, id and total are unchanged |
| Quiz.ResubmissionRescores | src/services/quizService.ts:77-81 | answering the same question correctly twice adds 2 to the score, although the answers map is the same after one answer or two |
| Quiz.ResubmissionInflatesPercentage | src/services/quizService.ts:79-113 | a one-question session answered correctly twice reports 200 percent |
| Quiz.TransitionsKeepSessionOk | src/services/quizService.ts:77-100 | answering and advancing keep every answered id among the session's questions and keep the question count equal to the total |
| Quiz.CurrentOf | src/services/quizService.ts:88-91 | none exactly when the position is at or past the end; otherwise the question at the position |
| Quiz.QuizService.GetCurrentQuestion | src/services/quizService.ts:86-92 | null for an unknown session or a position past the end, otherwise the question at the position; in a valid registry null for a known session means the position has reached the total |
| Quiz.QuizService.NextQuestion | src/services/quizService.ts:94-102 | throws for an unknown session; otherwise raises that session's position by exactly one, changes nothing else, and returns the question now current |
| Quiz.Advanced | src/services/quizService.ts:100 | the position rises by one; questions, answers, score, id and total are unchanged |
| Quiz.AdvancedTimesMoves | src/services/quizService.ts:100 | k calls move the position by exactly k and change nothing else |
| Quiz.NextQuestionSequence | src/services/quizService.ts:94-102 | from a new session, call k returns question k while one exists, and none from the call that reaches the end onwards |
| Quiz.Percentage | src/services/quizService.ts:113 | the integer nearest to 100 * score / total, halves rounded up; none exactly when total is 0 |
| Quiz.PercentageBounds | src/services/quizService.ts:113 | with score at most total and total positive, the percentage lies in 0..100 |
| Quiz.PercentageExample | src/services/quizService.ts:113 | 3 out of 5 is 60 percent |
| Quiz.ResultsOf | src/services/quizService.ts:110-114 | the results carry the session's score, its total, and the percentage of the two |
| Quiz.QuizService.GetSessionResults | src/services/quizService.ts:104-115 | fails exactly for an unknown session; otherwise returns the session's score, total and percentage, and in a valid registry the total is the number of questions |
| Quiz.FallbackBank | src/services/quizService.ts:122-183 | ten questions, each with four options and a correct index among them |
| Quiz.FallbackQuestion | src/services/quizService.ts:121-195 | returns bank entry index mod 10 under id q(index+1), whatever the topic |
| Quiz.FallbackQuestionCycles | src/services/quizService.ts:186-193 | indices ten apart give the same question text under different ids |
| QuestionSource.Bank | src/services/ollamaService.ts:66-148 | each category holds three questions, each with four options and a correct index among them |
| QuestionSource.CategoryFor | src/services/ollamaService.ts:149-155 | the category chosen is the first key, in declaration order, contained in the lower-cased topic; when no key is contained it is science |
| QuestionSource.SelectCategory | src/services/ollamaService.ts:149-155 | the keyword loop with its break picks the category CategoryFor describes |
| QuestionSource.ScienceTopicsUseScience | src/services/ollamaService.ts:150-155 | a topic that mentions "science" in any case always uses the science bank |
| QuestionSource.PickIndex | src/services/ollamaService.ts:158 | floor(draw * n) is a valid index into a bank of n entries |
| QuestionSource.FallbackFor | src/services/ollamaService.ts:56-165 | the fallback is an entry of the chosen category's bank, and it is well formed |
| QuestionSource.TopicSpecificFallback | src/services/ollamaService.ts:56-165 | the lower-case, keyword-search and pick steps produce the entry FallbackFor describes |
| QuestionSource.StripFence | src/services/ollamaService.ts:36 | the cleaned text is no longer than the reply and has no white space at either end |
| QuestionSource.StripFencedBody | src/services/ollamaService.ts:36 | a body between a "```json" line and a "```" line comes back unchanged when it has no surrounding white space |
| QuestionSource.StripUnfenced | src/services/ollamaService.ts:36 | a reply without either fence is only trimmed |
| QuestionSource.Usable | src/services/ollamaService.ts:24-37 | a reply is unusable exactly when the call throws, the response is missing or empty, or the cleaned text does not parse (the ways into the catch) |
| QuestionSource.Generated | src/services/ollamaService.ts:24-44 | a usable reply yields what parsing its stripped text gives; a failed call, a missing or empty response, or a parse error yields the well-formed topic fallback |
| QuestionSource.GenerateQuestion | src/services/ollamaService.ts:11-45 | the method's error handling routes every failure to the fallback, as Generated says |
| QuestionStore.Collapse | src/services/storageService.ts:31 | the result uses only a-z, 0-9 and single "_" separators, and is empty exactly when its input is |
| QuestionStore.CollapseKeepsAlnums | src/services/storageService.ts:31 | the collapse keeps every letter and digit of its input, in order, and only replaces the runs between them |
| QuestionStore.AlnumsAppend | src/services/storageService.ts:31 | the letters and digits of a concatenation are those of its halves, in order |
| QuestionStore.SkipRunKeepsAlnums | src/services/storageService.ts:31 | dropping a run of other characters drops no letter or digit |
| QuestionStore.TrimStartKeepsAlnums | src/services/storageService.ts:31 | trimming leading white space drops no letter or digit |
| QuestionStore.TrimEndKeepsAlnums | src/services/storageService.ts:31 | trimming trailing white space drops no letter or digit |
| QuestionStore.Sanitize | src/services/storageService.ts:29-32 | the key component is key text, and an empty text gives "" |
| QuestionStore.SanitizeKeepsAlnums | src/services/storageService.ts:29-32 | the key component holds exactly the lower-cased text's letters and digits, in order |
| QuestionStore.SanitizeIdempotent | src/services/storageService.ts:29-32 | sanitising a sanitised text changes nothing |
| QuestionStore.SanitizeCaseInsensitive | src/services/storageService.ts:31 | texts equal up to ASCII case give the same component |
| QuestionStore.SanitizeIgnoresPadding | src/services/storageService.ts:31 | surrounding white space does not change the component |
| QuestionStore.KeyParts | src/services/storageService.ts:34-45 | the topic component comes first, then the non-empty components among subtopic, grade and curriculum, in that order, each key text |
| QuestionStore.FileKey | src/services/storageService.ts:34-47 | the file name always ends in ".json" (that it reads back as its parts is SplitJoin and ListedKey) |
| QuestionStore.SplitJoin | src/services/storageService.ts:155 | splitting a joined key on "__" gives its parts back when no part but the last ends in "_" |
| QuestionStore.ParseTopic | src/services/storageService.ts:154-165 | the record keeps the file's question count, and neither topic nor subtopic contains "_" |
| QuestionStore.ListedKey | src/services/storageService.ts:153-165 | when no component but the last ends in "_", a stored key is listed with its first component as topic and its second, if any, as subtopic, with "_" shown as a space |
| QuestionStore.GradeListedAsSubtopic | src/services/storageService.ts:155-159 | when the topic's component does not end in "_", a key with a grade and no subtopic is listed with the grade as its subtopic |
| QuestionStore.PunctuatedTopicMisread | src/services/storageService.ts:154-159 | a word followed by punctuation as topic ("c++") with subtopic b is stored as "c___b.json", which is listed as topic "c" with subtopic " b" |
| QuestionStore.SanitizePunctuated | src/services/storageService.ts:29-32 | a word followed by punctuation gives the word and one trailing "_" |
| QuestionStore.PunctuatedKey | src/services/storageService.ts:34-46 | the key of such a topic with subtopic b is the word, three "_", b and ".json" |
| QuestionStore.PunctuatedKeyListed | src/services/storageService.ts:154-159 | that key is listed as topic the word and subtopic b after a space |
| QuestionStore.PunctuatedKeySplit | src/services/storageService.ts:155 | splitting the word, three "_" and b on "__" gives the word and "_" followed by b |
| QuestionStore.AppendUnique | src/services/storageService.ts:118-123 | the question is appended at the end exactly when its text is new; the stored prefix is untouched and the text is present afterwards |
| QuestionStore.AppendUniqueIdempotent | src/services/storageService.ts:118-123 | storing the same question twice equals storing it once |
| QuestionStore.AppendUniqueKeepsUnique | src/services/storageService.ts:118-123 | a list without repeated texts stays without them |
| QuestionStore.Merged | src/services/storageService.ts:86-92 | the existing questions stay first and in order; every incoming text is present; every added question is incoming and had a new text; uniqueness of texts is kept |
| QuestionStore.NewByText | src/services/storageService.ts:88-91 | the questions the merge adds are all incoming ones |
| QuestionStore.MergedTexts | src/services/storageService.ts:86-92 | a text is in the merge exactly when it is among the existing or the incoming questions |
| QuestionStore.MergedIsFilter | src/services/storageService.ts:86-92 | the merge is the existing list followed by the incoming questions, in their order, that are the first of their text and whose text is not already stored |
| QuestionStore.MergedIdempotent | src/services/storageService.ts:86-92 | merging the same questions again adds nothing |
| QuestionStore.MergeOfPresent | src/services/storageService.ts:86-92 | merging questions whose texts are all present leaves the list unchanged |
| QuestionStore.MergeUnique | src/services/storageService.ts:86-92 | the nested merge loop computes Merged |
| QuestionStore.Questions | src/services/storageService.ts:126-138 | an absent or unreadable file reads as an empty list; a readable file reads as its stored list |
| QuestionStore.Store | src/services/storageService.ts:105-124 | storing writes only the key's file; every other file is unchanged |
| QuestionStore.StoreThenRead | src/services/storageService.ts:105-139 | reading the key back gives the old list, with the question appended when its text was new; other keys read as before |
| QuestionStore.StoreIdempotent | src/services/storageService.ts:118-123 | storing the same question twice leaves the directory as storing it once |
| QuestionStore.LegacyTarget | src/services/storageService.ts:64-73 | the migration's target name always ends in ".json" |
| QuestionStore.MigrateStep | src/services/storageService.ts:54-97 | a name not ending in ".json", an empty file and a file that is its own target are skipped; an absent or unreadable file, or an unreadable existing target, throws; a throw changes nothing; otherwise only the file and its target name can change, and no other name appears |
| QuestionStore.Migrated | src/services/storageService.ts:52-102 | after the pass every file existed before or is the target of a listed name; a file neither listed nor a target is untouched |
| QuestionStore.MigrateRenames | src/services/storageService.ts:78-80 | a file whose target name is free is renamed: its content moves, the old name goes, and nothing else changes |
| QuestionStore.MigrateMerges | src/services/storageService.ts:81-96 | a file whose target exists is merged into it: the target becomes its own questions followed by the moved questions whose text is new (first of each text, in order), so every moved text is present; the old name goes, and other files are unchanged |
| QuestionStore.MergeStepTarget | src/services/storageService.ts:83-95 | the merged target holds exactly the existing questions followed by the new-text moved questions |
| QuestionStore.MigrateLegacyName | src/services/storageService.ts:64-80 | an old-scheme name "topic_sub.json" moves to "topic__sub.json" |
| QuestionStore.MigrateKeepsPlainKey | src/services/storageService.ts:64-76 | a current two-component key of plain words is its own target, so a readable file under it is skipped and the directory is unchanged |
| QuestionStore.MigrateRekeysGradedKey | src/services/storageService.ts:64-80 | a current key with subtopic and grade is moved to "topic__sub_grade.json", a different name |
| QuestionStore.SanitizeTwoWords | src/services/storageService.ts:29-32 | two words separated by a space give the words joined by one "_" |
| QuestionStore.CollapseTwoWords | src/services/storageService.ts:31 | the single space between two words collapses to one "_" |
| QuestionStore.MigrateRekeysMultiWordTopic | src/services/storageService.ts:34-97 | a two-word topic without subtopic is stored as "a_b.json", which the migration moves to "a__b.json"; when the move or merge succeeds nothing is left under the topic's own key |
| QuestionStore.Scanned | src/services/storageService.ts:145-168 | the scan gathers at most one record per listed ".json" name, and exactly one per name when no read throws |
| QuestionStore.ScannedFailsOnUnreadable | src/services/storageService.ts:150-151 | when some listed ".json" file is absent or unreadable, the scan throws |
| QuestionStore.ScannedRecords | src/services/storageService.ts:145-168 | when every listed ".json" file is readable, the scan yields one record per such file, in listing order |
| Storage.MigratedStopsAtThrow | src/services/storageService.ts:51-102 | once a read throws, the rest of the listing is not migrated |
| Storage.ScannedStopsAtThrow | src/services/storageService.ts:144-182 | once a read throws, no further record is gathered |
| QuestionStore.HasQuestionText | src/services/storageService.ts:119 | true exactly when some stored question has that text |
| Storage.StorageService.constructor | src/services/storageService.ts:14-21 | the service starts on the directory as migrateOldFiles leaves it: that method awaits nothing, so the migration completes before construction returns |
| Storage.StorageService.StoreQuestion | src/services/storageService.ts:105-124 | the directory becomes Store of the key built from topic, subtopic, grade and curriculum |
| Storage.StorageService.GetQuestions | src/services/storageService.ts:126-139 | returns the key's list, or none when the file is absent or unreadable |
| Storage.StorageService.ListTopics | src/services/storageService.ts:141-185 | without a read error, the result is a permutation of the scanned records sorted by the comparator; after a read error it is the records gathered so far, in listing order |
| Storage.StorageService.MigrateOldFiles | src/services/storageService.ts:50-103 | the directory becomes the migration of the listing, stopping at the first read that throws |
| TopicSort.LocaleCompare | src/services/storageService.ts:172 | the sign is 0 when the strings are equivalent, negative when the first strictly precedes, positive otherwise |
| TopicSort.CompareTopics | src/services/storageService.ts:171-179 | the result is -1, 0 or 1; a topic difference decides; within one topic a record without a subtopic comes before one with |
| TopicSort.CompareTopicsAntisymmetric | src/services/storageService.ts:171-179 | swapping the records flips the sign, whenever the string order is a total preorder |
| TopicSort.TopicLeMeaning | src/services/storageService.ts:171-179 | records are ordered by topic; within one topic a record without a subtopic comes first, and the others go in subtopic order |
| TopicSort.TopicLeTransitive | src/services/storageService.ts:171-179 | the comparator is transitive whenever the string order is a total preorder |
| TopicSort.TopicLeTotalPreorder | src/services/storageService.ts:171-179 | the comparator is a total preorder on records, so sorting with it is well defined |
| TopicSort.SortInPlace | src/services/storageService.ts:171 | the array ends sorted and a permutation of what it held |
| TopicSort.SortedTopicsOrder | src/services/storageService.ts:171-179 | in the sorted list topics never go down, and within one topic records without a subtopic come first and the rest go in subtopic order |

## Left out

- `isAvailable` of the backend service is not modelled: it only reports
  whether a network call succeeds.
- `generateSessionId` is not modelled: its `Math.random` id is a parameter
  of `CreateSession`. Two sessions may therefore get the same id, and the
  later one replaces the earlier, as `Map.set` does.
- The fallback's seed (`Date.now()`, the topic's first character code and
  `Math.random`) and its sine hash are not modelled. Each draw is an input
  real in [0, 1).
- The backend client, the prompt, `JSON.stringify` and `JSON.parse` are
  inputs. A parse yields either `null` or an object whose fields are read as
  a question payload. Primitive JSON values, whose fields read as
  `undefined` without throwing, are not told apart, and neither is a
  payload whose fields are missing or of the wrong type.
- Quiz.QuizService.CreateSession: the count is a natural number. The
  source's count is any JavaScript value, compared with `i < questionCount`
  and stored as `totalQuestions`. Fractional counts (2.5 builds 3 questions
  with a total of 2.5), negative counts (no questions, a negative total)
  and non-numeric counts are not modelled. The last includes the subtopic
  string the session route passes in that position, which builds no
  questions and stores the string as the total.
- Quiz.QuizService.CreateSession: requires a non-empty topic. On the empty
  string the source's fallback computes a NaN index and throws. The route
  rejects empty topics before calling.
- Quiz.Percentage: uses exact rational arithmetic instead of floating point,
  so results may differ where `score / total * 100` rounds across .5. A
  total of 0, where the source returns NaN, becomes None.
- Quiz.QuizService.SubmitAnswer: takes an integer answer index. The source
  compares any JSON number with `===`.
- Returned sessions are values. A caller of `getSession` in the source holds
  an alias of the live session object, and later changes show through it.
- File system I/O is not modelled: a map stands for the directory, and write
  errors, directory creation, absolute paths and the UTF-8 encoding are
  left out. Two failures are modelled: an absent file, and a read or parse
  that throws (`Unreadable`).
- The listing is an input sequence. A `readdirSync` that throws is not
  modelled: it would leave `listTopics` empty and the migration a no-op.
- The migration runs to completion inside the constructor, because
  `migrateOldFiles` awaits nothing. Only `ensureStorageDirectory` (creating
  the directory) and the logging of the caught error are left out.
- A stored file whose JSON is not an array (for example `null`) is not
  modelled apart from an unreadable file. In the source `storeQuestion` then
  throws at `questions.some` and writes nothing, and `getQuestions` returns
  that value. The model treats such a file as `Unreadable`, so `Store`
  overwrites it and `GetQuestions` returns an empty list.
- Storage.StorageService.ListTopics: `localeCompare` is an arbitrary total
  preorder on strings, passed as a parameter. The locale's actual order is
  not modelled, and neither is the stability of the engine's sort.
- Lower-casing covers ASCII letters only. Non-ASCII case mappings in
  `toLowerCase` that produce ASCII letters (the Kelvin sign becomes "k")
  are not modelled.
- Console logging is not modelled.
