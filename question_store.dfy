/**
 * The pure part of the question store (src/services/storageService.ts):
 * how a (topic, subtopic, grade, curriculum) tuple becomes a file name, how
 * a file name is read back as a topic record, and how question lists are
 * deduplicated by their text. The file system itself is a map from file
 * name to what the file holds.
 */
module QuestionStore {
  import opened Common
  import opened Text
  import opened Types

  /** What reading and `JSON.parse`-ing a stored file yields. */
  datatype StoredFile = Parsed(questions: seq<Question>) | Unreadable

  /** The storage directory: file name to content. */
  type Files = map<string, StoredFile>

  /** One entry of `listTopics`. */
  datatype TopicInfo = TopicInfo(topic: string, subtopic: Option<string>, questionCount: nat)

  // ---------------------------------------------------------------------
  // Key normalisation

  predicate IsAlnum(c: char)
  {
    'a' <= c <= 'z' || '0' <= c <= '9'
  }

  predicate NoDoubleUnderscore(s: string)
  {
    forall i :: 0 <= i < |s| - 1 ==> !(s[i] == '_' && s[i + 1] == '_')
  }

  /** The shape of every normalised key component: `[a-z0-9_]*` without "__". */
  predicate IsKeyText(s: string)
  {
    (forall i :: 0 <= i < |s| ==> IsAlnum(s[i]) || s[i] == '_') && NoDoubleUnderscore(s)
  }

  /** Drops the rest of a run of characters outside `[a-z0-9]`. */
  function SkipRun(s: string): (r: string)
    ensures |r| <= |s|
    ensures r == [] || IsAlnum(r[0])
    decreases |s|
  {
    if s != [] && !IsAlnum(s[0]) then SkipRun(s[1..]) else s
  }

  /** `replace(/[^a-z0-9]+/g, '_')`: each maximal run outside `[a-z0-9]` becomes one "_". */
  function Collapse(s: string): (r: string)
    ensures IsKeyText(r)
    ensures s == [] <==> r == []
    ensures s != [] && IsAlnum(s[0]) ==> r[0] == s[0]
    decreases |s|
  {
    if s == [] then []
    else if IsAlnum(s[0]) then [s[0]] + Collapse(s[1..])
    else "_" + Collapse(SkipRun(s[1..]))
  }

  /** `sanitizeText`: lower-case, trim, then collapse. An empty text gives "". */
  function Sanitize(text: string): (r: string)
    ensures IsKeyText(r)
    ensures text == [] ==> r == []
  {
    if text == [] then [] else Collapse(Trim(ToLower(text)))
  }

  /** The empty-text guard changes nothing: the key depends only on the trimmed lower-cased text. */
  lemma SanitizeIsCollapsedTrim(text: string)
    ensures Sanitize(text) == Collapse(Trim(ToLower(text)))
  {
  }

  lemma {:induction false} CollapseFixesKeys(s: string)
    requires IsKeyText(s)
    ensures Collapse(s) == s
    decreases |s|
  {
    if s != [] {
      assert IsKeyText(s[1..]);
      CollapseFixesKeys(s[1..]);
      if !IsAlnum(s[0]) {
        assert s[1..] == [] || IsAlnum(s[1..][0]);
        assert SkipRun(s[1..]) == s[1..];
      }
    }
  }

  lemma KeyTextIsLowerAndTrimmed(s: string)
    requires IsKeyText(s)
    ensures ToLower(s) == s && Trim(s) == s
  {
    if s != [] {
      assert !IsSpace(s[0]) && TrimStart(s) == s;
      assert !IsSpace(s[|s| - 1]) && TrimEnd(s) == s;
    }
  }

  /** Normalising a normalised key changes nothing. */
  lemma SanitizeIdempotent(text: string)
    ensures Sanitize(Sanitize(text)) == Sanitize(text)
  {
    var k := Sanitize(text);
    KeyTextIsLowerAndTrimmed(k);
    CollapseFixesKeys(k);
  }

  /** The characters of `s` in `[a-z0-9]`, in order. */
  function Alnums(s: string): (r: string)
    ensures |r| <= |s|
    decreases |s|
  {
    if s == [] then [] else (if IsAlnum(s[0]) then [s[0]] else []) + Alnums(s[1..])
  }

  lemma {:induction false} AlnumsAppend(a: string, b: string)
    ensures Alnums(a + b) == Alnums(a) + Alnums(b)
    decreases |a|
  {
    if a == [] {
      assert a + b == b;
    } else {
      var head := if IsAlnum(a[0]) then [a[0]] else [];
      assert (a + b)[0] == a[0] && (a + b)[1..] == a[1..] + b;
      AlnumsAppend(a[1..], b);
      calc {
        Alnums(a + b);
        head + Alnums(a[1..] + b);
        head + (Alnums(a[1..]) + Alnums(b));
        (head + Alnums(a[1..])) + Alnums(b);
      }
    }
  }

  lemma {:induction false} SkipRunKeepsAlnums(s: string)
    ensures Alnums(SkipRun(s)) == Alnums(s)
    decreases |s|
  {
    if s != [] && !IsAlnum(s[0]) {
      SkipRunKeepsAlnums(s[1..]);
    }
  }

  /** The collapse keeps every letter and digit, in order, and only replaces the runs between them. */
  lemma {:induction false} CollapseKeepsAlnums(s: string)
    ensures Alnums(Collapse(s)) == Alnums(s)
    decreases |s|
  {
    if s != [] {
      if IsAlnum(s[0]) {
        var r := [s[0]] + Collapse(s[1..]);
        assert r[0] == s[0] && r[1..] == Collapse(s[1..]);
        CollapseKeepsAlnums(s[1..]);
      } else {
        var rest := SkipRun(s[1..]);
        var r := "_" + Collapse(rest);
        assert !IsAlnum(r[0]) && r[1..] == Collapse(rest);
        CollapseKeepsAlnums(rest);
        SkipRunKeepsAlnums(s[1..]);
      }
    }
  }

  lemma {:induction false} TrimStartKeepsAlnums(s: string)
    ensures Alnums(TrimStart(s)) == Alnums(s)
    decreases |s|
  {
    if s != [] && IsSpace(s[0]) {
      TrimStartKeepsAlnums(s[1..]);
    }
  }

  lemma {:induction false} TrimEndKeepsAlnums(s: string)
    ensures Alnums(TrimEnd(s)) == Alnums(s)
    decreases |s|
  {
    if s != [] && IsSpace(s[|s| - 1]) {
      var init := s[..|s| - 1];
      TrimEndKeepsAlnums(init);
      assert s == init + [s[|s| - 1]];
      AlnumsAppend(init, [s[|s| - 1]]);
      assert Alnums([s[|s| - 1]]) == [];
    }
  }

  /** The key keeps exactly the lower-cased text's letters and digits, in order. */
  lemma SanitizeKeepsAlnums(text: string)
    ensures Alnums(Sanitize(text)) == Alnums(ToLower(text))
  {
    var lower := ToLower(text);
    SanitizeIsCollapsedTrim(text);
    CollapseKeepsAlnums(Trim(lower));
    TrimEndKeepsAlnums(TrimStart(lower));
    TrimStartKeepsAlnums(lower);
  }

  /** Texts that agree up to ASCII case give the same key. */
  lemma SanitizeCaseInsensitive(a: string, b: string)
    requires ToLower(a) == ToLower(b)
    ensures Sanitize(a) == Sanitize(b)
  {
    SanitizeIsCollapsedTrim(a);
    SanitizeIsCollapsedTrim(b);
  }

  lemma {:induction false} TrimStartSkipsSpace(pre: string, s: string)
    requires AllSpace(pre)
    ensures TrimStart(pre + s) == TrimStart(s)
    decreases |pre|
  {
    if pre != [] {
      assert (pre + s)[0] == pre[0] && IsSpace(pre[0]);
      assert (pre + s)[1..] == pre[1..] + s;
      assert AllSpace(pre[1..]);
      TrimStartSkipsSpace(pre[1..], s);
    } else {
      assert pre + s == s;
    }
  }

  lemma {:induction false} TrimEndSkipsSpace(s: string, post: string)
    requires AllSpace(post)
    ensures TrimEnd(s + post) == TrimEnd(s)
    decreases |post|
  {
    if post != [] {
      var shorter := post[..|post| - 1];
      assert (s + post)[|s + post| - 1] == post[|post| - 1] && IsSpace(post[|post| - 1]);
      assert (s + post)[..|s + post| - 1] == s + shorter;
      assert AllSpace(shorter);
      TrimEndSkipsSpace(s, shorter);
    } else {
      assert s + post == s;
    }
  }

  lemma {:induction false} TrimStartAllSpace(s: string)
    requires AllSpace(s)
    ensures TrimStart(s) == []
    decreases |s|
  {
    if s != [] {
      TrimStartAllSpace(s[1..]);
    }
  }

  lemma {:induction false} TrimStartKeepsTail(s: string, post: string)
    requires !AllSpace(s)
    ensures TrimStart(s + post) == TrimStart(s) + post
    decreases |s|
  {
    if IsSpace(s[0]) {
      assert (s + post)[1..] == s[1..] + post;
      TrimStartKeepsTail(s[1..], post);
    }
  }

  /** Surrounding white space does not change the trimmed text. */
  lemma TrimIgnoresPadding(pre: string, s: string, post: string)
    requires AllSpace(pre) && AllSpace(post)
    ensures Trim(pre + s + post) == Trim(s)
  {
    assert pre + s + post == pre + (s + post);
    TrimStartSkipsSpace(pre, s + post);
    if AllSpace(s) {
      assert AllSpace(s + post);
      TrimStartAllSpace(s + post);
      TrimStartAllSpace(s);
    } else {
      TrimStartKeepsTail(s, post);
      TrimEndSkipsSpace(TrimStart(s), post);
    }
  }

  /** Texts that differ only by surrounding white space give the same key. */
  lemma SanitizeIgnoresPadding(pre: string, s: string, post: string)
    requires AllSpace(pre) && AllSpace(post)
    ensures Sanitize(pre + s + post) == Sanitize(s)
  {
    assert ToLower(pre + s + post) == ToLower(pre) + ToLower(s) + ToLower(post);
    TrimIgnoresPadding(ToLower(pre), ToLower(s), ToLower(post));
    SanitizeIsCollapsedTrim(pre + s + post);
    SanitizeIsCollapsedTrim(s);
  }

  // ---------------------------------------------------------------------
  // File names

  /** `x ? sanitizeText(x) : ''` for an optional component. */
  function Component(text: Option<string>): string
  {
    if text.Some? then Sanitize(text.value) else []
  }

  /** `if (c) parts.push(c)`: a component is added only when it is not empty. */
  function Push(parts: seq<string>, c: string): (r: seq<string>)
    ensures |r| == |parts| + (if c == [] then 0 else 1)
    ensures r[..|parts|] == parts
    ensures forall i :: 0 <= i < |parts| ==> r[i] == parts[i]
    ensures c != [] ==> r[|parts|] == c
    ensures (forall i :: 0 <= i < |parts| ==> IsKeyText(parts[i])) && IsKeyText(c) ==>
              forall i :: 0 <= i < |r| ==> IsKeyText(r[i])
    ensures (forall i :: 1 <= i < |parts| ==> parts[i] != []) && |parts| >= 1 ==>
              forall i :: 1 <= i < |r| ==> r[i] != []
  {
    if c == [] then parts else parts + [c]
  }

  /** How many of the three optional components are present after sanitising. */
  function PresentCount(subtopic: Option<string>, gradeLevel: Option<string>, curriculum: Option<string>): nat
  {
    (if Component(subtopic) == [] then 0 else 1) + (if Component(gradeLevel) == [] then 0 else 1)
      + (if Component(curriculum) == [] then 0 else 1)
  }

  /**
   * The components that go into a file name: the topic first, then each
   * non-empty sanitised component in the order subtopic, grade, curriculum.
   */
  function KeyParts(topic: string, subtopic: Option<string>, gradeLevel: Option<string>,
                    curriculum: Option<string>): (parts: seq<string>)
    ensures |parts| == 1 + PresentCount(subtopic, gradeLevel, curriculum)
    ensures parts[0] == Sanitize(topic)
    ensures forall i :: 0 <= i < |parts| ==> IsKeyText(parts[i])
    ensures forall i :: 1 <= i < |parts| ==> parts[i] != []
    ensures Component(subtopic) != [] ==> parts[1] == Component(subtopic)
    ensures Component(gradeLevel) != [] ==>
              parts[if Component(subtopic) == [] then 1 else 2] == Component(gradeLevel)
    ensures Component(curriculum) != [] ==> parts[|parts| - 1] == Component(curriculum)
  {
    var withTopic := [Sanitize(topic)];
    var withSubtopic := Push(withTopic, Component(subtopic));
    var withGrade := Push(withSubtopic, Component(gradeLevel));
    var parts := Push(withGrade, Component(curriculum));
    parts
  }

  /** `getFilePath`, relative to the storage directory. */
  function FileKey(topic: string, subtopic: Option<string>, gradeLevel: Option<string>,
                   curriculum: Option<string>): (name: string)
    ensures EndsWith(name, ".json")
  {
    Join(KeyParts(topic, subtopic, gradeLevel, curriculum), "__") + ".json"
  }

  /** `file.slice(0, -5)`: the name without ".json". */
  function Stem(name: string): string
    requires EndsWith(name, ".json")
  {
    name[..|name| - 5]
  }

  lemma StemOfKey(stem: string)
    ensures EndsWith(stem + ".json", ".json") && Stem(stem + ".json") == stem
  {
    assert (stem + ".json")[|stem|..] == ".json";
  }

  lemma {:induction false} SplitWithoutSeparator(p: string)
    requires NoDoubleUnderscore(p)
    ensures Split(p, "__") == [p]
    decreases |p|
  {
    if |p| >= 2 {
      assert p[..2] != "__" by { assert !(p[0] == '_' && p[1] == '_'); }
      SplitWithoutSeparator(p[1..]);
      assert [p[0]] + p[1..] == p;
    }
  }

  lemma {:induction false} SplitAtFirstSeparator(p: string, rest: string)
    requires NoDoubleUnderscore(p) && !EndsWith(p, "_")
    ensures Split(p + "__" + rest, "__") == [p] + Split(rest, "__")
    decreases |p|
  {
    var s := p + "__" + rest;
    if p == [] {
      assert s[..2] == "__" && s[2..] == rest;
    } else {
      assert s[1..] == p[1..] + "__" + rest;
      assert s[..2] != "__" by {
        assert s[0] == p[0];
        if |p| == 1 {
          assert p[|p| - 1..] == [p[0]] && p[0] != '_';
        } else {
          assert s[1] == p[1] && !(p[0] == '_' && p[1] == '_');
        }
        assert s[..2][0] == s[0] && s[..2][1] == s[1];
      }
      assert !EndsWith(p[1..], "_") by {
        if p[1..] != [] {
          assert p[1..][|p[1..]| - 1..] == p[|p| - 1..];
        }
      }
      SplitAtFirstSeparator(p[1..], rest);
      assert [p[0]] + p[1..] == p;
    }
  }

  /** Splitting a joined key on "__" gives back its parts, when no part but the last ends in "_". */
  lemma {:induction false} SplitJoin(parts: seq<string>)
    requires |parts| >= 1
    requires forall i :: 0 <= i < |parts| ==> NoDoubleUnderscore(parts[i])
    requires forall i :: 0 <= i < |parts| - 1 ==> !EndsWith(parts[i], "_")
    ensures Split(Join(parts, "__"), "__") == parts
    decreases |parts|
  {
    if |parts| == 1 {
      SplitWithoutSeparator(parts[0]);
    } else {
      SplitJoin(parts[1..]);
      SplitAtFirstSeparator(parts[0], Join(parts[1..], "__"));
      assert [parts[0]] + parts[1..] == parts;
    }
  }

  /** How `listTopics` reads a file name back: topic and subtopic, with "_" shown as a space. */
  function ParseTopic(name: string, questionCount: nat): (info: TopicInfo)
    requires EndsWith(name, ".json")
    ensures info.questionCount == questionCount
    ensures '_' !in info.topic
    ensures info.subtopic.Some? ==> '_' !in info.subtopic.value
  {
    var parts := Split(Stem(name), "__");
    TopicInfo(ReplaceChar(parts[0], '_', ' '),
              if |parts| > 1 then Some(ReplaceChar(parts[1], '_', ' ')) else None,
              questionCount)
  }

  /** No component but the last one present ends in "_" (its text does not end in punctuation). */
  predicate CleanEnds(parts: seq<string>)
  {
    forall i :: 0 <= i < |parts| - 1 ==> !EndsWith(parts[i], "_")
  }

  /**
   * A stored key is listed with its first component as topic and its second
   * as subtopic, whatever the second is: for a key without a subtopic that
   * is the grade or the curriculum.
   */
  lemma ListedKey(topic: string, subtopic: Option<string>, gradeLevel: Option<string>,
                  curriculum: Option<string>, questionCount: nat)
    requires CleanEnds(KeyParts(topic, subtopic, gradeLevel, curriculum))
    ensures var parts := KeyParts(topic, subtopic, gradeLevel, curriculum);
      ParseTopic(FileKey(topic, subtopic, gradeLevel, curriculum), questionCount)
        == TopicInfo(ReplaceChar(parts[0], '_', ' '),
                     if |parts| > 1 then Some(ReplaceChar(parts[1], '_', ' ')) else None,
                     questionCount)
  {
    var parts := KeyParts(topic, subtopic, gradeLevel, curriculum);
    StemOfKey(Join(parts, "__"));
    SplitJoin(parts);
  }

  /** A key with a grade and no subtopic lists the grade as its subtopic. */
  lemma GradeListedAsSubtopic(topic: string, gradeLevel: string, questionCount: nat)
    requires Sanitize(gradeLevel) != [] && !EndsWith(Sanitize(topic), "_")
    ensures ParseTopic(FileKey(topic, None, Some(gradeLevel), None), questionCount).subtopic
              == Some(ReplaceChar(Sanitize(gradeLevel), '_', ' '))
  {
    var parts := KeyParts(topic, None, Some(gradeLevel), None);
    assert parts == [Sanitize(topic), Sanitize(gradeLevel)];
    ListedKey(topic, None, Some(gradeLevel), None, questionCount);
  }

  /** Characters that are neither key characters, upper-case letters nor white space, such as "++" or "#". */
  predicate Punctuation(p: string)
  {
    p != [] && forall i :: 0 <= i < |p| ==> !IsAlnum(p[i]) && !IsSpace(p[i]) && !('A' <= p[i] <= 'Z')
  }

  /**
   * A topic whose key ends in "_" is split one character early: a word
   * followed by punctuation ("c++") with subtopic b is stored as
   * "c___b.json", which lists as topic "c" and subtopic " b".
   */
  lemma PunctuatedTopicMisread(a: string, punct: string, b: string, questionCount: nat)
    requires Word(a) && Punctuation(punct) && Word(b)
    ensures FileKey(a + punct, Some(b), None, None) == a + "___" + b + ".json"
    ensures ParseTopic(a + "___" + b + ".json", questionCount) == TopicInfo(a, Some(" " + b), questionCount)
  {
    PunctuatedKey(a, punct, b);
    PunctuatedKeyListed(a, b, questionCount);
  }

  lemma {:induction false} SkipRunOfPunctuation(p: string)
    requires forall i :: 0 <= i < |p| ==> !IsAlnum(p[i])
    ensures SkipRun(p) == []
    decreases |p|
  {
    if p != [] {
      SkipRunOfPunctuation(p[1..]);
    }
  }

  /** A word followed by punctuation sanitises to the word and one "_". */
  lemma SanitizePunctuated(a: string, punct: string)
    requires Word(a) && Punctuation(punct)
    ensures Sanitize(a + punct) == a + "_"
  {
    var s := a + punct;
    forall i | 0 <= i < |s| ensures !('A' <= s[i] <= 'Z') {
      if i >= |a| {
        assert s[i] == punct[i - |a|];
      }
    }
    ToLowerNoUpper(s);
    assert !IsSpace(s[0]) && s[|s| - 1] == punct[|punct| - 1] && !IsSpace(s[|s| - 1]);
    assert TrimStart(s) == s && TrimEnd(s) == s;
    CollapseWord(a, punct);
    SkipRunOfPunctuation(punct[1..]);
    assert Collapse(punct) == "_";
  }

  lemma PunctuatedKeyParts(a: string, punct: string, b: string)
    requires Word(a) && Punctuation(punct) && Word(b)
    ensures KeyParts(a + punct, Some(b), None, None) == [a + "_", b]
  {
    SanitizePunctuated(a, punct);
    WordFacts(b);
    KeyPartsTwo(a + punct, b);
  }

  lemma PunctuatedKey(a: string, punct: string, b: string)
    requires Word(a) && Punctuation(punct) && Word(b)
    ensures FileKey(a + punct, Some(b), None, None) == a + "___" + b + ".json"
  {
    PunctuatedKeyParts(a, punct, b);
    KeyOfUnderscoredParts(a + punct, b, a, b);
  }

  /** A key whose first component ends in "_" shows three "_" in a row. */
  lemma KeyOfUnderscoredParts(topic: string, sub: string, x: string, y: string)
    requires KeyParts(topic, Some(sub), None, None) == [x + "_", y]
    ensures FileKey(topic, Some(sub), None, None) == x + "___" + y + ".json"
  {
    UnderscoredJoin(x, y);
  }

  lemma UnderscoredJoin(x: string, y: string)
    ensures Join([x + "_", y], "__") == x + "___" + y
  {
    JoinTwo(x + "_", y, "__");
    assert x + "_" + "__" == x + "___";
  }


  lemma PunctuatedKeyListed(a: string, b: string, questionCount: nat)
    requires Word(a) && Word(b)
    ensures ParseTopic(a + "___" + b + ".json", questionCount) == TopicInfo(a, Some(" " + b), questionCount)
  {
    WordFacts(a);
    StemOfKey(a + "___" + b);
    PunctuatedKeySplit(a, b);
    ReplaceAbsentChar(a, '_', ' ');
    UnderscoreWordShown(b);
  }

  /** Splitting the stem on "__" cuts after the topic word and leaves the extra "_" on the subtopic. */
  lemma PunctuatedKeySplit(a: string, b: string)
    requires Word(a) && Word(b)
    ensures Split(a + "___" + b, "__") == [a, "_" + b]
  {
    WordFacts(a);
    UnderscoredWordTail(b);
    ThreeUnderscores(a, b);
    SplitAtFirstSeparator(a, "_" + b);
    SplitWithoutSeparator("_" + b);
  }

  lemma ThreeUnderscores(a: string, b: string)
    ensures a + "___" + b == a + "__" + ("_" + b)
  {
  }

  lemma UnderscoredWordTail(b: string)
    requires Word(b)
    ensures NoDoubleUnderscore("_" + b)
  {
    var tail := "_" + b;
    forall i | 0 <= i < |tail| - 1 ensures !(tail[i] == '_' && tail[i + 1] == '_') {
      assert tail[i + 1] == b[i];
    }
  }

  lemma UnderscoreWordShown(b: string)
    requires Word(b)
    ensures ReplaceChar("_" + b, '_', ' ') == " " + b
  {
    WordFacts(b);
    var r := ReplaceChar("_" + b, '_', ' ');
    forall i | 0 <= i < |r| ensures r[i] == (" " + b)[i] {
      if i > 0 {
        assert ("_" + b)[i] == b[i - 1];
      }
    }
  }

  // ---------------------------------------------------------------------
  // Deduplication by question text

  predicate HasText(qs: seq<Question>, text: string)
  {
    exists i :: 0 <= i < |qs| && qs[i].question == text
  }

  predicate UniqueTexts(qs: seq<Question>)
  {
    forall i, j :: 0 <= i < j < |qs| ==> qs[i].question != qs[j].question
  }

  /**
   * The list after the `some(...)` check and `push` of `storeQuestion`: the
   * question is appended at the end exactly when its text is new, and
   * nothing else moves.
   */
  function AppendUnique(qs: seq<Question>, q: Question): (r: seq<Question>)
    ensures |qs| <= |r| <= |qs| + 1 && r[..|qs|] == qs && HasText(r, q.question)
    ensures |r| == |qs| + 1 <==> !HasText(qs, q.question)
    ensures |r| == |qs| + 1 ==> r[|qs|] == q
  {
    if HasText(qs, q.question) then qs
    else
      assert (qs + [q])[|qs|].question == q.question;
      qs + [q]
  }

  /** Storing the same question twice is storing it once. */
  lemma AppendUniqueIdempotent(qs: seq<Question>, q: Question)
    ensures AppendUnique(AppendUnique(qs, q), q) == AppendUnique(qs, q)
  {
  }

  /** A list without repeated texts stays so. */
  lemma AppendUniqueKeepsUnique(qs: seq<Question>, q: Question)
    ensures UniqueTexts(qs) ==> UniqueTexts(AppendUnique(qs, q))
  {
    if UniqueTexts(qs) && !HasText(qs, q.question) {
      var r := qs + [q];
      forall i, j | 0 <= i < j < |r| ensures r[i].question != r[j].question {
        if j == |qs| {
          assert r[i] == qs[i];
        }
      }
    }
  }

  /**
   * The merge of the migration: `existing` followed by each incoming question
   * whose text is not yet present, in incoming order.
   */
  function Merged(existing: seq<Question>, incoming: seq<Question>): (m: seq<Question>)
    ensures |existing| <= |m| <= |existing| + |incoming|
    ensures m[..|existing|] == existing
    ensures forall k :: 0 <= k < |incoming| ==> HasText(m, incoming[k].question)
    ensures forall k :: |existing| <= k < |m| ==> m[k] in incoming && !HasText(existing, m[k].question)
    ensures UniqueTexts(existing) ==> UniqueTexts(m)
    decreases |incoming|
  {
    if incoming == [] then existing
    else
      var last := incoming[|incoming| - 1];
      var before := Merged(existing, incoming[..|incoming| - 1]);
      AppendUniqueKeepsUnique(before, last);
      var m := AppendUnique(before, last);
      assert forall k :: 0 <= k < |incoming| - 1 ==> incoming[k] == incoming[..|incoming| - 1][k];
      assert forall k :: 0 <= k < |before| ==> m[k] == before[k];
      m
  }

  /**
   * The incoming questions a merge adds, as a filter: an incoming question
   * is kept when its text is neither among the existing questions nor
   * carried by an earlier incoming question.
   */
  function NewByText(existing: seq<Question>, incoming: seq<Question>): (added: seq<Question>)
    ensures forall k :: 0 <= k < |added| ==> added[k] in incoming
    decreases |incoming|
  {
    if incoming == [] then []
    else
      var init := incoming[..|incoming| - 1];
      var last := incoming[|incoming| - 1];
      var before := NewByText(existing, init);
      assert forall k :: 0 <= k < |before| ==> before[k] in incoming by {
        assert forall q :: q in init ==> q in incoming;
      }
      before + (if HasText(existing, last.question) || HasText(init, last.question) then [] else [last])
  }

  /** A text is in the merge exactly when it is among the existing or the incoming questions. */
  lemma MergedTexts(existing: seq<Question>, incoming: seq<Question>, text: string)
    ensures HasText(Merged(existing, incoming), text) <==> HasText(existing, text) || HasText(incoming, text)
  {
    var m := Merged(existing, incoming);
    if HasText(m, text) {
      var i :| 0 <= i < |m| && m[i].question == text;
      if i < |existing| {
        assert existing[i] == m[i];
      } else {
        var j :| 0 <= j < |incoming| && incoming[j] == m[i];
      }
    }
    if HasText(existing, text) {
      var i :| 0 <= i < |existing| && existing[i].question == text;
      assert m[i] == existing[i];
    }
    if HasText(incoming, text) {
      var j :| 0 <= j < |incoming| && incoming[j].question == text;
      assert HasText(m, incoming[j].question);
    }
  }

  /**
   * The merge is the existing questions followed by the new-text incoming
   * ones, in incoming order, the first of each text only.
   */
  lemma {:induction false} MergedIsFilter(existing: seq<Question>, incoming: seq<Question>)
    ensures Merged(existing, incoming) == existing + NewByText(existing, incoming)
    decreases |incoming|
  {
    if incoming != [] {
      var init := incoming[..|incoming| - 1];
      var last := incoming[|incoming| - 1];
      MergedIsFilter(existing, init);
      MergedTexts(existing, init, last.question);
      var before := NewByText(existing, init);
      assert (existing + before) + [last] == existing + (before + [last]);
    }
  }

  /** Merging the same questions again adds nothing. */
  lemma {:induction false} MergedIdempotent(existing: seq<Question>, incoming: seq<Question>)
    ensures Merged(Merged(existing, incoming), incoming) == Merged(existing, incoming)
  {
    var m := Merged(existing, incoming);
    MergeOfPresent(m, incoming);
  }

  /** Merging questions whose texts are all present already leaves the list as it is. */
  lemma {:induction false} MergeOfPresent(m: seq<Question>, incoming: seq<Question>)
    requires forall k :: 0 <= k < |incoming| ==> HasText(m, incoming[k].question)
    ensures Merged(m, incoming) == m
    decreases |incoming|
  {
    if incoming != [] {
      var init := incoming[..|incoming| - 1];
      assert forall k :: 0 <= k < |init| ==> init[k] == incoming[k];
      MergeOfPresent(m, init);
    }
  }

  /** The merge loop of the migration (`mergedQuestions.push` when no `some` match). */
  /** `questions.some(q => q.question === text)`. */
  method HasQuestionText(questions: seq<Question>, text: string) returns (found: bool)
    ensures found <==> HasText(questions, text)
  {
    found := false;
    var j := 0;
    while j < |questions|
      invariant 0 <= j <= |questions|
      invariant found <==> exists k :: 0 <= k < j && questions[k].question == text
    {
      if questions[j].question == text {
        found := true;
      }
      j := j + 1;
    }
  }

  method MergeUnique(existing: seq<Question>, incoming: seq<Question>) returns (merged: seq<Question>)
    ensures merged == Merged(existing, incoming)
  {
    merged := existing;
    var i := 0;
    while i < |incoming|
      invariant 0 <= i <= |incoming|
      invariant merged == Merged(existing, incoming[..i])
    {
      var question := incoming[i];
      var isDuplicate := HasQuestionText(merged, question.question);
      if !isDuplicate {
        merged := merged + [question];
      }
      assert incoming[..i + 1][..i] == incoming[..i];
      i := i + 1;
    }
    assert incoming[..|incoming|] == incoming;
  }

  // ---------------------------------------------------------------------
  // Reading and writing stored lists

  /** The questions a key holds; absent and unreadable files hold none. */
  function Questions(files: Files, key: string): (qs: seq<Question>)
    ensures key !in files || files[key].Unreadable? ==> qs == []
    ensures key in files && files[key].Parsed? ==> qs == files[key].questions
  {
    if key in files && files[key].Parsed? then files[key].questions else []
  }

  /** The directory after `storeQuestion` of `q` under `key`. */
  function Store(files: Files, key: string, q: Question): (after: Files)
    ensures after.Keys == files.Keys + {key}
    ensures forall k :: k in files && k != key ==> after[k] == files[k]
  {
    files[key := Parsed(AppendUnique(Questions(files, key), q))]
  }

  /** Reading back after a store: the old list, with the question appended when its text is new. */
  lemma StoreThenRead(files: Files, key: string, q: Question, other: string)
    ensures Questions(Store(files, key, q), key) == AppendUnique(Questions(files, key), q)
    ensures other != key ==> Questions(Store(files, key, q), other) == Questions(files, other)
  {
  }

  /** Storing a question twice leaves the directory as storing it once. */
  lemma StoreIdempotent(files: Files, key: string, q: Question)
    ensures Store(Store(files, key, q), key, q) == Store(files, key, q)
  {
    AppendUniqueIdempotent(Questions(files, key), q);
  }

  // ---------------------------------------------------------------------
  // Migration of the older naming scheme

  /**
   * The new name `migrateOldFiles` computes for a file: its stem split on
   * single "_", the first piece as topic and the others, joined by spaces,
   * as subtopic.
   */
  function LegacyTarget(name: string): (target: string)
    requires EndsWith(name, ".json")
    ensures EndsWith(target, ".json")
  {
    var parts := Split(Stem(name), "_");
    var topic := ReplaceChar(parts[0], '_', ' ');
    var subtopic := if |parts| > 1 then Some(ReplaceChar(Join(parts[1..], " "), '_', ' ')) else None;
    FileKey(topic, subtopic, None, None)
  }

  /**
   * One iteration of the migration loop over a listed name. The flag is
   * false when a read or parse throws, which ends the whole migration.
   */
  function MigrateStep(files: Files, name: string): (r: (Files, bool))
    ensures !r.1 ==> r.0 == files
    ensures !EndsWith(name, ".json") ==> r == (files, true)
    ensures EndsWith(name, ".json") ==> r.0.Keys <= files.Keys + {LegacyTarget(name)}
    ensures EndsWith(name, ".json") ==>
              forall k :: k in files && k != name && k != LegacyTarget(name) ==> k in r.0 && r.0[k] == files[k]
    ensures (EndsWith(name, ".json") && (name !in files || files[name].Unreadable?)) ==> !r.1
    ensures (EndsWith(name, ".json") && name in files && files[name].Parsed?
             && (files[name].questions == [] || LegacyTarget(name) == name)) ==> r == (files, true)
    ensures (EndsWith(name, ".json") && name in files && files[name].Parsed? && files[name].questions != []
             && LegacyTarget(name) != name && LegacyTarget(name) in files && files[LegacyTarget(name)].Unreadable?)
              ==> !r.1
  {
    if !EndsWith(name, ".json") then (files, true)
    else if name !in files || files[name].Unreadable? then (files, false)
    else if files[name].questions == [] then (files, true)
    else
      var target := LegacyTarget(name);
      if target == name then (files, true)
      else if target !in files then (files[target := files[name]] - {name}, true)
      else if files[target].Unreadable? then (files, false)
      else (files[target := Parsed(Merged(files[target].questions, files[name].questions))] - {name}, true)
  }

  /** A file moved to a free name keeps its questions; the old name goes and nothing else changes. */
  lemma MigrateRenames(files: Files, name: string)
    requires EndsWith(name, ".json") && name in files && files[name].Parsed?
    requires files[name].questions != [] && LegacyTarget(name) != name && LegacyTarget(name) !in files
    ensures var (after, ok) := MigrateStep(files, name);
      ok && after.Keys == files.Keys - {name} + {LegacyTarget(name)}
      && after[LegacyTarget(name)] == files[name]
      && forall k :: k in files && k != name ==> after[k] == files[k]
  {
  }

  /**
   * A file moved onto an existing name is merged into it: the existing
   * questions stay first and in order, every moved text is present, and
   * the old name goes.
   */
  lemma MigrateMerges(files: Files, name: string)
    requires EndsWith(name, ".json") && name in files && files[name].Parsed?
    requires files[name].questions != [] && LegacyTarget(name) != name
    requires LegacyTarget(name) in files && files[LegacyTarget(name)].Parsed?
    ensures var (after, ok) := MigrateStep(files, name);
      var target := LegacyTarget(name);
      var existing := files[target].questions;
      ok && after.Keys == files.Keys - {name}
      && after[target].Parsed? && after[target].questions[..|existing|] == existing
      && (forall q :: q in files[name].questions ==> HasText(after[target].questions, q.question))
      && after[target] == Parsed(existing + NewByText(existing, files[name].questions))
      && forall k :: k in files && k != name && k != target ==> after[k] == files[k]
  {
    MergeStepTarget(files, name);
    var moved := files[name].questions;
    forall q | q in moved ensures HasText(Merged(files[LegacyTarget(name)].questions, moved), q.question) {
      var k :| 0 <= k < |moved| && moved[k] == q;
    }
  }

  lemma MergeStepTarget(files: Files, name: string)
    requires EndsWith(name, ".json") && name in files && files[name].Parsed?
    requires files[name].questions != [] && LegacyTarget(name) != name
    requires LegacyTarget(name) in files && files[LegacyTarget(name)].Parsed?
    ensures var existing := files[LegacyTarget(name)].questions;
      MigrateStep(files, name).0[LegacyTarget(name)] == Parsed(existing + NewByText(existing, files[name].questions))
  {
    var target := LegacyTarget(name);
    var existing := files[target].questions;
    var moved := files[name].questions;
    MergeStepWrites(files, name);
    MergedIsFilter(existing, moved);
  }

  /** The merge branch of the step writes the merged list to the target. */
  lemma MergeStepWrites(files: Files, name: string)
    requires EndsWith(name, ".json") && name in files && files[name].Parsed?
    requires files[name].questions != [] && LegacyTarget(name) != name
    requires LegacyTarget(name) in files && files[LegacyTarget(name)].Parsed?
    ensures MigrateStep(files, name).0[LegacyTarget(name)]
              == Parsed(Merged(files[LegacyTarget(name)].questions, files[name].questions))
  {
  }


  /** A text that is already a key component is its own key. */
  lemma SanitizeFixesKeys(k: string)
    requires IsKeyText(k)
    ensures Sanitize(k) == k
  {
    KeyTextIsLowerAndTrimmed(k);
    CollapseFixesKeys(k);
  }

  lemma {:induction false} SplitWithoutChar(p: string, c: char)
    requires c !in p
    ensures Split(p, [c]) == [p]
    decreases |p|
  {
    if p != [] {
      assert p[..1] != [c] by { assert p[..1][0] == p[0]; }
      SplitWithoutChar(p[1..], c);
      assert [p[0]] + p[1..] == p;
    }
  }

  lemma {:induction false} SplitAtChar(p: string, c: char, rest: string)
    requires c !in p
    ensures Split(p + [c] + rest, [c]) == [p] + Split(rest, [c])
    decreases |p|
  {
    var s := p + [c] + rest;
    if p == [] {
      assert s[..1] == [c] && s[1..] == rest;
    } else {
      assert s[..1] != [c] by { assert s[..1][0] == p[0]; }
      assert s[1..] == p[1..] + [c] + rest;
      SplitAtChar(p[1..], c, rest);
      assert [p[0]] + p[1..] == p;
    }
  }

  lemma ReplaceAbsentChar(s: string, from: char, to: char)
    requires from !in s
    ensures ReplaceChar(s, from, to) == s
  {
  }

  /** A non-empty run of `[a-z0-9]`: a component that holds no separator. */
  predicate Word(w: string)
  {
    w != [] && forall i :: 0 <= i < |w| ==> IsAlnum(w[i])
  }

  lemma WordFacts(w: string)
    requires Word(w)
    ensures IsKeyText(w) && '_' !in w && Sanitize(w) == w && !EndsWith(w, "_")
  {
    assert w[|w| - 1..] == [w[|w| - 1]];
    SanitizeFixesKeys(w);
  }

  lemma {:induction false} CollapseWord(w: string, rest: string)
    requires forall i :: 0 <= i < |w| ==> IsAlnum(w[i])
    ensures Collapse(w + rest) == w + Collapse(rest)
    decreases |w|
  {
    if w != [] {
      var s := w + rest;
      assert s[0] == w[0] && IsAlnum(s[0]);
      assert s[1..] == w[1..] + rest;
      assert Collapse(s) == [w[0]] + Collapse(w[1..] + rest);
      CollapseWord(w[1..], rest);
      assert [w[0]] + (w[1..] + Collapse(rest)) == w + Collapse(rest);
    } else {
      assert w + rest == rest;
    }
  }

  /** A run of spaces between two words collapses to one "_". */
  lemma CollapseSpacedWords(a: string, b: string)
    requires Word(a) && Word(b)
    ensures Collapse(a + "  " + b) == a + "_" + b
  {
    CollapseWord(a, "  " + b);
    assert a + "  " + b == a + ("  " + b);
    CollapseSpacedTail(b);
  }

  /** Two spaces before a word collapse to one "_". */
  lemma CollapseSpacedTail(b: string)
    requires Word(b)
    ensures Collapse("  " + b) == "_" + b
  {
    var t := "  " + b;
    assert t[1..] == [' '] + b && ([' '] + b)[1..] == b;
    assert SkipRun(b) == b;
    assert SkipRun(t[1..]) == b;
    CollapseWord(b, []);
    assert b + [] == b;
  }


  lemma ToLowerNoUpper(s: string)
    requires forall i :: 0 <= i < |s| ==> !('A' <= s[i] <= 'Z')
    ensures ToLower(s) == s
  {
  }

  /** A word after a space sanitises to the word. */
  lemma SanitizeSpacedWord(w: string)
    requires Word(w)
    ensures Sanitize(" " + w) == w
  {
    var s := " " + w;
    ToLowerNoUpper(s);
    WordFacts(w);
    KeyTextIsLowerAndTrimmed(w);
    assert AllSpace(" ") && AllSpace("");
    TrimIgnoresPadding(" ", w, "");
    assert " " + w + "" == s;
  }

  /** Two words separated by two spaces, after a space, sanitise to the words joined by "_". */
  lemma SanitizeSpacedPair(a: string, b: string)
    requires Word(a) && Word(b)
    ensures Sanitize(" " + (a + "  " + b)) == a + "_" + b
  {
    var body := a + "  " + b;
    var s := " " + body;
    ToLowerNoUpper(s);
    assert AllSpace(" ") && AllSpace("");
    TrimIgnoresPadding(" ", body, "");
    assert " " + body + "" == s;
    assert body[0] == a[0] && !IsSpace(body[0]);
    assert body[|body| - 1] == b[|b| - 1] && !IsSpace(body[|body| - 1]);
    assert TrimStart(body) == body && TrimEnd(body) == body;
    CollapseSpacedWords(a, b);
  }

  lemma JoinTwo(a: string, b: string, sep: string)
    ensures Join([a, b], sep) == a + sep + b
  {
    assert [a, b][1..] == [b];
  }

  lemma JoinThree(a: string, b: string, c: string, sep: string)
    ensures Join([a, b, c], sep) == a + sep + (b + sep + c)
  {
    assert [a, b, c][1..] == [b, c];
    JoinTwo(b, c, sep);
  }

  /** Two words joined by one "_" form a key component. */
  lemma JoinedWordsKeyText(a: string, b: string)
    requires Word(a) && Word(b)
    ensures IsKeyText(a + "_" + b) && a + "_" + b != []
  {
    var joined := a + "_" + b;
    forall i | 0 <= i < |joined| - 1 ensures !(joined[i] == '_' && joined[i + 1] == '_') {
      if i < |a| {
        assert joined[i] == a[i];
      } else {
        assert joined[i + 1] == b[i - |a|];
      }
    }
  }

  /** Splitting on "_" at a "__" that follows a piece without "_". */
  lemma SplitAtDouble(p: string, rest: string)
    requires '_' !in p
    ensures Split(p + "__" + rest, "_") == [p, ""] + Split(rest, "_")
  {
    assert p + "__" + rest == p + "_" + ("" + "_" + rest);
    SplitAtChar(p, '_', "" + "_" + rest);
    SplitAtChar("", '_', rest);
  }

  lemma KeyPartsTwo(topic: string, sub: string)
    requires Sanitize(sub) != []
    ensures KeyParts(topic, Some(sub), None, None) == [Sanitize(topic), Sanitize(sub)]
  {
    var parts := KeyParts(topic, Some(sub), None, None);
    assert |parts| == 2 && parts[0] == Sanitize(topic) && parts[1] == Sanitize(sub);
  }

  lemma KeyPartsThree(topic: string, sub: string, grade: string)
    requires Sanitize(sub) != [] && Sanitize(grade) != []
    ensures KeyParts(topic, Some(sub), Some(grade), None) == [Sanitize(topic), Sanitize(sub), Sanitize(grade)]
  {
    assert Component(Some(sub)) == Sanitize(sub) && Component(Some(grade)) == Sanitize(grade);
    assert PresentCount(Some(sub), Some(grade), None) == 2;
    var parts := KeyParts(topic, Some(sub), Some(grade), None);
    assert |parts| == 3;
    assert parts[0] == Sanitize(topic) && parts[1] == Sanitize(sub) && parts[2] == Sanitize(grade);
  }

  lemma WordKeyParts2(topic: string, sub: string)
    requires Word(topic) && Word(sub)
    ensures KeyParts(topic, Some(sub), None, None) == [topic, sub]
  {
    WordFacts(topic);
    WordFacts(sub);
    KeyPartsTwo(topic, sub);
  }

  lemma WordKeyParts3(topic: string, sub: string, grade: string)
    requires Word(topic) && Word(sub) && Word(grade)
    ensures KeyParts(topic, Some(sub), Some(grade), None) == [topic, sub, grade]
  {
    WordFacts(topic);
    WordFacts(sub);
    WordFacts(grade);
    KeyPartsThree(topic, sub, grade);
  }

  /** The key of a topic and a subtopic that are words. */
  lemma WordKey2(topic: string, sub: string)
    requires Word(topic) && Word(sub)
    ensures FileKey(topic, Some(sub), None, None) == topic + "__" + sub + ".json"
  {
    WordKeyParts2(topic, sub);
    JoinTwo(topic, sub, "__");
  }

  /** The key of a topic, a subtopic and a grade that are words. */
  lemma WordKey3(topic: string, sub: string, grade: string)
    requires Word(topic) && Word(sub) && Word(grade)
    ensures FileKey(topic, Some(sub), Some(grade), None) == topic + "__" + (sub + "__" + grade) + ".json"
  {
    WordKeyParts3(topic, sub, grade);
    JoinThree(topic, sub, grade, "__");
  }

  /** Two words joined by one "_" are their own key. */
  lemma JoinedWordsSanitize(a: string, b: string)
    requires Word(a) && Word(b)
    ensures Sanitize(a + "_" + b) == a + "_" + b != []
  {
    JoinedWordsKeyText(a, b);
    SanitizeFixesKeys(a + "_" + b);
  }

  lemma WordNoUnderscore(w: string)
    requires Word(w)
    ensures '_' !in w && w != []
  {
    assert forall i :: 0 <= i < |w| ==> w[i] != '_';
  }

  lemma WordSanitize(w: string)
    requires Word(w)
    ensures Sanitize(w) == w != []
  {
    WordFacts(w);
  }

  /** A key of two components is the two joined by "__", then ".json". */
  lemma FileKeyOfTwo(topic: string, sub: string, first: string, second: string)
    requires KeyParts(topic, Some(sub), None, None) == [first, second]
    ensures FileKey(topic, Some(sub), None, None) == first + "__" + second + ".json"
  {
    JoinTwo(first, second, "__");
  }

  lemma JoinedKeyParts(topic: string, sub: string, grade: string)
    requires Word(topic) && Word(sub) && Word(grade)
    ensures KeyParts(topic, Some(sub + "_" + grade), None, None) == [topic, sub + "_" + grade]
  {
    JoinedWordsSanitize(sub, grade);
    WordSanitize(topic);
    KeyPartsTwo(topic, sub + "_" + grade);
  }

  /** The key of a topic and a subtopic made of two words joined by "_". */
  lemma WordKeyJoined(topic: string, sub: string, grade: string)
    requires Word(topic) && Word(sub) && Word(grade)
    ensures FileKey(topic, Some(sub + "_" + grade), None, None) == topic + "__" + (sub + "_" + grade) + ".json"
  {
    JoinedKeyParts(topic, sub, grade);
    FileKeyOfTwo(topic, sub + "_" + grade, topic, sub + "_" + grade);
  }

  /** Subtopics that sanitise alike give the same key. */
  lemma FileKeySanitized(topic: string, x: string, y: string)
    requires Sanitize(x) == Sanitize(y)
    ensures FileKey(topic, Some(x), None, None) == FileKey(topic, Some(y), None, None)
  {
  }

  /** `LegacyTarget` in terms of the pieces of the stem split on "_". */
  lemma LegacyTargetOf(name: string, parts: seq<string>)
    requires EndsWith(name, ".json") && Split(Stem(name), "_") == parts
    requires |parts| > 1 && '_' !in parts[0] && '_' !in Join(parts[1..], " ")
    ensures LegacyTarget(name) == FileKey(parts[0], Some(Join(parts[1..], " ")), None, None)
  {
    ReplaceAbsentChar(parts[0], '_', ' ');
    ReplaceAbsentChar(Join(parts[1..], " "), '_', ' ');
  }

  lemma LegacyParts2(topic: string, sub: string)
    requires Word(topic) && Word(sub)
    ensures EndsWith(topic + "_" + sub + ".json", ".json")
    ensures Split(Stem(topic + "_" + sub + ".json"), "_") == [topic, sub]
  {
    WordNoUnderscore(topic);
    WordNoUnderscore(sub);
    StemOfKey(topic + "_" + sub);
    SplitAtChar(topic, '_', sub);
    SplitWithoutChar(sub, '_');
  }

  lemma CurrentParts2(topic: string, sub: string)
    requires Word(topic) && Word(sub)
    ensures EndsWith(topic + "__" + sub + ".json", ".json")
    ensures Split(Stem(topic + "__" + sub + ".json"), "_") == [topic, "", sub]
  {
    WordNoUnderscore(topic);
    WordNoUnderscore(sub);
    StemOfKey(topic + "__" + sub);
    SplitAtDouble(topic, sub);
    SplitWithoutChar(sub, '_');
  }

  lemma CurrentParts3(topic: string, sub: string, grade: string)
    requires Word(topic) && Word(sub) && Word(grade)
    ensures EndsWith(topic + "__" + (sub + "__" + grade) + ".json", ".json")
    ensures Split(Stem(topic + "__" + (sub + "__" + grade) + ".json"), "_") == [topic, "", sub, "", grade]
  {
    WordNoUnderscore(topic);
    WordNoUnderscore(sub);
    WordNoUnderscore(grade);
    StemOfKey(topic + "__" + (sub + "__" + grade));
    SplitAtDouble(topic, sub + "__" + grade);
    SplitAtDouble(sub, grade);
    SplitWithoutChar(grade, '_');
  }

  /** The old-scheme name "topic_sub.json" moves to the current key "topic__sub.json". */
  lemma MigrateLegacyName(topic: string, sub: string)
    requires Word(topic) && Word(sub)
    ensures EndsWith(topic + "_" + sub + ".json", ".json")
    ensures LegacyTarget(topic + "_" + sub + ".json") == topic + "__" + sub + ".json"
  {
    LegacyParts2(topic, sub);
    WordNoUnderscore(topic);
    WordNoUnderscore(sub);
    var parts := [topic, sub];
    assert parts[1..] == [sub] && Join(parts[1..], " ") == sub;
    LegacyTargetOf(topic + "_" + sub + ".json", parts);
    WordKey2(topic, sub);
  }

  /** The stem of a two-component key, split on "_", gives this subtopic to the migration. */
  lemma PlainLegacyTarget(topic: string, sub: string)
    requires Word(topic) && Word(sub)
    ensures EndsWith(topic + "__" + sub + ".json", ".json")
    ensures LegacyTarget(topic + "__" + sub + ".json") == FileKey(topic, Some(" " + sub), None, None)
  {
    CurrentParts2(topic, sub);
    WordNoUnderscore(topic);
    WordNoUnderscore(sub);
    var parts := [topic, "", sub];
    var subtopic := " " + sub;
    assert parts[1..] == ["", sub];
    JoinTwo("", sub, " ");
    assert Join(parts[1..], " ") == subtopic;
    assert '_' !in subtopic;
    LegacyTargetOf(topic + "__" + sub + ".json", parts);
  }

  /** A current two-component key whose components hold no "_" is left where it is. */
  lemma MigrateKeepsPlainKey(files: Files, topic: string, sub: string)
    requires Word(topic) && Word(sub)
    ensures LegacyTarget(FileKey(topic, Some(sub), None, None)) == FileKey(topic, Some(sub), None, None)
    ensures var name := FileKey(topic, Some(sub), None, None);
      name in files && files[name].Parsed? ==> MigrateStep(files, name) == (files, true)
  {
    WordKey2(topic, sub);
    PlainLegacyTarget(topic, sub);
    SanitizeSpacedWord(sub);
    WordSanitize(sub);
    FileKeySanitized(topic, " " + sub, sub);
  }

  lemma JoinGradedPieces(sub: string, grade: string)
    ensures Join(["", sub, "", grade], " ") == " " + (sub + "  " + grade)
  {
    assert ["", sub, "", grade][1..] == [sub, "", grade];
    JoinThree(sub, "", grade, " ");
    assert "" + " " + (sub + " " + ("" + " " + grade)) == " " + (sub + "  " + grade);
  }

  /** The stem of a three-component key, split on "_", gives this subtopic to the migration. */
  lemma GradedLegacyTarget(topic: string, sub: string, grade: string)
    requires Word(topic) && Word(sub) && Word(grade)
    ensures EndsWith(topic + "__" + (sub + "__" + grade) + ".json", ".json")
    ensures LegacyTarget(topic + "__" + (sub + "__" + grade) + ".json")
              == FileKey(topic, Some(" " + (sub + "  " + grade)), None, None)
  {
    CurrentParts3(topic, sub, grade);
    WordNoUnderscore(topic);
    WordNoUnderscore(sub);
    WordNoUnderscore(grade);
    var parts := [topic, "", sub, "", grade];
    var subtopic := " " + (sub + "  " + grade);
    assert parts[1..] == ["", sub, "", grade];
    JoinGradedPieces(sub, grade);
    assert '_' !in subtopic;
    LegacyTargetOf(topic + "__" + (sub + "__" + grade) + ".json", parts);
  }

  /**
   * A current key with a subtopic and a grade is renamed: the migration
   * splits it on single "_" and folds the grade into the subtopic, so the
   * questions stored for (topic, sub, grade) move to a two-component key
   * and are no longer found under their own key.
   */
  lemma MigrateRekeysGradedKey(topic: string, sub: string, grade: string)
    requires Word(topic) && Word(sub) && Word(grade)
    ensures FileKey(topic, Some(sub), Some(grade), None) == topic + "__" + (sub + "__" + grade) + ".json"
    ensures LegacyTarget(FileKey(topic, Some(sub), Some(grade), None))
              == topic + "__" + (sub + "_" + grade) + ".json"
    ensures LegacyTarget(FileKey(topic, Some(sub), Some(grade), None))
              != FileKey(topic, Some(sub), Some(grade), None)
  {
    WordKey3(topic, sub, grade);
    GradedLegacyTarget(topic, sub, grade);
    SanitizeSpacedPair(sub, grade);
    JoinedWordsSanitize(sub, grade);
    FileKeySanitized(topic, " " + (sub + "  " + grade), sub + "_" + grade);
    WordKeyJoined(topic, sub, grade);
    WordNoUnderscore(grade);
    var name := topic + "__" + (sub + "__" + grade) + ".json";
    var moved := topic + "__" + (sub + "_" + grade) + ".json";
    var k := |topic| + 2 + |sub| + 1;
    assert moved[k] == grade[0] != '_' == name[k];
  }
  /** A run of one space between two words collapses to one "_". */
  lemma CollapseTwoWords(a: string, b: string)
    requires Word(a) && Word(b)
    ensures Collapse(a + " " + b) == a + "_" + b
  {
    CollapseWord(a, " " + b);
    assert a + " " + b == a + (" " + b);
    var t := " " + b;
    assert t[1..] == b;
    assert SkipRun(b) == b;
    CollapseWord(b, []);
    assert b + [] == b;
    assert Collapse(t) == "_" + b;
  }

  /** Two words separated by one space sanitise to the words joined by "_". */
  lemma SanitizeTwoWords(a: string, b: string)
    requires Word(a) && Word(b)
    ensures Sanitize(a + " " + b) == a + "_" + b
  {
    var s := a + " " + b;
    ToLowerNoUpper(s);
    assert !IsSpace(s[0]) && !IsSpace(s[|s| - 1]);
    assert TrimStart(s) == s && TrimEnd(s) == s;
    CollapseTwoWords(a, b);
  }

  /**
   * A topic of two words, with no subtopic, is stored under "a_b.json",
   * which the migration reads as an old-scheme name and moves to
   * "a__b.json": after the step nothing is left under the topic's own key.
   */
  lemma MigrateRekeysMultiWordTopic(files: Files, a: string, b: string)
    requires Word(a) && Word(b)
    ensures FileKey(a + " " + b, None, None, None) == a + "_" + b + ".json"
    ensures LegacyTarget(a + "_" + b + ".json") == a + "__" + b + ".json"
    ensures var name := a + "_" + b + ".json";
      (name in files && files[name].Parsed? && files[name].questions != []
       && (LegacyTarget(name) !in files || files[LegacyTarget(name)].Parsed?))
      ==> Questions(MigrateStep(files, name).0, name) == []
  {
    SanitizeTwoWords(a, b);
    var parts := KeyParts(a + " " + b, None, None, None);
    assert parts == [a + "_" + b];
    MigrateLegacyName(a, b);
    var name := a + "_" + b + ".json";
    var target := LegacyTarget(name);
    assert |target| == |name| + 1;
    if name in files && files[name].Parsed? && files[name].questions != [] {
      if target !in files {
        MigrateRenames(files, name);
      } else if files[target].Parsed? {
        MigrateMerges(files, name);
      }
    }
  }

  /** `k` is the migration target of some listed ".json" name. */
  predicate IsTargetIn(k: string, listing: seq<string>)
  {
    exists j :: 0 <= j < |listing| && EndsWith(listing[j], ".json") && k == LegacyTarget(listing[j])
  }

  /** The migration loop up to a prefix of the listing; the flag is false once a step has thrown. */
  function Migrated(files: Files, listing: seq<string>): (r: (Files, bool))
    ensures forall k :: k in r.0 ==>
              k in files || IsTargetIn(k, listing)
    ensures forall k :: k in files && k !in listing && !IsTargetIn(k, listing) ==> k in r.0 && r.0[k] == files[k]
    decreases |listing|
  {
    if listing == [] then (files, true)
    else
      var (before, ok) := Migrated(files, listing[..|listing| - 1]);
      if !ok then
        IsTargetInPrefix(listing);
        (before, false)
      else
        MigratedStepKeys(files, listing, before);
        MigrateStep(before, listing[|listing| - 1])
  }

  /** A target of a name in a prefix of the listing is a target of a name in the listing. */
  lemma IsTargetInPrefix(listing: seq<string>)
    requires listing != []
    ensures forall k :: IsTargetIn(k, listing[..|listing| - 1]) ==> IsTargetIn(k, listing)
  {
    var init := listing[..|listing| - 1];
    forall k | IsTargetIn(k, init) ensures IsTargetIn(k, listing) {
      var j :| 0 <= j < |init| && EndsWith(init[j], ".json") && k == LegacyTarget(init[j]);
      assert listing[j] == init[j];
    }
  }

  /** One more step keeps the two frame facts of `Migrated`. */
  lemma MigratedStepKeys(files: Files, listing: seq<string>, before: Files)
    requires listing != []
    requires forall k :: k in before ==> k in files || IsTargetIn(k, listing[..|listing| - 1])
    requires forall k :: k in files && k !in listing[..|listing| - 1] && !IsTargetIn(k, listing[..|listing| - 1])
               ==> k in before && before[k] == files[k]
    ensures forall k :: k in MigrateStep(before, listing[|listing| - 1]).0 ==> k in files || IsTargetIn(k, listing)
    ensures forall k :: k in files && k !in listing && !IsTargetIn(k, listing)
              ==> k in MigrateStep(before, listing[|listing| - 1]).0
                  && MigrateStep(before, listing[|listing| - 1]).0[k] == files[k]
  {
    var init := listing[..|listing| - 1];
    var last := listing[|listing| - 1];
    IsTargetInPrefix(listing);
    assert last in listing;
    assert forall k :: k in init ==> k in listing;
    if EndsWith(last, ".json") {
      assert IsTargetIn(LegacyTarget(last), listing);
    }
  }

  // ---------------------------------------------------------------------
  // Scanning the directory for topics

  function JsonNames(listing: seq<string>): (names: seq<string>)
    ensures forall k :: 0 <= k < |names| ==> EndsWith(names[k], ".json")
    decreases |listing|
  {
    if listing == [] then []
    else
      var last := listing[|listing| - 1];
      JsonNames(listing[..|listing| - 1]) + (if EndsWith(last, ".json") then [last] else [])
  }

  /** The records the `listTopics` loop has pushed, and whether it got through without a throw. */
  function Scanned(files: Files, listing: seq<string>): (r: (seq<TopicInfo>, bool))
    ensures |r.0| <= |JsonNames(listing)|
    ensures r.1 ==> |r.0| == |JsonNames(listing)|
    decreases |listing|
  {
    if listing == [] then ([], true)
    else
      var (records, ok) := Scanned(files, listing[..|listing| - 1]);
      var name := listing[|listing| - 1];
      if !ok then (records, false)
      else if !EndsWith(name, ".json") then (records, true)
      else if name !in files || files[name].Unreadable? then (records, false)
      else (records + [ParseTopic(name, |files[name].questions|)], true)
  }

  /** Every name is a readable file. */
  predicate AllReadable(files: Files, listing: seq<string>)
  {
    forall k :: 0 <= k < |listing| && EndsWith(listing[k], ".json") ==>
      listing[k] in files && files[listing[k]].Parsed?
  }

  /** A listed ".json" name that is missing or unreadable makes the scan throw. */
  lemma {:induction false} ScannedFailsOnUnreadable(files: Files, listing: seq<string>)
    requires !AllReadable(files, listing)
    ensures !Scanned(files, listing).1
    decreases |listing|
  {
    var k :| 0 <= k < |listing| && EndsWith(listing[k], ".json")
             && !(listing[k] in files && files[listing[k]].Parsed?);
    var init := listing[..|listing| - 1];
    if k < |listing| - 1 {
      assert init[k] == listing[k];
      ScannedFailsOnUnreadable(files, init);
    }
  }

  /** When every listed ".json" file is readable, there is one record per such file, in listing order. */
  lemma {:induction false} ScannedRecords(files: Files, listing: seq<string>)
    requires AllReadable(files, listing)
    ensures var (records, ok) := Scanned(files, listing);
      var names := JsonNames(listing);
      ok && |records| == |names|
      && forall k :: 0 <= k < |names| ==>
           names[k] in files && files[names[k]].Parsed?
           && records[k] == ParseTopic(names[k], |files[names[k]].questions|)
    decreases |listing|
  {
    if listing != [] {
      var init := listing[..|listing| - 1];
      assert AllReadable(files, init) by {
        forall k | 0 <= k < |init| && EndsWith(init[k], ".json")
          ensures init[k] in files && files[init[k]].Parsed?
        {
          assert init[k] == listing[k];
        }
      }
      ScannedRecords(files, init);
    }
  }
}
