/**
 * The ordering `listTopics` gives its records (src/services/storageService.ts,
 * the comparator passed to `topics.sort`). `localeCompare` depends on the
 * locale, so the model takes the string order as a parameter: any total
 * preorder `le`, where two strings compare as 0 when each is `le` the other.
 */
module TopicSort {
  import opened Common
  import opened QuestionStore

  /** `le` is total and transitive (a total preorder). */
  ghost predicate TotalPreorder<T(!new)>(le: (T, T) -> bool)
  {
    (forall a, b :: le(a, b) || le(b, a))
    && (forall a, b, c :: le(a, b) && le(b, c) ==> le(a, c))
  }

  /** The sign `localeCompare` returns, read off the order. */
  function LocaleCompare(le: (string, string) -> bool, a: string, b: string): (c: int)
    ensures c == 0 <==> le(a, b) && le(b, a)
    ensures c < 0 <==> le(a, b) && !le(b, a)
    ensures -1 <= c <= 1
  {
    if le(a, b) && le(b, a) then 0 else if le(a, b) then -1 else 1
  }

  /** `a.subtopic` is truthy: present and not the empty string. */
  predicate HasSubtopic(t: TopicInfo)
  {
    t.subtopic.Some? && t.subtopic.value != []
  }

  /** The comparator of `listTopics`: topic first, then a missing subtopic before any subtopic, then subtopic. */
  function CompareTopics(le: (string, string) -> bool, a: TopicInfo, b: TopicInfo): (c: int)
    ensures -1 <= c <= 1
    ensures LocaleCompare(le, a.topic, b.topic) != 0 ==> c == LocaleCompare(le, a.topic, b.topic)
    ensures (LocaleCompare(le, a.topic, b.topic) == 0 && HasSubtopic(a) != HasSubtopic(b))
              ==> (c < 0 <==> !HasSubtopic(a))
  {
    var topicCompare := LocaleCompare(le, a.topic, b.topic);
    if topicCompare != 0 then topicCompare
    else if !HasSubtopic(a) && !HasSubtopic(b) then 0
    else if !HasSubtopic(a) then -1
    else if !HasSubtopic(b) then 1
    else LocaleCompare(le, a.subtopic.value, b.subtopic.value)
  }

  /** Swapping the two records flips the sign: the comparator is consistent. */
  lemma CompareTopicsAntisymmetric(le: (string, string) -> bool, a: TopicInfo, b: TopicInfo)
    requires TotalPreorder(le)
    ensures CompareTopics(le, a, b) == -CompareTopics(le, b, a)
  {
  }

  /** `a` may come before `b` in the sorted list. */
  predicate TopicLe(le: (string, string) -> bool, a: TopicInfo, b: TopicInfo)
  {
    CompareTopics(le, a, b) <= 0
  }

  /** The comparator orders records by topic, and within one topic puts records without a subtopic first. */
  lemma TopicLeMeaning(le: (string, string) -> bool, a: TopicInfo, b: TopicInfo)
    requires TotalPreorder(le)
    requires TopicLe(le, a, b)
    ensures le(a.topic, b.topic)
    ensures le(b.topic, a.topic) && !HasSubtopic(b) ==> !HasSubtopic(a)
    ensures le(b.topic, a.topic) && HasSubtopic(a) ==> HasSubtopic(b) && le(a.subtopic.value, b.subtopic.value)
  {
  }

  /** The comparator is a total preorder on records whenever the string order is one. */
  lemma TopicLeTotalPreorder(le: (string, string) -> bool)
    requires TotalPreorder(le)
    ensures TotalPreorder((a: TopicInfo, b: TopicInfo) => TopicLe(le, a, b))
  {
    var cmp := (a: TopicInfo, b: TopicInfo) => TopicLe(le, a, b);
    forall a: TopicInfo, b: TopicInfo, c: TopicInfo | cmp(a, b) && cmp(b, c) ensures cmp(a, c) {
      TopicLeTransitive(le, a, b, c);
    }
  }

  lemma TopicLeTransitive(le: (string, string) -> bool, a: TopicInfo, b: TopicInfo, c: TopicInfo)
    requires TotalPreorder(le)
    requires TopicLe(le, a, b) && TopicLe(le, b, c)
    ensures TopicLe(le, a, c)
  {
    assert le(a.topic, b.topic) && le(b.topic, c.topic);
    assert le(a.topic, c.topic);
  }

  predicate Sorted<T>(le: (T, T) -> bool, s: seq<T>)
  {
    forall i, j :: 0 <= i < j < |s| ==> le(s[i], s[j])
  }

  /**
   * `Array.prototype.sort` with a consistent comparator: the array ends up
   * a sorted permutation of what it held. (Insertion by adjacent swaps.)
   */
  method SortInPlace<T(!new)>(a: array<T>, le: (T, T) -> bool)
    requires TotalPreorder(le)
    modifies a
    ensures Sorted(le, a[..])
    ensures multiset(a[..]) == multiset(old(a[..]))
  {
    var i := 0;
    while i < a.Length
      invariant 0 <= i <= a.Length
      invariant forall p, q :: 0 <= p < q < i ==> le(a[p], a[q])
      invariant multiset(a[..]) == multiset(old(a[..]))
    {
      var j := i;
      while j > 0 && !le(a[j - 1], a[j])
        invariant 0 <= j <= i
        invariant forall p, q :: 0 <= p < q <= i && p != j && q != j ==> le(a[p], a[q])
        invariant forall q :: j < q <= i ==> le(a[j], a[q])
        invariant multiset(a[..]) == multiset(old(a[..]))
      {
        a[j - 1], a[j] := a[j], a[j - 1];
        j := j - 1;
      }
      i := i + 1;
    }
  }

  /** A list of records in the order `listTopics` returns them. */
  predicate TopicsSorted(le: (string, string) -> bool, s: seq<TopicInfo>)
  {
    forall i, j :: 0 <= i < j < |s| ==> TopicLe(le, s[i], s[j])
  }

  /**
   * In a sorted list the topics never go down, and among records with the
   * same topic those without a subtopic come first, the others in subtopic order.
   */
  lemma {:induction false} SortedTopicsOrder(le: (string, string) -> bool, s: seq<TopicInfo>, i: int, j: int)
    requires TotalPreorder(le) && TopicsSorted(le, s)
    requires 0 <= i < j < |s|
    ensures le(s[i].topic, s[j].topic)
    ensures le(s[j].topic, s[i].topic) && !HasSubtopic(s[j]) ==> !HasSubtopic(s[i])
    ensures le(s[j].topic, s[i].topic) && HasSubtopic(s[i]) ==>
              HasSubtopic(s[j]) && le(s[i].subtopic.value, s[j].subtopic.value)
  {
    TopicLeMeaning(le, s[i], s[j]);
  }
}
