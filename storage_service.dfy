/**
 * The question store as the object the server holds
 * (src/services/storageService.ts): its state is the storage directory,
 * a map from file name to what the file holds, and each method walks that
 * map the way the source walks the directory. What a directory listing
 * returns (`readdirSync`) is an input: a sequence of names in the order
 * the file system gives them.
 */
module Storage {
  import opened Common
  import opened Text
  import opened Types
  import opened QuestionStore
  import opened TopicSort

  /** Once a migration step has thrown, the rest of the listing is not looked at. */
  lemma {:induction false} MigratedStopsAtThrow(files: Files, listing: seq<string>, k: nat)
    requires k <= |listing| && !Migrated(files, listing[..k]).1
    ensures Migrated(files, listing) == Migrated(files, listing[..k])
    decreases |listing|
  {
    if k < |listing| {
      var init := listing[..|listing| - 1];
      assert init[..k] == listing[..k];
      MigratedStopsAtThrow(files, init, k);
    } else {
      assert listing[..k] == listing;
    }
  }

  /** Once reading a listed file has thrown, no further record is pushed. */
  lemma {:induction false} ScannedStopsAtThrow(files: Files, listing: seq<string>, k: nat)
    requires k <= |listing| && !Scanned(files, listing[..k]).1
    ensures Scanned(files, listing) == Scanned(files, listing[..k])
    decreases |listing|
  {
    if k < |listing| {
      var init := listing[..|listing| - 1];
      assert init[..k] == listing[..k];
      ScannedStopsAtThrow(files, init, k);
    } else {
      assert listing[..k] == listing;
    }
  }

  class StorageService {
    /** The storage directory `data/questions`. */
    var files: Files

    /**
     * The constructor runs `migrateOldFiles` over the directory it finds:
     * that method awaits nothing, so the whole pass completes before the
     * service is handed out. Creating the directory when missing is left out.
     */
    constructor (initial: Files, listing: seq<string>)
      ensures files == Migrated(initial, listing).0
    {
      files := initial;
      new;
      MigrateOldFiles(listing);
    }

    /**
     * `storeQuestion`: read the key's list (absent or unreadable is empty),
     * append the question when no stored question has its text, and write
     * the list back; a duplicate leaves the directory as it was.
     */
    method StoreQuestion(topic: string, subtopic: Option<string>, question: Question,
                         gradeLevel: string, curriculum: Option<string>)
      modifies this
      ensures files == Store(old(files), FileKey(topic, subtopic, Some(gradeLevel), curriculum), question)
    {
      var filePath := FileKey(topic, subtopic, Some(gradeLevel), curriculum);
      var questions: seq<Question> := [];
      if filePath in files && files[filePath].Parsed? {
        questions := files[filePath].questions;
      }
      var isDuplicate := HasQuestionText(questions, question.question);
      if !isDuplicate {
        questions := questions + [question];
        files := files[filePath := Parsed(questions)];
      } else {
        assert files[filePath] == Parsed(questions);
      }
    }

    /** `getQuestions`: the key's list, or none when the file is absent or unreadable. */
    method GetQuestions(topic: string, subtopic: Option<string>, gradeLevel: Option<string>,
                        curriculum: Option<string>) returns (questions: seq<Question>)
      ensures questions == Questions(files, FileKey(topic, subtopic, gradeLevel, curriculum))
    {
      var filePath := FileKey(topic, subtopic, gradeLevel, curriculum);
      if filePath in files && files[filePath].Parsed? {
        return files[filePath].questions;
      }
      return [];
    }

    /**
     * `listTopics`: one record per listed ".json" file, then sorted with the
     * topic comparator. A file that cannot be read ends the scan; the
     * records pushed so far are returned as they are, unsorted.
     */
    method ListTopics(listing: seq<string>, le: (string, string) -> bool) returns (topics: seq<TopicInfo>)
      requires TotalPreorder(le)
      ensures var (records, ok) := Scanned(files, listing);
        (ok ==> TopicsSorted(le, topics) && multiset(topics) == multiset(records))
        && (!ok ==> topics == records)
    {
      topics := [];
      var i := 0;
      while i < |listing|
        invariant 0 <= i <= |listing|
        invariant Scanned(files, listing[..i]) == (topics, true)
      {
        var file := listing[i];
        assert listing[..i + 1][..i] == listing[..i];
        if EndsWith(file, ".json") {
          if file !in files || files[file].Unreadable? {
            ScannedStopsAtThrow(files, listing, i + 1);
            return;
          }
          var questions := files[file].questions;
          topics := topics + [ParseTopic(file, |questions|)];
        }
        i := i + 1;
      }
      assert listing[..i] == listing;
      var a := new TopicInfo[|topics|](k requires 0 <= k < |topics| => topics[k]);
      assert a[..] == topics;
      TopicLeTotalPreorder(le);
      SortInPlace(a, (x: TopicInfo, y: TopicInfo) => TopicLe(le, x, y));
      topics := a[..];
    }

    /**
     * `migrateOldFiles`: every non-empty ".json" file is re-keyed under the
     * name its stem gives when split on "_"; it is renamed when that name is
     * free and merged into it otherwise. A read that throws ends the pass.
     */
    method MigrateOldFiles(listing: seq<string>)
      modifies this
      ensures files == Migrated(old(files), listing).0
    {
      var i := 0;
      while i < |listing|
        invariant 0 <= i <= |listing|
        invariant Migrated(old(files), listing[..i]) == (files, true)
      {
        var file := listing[i];
        assert listing[..i + 1][..i] == listing[..i];
        if EndsWith(file, ".json") {
          if file !in files || files[file].Unreadable? {
            MigratedStopsAtThrow(old(files), listing, i + 1);
            return;
          }
          var questions := files[file].questions;
          if questions != [] {
            var newFile := LegacyTarget(file);
            if newFile != file {
              if newFile !in files {
                files := files[newFile := files[file]] - {file};
              } else {
                if files[newFile].Unreadable? {
                  MigratedStopsAtThrow(old(files), listing, i + 1);
                  return;
                }
                var mergedQuestions := MergeUnique(files[newFile].questions, questions);
                files := files[newFile := Parsed(mergedQuestions)] - {file};
              }
            }
          }
        }
        i := i + 1;
      }
      assert listing[..i] == listing;
    }
  }
}
