/**
 * Properties that span several requests: how the soft delete of tasks, the
 * replacement of a task's tags and the deletion guard on tags interact, and
 * the tag filter of the listing on a small database.
 */
module Scenarios {
  import opened Models
  import Filter
  import TaskRoutes
  import TagRoutes

  /**
   * A soft-deleted task still holds its tags: the tag keeps its task count
   * and still cannot be deleted.
   */
  lemma SoftDeletedTaskStillBlocks(db: Db, task: TaskId, tag: TagId)
    requires Valid(db) && task in db.tasks && tag in TagsOf(db.links, task)
    ensures var after := TaskRoutes.DeleteTask(db, task).db;
      && TagRoutes.DeleteTag(after, tag) == Step(after, BadRequest)
      && TagRoutes.GetTag(after, tag) == TagRoutes.GetTag(db, tag)
  {
    var after := TaskRoutes.DeleteTask(db, task).db;
    assert Link(task, tag) in after.links;
  }

  /**
   * When one task alone carries a tag, updating that task with names that do
   * not include the tag's name frees the tag, and it can then be deleted.
   */
  lemma UpdateFreesTag(db: Db, task: TaskId, tag: TagId, title: string, description: Option<string>,
                       status: Status, names: seq<string>)
    requires Valid(db) && task in db.tasks && tag in db.tags
    requires TasksOf(db.links, tag) == {task}
    requires names != [] && TaskRoutes.Insertable(db.tags, names) && db.tags[tag] !in names
    ensures var after := TaskRoutes.UpdateTask(db, task, title, description, status, Some(names)).db;
      TagRoutes.DeleteTag(after, tag).reply.Ok?
  {
    TaskRoutes.UpdateTaskSpec(db, task, title, description, status, names);
    TaskRoutes.UpdateTaskTags(db, task, title, description, status, names);
    var after := TaskRoutes.UpdateTask(db, task, title, description, status, Some(names)).db;
    assert tag in after.tags && after.tags[tag] == db.tags[tag];
    forall t ensures Link(t, tag) !in after.links {
      if t != task {
        assert TagsOf(after.links, t) == TagsOf(db.links, t);
        assert t !in TasksOf(db.links, tag);
      } else {
        assert tag !in TagsOf(after.links, task);
      }
    }
    assert TasksOf(after.links, tag) == {};
  }

  /**
   * The task routes do not check the names in `tag_names` against the tag
   * schema: creating a task with the empty name stores an empty-named tag,
   * and from then on listing the tags fails with a 500.
   */
  lemma EmptyTagNameBreaksListing(db: Db, owner: UserId, title: string, description: Option<string>,
                                  status: Status)
    requires Valid(db)
    ensures var s := TaskRoutes.CreateTask(db, owner, title, description, status, Some([""]));
      && s.reply.Ok?
      && TagRoutes.GetTags(s.db) == ServerError
  {
    TaskRoutes.CreateTaskSpec(db, owner, title, description, status, [""]);
    var s := TaskRoutes.CreateTask(db, owner, title, description, status, Some([""]));
    assert "" in s.db.tags.Values;
  }

  /** Tag 0 "urgent", tag 1 "home"; task 0 has urgent, task 1 home, task 2 both. */
  function Sample(): Db
  {
    var t := Task(7, "Sample task", None, Pending, true);
    Db(map[0 := "urgent", 1 := "home"],
       map[0 := t, 1 := t, 2 := t],
       {Link(0, 0), Link(1, 1), Link(2, 0), Link(2, 1)},
       2, 3)
  }

  lemma SampleValid()
    ensures Valid(Sample())
  {
    var db := Sample();
    assert TagsOf(db.links, 0) == {0};
    assert Link(1, 1) in db.links && Link(2, 0) in db.links;
  }

  /**
   * On the sample, soft-deleting task 0 leaves `urgent` linked to it, so
   * the tag still cannot be deleted.
   */
  lemma SampleDeletedTaskBlocks()
    ensures var after := TaskRoutes.DeleteTask(Sample(), 0).db;
      TagRoutes.DeleteTag(after, 0) == Step(after, BadRequest)
  {
    SampleValid();
    SoftDeletedTaskStillBlocks(Sample(), 0, 0);
  }

  lemma SampleNamesAreTokens()
    ensures Filter.IsToken("urgent") && Filter.IsToken("home")
  {
    assert "urgent"[0] == 'u' && "urgent"[5] == 't';
    assert "home"[0] == 'h' && "home"[3] == 'e';
  }

  lemma SampleJoins()
    ensures Filter.Join(["urgent", "home"]) == "urgent,home"
    ensures Filter.Join(["urgent"]) == "urgent"
  {
  }

  lemma TokenizeBoth(filter: string)
    requires filter == Filter.Join(["urgent", "home"])
    ensures Filter.Tokenize(filter) == ["urgent", "home"]
  {
    SampleNamesAreTokens();
    Filter.TokenizeJoin(["urgent", "home"]);
  }

  lemma TokenizeOne(filter: string)
    requires filter == Filter.Join(["urgent"])
    ensures Filter.Tokenize(filter) == ["urgent"]
  {
    SampleNamesAreTokens();
    Filter.TokenizeJoin(["urgent"]);
  }

  /** The filter `urgent,home` asks for the two names. */
  lemma TokensOfBoth(filter: string)
    requires filter == "urgent,home"
    ensures TaskRoutes.FilterTokens(Some(filter)) == ["urgent", "home"]
  {
    SampleJoins();
    TokenizeBoth(filter);
  }

  /** The filter `urgent` asks for that one name. */
  lemma TokensOfOne(filter: string)
    requires filter == "urgent"
    ensures TaskRoutes.FilterTokens(Some(filter)) == ["urgent"]
  {
    SampleJoins();
    TokenizeOne(filter);
  }

  lemma MatchingAny(db: Db)
    requires db == Sample()
    ensures TaskRoutes.Matching(db, ["urgent", "home"]) == {0, 1, 2}
  {
    assert Link(0, 0) in db.links && Link(1, 1) in db.links && Link(2, 0) in db.links;
    assert db.tags[0] in ["urgent", "home"] && db.tags[1] in ["urgent", "home"];
  }

  lemma MatchingOne(db: Db)
    requires db == Sample()
    ensures TaskRoutes.Matching(db, ["urgent"]) == {0, 2}
  {
    assert Link(0, 0) in db.links && Link(2, 0) in db.links;
    forall id | id in TaskRoutes.Matching(db, ["urgent"]) ensures id == 0 || id == 2 {
      var g :| Link(id, g) in db.links && g in db.tags && db.tags[g] in ["urgent"];
    }
  }

  /** On the sample, asking for `urgent` or `home` lists every task: one of the names suffices. */
  lemma SampleListsAny(filter: string)
    requires filter == "urgent,home"
    ensures TaskRoutes.Matching(Sample(), TaskRoutes.FilterTokens(Some(filter))) == {0, 1, 2}
  {
    TokensOfBoth(filter);
    MatchingAny(Sample());
  }

  /**
   * On the sample, asking for `urgent` lists tasks 0 and 2, and task 2 is
   * reported with both its tags although only one of them matched.
   */
  lemma SampleListsMatching(filter: string)
    requires filter == "urgent"
    ensures TaskRoutes.Matching(Sample(), TaskRoutes.FilterTokens(Some(filter))) == {0, 2}
    ensures TaskRoutes.Read(Sample(), 2).tagCount == 2
  {
    TokensOfOne(filter);
    MatchingOne(Sample());
    var db := Sample();
    assert TagsOf(db.links, 2) == {0, 1};
  }
}
