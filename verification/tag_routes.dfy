/**
 * The handlers of routes/tag.py as functions from the database before a
 * request to the database after it and the reply, with what each promises.
 */
module TagRoutes {
  import opened Models

  /** The `TagRead` response: a tag's id and name. */
  datatype TagRead = TagRead(id: TagId, name: string)

  /** The `TagWithTasks` response: a tag with the number of tasks it labels. */
  datatype TagWithTasks = TagWithTasks(id: TagId, name: string, taskCount: nat)

  /** The `TagRead` entries of a tags table, one per tag. */
  function TagReads(tags: map<TagId, string>): (entries: set<TagRead>)
    ensures forall t :: t in entries <==> t.id in tags && tags[t.id] == t.name
  {
    set id | id in tags :: TagRead(id, tags[id])
  }

  /** A stored name the response schema of a tag refuses (it asks for 1 to 50 characters). */
  predicate UnreadableName(tags: map<TagId, string>)
  {
    exists id :: id in tags && !ValidTagName(tags[id])
  }

  /**
   * `get_tags`: every tag of the store.  Each row is validated against the
   * response schema, so a stored name it refuses turns the reply into a 500.
   */
  function GetTags(db: Db): (r: Reply<set<TagRead>>)
    ensures r.ServerError? <==> UnreadableName(db.tags)
    ensures r.Ok? <==> !UnreadableName(db.tags)
  {
    if UnreadableName(db.tags) then ServerError
    else Ok(TagReads(db.tags))
  }

  /** A successful listing holds exactly the stored tags, as many entries as there are tags. */
  lemma GetTagsLists(db: Db)
    requires !UnreadableName(db.tags)
    ensures GetTags(db).Ok?
    ensures forall t :: t in GetTags(db).value <==> t.id in db.tags && db.tags[t.id] == t.name
    ensures |GetTags(db).value| == |db.tags|
  {
    TagReadsCount(db.tags);
  }

  lemma {:induction false} TagReadsCount(tags: map<TagId, string>)
    ensures |TagReads(tags)| == |tags|
    decreases |tags|
  {
    if tags != map[] {
      var k :| k in tags;
      var rest := tags - {k};
      var entry := TagRead(k, tags[k]);
      assert |rest| == |tags| - 1 by {
        assert tags.Keys == rest.Keys + {k};
      }
      TagReadsCount(rest);
      forall t ensures t in TagReads(tags) <==> t in TagReads(rest) || t == entry {
      }
      assert TagReads(tags) == TagReads(rest) + {entry};
      assert entry !in TagReads(rest);
    } else {
      assert TagReads(tags) == {};
    }
  }

  /** `get_tag`: the tag with its number of linked tasks, 404, or 500 for a name the response refuses. */
  function GetTag(db: Db, id: TagId): (r: Reply<TagWithTasks>)
    ensures r.NotFound? <==> id !in db.tags
    ensures r.ServerError? <==> id in db.tags && !ValidTagName(db.tags[id])
    ensures r.Ok? <==> id in db.tags && ValidTagName(db.tags[id])
    ensures r.Ok? ==> r.value.id == id && r.value.name == db.tags[id]
    ensures r.Ok? ==> r.value.taskCount == |TasksOf(db.links, id)|
  {
    if id !in db.tags then NotFound
    else if !ValidTagName(db.tags[id]) then ServerError
    else Ok(TagWithTasks(id, db.tags[id], |TasksOf(db.links, id)|))
  }

  /**
   * `task_count` is the number of tasks whose tag set holds the tag, the
   * soft-deleted ones included.
   */
  lemma TaskCountCountsTasks(db: Db, id: TagId)
    requires LinksWellFormed(db) && id in db.tags && ValidTagName(db.tags[id])
    ensures GetTag(db, id).Ok?
    ensures GetTag(db, id).value.taskCount == |set t | t in db.tasks && id in TagsOf(db.links, t)|
  {
    var linked := set t | t in db.tasks && id in TagsOf(db.links, t);
    forall t ensures t in TasksOf(db.links, id) <==> t in linked {
      BackPopulates(db.links, t, id);
    }
    assert TasksOf(db.links, id) == linked;
  }

  /** `create_tag`: 400 when the name is taken, otherwise one new tag under the next id. */
  function CreateTag(db: Db, name: string): (s: Step<TagRead>)
    ensures s.reply.BadRequest? <==> name in db.tags.Values
    ensures s.reply.Ok? <==> name !in db.tags.Values
    ensures !s.reply.Ok? ==> s.db == db
  {
    if name in db.tags.Values then Step(db, BadRequest)
    else
      var id := db.nextTagId;
      Step(db.(tags := db.tags[id := name], nextTagId := id + 1), Ok(TagRead(id, name)))
  }

  /**
   * A successful create adds exactly one tag, the only one with that name,
   * under an id not used before; nothing else changes and the invariant holds.
   */
  lemma CreateTagSpec(db: Db, name: string)
    requires Valid(db) && ValidTagName(name) && name !in db.tags.Values
    ensures var s := CreateTag(db, name);
      var id := s.reply.value.id;
      && s.reply.Ok? && s.reply.value.name == name
      && id !in db.tags
      && s.db.tags == db.tags[id := name]
      && (set g | g in s.db.tags && s.db.tags[g] == name) == {id}
      && s.db.tasks == db.tasks && s.db.links == db.links
      && Valid(s.db)
  {
    var s := CreateTag(db, name);
    var id := db.nextTagId;
    forall t | t in s.db.tasks ensures TagsOf(s.db.links, t) != {} {
      assert TagsOf(s.db.links, t) == TagsOf(db.links, t);
    }
  }

  /** Creating the same name twice: the second request is refused and changes nothing. */
  lemma CreateTagTwice(db: Db, name: string)
    requires Valid(db) && ValidTagName(name) && name !in db.tags.Values
    ensures var s := CreateTag(db, name);
      CreateTag(s.db, name) == Step(s.db, BadRequest)
  {
    var s := CreateTag(db, name);
    assert s.db.tags[db.nextTagId] == name;
  }

  /** Another tag than `id` already carries `name`. */
  predicate NameTakenElsewhere(tags: map<TagId, string>, id: TagId, name: string)
  {
    exists g :: g in tags && g != id && tags[g] == name
  }

  /** `update_tag`: 404, then 400 when another tag has the name, else rename in place. */
  function UpdateTag(db: Db, id: TagId, name: string): (s: Step<()>)
    ensures s.reply.NotFound? <==> id !in db.tags
    ensures s.reply.BadRequest? <==> id in db.tags && NameTakenElsewhere(db.tags, id, name)
    ensures s.reply.Ok? <==> id in db.tags && !NameTakenElsewhere(db.tags, id, name)
    ensures !s.reply.Ok? ==> s.db == db
  {
    if id !in db.tags then Step(db, NotFound)
    else if NameTakenElsewhere(db.tags, id, name) then Step(db, BadRequest)
    else Step(db.(tags := db.tags[id := name]), Ok(()))
  }

  /**
   * A successful rename changes only that tag's name: the same ids, every
   * other name, every task and every link stay, and the invariant holds.
   */
  lemma UpdateTagSpec(db: Db, id: TagId, name: string)
    requires Valid(db) && ValidTagName(name) && id in db.tags && !NameTakenElsewhere(db.tags, id, name)
    ensures var s := UpdateTag(db, id, name);
      && s.reply.Ok?
      && s.db.tags.Keys == db.tags.Keys
      && s.db.tags[id] == name
      && (forall g :: g in db.tags && g != id ==> s.db.tags[g] == db.tags[g])
      && s.db.tasks == db.tasks && s.db.links == db.links && s.db.nextTagId == db.nextTagId
      && Valid(s.db)
  {
    var s := UpdateTag(db, id, name);
    forall t | t in s.db.tasks ensures TagsOf(s.db.links, t) != {} {
      assert TagsOf(s.db.links, t) == TagsOf(db.links, t);
    }
  }

  /** Renaming a tag to its own name is accepted and changes nothing. */
  lemma RenameToOwnName(db: Db, id: TagId)
    requires UniqueNames(db.tags) && id in db.tags
    ensures UpdateTag(db, id, db.tags[id]) == Step(db, Ok(()))
  {
    assert db.tags[id := db.tags[id]] == db.tags;
  }

  /** Renaming a tag to the name of another is refused, and both tags keep their names. */
  lemma RenameToTakenName(db: Db, id: TagId, other: TagId)
    requires id in db.tags && other in db.tags && other != id
    ensures var s := UpdateTag(db, id, db.tags[other]);
      && s.reply.BadRequest?
      && s.db.tags[id] == db.tags[id] && s.db.tags[other] == db.tags[other]
  {
  }

  /** `delete_tag`: 404, then 400 while any task (active or not) links it, else remove it. */
  function DeleteTag(db: Db, id: TagId): (s: Step<()>)
    ensures s.reply.NotFound? <==> id !in db.tags
    ensures s.reply.BadRequest? <==> id in db.tags && exists t :: Link(t, id) in db.links
    ensures s.reply.Ok? <==> id in db.tags && forall t :: Link(t, id) !in db.links
    ensures !s.reply.Ok? ==> s.db == db
  {
    if id !in db.tags then Step(db, NotFound)
    else if TasksOf(db.links, id) != {} then Step(db, BadRequest)
    else Step(db.(tags := db.tags - {id}), Ok(()))
  }

  /**
   * Deleting an unlinked tag removes exactly that tag; no task loses a tag,
   * so the invariant, every task having a tag included, holds after it.
   */
  lemma DeleteTagSpec(db: Db, id: TagId)
    requires Valid(db) && id in db.tags && TasksOf(db.links, id) == {}
    ensures var s := DeleteTag(db, id);
      && s.reply.Ok?
      && s.db.tags.Keys == db.tags.Keys - {id}
      && (forall g :: g in s.db.tags ==> s.db.tags[g] == db.tags[g])
      && s.db.tasks == db.tasks
      && (forall t :: TagsOf(s.db.links, t) == TagsOf(db.links, t))
      && Valid(s.db)
  {
    var s := DeleteTag(db, id);
    forall l | l in s.db.links ensures l.tag in s.db.tags {
      assert l.task in TasksOf(db.links, l.tag);
    }
  }
}
