/**
 * The handlers of routes/task.py as functions from the database before a
 * request to the database after it and the reply.  Each handler runs in one
 * transaction, so a request that fails part-way leaves the database as it was.
 */
module TaskRoutes {
  import opened Models
  import Filter

  /** The `TaskRead` response: the task's fields and its `tag_count`. */
  datatype TaskRead = TaskRead(
    id: TaskId,
    title: string,
    description: Option<string>,
    status: Status,
    tagCount: nat)

  /** The response for a stored task; `tag_count` is `len(task.tags)`. */
  function Read(db: Db, id: TaskId): TaskRead
    requires id in db.tasks
  {
    var t := db.tasks[id];
    TaskRead(id, t.title, t.description, t.status, |TagsOf(db.links, id)|)
  }

  /** The names of the tags a task carries. */
  ghost function TagNames(db: Db, id: TaskId): set<string>
  {
    TagNamesIn(db.tags, TagsOf(db.links, id))
  }

  // ---------------------------------------------------------------------
  // get_tasks

  /** The tag names of the optional `tags` query parameter; none when it is missing or empty. */
  function FilterTokens(tags: Option<string>): seq<string>
  {
    if tags.Some? && tags.value != "" then Filter.Tokenize(tags.value) else []
  }

  /**
   * The tasks the listing query returns: the active tasks, and when names are
   * given, those joined through `task_tags` to a tag whose name is one of them.
   * A task is listed once however many of its tags match.
   */
  function Matching(db: Db, names: seq<string>): (ids: set<TaskId>)
    ensures forall id :: id in ids <==>
      && id in db.tasks && db.tasks[id].active
      && (names == [] || exists tag :: Link(id, tag) in db.links && tag in db.tags && db.tags[tag] in names)
  {
    if names == [] then
      set id | id in db.tasks && db.tasks[id].active
    else
      set l | l in db.links && l.task in db.tasks && db.tasks[l.task].active
                && l.tag in db.tags && db.tags[l.tag] in names :: l.task
  }

  /** No filter, an empty one, or one of only commas and whitespace lists every active task. */
  lemma BlankFilterListsActive(db: Db, tags: Option<string>)
    requires tags.None? || Filter.SeparatorsOnly(tags.value)
    ensures FilterTokens(tags) == []
    ensures Matching(db, FilterTokens(tags)) == set id | id in db.tasks && db.tasks[id].active
  {
    if tags.Some? {
      Filter.NoTokens(tags.value);
    }
  }

  /** A filter with anything but commas and whitespace in it asks for at least one name. */
  lemma FilterWithNames(tags: string)
    requires !Filter.SeparatorsOnly(tags)
    ensures FilterTokens(Some(tags)) != []
    ensures forall n :: n in FilterTokens(Some(tags)) ==> Filter.IsToken(n)
  {
    Filter.NoTokens(tags);
    Filter.TokenizeTokens(tags);
  }

  /**
   * Under the invariant `tag_count` counts the task's distinct tag names, all
   * of them and not only those a filter matched, and is never zero.
   */
  lemma ReadTagCount(db: Db, id: TaskId)
    requires Valid(db) && id in db.tasks
    ensures Read(db, id).tagCount == |TagNames(db, id)|
    ensures Read(db, id).tagCount >= 1
  {
    var own := TagsOf(db.links, id);
    var names := TagNames(db, id);
    forall g | g in db.tags && db.tags[g] in names ensures g in own {
      var h :| h in own && h in db.tags && db.tags[h] == db.tags[g];
    }
    assert (set g | g in db.tags && db.tags[g] in names) == own;
    NamedTagCount(db.tags, names);
  }

  /** Filtering by several names lists the tasks listed for any one of them. */
  lemma {:induction false} FilterIsUnion(db: Db, a: seq<string>, b: seq<string>)
    requires a != [] && b != []
    ensures Matching(db, a + b) == Matching(db, a) + Matching(db, b)
  {
    forall id | id in Matching(db, a + b)
      ensures id in Matching(db, a) + Matching(db, b)
    {
      var tag :| Link(id, tag) in db.links && tag in db.tags && db.tags[tag] in a + b;
      assert db.tags[tag] in a || db.tags[tag] in b;
    }
  }

  /** Under the invariant, a listed task is an active one carrying a tag named in the filter. */
  lemma ListedByOwnTags(db: Db, names: seq<string>, id: TaskId)
    requires Valid(db) && names != []
    ensures id in Matching(db, names) <==>
      id in db.tasks && db.tasks[id].active && TagNames(db, id) * (set n | n in names) != {}
  {
    if id in Matching(db, names) {
      var tag :| Link(id, tag) in db.links && tag in db.tags && db.tags[tag] in names;
      assert tag in TagsOf(db.links, id);
      assert db.tags[tag] in TagNames(db, id) * (set n | n in names);
    }
    if id in db.tasks && db.tasks[id].active && TagNames(db, id) * (set n | n in names) != {} {
      var n :| n in TagNames(db, id) * (set n | n in names);
      var tag :| tag in TagsOf(db.links, id) && tag in db.tags && db.tags[tag] == n;
      assert Link(id, tag) in db.links && db.tags[tag] in names;
    }
  }

  // ---------------------------------------------------------------------
  // Resolving tag names (the loops of create_task and update_task)

  /** The tags table while names are being resolved, and the tags collected so far. */
  datatype Resolution = Resolution(tags: map<TagId, string>, nextTagId: nat, ids: set<TagId>, ok: bool)

  /** `db.query(Tag).filter(Tag.name == name).first()` for a name that is there. */
  ghost function TagNamed(tags: map<TagId, string>, name: string): (id: TagId)
    requires name in tags.Values
    ensures id in tags && tags[id] == name
  {
    var id :| id in tags && tags[id] == name; id
  }

  /**
   * Look each name up by exact match and insert a tag for it when there is
   * none; the flush makes that tag visible to the lookups of later names.  An
   * insert of a name longer than the column fails and aborts the request.
   */
  ghost function Resolve(tags: map<TagId, string>, next: nat, names: seq<string>): Resolution
    decreases |names|
  {
    if names == [] then Resolution(tags, next, {}, true)
    else
      var r := Resolve(tags, next, names[..|names| - 1]);
      var name := names[|names| - 1];
      if !r.ok then r
      else if name in r.tags.Values then r.(ids := r.ids + {TagNamed(r.tags, name)})
      else if |name| > MaxTagName then r.(ok := false)
      else Resolution(r.tags[r.nextTagId := name], r.nextTagId + 1, r.ids + {r.nextTagId}, true)
  }

  /** Every name the table has not got fits the column. */
  ghost predicate Insertable(tags: map<TagId, string>, names: seq<string>)
  {
    forall i :: 0 <= i < |names| ==> names[i] in tags.Values || |names[i]| <= MaxTagName
  }

  /** `tags'` keeps every row of `tags` and adds rows only at ids from `next` on. */
  ghost predicate Extends(tags: map<TagId, string>, next: nat, tags': map<TagId, string>, next': nat)
  {
    && next <= next'
    && (forall id :: id in tags ==> id in tags' && tags'[id] == tags[id])
    && (forall id :: id in tags' && id !in tags ==> next <= id < next')
  }

  /**
   * What resolving `names` against `tags` achieves: it succeeds exactly when
   * every missing name fits; it then keeps the existing tags, adds one tag per
   * missing name (however often the name repeats) and collects exactly the
   * tags the names denote.
   */
  ghost predicate ResolvedWell(tags: map<TagId, string>, next: nat, names: seq<string>, r: Resolution)
  {
    && (r.ok <==> Insertable(tags, names))
    && (r.ok ==>
      && TagTable(r.tags, r.nextTagId)
      && Extends(tags, next, r.tags, r.nextTagId)
      && r.tags.Values == tags.Values + (set n | n in names)
      && r.ids == (set id | id in r.tags && r.tags[id] in names))
  }

  lemma {:induction false} ResolveSpec(tags: map<TagId, string>, next: nat, names: seq<string>)
    requires TagTable(tags, next)
    ensures ResolvedWell(tags, next, names, Resolve(tags, next, names))
    decreases |names|
  {
    if names == [] {
      assert (set n | n in names) == {};
    } else {
      var front, name := names[..|names| - 1], names[|names| - 1];
      assert names == front + [name];
      ResolveSpec(tags, next, front);
      var r := Resolve(tags, next, front);
      if !r.ok {
        ResolveAfterFailure(tags, next, front, name, r);
      } else if name in r.tags.Values {
        ResolveExisting(tags, next, front, name, r, TagNamed(r.tags, name));
      } else if |name| > MaxTagName {
        ResolveTooLong(tags, next, front, name, r);
      } else {
        ResolveNew(tags, next, front, name, r);
      }
    }
  }

  /** Resolution succeeds only when every missing name fits. */
  lemma ResolveOk(tags: map<TagId, string>, next: nat, names: seq<string>)
    requires TagTable(tags, next) && Resolve(tags, next, names).ok
    ensures Insertable(tags, names)
  {
    ResolveSpec(tags, next, names);
  }

  lemma ResolveAfterFailure(tags: map<TagId, string>, next: nat, front: seq<string>, name: string, r: Resolution)
    requires ResolvedWell(tags, next, front, r) && !r.ok
    ensures ResolvedWell(tags, next, front + [name], r)
  {
    var i :| 0 <= i < |front| && !(front[i] in tags.Values || |front[i]| <= MaxTagName);
    assert (front + [name])[i] == front[i];
  }

  lemma ResolveTooLong(tags: map<TagId, string>, next: nat, front: seq<string>, name: string, r: Resolution)
    requires ResolvedWell(tags, next, front, r) && r.ok
    requires name !in r.tags.Values && |name| > MaxTagName
    ensures ResolvedWell(tags, next, front + [name], r.(ok := false))
  {
    assert name !in tags.Values;
    assert (front + [name])[|front|] == name;
  }

  lemma ResolveExisting(tags: map<TagId, string>, next: nat, front: seq<string>, name: string, r: Resolution, id: TagId)
    requires TagTable(tags, next)
    requires ResolvedWell(tags, next, front, r) && r.ok
    requires id in r.tags && r.tags[id] == name
    ensures ResolvedWell(tags, next, front + [name], r.(ids := r.ids + {id}))
  {
    var names := front + [name];
    ResolvedNameFits(tags, front, name, r.tags);
    assert (set n | n in names) == (set n | n in front) + {name};
  }

  lemma ResolveNew(tags: map<TagId, string>, next: nat, front: seq<string>, name: string, r: Resolution)
    requires TagTable(tags, next)
    requires ResolvedWell(tags, next, front, r) && r.ok
    requires name !in r.tags.Values && |name| <= MaxTagName
    ensures ResolvedWell(tags, next, front + [name],
      Resolution(r.tags[r.nextTagId := name], r.nextTagId + 1, r.ids + {r.nextTagId}, true))
  {
    var names := front + [name];
    var id := r.nextTagId;
    assert id !in r.tags;
    ValuesAfterInsert(r.tags, id, name);
    TagTableAfterInsert(r.tags, id, name);
    IdsAfterInsert(r.tags, r.ids, front, id, name, r.tags[id := name], names);
    NamesOfSnoc(front, name);
    InsertableSnoc(tags, front, name);
  }

  lemma NamesOfSnoc(front: seq<string>, name: string)
    ensures (set n | n in front + [name]) == (set n | n in front) + {name}
  {
  }

  lemma InsertableSnoc(tags: map<TagId, string>, front: seq<string>, name: string)
    requires Insertable(tags, front) && |name| <= MaxTagName
    ensures Insertable(tags, front + [name])
  {
    var names := front + [name];
    forall i | 0 <= i < |names|
      ensures names[i] in tags.Values || |names[i]| <= MaxTagName
    {
      if i < |front| {
        assert names[i] == front[i];
      }
    }
  }

  lemma TagTableAfterInsert(tags: map<TagId, string>, next: nat, name: string)
    requires TagTable(tags, next) && name !in tags.Values && |name| <= MaxTagName
    ensures TagTable(tags[next := name], next + 1)
  {
  }

  lemma IdsAfterInsert(tags: map<TagId, string>, ids: set<TagId>, front: seq<string>, id: TagId, name: string,
                       tags': map<TagId, string>, names: seq<string>)
    requires id !in tags && name !in tags.Values
    requires ids == set g | g in tags && tags[g] in front
    requires tags' == tags[id := name] && names == front + [name]
    ensures ids + {id} == set g | g in tags' && tags'[g] in names
  {
    forall g | g in tags && tags[g] in names ensures g in ids {
      assert tags[g] in tags.Values;
    }
  }

  lemma ResolvedNameFits(tags: map<TagId, string>, front: seq<string>, name: string, tags': map<TagId, string>)
    requires Insertable(tags, front)
    requires tags'.Values == tags.Values + (set n | n in front)
    requires name in tags'.Values
    ensures Insertable(tags, front + [name])
  {
    var names := front + [name];
    forall i | 0 <= i < |names|
      ensures names[i] in tags.Values || |names[i]| <= MaxTagName
    {
      if i < |front| {
        assert names[i] == front[i];
      } else if name !in tags.Values {
        var j :| 0 <= j < |front| && front[j] == name;
      }
    }
  }

  lemma ValuesAfterInsert(m: map<TagId, string>, k: TagId, v: string)
    requires k !in m
    ensures m[k := v].Values == m.Values + {v}
  {
    forall x | x in m.Values ensures x in m[k := v].Values {
      var j :| j in m && m[j] == x;
      assert m[k := v][j] == x;
    }
    assert m[k := v][k] == v;
  }

  // ---------------------------------------------------------------------
  // create_task, update_task, delete_task

  /** `not task.tag_names or len(task.tag_names) == 0`. */
  predicate NoTagNames(tagNames: Option<seq<string>>)
  {
    tagNames.None? || tagNames.value == []
  }

  /** The `task_tags` rows linking `task` to each of `ids`. */
  function LinksTo(task: TaskId, ids: set<TagId>): set<Link>
  {
    set g | g in ids :: Link(task, g)
  }

  /** The join table without the rows of `task`: `task.tags.clear()`. */
  function Unlinked(links: set<Link>, task: TaskId): set<Link>
  {
    set l | l in links && l.task != task
  }

  /** `create_task`: insert an active task owned by the caller, linked to the tags its names resolve to. */
  ghost function CreateTask(db: Db, owner: UserId, title: string, description: Option<string>, status: Status,
                            tagNames: Option<seq<string>>): (s: Step<TaskRead>)
    ensures s.reply.BadRequest? <==> NoTagNames(tagNames)
    ensures !s.reply.Ok? ==> s.db == db
    ensures s.reply.Ok? ==> s.reply.value.id == db.nextTaskId && s.reply.value.title == title
  {
    if NoTagNames(tagNames) then Step(db, BadRequest)
    else
      var r := Resolve(db.tags, db.nextTagId, tagNames.value);
      if !r.ok then Step(db, ServerError)
      else
        var id := db.nextTaskId;
        var db' := Db(r.tags, db.tasks[id := NewTask(owner, title, description, status)],
                      db.links + LinksTo(id, r.ids), r.nextTagId, id + 1);
        Step(db', Ok(Read(db', id)))
  }

  /** `update_task`: overwrite title, description and status, and replace the task's whole tag set. */
  ghost function UpdateTask(db: Db, id: TaskId, title: string, description: Option<string>, status: Status,
                            tagNames: Option<seq<string>>): (s: Step<()>)
    ensures s.reply.NotFound? <==> id !in db.tasks
    ensures s.reply.BadRequest? <==> id in db.tasks && NoTagNames(tagNames)
    ensures !s.reply.Ok? ==> s.db == db
  {
    if id !in db.tasks then Step(db, NotFound)
    else if NoTagNames(tagNames) then Step(db, BadRequest)
    else
      var r := Resolve(db.tags, db.nextTagId, tagNames.value);
      if !r.ok then Step(db, ServerError)
      else
        var task := db.tasks[id].(title := title, description := description, status := status);
        Step(Db(r.tags, db.tasks[id := task], Unlinked(db.links, id) + LinksTo(id, r.ids), r.nextTagId, db.nextTaskId),
             Ok(()))
  }

  /** `delete_task`: a soft delete that clears the active flag of any existing task. */
  function DeleteTask(db: Db, id: TaskId): (s: Step<()>)
    ensures s.reply.NotFound? <==> id !in db.tasks
    ensures s.reply.Ok? <==> id in db.tasks
    ensures s.db.tags == db.tags && s.db.links == db.links && s.db.tasks.Keys == db.tasks.Keys
    ensures forall t :: t in db.tasks && t != id ==> s.db.tasks[t] == db.tasks[t]
  {
    if id !in db.tasks then Step(db, NotFound)
    else Step(db.(tasks := db.tasks[id := db.tasks[id].(active := false)]), Ok(()))
  }

  /** The number of tags whose names are among `names` is the number of distinct names. */
  lemma {:induction false} NamedTagCount(tags: map<TagId, string>, names: set<string>)
    requires UniqueNames(tags) && names <= tags.Values
    ensures |set g | g in tags && tags[g] in names| == |names|
    decreases names
  {
    if names != {} {
      var n :| n in names;
      var g :| g in tags && tags[g] == n;
      NamedTagCount(tags, names - {n});
      assert (set h | h in tags && tags[h] in names) == (set h | h in tags && tags[h] in names - {n}) + {g};
    } else {
      assert (set h | h in tags && tags[h] in names) == {};
    }
  }

  /** Replacing a task's rows of the join table changes the tag set of that task only. */
  lemma RelinkedSets(links0: set<Link>, id: TaskId, ids: set<TagId>, links: set<Link>)
    requires links == Unlinked(links0, id) + LinksTo(id, ids)
    ensures TagsOf(links, id) == ids
    ensures forall t :: t != id ==> TagsOf(links, t) == TagsOf(links0, t)
  {
    forall t | t != id ensures TagsOf(links, t) == TagsOf(links0, t) {
      assert forall tag :: Link(t, tag) in links <==> Link(t, tag) in links0;
    }
  }

  /** The tags named by a non-empty list of names that all resolved: as many as distinct names, at least one. */
  lemma NamedTags(tags: map<TagId, string>, names: seq<string>, ids: set<TagId>)
    requires UniqueNames(tags) && names != []
    requires (set n | n in names) <= tags.Values
    requires ids == (set g | g in tags && tags[g] in names)
    ensures ids != {}
    ensures TagNamesIn(tags, ids) == set n | n in names
    ensures |ids| == |set n | n in names|
  {
    assert names[0] in tags.Values;
    var g :| g in tags && tags[g] == names[0];
    assert g in ids;
    forall n | n in names ensures n in TagNamesIn(tags, ids) {
      assert n in tags.Values;
      var h :| h in tags && tags[h] == n;
      assert h in ids;
    }
    var distinct := set n | n in names;
    NamedTagCount(tags, distinct);
    assert (set h | h in tags && tags[h] in distinct) == ids;
  }

  /** The links a create or update leaves a task with. */
  lemma RelinkedTags(db: Db, id: TaskId, names: seq<string>, links: set<Link>, r: Resolution)
    requires TagTable(db.tags, db.nextTagId) && names != []
    requires r == Resolve(db.tags, db.nextTagId, names) && Insertable(db.tags, names)
    requires links == Unlinked(db.links, id) + LinksTo(id, r.ids)
    ensures r.ok
    ensures TagTable(r.tags, r.nextTagId) && Extends(db.tags, db.nextTagId, r.tags, r.nextTagId)
    ensures r.tags.Values == db.tags.Values + (set n | n in names)
    ensures TagsOf(links, id) == r.ids == (set g | g in r.tags && r.tags[g] in names)
    ensures TagsOf(links, id) != {}
    ensures forall t :: t != id ==> TagsOf(links, t) == TagsOf(db.links, t)
    ensures TagNamesIn(r.tags, TagsOf(links, id)) == set n | n in names
    ensures |TagsOf(links, id)| == |set n | n in names|
  {
    ResolveSpec(db.tags, db.nextTagId, names);
    RelinkedSets(db.links, id, r.ids, links);
    NamedTags(r.tags, names, r.ids);
  }

  /** The names of the tags `ids` in `tags`. */
  ghost function TagNamesIn(tags: map<TagId, string>, ids: set<TagId>): set<string>
  {
    set g | g in ids && g in tags :: tags[g]
  }

  /** Relinking a task to the tags its names resolve to keeps the invariant. */
  lemma RelinkedValid(db: Db, id: TaskId, names: seq<string>, r: Resolution, tasks: map<TaskId, Task>, nextTaskId: nat)
    requires Valid(db) && names != []
    requires r == Resolve(db.tags, db.nextTagId, names) && Insertable(db.tags, names)
    requires tasks.Keys == db.tasks.Keys + {id} && TaskTable(tasks, nextTaskId)
    ensures Valid(Db(r.tags, tasks, Unlinked(db.links, id) + LinksTo(id, r.ids), r.nextTagId, nextTaskId))
  {
    var links := Unlinked(db.links, id) + LinksTo(id, r.ids);
    var db' := Db(r.tags, tasks, links, r.nextTagId, nextTaskId);
    RelinkedTags(db, id, names, links, r);
    assert EveryTaskTagged(db') by {
      forall t | t in tasks ensures TagsOf(links, t) != {} {
        if t != id {
          assert TagsOf(links, t) == TagsOf(db.links, t);
        }
      }
    }
    RelinkedLinks(db.links, db.tasks.Keys, db.tags.Keys, id, r.ids, tasks.Keys, r.tags.Keys, links);
  }

  lemma RelinkedLinks(links0: set<Link>, tasks0: set<TaskId>, tags0: set<TagId>, id: TaskId, ids: set<TagId>,
                      tasks: set<TaskId>, tags: set<TagId>, links: set<Link>)
    requires forall l :: l in links0 ==> l.task in tasks0 && l.tag in tags0
    requires tasks0 + {id} <= tasks && tags0 + ids <= tags
    requires links == Unlinked(links0, id) + LinksTo(id, ids)
    ensures forall l :: l in links ==> l.task in tasks && l.tag in tags
  {
  }

  lemma CreateTaskUnfold(db: Db, owner: UserId, title: string, description: Option<string>, status: Status,
                         names: seq<string>, r: Resolution)
    requires names != [] && r == Resolve(db.tags, db.nextTagId, names) && r.ok
    ensures var id := db.nextTaskId;
      var db' := Db(r.tags, db.tasks[id := NewTask(owner, title, description, status)],
                    db.links + LinksTo(id, r.ids), r.nextTagId, id + 1);
      CreateTask(db, owner, title, description, status, Some(names)) == Step(db', Ok(Read(db', id)))
  {
  }

  lemma UpdateTaskUnfold(db: Db, id: TaskId, title: string, description: Option<string>, status: Status,
                         names: seq<string>, r: Resolution)
    requires id in db.tasks && names != [] && r == Resolve(db.tags, db.nextTagId, names) && r.ok
    ensures var task := db.tasks[id].(title := title, description := description, status := status);
      UpdateTask(db, id, title, description, status, Some(names))
        == Step(Db(r.tags, db.tasks[id := task], Unlinked(db.links, id) + LinksTo(id, r.ids), r.nextTagId, db.nextTaskId),
                Ok(()))
  {
  }

  /** Whether a create succeeds: exactly when every missing name fits the column. */
  lemma CreateTaskOutcome(db: Db, owner: UserId, title: string, description: Option<string>, status: Status,
                          names: seq<string>)
    requires TagTable(db.tags, db.nextTagId) && names != []
    ensures var s := CreateTask(db, owner, title, description, status, Some(names));
      && (s.reply.ServerError? <==> !Insertable(db.tags, names))
      && (s.reply.Ok? <==> Insertable(db.tags, names))
  {
    ResolveSpec(db.tags, db.nextTagId, names);
  }

  /** A successful create keeps the invariant. */
  lemma CreateTaskValid(db: Db, owner: UserId, title: string, description: Option<string>, status: Status,
                        names: seq<string>)
    requires Valid(db) && ValidTitle(title) && names != [] && Insertable(db.tags, names)
    ensures Valid(CreateTask(db, owner, title, description, status, Some(names)).db)
  {
    var r := Resolve(db.tags, db.nextTagId, names);
    var id := db.nextTaskId;
    var task := NewTask(owner, title, description, status);
    assert Unlinked(db.links, id) == db.links;
    KeysAfterUpdate(db.tasks, id, task);
    ResolveSpec(db.tags, db.nextTagId, names);
    RelinkedValid(db, id, names, r, db.tasks[id := task], id + 1);
    CreateTaskUnfold(db, owner, title, description, status, names, r);
  }

  /**
   * A successful create inserts an active task owned by the caller under a
   * fresh id, reuses the existing tags, creates one tag per missing name and
   * leaves the tag sets of the other tasks alone.
   */
  lemma CreateTaskSpec(db: Db, owner: UserId, title: string, description: Option<string>, status: Status,
                       names: seq<string>)
    requires Valid(db) && names != [] && Insertable(db.tags, names)
    ensures var s := CreateTask(db, owner, title, description, status, Some(names));
      var id := db.nextTaskId;
      && s.reply.Ok? && s.reply.value.id == id
      && id !in db.tasks
      && s.db.tasks == db.tasks[id := Task(owner, title, description, status, true)]
      && Extends(db.tags, db.nextTagId, s.db.tags, s.db.nextTagId)
      && s.db.tags.Values == db.tags.Values + (set n | n in names)
      && (forall t :: t in db.tasks ==> TagsOf(s.db.links, t) == TagsOf(db.links, t))
  {
    var r := Resolve(db.tags, db.nextTagId, names);
    var id := db.nextTaskId;
    assert Unlinked(db.links, id) == db.links;
    ResolveSpec(db.tags, db.nextTagId, names);
    RelinkedSets(db.links, id, r.ids, db.links + LinksTo(id, r.ids));
    CreateTaskUnfold(db, owner, title, description, status, names, r);
  }

  /**
   * The new task's tags are exactly the tags named, their names are the
   * names given without repeats, and `tag_count` is the number of distinct
   * names.
   */
  lemma CreateTaskTags(db: Db, owner: UserId, title: string, description: Option<string>, status: Status,
                       names: seq<string>)
    requires Valid(db) && names != [] && Insertable(db.tags, names)
    ensures var s := CreateTask(db, owner, title, description, status, Some(names));
      var id := db.nextTaskId;
      && s.reply.Ok? && s.reply.value.id == id
      && TagsOf(s.db.links, id) == (set g | g in s.db.tags && s.db.tags[g] in names)
      && TagNames(s.db, id) == (set n | n in names)
      && s.reply.value.tagCount == |set n | n in names|
  {
    var r := Resolve(db.tags, db.nextTagId, names);
    var id := db.nextTaskId;
    var links := db.links + LinksTo(id, r.ids);
    assert Unlinked(db.links, id) == db.links;
    RelinkedTags(db, id, names, links, r);
    CreateTaskUnfold(db, owner, title, description, status, names, r);
    var db' := Db(r.tags, db.tasks[id := NewTask(owner, title, description, status)], links, r.nextTagId, id + 1);
    assert TagNames(db', id) == TagNamesIn(r.tags, TagsOf(links, id));
  }

  /** Whether an update of an existing task succeeds: exactly when every missing name fits. */
  lemma UpdateTaskOutcome(db: Db, id: TaskId, title: string, description: Option<string>, status: Status,
                          names: seq<string>)
    requires TagTable(db.tags, db.nextTagId) && id in db.tasks && names != []
    ensures var s := UpdateTask(db, id, title, description, status, Some(names));
      && (s.reply.ServerError? <==> !Insertable(db.tags, names))
      && (s.reply.Ok? <==> Insertable(db.tags, names))
  {
    ResolveSpec(db.tags, db.nextTagId, names);
  }

  /** A successful update keeps the invariant. */
  lemma UpdateTaskValid(db: Db, id: TaskId, title: string, description: Option<string>, status: Status,
                        names: seq<string>)
    requires Valid(db) && ValidTitle(title) && id in db.tasks && names != [] && Insertable(db.tags, names)
    ensures Valid(UpdateTask(db, id, title, description, status, Some(names)).db)
  {
    var r := Resolve(db.tags, db.nextTagId, names);
    var task := db.tasks[id].(title := title, description := description, status := status);
    KeysAfterUpdate(db.tasks, id, task);
    ResolveSpec(db.tags, db.nextTagId, names);
    RelinkedValid(db, id, names, r, db.tasks[id := task], db.nextTaskId);
    UpdateTaskUnfold(db, id, title, description, status, names, r);
  }

  /**
   * A successful update overwrites title, description and status, keeps owner
   * and active flag (inactive tasks are updated too), and leaves every other
   * task and its tag set alone.
   */
  lemma UpdateTaskSpec(db: Db, id: TaskId, title: string, description: Option<string>, status: Status,
                       names: seq<string>)
    requires Valid(db) && id in db.tasks && names != [] && Insertable(db.tags, names)
    ensures var s := UpdateTask(db, id, title, description, status, Some(names));
      && s.reply.Ok?
      && s.db.tasks.Keys == db.tasks.Keys
      && s.db.tasks[id] == Task(db.tasks[id].owner, title, description, status, db.tasks[id].active)
      && (forall t :: t in db.tasks && t != id ==> s.db.tasks[t] == db.tasks[t])
      && Extends(db.tags, db.nextTagId, s.db.tags, s.db.nextTagId)
      && s.db.tags.Values == db.tags.Values + (set n | n in names)
      && (forall t :: t != id ==> TagsOf(s.db.links, t) == TagsOf(db.links, t))
  {
    var r := Resolve(db.tags, db.nextTagId, names);
    var task := db.tasks[id].(title := title, description := description, status := status);
    ResolveSpec(db.tags, db.nextTagId, names);
    RelinkedSets(db.links, id, r.ids, Unlinked(db.links, id) + LinksTo(id, r.ids));
    KeysAfterUpdate(db.tasks, id, task);
    UpdateTaskUnfold(db, id, title, description, status, names, r);
  }

  /**
   * The update replaces the task's whole tag set by exactly the tags named:
   * the names it ends up with are the names given, so {a, b} updated with
   * [b, c] becomes {b, c}.
   */
  lemma UpdateTaskTags(db: Db, id: TaskId, title: string, description: Option<string>, status: Status,
                       names: seq<string>)
    requires Valid(db) && id in db.tasks && names != [] && Insertable(db.tags, names)
    ensures var s := UpdateTask(db, id, title, description, status, Some(names));
      && s.reply.Ok?
      && TagsOf(s.db.links, id) == (set g | g in s.db.tags && s.db.tags[g] in names)
      && TagNames(s.db, id) == (set n | n in names)
  {
    var r := Resolve(db.tags, db.nextTagId, names);
    var task := db.tasks[id].(title := title, description := description, status := status);
    var links := Unlinked(db.links, id) + LinksTo(id, r.ids);
    RelinkedTags(db, id, names, links, r);
    UpdateTaskUnfold(db, id, title, description, status, names, r);
    var db' := Db(r.tags, db.tasks[id := task], links, r.nextTagId, db.nextTaskId);
    assert TagNames(db', id) == TagNamesIn(r.tags, TagsOf(links, id));
  }

  /**
   * A soft delete keeps the invariant, the tag links and every other field;
   * the task drops out of every listing, and deleting it again succeeds.
   */
  lemma DeleteTaskSpec(db: Db, id: TaskId, names: seq<string>)
    requires Valid(db) && id in db.tasks
    ensures var s := DeleteTask(db, id);
      && Valid(s.db)
      && s.db.tasks[id] == db.tasks[id].(active := false)
      && id !in Matching(s.db, names)
      && DeleteTask(s.db, id) == s
  {
    var s := DeleteTask(db, id);
    assert forall t :: t in s.db.tasks ==> s.db.tasks[t].title == db.tasks[t].title;
  }

  lemma KeysAfterUpdate(m: map<TaskId, Task>, k: TaskId, v: Task)
    ensures m[k := v].Keys == m.Keys + {k}
  {
  }
}
