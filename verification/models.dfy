/**
 * The records of models/tag.py and models/task.py, and the relational store
 * they are kept in: the `tags` and `tasks` tables and the `task_tags` join
 * table, with the constraints the schema declares on them.
 */
module Models {

  datatype Option<+T> = None | Some(value: T)

  /** How a handler answers: its result, 404, 400, or 500 when the database refuses a row. */
  datatype Reply<+T> = Ok(value: T) | NotFound | BadRequest | ServerError

  /** The database after a request, with the reply to it. */
  datatype Step<+T> = Step(db: Db, reply: Reply<T>)

  /** Primary keys are integer columns filled by a database sequence. */
  type TagId = nat
  type TaskId = nat

  /** The owning user is only ever seen as the id the JWT payload carries. */
  type UserId = int

  /** `String(50)` on `Tag.name`. */
  const MaxTagName: nat := 50
  /** `String(75)` on `Task.title`; the request schema also asks for at least 3 characters. */
  const MinTitle: nat := 3
  const MaxTitle: nat := 75

  /** The `Status` enumeration: `pending` or `completed`. */
  datatype Status = Pending | Completed

  /** A row of `tasks`, without its id (the key of the table) and its timestamp. */
  datatype Task = Task(
    owner: UserId,
    title: string,
    description: Option<string>,
    status: Status,
    active: bool)

  /** A row of `task_tags`: task `task` is labelled with tag `tag`. */
  datatype Link = Link(task: TaskId, tag: TagId)

  /**
   * The database: `tags` maps an id to the tag's name, `tasks` maps an id to
   * the task's row, `links` is the join table.  Being a set, `links` holds no
   * pair twice, which is what the composite primary key of `task_tags`
   * guarantees.  `nextTagId` and `nextTaskId` are the two id sequences.
   */
  datatype Db = Db(
    tags: map<TagId, string>,
    tasks: map<TaskId, Task>,
    links: set<Link>,
    nextTagId: nat,
    nextTaskId: nat)

  /** A task as it is inserted: active, with the given fields. */
  function NewTask(owner: UserId, title: string, description: Option<string>, status: Status): Task
  {
    Task(owner, title, description, status, true)
  }

  /** `Task.tags`: the tags a task is linked to through `task_tags`. */
  function TagsOf(links: set<Link>, task: TaskId): (tags: set<TagId>)
    ensures forall tag :: tag in tags <==> Link(task, tag) in links
  {
    set l | l in links && l.task == task :: l.tag
  }

  /** `Tag.tasks`: the tasks a tag is linked to through the same table. */
  function TasksOf(links: set<Link>, tag: TagId): (tasks: set<TaskId>)
    ensures forall task :: task in tasks <==> Link(task, tag) in links
  {
    set l | l in links && l.tag == tag :: l.task
  }

  /** The two relationships are each other's inverse (`back_populates`). */
  lemma BackPopulates(links: set<Link>, task: TaskId, tag: TagId)
    ensures tag in TagsOf(links, task) <==> task in TasksOf(links, tag)
  {
  }

  /** The `unique=True` constraint on `Tag.name`. */
  ghost predicate UniqueNames(tags: map<TagId, string>)
  {
    forall a, b :: a in tags && b in tags && tags[a] == tags[b] ==> a == b
  }

  /** A tag name as the request schema admits it: 1 to 50 characters. */
  predicate ValidTagName(name: string)
  {
    1 <= |name| <= MaxTagName
  }

  /** A title as the request schema admits it: 3 to 75 characters. */
  predicate ValidTitle(title: string)
  {
    MinTitle <= |title| <= MaxTitle
  }

  /** The `tags` table: unique names that fit the column, ids below the sequence. */
  ghost predicate TagTable(tags: map<TagId, string>, nextTagId: nat)
  {
    && UniqueNames(tags)
    && (forall id :: id in tags ==> |tags[id]| <= MaxTagName && id < nextTagId)
  }

  /** The `tasks` table: titles as the schema admits them, ids below the sequence. */
  ghost predicate TaskTable(tasks: map<TaskId, Task>, nextTaskId: nat)
  {
    forall id :: id in tasks ==> ValidTitle(tasks[id].title) && id < nextTaskId
  }

  /** The foreign keys of `task_tags`: every row names an existing task and tag. */
  ghost predicate LinksWellFormed(db: Db)
  {
    forall l :: l in db.links ==> l.task in db.tasks && l.tag in db.tags
  }

  /** The rule the task routes maintain: every task has at least one tag. */
  ghost predicate EveryTaskTagged(db: Db)
  {
    forall id :: id in db.tasks ==> TagsOf(db.links, id) != {}
  }

  /** What holds of the database between requests. */
  ghost predicate Valid(db: Db)
  {
    && TagTable(db.tags, db.nextTagId)
    && TaskTable(db.tasks, db.nextTaskId)
    && LinksWellFormed(db)
    && EveryTaskTagged(db)
  }
}
