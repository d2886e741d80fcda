/**
 * The database as one mutable object, with one method per request handler.
 * Every method runs its handler as a single atomic step and is proved to take
 * the store exactly where the corresponding function of `TaskRoutes` or
 * `TagRoutes` says, keeping the invariant.
 */
module Store {
  import opened Models
  import TaskRoutes
  import TagRoutes

  class Store {
    var tags: map<TagId, string>
    var tasks: map<TaskId, Task>
    var links: set<Link>
    var nextTagId: nat
    var nextTaskId: nat

    /** The tables as a value. */
    function State(): Db
      reads this
    {
      Db(tags, tasks, links, nextTagId, nextTaskId)
    }

    ghost predicate Valid()
      reads this
    {
      Models.Valid(State())
    }

    /** An empty database, both sequences at their start. */
    constructor ()
      ensures State() == Db(map[], map[], {}, 0, 0)
      ensures Valid()
    {
      tags, tasks, links := map[], map[], {};
      nextTagId, nextTaskId := 0, 0;
    }

    /** Write the tables of `db` back: the commit that ends a successful request. */
    method Commit(db: Db)
      modifies this
      ensures State() == db
    {
      tags, tasks, links, nextTagId, nextTaskId := db.tags, db.tasks, db.links, db.nextTagId, db.nextTaskId;
    }

    /** `get_tasks`: run the listing query, then build one response per task with its tag count. */
    method GetTasks(filter: Option<string>) returns (responses: map<TaskId, TaskRoutes.TaskRead>)
      ensures responses.Keys == TaskRoutes.Matching(State(), TaskRoutes.FilterTokens(filter))
      ensures forall id :: id in responses ==> responses[id] == TaskRoutes.Read(State(), id)
    {
      var found := TaskRoutes.Matching(State(), TaskRoutes.FilterTokens(filter));
      var remaining := found;
      responses := map[];
      while remaining != {}
        invariant remaining <= found
        invariant responses.Keys == found - remaining
        invariant forall id :: id in responses ==> id in tasks && responses[id] == TaskRoutes.Read(State(), id)
        decreases |remaining|
      {
        var id :| id in remaining;
        responses := responses[id := TaskRoutes.Read(State(), id)];
        remaining := remaining - {id};
      }
    }

    /**
     * The loop over `tag_names` shared by `create_task` and `update_task`:
     * look each name up, insert a tag when it is missing, and stop at the
     * first insert the `tags` table refuses.  Nothing is written to the store.
     */
    method ResolveNames(names: seq<string>) returns (r: TaskRoutes.Resolution)
      requires TagTable(tags, nextTagId)
      ensures r == TaskRoutes.Resolve(tags, nextTagId, names)
    {
      var pending, next, ids := tags, nextTagId, {};
      var i := 0;
      while i < |names|
        invariant 0 <= i <= |names|
        invariant TaskRoutes.Resolve(tags, nextTagId, names[..i]) == TaskRoutes.Resolution(pending, next, ids, true)
      {
        var name := names[i];
        assert names[..i + 1][..i] == names[..i] && names[..i + 1][i] == name;
        TaskRoutes.ResolveSpec(tags, nextTagId, names[..i]);
        if name in pending.Values {
          var g :| g in pending && pending[g] == name;
          ids := ids + {g};
        } else if |name| > MaxTagName {
          r := TaskRoutes.Resolution(pending, next, ids, false);
          FailureSticks(names, i + 1);
          return;
        } else {
          pending := pending[next := name];
          ids := ids + {next};
          next := next + 1;
        }
        i := i + 1;
      }
      assert names[..i] == names;
      r := TaskRoutes.Resolution(pending, next, ids, true);
    }

    /** Once a name has failed, the names after it are not looked at. */
    lemma {:induction false} FailureSticks(names: seq<string>, k: nat)
      requires k <= |names| && !TaskRoutes.Resolve(tags, nextTagId, names[..k]).ok
      ensures TaskRoutes.Resolve(tags, nextTagId, names) == TaskRoutes.Resolve(tags, nextTagId, names[..k])
      decreases |names| - k
    {
      if k < |names| {
        assert names[..k + 1][..k] == names[..k];
        FailureSticks(names, k + 1);
      } else {
        assert names[..k] == names;
      }
    }

    /** `create_task`, with the caller's id taken from the verified token. */
    method CreateTask(owner: UserId, title: string, description: Option<string>, status: Status,
                      tagNames: Option<seq<string>>) returns (reply: Reply<TaskRoutes.TaskRead>)
      requires Valid() && ValidTitle(title)
      modifies this
      ensures Valid()
      ensures Step(State(), reply) == TaskRoutes.CreateTask(old(State()), owner, title, description, status, tagNames)
    {
      if tagNames.None? || |tagNames.value| == 0 {
        return BadRequest;
      }
      var names := tagNames.value;
      var r := ResolveNames(names);
      if !r.ok {
        return ServerError;
      }
      var db := State();
      TaskRoutes.ResolveOk(db.tags, db.nextTagId, names);
      TaskRoutes.CreateTaskValid(db, owner, title, description, status, names);
      TaskRoutes.CreateTaskUnfold(db, owner, title, description, status, names, r);
      var id := nextTaskId;
      Commit(Db(r.tags, tasks[id := NewTask(owner, title, description, status)],
                links + TaskRoutes.LinksTo(id, r.ids), r.nextTagId, id + 1));
      reply := Ok(TaskRoutes.Read(State(), id));
    }

    /** `update_task`: overwrite the fields, clear the task's tags and refill them from the names. */
    method UpdateTask(id: TaskId, title: string, description: Option<string>, status: Status,
                      tagNames: Option<seq<string>>) returns (reply: Reply<()>)
      requires Valid() && ValidTitle(title)
      modifies this
      ensures Valid()
      ensures Step(State(), reply) == TaskRoutes.UpdateTask(old(State()), id, title, description, status, tagNames)
    {
      if id !in tasks {
        return NotFound;
      }
      if tagNames.None? || |tagNames.value| == 0 {
        return BadRequest;
      }
      var names := tagNames.value;
      var r := ResolveNames(names);
      if !r.ok {
        return ServerError;
      }
      var db := State();
      TaskRoutes.ResolveOk(db.tags, db.nextTagId, names);
      TaskRoutes.UpdateTaskValid(db, id, title, description, status, names);
      TaskRoutes.UpdateTaskUnfold(db, id, title, description, status, names, r);
      Commit(Db(r.tags, tasks[id := tasks[id].(title := title, description := description, status := status)],
                TaskRoutes.Unlinked(links, id) + TaskRoutes.LinksTo(id, r.ids), r.nextTagId, nextTaskId));
      reply := Ok(());
    }

    /** `delete_task`: clear the active flag of the task, whether or not it is already clear. */
    method DeleteTask(id: TaskId) returns (reply: Reply<()>)
      requires Valid()
      modifies this
      ensures Valid()
      ensures Step(State(), reply) == TaskRoutes.DeleteTask(old(State()), id)
    {
      if id !in tasks {
        return NotFound;
      }
      TaskRoutes.DeleteTaskSpec(State(), id, []);
      tasks := tasks[id := tasks[id].(active := false)];
      reply := Ok(());
    }

    /** `create_tag`, for a name the request schema admits. */
    method CreateTag(name: string) returns (reply: Reply<TagRoutes.TagRead>)
      requires Valid() && ValidTagName(name)
      modifies this
      ensures Valid()
      ensures Step(State(), reply) == TagRoutes.CreateTag(old(State()), name)
    {
      if name in tags.Values {
        return BadRequest;
      }
      TagRoutes.CreateTagSpec(State(), name);
      var id := nextTagId;
      tags := tags[id := name];
      nextTagId := id + 1;
      reply := Ok(TagRoutes.TagRead(id, name));
    }

    /** `update_tag`, for a name the request schema admits. */
    method UpdateTag(id: TagId, name: string) returns (reply: Reply<()>)
      requires Valid() && ValidTagName(name)
      modifies this
      ensures Valid()
      ensures Step(State(), reply) == TagRoutes.UpdateTag(old(State()), id, name)
    {
      if id !in tags {
        return NotFound;
      }
      if TagRoutes.NameTakenElsewhere(tags, id, name) {
        return BadRequest;
      }
      TagRoutes.UpdateTagSpec(State(), id, name);
      tags := tags[id := name];
      reply := Ok(());
    }

    /** `delete_tag`: refuse while any task links the tag, otherwise remove it. */
    method DeleteTag(id: TagId) returns (reply: Reply<()>)
      requires Valid()
      modifies this
      ensures Valid()
      ensures Step(State(), reply) == TagRoutes.DeleteTag(old(State()), id)
    {
      if id !in tags {
        return NotFound;
      }
      if TasksOf(links, id) != {} {
        return BadRequest;
      }
      TagRoutes.DeleteTagSpec(State(), id);
      tags := tags - {id};
      reply := Ok(());
    }
  }
}
