# ToDo-FastAPI: tasks, tags and the links between them

This project models the association core of a small to-do service. In the
service, tasks belong to users. Every task carries at least one tag, and tags
are shared, uniquely named labels.

The service keeps three tables: `tags`, `tasks` and the join table
`task_tags`. Nine request handlers work on them:

- `get_tasks` lists the active tasks, optionally filtered by a comma-separated
  list of tag names, and reports each task's tag count.
- `create_task` and `update_task` take a list of tag names. They look each name
  up, create the tag when it is missing, and link the task to the resulting
  tags. An update replaces the task's whole tag set.
- `delete_task` is a soft delete: it only clears the task's active flag.
- `get_tags`, `get_tag`, `create_tag`, `update_tag` and `delete_tag` manage the
  tags. A tag is refused deletion while any task, active or not, links it.

The model has six modules:

- `Models` (`models.dfy`) holds the records and the database as one value `Db`,
  together with the invariant `Valid`. The invariant says:
  - tag names are unique and fit `VARCHAR(50)`;
  - titles have 3 to 75 characters;
  - every join row names an existing task and tag;
  - every task has at least one tag;
  - ids lie below the sequences that issue them.
- `Filter` (`filter.dfy`) is the query-string tokenizer: `str.split(',')`, then
  `str.strip()` with Python's whitespace set, dropping empty pieces.
- `TaskRoutes` (`task_routes.dfy`) and `TagRoutes` (`tag_routes.dfy`) state
  each handler as a function. It maps the database before the request to the
  database after it and the reply (`Ok`, 404 `NotFound`, 400 `BadRequest`,
  500 `ServerError`). Lemmas beside each function state what the handler
  promises.
- `Store` (`store.dfy`) is the database as a class with one field per table.
  Each handler is a method with the handler's loops. Each method is proved to
  leave the fields exactly where the handler function says, and to keep
  `Valid`.
- `Scenarios` (`scenarios.dfy`) relates several requests to each other.

Each handler runs in one transaction, so a request that fails leaves the
database unchanged.

Two behaviours of the code differ from what its design describes:

- **Names are not checked on the task routes.** The design treats every tag
  name as 1 to 50 characters. The task routes do not check the names in
  `tag_names`, so a missing name longer than 50 characters reaches the
  database. PostgreSQL refuses it, and the whole request fails with a 500 and
  is rolled back (`TaskRoutes.CreateTaskOutcome`).
- **An empty name breaks the tag listings.** An empty name is stored as a tag.
  After that, `get_tags` fails with a 500, and so does `get_tag` for that tag,
  because each row is validated against the tag response schema
  (`Scenarios.EmptyTagNameBreaksListing`).

The model follows the code in both cases.

## Model

| member | source | states |
|---|---|---|
| Models.TagsOf | models/task.py:27 | A tag is in a task's tag set exactly when `task_tags` holds the pair. |
| Models.TasksOf | models/tag.py:23 | A task is in a tag's task set exactly when `task_tags` holds the pair. |
| Models.BackPopulates | models/tag.py:23 | `Tag.tasks` is the inverse of `Task.tags`: t is in g.tasks iff g is in t.tags. |
| Filter.SplitCommaFree | routes/task.py:22 | No piece of `split(',')` contains a comma. |
| Filter.JoinSplit | routes/task.py:22 | Joining the pieces of `split(',')` with commas gives the string back. |
| Filter.SplitJoin | routes/task.py:22 | Splitting the comma-join of comma-free pieces gives the pieces back. |
| Filter.TrimStartSpec | routes/task.py:22 | `lstrip` removes a leading run of whitespace and stops at the first other character; what is left is a suffix. |
| Filter.TrimEndSpec | routes/task.py:22 | `rstrip` removes a trailing run of whitespace and stops at the last other character; what is left is a prefix. |
| Filter.StripSpec | routes/task.py:22 | `strip` leaves no whitespace at either end. It yields nothing exactly for an all-whitespace string and keeps a stripped string unchanged. |
| Filter.StripKeepsChars | routes/task.py:22 | Stripping only removes characters, so a comma-free piece strips to a comma-free token. |
| Filter.TokenizeTokens | routes/task.py:22 | Every name a filter yields is non-empty, comma-free and stripped. |
| Filter.TokenizeJoin | routes/task.py:22 | Tokenizing the comma-join of well-formed names gives back those names, in order. |
| Filter.NoTokens | routes/task.py:20-24 | A filter yields no name exactly when it holds only commas and whitespace. |
| TaskRoutes.Matching | routes/task.py:18-28 | A task is listed iff it is active and either no names are given or one of its linked tags has a name in the list. Each task appears once. |
| TaskRoutes.BlankFilterListsActive | routes/task.py:18-24 | Three filters list exactly the active tasks: a missing filter, an empty one, and one of only commas and whitespace. |
| TaskRoutes.FilterWithNames | routes/task.py:20-26 | A filter with any other character asks for at least one well-formed name, so the join filter applies. |
| TaskRoutes.FilterIsUnion | routes/task.py:25-26 | Filtering by names a + b lists the union of the listings for a and for b (OR, not AND). |
| TaskRoutes.ListedByOwnTags | routes/task.py:18-28 | Under the invariant, a task is listed iff it is active and the names of its tags meet the filter's names. |
| TaskRoutes.ReadTagCount | routes/task.py:31-34 | `tag_count` is the number of the task's distinct tag names, all of them and not only the matched ones, and it is at least 1. |
| TaskRoutes.TagNamed | routes/task.py:59 | The lookup by exact name finds a tag carrying that name. |
| TaskRoutes.ResolveSpec | routes/task.py:57-65 | Resolving the names succeeds iff every missing name fits the column. On success it keeps every existing tag, adds exactly the missing names (once each, however often repeated) at fresh ids, keeps names unique, and collects exactly the tags the names denote. |
| TaskRoutes.NamedTagCount | models/tag.py:19 | With unique names, the tags carrying a set of existing names are exactly as many as the names. |
| TaskRoutes.RelinkedSets | routes/task.py:107-117 | Clearing a task's links and adding links to given tags gives that task exactly those tags, and no other task's tag set changes. |
| TaskRoutes.CreateTask | routes/task.py:39-76 | 400 iff `tag_names` is missing or empty. Any failure leaves the database unchanged. On success the reply carries the new id and the title. |
| TaskRoutes.CreateTaskOutcome | routes/task.py:57-70 | Given names, the create returns 500 iff some name that is not a tag is longer than 50 characters; otherwise it succeeds (strings without U+0000, see Left out). |
| TaskRoutes.CreateTaskValid | routes/task.py:49-70 | A successful create keeps the invariant, including unique tag names and every task being tagged. |
| TaskRoutes.CreateTaskSpec | routes/task.py:49-70 | A successful create inserts an active task owned by the caller under a fresh id. It reuses existing tags, adds the missing names, and leaves the tag sets of the other tasks alone. |
| TaskRoutes.CreateTaskTags | routes/task.py:57-74 | The new task's tags are exactly the tags named. Their names are the given names without repeats, and `tag_count` is the number of distinct names. |
| TaskRoutes.UpdateTask | routes/task.py:79-123 | 404 iff the id is unknown; otherwise 400 iff `tag_names` is missing or empty (404 is checked first). Any failure leaves the database unchanged. |
| TaskRoutes.UpdateTaskOutcome | routes/task.py:110-119 | For a known task with names, the update returns 500 iff some missing name is longer than 50 characters (strings without U+0000). |
| TaskRoutes.UpdateTaskValid | routes/task.py:99-119 | A successful update keeps the invariant. |
| TaskRoutes.UpdateTaskSpec | routes/task.py:99-117 | A successful update overwrites title, description and status, keeps owner and active flag (inactive tasks included), and changes no other task or its tags. |
| TaskRoutes.UpdateTaskTags | routes/task.py:107-117 | The task's tag set is replaced by exactly the tags named, so its tag names become the given names: {a, b} updated with [b, c] becomes {b, c}. |
| TaskRoutes.DeleteTask | routes/task.py:126-146 | 404 iff the id is unknown. Only that task's row can change, and tags, links and task ids stay. |
| TaskRoutes.DeleteTaskSpec | routes/task.py:129-142 | A soft delete keeps the invariant and only clears the active flag. The task leaves every listing, and deleting it again succeeds with the same result. |
| TagRoutes.TagReads | routes/tag.py:13-14 | The listing entries are exactly the (id, name) pairs of the tags table. |
| TagRoutes.GetTags | routes/tag.py:11-14 | 500 iff some stored name fails the 1 to 50 character response schema; otherwise the listing. |
| TagRoutes.GetTagsLists | routes/tag.py:13-14 | A successful listing holds every tag, one entry per tag. |
| TagRoutes.GetTag | routes/tag.py:19-31 | 404 iff the id is unknown, 500 iff its name fails the response schema, Ok otherwise, with the tag's id, name and the number of its linked tasks. |
| TagRoutes.TaskCountCountsTasks | routes/tag.py:28-29 | `task_count` is the number of tasks whose tag set holds the tag, soft-deleted ones included. |
| TagRoutes.CreateTag | routes/tag.py:37-50 | 400 iff the name is already taken; a refusal changes nothing. |
| TagRoutes.CreateTagSpec | routes/tag.py:45-48 | A successful create adds exactly one tag under an unused id, the only tag with that name. Nothing else changes and the invariant holds. |
| TagRoutes.CreateTagTwice | routes/tag.py:37-43 | Creating the same name a second time is refused with 400 and changes nothing. |
| TagRoutes.UpdateTag | routes/tag.py:56-74 | 404 iff the id is unknown, then 400 iff another tag has the name; a refusal changes nothing. |
| TagRoutes.UpdateTagSpec | routes/tag.py:74-75 | A successful rename changes only that tag's name. Ids, other names, tasks and links stay, and the invariant holds. |
| TagRoutes.RenameToOwnName | routes/tag.py:65 | Renaming a tag to its own current name is accepted and changes nothing. |
| TagRoutes.RenameToTakenName | routes/tag.py:65-71 | Renaming to another tag's name is refused with 400 and both tags keep their names. |
| TagRoutes.DeleteTag | routes/tag.py:84-101 | 404 iff the id is unknown, then 400 iff some task (active or not) links the tag, Ok iff the tag exists and no task links it; a refusal changes nothing. |
| TagRoutes.DeleteTagSpec | routes/tag.py:99-101 | Deleting an unlinked tag removes exactly that tag. No task loses a tag, and the invariant holds. |
| Store.Store.GetTasks | routes/task.py:28-36 | The loop builds one response per listed task, keyed by id, each with the task's fields and whole tag count. |
| Store.Store.ResolveNames | routes/task.py:57-65 | The loop over `tag_names` computes exactly the resolution of the names and writes nothing. |
| Store.Store.FailureSticks | routes/task.py:62-63 | Once an insert has failed, the names after it do not change the outcome. |
| Store.Store.CreateTask | routes/task.py:39-76 | The method leaves the tables and reply exactly as `TaskRoutes.CreateTask` says and keeps the invariant. |
| Store.Store.UpdateTask | routes/task.py:79-123 | The method leaves the tables and reply exactly as `TaskRoutes.UpdateTask` says and keeps the invariant. |
| Store.Store.DeleteTask | routes/task.py:126-146 | The method leaves the tables and reply exactly as `TaskRoutes.DeleteTask` says and keeps the invariant. |
| Store.Store.CreateTag | routes/tag.py:34-50 | The method leaves the tables and reply exactly as `TagRoutes.CreateTag` says and keeps the invariant. |
| Store.Store.UpdateTag | routes/tag.py:53-79 | The method leaves the tables and reply exactly as `TagRoutes.UpdateTag` says and keeps the invariant. |
| Store.Store.DeleteTag | routes/tag.py:82-105 | The method leaves the tables and reply exactly as `TagRoutes.DeleteTag` says and keeps the invariant. |
| Scenarios.SoftDeletedTaskStillBlocks | routes/tag.py:93-97 | After a task is soft-deleted, its tags keep their task count and still cannot be deleted. |
| Scenarios.UpdateFreesTag | routes/task.py:107-117 | Suppose only one task carries a tag. Updating that task with names that omit the tag's name makes the tag deletable. |
| Scenarios.EmptyTagNameBreaksListing | routes/task.py:57-65 | Creating a task with the empty tag name succeeds, and the tag listing then fails with 500. |
| Scenarios.SampleDeletedTaskBlocks | routes/tag.py:93-97 | On the sample, after task 0 is soft-deleted, deleting its tag `urgent` is still refused with 400. |
| Scenarios.SampleListsAny | routes/task.py:22-26 | On a three-task sample, `urgent,home` lists all three tasks, including those carrying only one of the names. |
| Scenarios.SampleListsMatching | routes/task.py:22-34 | On the sample, `urgent` lists exactly the two tasks carrying it. The task with both tags reports a `tag_count` of 2. |

## Left out

- HTTP, JSON payloads, response messages and timestamps (`created_at`) are not modelled.
- JWT checking is not modelled. The caller's id from the token payload is the `owner` parameter of `CreateTask`, and every other handler is treated as authorised.
- Request schema validation is not modelled as a reply. Titles of 3 to 75 characters and tag names of 1 to 50 characters on the tag routes are preconditions of the `Store` methods, and the 422 reply for other input is left out.
- The status value is stored as given. The code stores the enumeration's value on create (routes/task.py:53) and the member itself on update (routes/task.py:102); that difference is not modelled.
- Defaults: the column default for `status` is not modelled, because the request schema always supplies a status. The `is_active` default of 1 is modelled: a new task is active.
- Strings holding the character U+0000 are not modelled. The psycopg2 driver refuses such a string parameter, so on every route a name, title, description or filter that holds it ends the request with a 500 and writes nothing. The model treats U+0000 as an ordinary character. The members below state their replies for strings without it:
- TaskRoutes.CreateTaskOutcome: "500 iff some missing name is longer than 50 characters" holds only when none of the names, the title or the description holds U+0000.
- TaskRoutes.UpdateTaskOutcome: the same restriction as for `CreateTaskOutcome`.
- TagRoutes.CreateTag: a name holding U+0000 gets a 500 from the driver, while the model answers 400 or Ok.
- TagRoutes.UpdateTag: a name holding U+0000 gets a 500 from the driver, while the model answers 400 or Ok.
- Store.Store.GetTasks: a filter holding U+0000 gets a 500 from the driver, while the model lists the matching tasks.
- Negative path ids are not modelled. The routes take any integer id, and a negative one always gets 404. Ids are `nat` in the model (`TagId`, `TaskId`), so such a request cannot be written.
- `user_id` is an opaque integer. Its foreign key to `users` is not checked.
- Ids come from two counters standing in for the PostgreSQL sequences. Fresh ids are the counter values, not arbitrary unused ids.
- Store.Store.CreateTask: a failed request leaves the tag counter where it was. PostgreSQL does not roll back sequence values a failed insert consumed; ids stay unique either way. The same holds for Store.Store.UpdateTask.
- Over-long names: PostgreSQL silently truncates a name longer than 50 characters whose excess is all spaces. The model treats every missing name longer than 50 characters as refused with a 500.
- Repeated names in `tag_names`: the ORM appends the same tag to the task's list twice, but `task_tags` is modelled as a set of pairs. Whether the second row insert fails on the composite key is not modelled; the model links the tag once.
- Listings are sets (`GetTags`) or maps keyed by id (`GetTasks`). Row order is not modelled.
- Concurrency is not modelled: each request is one atomic step. Races between concurrent requests on the unique name constraint are left out.
- `get_tags` and `get_tag` change nothing. They are functions of the database state rather than `Store` methods.
- Engine, session and database creation, configuration loading and application wiring are I/O and are left out.
