# Task store and request validators, modelled in Dafny

This project models the two pieces of logic in a small task-tracking REST
service:

- **The in-memory task store** (`InMemoryDatabase`). It keeps a list of
  task records and offers `create`, `findAll` (status filter, case-insensitive
  search, newest-first sort, paging), `findById`, `updateById`, `deleteById`,
  `count` and `clear`.
- **The request validators.** These are the create-body, update-body and
  list-query schemas, plus the `validateRequest` middleware. The middleware
  checks the query of a GET request and the body of any other request. On
  failure it replies 400 with every issue rendered as `path: message`, joined
  by `", "`.

The store is an immutable `Store(tasks: seq<Task>)`. Each operation that
changes the list returns the new store beside its own result. `findAll`
returns only a page, never a store, so the store cannot change while it is
listed; the source sorts and slices a shallow copy of its array, which
leaves the array itself untouched. The validators
are pure parsers. Each returns `Pass(value)` or `Fail(issues)`, and a failure
always carries at least one issue.

Modules, leaves first:

| file | module | models |
|---|---|---|
| `common.dfy` | `Common` | `Option`: `None` is an absent JavaScript field |
| `text.dfy` | `Text` | ASCII `toLowerCase`, `String.prototype.includes`, `Array.prototype.join` |
| `task.dfy` | `TaskModel` | `TaskStatus`, the task record, `Partial<Task>`, the `{...task, ...updates, updatedAt}` merge |
| `ordering.dfy` | `Ordering` | the stable newest-first sort |
| `paging.dfy` | `Paging` | `Array.prototype.slice`, the page window, `Math.ceil(total / limit)` |
| `database.dfy` | `Database` | `InMemoryDatabase` and the properties of its operations |
| `issues.dfy` | `Issues` | a zod issue and the `path: message` error text |
| `validation.dfy` | `Validation` | the three schemas and `validateRequest` |
| `pipeline.dfy` | `Pipeline` | validators feeding the store |

Parameters stand in for the parts of the source that are nondeterministic.
The task a caller hands to `create` already carries its id and timestamps.
`updateById` takes the current time `now` as an integer; in the source it
comes from `new Date()`. Timestamps are integers (milliseconds).

Two places where the code promises less than one might expect:

- The OpenAPI comments on the list route (`src/routes/taskRoutes.ts:97-108`)
  give `page` a minimum of 1 and `limit` a range of 1 to 100. The code
  enforces neither. The query validator accepts any digit string, including
  `"0"`, and `findAll` then treats 0 as "use the default".
- The store's `updateById` merges any `Partial<Task>`, so a patch that
  carries `id` or `createdAt` does change them. Only patches produced by the
  update validator are guaranteed to leave them alone. See
  `Pipeline.ValidatedUpdateKeepsInvariants`.

## Model

| member | source | states |
|---|---|---|
| `Database.Create` | src/utils/database.ts:6-9 | The task is appended at the end, every earlier task keeps its place, the count grows by exactly one, and the given task is returned unchanged |
| `Database.Clear` | src/utils/database.ts:73-75 | Afterwards the store holds no task |
| `Database.CountIsUnfilteredTotal` | src/utils/database.ts:69-71 | `count()` equals the `total` that `findAll` reports for a query with no filter |
| `Database.FirstIndex` | src/utils/database.ts:50 | `findIndex` by id: the result is the first position holding the id, and the result is absent exactly when no task has the id |
| `Database.FindById` | src/utils/database.ts:45-47 | The result is absent exactly when no stored task has the id; otherwise it is the task at the first position with that id |
| `Database.UpdateById` | src/utils/database.ts:49-57 | A missing id gives null and leaves the store unchanged. A present id changes only the first matching position, to the patch merged over it and stamped `now`. The updated task is returned, the length is unchanged, and every other position is untouched |
| `Database.DeleteById` | src/utils/database.ts:59-67 | A missing id gives false and leaves the store unchanged. A present id removes exactly the first matching task, keeps the others in order, returns true, and lowers the count by one |
| `Database.UpdateReturnsMerged` | src/utils/database.ts:49-57 | `updateById` returns the task `findById` would find, with the patch merged over it and stamped `now`, and null when there is none |
| `Database.UpdateTasksFrom` | src/utils/database.ts:49-57 | After `updateById` the store has the same length, and each position holds its old task or that task merged with the patch |
| `Database.Filter` | src/utils/database.ts:15-26 | `Array.prototype.filter`: every accepted task keeps its multiplicity, and every rejected task is dropped |
| `Database.FilterCreatedAt` | src/utils/database.ts:15-26 | `filter` keeps list order: the tasks created at one instant, filtered, are the filtered tasks created at that instant, in the same order |
| `Database.ListingIsSortedFilter` | src/utils/database.ts:13-28 | The status filter followed by the search filter is one filter by the whole query, and the listing is that filter's result sorted newest first |
| `Database.ListingTieOrder` | src/utils/database.ts:13-28 | Tasks with equal `createdAt` appear in the listing in the order they are stored, so a tie across a page boundary is split the same way on every call |
| `Database.ListingContents` | src/utils/database.ts:13-28 | Before paging, the listing contains exactly the stored tasks that pass the status filter (if given) and the search filter (if non-empty), each as often as stored |
| `Database.FindAll` | src/utils/database.ts:12-43 | `findAll` returns one page, never longer than `total`, with a page number and a limit that are never 0 (absence and 0 both fall back to the defaults); its contents are stated by the lemmas below |
| `Database.FindAllTotal` | src/utils/database.ts:15-38 | `total` equals the number of stored tasks the status and search filters select, counted one by one. It is the same whatever `page` and `limit` are |
| `Database.FindAllData` | src/utils/database.ts:13-34 | Every task on a page is stored and matches the query, and the page is ordered by `createdAt`, newest first |
| `Database.FindAllDefaults` | src/utils/database.ts:30-31 | `page` is 1 and `limit` is 10 when absent or 0; otherwise each is the value given |
| `Database.FindAllWindow` | src/utils/database.ts:30-41 | With a positive page and limit, `data` is the window `[(page-1)*limit, (page-1)*limit+limit)` of the sorted listing, cut off at its end. It holds at most `limit` tasks and is empty once the start reaches `total`. Also, `(totalPages-1)*limit < total <= totalPages*limit` |
| `Database.FindAllPagesCover` | src/utils/database.ts:28-41 | With a positive (or defaulted) limit, fetching pages 1 through `totalPages` one call at a time returns the whole sorted listing, each task once, in order |
| `Database.FindAllPastLastPage` | src/utils/database.ts:32-34 | With a positive (or defaulted) limit, any page after `totalPages` is empty, not an error |
| `Database.FindAllPage` | src/utils/database.ts:30-34 | Asking for page `p` (not 0) with an otherwise equal query returns page `p` of the same sorted listing, cut with the same limit |
| `Database.NonNegativeQueryPaging` | src/utils/database.ts:30-34 | A query with no negative page or limit is served with a page and a limit of at least 1, so `data` holds at most `limit` tasks |
| `Database.SearchExample` | src/utils/database.ts:19-25 | Search ignores case on both sides: a task titled "Buy milk" matches the term "MILK" |
| `Database.CreateThenFind` | src/utils/database.ts:6-9 | After `create`, `findById` on the new id finds the new task, unless an earlier task already has that id, in which case that earlier task is still found |
| `Database.CreateKeepsUniqueIds` | src/utils/database.ts:6-9 | Creating a task whose id is not yet stored keeps all ids distinct |
| `Database.CreateThenListed` | src/utils/database.ts:6-28 | A created task is listed by a query that filters on its own status |
| `Database.DeleteThenFind` | src/utils/database.ts:59-67 | When ids are unique, the deleted id is no longer found, and ids stay unique |
| `Database.UpdateThenFind` | src/utils/database.ts:49-57 | A patch without an id moves no id: `findById` afterwards returns the updated task, and unique ids stay unique |
| `Ordering.SortNewestFirst` | src/utils/database.ts:28 | The sort result is ordered newest first and is a permutation of its input. Because JavaScript's sort is stable, tasks with the same `createdAt` keep their input order |
| `Ordering.InsertNewestFirst` | src/utils/database.ts:28 | Inserting a task into a newest-first list keeps the list newest first |
| `Ordering.InsertStable` | src/utils/database.ts:28 | Insertion puts the new task ahead of older tasks with the same timestamp and leaves their relative order unchanged |
| `Paging.JsSlice` | src/utils/database.ts:34 | `slice(start, end)`: each bound counts back from the end if negative and is clamped into the list. The result holds the elements between the two bounds, or none when the end is not past the start |
| `Paging.CeilDivBounds` | src/utils/database.ts:41 | `Math.ceil(a / b)`: the least `r` with `r*b >= a` for positive `b`, and the least `r` with `r*b <= a` for negative `b` |
| `Paging.PageWindow` | src/utils/database.ts:32-34 | A positive page of a positive size is the window from `(page-1)*limit`, cut off at the list's end. It holds at most `limit` elements |
| `Paging.PageFrom` | src/utils/database.ts:34 | A page is a run of consecutive elements of the list, so everything on it comes from the list |
| `Paging.PagesPrefix` | src/utils/database.ts:32-34 | Pages 1 through `k`, concatenated, are the first `k*limit` elements of the list (or all of it) |
| `Paging.PagesCover` | src/utils/database.ts:32-41 | Pages 1 through `ceil(n/limit)`, concatenated, are the whole list, and every later page is empty |
| `Text.Includes` | src/utils/database.ts:23-24 | `includes`: true exactly when the needle occurs at some position of the haystack |
| `Text.LowerChar` | src/utils/database.ts:20 | ASCII `toLowerCase`: the result is never an upper-case letter, non-letters are unchanged, and upper-case letters shift to lower case |
| `Text.JoinPartAt` | src/middleware/validation.ts:41 | `join`: the `i`-th part appears at its offset in the joined string |
| `Text.JoinSeparatorAt` | src/middleware/validation.ts:41 | `join`: exactly one separator lies between neighbouring parts |
| `Text.JoinLength` | src/middleware/validation.ts:41 | `join`: the result is as long as the parts plus one separator per neighbouring pair |
| `TaskModel.ParseStatus` | src/routes/taskRoutes.ts:35 | Reading a status succeeds exactly on the three enum names, `PENDING`, `COMPLETED` and `IN_PROGRESS`, and gives the status of that name |
| `TaskModel.Merge` | src/utils/database.ts:55 | The spread `{...task, ...updates, updatedAt: now}`: each field the patch supplies replaces the stored one, each absent field keeps its stored value, and `updatedAt` is `now` whatever the patch says |
| `TaskModel.MergeIdempotent` | src/utils/database.ts:55 | Applying the same update twice equals applying it once, at the later time |
| `TaskModel.MergeEmpty` | src/utils/database.ts:55 | An update with no fields changes only `updatedAt` |
| `Validation.CheckString` | src/middleware/validation.ts:6-7 | A required string field passes exactly when it is a string within the length bounds, and it keeps the string. A string that is too short gets exactly the rule's too-short message, one too long exactly its too-long message, and a non-string a type message; every issue is about this field |
| `Validation.CheckOptionalString` | src/middleware/validation.ts:12-13 | The same with `.optional()`: absence passes as absent |
| `Validation.CheckOptionalStatus` | src/middleware/validation.ts:8 | The status passes exactly when it is absent or one of the three names, and it yields the status of that name |
| `Validation.CheckOptionalCount` | src/middleware/validation.ts:18-19 | `page`/`limit` pass exactly when absent or a non-empty string of decimal digits, and yield the number the digits spell |
| `Validation.CheckOptionalText` | src/middleware/validation.ts:21 | `search` passes exactly when absent or a string, and any string is kept as given |
| `Validation.DecimalRoundTrip` | src/middleware/validation.ts:18-19 | Every number's decimal spelling matches `/^\d+$/` and reads back as that number |
| `Validation.ValidateCreate` | src/middleware/validation.ts:5-9 | A create body is accepted exactly when the title has 1 to 100 characters, the description has 1 to 500, and the status is absent or an enum name. The accepted body keeps those values |
| `Validation.CreateFieldMessages` | src/middleware/validation.ts:6-7 | An empty or over-long title or description makes the create body fail with that field's own message: 'Title is required', 'Title must be less than 100 characters', 'Description is required', 'Description must be less than 500 characters' |
| `Validation.ValidateUpdate` | src/middleware/validation.ts:11-15 | An update body is accepted exactly when every field present meets the create bounds and enum, so the empty object is accepted. Present fields are kept and absent fields stay absent |
| `Validation.ValidateQuery` | src/middleware/validation.ts:17-22 | A query is accepted exactly when `page`/`limit` are absent or digit strings, `status` is absent or an enum name, and `search` is absent or a string. The digits become their value, so `page` and `limit` are never negative |
| `Validation.CreateIssuesNameBadFields` | src/middleware/validation.ts:5-9 | A rejected create body has an issue for a field exactly when that field broke its rule, and no issue about any other path |
| `Validation.UpdateIssuesNameBadFields` | src/middleware/validation.ts:11-15 | A rejected update body has an issue for a field exactly when that field is present and broke its rule |
| `Validation.QueryIssuesNameBadFields` | src/middleware/validation.ts:17-22 | A rejected query has an issue for a parameter exactly when that parameter broke its rule |
| `Validation.ValidateRequest` | src/middleware/validation.ts:26-47 | The request proceeds, carrying the parsed value, exactly when the chosen part parses: the query for GET, the body for any other method. A rejection replies 400 with `success: false`, the message "Validation error" and the error text built from the issues as `path: message` joined by ", " |
| `Validation.ValidateRequestDispatch` | src/middleware/validation.ts:29-34 | A GET reply depends only on the query, and any other reply depends only on the body |
| `Validation.RejectionShowsEveryIssue` | src/middleware/validation.ts:36-43 | Every issue of a rejected request appears in the reply's error text, rendered as `path: message` |
| `Issues.ErrorTextLength` | src/middleware/validation.ts:41 | The error text is as long as the rendered issues plus one ", " per neighbouring pair |
| `Issues.ErrorTextIssueAt` | src/middleware/validation.ts:41 | The `k`-th issue appears in the error text, rendered as `path: message`, at its offset |
| `Issues.ErrorTextSeparatorAt` | src/middleware/validation.ts:41 | Exactly ", " lies between neighbouring rendered issues |
| `Issues.SingleIssueText` | src/middleware/validation.ts:41 | One issue about a top-level field reads `field: message`, with no separator |
| `Validation.EmptyTitleReply` | src/middleware/validation.ts:6 | A create request by any method other than GET, whatever its query, whose body has an empty title, a description of 1 to 500 characters and no status, is answered 400, "Validation error", with the error text `title: Title is required` |
| `Pipeline.ValidatedQueryPaging` | src/utils/database.ts:30-34 | A validated query is served with a page and a limit of at least 1, so `data` holds at most `limit` tasks |
| `Pipeline.ZeroPageIsFirstPage` | src/utils/database.ts:30 | `page=0` passes the query validator as the number 0, and `findAll` then serves page 1 |
| `Pipeline.SignedAndFractionalRejected` | src/middleware/validation.ts:18-19 | `page=-1` and `limit=1.5` are rejected |
| `Pipeline.ValidatedUpdateKeepsInvariants` | src/utils/database.ts:49-57 | Updating with a validated body keeps every task within the title and description bounds with `updatedAt >= createdAt` (if the clock is not behind a creation time). It changes no id and no creation time, and it keeps ids unique |
| `Pipeline.ValidatedMergeWellFormed` | src/utils/database.ts:55 | Merging a validated update body into a well-formed task that is not newer than `now` gives a well-formed task |
| `Pipeline.ValidatedUpdateMerge` | src/utils/database.ts:55 | Applying a validated update body to a task replaces exactly the title, description and status the body supplied (status by its name), keeps the rest, never changes the id or creation time, and sets `updatedAt` to `now` |
| `Pipeline.TaskLifecycle` | src/utils/database.ts:6-67 | A freshly created pending task is listed under status PENDING. After an update to COMPLETED, `findById` shows COMPLETED with the new `updatedAt`. After a delete, it is not found |

## Left out

- Server bootstrap, the Mongo connection, signal handling, OpenAPI generation and route wiring are I/O and framework plumbing (`src/app.ts`, `src/config/database.ts`, `src/swagger/swagger.ts`, `src/routes/taskRoutes.ts`).
- The Mongoose schema (`src/models/Task.ts`) is not modelled: it is library configuration. Its defaults are also left out: the `PENDING` default status, the generated id and the automatic timestamps. So "status is PENDING when omitted" and "`createdAt == updatedAt` after create" are not stated.
- The Express handlers and the error responder (`src/controllers/taskController.ts`, `src/middleware/errorHandler.ts`) only map results to 200/201/404/500 envelopes, and they are not modelled.
- `validateUUID` and `uuidSchema` are not modelled: they rely on zod's UUID pattern, which lives inside the zod library, not in this repository's code.
- Id generation and the wall clock are nondeterministic. Ids arrive inside the task given to `create`, and the update time is the parameter `now`.
- `toLowerCase` is modelled on ASCII letters only. Unicode case mapping is left out. Lengths count Unicode scalar values (a Dafny `char`), while zod's length bounds count UTF-16 code units; the two agree only for text inside the Basic Multilingual Plane. A title of 51 emoji, for example, is 102 code units and is rejected by `max(100)`, but the model counts 51 characters and accepts it.
- `Number(...)` on a digit string is modelled as the exact integer. Floating-point rounding above 2^53 is left out, as are non-integer, `NaN` or infinite `page`/`limit` values reaching `findAll` directly. Negative integers are modelled, with `slice`'s count-from-the-end rule.
- Invalid dates (`getTime()` giving `NaN`) are left out. `createdAt` is always an integer, so the sort comparator is consistent.
- Zod's own default messages (`Required`, `Expected string, received …`, `Invalid`, `Invalid enum value. …`, `String must contain at least/most … character(s)`) are library text, which lives inside the zod library, not in this repository's code. The model writes them in zod's usual wording, but only the `path: message` layout and the source's custom messages are faithful. Any non-string value given for the status gets a type-mismatch issue; zod's separate handling of numbers there is not modelled.
- A field explicitly set to `undefined` inside an update patch would overwrite the stored value in the JavaScript spread. The model has no such value: a field is either present or absent, and validated patches never carry one.
- The `catch` path that forwards non-zod errors (`next(error)`) is not modelled: these schemas only raise zod validation errors.
- Tasks are values in the model. The source hands out references to its stored objects (`create`, `findById`, `updateById` and the `data` of `findAll`, which copies only the array), so a caller that mutates a returned task changes the store without bumping `updatedAt`. The store's own operations never mutate a task in place (`updateById` puts a new object in the slot), so the model is exact for them.
- Concurrent requests and last-writer-wins updates are not modelled: each operation is one step on an immutable store.
