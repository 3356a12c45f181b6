# Session task list and poll store: a verified model

This project models two small request-handling cores and proves their
contracts in Dafny.

1. **The PHP task manager** (`webapp-php-task-manager/index.php`). The
   session holds an ordered list of task records `{id, text, completed,
   created_at}` under the key `tasks`. A POST request carries an `action`.
   `add` appends a task whose text is the HTML-escaped `task` field, but only
   when that field is not PHP-empty (absent, `""` or `"0"`). `delete` drops every task with the
   given `task_id`. `toggle` flips `completed` on the first task with that id
   and stops. `clear` empties the list. Anything else changes nothing. The
   page shows three counts: total, completed and pending.
   Modules `HtmlEscape` (htmlspecialchars and its decoder) and `TaskList`
   (the records, the specification functions, the `TaskStore` class with one
   method per action and `Dispatch`, and the counts).
2. **The Go poll app** (`webapp-go-poll-app/main.go`). An in-memory map holds
   polls `{ID, Question, Options, Votes, CreatedAt}` by id. Creation validates
   the form, drops empty options, and starts every option's count at 0.
   Voting checks a per-session `voted` map, kept in the client's cookie,
   before counting and marks the poll in it after counting. A session is
   counted at most once per poll only when its requests are handled one at a
   time, the session is always saved, and the client always sends back the
   cookie from its latest response. The home page lists the polls newest first. `getTotalVotes` sums
   a poll's counts. Modules `VoteTally` (the sum over a `Votes` map and the
   summing loop) and `Polls` (creation, the voting rule as the function
   `CastVote`, the `PollStore` and `VotingSession` classes, and the sorted
   listing).

`uniqid()`, `date()`, `uuid.New()` and `time.Now()` become parameters (`id`,
`now`). Time in the poll app is an integer timestamp.

Where the code does something a reader might not expect, the model follows
the code:
- The task text is not trimmed: a whitespace-only task is added.
- PHP `empty("0")` is true, so the task `"0"` is not added.
- `delete` removes every task with the id, but `toggle` flips only the first.
- Ids are unique only because `uniqid()` is trusted to give a fresh id, so
  `TaskStore.Add` and `TaskStore.Dispatch` require one.
- A session that has already voted on a poll id gets the "already voted"
  redirect even when that poll does not exist, because the voted check comes
  before the lookup.
- An option that is not one of the poll's gets the same redirect as a counted
  vote, but nothing is counted and the session is not marked.

`htmlspecialchars` is modelled with the default flags of PHP 8.1 and later
(ENT_QUOTES, HTML 4.01 entities). Those flags turn `&`, `<`, `>`, `"` and `'`
into `&amp;`, `&lt;`, `&gt;`, `&quot;` and `&#039;`.

## Model

| member | source | states |
|---|---|---|
| `HtmlEscape.EscapeChar` | webapp-php-task-manager/index.php:17 | each character becomes a non-empty replacement; it starts with `&` exactly for the five special characters and holds no `<`, `>`, `"` or `'` |
| `HtmlEscape.Escape` | webapp-php-task-manager/index.php:17 | the escaped text holds no `<`, `>`, `"` or `'` and is at least as long as the input |
| `HtmlEscape.UnescapeEscape` | webapp-php-task-manager/index.php:17 | decoding the stored text yields exactly the submitted text (escaping loses nothing) |
| `HtmlEscape.EscapePlain` | webapp-php-task-manager/index.php:17 | text without special characters is stored unchanged |
| `HtmlEscape.EscapeInjective` | webapp-php-task-manager/index.php:17 | two different submissions never give the same stored text |
| `TaskList.NewTask` | webapp-php-task-manager/index.php:15-20 | the appended record has the given id and time, is not completed, holds no angle bracket, and decodes back to the input |
| `TaskList.WithoutId` | webapp-php-task-manager/index.php:25-27 | the kept tasks are exactly the tasks whose id differs from the given id; none is added |
| `TaskList.WithoutIdAppend` | webapp-php-task-manager/index.php:25-27 | delete distributes over concatenation, so the survivors keep their relative order |
| `TaskList.WithoutAbsentId` | webapp-php-task-manager/index.php:23-28 | deleting an id no task carries leaves the list unchanged |
| `TaskList.DeleteIdempotent` | webapp-php-task-manager/index.php:23-28 | after a delete the id is absent, and a second delete is a no-op |
| `TaskList.WithoutIdKeepsUnique` | webapp-php-task-manager/index.php:25-27 | delete keeps ids pairwise distinct |
| `TaskList.ToggleFirst` | webapp-php-task-manager/index.php:32-37 | same length; position i is flipped exactly when it is the first task with the id, and every other position is unchanged |
| `TaskList.ToggleFirstKeepsFields` | webapp-php-task-manager/index.php:32-37 | toggle never changes an id, a text or a creation time |
| `TaskList.ToggleAbsent` | webapp-php-task-manager/index.php:30-38 | toggling an unknown id changes nothing |
| `TaskList.ToggleTwice` | webapp-php-task-manager/index.php:30-38 | toggle followed by toggle on the same id restores the list |
| `TaskList.ToggleUnique` | webapp-php-task-manager/index.php:32-37 | with distinct ids, exactly the task carrying the id is flipped |
| `TaskList.CompletedCount` | webapp-php-task-manager/index.php:51-53 | the completed count never exceeds the number of tasks |
| `TaskList.CompletedCountAppend` | webapp-php-task-manager/index.php:51-53 | the completed count of a concatenation is the sum of the parts' counts |
| `TaskList.CompletedCountIsCardinality` | webapp-php-task-manager/index.php:51-53 | the completed count equals the number of positions holding a completed task |
| `TaskList.ComputeStats` | webapp-php-task-manager/index.php:50-53 | total is the list length; completed is the number of completed tasks and at most total; pending is total minus completed |
| `TaskList.StatsAfterAdd` | webapp-php-task-manager/index.php:15-20 | an appended incomplete task raises total and pending by one and leaves completed unchanged |
| `TaskList.StatsAfterToggle` | webapp-php-task-manager/index.php:30-38 | toggling a present id moves the completed count by exactly one, up or down |
| `TaskList.IsEmptyField` | webapp-php-task-manager/index.php:14 | PHP `empty()` on the field: only an absent field or a text of at most one character can be empty, and no text starting with anything but `0` is empty (whitespace is not trimmed) |
| `TaskList.Step` | webapp-php-task-manager/index.php:10-44 | one request adds at most one task, only at the end, with the given id and not completed; every task afterwards was there before, is a flipped one that was there before, or is the task this request appended, when it appended one |
| `TaskList.StepIgnored` | webapp-php-task-manager/index.php:10-12 | a non-POST request, a missing `action` or an unrecognised action leaves the list unchanged |
| `TaskList.StepAdd` | webapp-php-task-manager/index.php:13-22 | a missing, `""` or `"0"` task changes nothing; any other text (whitespace included) appends exactly one incomplete task at the end, keeps the old tasks, and decodes back to the input |
| `TaskList.StepDelete` | webapp-php-task-manager/index.php:23-29 | delete keeps exactly the tasks with another id, and repeating it changes nothing |
| `TaskList.StepToggleTwice` | webapp-php-task-manager/index.php:30-39 | two toggle requests on the same id restore the list |
| `TaskList.StepMissingTaskId` | webapp-php-task-manager/index.php:24-37 | delete or toggle without `task_id` changes nothing |
| `TaskList.StepClear` | webapp-php-task-manager/index.php:40-42 | clear yields the empty list whatever the prior state |
| `TaskList.StepKeepsUnique` | webapp-php-task-manager/index.php:16 | every request keeps ids pairwise distinct when an add gets an id no task has |
| `TaskList.TaskStore.constructor` | webapp-php-task-manager/index.php:4-7 | a session starts with an empty, valid list |
| `TaskList.TaskStore.Add` | webapp-php-task-manager/index.php:13-22 | appends the new record at the end when the field is not PHP-empty, otherwise nothing changes; ids stay distinct |
| `TaskList.TaskStore.Delete` | webapp-php-task-manager/index.php:23-29 | the new list is the old one without the tasks carrying `task_id`; unchanged without `task_id` |
| `TaskList.TaskStore.Toggle` | webapp-php-task-manager/index.php:30-39 | the foreach-with-break loop leaves exactly `ToggleFirst` of the old list; unchanged without `task_id` |
| `TaskList.TaskStore.Clear` | webapp-php-task-manager/index.php:40-42 | the list becomes empty |
| `TaskList.TaskStore.Dispatch` | webapp-php-task-manager/index.php:10-44 | one request changes the list exactly as `Step` says and keeps ids distinct |
| `TaskList.TaskStore.CurrentStats` | webapp-php-task-manager/index.php:50-53 | the counts of the current list: total, completed tasks, and total minus completed |
| `VoteTally.SumVotesRemove` | webapp-go-poll-app/main.go:236-242 | the total does not depend on the order of the map: any count can be taken out first |
| `VoteTally.SumVotesIncrement` | webapp-go-poll-app/main.go:220 | raising one existing count by one raises the total by exactly one |
| `VoteTally.SumVotesZero` | webapp-go-poll-app/main.go:138-141 | a map of zero counts totals zero |
| `VoteTally.SumVotesNonNegative` | webapp-go-poll-app/main.go:236-242 | non-negative counts give a non-negative total |
| `VoteTally.TotalVotes` | webapp-go-poll-app/main.go:236-242 | the loop over the map returns the sum of all counts |
| `Polls.NonEmptyOptions` | webapp-go-poll-app/main.go:118-123 | the kept options are exactly the non-empty submitted ones, and there are no more of them than were submitted |
| `Polls.NonEmptyOptionsAppend` | webapp-go-poll-app/main.go:118-123 | filtering distributes over concatenation, so the submitted order is kept |
| `Polls.NonEmptyOptionsKeepsAll` | webapp-go-poll-app/main.go:118-123 | options that are all non-empty are kept exactly as submitted |
| `Polls.ValidOptions` | webapp-go-poll-app/main.go:117-123 | the append loop returns the non-empty options in their original order |
| `Polls.InitialVotes` | webapp-go-poll-app/main.go:138-141 | the count map's keys are exactly the options, every count is 0, and the total is 0 |
| `Polls.HasVoted` | webapp-go-poll-app/main.go:211 | `votedPolls[pollID]`: a poll id missing from the map reads as not voted, and a voted poll is one whose entry is true |
| `Polls.CastVote` | webapp-go-poll-app/main.go:197-233 | one vote request keeps the set of poll ids, changes no poll but the one voted on, and changes no voted mark but that poll's, which it can only add |
| `Polls.CastVoteCountedIff` | webapp-go-poll-app/main.go:197-224 | a vote is counted if and only if the option is non-empty, the session has not voted on the poll, the poll exists and the option is one of its keys |
| `Polls.CastVoteNoEffect` | webapp-go-poll-app/main.go:197-231 | an empty option, an already-voted poll, a missing poll or an unknown option changes neither the counts nor the session's voted map |
| `Polls.CastVoteCounted` | webapp-go-poll-app/main.go:216-224 | a counted vote raises exactly that option's count by one, so the total rises by one; it marks the poll as voted; all other polls, counts and marks are unchanged |
| `Polls.CastVoteVotedGrows` | webapp-go-poll-app/main.go:206-224 | the session's voted marks only grow |
| `Polls.CastVoteKeepsValid` | webapp-go-poll-app/main.go:216-224 | voting keeps every poll under its own id, with counts keyed by its options and never negative |
| `Polls.CastVotesAfterVoted` | webapp-go-poll-app/main.go:211-214 | once the session has voted on a poll, any later series of votes on it changes nothing |
| `Polls.AtMostOneVotePerSession` | webapp-go-poll-app/main.go:206-224 | however many votes one session sends to a poll, that poll's total rises by at most one |
| `Polls.VoteWithoutMarkCountsAgain` | webapp-go-poll-app/main.go:203-220 | a client that sends no cookie, or a cookie from before its vote, after a counted vote is counted again: the same option's count rises by two in all |
| `Polls.InsertByTime` | webapp-go-poll-app/main.go:79-81 | insertion adds exactly the one poll to the list's contents |
| `Polls.InsertByTimeSorted` | webapp-go-poll-app/main.go:79-81 | inserting into a newest-first list keeps it newest first |
| `Polls.SortNewestFirst` | webapp-go-poll-app/main.go:79-81 | the result is a permutation of the input, sorted by creation time, newest first |
| `Polls.PermutedListing` | webapp-go-poll-app/main.go:76-81 | reordering a list that holds every stored poll exactly once (as the collecting loop builds it) gives another such list |
| `Polls.VotingSession.constructor` | webapp-go-poll-app/main.go:206-209 | a session without a voted entry starts from an empty map |
| `Polls.PollStore.constructor` | webapp-go-poll-app/main.go:31-33 | the store starts empty |
| `Polls.PollStore.Create` | webapp-go-poll-app/main.go:108-145 | an empty question or fewer than 2 submitted options gives MissingFields; fewer than 2 non-empty options gives TooFewValidOptions; both leave the store unchanged; otherwise the poll is stored under its new id with the non-empty options in order and every count 0 (total 0), and every other poll is unchanged |
| `Polls.PollStore.Vote` | webapp-go-poll-app/main.go:197-233 | the response, the new store and the new voted map are exactly those `CastVote` gives; the store stays valid |
| `Polls.PollStore.Listing` | webapp-go-poll-app/main.go:74-81 | the list has one entry per stored poll, holds only stored polls and every stored poll, repeats none (so it is a permutation of the stored polls), and is sorted newest first |
| `Polls.PollStore.PollTotal` | webapp-go-poll-app/main.go:236-242 | the total of a stored poll is the sum of its counts and is never negative |

## Left out

- The HTML templates, CSS and server-info block of both programs, and the
  `header('Location')` redirect with `exit`. These are presentation and
  transport. `REQUEST_METHOD === 'POST'` becomes the flag `isPost`.
- `session_start`, the cookie sessions (gorilla sessions, `gob`,
  `session.Save`): the PHP session is the `TaskStore` object, and the Go
  session's `voted` entry is the `VotingSession` object. A session whose
  `voted` entry has the wrong type starts from an empty map, as the
  constructor does.
- `uniqid()`, `date()`, `uuid.New()` and `time.Now()` are non-deterministic
  sources, so they become parameters.
- PHP arrays keep their keys after `array_filter`, which leaves gaps; only
  the iteration order can be observed here, so the list is a sequence.
- Form fields sent as arrays (`task[]=…`) are not modelled; every field is
  an absent or present string.
- The `ENT_SUBSTITUTE` replacement of invalid UTF-8 is not modelled, because
  text is a sequence of characters, not bytes. PHP before 8.1 did not escape
  `'` by default.
- `sync.RWMutex` locking: every operation is one atomic sequential step.
- HTTP plumbing in main.go: `main`, handler registration, the method checks
  (405 responses), `ParseForm` failures, status codes, template execution and
  static files. The `GET` branch of `createHandler` only renders a form.
- `pollHandler` (webapp-go-poll-app/main.go:154-183) only reads and renders.
  Its voted lookup is the predicate `HasVoted`.
- `getPercentage` uses floating-point arithmetic. `addSamplePolls` is fixed
  seed data.
- Go stores `*Poll` pointers and changes `Votes` through them; the model
  keeps polls as values in the map, so pointer aliasing is not captured.
- Vote counts are unbounded integers: the 64-bit overflow of Go's `int`
  after 2^63 - 1 votes is not modelled.
- `sort.Slice` is not stable. The model sorts by insertion, and its contract
  promises only what Go promises: a permutation sorted newest first, with
  ties in no particular order.
- Polls.AtMostOneVotePerSession and Polls.CastVotesAfterVoted hold for the
  `VotingSession` object, which assumes three things the program does not
  guarantee. First, that `session.Save` always succeeds: its error is ignored
  (webapp-go-poll-app/main.go:223) after the count was already raised (line
  220), so a failed save, such as a cookie over the store's length limit,
  leaves the vote counted but the session unmarked. Second, that one
  session's requests arrive one at a time: the voted check (line 211) runs
  before the lock is taken (line 216), so two concurrent requests with the
  same cookie can both be counted. Third, that the client always sends back
  the cookie from its latest response: the `voted` map lives in a cookie
  (lines 34, 203-206, 222-223), so a client that drops it, or replays one
  from before its vote, reaches line 211 with no mark and is counted again
  (Polls.VoteWithoutMarkCountsAgain).
- service-go-reading-list/api/routes/init_controllers.go and
  webapp-python-flask/app.py are not part of this model: they only wire up
  packages that are not shown, or return templates and constant JSON.
