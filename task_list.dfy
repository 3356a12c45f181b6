/**
 * The session task list of the PHP task manager: an ordered list of task
 * records kept under the session key `tasks`, one dispatch step per POST
 * request (add, delete, toggle, clear), and the counts shown on the page.
 * `uniqid()` and `date()` are passed in as the parameters `id` and `now`.
 */
module TaskList {
  import opened Options
  import opened HtmlEscape

  /** One stored task record: {id, text, completed, created_at}. */
  datatype Task = Task(id: string, text: string, completed: bool, createdAt: string)

  /** One POST request: the form fields `action`, `task` and `task_id`, each possibly absent. */
  datatype Request = Request(isPost: bool, action: Option<string>, task: Option<string>, taskId: Option<string>)

  /** The three counts shown above the list. */
  datatype Stats = Stats(total: nat, completed: nat, pending: nat)

  /** PHP's empty() on a string form field: absent, "" or "0" (no trimming). */
  predicate IsEmptyField(field: Option<string>)
    ensures IsEmptyField(field) ==> field.None? || |field.value| <= 1
    ensures field.Some? && field.value != [] && field.value[0] != '0' ==> !IsEmptyField(field)
  {
    field.None? || field.value == "" || field.value == "0"
  }

  /** The record an accepted `add` appends. */
  function NewTask(input: string, id: string, now: string): (t: Task)
    ensures t.id == id && t.createdAt == now && !t.completed
    ensures Unescape(t.text) == input
    ensures forall i | 0 <= i < |t.text| :: t.text[i] != '<' && t.text[i] != '>'
  {
    UnescapeEscape(input);
    Task(id, Escape(input), false, now)
  }

  /** No two tasks share an id. */
  ghost predicate UniqueIds(ts: seq<Task>) {
    forall i, j | 0 <= i < j < |ts| :: ts[i].id != ts[j].id
  }

  predicate HasId(ts: seq<Task>, id: string) {
    exists i | 0 <= i < |ts| :: ts[i].id == id
  }

  // ---------------------------------------------------------------- delete

  /** array_filter keeping the tasks whose id differs from `id`. */
  function WithoutId(ts: seq<Task>, id: string): (r: seq<Task>)
    ensures |r| <= |ts|
    ensures forall t :: t in r <==> t in ts && t.id != id
  {
    if ts == [] then [] else (if ts[0].id == id then [] else [ts[0]]) + WithoutId(ts[1..], id)
  }

  /** Deleting distributes over concatenation: the survivors keep their relative order. */
  lemma {:induction false} WithoutIdAppend(a: seq<Task>, b: seq<Task>, id: string)
    ensures WithoutId(a + b, id) == WithoutId(a, id) + WithoutId(b, id)
  {
    if a != [] {
      assert (a + b)[1..] == a[1..] + b;
      WithoutIdAppend(a[1..], b, id);
    } else {
      assert a + b == b;
    }
  }

  /** Deleting an id that no task carries changes nothing. */
  lemma {:induction false} WithoutAbsentId(ts: seq<Task>, id: string)
    requires !HasId(ts, id)
    ensures WithoutId(ts, id) == ts
  {
    if ts != [] {
      assert !HasId(ts[1..], id) by {
        forall i | 0 <= i < |ts[1..]| ensures ts[1..][i].id != id {
          assert ts[1..][i] == ts[i + 1];
        }
      }
      WithoutAbsentId(ts[1..], id);
      assert ts == [ts[0]] + ts[1..];
    }
  }

  /** After a delete no task carries the id, so a second delete is a no-op. */
  lemma DeleteIdempotent(ts: seq<Task>, id: string)
    ensures !HasId(WithoutId(ts, id), id)
    ensures WithoutId(WithoutId(ts, id), id) == WithoutId(ts, id)
  {
    var r := WithoutId(ts, id);
    assert !HasId(r, id) by {
      forall i | 0 <= i < |r| ensures r[i].id != id {
        assert r[i] in r;
      }
    }
    WithoutAbsentId(r, id);
  }

  /** Deleting keeps ids pairwise distinct. */
  lemma {:induction false} WithoutIdKeepsUnique(ts: seq<Task>, id: string)
    requires UniqueIds(ts)
    ensures UniqueIds(WithoutId(ts, id))
  {
    if ts != [] {
      var tail := ts[1..];
      assert UniqueIds(tail) by {
        forall i, j | 0 <= i < j < |tail| ensures tail[i].id != tail[j].id {
          assert tail[i] == ts[i + 1] && tail[j] == ts[j + 1];
        }
      }
      WithoutIdKeepsUnique(tail, id);
      var rest := WithoutId(tail, id);
      forall t | t in rest ensures t.id != ts[0].id {
        var k :| 0 <= k < |tail| && tail[k] == t;
        assert tail[k] == ts[k + 1];
      }
    }
  }

  // ---------------------------------------------------------------- toggle

  function Flip(t: Task): Task {
    t.(completed := !t.completed)
  }

  /** `i` is the position of the first task carrying `id`. */
  predicate IsFirstMatch(ts: seq<Task>, id: string, i: int) {
    0 <= i < |ts| && ts[i].id == id && forall k | 0 <= k < i :: ts[k].id != id
  }

  /** The foreach-with-break: flip `completed` on the first task carrying `id`, leave the rest. */
  function ToggleFirst(ts: seq<Task>, id: string): (r: seq<Task>)
    ensures |r| == |ts|
    ensures forall i | 0 <= i < |ts| :: r[i] == if IsFirstMatch(ts, id, i) then Flip(ts[i]) else ts[i]
  {
    if ts == [] then []
    else if ts[0].id == id then [Flip(ts[0])] + ts[1..]
    else
      var r := [ts[0]] + ToggleFirst(ts[1..], id);
      assert forall i | 1 <= i < |ts| :: IsFirstMatch(ts, id, i) == IsFirstMatch(ts[1..], id, i - 1);
      r
  }

  /** Toggling never changes ids, texts or creation times. */
  lemma ToggleFirstKeepsFields(ts: seq<Task>, id: string)
    ensures forall i | 0 <= i < |ts| ::
      ToggleFirst(ts, id)[i].id == ts[i].id && ToggleFirst(ts, id)[i].text == ts[i].text
      && ToggleFirst(ts, id)[i].createdAt == ts[i].createdAt
  {
  }

  /** Toggling an unknown id changes nothing. */
  lemma ToggleAbsent(ts: seq<Task>, id: string)
    requires !HasId(ts, id)
    ensures ToggleFirst(ts, id) == ts
  {
  }

  /** toggle; toggle restores the list. */
  lemma ToggleTwice(ts: seq<Task>, id: string)
    ensures ToggleFirst(ToggleFirst(ts, id), id) == ts
  {
  }

  /** With distinct ids the first match is the only match: exactly the task carrying `id` is flipped. */
  lemma ToggleUnique(ts: seq<Task>, id: string)
    requires UniqueIds(ts)
    ensures forall i | 0 <= i < |ts| :: ToggleFirst(ts, id)[i] == if ts[i].id == id then Flip(ts[i]) else ts[i]
  {
  }

  // ---------------------------------------------------------------- stats

  /** count(array_filter(tasks, completed)). */
  function CompletedCount(ts: seq<Task>): (n: nat)
    ensures n <= |ts|
  {
    if ts == [] then 0 else (if ts[0].completed then 1 else 0) + CompletedCount(ts[1..])
  }

  /** The positions of the completed tasks. */
  ghost function CompletedPositions(ts: seq<Task>): set<int> {
    set i | 0 <= i < |ts| && ts[i].completed
  }

  lemma {:induction false} CompletedCountAppend(a: seq<Task>, b: seq<Task>)
    ensures CompletedCount(a + b) == CompletedCount(a) + CompletedCount(b)
  {
    if a != [] {
      assert (a + b)[1..] == a[1..] + b;
      CompletedCountAppend(a[1..], b);
    } else {
      assert a + b == b;
    }
  }

  /** The completed count is the number of positions holding a completed task. */
  lemma {:induction false} CompletedCountIsCardinality(ts: seq<Task>)
    ensures CompletedCount(ts) == |CompletedPositions(ts)|
  {
    if ts != [] {
      var n := |ts| - 1;
      var init := ts[..n];
      CompletedCountIsCardinality(init);
      assert ts == init + [ts[n]];
      CompletedCountAppend(init, [ts[n]]);
      assert [ts[n]][1..] == [];
      if ts[n].completed {
        assert CompletedPositions(ts) == CompletedPositions(init) + {n};
      } else {
        assert CompletedPositions(ts) == CompletedPositions(init);
      }
    }
  }

  /** The page's Total / Completed / Pending line. */
  function ComputeStats(ts: seq<Task>): (s: Stats)
    ensures s.total == |ts|
    ensures s.completed <= s.total && s.pending == s.total - s.completed
    ensures s.completed == |CompletedPositions(ts)|
  {
    CompletedCountIsCardinality(ts);
    var done := CompletedCount(ts);
    Stats(|ts|, done, |ts| - done)
  }

  /** An accepted add raises total and pending by one and leaves completed as it was. */
  lemma StatsAfterAdd(ts: seq<Task>, t: Task)
    requires !t.completed
    ensures ComputeStats(ts + [t]) == Stats(|ts| + 1, ComputeStats(ts).completed, ComputeStats(ts).pending + 1)
  {
    CompletedCountAppend(ts, [t]);
    assert [t][1..] == [];
  }

  /** A toggle of a present id moves exactly one task between completed and pending. */
  lemma {:induction false} StatsAfterToggle(ts: seq<Task>, id: string)
    requires HasId(ts, id)
    ensures |ToggleFirst(ts, id)| == |ts|
    ensures var before := CompletedCount(ts); var after := CompletedCount(ToggleFirst(ts, id));
      after == before + 1 || after + 1 == before
  {
    if ts[0].id != id {
      assert HasId(ts[1..], id) by {
        var i :| 0 <= i < |ts| && ts[i].id == id;
        assert ts[1..][i - 1] == ts[i];
      }
      StatsAfterToggle(ts[1..], id);
      assert ToggleFirst(ts, id)[1..] == ToggleFirst(ts[1..], id);
    } else {
      assert ToggleFirst(ts, id)[1..] == ts[1..];
    }
  }

  // ---------------------------------------------------------------- dispatch

  /** What one request does to the list: the switch on `action` inside the POST branch. */
  function Step(ts: seq<Task>, req: Request, id: string, now: string): (r: seq<Task>)
    ensures |r| <= |ts| + 1
    ensures |r| == |ts| + 1 ==> r[..|ts|] == ts && r[|ts|].id == id && !r[|ts|].completed
    ensures forall t | t in r :: t in ts || Flip(t) in ts || (|r| == |ts| + 1 && t == r[|ts|])
  {
    if !req.isPost || req.action.None? then ts
    else if req.action.value == "add" then
      if IsEmptyField(req.task) then ts else ts + [NewTask(req.task.value, id, now)]
    else if req.action.value == "delete" then
      if req.taskId.None? then ts else WithoutId(ts, req.taskId.value)
    else if req.action.value == "toggle" then
      if req.taskId.None? then ts else ToggleFirst(ts, req.taskId.value)
    else if req.action.value == "clear" then []
    else ts
  }

  predicate IsKnownAction(a: string) {
    a == "add" || a == "delete" || a == "toggle" || a == "clear"
  }

  /** A GET, a POST without `action`, or an unrecognised action leaves the list as it was. */
  lemma StepIgnored(ts: seq<Task>, req: Request, id: string, now: string)
    requires !req.isPost || req.action.None? || !IsKnownAction(req.action.value)
    ensures Step(ts, req, id, now) == ts
  {
  }

  /**
   * `add` appends exactly one incomplete task, holding the escaped text, at the end, when the
   * field is not PHP-empty; a missing, "" or "0" field leaves the list as it was. Whitespace is
   * not trimmed, so " " is added.
   */
  lemma StepAdd(ts: seq<Task>, field: Option<string>, id: string, now: string)
    ensures var r := Step(ts, Request(true, Some("add"), field, None), id, now);
      if field.None? || field.value == "" || field.value == "0" then r == ts
      else (|r| == |ts| + 1 && r[..|ts|] == ts && r[|ts|].id == id && !r[|ts|].completed
            && Unescape(r[|ts|].text) == field.value)
  {
  }

  /** `delete` removes every task carrying the id and keeps the others in order; twice is once. */
  lemma StepDelete(ts: seq<Task>, taskId: string, id: string, now: string)
    ensures var req := Request(true, Some("delete"), None, Some(taskId));
      var r := Step(ts, req, id, now);
      && (forall t :: t in r <==> t in ts && t.id != taskId)
      && Step(r, req, id, now) == r
  {
    DeleteIdempotent(ts, taskId);
  }

  /** `toggle` twice with the same id restores the list. */
  lemma StepToggleTwice(ts: seq<Task>, taskId: string, id: string, now: string)
    ensures var req := Request(true, Some("toggle"), None, Some(taskId));
      Step(Step(ts, req, id, now), req, id, now) == ts
  {
    ToggleTwice(ts, taskId);
  }

  /** `delete` and `toggle` without `task_id` change nothing. */
  lemma StepMissingTaskId(ts: seq<Task>, action: string, field: Option<string>, id: string, now: string)
    requires action == "delete" || action == "toggle"
    ensures Step(ts, Request(true, Some(action), field, None), id, now) == ts
  {
  }

  /** `clear` empties the list whatever it held. */
  lemma StepClear(ts: seq<Task>, field: Option<string>, taskId: Option<string>, id: string, now: string)
    ensures Step(ts, Request(true, Some("clear"), field, taskId), id, now) == []
  {
  }

  /** Every step keeps ids distinct, as long as an add receives an id no task has. */
  lemma StepKeepsUnique(ts: seq<Task>, req: Request, id: string, now: string)
    requires UniqueIds(ts) && !HasId(ts, id)
    ensures UniqueIds(Step(ts, req, id, now))
  {
    if req.isPost && req.action.Some? && req.action.value == "delete" && req.taskId.Some? {
      WithoutIdKeepsUnique(ts, req.taskId.value);
    }
  }

  // ---------------------------------------------------------------- session state

  /** The session's task list, `$_SESSION['tasks']`. */
  class TaskStore {
    var tasks: seq<Task>

    ghost predicate Valid()
      reads this
    {
      UniqueIds(tasks)
    }

    /** A new session starts with an empty list. */
    constructor ()
      ensures Valid() && tasks == []
    {
      tasks := [];
    }

    method Add(field: Option<string>, id: string, now: string)
      requires Valid() && !HasId(tasks, id)
      modifies this
      ensures Valid()
      ensures tasks == if IsEmptyField(field) then old(tasks) else old(tasks) + [NewTask(field.value, id, now)]
    {
      if !IsEmptyField(field) {
        tasks := tasks + [NewTask(field.value, id, now)];
      }
    }

    method Delete(taskId: Option<string>)
      requires Valid()
      modifies this
      ensures Valid()
      ensures tasks == if taskId.None? then old(tasks) else WithoutId(old(tasks), taskId.value)
    {
      if taskId.Some? {
        WithoutIdKeepsUnique(tasks, taskId.value);
        tasks := WithoutId(tasks, taskId.value);
      }
    }

    method Toggle(taskId: Option<string>)
      requires Valid()
      modifies this
      ensures Valid()
      ensures tasks == if taskId.None? then old(tasks) else ToggleFirst(old(tasks), taskId.value)
    {
      if taskId.Some? {
        var id := taskId.value;
        var i := 0;
        while i < |tasks|
          invariant 0 <= i <= |tasks|
          invariant tasks == old(tasks)
          invariant forall k | 0 <= k < i :: tasks[k].id != id
        {
          if tasks[i].id == id {
            assert IsFirstMatch(tasks, id, i);
            tasks := tasks[i := Flip(tasks[i])];
            break;
          }
          i := i + 1;
        }
        assert tasks == ToggleFirst(old(tasks), id);
      }
    }

    method Clear()
      modifies this
      ensures Valid() && tasks == []
    {
      tasks := [];
    }

    /** One request: the POST branch's switch; anything else leaves the list as it was. */
    method Dispatch(req: Request, id: string, now: string)
      requires Valid() && !HasId(tasks, id)
      modifies this
      ensures Valid()
      ensures tasks == Step(old(tasks), req, id, now)
    {
      if req.isPost && req.action.Some? {
        var action := req.action.value;
        if action == "add" {
          Add(req.task, id, now);
        } else if action == "delete" {
          Delete(req.taskId);
        } else if action == "toggle" {
          Toggle(req.taskId);
        } else if action == "clear" {
          Clear();
        }
      }
    }

    /** The counts computed on every page render. */
    method CurrentStats() returns (s: Stats)
      ensures s.total == |tasks| && s.completed == |CompletedPositions(tasks)|
      ensures s.pending == s.total - s.completed
    {
      s := ComputeStats(tasks);
    }
  }
}
