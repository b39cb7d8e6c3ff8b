/**
 * `TaskService` of src/service.py: the in-memory list of tasks, its queries
 * and its updates, and the data file it is loaded from and saved to. The file
 * is modelled as the sequence of serialised records it holds (`None` while it
 * does not exist); JSON text itself is outside the model.
 */
module Service {
  import opened Wrappers
  import opened Constants
  import opened Text
  import opened Schemas
  import opened Sorting
  import opened Search

  /** What the store raises: `TaskDoesNotExists(task_id)`, or pydantic's `ValidationError` with its entries. */
  datatype ServiceError = TaskDoesNotExists(taskId: string) | ValidationError(errors: seq<FieldError>)

  // ---------------------------------------------------------------- persistence

  /** `json.dump(tasks, cls=TaskSchemaEncoder)`: each task as its serialised record, in list order. */
  function Encode(tasks: seq<TaskRead>): (entries: seq<Fields>)
    ensures |entries| == |tasks|
    ensures forall i :: 0 <= i < |tasks| ==> entries[i] == Serialize(tasks[i])
  {
    seq(|tasks|, i requires 0 <= i < |tasks| => Serialize(tasks[i]))
  }

  /** Index of the first `Err` among the outcomes; their number when there is none. */
  function FirstErr<T, E>(rs: seq<Result<T, E>>): (i: nat)
    ensures i <= |rs|
    ensures i < |rs| ==> rs[i].Err?
    ensures forall j :: 0 <= j < i ==> rs[j].Ok?
  {
    if rs == [] || rs[0].Err? then 0 else 1 + FirstErr(rs[1..])
  }

  /**
   * A list of outcomes folded into one, as a comprehension whose element
   * expression may raise: all the values when every outcome is `Ok`,
   * otherwise the error of the first `Err`.
   */
  function Collect<T, E>(rs: seq<Result<T, E>>): (r: Result<seq<T>, E>)
    ensures r.Ok? <==> FirstErr(rs) == |rs|
    ensures r.Ok? ==> |r.value| == |rs| && forall i :: 0 <= i < |rs| ==> r.value[i] == rs[i].value
    ensures r.Err? ==> r.error == rs[FirstErr(rs)].error
  {
    if rs == [] then Ok([])
    else if rs[0].Err? then Err(rs[0].error)
    else
      var rest := Collect(rs[1..]);
      if rest.Err? then Err(rest.error)
      else Ok([rs[0].value] + rest.value)
  }

  /** Each record of the file validated on its own, in file order. */
  function ValidateAll(entries: seq<Fields>): (rs: seq<Result<TaskRead, seq<FieldError>>>)
    ensures |rs| == |entries|
    ensures forall i :: 0 <= i < |entries| ==> rs[i] == ValidateRead(entries[i])
  {
    seq(|entries|, i requires 0 <= i < |entries| => ValidateRead(entries[i]))
  }

  /**
   * `[TaskRead.model_validate(task) for task in json.load(file)]`: every record
   * validated in order; the first one that fails raises its errors.
   */
  function LoadEntries(entries: seq<Fields>): (r: Result<seq<TaskRead>, seq<FieldError>>)
    ensures r.Ok? <==> forall i :: 0 <= i < |entries| ==> ValidateRead(entries[i]).Ok?
    ensures r.Ok? ==> |r.value| == |entries|
    ensures r.Ok? ==> forall i :: 0 <= i < |entries| ==> r.value[i] == ValidateRead(entries[i]).value
    ensures r.Err? ==> exists i :: (0 <= i < |entries| && ValidateRead(entries[i]).Err?
      && r.error == ValidateRead(entries[i]).error
      && forall j :: 0 <= j < i ==> ValidateRead(entries[j]).Ok?)
  {
    var rs := ValidateAll(entries);
    var r := Collect(rs);
    assert r.Err? ==> ValidateRead(entries[FirstErr(rs)]).Err?;
    r
  }

  /** `_load_data`: a missing file gives no tasks; every loaded task passed validation. */
  function LoadData(file: Option<seq<Fields>>): (r: Result<seq<TaskRead>, seq<FieldError>>)
    ensures file.None? ==> r == Ok([])
    ensures file.Some? ==> r == LoadEntries(file.value)
    ensures r.Ok? ==> forall i :: 0 <= i < |r.value| ==> ValidTask(r.value[i])
  {
    if file.None? then Ok([]) else LoadEntries(file.value)
  }

  /** Saving and loading again gives back the same list. */
  lemma SaveLoadRoundTrip(tasks: seq<TaskRead>)
    requires forall i :: 0 <= i < |tasks| ==> ValidTask(tasks[i])
    ensures LoadData(Some(Encode(tasks))) == Ok(tasks)
  {
    var entries := Encode(tasks);
    var rs := ValidateAll(entries);
    forall i | 0 <= i < |tasks| ensures rs[i] == Ok(tasks[i]) {
      SerializeRoundTrip(tasks[i]);
    }
    var r := Collect(rs);
    assert FirstErr(rs) == |rs|;
    assert r.Ok? && |r.value| == |tasks|;
    assert forall i :: 0 <= i < |tasks| ==> r.value[i] == tasks[i];
    assert r.value == tasks;
  }

  // ---------------------------------------------------------------- queries

  /**
   * The conditions the store filters by. A filter argument is the text the
   * caller passes; a `str` enum member equals the string of its value, so
   * `"work"` selects the tasks of category `work`.
   */
  datatype Selection =
    | CategoryIs(string)
    | StatusIs(string)
    | CategoryAndStatusAre(string, string)
    | MentionsAny(seq<string>)

  /** The test a selection applies to one task. */
  function Test(sel: Selection): TaskRead -> bool {
    match sel
    case CategoryIs(c) => (t: TaskRead) => c == CategoryValue(t.category)
    case StatusIs(s) => (t: TaskRead) => s == StatusValue(t.status)
    case CategoryAndStatusAre(c, s) => (t: TaskRead) => c == CategoryValue(t.category) && s == StatusValue(t.status)
    case MentionsAny(kws) => (t: TaskRead) => Mentions(t.name, kws) || Mentions(t.description, kws)
  }

  /** A list comprehension `[t for t in s if p(t)]`. */
  function Filter(s: seq<TaskRead>, p: TaskRead -> bool): (r: seq<TaskRead>)
    ensures |r| <= |s|
  {
    if s == [] then []
    else (if p(s[0]) then [s[0]] else []) + Filter(s[1..], p)
  }

  /** The tasks of `s` that `sel` selects, in their order in `s`. */
  function Select(s: seq<TaskRead>, sel: Selection): (r: seq<TaskRead>)
    ensures forall x :: x in r <==> x in s && Test(sel)(x)
  {
    FilterMembers(s, Test(sel));
    Filter(s, Test(sel))
  }

  /** A kept task occurs in the result as often as in the list; any other not at all. */
  lemma {:induction false} FilterCount(s: seq<TaskRead>, p: TaskRead -> bool, x: TaskRead)
    ensures multiset(Filter(s, p))[x] == if p(x) then multiset(s)[x] else 0
  {
    if s != [] {
      var rest := s[1..];
      FilterCount(rest, p, x);
      assert s == [s[0]] + rest;
      assert multiset(s) == multiset{s[0]} + multiset(rest);
    }
  }

  /** The result holds exactly the kept tasks of the list. */
  lemma FilterMembers(s: seq<TaskRead>, p: TaskRead -> bool)
    ensures forall x :: x in Filter(s, p) <==> x in s && p(x)
  {
    forall x ensures x in Filter(s, p) <==> x in s && p(x) {
      FilterCount(s, p, x);
    }
  }

  /** Filtering a concatenation filters each part: the order of the list is kept. */
  lemma {:induction false} FilterAppend(a: seq<TaskRead>, b: seq<TaskRead>, p: TaskRead -> bool)
    ensures Filter(a + b, p) == Filter(a, p) + Filter(b, p)
  {
    if a == [] {
      assert a + b == b;
    } else {
      assert (a + b)[0] == a[0] && (a + b)[1..] == a[1..] + b;
      FilterAppend(a[1..], b, p);
      var h := if p(a[0]) then [a[0]] else [];
      assert h + (Filter(a[1..], p) + Filter(b, p)) == (h + Filter(a[1..], p)) + Filter(b, p);
    }
  }

  /** Filtering by a conjunction is filtering by one test, then by the other. */
  lemma {:induction false} FilterBoth(s: seq<TaskRead>, p: TaskRead -> bool, q: TaskRead -> bool, both: TaskRead -> bool)
    requires forall t :: both(t) == (p(t) && q(t))
    ensures Filter(s, both) == Filter(Filter(s, p), q)
  {
    if s != [] {
      FilterBoth(s[1..], p, q, both);
      var c := Filter(s[1..], p);
      if p(s[0]) {
        assert Filter(s, p) == [s[0]] + c;
        assert ([s[0]] + c)[0] == s[0] && ([s[0]] + c)[1..] == c;
      } else {
        assert Filter(s, p) == [] + c == c;
      }
    }
  }

  /** A test that holds of no task keeps nothing. */
  lemma {:induction false} FilterNone(s: seq<TaskRead>, p: TaskRead -> bool)
    requires forall t :: !p(t)
    ensures Filter(s, p) == []
  {
    if s != [] {
      FilterNone(s[1..], p);
    }
  }

  /** Filtering by category and status is filtering by category, then by status. */
  lemma SelectBoth(s: seq<TaskRead>, category: string, status: string)
    ensures Select(s, CategoryAndStatusAre(category, status))
      == Select(Select(s, CategoryIs(category)), StatusIs(status))
  {
    FilterBoth(s, Test(CategoryIs(category)), Test(StatusIs(status)), Test(CategoryAndStatusAre(category, status)));
  }

  /** A value that is not the value of any member selects nothing. */
  lemma UnknownValueSelectsNothing(s: seq<TaskRead>, value: string)
    ensures ParseCategory(value).None? ==> Select(s, CategoryIs(value)) == []
    ensures ParseStatus(value).None? ==> Select(s, StatusIs(value)) == []
    ensures ParseCategory(value).None? ==> forall other :: Select(s, CategoryAndStatusAre(value, other)) == []
    ensures ParseStatus(value).None? ==> forall other :: Select(s, CategoryAndStatusAre(other, value)) == []
  {
    ValuesRoundTrip();
    if ParseCategory(value).None? {
      FilterNone(s, Test(CategoryIs(value)));
      forall other ensures Select(s, CategoryAndStatusAre(value, other)) == [] {
        FilterNone(s, Test(CategoryAndStatusAre(value, other)));
      }
    }
    if ParseStatus(value).None? {
      FilterNone(s, Test(StatusIs(value)));
      forall other ensures Select(s, CategoryAndStatusAre(other, value)) == [] {
        FilterNone(s, Test(CategoryAndStatusAre(other, value)));
      }
    }
  }

  /** Index of the first task whose id equals `id` ignoring case; the length when there is none. */
  function FirstWithId(s: seq<TaskRead>, id: string): (i: nat)
    ensures i <= |s|
    ensures i < |s| ==> Lower(s[i].id) == Lower(id)
    ensures forall j :: 0 <= j < i ==> Lower(s[j].id) != Lower(id)
  {
    if s == [] then 0
    else if Lower(s[0].id) == Lower(id) then 0
    else 1 + FirstWithId(s[1..], id)
  }

  /** An index holding the id, with none before it, is the one `FirstWithId` finds. */
  lemma {:induction false} FirstWithIdIsFirst(s: seq<TaskRead>, id: string, i: nat)
    requires i < |s| && Lower(s[i].id) == Lower(id)
    requires forall j :: 0 <= j < i ==> Lower(s[j].id) != Lower(id)
    ensures FirstWithId(s, id) == i
  {
    if i > 0 {
      forall j | 0 <= j < i - 1 ensures Lower(s[1..][j].id) != Lower(id) {
        assert s[1..][j] == s[j + 1];
      }
      FirstWithIdIsFirst(s[1..], id, i - 1);
    }
  }

  /** No two tasks whose ids differ only in case. */
  predicate IdsDistinct(s: seq<TaskRead>) {
    forall i, j :: 0 <= i < j < |s| ==> Lower(s[i].id) != Lower(s[j].id)
  }

  /** Position of the first element equal to `x`. */
  function IndexOf(s: seq<TaskRead>, x: TaskRead): (i: nat)
    requires x in s
    ensures i < |s| && s[i] == x
    ensures forall j :: 0 <= j < i ==> s[j] != x
  {
    if s[0] == x then 0 else 1 + IndexOf(s[1..], x)
  }

  /** `list.remove(x)`: the first element equal to `x` goes, the others keep their order. */
  function RemoveFirst(s: seq<TaskRead>, x: TaskRead): (r: seq<TaskRead>)
    requires x in s
    ensures |r| == |s| - 1
  {
    var i := IndexOf(s, x);
    s[..i] + s[i + 1..]
  }

  /** Removing takes exactly one occurrence of `x` out of the list. */
  lemma RemoveFirstCount(s: seq<TaskRead>, x: TaskRead)
    requires x in s
    ensures multiset(RemoveFirst(s, x)) == multiset(s) - multiset{x}
  {
    var i := IndexOf(s, x);
    assert s == s[..i] + [x] + s[i + 1..];
  }

  /** Removing the task a lookup finds takes out exactly the looked-up position. */
  lemma RemoveFound(s: seq<TaskRead>, id: string)
    requires FirstWithId(s, id) < |s|
    ensures var i := FirstWithId(s, id); RemoveFirst(s, s[i]) == s[..i] + s[i + 1..]
  {
    var i := FirstWithId(s, id);
    assert IndexOf(s, s[i]) == i;
  }

  /** Dropping one position keeps every remaining task valid. */
  lemma DropKeepsValid(s: seq<TaskRead>, i: nat)
    requires i < |s| && forall j :: 0 <= j < |s| ==> ValidTask(s[j])
    ensures var r := s[..i] + s[i + 1..]; forall j :: 0 <= j < |r| ==> ValidTask(r[j])
  {
    var r := s[..i] + s[i + 1..];
    forall j | 0 <= j < |r| ensures ValidTask(r[j]) {
      if j < i {
        assert r[j] == s[j];
      } else {
        assert r[j] == s[j + 1];
      }
    }
  }

  /** A task appended with a fresh id is what a lookup of that id finds. */
  lemma AddedTaskIsFound(s: seq<TaskRead>, t: TaskRead)
    requires forall u :: u in s ==> Lower(u.id) != Lower(t.id)
    ensures FirstWithId(s + [t], t.id) == |s|
  {
    var r := s + [t];
    forall j | 0 <= j < |s| ensures Lower(r[j].id) != Lower(t.id) {
      assert r[j] == s[j];
      assert s[j] in s;
    }
    assert r[|s|] == t;
  }

  /** After the first task with `id` is removed, no task with that id is left when ids were distinct. */
  lemma DeletedTaskIsGone(s: seq<TaskRead>, id: string)
    requires IdsDistinct(s) && FirstWithId(s, id) < |s|
    ensures var i := FirstWithId(s, id); FirstWithId(s[..i] + s[i + 1..], id) == |s| - 1
  {
    var i := FirstWithId(s, id);
    var r := s[..i] + s[i + 1..];
    forall j | 0 <= j < |r| ensures Lower(r[j].id) != Lower(id) {
      if j < i {
        assert r[j] == s[j];
      } else {
        assert r[j] == s[j + 1];
      }
    }
  }

  /** The update keeps the id, so the updated task is still the one a lookup finds. */
  lemma UpdatedTaskIsFound(s: seq<TaskRead>, id: string, u: TaskUpdate)
    requires FirstWithId(s, id) < |s|
    ensures var i := FirstWithId(s, id); FirstWithId(s[i := Merge(s[i], u)], id) == i
  {
    var i := FirstWithId(s, id);
    var r := s[i := Merge(s[i], u)];
    assert r[i].id == s[i].id;
    forall j | 0 <= j < i ensures Lower(r[j].id) != Lower(id) {
      assert r[j] == s[j];
    }
    FirstWithIdIsFirst(r, id, i);
  }

  /** What `find` returns: every task, and only those, whose name or description mentions a keyword. */
  lemma FoundMembers(s: seq<TaskRead>, kws: seq<string>)
    ensures forall x :: x in SortByKey(Select(s, MentionsAny(kws))) <==>
      x in s && (Mentions(x.name, kws) || Mentions(x.description, kws))
  {
    var selected := Select(s, MentionsAny(kws));
    FilterMembers(s, Test(MentionsAny(kws)));
    SortByKeyIsStableSort(selected);
    forall x ensures x in SortByKey(selected) <==> x in selected {
      assert multiset(SortByKey(selected))[x] == multiset(selected)[x];
    }
  }

  // ---------------------------------------------------------------- the store

  /** `TaskRead(id=..., status=TaskStatus.not_completed, **data.model_dump())`: the constructor re-runs validation. */
  method Construct(newId: string, data: TaskCreate) returns (r: Result<TaskRead, seq<FieldError>>)
    ensures r == if ValidName(data.name) then Ok(NewTask(newId, data)) else Err([Invalid(Name)])
  {
    var fields := DumpCreate(data)[Id := newId][Status := StatusValue(NotCompleted)];
    NewTaskValidates(newId, data);
    r := ValidateRead(fields);
  }

  /** `TaskRead.model_validate(task_data)` on the stored task's fields overwritten by the supplied ones. */
  method Revalidate(task: TaskRead, data: TaskUpdate) returns (r: Result<TaskRead, seq<FieldError>>)
    ensures r == if ValidName(Merge(task, data).name) then Ok(Merge(task, data)) else Err([Invalid(Name)])
  {
    var taskData := Serialize(task) + DumpUpdate(data);
    UpdateRevalidates(task, data);
    r := ValidateRead(taskData);
  }

  class TaskService {
    /** `self.file_name` */
    const fileName: string
    /** `self.tasks` */
    var tasks: seq<TaskRead>
    /** The records the data file holds; `None` while the file does not exist. */
    var stored: Option<seq<Fields>>

    /** Every task in the list passed validation. */
    predicate Valid()
      reads this
    {
      forall i :: 0 <= i < |tasks| ==> ValidTask(tasks[i])
    }

    constructor (fileName: string, tasks: seq<TaskRead>, stored: Option<seq<Fields>>)
      requires forall i :: 0 <= i < |tasks| ==> ValidTask(tasks[i])
      ensures this.fileName == fileName && this.tasks == tasks && this.stored == stored
      ensures Valid()
    {
      this.fileName := fileName;
      this.tasks := tasks;
      this.stored := stored;
    }

    /** `TaskService(file_name)`: the tasks of the data file, or the validation error of the first bad record. */
    static method Open(fileName: string, stored: Option<seq<Fields>>) returns (r: Result<TaskService, seq<FieldError>>)
      ensures r.Ok? <==> LoadData(stored).Ok?
      ensures r.Err? ==> r.error == LoadData(stored).error
      ensures r.Ok? ==> (fresh(r.value) && r.value.Valid()
        && r.value.fileName == fileName && r.value.tasks == LoadData(stored).value && r.value.stored == stored)
    {
      var loaded := LoadData(stored);
      if loaded.Err? {
        return Err(loaded.error);
      }
      var service := new TaskService(fileName, loaded.value, stored);
      return Ok(service);
    }

    /** `save_data`: the file is overwritten with the current list, which loading the file gives back. */
    method SaveData()
      modifies this
      ensures tasks == old(tasks)
      ensures stored == Some(Encode(tasks))
      ensures Valid() ==> LoadData(stored) == Ok(tasks)
    {
      stored := Some(Encode(tasks));
      if Valid() {
        SaveLoadRoundTrip(tasks);
      }
    }

    /**
     * `add`: the new task gets the given id, status `not_completed` and the
     * payload's fields, and goes at the end. Building it re-runs validation,
     * so a blank name is a validation error that leaves the list alone.
     */
    method Add(data: TaskCreate, newId: string, needSave: bool) returns (r: Result<TaskRead, seq<FieldError>>)
      requires Valid()
      modifies this
      ensures Valid()
      ensures r.Ok? <==> ValidName(data.name)
      ensures r.Ok? ==> r.value == NewTask(newId, data) && tasks == old(tasks) + [r.value]
      ensures r.Err? ==> r.error == [Invalid(Name)] && tasks == old(tasks)
      ensures stored == if r.Ok? && needSave then Some(Encode(tasks)) else old(stored)
      ensures IdsDistinct(old(tasks)) && (forall t :: t in old(tasks) ==> Lower(t.id) != Lower(newId))
        ==> IdsDistinct(tasks)
    {
      r := Construct(newId, data);
      if r.Err? {
        return;
      }
      tasks := tasks + [r.value];
      if needSave {
        SaveData();
      }
    }

    /** `get_all`: the list sorted by the five-part key, ties in list order. */
    function GetAll(): (r: seq<TaskRead>)
      reads this
      ensures IsStableSortOf(r, tasks)
    {
      SortByKeyIsStableSort(tasks);
      SortByKey(tasks)
    }

    /**
     * `find`: the tasks whose name or description mentions one of the query's
     * keywords, each as often as it is in the list, sorted as `get_all` sorts.
     */
    method Find(query: string) returns (r: seq<TaskRead>)
      ensures r == SortByKey(Select(tasks, MentionsAny(Keywords(query))))
      ensures IsStableSortOf(r, Select(tasks, MentionsAny(Keywords(query))))
    {
      var keywords := Keywords(query);
      var result := Mentioning(keywords);
      SortByKeyIsStableSort(result);
      r := SortByKey(result);
    }

    /** The loop of `find`: the tasks, in list order, whose name or description mentions a keyword. */
    method Mentioning(keywords: seq<string>) returns (result: seq<TaskRead>)
      ensures result == Select(tasks, MentionsAny(keywords))
    {
      var mentioned := Test(MentionsAny(keywords));
      result := [];
      for i := 0 to |tasks|
        invariant result == Filter(tasks[..i], mentioned)
      {
        var task := tasks[i];
        assert tasks[..i + 1] == tasks[..i] + [task];
        FilterAppend(tasks[..i], [task], mentioned);
        assert Filter([task], mentioned) == if mentioned(task) then [task] else [];
        if Mentions(task.name, keywords) {
          result := result + [task];
        } else if Mentions(task.description, keywords) {
          result := result + [task];
        }
      }
      assert tasks[..|tasks|] == tasks;
    }

    /** `get_by_id`: the first task whose id equals `taskId` ignoring case. */
    method GetById(taskId: string) returns (r: Option<TaskRead>)
      ensures r == var i := FirstWithId(tasks, taskId); if i < |tasks| then Some(tasks[i]) else None
      ensures r.None? <==> forall t :: t in tasks ==> Lower(t.id) != Lower(taskId)
      ensures r.Some? ==> r.value in tasks && Lower(r.value.id) == Lower(taskId)
    {
      for i := 0 to |tasks|
        invariant forall j :: 0 <= j < i ==> Lower(tasks[j].id) != Lower(taskId)
      {
        if Lower(taskId) == Lower(tasks[i].id) {
          return Some(tasks[i]);
        }
      }
      return None;
    }

    /** `get_by_category`: the tasks of that category, in list order (not sorted). */
    function GetByCategory(category: string): (r: seq<TaskRead>)
      reads this
      ensures r == Select(tasks, CategoryIs(category))
      ensures forall x :: x in r <==> x in tasks && CategoryValue(x.category) == category
      ensures ParseCategory(category).None? ==> r == []
    {
      FilterMembers(tasks, Test(CategoryIs(category)));
      UnknownValueSelectsNothing(tasks, category);
      Select(tasks, CategoryIs(category))
    }

    /** `get_by_status`: the tasks with that status, in list order (not sorted). */
    function GetByStatus(status: string): (r: seq<TaskRead>)
      reads this
      ensures r == Select(tasks, StatusIs(status))
      ensures forall x :: x in r <==> x in tasks && StatusValue(x.status) == status
      ensures ParseStatus(status).None? ==> r == []
    {
      FilterMembers(tasks, Test(StatusIs(status)));
      UnknownValueSelectsNothing(tasks, status);
      Select(tasks, StatusIs(status))
    }

    /** `get_by_category_and_status`: both conditions, in list order (not sorted). */
    function GetByCategoryAndStatus(category: string, status: string): (r: seq<TaskRead>)
      reads this
      ensures r == Select(GetByCategory(category), StatusIs(status))
      ensures forall x :: x in r <==> x in tasks && CategoryValue(x.category) == category && StatusValue(x.status) == status
      ensures ParseCategory(category).None? || ParseStatus(status).None? ==> r == []
    {
      SelectBoth(tasks, category, status);
      FilterMembers(tasks, Test(CategoryAndStatusAre(category, status)));
      UnknownValueSelectsNothing(tasks, category);
      UnknownValueSelectsNothing(tasks, status);
      Select(tasks, CategoryAndStatusAre(category, status))
    }

    /** `delete`: the first task with that id goes and the rest keep their order; no such task raises. */
    method Delete(taskId: string, needSave: bool) returns (error: Option<ServiceError>)
      requires Valid()
      modifies this
      ensures Valid()
      ensures var i := FirstWithId(old(tasks), taskId);
        if i == |old(tasks)| then
          error == Some(TaskDoesNotExists(taskId)) && tasks == old(tasks) && stored == old(stored)
        else
          error.None? && tasks == old(tasks)[..i] + old(tasks)[i + 1..]
          && stored == if needSave then Some(Encode(tasks)) else old(stored)
    {
      var task := GetById(taskId);
      if task.None? {
        return Some(TaskDoesNotExists(taskId));
      }
      ghost var i := FirstWithId(tasks, taskId);
      RemoveFound(tasks, taskId);
      DropKeepsValid(tasks, i);
      tasks := RemoveFirst(tasks, task.value);
      if needSave {
        SaveData();
      }
      return None;
    }

    /**
     * `update`: the first task with that id is replaced by the re-validated
     * merge of its fields and the supplied ones; a blank new name raises a
     * validation error, a missing id `TaskDoesNotExists`, and either leaves the list alone.
     */
    method Update(taskId: string, data: TaskUpdate, needSave: bool) returns (error: Option<ServiceError>)
      requires Valid()
      modifies this
      ensures Valid()
      ensures var i := FirstWithId(old(tasks), taskId);
        if i == |old(tasks)| then
          error == Some(TaskDoesNotExists(taskId)) && tasks == old(tasks) && stored == old(stored)
        else if !ValidName(Merge(old(tasks)[i], data).name) then
          error == Some(ValidationError([Invalid(Name)])) && tasks == old(tasks) && stored == old(stored)
        else
          error.None? && tasks == old(tasks)[i := Merge(old(tasks)[i], data)]
          && stored == if needSave then Some(Encode(tasks)) else old(stored)
    {
      for i := 0 to |tasks|
        invariant tasks == old(tasks) && stored == old(stored)
        invariant forall j :: 0 <= j < i ==> Lower(tasks[j].id) != Lower(taskId)
      {
        if Lower(taskId) == Lower(tasks[i].id) {
          FirstWithIdIsFirst(tasks, taskId, i);
          var validated := Revalidate(tasks[i], data);
          if validated.Err? {
            return Some(ValidationError(validated.error));
          }
          tasks := tasks[i := validated.value];
          if needSave {
            SaveData();
          }
          return None;
        }
      }
      return Some(TaskDoesNotExists(taskId));
    }
  }
}
