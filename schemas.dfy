/**
 * The record shapes of src/schemas.py. A pydantic model is validated from a
 * mapping of field names to values; here the values are the strings the
 * data file and the command line carry, so a mapping is a `Fields`.
 */
module Schemas {
  import opened Wrappers
  import opened Constants
  import opened Text
  import opened Dates

  /** The fields of a task record, in declaration order; `Key` is the name each has in the data. */
  datatype Field = Name | Description | Category | Deadline | Priority | Id | Status

  function Key(f: Field): string {
    match f
    case Name => "name"
    case Description => "description"
    case Category => "category"
    case Deadline => "deadline"
    case Priority => "priority"
    case Id => "id"
    case Status => "status"
  }

  /** A record as pydantic receives it: field to value text. */
  type Fields = map<Field, string>

  /** The creation payload: the five base fields, no id and no status. */
  datatype TaskCreate = TaskCreate(
    name: string,
    description: string,
    category: TaskCategory,
    deadline: Date,
    priority: TaskPriority)

  /** A stored task: the base fields plus id and status. */
  datatype TaskRead = TaskRead(
    id: string,
    name: string,
    description: string,
    category: TaskCategory,
    deadline: Date,
    priority: TaskPriority,
    status: TaskStatus)

  /** The update payload: every field optional, `None` meaning "leave unchanged". */
  datatype TaskUpdate = TaskUpdate(
    name: Option<string>,
    description: Option<string>,
    category: Option<TaskCategory>,
    deadline: Option<Date>,
    priority: Option<TaskPriority>,
    status: Option<TaskStatus>)

  /** `TaskUpdate()`: every field defaults to `None`. */
  const EmptyUpdate: TaskUpdate := TaskUpdate(None, None, None, None, None, None)

  /** One entry of a pydantic `ValidationError`: the field and whether it was absent or rejected. */
  datatype FieldError = Missing(field: Field) | Invalid(field: Field)

  /** Fields in declaration order: the base schema's, then TaskRead's own. */
  const BaseFields: seq<Field> := [Name, Description, Category, Deadline, Priority]
  const ReadFields: seq<Field> := BaseFields + [Id, Status]
  const UpdateFields: seq<Field> := BaseFields + [Status]

  /** ReadFields lists every field once; UpdateFields all but the id. */
  lemma FieldListsComplete()
    ensures forall f: Field :: f in ReadFields
    ensures forall f: Field :: f in UpdateFields <==> f != Id
    ensures forall f: Field :: f in BaseFields <==> f != Id && f != Status
    ensures forall f: Field :: f in UpdateFields[1..] <==> f != Id && f != Name
  {
    forall f: Field ensures f in ReadFields && (f in UpdateFields <==> f != Id)
      && (f in BaseFields <==> f != Id && f != Status) && (f in UpdateFields[1..] <==> f != Id && f != Name)
    {
      match f
      case Name => assert f == ReadFields[0] == UpdateFields[0];
      case Description => assert f == ReadFields[1] == UpdateFields[1..][0];
      case Category => assert f == ReadFields[2] == UpdateFields[1..][1];
      case Deadline => assert f == ReadFields[3] == UpdateFields[1..][2];
      case Priority => assert f == ReadFields[4] == UpdateFields[1..][3];
      case Id => assert f == ReadFields[5];
      case Status => assert f == ReadFields[6] == UpdateFields[1..][4];
    }
  }

  /**
   * The `name` validator: the name must hold something besides whitespace.
   * `ValidNameIsStripTest` shows this is the validator's own test, that
   * `strip()` leaves something.
   */
  predicate ValidName(name: string) {
    !AllSpace(name)
  }

  /** The validator rejects exactly the names that `strip()` empties. */
  lemma ValidNameIsStripTest(name: string)
    ensures ValidName(name) <==> !IsBlank(name)
  {
    BlankIffAllSpace(name);
  }

  /** What validation guarantees of a stored task beyond its types. */
  predicate ValidTask(t: TaskRead) {
    ValidName(t.name)
  }

  /** Whether the value given for a field passes that field's validation. */
  predicate FieldOk(f: Field, value: string) {
    match f
    case Name => ValidName(value)
    case Category => ParseCategory(value).Some?
    case Deadline => ParseDate(value).Some?
    case Priority => ParsePriority(value).Some?
    case Status => ParseStatus(value).Some?
    case Description => true
    case Id => true
  }

  /** Every required field that is absent or rejected, in declaration order. */
  function FieldErrors(m: Fields, keys: seq<Field>): (errs: seq<FieldError>)
    ensures errs == [] <==> forall f :: f in keys ==> f in m && FieldOk(f, m[f])
    ensures forall e :: e in errs ==>
      && e.field in keys
      && (e.Missing? <==> e.field !in m)
      && (e.Invalid? ==> !FieldOk(e.field, m[e.field]))
    ensures forall f :: f in keys && f !in m ==> Missing(f) in errs
    ensures forall f :: f in keys && f in m && !FieldOk(f, m[f]) ==> Invalid(f) in errs
  {
    if keys == [] then []
    else
      var f := keys[0];
      (if f !in m then [Missing(f)] else if !FieldOk(f, m[f]) then [Invalid(f)] else [])
        + FieldErrors(m, keys[1..])
  }

  /** Optional fields: only the fields present are checked. */
  function PresentFieldErrors(m: Fields, keys: seq<Field>): (errs: seq<FieldError>)
    ensures errs == [] <==> forall f :: f in keys && f in m ==> FieldOk(f, m[f])
    ensures forall e :: e in errs ==> e.Invalid? && e.field in keys && e.field in m && !FieldOk(e.field, m[e.field])
    ensures forall f :: f in keys && f in m && !FieldOk(f, m[f]) ==> Invalid(f) in errs
  {
    if keys == [] then []
    else
      var f := keys[0];
      (if f in m && !FieldOk(f, m[f]) then [Invalid(f)] else []) + PresentFieldErrors(m, keys[1..])
  }

  // ---------------------------------------------------------------- rendering

  /** A field of a task as text: enums by value, the deadline as `YYYY-MM-DD`. */
  function FieldText(t: TaskRead, f: Field): (v: string)
  {
    match f
    case Name => t.name
    case Description => t.description
    case Category => CategoryValue(t.category)
    case Deadline => FormatDate(t.deadline)
    case Priority => PriorityValue(t.priority)
    case Id => t.id
    case Status => StatusValue(t.status)
  }

  /** Each rendered field passes its own validation, the name exactly when it is not blank. */
  lemma FieldTextValid(t: TaskRead, f: Field)
    ensures FieldOk(f, FieldText(t, f)) <==> (f == Name ==> ValidName(t.name))
  {
    ValuesRoundTrip();
    ParseFormat(t.deadline);
  }

  /** `TaskRead.serialize_model`: all seven fields, each rendered as text. */
  function Serialize(t: TaskRead): (m: Fields)
    ensures forall f: Field :: f in m
  {
    FieldListsComplete();
    map f: Field | f in ReadFields :: FieldText(t, f)
  }

  /** `TaskCreate.model_dump()`, each value in the form its validator accepts. */
  function DumpCreate(c: TaskCreate): (m: Fields)
    ensures forall f :: f in m <==> f in BaseFields
  {
    var t := TaskRead("", c.name, c.description, c.category, c.deadline, c.priority, NotCompleted);
    map f: Field | f in BaseFields :: FieldText(t, f)
  }

  lemma DumpCreateValues(c: TaskCreate)
    ensures DumpCreate(c)[Name] == c.name && DumpCreate(c)[Description] == c.description
    ensures DumpCreate(c)[Category] == CategoryValue(c.category)
    ensures DumpCreate(c)[Deadline] == FormatDate(c.deadline)
    ensures DumpCreate(c)[Priority] == PriorityValue(c.priority)
  {
    FieldListsComplete();
  }

  /** The text of a field an update supplies, or `None` when it leaves the field alone. */
  function UpdateText(u: TaskUpdate, f: Field): Option<string>
  {
    match f
    case Name => if u.name.Some? then Some(u.name.value) else None
    case Description => if u.description.Some? then Some(u.description.value) else None
    case Category => if u.category.Some? then Some(CategoryValue(u.category.value)) else None
    case Deadline => if u.deadline.Some? then Some(FormatDate(u.deadline.value)) else None
    case Priority => if u.priority.Some? then Some(PriorityValue(u.priority.value)) else None
    case Status => if u.status.Some? then Some(StatusValue(u.status.value)) else None
    case Id => None
  }

  /** `TaskUpdate.model_dump(exclude_none=True)`: only the fields that were supplied. */
  function DumpUpdate(u: TaskUpdate): (m: Fields)
    ensures Id !in m
    ensures forall f :: f in m <==> UpdateText(u, f).Some?
  {
    map f: Field | UpdateText(u, f).Some? :: UpdateText(u, f).value
  }

  // ---------------------------------------------------------------- validation

  /** The task whose fields are the validated values of `m`. */
  function Parsed(m: Fields): (t: TaskRead)
    requires forall f: Field :: f in m && FieldOk(f, m[f])
  {
    assert FieldOk(Category, m[Category]) && FieldOk(Deadline, m[Deadline]);
    assert FieldOk(Priority, m[Priority]) && FieldOk(Status, m[Status]);
    TaskRead(
      m[Id], m[Name], m[Description],
      ParseCategory(m[Category]).value,
      ParseDate(m[Deadline]).value,
      ParsePriority(m[Priority]).value,
      ParseStatus(m[Status]).value)
  }

  /** The parsed task renders back to exactly the text it was parsed from. */
  lemma ParsedRendersBack(m: Fields)
    requires forall f: Field :: f in m && FieldOk(f, m[f])
    ensures ValidTask(Parsed(m))
    ensures forall f: Field :: FieldText(Parsed(m), f) == m[f]
  {
    assert FieldOk(Name, m[Name]);
    forall f: Field ensures FieldText(Parsed(m), f) == m[f] {
      assert FieldOk(f, m[f]);
      match f
      case Deadline => FormatParse(m[Deadline]);
      case _ =>
    }
  }

  /** `TaskRead.model_validate`: a task when every field is present and valid, else every error. */
  function ValidateRead(m: Fields): (r: Result<TaskRead, seq<FieldError>>)
    ensures r.Ok? <==> forall f: Field :: f in m && FieldOk(f, m[f])
    ensures r.Err? ==> r.error == FieldErrors(m, ReadFields) && r.error != []
    ensures r.Ok? ==> ValidTask(r.value)
    ensures r.Ok? ==> forall f: Field :: FieldText(r.value, f) == m[f]
  {
    FieldListsComplete();
    var errs := FieldErrors(m, ReadFields);
    if errs != [] then Err(errs)
    else
      ParsedRendersBack(m);
      Ok(Parsed(m))
  }

  /** The creation payload whose fields are the validated values of `m`. */
  function ParsedCreate(m: Fields): (c: TaskCreate)
    requires forall f :: f in BaseFields ==> f in m && FieldOk(f, m[f])
  {
    FieldListsComplete();
    assert FieldOk(Category, m[Category]) && FieldOk(Deadline, m[Deadline]) && FieldOk(Priority, m[Priority]);
    TaskCreate(
      m[Name], m[Description],
      ParseCategory(m[Category]).value,
      ParseDate(m[Deadline]).value,
      ParsePriority(m[Priority]).value)
  }

  lemma ParsedCreateRendersBack(m: Fields)
    requires forall f :: f in BaseFields ==> f in m && FieldOk(f, m[f])
    ensures ValidName(ParsedCreate(m).name)
    ensures forall f :: f in BaseFields ==> DumpCreate(ParsedCreate(m))[f] == m[f]
  {
    FieldListsComplete();
    assert FieldOk(Name, m[Name]);
    var c := ParsedCreate(m);
    forall f | f in BaseFields ensures DumpCreate(c)[f] == m[f] {
      assert FieldOk(f, m[f]);
      DumpCreateValues(c);
      match f
      case Deadline => FormatParse(m[Deadline]);
      case _ =>
    }
  }

  /** `TaskCreate(...)`: validation of the five base fields. */
  function ValidateCreate(m: Fields): (r: Result<TaskCreate, seq<FieldError>>)
    ensures r.Ok? <==> forall f :: f in BaseFields ==> f in m && FieldOk(f, m[f])
    ensures r.Err? ==> r.error == FieldErrors(m, BaseFields) && r.error != []
    ensures r.Ok? ==> ValidName(r.value.name)
    ensures r.Ok? ==> forall f :: f in BaseFields ==> DumpCreate(r.value)[f] == m[f]
  {
    var errs := FieldErrors(m, BaseFields);
    if errs != [] then Err(errs)
    else
      ParsedCreateRendersBack(m);
      Ok(ParsedCreate(m))
  }

  /** The update whose supplied fields are the validated values present in `m`. */
  function ParsedUpdate(m: Fields): (u: TaskUpdate)
    requires forall f :: f in m && f != Name && f != Id ==> FieldOk(f, m[f])
  {
    TaskUpdate(
      if Name in m then Some(m[Name]) else None,
      if Description in m then Some(m[Description]) else None,
      if Category in m && FieldOk(Category, m[Category]) then Some(ParseCategory(m[Category]).value) else None,
      if Deadline in m && FieldOk(Deadline, m[Deadline]) then Some(ParseDate(m[Deadline]).value) else None,
      if Priority in m && FieldOk(Priority, m[Priority]) then Some(ParsePriority(m[Priority]).value) else None,
      if Status in m && FieldOk(Status, m[Status]) then Some(ParseStatus(m[Status]).value) else None)
  }

  lemma ParsedUpdateRendersBack(m: Fields)
    requires forall f :: f in m && f != Name && f != Id ==> FieldOk(f, m[f])
    ensures DumpUpdate(ParsedUpdate(m)) == m - {Id}
  {
    var u := ParsedUpdate(m);
    forall f: Field ensures (f in m - {Id} <==> UpdateText(u, f).Some?) && (f in m - {Id} ==> UpdateText(u, f).value == m[f]) {
      match f
      case Deadline => if Deadline in m { FormatParse(m[Deadline]); }
      case _ =>
    }
  }

  /** `TaskUpdate(...)`: absent fields become `None`; present ones must be valid
      (the name is not checked here, only when the merged task is re-validated). */
  function ValidateUpdate(m: Fields): (r: Result<TaskUpdate, seq<FieldError>>)
    ensures r.Ok? <==> forall f :: f in m && f != Name && f != Id ==> FieldOk(f, m[f])
    ensures r.Err? ==> r.error != [] && forall e :: e in r.error ==> e.Invalid? && e.field != Name && e.field != Id
    ensures r.Ok? ==> DumpUpdate(r.value) == m - {Id}
  {
    FieldListsComplete();
    var errs := PresentFieldErrors(m, UpdateFields[1..]);
    if errs != [] then Err(errs)
    else
      ParsedUpdateRendersBack(m);
      Ok(ParsedUpdate(m))
  }

  // ---------------------------------------------------------------- round trips

  /** Two tasks that render to the same text in every field are the same task. */
  lemma RenderingInjective(a: TaskRead, b: TaskRead)
    requires forall f: Field :: FieldText(a, f) == FieldText(b, f)
    ensures a == b
  {
    assert FieldText(a, Id) == FieldText(b, Id) && FieldText(a, Name) == FieldText(b, Name);
    assert FieldText(a, Description) == FieldText(b, Description);
    assert FieldText(a, Category) == FieldText(b, Category);
    assert FieldText(a, Deadline) == FieldText(b, Deadline);
    assert FieldText(a, Priority) == FieldText(b, Priority);
    assert FieldText(a, Status) == FieldText(b, Status);
    ValuesInjective();
    ParseFormat(a.deadline);
    ParseFormat(b.deadline);
  }

  /** Validating the serialised form of a task gives the task back; a blank
      name is the one thing that can make it fail. */
  lemma {:induction false} SerializeRoundTrip(t: TaskRead)
    ensures ValidateRead(Serialize(t)) == if ValidTask(t) then Ok(t) else Err([Invalid(Name)])
  {
    var m := Serialize(t);
    FieldListsComplete();
    forall f: Field ensures FieldOk(f, m[f]) <==> (f == Name ==> ValidName(t.name)) {
      FieldTextValid(t, f);
    }
    if ValidTask(t) {
      RenderingInjective(ValidateRead(m).value, t);
    } else {
      OnlyNameFails(m);
    }
  }

  lemma OnlyNameFails(m: Fields)
    requires forall f: Field :: f in m && (FieldOk(f, m[f]) <==> f != Name)
    ensures FieldErrors(m, ReadFields) == [Invalid(Name)]
  {
    FieldListsComplete();
    assert ReadFields[0] == Name;
    assert forall f :: f in ReadFields[1..] ==> f != Name by {
      assert ReadFields[1..] == [Description, Category, Deadline, Priority, Id, Status];
    }
    assert FieldErrors(m, ReadFields[1..]) == [];
  }

  /** The partial update: a field the update supplies is overwritten, any other is kept. */
  function Merge(t: TaskRead, u: TaskUpdate): (r: TaskRead)
    ensures r.id == t.id
    ensures forall f: Field :: FieldText(r, f) == (if UpdateText(u, f).Some? then UpdateText(u, f).value else FieldText(t, f))
  {
    var r := TaskRead(
      t.id,
      if u.name.Some? then u.name.value else t.name,
      if u.description.Some? then u.description.value else t.description,
      if u.category.Some? then u.category.value else t.category,
      if u.deadline.Some? then u.deadline.value else t.deadline,
      if u.priority.Some? then u.priority.value else t.priority,
      if u.status.Some? then u.status.value else t.status);
    MergedText(t, u, r);
    r
  }

  lemma MergedText(t: TaskRead, u: TaskUpdate, r: TaskRead)
    requires r.id == t.id
    requires r.name == (if u.name.Some? then u.name.value else t.name)
    requires r.description == (if u.description.Some? then u.description.value else t.description)
    requires r.category == (if u.category.Some? then u.category.value else t.category)
    requires r.deadline == (if u.deadline.Some? then u.deadline.value else t.deadline)
    requires r.priority == (if u.priority.Some? then u.priority.value else t.priority)
    requires r.status == (if u.status.Some? then u.status.value else t.status)
    ensures forall f: Field :: FieldText(r, f) == (if UpdateText(u, f).Some? then UpdateText(u, f).value else FieldText(t, f))
  {
    forall f: Field
      ensures FieldText(r, f) == (if UpdateText(u, f).Some? then UpdateText(u, f).value else FieldText(t, f))
    {
      match f
      case Name =>
      case Description =>
      case Category =>
      case Deadline =>
      case Priority =>
      case Id =>
      case Status =>
    }
  }

  /** `TaskUpdate()` changes nothing, and applying the same update twice is applying it once. */
  lemma MergeLaws(t: TaskRead, u: TaskUpdate)
    ensures Merge(t, EmptyUpdate) == t
    ensures Merge(Merge(t, u), u) == Merge(t, u)
  {
  }

  /** `task.model_dump()` updated with the supplied fields is the serialised merge. */
  lemma DumpThenUpdate(t: TaskRead, u: TaskUpdate)
    ensures Serialize(t) + DumpUpdate(u) == Serialize(Merge(t, u))
  {
    FieldListsComplete();
    var lhs := Serialize(t) + DumpUpdate(u);
    var rhs := Serialize(Merge(t, u));
    assert forall f: Field :: f in lhs && f in rhs && lhs[f] == rhs[f];
  }

  /** Re-validating the merged record: the merge itself, unless the new name is blank. */
  lemma UpdateRevalidates(t: TaskRead, u: TaskUpdate)
    ensures ValidateRead(Serialize(t) + DumpUpdate(u))
      == if ValidName(Merge(t, u).name) then Ok(Merge(t, u)) else Err([Invalid(Name)])
  {
    DumpThenUpdate(t, u);
    SerializeRoundTrip(Merge(t, u));
  }

  /** `TaskRead(id=..., status=not_completed, **data.model_dump())`. */
  function NewTask(id: string, c: TaskCreate): (t: TaskRead)
    ensures t.id == id && t.status == NotCompleted
    ensures forall f :: f in BaseFields ==> FieldText(t, f) == DumpCreate(c)[f]
  {
    var t := TaskRead(id, c.name, c.description, c.category, c.deadline, c.priority, NotCompleted);
    NewTaskCarriesPayload(t, c);
    t
  }

  lemma NewTaskCarriesPayload(t: TaskRead, c: TaskCreate)
    requires t.name == c.name && t.description == c.description && t.category == c.category
    requires t.deadline == c.deadline && t.priority == c.priority
    ensures forall f :: f in BaseFields ==> FieldText(t, f) == DumpCreate(c)[f]
  {
    FieldListsComplete();
    DumpCreateValues(c);
    forall f | f in BaseFields ensures FieldText(t, f) == DumpCreate(c)[f] {
      match f
      case Name =>
      case Description =>
      case Category =>
      case Deadline =>
      case Priority =>
    }
  }

  /** Constructing the new task re-runs validation, which fails only on a blank name. */
  lemma NewTaskValidates(id: string, c: TaskCreate)
    ensures ValidateRead(DumpCreate(c)[Id := id][Status := StatusValue(NotCompleted)])
      == if ValidName(c.name) then Ok(NewTask(id, c)) else Err([Invalid(Name)])
  {
    FieldListsComplete();
    var m := DumpCreate(c)[Id := id][Status := StatusValue(NotCompleted)];
    var t := NewTask(id, c);
    assert m == Serialize(t) by {
      forall f: Field ensures f in m && m[f] == Serialize(t)[f] {
        if f in BaseFields { assert f != Id && f != Status; }
      }
    }
    SerializeRoundTrip(t);
  }
}
