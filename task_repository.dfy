/** The in-memory task store (repository/task_repository.go): the task
    validator, pure rules over a task's fields, and the store itself, an
    ordered list of tasks changed in place by create, update and delete.
    The store's mutex is held for the whole of every method, so each method
    is one atomic step here. */
module TaskRepository {
  import opened Outcomes
  import opened GoStrings
  import opened Domain
  import opened Seqs

  const MinTitleLen: nat := 3
  const MaxTitleLen: nat := 100

  // The error texts, as the source words them (the two bounds texts do not
  // match the bounds the checks use).
  const ErrTitleEmpty := "title must not be empty"
  const ErrTitleTooLong := "title must be less than 100 characters"
  const ErrTitleTooShort := "title must be greater than 3 characters"
  const ErrDescriptionEmpty := "description must not be empty"
  const ErrStatusInvalid := "status is invalid"
  const ErrTaskNotFound := "task not found"

  // ---------------------------------------------------------------------
  // What a storable task is, stated without reference to the validator.

  /** Not blank, and between 3 and 100 bytes long, both included. */
  predicate ValidTitle(title: string) {
    !IsBlank(title) && MinTitleLen <= ByteLen(title) <= MaxTitleLen
  }

  predicate ValidDescription(description: string) {
    !IsBlank(description)
  }

  predicate ValidStatus(status: TaskStatus) {
    status in {TaskStatusComplete, TaskStatusInProgress, TaskStatusStarted}
  }

  predicate ValidTask(t: Task) {
    ValidTitle(t.title) && ValidDescription(t.description) && ValidStatus(t.status)
  }

  // ---------------------------------------------------------------------
  // The validator.

  /** validateTitle: a blank title is reported as empty whatever its length;
      otherwise one over 100 bytes is too long and one under 3 bytes too short. */
  function ValidateTitle(title: string): (r: Outcome)
    ensures r == Pass <==> ValidTitle(title)
    ensures r == Fail(ErrTitleEmpty) <==> IsBlank(title)
    ensures r == Fail(ErrTitleTooLong) <==> !IsBlank(title) && ByteLen(title) > MaxTitleLen
    ensures r == Fail(ErrTitleTooShort) <==> !IsBlank(title) && ByteLen(title) < MinTitleLen
  {
    if TrimSpace(title) == "" then Fail(ErrTitleEmpty)
    else if ByteLen(title) > MaxTitleLen then Fail(ErrTitleTooLong)
    else if ByteLen(title) < MinTitleLen then Fail(ErrTitleTooShort)
    else Pass
  }

  /** validateDescription: only a blank description is refused; no length bound. */
  function ValidateDescription(description: string): (r: Outcome)
    ensures r == Pass <==> ValidDescription(description)
    ensures r.Fail? ==> r.error == ErrDescriptionEmpty
  {
    if TrimSpace(description) == "" then Fail(ErrDescriptionEmpty) else Pass
  }

  /** validateStatus: exactly the three status constants pass. */
  function ValidateStatus(status: TaskStatus): (r: Outcome)
    ensures r == Pass <==> ValidStatus(status)
    ensures r.Fail? ==> r.error == ErrStatusInvalid
  {
    if status == TaskStatusComplete || status == TaskStatusInProgress || status == TaskStatusStarted
    then Pass
    else Fail(ErrStatusInvalid)
  }

  /** Validate: passes exactly the valid tasks, and reports the title's error
      if there is one, else the description's, else the status's. */
  function Validate(t: Task): (r: Outcome)
    ensures r == Pass <==> ValidTask(t)
    ensures !ValidTitle(t.title) ==> r == ValidateTitle(t.title)
    ensures ValidTitle(t.title) && !ValidDescription(t.description) ==> r == Fail(ErrDescriptionEmpty)
    ensures ValidTitle(t.title) && ValidDescription(t.description) && !ValidStatus(t.status) ==>
              r == Fail(ErrStatusInvalid)
  {
    var title := ValidateTitle(t.title);
    if title.Fail? then title
    else
      var description := ValidateDescription(t.description);
      if description.Fail? then description
      else ValidateStatus(t.status)
  }

  /** On ASCII titles the bounds are character counts: a non-blank title of
      2 characters is too short, of 3 to 100 valid, of 101 too long. */
  lemma TitleVerdictOnAscii(title: string)
    requires IsAscii(title) && !IsBlank(title)
    ensures ValidateTitle(title) ==
      if |title| > MaxTitleLen then Fail(ErrTitleTooLong)
      else if |title| < MinTitleLen then Fail(ErrTitleTooShort)
      else Pass
  {
    AsciiByteLen(title);
  }

  /** The bounds count bytes, not characters: a title of two two-byte
      characters is accepted, and one of 34 three-byte characters (102
      bytes) is too long. */
  lemma TitleBoundsCountBytes()
    ensures ValidateTitle("\U{E9}\U{E9}") == Pass
    ensures ValidateTitle(seq(34, _ => '\U{20AC}')) == Fail(ErrTitleTooLong)
  {
    assert ByteLen("\U{E9}") == 2;
    assert ByteLen("\U{E9}\U{E9}") == 4;
    var euros := seq(34, _ => '\U{20AC}');
    assert !IsSpace(euros[0]);
    EuroByteLen(34);
  }

  /** ByteLen of n copies of the euro sign. */
  lemma {:induction false} EuroByteLen(n: nat)
    ensures ByteLen(seq(n, _ => '\U{20AC}')) == 3 * n
  {
    if n > 0 {
      var s := seq(n, _ => '\U{20AC}');
      assert s[1..] == seq(n - 1, _ => '\U{20AC}');
      EuroByteLen(n - 1);
    }
  }

  // ---------------------------------------------------------------------
  // The stored list and its lookups.

  predicate DistinctIds(ts: seq<Task>) {
    forall i, j :: 0 <= i < j < |ts| ==> ts[i].id != ts[j].id
  }

  predicate AllValid(ts: seq<Task>) {
    forall i :: 0 <= i < |ts| ==> ValidTask(ts[i])
  }

  /** Every stored task passed validation, and no two share an id. */
  predicate StoreInvariant(ts: seq<Task>) {
    AllValid(ts) && DistinctIds(ts)
  }

  /** The ids of the stored tasks, in order. */
  function Ids(ts: seq<Task>): (r: seq<ObjectID>)
    ensures |r| == |ts| && forall i :: 0 <= i < |ts| ==> r[i] == ts[i].id
  {
    seq(|ts|, i requires 0 <= i < |ts| => ts[i].id)
  }

  /** Index of the first task with the given id, as the range loops find it. */
  function FirstWithId(ts: seq<Task>, id: ObjectID): (k: Option<nat>)
    ensures k.Some? ==> k.value < |ts| && ts[k.value].id == id
    ensures k.Some? ==> forall j :: 0 <= j < k.value ==> ts[j].id != id
    ensures k.None? ==> forall j :: 0 <= j < |ts| ==> ts[j].id != id
  {
    FirstIndex(Ids(ts), id)
  }

  /** The list with position i spliced out, the rest in their order. */
  function Removed(ts: seq<Task>, i: nat): (r: seq<Task>)
    requires i < |ts|
    ensures |r| == |ts| - 1
    ensures forall j :: 0 <= j < i ==> r[j] == ts[j]
    ensures forall j :: i <= j < |r| ==> r[j] == ts[j + 1]
  {
    ts[..i] + ts[i + 1..]
  }

  /** A created task extends a valid store to a valid store, and a lookup of
      its fresh id finds it at the end. */
  lemma CreateKeepsInvariant(ts: seq<Task>, t: Task, newId: ObjectID)
    requires StoreInvariant(ts) && ValidTask(t)
    requires forall i :: 0 <= i < |ts| ==> ts[i].id != newId
    ensures StoreInvariant(ts + [t.(id := newId)])
    ensures FirstWithId(ts + [t.(id := newId)], newId) == Some(|ts|)
  {
    var t' := t.(id := newId);
    var r := ts + [t'];
    assert ValidTask(t') by {
      assert t'.title == t.title && t'.description == t.description && t'.status == t.status;
    }
    assert forall i :: 0 <= i < |ts| ==> r[i] == ts[i];
    FirstIndexAt(Ids(r), newId, |ts|);
  }

  /** Replacing the first task with t's id keeps the store valid, and a
      lookup of that id then finds t at the same position. */
  lemma UpdateKeepsInvariant(ts: seq<Task>, t: Task, k: nat)
    requires StoreInvariant(ts) && ValidTask(t)
    requires FirstWithId(ts, t.id) == Some(k)
    ensures StoreInvariant(ts[k := t])
    ensures FirstWithId(ts[k := t], t.id) == Some(k)
  {
    FirstIndexAt(Ids(ts[k := t]), t.id, k);
  }

  /** Splicing out a task keeps the store valid, and because ids are
      distinct a later lookup of the removed id fails. */
  lemma DeleteKeepsInvariant(ts: seq<Task>, k: nat)
    requires StoreInvariant(ts) && k < |ts|
    ensures StoreInvariant(Removed(ts, k))
    ensures FirstWithId(Removed(ts, k), ts[k].id) == None
  {
    var r := Removed(ts, k);
    forall i, j | 0 <= i < j < |r| ensures r[i].id != r[j].id {
      var i' := if i < k then i else i + 1;
      var j' := if j < k then j else j + 1;
      assert r[i] == ts[i'] && r[j] == ts[j'] && i' < j';
    }
    forall j | 0 <= j < |r| ensures r[j].id != ts[k].id {
      assert r[j] == ts[if j < k then j else j + 1];
    }
  }

  // ---------------------------------------------------------------------
  // The store.

  class InMemoryTaskRepository {
    var tasks: seq<Task>

    ghost predicate Valid()
      reads this
    {
      StoreInvariant(tasks)
    }

    /** NewInMemoryTaskRepository: an empty store. */
    constructor ()
      ensures Valid() && tasks == []
    {
      tasks := [];
    }

    /** CreateTask. newId stands for primitive.NewObjectID(), which the
        source trusts to be unused. The second result is the caller's task
        after the call: it receives the id only when the task is stored. */
    method CreateTask(task: Task, newId: ObjectID) returns (err: Outcome, task': Task)
      requires Valid()
      requires forall i :: 0 <= i < |tasks| ==> tasks[i].id != newId
      modifies this
      ensures Valid()
      ensures err == Validate(task)
      ensures err.Pass? ==> task' == task.(id := newId) && tasks == old(tasks) + [task']
      ensures err.Fail? ==> task' == task && tasks == old(tasks)
    {
      err := Validate(task);
      if err.Fail? {
        return err, task;
      }
      task' := task.(id := newId);
      CreateKeepsInvariant(tasks, task, newId);
      tasks := tasks + [task'];
    }

    /** GetAllTasks: the list in insertion order; it never fails. */
    method GetAllTasks() returns (all: seq<Task>)
      ensures all == tasks
    {
      all := tasks;
    }

    /** GetTaskByID: the first task with the id, or "task not found". */
    method GetTaskByID(id: ObjectID) returns (r: Result<Task>)
      ensures r.Ok? <==> exists i :: 0 <= i < |tasks| && tasks[i].id == id
      ensures r.Ok? ==> FirstWithId(tasks, id).Some? && r.value == tasks[FirstWithId(tasks, id).value]
      ensures r.Err? ==> r.error == ErrTaskNotFound
    {
      for i := 0 to |tasks|
        invariant forall j :: 0 <= j < i ==> tasks[j].id != id
      {
        if tasks[i].id == id {
          return Ok(tasks[i]);
        }
      }
      return Err(ErrTaskNotFound);
    }

    /** UpdateTask: an invalid task is refused with its validation error;
        a valid one replaces the first task with its id, in place, or the
        call fails with "task not found". A failure changes nothing. */
    method UpdateTask(task: Task) returns (err: Outcome)
      requires Valid()
      modifies this
      ensures Valid()
      ensures !ValidTask(task) ==> err == Validate(task) && tasks == old(tasks)
      ensures ValidTask(task) ==>
        match FirstWithId(old(tasks), task.id)
        case Some(k) => err == Pass && tasks == old(tasks)[k := task]
        case None => err == Fail(ErrTaskNotFound) && tasks == old(tasks)
    {
      err := Validate(task);
      if err.Fail? {
        return;
      }
      for i := 0 to |tasks|
        invariant tasks == old(tasks)
        invariant task.id !in Ids(tasks)[..i]
      {
        if tasks[i].id == task.id {
          FirstIndexAt(Ids(tasks), task.id, i);
          UpdateKeepsInvariant(tasks, task, i);
          tasks := tasks[i := task];
          return Pass;
        }
        NotInPrefixStep(Ids(tasks), task.id, i);
      }
      NotInPrefixDone(Ids(tasks), task.id);
      return Fail(ErrTaskNotFound);
    }

    /** DeleteTask: splices out the first task with the id, keeping the
        order of the others, or fails with "task not found" and changes nothing. */
    method DeleteTask(id: ObjectID) returns (err: Outcome)
      requires Valid()
      modifies this
      ensures Valid()
      ensures match FirstWithId(old(tasks), id)
        case Some(k) => err == Pass && tasks == Removed(old(tasks), k)
        case None => err == Fail(ErrTaskNotFound) && tasks == old(tasks)
    {
      for i := 0 to |tasks|
        invariant tasks == old(tasks)
        invariant id !in Ids(tasks)[..i]
      {
        if tasks[i].id == id {
          FirstIndexAt(Ids(tasks), id, i);
          DeleteKeepsInvariant(tasks, i);
          tasks := Removed(tasks, i);
          return Pass;
        }
        NotInPrefixStep(Ids(tasks), id, i);
      }
      NotInPrefixDone(Ids(tasks), id);
      return Fail(ErrTaskNotFound);
    }
  }
}
