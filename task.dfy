/** The `Task` lifecycle (trackers/task/task.py): a mutable object whose
    `start`, `complete` and `cancel` update its status and timestamps in
    place. The clock reading is a parameter of each transition. */
module Tasks {
  import opened Wrappers
  import opened Calendar
  import opened Common

  datatype TaskStatus = Created | InProgress | Completed | Canceled

  /** A `Task`'s recurrence, an object this model does not look into;
      `truthy` is its Python truthiness. */
  datatype RecurrenceRef = RecurrenceRef(handle: nat, truthy: bool)

  /** `completed - started` as a `timedelta`, in microseconds. */
  function Elapsed(started: DateTime, completed: DateTime): (micros: int)
    requires ValidDateTime(started) && ValidDateTime(completed)
    ensures micros > 0 <==> Before(started, completed)
    ensures micros < 0 <==> Before(completed, started)
  {
    OrderAgreesWithMicros(started, completed);
    OrderAgreesWithMicros(completed, started);
    Micros(completed) - Micros(started)
  }

  /** A task completed `k` minutes after it started ran for exactly `k`
      minutes. */
  lemma ElapsedMinutes(started: DateTime, k: nat)
    requires ValidDateTime(started) && AddMinutes(started, k).Some?
    ensures Elapsed(started, AddMinutes(started, k).value) == k * 60_000_000
  {
  }

  class Task {
    var name: string
    var description: string
    var dueDate: Option<DateTime>
    var reoccurrence: Option<RecurrenceRef>
    var status: TaskStatus
    var startTime: Option<DateTime>
    var completedTime: Option<DateTime>
    /** A `timedelta`, in microseconds. */
    var runtime: Option<int>
    var cancellationReason: Option<string>

    /** What every transition keeps: a new task has no timestamps; a started
        task has a start time, a completed one a completion time; a runtime
        exists only once both timestamps do; a stored reason is never empty;
        timestamps are datetimes. */
    ghost predicate Valid()
      reads this
    {
      (status == Created ==>
         startTime.None? && completedTime.None? && runtime.None? && cancellationReason.None?) &&
      (status == InProgress ==> startTime.Some?) &&
      (status == Completed ==> completedTime.Some?) &&
      (runtime.Some? ==> startTime.Some? && completedTime.Some?) &&
      (cancellationReason.Some? ==> cancellationReason.value != "") &&
      (startTime.Some? ==> ValidDateTime(startTime.value)) &&
      (completedTime.Some? ==> ValidDateTime(completedTime.value))
    }

    /** `Task(name, desc, due, reoccurrence)`: a falsy recurrence is stored
        as None; a datetime is always truthy, so `due` is stored as given. */
    constructor (name: string, desc: string, due: Option<DateTime>,
                 reoccurrence: Option<RecurrenceRef>)
      ensures Valid()
      ensures this.name == name && description == desc && dueDate == due
      ensures this.reoccurrence == (if reoccurrence.Some? && reoccurrence.value.truthy
                                    then reoccurrence else None)
      ensures status == Created && startTime.None? && completedTime.None? &&
              runtime.None? && cancellationReason.None?
    {
      this.name := name;
      description := desc;
      dueDate := due;
      this.reoccurrence := if reoccurrence.Some? && reoccurrence.value.truthy then reoccurrence else None;
      status := Created;
      startTime := None;
      completedTime := None;
      runtime := None;
      cancellationReason := None;
    }

    /** `start`: from any status, also a finished one; an earlier start time
        is overwritten. */
    method Start(now: DateTime)
      requires Valid() && ValidDateTime(now)
      modifies this
      ensures Valid()
      ensures startTime == Some(now) && status == InProgress
      ensures completedTime == old(completedTime) && runtime == old(runtime) &&
              cancellationReason == old(cancellationReason)
      ensures name == old(name) && description == old(description) &&
              dueDate == old(dueDate) && reoccurrence == old(reoccurrence)
    {
      startTime := Some(now);
      status := InProgress;
    }

    /** `_calculate_runtime`: refused unless both timestamps are set; then
        the time from start to completion, positive exactly when completion
        comes after the start. */
    function CalculateRuntime(): (r: Outcome<int>)
      reads this
      requires Valid()
      ensures r.Ok? <==> startTime.Some? && completedTime.Some?
      ensures r.Err? ==> r.error == MissingTimestamps
      ensures r.Ok? ==> r.value == Elapsed(startTime.value, completedTime.value)
    {
      match (startTime, completedTime)
      case (Some(started), Some(completed)) => Ok(Elapsed(started, completed))
      case _ => Err(MissingTimestamps)
    }

    /** `complete`: the completion time and status are written first; the
        runtime follows from the start time, and without one the call fails
        with both already written and the runtime as it was. */
    method Complete(now: DateTime) returns (r: Outcome<()>)
      requires Valid() && ValidDateTime(now)
      modifies this
      ensures Valid()
      ensures completedTime == Some(now) && status == Completed
      ensures r.Ok? <==> old(startTime).Some?
      ensures r.Err? ==> r.error == MissingTimestamps && runtime == old(runtime)
      ensures r.Ok? ==> runtime == Some(Elapsed(old(startTime).value, now))
      ensures startTime == old(startTime) && cancellationReason == old(cancellationReason)
      ensures name == old(name) && description == old(description) &&
              dueDate == old(dueDate) && reoccurrence == old(reoccurrence)
    {
      completedTime := Some(now);
      status := Completed;
      match CalculateRuntime() {
        case Err(e) =>
          r := Err(e);
        case Ok(elapsed) =>
          runtime := Some(elapsed);
          r := Ok(());
      }
    }

    /** `cancel`: from any status; a reason is stored only when it is a
        non-empty string, otherwise an earlier reason stays. */
    method Cancel(reason: Option<string>)
      requires Valid()
      modifies this
      ensures Valid()
      ensures status == Canceled
      ensures cancellationReason == (if reason.Some? && reason.value != "" then reason
                                     else old(cancellationReason))
      ensures startTime == old(startTime) && completedTime == old(completedTime) &&
              runtime == old(runtime)
      ensures name == old(name) && description == old(description) &&
              dueDate == old(dueDate) && reoccurrence == old(reoccurrence)
    {
      status := Canceled;
      if reason.Some? && reason.value != "" {
        cancellationReason := reason;
      }
    }
  }

  /** Starting a task and completing it five minutes later records a runtime
      of exactly five minutes. */
  method FiveMinuteRun(started: DateTime) returns (runtime: Option<int>)
    requires ValidDateTime(started) && AddMinutes(started, 5).Some?
    ensures runtime == Some(5 * 60_000_000)
  {
    var task := new Task("report", "", None, None);
    task.Start(started);
    var done := task.Complete(AddMinutes(started, 5).value);
    ElapsedMinutes(started, 5);
    runtime := task.runtime;
  }

  /** Completing a task that was never started fails, yet leaves it marked
      completed with no runtime. */
  method CompleteWithoutStart(now: DateTime) returns (r: Outcome<()>, status: TaskStatus, runtime: Option<int>)
    requires ValidDateTime(now)
    ensures r == Err(MissingTimestamps) && status == Completed && runtime.None?
  {
    var task := new Task("report", "", None, None);
    r := task.Complete(now);
    status, runtime := task.status, task.runtime;
  }
}
