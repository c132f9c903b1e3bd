/** The C++ task (cpp/Task.h, cpp/Task.cpp): an object holding a
    description, fixed at construction, and a completion flag that
    `setCompleted` overwrites. */
module CppTask {

  /** The value a task holds. */
  datatype TaskState = TaskState(description: string, completed: bool)

  /** The state after `setCompleted(b)`: the flag is `b`, the description
      stays. */
  function WithCompleted(s: TaskState, b: bool): (r: TaskState)
    ensures r.completed == b && r.description == s.description
  {
    s.(completed := b)
  }

  /** Setting the flag twice to the same value is setting it once, and the
      last setting wins. */
  lemma WithCompletedIdempotent(s: TaskState, a: bool, b: bool)
    ensures WithCompleted(WithCompleted(s, b), b) == WithCompleted(s, b)
    ensures WithCompleted(WithCompleted(s, a), b) == WithCompleted(s, b)
  {
  }

  class Task {
    /** No member assigns the description after construction. */
    const description: string
    var completed: bool

    /** `Task(description, completed = false)`. */
    constructor (description: string, completed: bool := false)
      ensures State() == TaskState(description, completed)
    {
      this.description := description;
      this.completed := completed;
    }

    function State(): TaskState
      reads this
    {
      TaskState(description, completed)
    }

    /** `getDescription`: the description given at construction. */
    function GetDescription(): string
    {
      description
    }

    /** `isCompleted`: the current flag; it only reads the task. */
    function IsCompleted(): bool
      reads this
    {
      completed
    }

    /** `setCompleted(b)`: afterwards `isCompleted()` is `b`, and the
        description is the same. */
    method SetCompleted(completed: bool)
      modifies this
      ensures State() == WithCompleted(old(State()), completed)
      ensures IsCompleted() == completed
    {
      this.completed := completed;
    }
  }
}
