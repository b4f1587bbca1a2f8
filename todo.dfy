/**
  The to-do record of `src/core/models/Todo.h` and `Todo.cpp`.

  `Todo` is a value type in the program (copied into vectors, returned by
  value, passed by const reference), so it is a datatype here, and a setter
  `t.setX(v)` on a variable becomes `t := t.SetX(v, now)`. The wall clock
  (`std::time`) is the parameter `now`, one reading per modelled operation:
  where the program reads the clock several times in one operation (the two
  timestamps of a constructor, say), all its readings are taken to be equal.
*/
module TodoModel {
  import opened Wrappers

  const SecondsPerDay: int := 86400

  /** Priorities the user can pick: 1 = low, 2 = medium, 3 = high. */
  predicate ValidPriority(p: int) {
    1 <= p <= 3
  }

  datatype Todo = Todo(
    id: int,
    title: string,
    description: string,
    category: string,
    completed: bool,
    createdAt: int,
    updatedAt: int,
    dueDate: Option<int>,  // None: no deadline
    priority: int)
  {
    /** `updateTimestamp`: refreshes `updated_at` and nothing else. */
    function UpdateTimestamp(now: int): (r: Todo)
      ensures r == this.(updatedAt := now)
    {
      this.(updatedAt := now)
    }

    /** `setId`: the only setter that leaves `updated_at` alone. */
    function SetId(newId: int): (r: Todo)
      ensures r == this.(id := newId)
    {
      this.(id := newId)
    }

    function SetTitle(newTitle: string, now: int): (r: Todo)
      ensures r == this.(title := newTitle, updatedAt := now)
    {
      this.(title := newTitle).UpdateTimestamp(now)
    }

    function SetDescription(newDesc: string, now: int): (r: Todo)
      ensures r == this.(description := newDesc, updatedAt := now)
    {
      this.(description := newDesc).UpdateTimestamp(now)
    }

    function SetCategory(newCategory: string, now: int): (r: Todo)
      ensures r == this.(category := newCategory, updatedAt := now)
    {
      this.(category := newCategory).UpdateTimestamp(now)
    }

    function SetCompleted(status: bool, now: int): (r: Todo)
      ensures r == this.(completed := status, updatedAt := now)
    {
      this.(completed := status).UpdateTimestamp(now)
    }

    /** `setPriority`: a value outside 1..3 is ignored, without touching `updated_at`. */
    function SetPriority(newPriority: int, now: int): (r: Todo)
      ensures ValidPriority(newPriority) ==> r == this.(priority := newPriority, updatedAt := now)
      ensures !ValidPriority(newPriority) ==> r == this
    {
      if newPriority >= 1 && newPriority <= 3 then this.(priority := newPriority).UpdateTimestamp(now)
      else this
    }

    function SetDueDate(date: int, now: int): (r: Todo)
      ensures r == this.(dueDate := Some(date), updatedAt := now)
    {
      this.(dueDate := Some(date)).UpdateTimestamp(now)
    }

    function ClearDueDate(now: int): (r: Todo)
      ensures r == this.(dueDate := None, updatedAt := now)
    {
      this.(dueDate := None).UpdateTimestamp(now)
    }

    /** `isOverdue`: an open task whose deadline lies strictly in the past. */
    predicate IsOverdue(now: int) {
      if dueDate.None? || completed then false else now > dueDate.value
    }

    /**
      `daysUntilDue`: 0 without a deadline, otherwise the whole days from `now`
      to the deadline, rounded toward zero (a C++ cast of the quotient).
    */
    function DaysUntilDue(now: int): (days: int)
      ensures dueDate.None? ==> days == 0
      ensures dueDate.Some? && dueDate.value >= now ==>
        days >= 0 && days * SecondsPerDay <= dueDate.value - now < (days + 1) * SecondsPerDay
      ensures dueDate.Some? && dueDate.value < now ==>
        days <= 0 && (days - 1) * SecondsPerDay < dueDate.value - now <= days * SecondsPerDay
    {
      if dueDate.None? then 0 else DivTowardZero(dueDate.value - now, SecondsPerDay)
    }
  }

  /** Integer division rounding toward zero, as a C++ cast of a quotient does. */
  function DivTowardZero(a: int, b: int): int
    requires b > 0
  {
    if a >= 0 then a / b else -((-a) / b)
  }

  /**
    The constructor `Todo(title, description, category, priority)` with the
    default arguments of the header: id 0, open, no deadline, both timestamps
    `now`, and `priority` stored as given, without the setter's range check.
  */
  function Create(now: int, title: string, description: string := "",
                  category: string := "general", priority: int := 2): (t: Todo)
    ensures t.id == 0 && !t.completed && t.dueDate.None?
    ensures t.title == title && t.description == description && t.category == category
    ensures t.priority == priority
    ensures t.createdAt == now && t.updatedAt == now
  {
    Todo(0, title, description, category, false, now, now, None, priority)
  }

  /** The default constructor `Todo()`. */
  function Default(now: int): (t: Todo)
    ensures t.id == 0 && t.title == "" && t.description == "" && t.category == "general"
    ensures !t.completed && t.priority == 2 && t.dueDate.None?
    ensures t.createdAt == now && t.updatedAt == now
  {
    Todo(0, "", "", "general", false, now, now, None, 2)
  }

  /** The default constructor agrees with the other one called with only an empty title. */
  lemma DefaultIsCreateWithDefaults(now: int)
    ensures Default(now) == Create(now, "")
  {
  }

  /** One call of a public setter (`setId` aside), with its argument. */
  datatype Edit =
    | Title(newTitle: string)
    | Description(newDesc: string)
    | Category(newCategory: string)
    | Completed(status: bool)
    | Priority(newPriority: int)
    | DueDate(date: int)
    | NoDueDate
    | Touch

  function Apply(t: Todo, e: Edit, now: int): Todo {
    match e
    case Title(v) => t.SetTitle(v, now)
    case Description(v) => t.SetDescription(v, now)
    case Category(v) => t.SetCategory(v, now)
    case Completed(v) => t.SetCompleted(v, now)
    case Priority(v) => t.SetPriority(v, now)
    case DueDate(v) => t.SetDueDate(v, now)
    case NoDueDate => t.ClearDueDate(now)
    case Touch => t.UpdateTimestamp(now)
  }

  /** A series of setter calls, the i-th one at clock reading `times[i]`. */
  function ApplyAll(t: Todo, edits: seq<Edit>, times: seq<int>): Todo
    requires |times| == |edits|
    decreases |edits|
  {
    if edits == [] then t else ApplyAll(Apply(t, edits[0], times[0]), edits[1..], times[1..])
  }

  /**
    After construction nothing but `setId` writes the id, and nothing at all
    writes `created_at`; a priority in 1..3 stays in 1..3.
  */
  lemma {:induction false} EditsKeepIdentity(t: Todo, edits: seq<Edit>, times: seq<int>)
    requires |times| == |edits|
    ensures ApplyAll(t, edits, times).id == t.id
    ensures ApplyAll(t, edits, times).createdAt == t.createdAt
    ensures ValidPriority(t.priority) ==> ValidPriority(ApplyAll(t, edits, times).priority)
    decreases |edits|
  {
    if edits != [] {
      EditsKeepIdentity(Apply(t, edits[0], times[0]), edits[1..], times[1..]);
    }
  }

  /** Each edit changes its own field and `updated_at`, or nothing at all. */
  lemma EditChangesOnlyItsField(t: Todo, e: Edit, now: int)
    ensures var r := Apply(t, e, now);
      && (r.title != t.title ==> e.Title?)
      && (r.description != t.description ==> e.Description?)
      && (r.category != t.category ==> e.Category?)
      && (r.completed != t.completed ==> e.Completed?)
      && (r.dueDate != t.dueDate ==> e.DueDate? || e.NoDueDate?)
      && (r.priority != t.priority ==> e.Priority? && ValidPriority(e.newPriority))
      && (r == t || r.updatedAt == now)
  {
  }

  /** A task without a deadline, or a finished one, is never overdue. */
  lemma NeverOverdueWithoutOpenDeadline(t: Todo, now: int)
    requires t.dueDate.None? || t.completed
    ensures !t.IsOverdue(now)
  {
  }

  /** Overdue tasks count zero or fewer days; dated tasks that are not overdue count zero or more. */
  lemma OverdueAgreesWithDays(t: Todo, now: int)
    requires t.dueDate.Some? && !t.completed
    ensures t.IsOverdue(now) ==> t.DaysUntilDue(now) <= 0
    ensures !t.IsOverdue(now) ==> t.DaysUntilDue(now) >= 0
  {
  }

  /**
    Rounding toward zero: a task less than a whole day overdue still counts 0
    days, so `DaysUntilDue` is the floor of the day difference plus one
    whenever the task is overdue by a non-whole number of days.
  */
  lemma PartialDayOverdueCountsZero(t: Todo, now: int)
    requires t.dueDate.Some? && t.dueDate.value < now < t.dueDate.value + SecondsPerDay
    ensures t.DaysUntilDue(now) == 0
  {
  }

  lemma DaysRoundTowardZero(t: Todo, now: int)
    requires t.dueDate.Some?
    ensures var diff := t.dueDate.value - now;
      t.DaysUntilDue(now) == if diff < 0 && diff % SecondsPerDay != 0 then diff / SecondsPerDay + 1
                             else diff / SecondsPerDay
  {
  }
}
