/**
  The list logic of `src/gui/MainWindow.cpp`: which records the list shows,
  in what order, the text and styling of each row, the status line, and the
  completion toggles. Widgets, dialogs and the deferred refresh are left out.
*/
module TodoListView {
  import opened Wrappers
  import opened Sorting
  import opened Text
  import opened TodoModel
  import opened TodoStore
  import opened ItemDelegate

  /** The filter entry that lists every category. */
  const AllFilter: string := "All"
  /** What joins the parts of a metadata line. */
  const Separator: string := " • "

  /** The `std::sort` comparator: open first, then higher priority, then dated, then earlier. */
  predicate SortsBefore(a: Todo, b: Todo) {
    if a.completed != b.completed then !a.completed
    else if a.priority != b.priority then a.priority > b.priority
    else if a.dueDate.Some? != b.dueDate.Some? then a.dueDate.Some?
    else if a.dueDate.Some? && b.dueDate.Some? then a.dueDate.value < b.dueDate.value
    else false
  }

  /** Neither sorts before the other. */
  predicate Tied(a: Todo, b: Todo) {
    !SortsBefore(a, b) && !SortsBefore(b, a)
  }

  /**
    The comparator is a strict weak ordering, as `std::sort` demands:
    irreflexive, transitive, and being tied is transitive too.
  */
  lemma ComparatorIsStrictWeakOrder()
    ensures StrictOrder(SortsBefore)
    ensures forall a, b, c :: Tied(a, b) && Tied(b, c) ==> Tied(a, c)
  {
  }

  /** The list order: `std::sort` with the comparator (any sorted permutation would do). */
  function SortForDisplay(todos: seq<Todo>): seq<Todo> {
    SortBy(todos, SortsBefore)
  }

  /**
    The displayed order: a permutation of what was fetched in which open tasks
    precede finished ones, higher priorities precede lower ones within each,
    and then dated tasks precede undated ones, earliest first.
  */
  lemma DisplayOrder(todos: seq<Todo>)
    ensures multiset(SortForDisplay(todos)) == multiset(todos)
    ensures var s := SortForDisplay(todos);
      forall i, j :: 0 <= i < j < |s| ==>
        && (s[i].completed ==> s[j].completed)
        && (s[i].completed == s[j].completed ==> s[i].priority >= s[j].priority)
        && ((s[i].completed == s[j].completed && s[i].priority == s[j].priority && s[j].dueDate.Some?)
              ==> s[i].dueDate.Some? && s[i].dueDate.value <= s[j].dueDate.value)
  {
    ComparatorIsStrictWeakOrder();
    SortBySorted(todos, SortsBefore);
  }

  /** `"● "` for an open high-priority task, two spaces otherwise. */
  function Marker(t: Todo): string {
    if t.priority == 3 && !t.completed then HighMarker else PlainMarker
  }

  /** `if (!metadata.isEmpty()) metadata += " • "; metadata += part;` */
  function AppendPart(metadata: string, part: string): string {
    (if metadata != "" then metadata + Separator else metadata) + part
  }

  /** The metadata line, built as `refreshTodoList` builds it. */
  function Metadata(t: Todo, filter: string, now: int): string {
    var m := if filter == AllFilter && t.category != "" then t.category else "";
    if t.IsOverdue(now) && !t.completed then AppendPart(m, "overdue")
    else if t.dueDate.Some? && !t.completed then
      var days := t.DaysUntilDue(now);
      if days == 0 then AppendPart(m, "due today")
      else if days == 1 then AppendPart(m, "due tomorrow")
      else if days > 0 && days <= 7 then AppendPart(m, "due in " + NatToString(days) + "d")
      else m
    else m
  }

  /** The display text of a row: marker, title, line break, metadata. */
  function ItemText(t: Todo, filter: string, now: int): string {
    Marker(t) + t.title + "\n" + Metadata(t, filter, now)
  }

  /** The parts of a metadata line, defined independently of how they are appended. */
  function CategoryPart(t: Todo, filter: string): seq<string> {
    if filter == AllFilter && t.category != "" then [t.category] else []
  }

  function DuePart(t: Todo, now: int): seq<string> {
    if t.completed || t.dueDate.None? then []
    else if t.IsOverdue(now) then ["overdue"]
    else
      var days := t.DaysUntilDue(now);
      if days == 0 then ["due today"]
      else if days == 1 then ["due tomorrow"]
      else if 2 <= days <= 7 then ["due in " + NatToString(days) + "d"]
      else []
  }

  function Join(parts: seq<string>): string
    decreases |parts|
  {
    if parts == [] then ""
    else if |parts| == 1 then parts[0]
    else parts[0] + Separator + Join(parts[1..])
  }

  /**
    The metadata line is the category (only in the "All" view, only when
    non-empty) and then the deadline note, joined by `" • "`.
  */
  lemma MetadataIsJoinedParts(t: Todo, filter: string, now: int)
    ensures Metadata(t, filter, now) == Join(CategoryPart(t, filter) + DuePart(t, now))
  {
  }

  /** With a category free of line breaks, the metadata is a single line. */
  lemma MetadataOneLine(t: Todo, filter: string, now: int)
    requires OneLine(t.category)
    ensures OneLine(Metadata(t, filter, now))
  {
  }

  /**
    The delegate's decoding undoes `refreshTodoList`'s encoding: it recovers
    the exact title and metadata whenever neither title nor category holds a
    line break.
  */
  lemma {:induction false} RowTextRoundTrip(t: Todo, filter: string, now: int)
    requires OneLine(t.title) && OneLine(t.category)
    ensures DecodeRow(ItemText(t, filter, now)) == Decoded(t.title, Metadata(t, filter, now))
  {
    var first := Marker(t) + t.title;
    var meta := Metadata(t, filter, now);
    assert OneLine(first);
    MetadataOneLine(t, filter, now);
    SplitFirstLine(first, meta);
    SplitOneLine(meta);
    assert ItemText(t, filter, now) == first + "\n" + meta;
    assert first[..2] == Marker(t) && first[2..] == t.title;
  }

  /** A row is the tall kind exactly when its metadata has something besides white space. */
  lemma RowHeightFollowsMetadata(t: Todo, filter: string, now: int)
    requires OneLine(t.title) && OneLine(t.category)
    ensures RowHeight(ItemText(t, filter, now)) == if Trim(Metadata(t, filter, now)) != "" then 76 else 60
  {
    var first := Marker(t) + t.title;
    var meta := Metadata(t, filter, now);
    assert OneLine(first);
    MetadataOneLine(t, filter, now);
    SplitFirstLine(first, meta);
    SplitOneLine(meta);
    assert ItemText(t, filter, now) == first + "\n" + meta;
  }

  /** A list row: its text, the styling `refreshTodoList` gives it, and the id it stores. */
  datatype ListItem = ListItem(text: string, foreground: Option<string>, strikeOut: bool,
                               bold: bool, todoId: int)

  function ItemFor(t: Todo, filter: string, now: int): ListItem {
    ListItem(ItemText(t, filter, now),
             if t.completed then Some(CompletedColour) else None,
             t.completed,
             !t.completed && (t.IsOverdue(now) || t.priority == 3),
             t.id)
  }

  /**
    The delegate reads completion back from the foreground colour, and the
    row keeps the record's id; the marker shows exactly for open
    high-priority tasks.
  */
  lemma ItemStylingRoundTrip(t: Todo, filter: string, now: int)
    ensures PaintedCompleted(ItemFor(t, filter, now).foreground) == t.completed
    ensures ItemFor(t, filter, now).strikeOut == t.completed
    ensures ItemFor(t, filter, now).todoId == t.id
    ensures var text := ItemFor(t, filter, now).text;
      (|text| >= 2 && text[..2] == HighMarker) <==> t.priority == 3 && !t.completed
  {
    var text := ItemFor(t, filter, now).text;
    assert text[..2] == Marker(t);
  }

  /** One row per record, in order. */
  function ItemsFor(todos: seq<Todo>, filter: string, now: int): (items: seq<ListItem>)
    ensures |items| == |todos|
    ensures forall i :: 0 <= i < |todos| ==> items[i] == ItemFor(todos[i], filter, now)
  {
    seq(|todos|, i requires 0 <= i < |todos| => ItemFor(todos[i], filter, now))
  }

  /** The loop of `refreshTodoList` that adds the rows. */
  method BuildItems(todos: seq<Todo>, filter: string, now: int) returns (built: seq<ListItem>)
    ensures built == ItemsFor(todos, filter, now)
  {
    built := [];
    var i := 0;
    while i < |todos|
      invariant 0 <= i <= |todos|
      invariant built == ItemsFor(todos[..i], filter, now)
    {
      built := built + [ItemFor(todos[i], filter, now)];
      i := i + 1;
    }
    assert todos[..i] == todos;
  }

  /** Finished tasks. */
  function CountCompleted(todos: seq<Todo>): nat
    decreases |todos|
  {
    if todos == [] then 0
    else CountCompleted(todos[..|todos| - 1]) + if todos[|todos| - 1].completed then 1 else 0
  }

  /** Open overdue tasks. */
  function CountOverdue(todos: seq<Todo>, now: int): nat
    decreases |todos|
  {
    if todos == [] then 0
    else
      var t := todos[|todos| - 1];
      CountOverdue(todos[..|todos| - 1], now) + if t.IsOverdue(now) && !t.completed then 1 else 0
  }

  /** A task is counted as finished or as overdue, never both. */
  lemma {:induction false} CountsWithinTotal(todos: seq<Todo>, now: int)
    ensures CountCompleted(todos) + CountOverdue(todos, now) <= |todos|
    decreases |todos|
  {
    if todos != [] {
      CountsWithinTotal(todos[..|todos| - 1], now);
    }
  }

  /** The counting loop of `updateStatusBar`. */
  method CountStatus(todos: seq<Todo>, now: int) returns (completed: nat, overdue: nat)
    ensures completed == CountCompleted(todos)
    ensures overdue == CountOverdue(todos, now)
    ensures completed + overdue <= |todos|
  {
    completed, overdue := 0, 0;
    var i := 0;
    while i < |todos|
      invariant 0 <= i <= |todos|
      invariant completed == CountCompleted(todos[..i])
      invariant overdue == CountOverdue(todos[..i], now)
    {
      assert todos[..i + 1][..i] == todos[..i];
      var t := todos[i];
      if t.completed {
        completed := completed + 1;
      }
      if t.IsOverdue(now) && !t.completed {
        overdue := overdue + 1;
      }
      i := i + 1;
    }
    assert todos[..i] == todos;
    CountsWithinTotal(todos, now);
  }

  /** `"No items"`, `"1 item"` or `"N items"`. */
  function ItemCount(total: nat): string {
    if total == 0 then "No items"
    else if total == 1 then "1 item"
    else NatToString(total) + " items"
  }

  /** `" · N <word>"` for a positive count, nothing for zero. */
  function CountNote(n: nat, word: string): string {
    if n > 0 then " · " + NatToString(n) + " " + word else ""
  }

  /** The status line. */
  function StatusText(total: nat, completed: nat, overdue: nat): string {
    ItemCount(total) + CountNote(completed, "completed") + CountNote(overdue, "overdue")
  }

  /** The three counts a status line reports. */
  datatype StatusCounts = StatusCounts(total: nat, completed: nat, overdue: nat)

  /** Reads the item count at the head of a status line, and what follows it. */
  function ReadItemCount(s: string): Option<(nat, string)> {
    if "No items" <= s then Some((0, s[8..]))
    else
      var d := LeadingDigits(s);
      var rest := s[|d|..];
      if d == [] then None
      else if " items" <= rest then Some((DigitsValue(d), rest[6..]))
      else if " item" <= rest then Some((DigitsValue(d), rest[5..]))
      else None
  }

  /** Reads a note `" · N <word>"` at the head of `s`, and what follows it. */
  function ReadCountNote(s: string, word: string): Option<(nat, string)> {
    if !(" · " <= s) then None
    else
      var d := LeadingDigits(s[3..]);
      var rest := s[3..][|d|..];
      var w := " " + word;
      if d != [] && w <= rest then Some((DigitsValue(d), rest[|w|..])) else None
  }

  /** Reads the optional completed and overdue notes, which must end the line. */
  function ReadNotes(s: string): Option<(nat, nat)> {
    var (completed, afterCompleted) :=
      match ReadCountNote(s, "completed")
      case Some((c, r)) => (c, r)
      case None => (0, s);
    var (overdue, afterOverdue) :=
      match ReadCountNote(afterCompleted, "overdue")
      case Some((o, r)) => (o, r)
      case None => (0, afterCompleted);
    if afterOverdue == "" then Some((completed, overdue)) else None
  }

  /** A reader of status lines: the counts, or `None` for text of another shape. */
  function ReadStatus(s: string): Option<StatusCounts> {
    match ReadItemCount(s)
    case None => None
    case Some((total, afterTotal)) =>
      match ReadNotes(afterTotal)
      case None => None
      case Some((completed, overdue)) => Some(StatusCounts(total, completed, overdue))
  }

  lemma ReadItemCountOf(total: nat, rest: string)
    requires rest == [] || rest[0] == ' '
    ensures ReadItemCount(ItemCount(total) + rest) == Some((total, rest))
  {
    if total == 0 {
      var s := ItemCount(total) + rest;
      assert s[..8] == "No items";
      assert s[8..] == rest;
    } else if total == 1 {
      ReadOneItem(rest);
    } else {
      ReadManyItems(total, rest);
    }
  }

  lemma ReadOneItem(rest: string)
    requires rest == [] || rest[0] == ' '
    ensures ReadItemCount(ItemCount(1) + rest) == Some((1, rest))
  {
    var word := " item";
    assert ItemCount(1) + rest == NatToString(1) + word + rest;
    ReadNumberedCount(1, word, rest);
    assert !(" items" <= word + rest) by {
      if rest != [] { assert (word + rest)[5] == ' '; }
    }
  }

  lemma ReadManyItems(total: nat, rest: string)
    requires total > 1
    ensures ReadItemCount(ItemCount(total) + rest) == Some((total, rest))
  {
    var word := " items";
    assert ItemCount(total) + rest == NatToString(total) + word + rest;
    ReadNumberedCount(total, word, rest);
  }

  /** `"N items"` (or `"1 item"`) followed by more text reads back as N. */
  lemma ReadNumberedCount(total: nat, word: string, rest: string)
    requires word == " item" || word == " items"
    ensures var s := NatToString(total) + word + rest;
      && !("No items" <= s)
      && LeadingDigits(s) == NatToString(total)
      && s[|NatToString(total)|..] == word + rest
      && DigitsValue(LeadingDigits(s)) == total
      && word <= word + rest && (word + rest)[|word|..] == rest
  {
    var n := NatToString(total);
    var s := n + word + rest;
    assert s == n + (word + rest);
    LeadingDigitsOf(n, word + rest);
    NatToStringValue(total);
    assert IsDigit(s[0]);
  }

  lemma ReadCountNoteOf(n: nat, word: string, other: string, rest: string)
    requires n > 0 && !((" " + other) <= (" " + word + rest))
    ensures ReadCountNote(CountNote(n, word) + rest, word) == Some((n, rest))
    ensures ReadCountNote(CountNote(n, word) + rest, other).None?
  {
    CountNoteParts(n, word, rest);
    var tail := " " + word + rest;
    assert tail[..|" " + word|] == " " + word && tail[|" " + word|..] == rest;
  }

  /** The note's digits are read back as its count, up to the word and what follows. */
  lemma CountNoteParts(n: nat, word: string, rest: string)
    requires n > 0
    ensures var s := CountNote(n, word) + rest;
      && " · " <= s
      && LeadingDigits(s[3..]) == NatToString(n)
      && s[3..][|NatToString(n)|..] == " " + word + rest
      && DigitsValue(NatToString(n)) == n
  {
    var s := CountNote(n, word) + rest;
    var digits := NatToString(n);
    var tail := " " + word + rest;
    assert s == " · " + (digits + tail);
    assert s[3..] == digits + tail;
    LeadingDigitsOf(digits, tail);
    NatToStringValue(n);
    assert s[3..][|digits|..] == tail;
  }

  lemma ReadNotesOf(completed: nat, overdue: nat)
    ensures ReadNotes(CountNote(completed, "completed") + CountNote(overdue, "overdue"))
      == Some((completed, overdue))
  {
    var c := CountNote(completed, "completed");
    var o := CountNote(overdue, "overdue");
    if overdue > 0 {
      ReadCountNoteOf(overdue, "overdue", "completed", "");
      assert o + "" == o;
    }
    if completed > 0 {
      assert !((" " + "overdue") <= (" " + "completed" + o)) by {
        assert (" " + "completed" + o)[1] == 'c';
      }
      ReadCountNoteOf(completed, "completed", "overdue", o);
    } else {
      assert c + o == o;
    }
  }

  /**
    The status line can be read back: it determines the total and the two
    counts it was written from, so different counts never look alike.
  */
  lemma StatusTextRoundTrip(total: nat, completed: nat, overdue: nat)
    ensures ReadStatus(StatusText(total, completed, overdue)) == Some(StatusCounts(total, completed, overdue))
  {
    var notes := CountNote(completed, "completed") + CountNote(overdue, "overdue");
    assert StatusText(total, completed, overdue) == ItemCount(total) + notes;
    ReadItemCountOf(total, notes);
    ReadNotesOf(completed, overdue);
  }

  class MainWindow {
    const db: TodoDatabase
    /** The current text of the category filter. */
    var filter: string
    var items: seq<ListItem>
    var status: string

    ghost predicate Valid()
      reads this, db
    {
      db.Valid()
    }

    /** A window over an opened store, showing the "All" view. */
    constructor (store: TodoDatabase)
      requires store.Valid()
      ensures Valid() && db == store && filter == AllFilter && items == [] && status == ""
    {
      db := store;
      filter := AllFilter;
      items := [];
      status := "";
    }

    /** What a fetch for the current filter returns when the engine runs normally. */
    ghost function Listed(rows: seq<Row>, filter: string, now: int): seq<Todo> {
      if filter == AllFilter then ReadBackAll(ByNewest(rows), now)
      else ReadBackAll(ByNewest(InCategory(rows, CText(filter))), now)
    }

    /** The status line for the records `getAllTodos` returned. */
    ghost function StatusOf(todos: seq<Todo>, now: int): string {
      StatusText(|todos|, CountCompleted(todos), CountOverdue(todos, now))
    }

    /**
      `updateStatusBar`: counts all records, whatever the filter shows, and
      writes the status line.
    */
    method UpdateStatusBar(now: int, engine: Engine)
      modifies this`status
      ensures status == StatusOf(Fetched(ReadBackAll(ByNewest(db.rows), now), db.open, engine), now)
      ensures !db.open ==> status == "No items"
    {
      var todos := db.GetAllTodos(now, engine);
      var completed, overdue := CountStatus(todos, now);
      status := StatusText(|todos|, completed, overdue);
    }

    /** The fetch of `refreshTodoList`: every record for "All", else those of exactly that category. */
    method FetchForFilter(now: int, engine: Engine) returns (todos: seq<Todo>)
      ensures todos == Fetched(Listed(db.rows, filter, now), db.open, engine)
    {
      if filter == AllFilter {
        todos := db.GetAllTodos(now, engine);
      } else {
        todos := db.GetTodosByCategory(filter, now, engine);
      }
    }

    /**
      `refreshTodoList`: fetch for the filter, sort with the comparator, and
      add one row per record; then update the status line.
    */
    method RefreshTodoList(now: int, fetch: Engine, count: Engine)
      modifies this`items, this`status
      ensures items == ItemsFor(SortForDisplay(Fetched(Listed(db.rows, filter, now), db.open, fetch)), filter, now)
      ensures status == StatusOf(Fetched(ReadBackAll(ByNewest(db.rows), now), db.open, count), now)
    {
      var todos := FetchForFilter(now, fetch);
      items := BuildItems(SortForDisplay(todos), filter, now);
      UpdateStatusBar(now, count);
    }

    /**
      Flipping completion of the record with this id and writing it back with
      `updateTodo`; the record is re-read first, so the write carries the
      read-back fields and the current time.
    */
    method ToggleCompletion(todoId: int, now: int, read: Engine, write: Engine)
      requires Valid()
      modifies db
      ensures Valid() && db.open == old(db.open) && db.nextId == old(db.nextId)
      ensures var row := FindById(old(db.rows), todoId);
        if db.open && Delivered(read, 1) == 1 && write.Healthy? && row.Some? then
          db.rows == UpdateRows(old(db.rows), Toggled(row.value, now))
        else
          db.rows == old(db.rows)
    {
      var todo := db.GetTodoById(todoId, now, read);
      if todo.None? {
        return;
      }
      var t := todo.value.SetCompleted(!todo.value.completed, now);
      ReadBackFields(FindById(db.rows, todoId).value, now);
      var _ := db.UpdateTodo(t, write);
    }

    /** The toggle button of the detail dialog: toggle, then refresh the list. */
    method OnToggleButton(todoId: int, now: int, read: Engine, write: Engine, fetch: Engine, count: Engine)
      requires Valid()
      modifies db, this`items, this`status
      ensures Valid() && db.open == old(db.open) && db.nextId == old(db.nextId)
      ensures var row := FindById(old(db.rows), todoId);
        if db.open && Delivered(read, 1) == 1 && write.Healthy? && row.Some? then
          db.rows == UpdateRows(old(db.rows), Toggled(row.value, now))
        else
          db.rows == old(db.rows)
      ensures items == ItemsFor(SortForDisplay(Fetched(Listed(db.rows, filter, now), db.open, fetch)), filter, now)
      ensures status == StatusOf(Fetched(ReadBackAll(ByNewest(db.rows), now), db.open, count), now)
    {
      ToggleCompletion(todoId, now, read, write);
      RefreshTodoList(now, fetch, count);
    }

    /**
      `onCheckboxClicked`: the row's stored id is toggled; a row index outside
      the list does nothing. The refresh that follows is deferred and is a
      separate `RefreshTodoList`.
    */
    method OnCheckboxClicked(row: int, now: int, read: Engine, write: Engine)
      requires Valid()
      modifies db
      ensures Valid() && db.open == old(db.open) && db.nextId == old(db.nextId)
      ensures !(0 <= row < |items|) ==> db.rows == old(db.rows)
      ensures 0 <= row < |items| ==>
        var found := FindById(old(db.rows), items[row].todoId);
        if db.open && Delivered(read, 1) == 1 && write.Healthy? && found.Some? then
          db.rows == UpdateRows(old(db.rows), Toggled(found.value, now))
        else
          db.rows == old(db.rows)
    {
      if !(0 <= row < |items|) {
        return;
      }
      ToggleCompletion(items[row].todoId, now, read, write);
    }
  }

  /** The record a toggle writes back: the row read back, with completion flipped. */
  function Toggled(r: Row, now: int): Todo {
    var t := ReadBack(r, now);
    t.SetCompleted(!t.completed, now)
  }

  /**
    After a toggle the row is finished exactly when it was not, keeps its id
    and creation time, and carries "" or "general" where its description or
    category was NULL.
  */
  lemma ToggleFlipsCompletion(rows: seq<Row>, nextId: int, id: int, now: int)
    requires WellFormed(rows, nextId) && HasId(rows, id)
    ensures var old_ := FindById(rows, id).value;
      var new_ := FindById(UpdateRows(rows, Toggled(old_, now)), id);
      && new_.Some?
      && new_.value.completed == (if old_.completed == 1 then 0 else 1)
      && new_.value.title == old_.title
      && new_.value.createdAt == old_.createdAt
      && new_.value.description == Some(old_.description.GetOr(""))
      && new_.value.category == Some(old_.category.GetOr("general"))
  {
    var old_ := FindById(rows, id).value;
    var k :| 0 <= k < |rows| && rows[k] == old_;
    assert RowFits(rows[k], nextId);
    CTextOfPlain(old_.title);
    CTextOfPlain(old_.description.GetOr(""));
    CTextOfPlain(old_.category.GetOr("general"));
    ReadBackFields(old_, now);
    FindAfterUpdate(rows, nextId, Toggled(old_, now));
  }
}
