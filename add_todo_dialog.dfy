/**
  The "New Todo" dialog of `src/gui/AddTodoDialog.cpp`: the category choices
  it offers and what `onSave` builds from the form. The widgets become plain
  values: the title line's text, the notes text, the chosen entries of the two
  combo boxes and the due-date checkbox with the chosen deadline (the end of
  the picked day, already converted to epoch seconds).
*/
module AddDialog {
  import opened Wrappers
  import opened Text
  import opened TodoModel
  import opened TodoStore

  /** The first category entry; its item data is "", but `onSave` reads the text. */
  const NoCategory: string := "None"

  const EmptyTitleMessage: string := "Title cannot be empty"

  /** The priority combo: Low, Medium and High carry the data 1, 2 and 3. */
  const PriorityChoices: seq<int> := [1, 2, 3]

  /** The store's categories without the empty one, in the store's order. */
  function NonEmpty(categories: seq<string>): (r: seq<string>)
    ensures forall i :: 0 <= i < |r| ==> r[i] != ""
    ensures forall c :: c in r <==> c in categories && c != ""
    decreases |categories|
  {
    if categories == [] then []
    else
      var init, last := categories[..|categories| - 1], categories[|categories| - 1];
      assert categories == init + [last];
      NonEmpty(init) + if last != "" then [last] else []
  }

  /** The loop of the constructor that fills the category combo. */
  method CategoryOptions(categories: seq<string>) returns (options: seq<string>)
    ensures options == [NoCategory] + NonEmpty(categories)
  {
    options := [NoCategory];
    var i := 0;
    while i < |categories|
      invariant 0 <= i <= |categories|
      invariant options == [NoCategory] + NonEmpty(categories[..i])
    {
      assert categories[..i + 1][..i] == categories[..i];
      if categories[i] != "" {
        options := options + [categories[i]];
      }
      i := i + 1;
    }
    assert categories[..i] == categories;
  }

  /**
    With the list from a healthy store, the choices after "None" are exactly
    the non-empty categories in the table, each once, alphabetically.
  */
  lemma OptionsFromStore(rows: seq<Row>)
    ensures var options := NonEmpty(DistinctCategories(rows));
      && (forall c :: c in options <==> c != "" && exists i :: 0 <= i < |rows| && rows[i].category == Some(c))
      && (forall i, j :: 0 <= i < j < |options| ==> LexLess(options[i], options[j]))
  {
    DistinctCategoriesSpec(rows);
    NonEmptyKeepsOrder(DistinctCategories(rows));
  }

  /** Dropping entries keeps a strictly ascending list strictly ascending. */
  lemma {:induction false} NonEmptyKeepsOrder(s: seq<string>)
    requires forall i, j :: 0 <= i < j < |s| ==> LexLess(s[i], s[j])
    ensures forall i, j :: 0 <= i < j < |NonEmpty(s)| ==> LexLess(NonEmpty(s)[i], NonEmpty(s)[j])
    decreases |s|
  {
    if s != [] {
      var init, last := s[..|s| - 1], s[|s| - 1];
      NonEmptyKeepsOrder(init);
      var r := NonEmpty(s);
      forall i, j | 0 <= i < j < |r| ensures LexLess(r[i], r[j]) {
        if j == |NonEmpty(init)| {
          assert r[i] in NonEmpty(init);
          var k :| 0 <= k < |init| && init[k] == r[i];
          assert s[k] == r[i] && r[j] == last;
        } else {
          assert r[i] == NonEmpty(init)[i] && r[j] == NonEmpty(init)[j];
        }
      }
    }
  }

  /**
    What `onSave` builds: nothing for a title that is blank after trimming;
    otherwise a new record with the trimmed title, the notes as typed, the
    trimmed category text and the chosen priority, and the deadline only when
    the box is ticked.
  */
  function BuildTodo(titleText: string, notes: string, categoryText: string, priority: int,
                     due: Option<int>, now: int): Option<Todo>
  {
    var title := Trim(titleText);
    if title == "" then None
    else
      var t := Create(now, title, notes, Trim(categoryText), priority);
      Some(if due.Some? then t.SetDueDate(due.value, now) else t)
  }

  /** `onSave` refuses exactly the titles that are blank after trimming. */
  lemma BuildTodoRejectsBlank(titleText: string, notes: string, categoryText: string, priority: int,
                              due: Option<int>, now: int)
    ensures BuildTodo(titleText, notes, categoryText, priority, due, now).None? <==> IsBlank(titleText)
  {
    TrimEmptyIffBlank(titleText);
  }

  /** What a successful `onSave` stores, field by field. */
  lemma BuildTodoFields(titleText: string, notes: string, categoryText: string, priority: int,
                        due: Option<int>, now: int)
    requires !IsBlank(titleText)
    ensures var built := BuildTodo(titleText, notes, categoryText, priority, due, now);
      && built.Some?
      && built.value.title == Trim(titleText)
      && !IsSpace(built.value.title[0]) && !IsSpace(built.value.title[|built.value.title| - 1])
      && built.value.description == notes
      && built.value.category == Trim(categoryText)
      && built.value.priority == priority
      && built.value.dueDate == due
      && built.value.id == 0 && !built.value.completed
      && built.value.createdAt == now && built.value.updatedAt == now
  {
    TrimEmptyIffBlank(titleText);
    TrimmedEnds(titleText);
    var t := Create(now, Trim(titleText), notes, Trim(categoryText), priority);
    assert BuildTodo(titleText, notes, categoryText, priority, due, now)
      == Some(if due.Some? then t.SetDueDate(due.value, now) else t);
  }

  /** The chosen priority is stored as it is. */
  lemma BuildTodoKeepsPriority(titleText: string, notes: string, categoryText: string, priority: int,
                               due: Option<int>, now: int)
    ensures var built := BuildTodo(titleText, notes, categoryText, priority, due, now);
      built.Some? ==> built.value.priority == priority
  {
  }

  /** Choosing "None" stores the literal category "None", not an empty one. */
  lemma NoneChoiceIsLiteral(titleText: string, notes: string, priority: int, due: Option<int>, now: int)
    requires !IsBlank(titleText)
    ensures BuildTodo(titleText, notes, NoCategory, priority, due, now).Some?
    ensures BuildTodo(titleText, notes, NoCategory, priority, due, now).value.category == "None"
  {
    BuildTodoFields(titleText, notes, NoCategory, priority, due, now);
    NoneIsTrimmed();
  }

  lemma NoneIsTrimmed()
    ensures Trim(NoCategory) == NoCategory
  {
  }

  class AddTodoDialog {
    var categoryOptions: seq<string>
    /** The member `todo`, default-constructed until a save succeeds. */
    var todo: Todo
    var accepted: bool
    /** The text of the error label while it is shown. */
    var error: Option<string>

    /**
      Builds the category choices from the store's category list: "None" and
      then the non-empty categories the store delivers.
    */
    constructor (store: TodoDatabase, engine: Engine, now: int)
      ensures |categoryOptions| >= 1 && categoryOptions[0] == NoCategory
      ensures categoryOptions[1..] <= NonEmpty(DistinctCategories(store.rows))
      ensures store.open && engine.Healthy? ==>
        categoryOptions == [NoCategory] + NonEmpty(DistinctCategories(store.rows))
      ensures !store.open ==> categoryOptions == [NoCategory]
      ensures todo == Default(now) && !accepted && error.None?
    {
      var categories := store.GetAllCategories(engine);
      var options := CategoryOptions(categories);
      NonEmptyOfPrefix(categories, DistinctCategories(store.rows));
      categoryOptions := options;
      todo := Default(now);
      accepted := false;
      error := None;
    }

    /**
      `onSave` with the title text, notes, the index of the chosen category
      and priority entries, and the deadline when the box is ticked.
    */
    method OnSave(titleText: string, notes: string, categoryIndex: nat, priorityIndex: nat,
                  due: Option<int>, now: int)
      requires categoryIndex < |categoryOptions| && priorityIndex < |PriorityChoices|
      modifies this`todo, this`accepted, this`error
      ensures var built := BuildTodo(titleText, notes, categoryOptions[categoryIndex],
                                     PriorityChoices[priorityIndex], due, now);
        && (built.Some? ==> todo == built.value && accepted && error.None?)
        && (built.None? ==> todo == old(todo) && accepted == old(accepted)
                            && error == Some(EmptyTitleMessage))
      ensures accepted && !old(accepted) ==> ValidPriority(todo.priority)
    {
      var priority := PriorityChoices[priorityIndex];
      var built := BuildTodo(titleText, notes, categoryOptions[categoryIndex], priority, due, now);
      if built.None? {
        error := Some(EmptyTitleMessage);
        return;
      }
      BuildTodoKeepsPriority(titleText, notes, categoryOptions[categoryIndex], priority, due, now);
      error := None;
      todo := built.value;
      accepted := true;
    }
  }

  lemma {:induction false} NonEmptyOfPrefix(a: seq<string>, b: seq<string>)
    requires a <= b
    ensures NonEmpty(a) <= NonEmpty(b)
    decreases |b|
  {
    if |a| < |b| {
      var init := b[..|b| - 1];
      assert a <= init;
      NonEmptyOfPrefix(a, init);
    } else {
      assert a == b;
    }
  }
}
