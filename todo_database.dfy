/**
  The SQLite-backed store of `src/core/database/TodoDatabase.h` and `.cpp`.

  The `todos` table is a sequence of rows in insertion (rowid) order, and the
  `AUTOINCREMENT` counter is `nextId`, which only grows. The connection handle
  is the flag `open` (`db != nullptr`). What the SQLite engine does on its own
  (a statement that fails to prepare, a step that reports an error) is not
  decided by this code, so every operation takes an `Engine` that says whether
  the statement runs normally or how many result rows it delivers before an
  error. The store is a class: a Dafny object reference can be shared but never
  duplicates the connection, which is what the deleted copy operations ensure.
*/
module TodoStore {
  import opened Wrappers
  import opened Sorting
  import opened Text
  import opened TodoModel

  /** A row of the `todos` table; `None` is SQL NULL. */
  datatype Row = Row(
    id: int,
    title: string,
    description: Option<string>,
    category: Option<string>,
    completed: int,
    createdAt: int,
    updatedAt: int,
    dueDate: Option<int>,
    priority: int)

  /**
    How the engine runs one statement: normally, or failing after handing out
    `delivered` result rows (0 when preparing the statement fails). A failing
    INSERT, UPDATE or DELETE changes nothing.
  */
  datatype Engine = Healthy | Faulty(delivered: nat)

  /** How many of `n` result rows the `while (step == SQLITE_ROW)` loop sees. */
  function Delivered(engine: Engine, n: nat): (k: nat)
    ensures k <= n
    ensures engine.Healthy? ==> k == n
  {
    match engine
    case Healthy => n
    case Faulty(d) => if d < n then d else n
  }

  /**
    What a SELECT loop collects from the full result `all`: nothing on a
    closed store, otherwise the rows the engine delivers before it stops.
  */
  function Fetched<T>(all: seq<T>, open: bool, engine: Engine): (r: seq<T>)
    ensures r <= all
    ensures open && engine.Healthy? ==> r == all
    ensures !open ==> r == []
  {
    if open then all[..Delivered(engine, |all|)] else []
  }

  /**
    The row `createTodo` binds: text columns are never NULL and hold the text
    up to its first NUL, `completed` is 0 or 1.
  */
  function RowOf(t: Todo, id: int): Row {
    Row(id, CText(t.title), Some(CText(t.description)), Some(CText(t.category)), if t.completed then 1 else 0,
        t.createdAt, t.updatedAt, t.dueDate, t.priority)
  }

  /**
    The body of the SELECT loops: a default-constructed `Todo` filled in
    through its setters, column by column. `created_at` and `updated_at` are
    not read back; every setter stamps `updated_at` with the current time.
    A column's text is taken whole: the table invariant `WellFormed` keeps
    NUL out of every stored text, so the C string ends where the text does.
  */
  function ReadBack(r: Row, now: int): Todo {
    var t := Default(now).SetId(r.id).SetTitle(r.title, now);
    var t := if r.description.Some? then t.SetDescription(r.description.value, now) else t;
    var t := if r.category.Some? then t.SetCategory(r.category.value, now) else t;
    var t := t.SetCompleted(r.completed == 1, now);
    var t := if r.dueDate.Some? then t.SetDueDate(r.dueDate.value, now) else t;
    t.SetPriority(r.priority, now)
  }

  /**
    What a read-back record holds: the row's id, title, completion, deadline
    and (when in 1..3) priority; "" and "general" for a NULL description or
    category; and the current time in both timestamps.
  */
  lemma ReadBackFields(r: Row, now: int)
    ensures ReadBack(r, now) == Todo(r.id, r.title, r.description.GetOr(""),
      r.category.GetOr("general"), r.completed == 1, now, now, r.dueDate,
      if ValidPriority(r.priority) then r.priority else 2)
  {
  }

  /**
    Round trip through the table: a stored record reads back with every field
    but the two timestamps, which become the time of reading, and with each
    text cut at its first NUL.
  */
  lemma ReadBackOfStored(t: Todo, id: int, now: int)
    requires ValidPriority(t.priority)
    ensures ReadBack(RowOf(t, id), now)
      == t.(id := id, title := CText(t.title), description := CText(t.description),
            category := CText(t.category), createdAt := now, updatedAt := now)
  {
  }

  /** A title with a NUL in it comes back shortened: "a\0b" is stored and read as "a". */
  lemma NulCutsStoredText(t: Todo, id: int, now: int)
    requires t.title == "a\0b"
    ensures ReadBack(RowOf(t, id), now).title == "a"
  {
    assert t.title[1..] == "\0b";
    assert CText(t.title[1..]) == [];
  }

  /** `ORDER BY created_at DESC`. */
  predicate NewerFirst(a: Row, b: Row) {
    a.createdAt > b.createdAt
  }

  /** The rows in the order the SELECTs return them; ties keep table order. */
  function ByNewest(rows: seq<Row>): seq<Row> {
    SortBy(rows, NewerFirst)
  }

  /** The SELECT order is newest first, and it returns every row exactly once. */
  lemma ByNewestOrdered(rows: seq<Row>)
    ensures multiset(ByNewest(rows)) == multiset(rows)
    ensures forall i, j :: 0 <= i < j < |ByNewest(rows)| ==>
      ByNewest(rows)[i].createdAt >= ByNewest(rows)[j].createdAt
  {
    SortBySorted(rows, NewerFirst);
  }

  /** Rows whose category equals `category` exactly (`WHERE category = ?`; NULL never matches). */
  function InCategory(rows: seq<Row>, category: string): seq<Row>
    decreases |rows|
  {
    if rows == [] then []
    else
      var init, last := rows[..|rows| - 1], rows[|rows| - 1];
      InCategory(init, category) + if last.category == Some(category) then [last] else []
  }

  /**
    `WHERE category = ?` keeps every row of that category as often as it
    occurs, and no other row.
  */
  lemma {:induction false} InCategorySpec(rows: seq<Row>, category: string)
    ensures forall x :: multiset(InCategory(rows, category))[x] ==
                        (if x.category == Some(category) then multiset(rows)[x] else 0)
    decreases |rows|
  {
    if rows != [] {
      var init, last := rows[..|rows| - 1], rows[|rows| - 1];
      assert rows == init + [last];
      InCategorySpec(init, category);
    }
  }

  /** Every row read back, in SELECT order. */
  function ReadBackAll(rows: seq<Row>, now: int): (todos: seq<Todo>)
    ensures |todos| == |rows|
    ensures forall i :: 0 <= i < |rows| ==> todos[i] == ReadBack(rows[i], now)
  {
    seq(|rows|, i requires 0 <= i < |rows| => ReadBack(rows[i], now))
  }

  /** Whether some row has this id. */
  predicate HasId(rows: seq<Row>, id: int) {
    exists i :: 0 <= i < |rows| && rows[i].id == id
  }

  /** `SELECT * FROM todos WHERE id = ?`: the first row with this id. */
  function FindById(rows: seq<Row>, id: int): (r: Option<Row>)
    ensures r.Some? <==> HasId(rows, id)
    ensures r.Some? ==> r.value in rows && r.value.id == id
    decreases |rows|
  {
    if rows == [] then None
    else if rows[0].id == id then Some(rows[0])
    else
      var r := FindById(rows[1..], id);
      assert HasId(rows[1..], id) ==> HasId(rows, id);
      assert HasId(rows, id) ==> HasId(rows[1..], id) by {
        if HasId(rows, id) {
          var i :| 0 <= i < |rows| && rows[i].id == id;
          assert rows[1..][i - 1].id == id;
        }
      }
      r
  }

  /**
    The columns the UPDATE statement sets, texts cut at their first NUL;
    `id` and `created_at` are not among them.
  */
  function Rewritten(r: Row, t: Todo): Row {
    r.(title := CText(t.title), description := Some(CText(t.description)), category := Some(CText(t.category)),
       completed := if t.completed then 1 else 0, updatedAt := t.updatedAt,
       dueDate := t.dueDate, priority := t.priority)
  }

  /** `UPDATE todos SET ... WHERE id = ?` over the whole table. */
  function UpdateRows(rows: seq<Row>, t: Todo): (r: seq<Row>)
    ensures |r| == |rows|
    ensures forall i :: 0 <= i < |rows| ==>
      r[i].id == rows[i].id && r[i].createdAt == rows[i].createdAt
    ensures forall i :: 0 <= i < |rows| && rows[i].id != t.id ==> r[i] == rows[i]
    ensures forall i :: 0 <= i < |rows| && rows[i].id == t.id ==> r[i] == Rewritten(rows[i], t)
  {
    seq(|rows|, i requires 0 <= i < |rows| => if rows[i].id == t.id then Rewritten(rows[i], t) else rows[i])
  }

  /** `DELETE FROM todos WHERE id = ?`. */
  function WithoutId(rows: seq<Row>, id: int): (r: seq<Row>)
    ensures !HasId(r, id)
    ensures forall i :: 0 <= i < |rows| && rows[i].id != id ==> rows[i] in r
    ensures forall x :: x in r ==> x in rows
    decreases |rows|
  {
    if rows == [] then []
    else
      var rest := WithoutId(rows[1..], id);
      if rows[0].id == id then rest else [rows[0]] + rest
  }

  /** Non-NULL category values in table order. */
  function CategoryValues(rows: seq<Row>): (cats: seq<string>)
    ensures forall c :: c in cats <==> exists i :: 0 <= i < |rows| && rows[i].category == Some(c)
    decreases |rows|
  {
    if rows == [] then []
    else
      var rest := CategoryValues(rows[1..]);
      assert forall i :: 0 < i < |rows| ==> rows[i] == rows[1..][i - 1];
      if rows[0].category.Some? then [rows[0].category.value] + rest else rest
  }

  /** A sequence with every value at most once. */
  ghost predicate NoDuplicates(s: seq<string>) {
    forall x :: multiset(s)[x] <= 1
  }

  /** Each value once, in order of first appearance (`DISTINCT`). */
  function Distinct(s: seq<string>): (r: seq<string>)
    ensures forall x :: x in r <==> x in s
    ensures NoDuplicates(r)
    decreases |s|
  {
    if s == [] then []
    else
      var d := Distinct(s[..|s| - 1]);
      var last := s[|s| - 1];
      assert s == s[..|s| - 1] + [last];
      if last in d then d
      else
        assert multiset(d)[last] == 0;
        d + [last]
  }

  /** What `getAllCategories` promises: the distinct non-NULL categories, alphabetically. */
  function DistinctCategories(rows: seq<Row>): seq<string> {
    SortBy(Distinct(CategoryValues(rows)), LexLess)
  }

  /** Some row has a NULL category. */
  predicate HasNullCategory(rows: seq<Row>) {
    exists i :: 0 <= i < |rows| && rows[i].category.None?
  }

  /**
    The result set of `SELECT DISTINCT category FROM todos ORDER BY category`:
    NULL sorts first in SQLite, then the values in ascending order.
  */
  function CategoryResult(rows: seq<Row>): seq<Option<string>> {
    var cats := DistinctCategories(rows);
    (if HasNullCategory(rows) then [None] else [])
    + seq(|cats|, i requires 0 <= i < |cats| => Some(cats[i]))
  }

  /** The non-NULL entries, in order. */
  function Values(s: seq<Option<string>>): seq<string>
    decreases |s|
  {
    if s == [] then []
    else Values(s[..|s| - 1]) + if s[|s| - 1].Some? then [s[|s| - 1].value] else []
  }

  lemma {:induction false} ValuesOfPrefix(s: seq<Option<string>>, n: nat)
    requires n <= |s|
    ensures Values(s[..n]) <= Values(s)
    decreases |s| - n
  {
    if n < |s| {
      ValuesOfPrefix(s, n + 1);
      assert s[..n + 1][..n] == s[..n];
    } else {
      assert s[..n] == s;
    }
  }

  lemma {:induction false} ValuesOfAppend(a: seq<Option<string>>, b: seq<Option<string>>)
    ensures Values(a + b) == Values(a) + Values(b)
    decreases |b|
  {
    if b != [] {
      var b' := b[..|b| - 1];
      assert (a + b)[..|a + b| - 1] == a + b';
      ValuesOfAppend(a, b');
    } else {
      assert a + b == a;
    }
  }

  lemma {:induction false} ValuesOfSome(s: seq<string>)
    ensures Values(seq(|s|, i requires 0 <= i < |s| => Some(s[i]))) == s
    decreases |s|
  {
    if s != [] {
      var w := seq(|s|, i requires 0 <= i < |s| => Some(s[i]));
      var init := s[..|s| - 1];
      ValuesOfSome(init);
      assert w[..|w| - 1] == seq(|init|, i requires 0 <= i < |init| => Some(init[i]));
    }
  }

  /** Skipping the NULL entry of the result set leaves exactly the promised list. */
  lemma CategoryResultValues(rows: seq<Row>)
    ensures Values(CategoryResult(rows)) == DistinctCategories(rows)
  {
    var cats := DistinctCategories(rows);
    var head: seq<Option<string>> := if HasNullCategory(rows) then [None] else [];
    var tail := seq(|cats|, i requires 0 <= i < |cats| => Some(cats[i]));
    ValuesOfAppend(head, tail);
    ValuesOfSome(cats);
    if head != [] {
      assert Values(head) == Values(head[..0]) + [];
    }
  }

  lemma ValuesStep(s: seq<Option<string>>, i: nat)
    requires i < |s|
    ensures Values(s[..i + 1]) == Values(s[..i]) + if s[i].Some? then [s[i].value] else []
  {
    assert s[..i + 1][..i] == s[..i];
  }

  /** The values among the first `n` result rows: part of the promised list, all of it when `n` is all. */
  lemma CategoriesDelivered(rows: seq<Row>, n: nat)
    requires n <= |CategoryResult(rows)|
    ensures Values(CategoryResult(rows)[..n]) <= DistinctCategories(rows)
    ensures n == |CategoryResult(rows)| ==> Values(CategoryResult(rows)[..n]) == DistinctCategories(rows)
  {
    var result := CategoryResult(rows);
    ValuesOfPrefix(result, n);
    CategoryResultValues(rows);
    assert result[..|result|] == result;
  }

  lemma {:induction false} TwiceCountsTwice(s: seq<string>, i: nat, j: nat)
    requires i < j < |s| && s[i] == s[j]
    ensures multiset(s)[s[i]] >= 2
  {
    assert s == s[..j] + s[j..];
    assert s[i] in s[..j];
    assert s[j..][0] == s[j];
  }

  /**
    `getAllCategories` on a healthy open store: every non-NULL category, the
    empty one included, exactly once, in strictly ascending order.
  */
  lemma DistinctCategoriesSpec(rows: seq<Row>)
    ensures forall c :: c in DistinctCategories(rows) <==>
      exists i :: 0 <= i < |rows| && rows[i].category == Some(c)
    ensures forall i, j :: 0 <= i < j < |DistinctCategories(rows)| ==>
      LexLess(DistinctCategories(rows)[i], DistinctCategories(rows)[j])
  {
    var d := Distinct(CategoryValues(rows));
    var r := DistinctCategories(rows);
    assert multiset(r) == multiset(d);
    forall c ensures c in r <==> c in d {
      assert c in r <==> c in multiset(r);
      assert c in d <==> c in multiset(d);
    }
    LexLessIsStrictOrder();
    SortBySorted(d, LexLess);
    forall i, j | 0 <= i < j < |r| ensures LexLess(r[i], r[j]) {
      if r[i] == r[j] {
        TwiceCountsTwice(r, i, j);
        assert false;
      }
      LexLessTotal(r[i], r[j]);
    }
  }

  /**
    Rows with the categories "work", "work", "" and "personal" give
    `["", "personal", "work"]`: the empty category is listed, first.
  */
  lemma EmptyCategoryIsListed(r: Row)
    ensures var rows := [r.(category := Some("work")), r.(category := Some("work")),
                         r.(category := Some("")), r.(category := Some("personal"))];
      DistinctCategories(rows) == ["", "personal", "work"]
  {
    var w, e, p := "work", "", "personal";
    var rows := [r.(category := Some(w)), r.(category := Some(w)),
                 r.(category := Some(e)), r.(category := Some(p))];
    assert rows[1..][1..][1..][1..] == [];
    assert CategoryValues(rows[1..][1..][1..]) == [p];
    assert CategoryValues(rows[1..][1..]) == [e, p];
    assert CategoryValues(rows[1..]) == [w, e, p];
    assert CategoryValues(rows) == [w, w, e, p];
    DistinctExample(w, e, p);
    SortExample(w, e, p);
  }

  lemma DistinctExample(w: string, e: string, p: string)
    requires w == "work" && e == "" && p == "personal"
    ensures Distinct([w, w, e, p]) == [w, e, p]
  {
    var values := [w, w, e, p];
    assert w != e && e != p && w != p by {
      assert |w| == 4 && |e| == 0 && |p| == 8;
    }
    assert values[..3][..2][..1] == [w];
    assert Distinct([w]) == [w];
    assert values[..3][..2] == [w, w];
    assert Distinct([w, w]) == [w];
    assert values[..3] == [w, w, e];
    assert Distinct([w, w, e]) == [w, e];
    assert values[..4] == values;
  }

  lemma SortExample(w: string, e: string, p: string)
    requires w == "work" && e == "" && p == "personal"
    ensures SortBy([w, e, p], LexLess) == [e, p, w]
  {
    var d := [w, e, p];
    assert d[..2] == [w, e] && d[..2][..1] == [w];
    assert SortBy([w], LexLess) == [w];
    assert LexLess(e, w);
    assert SortBy([w, e], LexLess) == [e, w];
    assert !LexLess(p, e);
    assert LexLess(p, w) by {
      assert p[0] == 'p' && w[0] == 'w';
    }
    assert Insert(p, [w], LexLess) == [p, w];
    assert Insert(p, [e, w], LexLess) == [e, p, w];
  }

  /** An UPDATE or DELETE naming a missing id matches no row and changes nothing. */
  lemma MissingIdChangesNothing(rows: seq<Row>, t: Todo, id: int)
    requires !HasId(rows, t.id) && !HasId(rows, id)
    ensures UpdateRows(rows, t) == rows
    ensures WithoutId(rows, id) == rows
  {
    WithoutIdOfMissing(rows, id);
  }

  lemma {:induction false} WithoutIdOfMissing(rows: seq<Row>, id: int)
    requires !HasId(rows, id)
    ensures WithoutId(rows, id) == rows
    decreases |rows|
  {
    if rows != [] {
      forall i | 0 <= i < |rows[1..]| ensures rows[1..][i].id != id {
        assert rows[1..][i] == rows[i + 1];
      }
      WithoutIdOfMissing(rows[1..], id);
      assert rows[0].id != id;
      assert [rows[0]] + rows[1..] == rows;
    }
  }

  /** No text column holds a NUL: every text reached the table as a C string. */
  predicate PlainText(r: Row) {
    && '\0' !in r.title
    && (r.description.Some? ==> '\0' !in r.description.value)
    && (r.category.Some? ==> '\0' !in r.category.value)
  }

  /** A row the table can hold: its id already handed out, the CHECK constraint met, no NUL. */
  ghost predicate RowFits(r: Row, nextId: int) {
    1 <= r.id < nextId && ValidPriority(r.priority) && PlainText(r)
  }

  /**
    Table invariant: ids are distinct, below the counter, the CHECK constraint
    holds, and no text holds a NUL.
  */
  ghost predicate WellFormed(rows: seq<Row>, nextId: int) {
    && nextId >= 1
    && (forall i :: 0 <= i < |rows| ==> RowFits(rows[i], nextId))
    && (forall i, j :: 0 <= i < j < |rows| ==> rows[i].id != rows[j].id)
  }

  /** After an UPDATE of a stored id, looking that id up finds its row rewritten. */
  lemma FindAfterUpdate(rows: seq<Row>, nextId: int, t: Todo)
    requires WellFormed(rows, nextId) && HasId(rows, t.id)
    ensures FindById(UpdateRows(rows, t), t.id) == Some(Rewritten(FindById(rows, t.id).value, t))
  {
    var updated := UpdateRows(rows, t);
    assert HasId(updated, t.id) by {
      var k :| 0 <= k < |rows| && rows[k].id == t.id;
      assert updated[k].id == t.id;
    }
    var found, before := FindById(updated, t.id).value, FindById(rows, t.id).value;
    var m :| 0 <= m < |updated| && updated[m] == found;
    var k :| 0 <= k < |rows| && rows[k] == before;
    assert found.id == t.id && before.id == t.id;
    assert rows[m].id == updated[m].id == t.id;
    assert m == k;
    assert updated[m] == Rewritten(rows[m], t);
  }

  /**
    Updating a record and reading it back by id gives the record as written,
    its texts cut at their first NUL and its timestamps taken from the clock.
  */
  lemma {:induction false} UpdateThenRead(rows: seq<Row>, nextId: int, t: Todo, now: int)
    requires WellFormed(rows, nextId) && HasId(rows, t.id) && ValidPriority(t.priority)
    ensures var found := FindById(UpdateRows(rows, t), t.id);
      && found.Some?
      && ReadBack(found.value, now)
         == t.(title := CText(t.title), description := CText(t.description),
               category := CText(t.category), createdAt := now, updatedAt := now)
  {
  }

  /**
    Inserting a record and reading it back by its new id gives the record with
    that id, its texts cut at their first NUL and its timestamps taken from the
    clock; the table stays well formed.
  */
  lemma CreateThenRead(rows: seq<Row>, nextId: int, t: Todo, now: int)
    requires WellFormed(rows, nextId) && ValidPriority(t.priority)
    ensures WellFormed(rows + [RowOf(t, nextId)], nextId + 1)
    ensures var found := FindById(rows + [RowOf(t, nextId)], nextId);
      && found.Some?
      && ReadBack(found.value, now)
         == t.(id := nextId, title := CText(t.title), description := CText(t.description),
               category := CText(t.category), createdAt := now, updatedAt := now)
  {
    var grown := rows + [RowOf(t, nextId)];
    assert grown[|rows|].id == nextId;
    var found := FindById(grown, nextId);
    var m :| 0 <= m < |grown| && grown[m] == found.value;
    assert m == |rows|;
    ReadBackOfStored(t, nextId, now);
  }

  class TodoDatabase {
    var open: bool
    var rows: seq<Row>
    var nextId: int

    ghost predicate Valid()
      reads this
    {
      WellFormed(rows, nextId)
    }

    /**
      Opening a database file: `openOk` is whether `sqlite3_open` succeeded. A
      failed open leaves the store closed. The file is taken to be new.
    */
    constructor (openOk: bool)
      ensures Valid()
      ensures open == openOk && rows == [] && nextId == 1
    {
      open := openOk;
      rows := [];
      nextId := 1;
    }

    /** `isOpen`: the handle is non-null. */
    function IsOpen(): bool
      reads this
    {
      open
    }

    /** `close` (also run by the destructor): idempotent, the table itself is kept. */
    method Close()
      modifies this
      ensures !open && rows == old(rows) && nextId == old(nextId)
    {
      if open {
        open := false;
      }
    }

    /**
      `initialize`: `CREATE TABLE IF NOT EXISTS` and `CREATE INDEX IF NOT
      EXISTS`, so running it again never touches the rows.
    */
    method Initialize(engine: Engine) returns (ok: bool)
      ensures ok <==> open && engine.Healthy?
    {
      if !open {
        return false;
      }
      ok := engine.Healthy?;
    }

    /**
      `createTodo`: one new row with the record's fields, and the new id
      written into the caller's record (`written`). The CHECK constraint
      rejects a priority outside 1..3.
    */
    method CreateTodo(todo: Todo, engine: Engine) returns (ok: bool, written: Todo)
      requires Valid()
      modifies this
      ensures Valid() && open == old(open)
      ensures ok <==> old(open) && engine.Healthy? && ValidPriority(todo.priority)
      ensures ok ==> && rows == old(rows) + [RowOf(todo, old(nextId))]
                     && nextId == old(nextId) + 1
                     && written == todo.SetId(old(nextId))
                     && !HasId(old(rows), written.id)
      ensures !ok ==> rows == old(rows) && nextId == old(nextId) && written == todo
    {
      if !open || engine.Faulty? || !(1 <= todo.priority <= 3) {
        return false, todo;
      }
      var newId := nextId;
      rows := rows + [RowOf(todo, newId)];
      nextId := nextId + 1;
      written := todo.SetId(newId);
      ok := true;
    }

    /**
      `getAllTodos`: the rows newest first, read back; a prefix of them when
      the engine stops early, nothing on a closed store.
    */
    method GetAllTodos(now: int, engine: Engine) returns (todos: seq<Todo>)
      ensures todos == Fetched(ReadBackAll(ByNewest(rows), now), open, engine)
    {
      todos := [];
      if !open {
        return;
      }
      var ordered := ByNewest(rows);
      var n := Delivered(engine, |ordered|);
      var i := 0;
      while i < n
        invariant 0 <= i <= n
        invariant todos == ReadBackAll(ordered, now)[..i]
      {
        todos := todos + [ReadBack(ordered[i], now)];
        i := i + 1;
      }
    }

    /**
      `getTodosByCategory`: as `getAllTodos`, over the rows of exactly that
      category; the category is bound as a C string, so it ends at its first NUL.
    */
    method GetTodosByCategory(category: string, now: int, engine: Engine) returns (todos: seq<Todo>)
      ensures todos == Fetched(ReadBackAll(ByNewest(InCategory(rows, CText(category))), now), open, engine)
    {
      todos := [];
      if !open {
        return;
      }
      var ordered := ByNewest(InCategory(rows, CText(category)));
      var n := Delivered(engine, |ordered|);
      var i := 0;
      while i < n
        invariant 0 <= i <= n
        invariant todos == ReadBackAll(ordered, now)[..i]
      {
        todos := todos + [ReadBack(ordered[i], now)];
        i := i + 1;
      }
    }

    /** `getTodoById`: the row with that id read back, or null. */
    method GetTodoById(id: int, now: int, engine: Engine) returns (found: Option<Todo>)
      ensures found.Some? <==> open && Delivered(engine, 1) == 1 && HasId(rows, id)
      ensures found.Some? ==> found.value == ReadBack(FindById(rows, id).value, now)
      ensures found.Some? ==> found.value.id == id
    {
      if !open || Delivered(engine, 1) == 0 {
        return None;
      }
      var row := FindById(rows, id);
      if row.Some? {
        found := Some(ReadBack(row.value, now));
      } else {
        found := None;
      }
    }

    /**
      `updateTodo`: rewrites every column but `id` and `created_at` of the row
      with the record's id. Success only says the statement completed: an id
      that matches no row is reported as success too. The caller's record is a
      value and is not changed.
    */
    method UpdateTodo(todo: Todo, engine: Engine) returns (ok: bool)
      requires Valid()
      modifies this
      ensures Valid() && open == old(open) && nextId == old(nextId)
      ensures ok <==> && old(open) && engine.Healthy?
                      && (ValidPriority(todo.priority) || !HasId(old(rows), todo.id))
      ensures ok ==> rows == UpdateRows(old(rows), todo)
      ensures !ok ==> rows == old(rows)
    {
      if !open || engine.Faulty? {
        return false;
      }
      if !(1 <= todo.priority <= 3) && HasId(rows, todo.id) {
        return false;
      }
      rows := UpdateRows(rows, todo);
      ok := true;
    }

    /** `deleteTodo`: success whenever the statement completes, even if no row had that id. */
    method DeleteTodo(id: int, engine: Engine) returns (ok: bool)
      requires Valid()
      modifies this
      ensures Valid() && open == old(open) && nextId == old(nextId)
      ensures ok <==> old(open) && engine.Healthy?
      ensures ok ==> rows == WithoutId(old(rows), id)
      ensures !ok ==> rows == old(rows)
    {
      if !open || engine.Faulty? {
        return false;
      }
      var kept := WithoutId(rows, id);
      assert forall i :: 0 <= i < |kept| ==> kept[i] in rows;
      DistinctIdsKept(rows, id);
      rows := kept;
      ok := true;
    }

    /**
      `getAllCategories`: the result set's non-NULL values; all of
      `DistinctCategories` on a healthy open store, a prefix of it otherwise.
    */
    method GetAllCategories(engine: Engine) returns (categories: seq<string>)
      ensures categories <= DistinctCategories(rows)
      ensures open && engine.Healthy? ==> categories == DistinctCategories(rows)
      ensures !open ==> categories == []
    {
      categories := [];
      if !open {
        return;
      }
      var result := CategoryResult(rows);
      var n := Delivered(engine, |result|);
      var i := 0;
      while i < n
        invariant 0 <= i <= n
        invariant categories == Values(result[..i])
      {
        ValuesStep(result, i);
        if result[i].Some? {
          categories := categories + [result[i].value];
        }
        i := i + 1;
      }
      CategoriesDelivered(rows, n);
    }
  }

  /** Deleting rows keeps the table invariant. */
  lemma {:induction false} DistinctIdsKept(rows: seq<Row>, id: int)
    ensures var r := WithoutId(rows, id);
      forall nextId :: WellFormed(rows, nextId) ==> WellFormed(r, nextId)
    decreases |rows|
  {
    if rows != [] {
      DistinctIdsKept(rows[1..], id);
      forall nextId | WellFormed(rows, nextId) ensures WellFormed(rows[1..], nextId) {
        assert forall i :: 0 <= i < |rows[1..]| ==> rows[1..][i] == rows[i + 1];
      }
      forall nextId | WellFormed(rows, nextId) && rows[0].id != id
        ensures WellFormed([rows[0]] + WithoutId(rows[1..], id), nextId)
      {
        var rest := WithoutId(rows[1..], id);
        forall x | x in rest ensures x.id != rows[0].id {
          assert x in rows[1..];
          var k :| 0 <= k < |rows[1..]| && rows[1..][k] == x;
          assert rows[k + 1] == x;
        }
      }
    }
  }
}
