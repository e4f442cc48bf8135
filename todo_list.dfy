/** The list logic of the to-do widget in `src/components/ToDo.tsx`.
    Every handler there builds a new array from the current one and hands it
    to `setTodos`; here each handler is a function from the old list (and the
    handler's inputs) to the new list. The generated id and the creation time
    are parameters. */
module TodoList {
  import JsArray
  import opened Text

  /** Milliseconds since the epoch, as `new Date()` records it. The model
      never looks inside it. */
  type Timestamp = int

  datatype Todo = Todo(id: string, text: string, completed: bool, createdAt: Timestamp)

  /** Which items the list shows. */
  datatype Filter = All | Active | Completed

  /** The ids in use. */
  function Ids(todos: seq<Todo>): set<string>
  {
    set i | 0 <= i < |todos| :: todos[i].id
  }

  /** No two items share an id. */
  predicate UniqueIds(todos: seq<Todo>)
  {
    forall i, j | 0 <= i < j < |todos| :: todos[i].id != todos[j].id
  }

  /** The text of an item is non-empty and neither starts nor ends with
      whitespace (lemma TrimmedTextIsTrimFixed: it is its own trim). */
  predicate TrimmedText(t: Todo)
  {
    t.text != [] && !IsWhitespace(t.text[0]) && !IsWhitespace(t.text[|t.text| - 1])
  }

  /** The invariant of the list: unique ids, and every text trimmed and non-empty. */
  predicate Valid(todos: seq<Todo>)
  {
    UniqueIds(todos) && forall i | 0 <= i < |todos| :: TrimmedText(todos[i])
  }

  /** `handleSubmit`: blank input is ignored; otherwise a new, not yet
      completed item holding the trimmed input goes in front of the list. */
  function Submit(todos: seq<Todo>, input: string, newId: string, now: Timestamp): (r: seq<Todo>)
    ensures IsBlank(input) ==> r == todos
    ensures !IsBlank(input) ==> |r| == |todos| + 1 && r[1..] == todos
    ensures !IsBlank(input) ==>
      r[0].id == newId && r[0].text == Trim(input) && !r[0].completed && r[0].createdAt == now
    ensures !IsBlank(input) ==> TrimmedText(r[0])
  {
    if Trim(input) != [] then
      [Todo(newId, Trim(input), false, now)] + todos
    else
      todos
  }

  /** The item `toggleTodo` puts in place of `t`. */
  function Flip(t: Todo, id: string): (r: Todo)
    ensures r.id == t.id && r.text == t.text && r.createdAt == t.createdAt
    ensures r.completed == (t.completed != (t.id == id))
  {
    if t.id == id then t.(completed := !t.completed) else t
  }

  /** `toggleTodo`: same length and order; the items with the given id have
      their `completed` flag inverted and nothing else about any item changes. */
  function Toggle(todos: seq<Todo>, id: string): (r: seq<Todo>)
    ensures |r| == |todos|
    ensures forall i | 0 <= i < |todos| ::
      r[i].id == todos[i].id && r[i].text == todos[i].text && r[i].createdAt == todos[i].createdAt
    ensures forall i | 0 <= i < |todos| ::
      r[i].completed == if todos[i].id == id then !todos[i].completed else todos[i].completed
    ensures id !in Ids(todos) ==> r == todos
  {
    JsArray.Map((t: Todo) => Flip(t, id), todos)
  }

  /** `removeTodo`: keeps every item whose id differs, in its original order
      and with its multiplicity, and nothing else. */
  function Remove(todos: seq<Todo>, id: string): (r: seq<Todo>)
    ensures id !in Ids(r)
    ensures forall t :: t in r <==> t in todos && t.id != id
    ensures forall t :: multiset(r)[t] == if t.id != id then multiset(todos)[t] else 0
    ensures JsArray.IsSubsequence(r, todos)
    ensures id !in Ids(todos) ==> r == todos
  {
    var keep := (t: Todo) => t.id != id;
    JsArray.FilterCounts(keep, todos);
    JsArray.FilterKeepsOrder(keep, todos);
    if id !in Ids(todos) then
      assert forall i | 0 <= i < |todos| :: todos[i].id in Ids(todos);
      JsArray.FilterKeepsAll(keep, todos);
      JsArray.Filter(keep, todos)
    else
      var r := JsArray.Filter(keep, todos);
      assert forall i | 0 <= i < |r| :: r[i] in r;
      r
  }

  /** `clearCompleted`: keeps exactly the items not yet completed, in order. */
  function ClearCompleted(todos: seq<Todo>): (r: seq<Todo>)
    ensures forall t :: t in r <==> t in todos && !t.completed
    ensures forall t :: multiset(r)[t] == if t.completed then 0 else multiset(todos)[t]
    ensures JsArray.IsSubsequence(r, todos)
  {
    var keep := (t: Todo) => !t.completed;
    JsArray.FilterCounts(keep, todos);
    JsArray.FilterKeepsOrder(keep, todos);
    JsArray.Filter(keep, todos)
  }

  /** The test `filteredTodos` applies to each item. */
  function Shows(f: Filter, t: Todo): (b: bool)
    ensures f.All? ==> b
    ensures f.Active? ==> (b <==> !t.completed)
    ensures f.Completed? ==> (b <==> t.completed)
  {
    match f
    case All => true
    case Active => !t.completed
    case Completed => t.completed
  }

  /** `filteredTodos`: the items shown under filter `f`, in list order. */
  function View(todos: seq<Todo>, f: Filter): (r: seq<Todo>)
    ensures f == All ==> r == todos
    ensures f == Active ==> forall t :: t in r <==> t in todos && !t.completed
    ensures f == Completed ==> forall t :: t in r <==> t in todos && t.completed
    ensures JsArray.IsSubsequence(r, todos)
  {
    var keep := (t: Todo) => Shows(f, t);
    JsArray.FilterKeepsOrder(keep, todos);
    if f == All then JsArray.FilterKeepsAll(keep, todos); JsArray.Filter(keep, todos)
    else JsArray.Filter(keep, todos)
  }

  /** `activeTodos`: how many items are not completed. */
  function ActiveCount(todos: seq<Todo>): (n: nat)
    ensures n == |View(todos, Active)|
    ensures n + |View(todos, Completed)| == |todos|
  {
    JsArray.FilterSameTest((t: Todo) => !t.completed, t => Shows(Active, t), todos);
    JsArray.FilterPartition((t: Todo) => Shows(Active, t), t => Shows(Completed, t), todos);
    |JsArray.Filter((t: Todo) => !t.completed, todos)|
  }

  /** The `disabled` condition of the "Clear Completed" button: no item is completed. */
  function ClearDisabled(todos: seq<Todo>): (b: bool)
    ensures b <==> ActiveCount(todos) == |todos|
    ensures b <==> View(todos, Completed) == []
    ensures b <==> ClearCompleted(todos) == todos
  {
    var b := JsArray.Every((t: Todo) => !t.completed, todos);
    if b then
      JsArray.FilterKeepsAll((t: Todo) => !t.completed, todos);
      JsArray.FilterKeepsAll((t: Todo) => Shows(Active, t), todos);
      assert View(todos, Active) == todos;
      b
    else
      var i :| 0 <= i < |todos| && todos[i].completed;
      assert todos[i] in View(todos, Completed);
      assert todos[i] !in ClearCompleted(todos);
      b
  }

  /** An item's text passes TrimmedText exactly when it is non-empty and
      trimming it changes nothing. */
  lemma TrimmedTextIsTrimFixed(t: Todo)
    ensures TrimmedText(t) <==> t.text != [] && Trim(t.text) == t.text
  {
  }

  /** Input with nothing to trim is added exactly as typed. */
  lemma SubmitTrimmedInput(todos: seq<Todo>, input: string, newId: string, now: Timestamp)
    requires input != [] && !IsWhitespace(input[0]) && !IsWhitespace(input[|input| - 1])
    ensures Submit(todos, input, newId, now) == [Todo(newId, input, false, now)] + todos
  {
    TrimKeepsTrimmed(input);
  }

  // Invariant preservation

  /** Adding with an id not already in use keeps the list valid. */
  lemma SubmitKeepsValid(todos: seq<Todo>, input: string, newId: string, now: Timestamp)
    requires Valid(todos)
    requires newId !in Ids(todos)
    ensures Valid(Submit(todos, input, newId, now))
  {
  }

  /** Toggling keeps the list valid. */
  lemma ToggleKeepsValid(todos: seq<Todo>, id: string)
    requires Valid(todos)
    ensures Valid(Toggle(todos, id))
  {
  }

  /** Any filtering of a list with unique ids has unique ids. */
  lemma {:induction false} FilterKeepsUniqueIds(p: Todo -> bool, todos: seq<Todo>)
    requires UniqueIds(todos)
    ensures UniqueIds(JsArray.Filter(p, todos))
  {
    if todos != [] {
      var rest := todos[1..];
      assert UniqueIds(rest) by {
        forall i, j | 0 <= i < j < |rest| ensures rest[i].id != rest[j].id {
          assert rest[i] == todos[i + 1] && rest[j] == todos[j + 1];
        }
      }
      FilterKeepsUniqueIds(p, rest);
      var f := JsArray.Filter(p, rest);
      if p(todos[0]) {
        var r := [todos[0]] + f;
        forall j | 1 <= j < |r| ensures todos[0].id != r[j].id {
          assert r[j] == f[j - 1];
          assert f[j - 1] in rest;
        }
        assert JsArray.Filter(p, todos) == r;
      }
    }
  }

  /** Any filtering of a valid list is valid. */
  lemma FilterKeepsValid(p: Todo -> bool, todos: seq<Todo>)
    requires Valid(todos)
    ensures Valid(JsArray.Filter(p, todos))
  {
    FilterKeepsUniqueIds(p, todos);
    var r := JsArray.Filter(p, todos);
    forall i | 0 <= i < |r| ensures TrimmedText(r[i]) {
      assert r[i] in todos;
    }
  }

  /** Removing keeps the list valid. */
  lemma RemoveKeepsValid(todos: seq<Todo>, id: string)
    requires Valid(todos)
    ensures Valid(Remove(todos, id))
  {
    FilterKeepsValid((t: Todo) => t.id != id, todos);
  }

  /** Clearing the completed items keeps the list valid. */
  lemma ClearCompletedKeepsValid(todos: seq<Todo>)
    requires Valid(todos)
    ensures Valid(ClearCompleted(todos))
  {
    FilterKeepsValid((t: Todo) => !t.completed, todos);
  }

  // Properties of single handlers

  /** Toggling the same id twice gives back the original list. */
  lemma ToggleTwice(todos: seq<Todo>, id: string)
    ensures Toggle(Toggle(todos, id), id) == todos
  {
  }

  /** On a list with unique ids, removing an id in use drops exactly one item. */
  lemma {:induction false} RemoveShrinksByOne(todos: seq<Todo>, id: string)
    requires UniqueIds(todos)
    requires id in Ids(todos)
    ensures |Remove(todos, id)| == |todos| - 1
  {
    var rest := todos[1..];
    assert UniqueIds(rest) by {
      forall i, j | 0 <= i < j < |rest| ensures rest[i].id != rest[j].id {
        assert rest[i] == todos[i + 1] && rest[j] == todos[j + 1];
      }
    }
    assert todos == [todos[0]] + rest;
    if todos[0].id == id {
      assert id !in Ids(rest) by {
        forall i | 0 <= i < |rest| ensures rest[i].id != id {
          assert rest[i] == todos[i + 1];
        }
      }
      assert Remove(todos, id) == Remove(rest, id);
    } else {
      var k :| 0 <= k < |todos| && todos[k].id == id;
      assert rest[k - 1].id == id;
      RemoveShrinksByOne(rest, id);
      assert Remove(todos, id) == [todos[0]] + Remove(rest, id);
    }
  }

  /** Removing the item just added with a fresh id gives back the list
      from before the submission. */
  lemma RemoveUndoesSubmit(todos: seq<Todo>, input: string, newId: string, now: Timestamp)
    requires newId !in Ids(todos)
    ensures Remove(Submit(todos, input, newId, now), newId) == todos
  {
    var r := Submit(todos, input, newId, now);
    if !IsBlank(input) {
      assert r == [r[0]] + todos;
      assert Remove(r, newId) == Remove(todos, newId);
    }
  }

  /** Removing the same id twice is removing it once. */
  lemma RemoveIdempotent(todos: seq<Todo>, id: string)
    ensures Remove(Remove(todos, id), id) == Remove(todos, id)
  {
  }

  /** Clearing twice is clearing once. */
  lemma ClearCompletedIdempotent(todos: seq<Todo>)
    ensures ClearCompleted(ClearCompleted(todos)) == ClearCompleted(todos)
  {
    JsArray.FilterIdempotent((t: Todo) => !t.completed, todos);
  }

  /** What "Clear Completed" keeps is what the Active filter shows. */
  lemma ClearCompletedIsActiveView(todos: seq<Todo>)
    ensures ClearCompleted(todos) == View(todos, Active)
  {
    JsArray.FilterSameTest((t: Todo) => !t.completed, (t: Todo) => Shows(Active, t), todos);
  }

  /** The Active and Completed views split the list: together they hold every
      item as often as the list does, no item is in both, and their lengths
      add up to the length of the list (the All view). */
  lemma ViewPartition(todos: seq<Todo>)
    ensures View(todos, All) == todos
    ensures multiset(View(todos, Active)) + multiset(View(todos, Completed)) == multiset(todos)
    ensures forall t :: !(t in View(todos, Active) && t in View(todos, Completed))
    ensures |View(todos, Active)| + |View(todos, Completed)| == |todos|
  {
    JsArray.FilterPartition((t: Todo) => Shows(Active, t), (t: Todo) => Shows(Completed, t), todos);
  }

  // A session from the empty list

  /** Start empty, add "Buy milk" then "Walk dog": the newest is first.
      Toggle "Buy milk": one item is left active. Clear the completed items:
      only "Walk dog" remains. */
  lemma Session(a: string, b: string, t0: Timestamp, t1: Timestamp)
    requires a != b
    ensures
      var l1 := Submit([], "Buy milk", a, t0);
      var l2 := Submit(l1, "Walk dog", b, t1);
      var l3 := Toggle(l2, a);
      && l2 == [Todo(b, "Walk dog", false, t1), Todo(a, "Buy milk", false, t0)]
      && ActiveCount(l3) == 1
      && ClearCompleted(l3) == [Todo(b, "Walk dog", false, t1)]
  {
    var milk, dog := "Buy milk", "Walk dog";
    assert milk[0] == 'B' && milk[7] == 'k' && !IsWhitespace('B') && !IsWhitespace('k');
    assert dog[0] == 'W' && dog[7] == 'g' && !IsWhitespace('W') && !IsWhitespace('g');
    SubmitTrimmedInput([], milk, a, t0);
    var l1 := Submit([], milk, a, t0);
    SubmitTrimmedInput(l1, dog, b, t1);
    var l2 := Submit(l1, dog, b, t1);
    assert l2 == [Todo(b, dog, false, t1), Todo(a, milk, false, t0)];
    var l3 := Toggle(l2, a);
    assert l3 == [Todo(b, dog, false, t1), Todo(a, milk, true, t0)];
    OneActiveOneDone(l3);
  }

  /** A two-item list whose first item is active and second completed has
      one active item, and clearing keeps just the first. */
  lemma OneActiveOneDone(todos: seq<Todo>)
    requires |todos| == 2 && !todos[0].completed && todos[1].completed
    ensures ActiveCount(todos) == 1
    ensures ClearCompleted(todos) == [todos[0]]
  {
  }
}
