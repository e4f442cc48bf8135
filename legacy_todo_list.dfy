/** The older widget in `src/components/ToDo.jsx`. Its items hold only an id
    and a text; the id comes from `Math.floor(Math.random() * 10)`, so it is
    one of the ten numbers 0..9 and two items may share it. Submitting
    appends the input exactly as typed, blank or not. */
module LegacyTodoList {
  import JsArray

  /** What `generateID` can return. */
  type GeneratedId = n: int | 0 <= n < 10

  datatype Item = Item(id: GeneratedId, text: string)

  /** `handleSubmit`: `todos.concat({ id, text: input })`. */
  function Submit(todos: seq<Item>, input: string, id: GeneratedId): (r: seq<Item>)
    ensures |r| == |todos| + 1
    ensures r[..|todos|] == todos
    ensures r[|todos|] == Item(id, input)
  {
    todos + [Item(id, input)]
  }

  /** `removeTodo`: keeps every item whose id differs, in order and with its
      multiplicity; every item carrying the id is dropped, however many there are. */
  function Remove(todos: seq<Item>, id: GeneratedId): (r: seq<Item>)
    ensures forall t :: t in r <==> t in todos && t.id != id
    ensures forall t :: multiset(r)[t] == if t.id != id then multiset(todos)[t] else 0
    ensures JsArray.IsSubsequence(r, todos)
    ensures (forall i | 0 <= i < |todos| :: todos[i].id != id) ==> r == todos
  {
    var keep := (t: Item) => t.id != id;
    JsArray.FilterCounts(keep, todos);
    JsArray.FilterKeepsOrder(keep, todos);
    if forall i | 0 <= i < |todos| :: todos[i].id != id then
      JsArray.FilterKeepsAll(keep, todos);
      JsArray.Filter(keep, todos)
    else
      JsArray.Filter(keep, todos)
  }

  /** Removing the same id twice is removing it once. */
  lemma RemoveIdempotent(todos: seq<Item>, id: GeneratedId)
    ensures Remove(Remove(todos, id), id) == Remove(todos, id)
  {
  }

  /** Removing the id of an item just submitted takes that item away again,
      together with every older item that happened to draw the same id. */
  lemma {:induction false} RemoveAfterSubmit(todos: seq<Item>, input: string, id: GeneratedId)
    ensures Remove(Submit(todos, input, id), id) == Remove(todos, id)
  {
    var s := Submit(todos, input, id);
    var keep := (t: Item) => t.id != id;
    JsArray.FilterAppend(keep, todos, [Item(id, input)]);
    assert s == todos + [Item(id, input)];
  }

  /** Two submissions can draw the same id; removing it then drops both. */
  lemma SharedIdRemovesBoth(first: string, second: string, id: GeneratedId)
    ensures var todos := Submit(Submit([], first, id), second, id);
      && |todos| == 2 && todos[0].id == todos[1].id
      && Remove(todos, id) == []
  {
  }
}
