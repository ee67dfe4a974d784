/** A model of the Pinia to-do store of src/stores/todos.ts: a display filter,
    an ordered list of to-do records and an id counter, with the lookup and
    filtered views as functions and the two actions as methods. */
module Todos {

  /** The display filter. */
  datatype FilterType = All | Finished | Unfinished

  /** One to-do record. */
  datatype Todo = Todo(id: nat, text: string, finished: bool)

  /** The one failure of the store: a lookup by an id no record carries. */
  datatype Error = TodoNotFound

  /** The value of a lookup that may throw. */
  datatype Result<T> = Ok(value: T) | Err(error: Error)

  /** The completion of an action that may throw. */
  datatype Outcome = Pass | Fail(error: Error)

  datatype Option<T> = None | Some(value: T)

  // ---------------------------------------------------------------------------
  // The id invariant

  /** Every id is below `bound`. */
  ghost predicate IdsBelow(todos: seq<Todo>, bound: nat)
  {
    forall k :: 0 <= k < |todos| ==> todos[k].id < bound
  }

  /** Each record's id is below the id of the record after it. */
  ghost predicate IdsIncreasing(todos: seq<Todo>)
  {
    forall k :: 0 < k < |todos| ==> todos[k - 1].id < todos[k].id
  }

  /** Ids increasing from neighbour to neighbour are increasing over the whole
      list, so no two records share an id. */
  lemma {:induction false} IncreasingIdsAreDistinct(todos: seq<Todo>)
    requires IdsIncreasing(todos)
    ensures forall i, j :: 0 <= i < j < |todos| ==> todos[i].id < todos[j].id
    ensures forall i, j :: 0 <= i < |todos| && 0 <= j < |todos| && i != j ==> todos[i].id != todos[j].id
  {
    if |todos| > 1 {
      var prefix := todos[..|todos| - 1];
      IncreasingIdsAreDistinct(prefix);
      forall i | 0 <= i < |todos| - 1
        ensures todos[i].id < todos[|todos| - 1].id
      {
        assert prefix[i] == todos[i];
        if i < |todos| - 2 {
          assert prefix[i].id < prefix[|todos| - 2].id;
        }
      }
    }
  }

  // ---------------------------------------------------------------------------
  // Array.prototype.find on the list, by id

  /** The index of the first record whose id is `id`, or None when no record
      has that id. */
  function IndexOfId(todos: seq<Todo>, id: int): (r: Option<nat>)
    ensures r.Some? ==> r.value < |todos| && todos[r.value].id == id
    ensures r.Some? ==> forall j :: 0 <= j < r.value ==> todos[j].id != id
    ensures r.None? <==> forall j :: 0 <= j < |todos| ==> todos[j].id != id
    decreases |todos|
  {
    if |todos| == 0 then None
    else if todos[0].id == id then Some(0)
    else
      match IndexOfId(todos[1..], id)
      case None => None
      case Some(k) => Some(k + 1)
  }

  /** The search depends on nothing but the ids, position by position. */
  lemma {:induction false} IndexOfIdOnlyReadsIds(a: seq<Todo>, b: seq<Todo>, id: int)
    requires |a| == |b|
    requires forall k :: 0 <= k < |a| ==> a[k].id == b[k].id
    ensures IndexOfId(a, id) == IndexOfId(b, id)
  {
    if |a| > 0 && a[0].id != id {
      IndexOfIdOnlyReadsIds(a[1..], b[1..], id);
    }
  }

  // ---------------------------------------------------------------------------
  // Array.prototype.filter on the list, by the finished flag

  /** The records whose `finished` equals `finished`, in list order. */
  function Select(todos: seq<Todo>, finished: bool): (r: seq<Todo>)
    ensures |r| <= |todos|
    ensures forall k :: 0 <= k < |r| ==> r[k].finished == finished
    decreases |todos|
  {
    if |todos| == 0 then []
    else
      var last := todos[|todos| - 1];
      Select(todos[..|todos| - 1], finished) + if last.finished == finished then [last] else []
  }

  /** A record is kept by the filter exactly when it is in the list with the
      wanted flag. */
  lemma {:induction false} SelectMembers(todos: seq<Todo>, finished: bool)
    ensures forall t :: t in Select(todos, finished) <==> t in todos && t.finished == finished
  {
    if |todos| > 0 {
      var prefix, last := todos[..|todos| - 1], todos[|todos| - 1];
      assert todos == prefix + [last];
      SelectMembers(prefix, finished);
    }
  }

  /** Filtering a list with one more record at its end. */
  lemma SelectAppend(todos: seq<Todo>, t: Todo, finished: bool)
    ensures Select(todos + [t], finished)
            == Select(todos, finished) + if t.finished == finished then [t] else []
  {
    assert (todos + [t])[..|todos|] == todos;
  }

  /** The positions of the records whose `finished` equals `finished`, in
      increasing order: the reference against which the filter's order is
      stated. */
  ghost function SelectedIndices(todos: seq<Todo>, finished: bool): (r: seq<nat>)
    ensures forall k :: 0 <= k < |r| ==> r[k] < |todos| && todos[r[k]].finished == finished
    ensures forall k, l :: 0 <= k < l < |r| ==> r[k] < r[l]
    ensures forall i :: 0 <= i < |todos| && todos[i].finished == finished ==> i in r
    decreases |todos|
  {
    if |todos| == 0 then []
    else
      var n := |todos| - 1;
      SelectedIndices(todos[..n], finished) + if todos[n].finished == finished then [n] else []
  }

  /** The filter keeps exactly the records at the selected positions, in the
      order of those positions: it is an order-preserving subsequence. */
  lemma {:induction false} SelectIsOrderedSelection(todos: seq<Todo>, finished: bool)
    ensures |Select(todos, finished)| == |SelectedIndices(todos, finished)|
    ensures forall k :: 0 <= k < |Select(todos, finished)| ==>
              Select(todos, finished)[k] == todos[SelectedIndices(todos, finished)[k]]
  {
    if |todos| > 0 {
      var n := |todos| - 1;
      var prefix := todos[..n];
      SelectIsOrderedSelection(prefix, finished);
      var s, idx := Select(prefix, finished), SelectedIndices(prefix, finished);
      var keep := todos[n].finished == finished;
      assert Select(todos, finished) == s + if keep then [todos[n]] else [];
      assert SelectedIndices(todos, finished) == idx + if keep then [n] else [];
      forall k | 0 <= k < |s|
        ensures Select(todos, finished)[k] == todos[SelectedIndices(todos, finished)[k]]
      {
        assert s[k] == prefix[idx[k]];
      }
    }
  }

  /** The finished and the unfinished records split the list between them:
      together they hold every record exactly as often as the list does. */
  lemma {:induction false} SelectPartitions(todos: seq<Todo>)
    ensures |Select(todos, true)| + |Select(todos, false)| == |todos|
    ensures multiset(Select(todos, true)) + multiset(Select(todos, false)) == multiset(todos)
  {
    if |todos| > 0 {
      var prefix, last := todos[..|todos| - 1], todos[|todos| - 1];
      assert todos == prefix + [last];
      SelectPartitions(prefix);
      var yes, no := Select(prefix, true), Select(prefix, false);
      if last.finished {
        assert Select(todos, true) == yes + [last];
        assert Select(todos, false) == no;
      } else {
        assert Select(todos, true) == yes;
        assert Select(todos, false) == no + [last];
      }
    }
  }

  /** No record is both finished and unfinished. */
  lemma SelectDisjoint(todos: seq<Todo>)
    ensures multiset(Select(todos, true)) * multiset(Select(todos, false)) == multiset{}
  {
    SelectMembers(todos, true);
    SelectMembers(todos, false);
    var m := multiset(Select(todos, true)) * multiset(Select(todos, false));
    forall t | t in m
      ensures false
    {
    }
  }

  /** A filtered list of records keeps the ids increasing. */
  lemma {:induction false} SelectKeepsIdsIncreasing(todos: seq<Todo>, finished: bool)
    requires IdsIncreasing(todos)
    ensures IdsIncreasing(Select(todos, finished))
  {
    if |todos| > 0 {
      var prefix, last := todos[..|todos| - 1], todos[|todos| - 1];
      SelectKeepsIdsIncreasing(prefix, finished);
      var s := Select(prefix, finished);
      if last.finished == finished && |s| > 0 {
        SelectMembers(prefix, finished);
        assert s[|s| - 1] in s;
        IncreasingIdsAreDistinct(todos);
        var i :| 0 <= i < |prefix| && prefix[i] == s[|s| - 1];
        assert todos[i] == s[|s| - 1];
      }
    }
  }

  /** What a filter setting lets through. */
  predicate Shows(filter: FilterType, t: Todo)
  {
    match filter
    case All => true
    case Finished => t.finished
    case Unfinished => !t.finished
  }

  // ---------------------------------------------------------------------------
  // toggleTodo on the list

  /** The list with the `finished` flag of record `i` negated. */
  function FlipAt(todos: seq<Todo>, i: nat): seq<Todo>
    requires i < |todos|
  {
    todos[i := todos[i].(finished := !todos[i].finished)]
  }

  /** The list after toggling the record `id` names, or the failure raised
      when no record has that id. */
  function Toggled(todos: seq<Todo>, id: int): (r: Result<seq<Todo>>)
    ensures r.Err? <==> forall k :: 0 <= k < |todos| ==> todos[k].id != id
    ensures r.Err? ==> r.error == TodoNotFound
    ensures r.Ok? ==> |r.value| == |todos|
    ensures r.Ok? ==>
              exists i :: 0 <= i < |todos| && todos[i].id == id
                && (forall j :: 0 <= j < i ==> todos[j].id != id)
                && r.value[i] == Todo(todos[i].id, todos[i].text, !todos[i].finished)
                && (forall k :: 0 <= k < |todos| && k != i ==> r.value[k] == todos[k])
  {
    match IndexOfId(todos, id)
    case None => Err(TodoNotFound)
    case Some(i) => Ok(FlipAt(todos, i))
  }

  /** Toggling changes no id, so the id invariant survives it. */
  lemma ToggledKeepsIds(todos: seq<Todo>, id: int, bound: nat)
    requires Toggled(todos, id).Ok?
    requires IdsBelow(todos, bound) && IdsIncreasing(todos)
    ensures IdsBelow(Toggled(todos, id).value, bound)
    ensures IdsIncreasing(Toggled(todos, id).value)
  {
    assert forall k :: 0 <= k < |todos| ==> Toggled(todos, id).value[k].id == todos[k].id;
  }

  /** Toggling the same id twice gives back the list it started from. */
  lemma ToggleTwiceRestores(todos: seq<Todo>, id: int)
    requires Toggled(todos, id).Ok?
    ensures Toggled(Toggled(todos, id).value, id) == Ok(todos)
  {
    var once := Toggled(todos, id).value;
    var i := IndexOfId(todos, id).value;
    IndexOfIdOnlyReadsIds(todos, once, id);
    assert FlipAt(once, i) == todos;
  }

  // ---------------------------------------------------------------------------
  // The store

  class TodoStore {
    var filter: FilterType
    var todos: seq<Todo>
    var nextId: nat

    /** Ids follow list order and stay below the counter. */
    ghost predicate Valid()
      reads this`todos, this`nextId
    {
      IdsBelow(todos, nextId) && IdsIncreasing(todos)
    }

    /** The initial state. */
    constructor ()
      ensures filter == All && todos == [] && nextId == 0
      ensures Valid()
    {
      filter := All;
      todos := [];
      nextId := 0;
    }

    /** The first record whose id is `id`; fails when none has it. */
    function FindTodo(id: int): (r: Result<Todo>)
      reads this`todos
      ensures r.Err? <==> forall t :: t in todos ==> t.id != id
      ensures r.Err? ==> r.error == TodoNotFound
      ensures r.Ok? ==> exists i :: 0 <= i < |todos| && todos[i] == r.value && r.value.id == id
                          && forall j :: 0 <= j < i ==> todos[j].id != id
    {
      match IndexOfId(todos, id)
      case None => Err(TodoNotFound)
      case Some(i) => Ok(todos[i])
    }

    /** The finished records, in list order. */
    function FinishedTodos(): (r: seq<Todo>)
      reads this`todos
      ensures forall t :: t in r <==> t in todos && t.finished
    {
      SelectMembers(todos, true);
      Select(todos, true)
    }

    /** The unfinished records, in list order. */
    function UnfinishedTodos(): (r: seq<Todo>)
      reads this`todos
      ensures forall t :: t in r <==> t in todos && !t.finished
    {
      SelectMembers(todos, false);
      Select(todos, false)
    }

    /** The records the current filter shows. */
    function FilteredTodos(): (r: seq<Todo>)
      reads this
      ensures forall t :: t in r <==> t in todos && Shows(filter, t)
      ensures filter == All ==> r == todos
      ensures filter == Finished ==> r == FinishedTodos()
      ensures filter == Unfinished ==> r == UnfinishedTodos()
    {
      match filter
      case Finished => FinishedTodos()
      case Unfinished => UnfinishedTodos()
      case All => todos
    }

    /** Chooses the filter; the records and the counter stay as they are. */
    method SetFilter(f: FilterType)
      modifies this`filter
      ensures filter == f
    {
      filter := f;
    }

    /** Appends a new unfinished record carrying the counter's value, then
        advances the counter. */
    method AddTodo(text: string)
      modifies this
      ensures old(Valid()) ==> Valid()
      ensures todos == old(todos) + [Todo(old(nextId), text, false)]
      ensures nextId == old(nextId) + 1
      ensures filter == old(filter)
      ensures FinishedTodos() == old(FinishedTodos())
      ensures UnfinishedTodos() == old(UnfinishedTodos()) + [Todo(old(nextId), text, false)]
    {
      var todo := Todo(nextId, text, false);
      SelectAppend(todos, todo, true);
      SelectAppend(todos, todo, false);
      todos := todos + [todo];
      nextId := nextId + 1;
    }

    /** Negates the `finished` flag of the record `id` names; fails, changing
        nothing, when no record has that id. */
    method ToggleTodo(id: int) returns (outcome: Outcome)
      modifies this
      ensures old(Valid()) ==> Valid()
      ensures filter == old(filter) && nextId == old(nextId)
      ensures outcome.Pass? <==> Toggled(old(todos), id).Ok?
      ensures outcome.Pass? ==> todos == Toggled(old(todos), id).value
      ensures outcome.Fail? ==> outcome.error == TodoNotFound && todos == old(todos)
    {
      match IndexOfId(todos, id)
      case None =>
        outcome := Fail(TodoNotFound);
      case Some(i) =>
        if Valid() {
          ToggledKeepsIds(todos, id, nextId);
        }
        var todo := todos[i];
        todos := todos[i := todo.(finished := !todo.finished)];
        outcome := Pass;
    }
  }

  /** The views of a two-record list whose first record is finished and
      whose second is not. */
  lemma ViewsOfTwo(done: Todo, open: Todo)
    requires done.finished && !open.finished
    ensures Select([done, open], true) == [done]
    ensures Select([done, open], false) == [open]
  {
    assert [done, open][..1] == [done];
    assert [done][..0] == [];
  }

  /** A walk-through: two additions and a toggle, then the views. */
  method Scenario(first: string, second: string)
  {
    var a, b := Todo(0, first, false), Todo(1, second, false);
    var done := a.(finished := true);
    var store := new TodoStore();
    store.AddTodo(first);
    store.AddTodo(second);
    assert store.todos == [a, b];
    assert IndexOfId([a, b], 0) == Some(0) && FlipAt([a, b], 0) == [done, b];
    var outcome := store.ToggleTodo(0);
    assert outcome == Pass && store.todos == [done, b];
    ScenarioViews(store, done, b);
  }

  /** The views of the walk-through's store, before and after the filter is
      switched to the finished records. */
  method ScenarioViews(store: TodoStore, done: Todo, open: Todo)
    requires store.todos == [done, open] && done.finished && !open.finished
    modifies store
  {
    ViewsOfTwo(done, open);
    assert store.FinishedTodos() == [done];
    assert store.UnfinishedTodos() == [open];
    store.SetFilter(Finished);
    assert store.FilteredTodos() == [done];
  }

  /** Toggling an id no record carries fails and leaves the store as it was. */
  method ScenarioMissingId()
  {
    var store := new TodoStore();
    store.AddTodo("buy milk");
    var before := store.todos;
    assert IndexOfId(before, 7) == None;
    var outcome := store.ToggleTodo(7);
    assert outcome == Fail(TodoNotFound) && store.todos == before && store.nextId == 1;
  }
}
