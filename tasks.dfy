/**
 * The task list of the home screen and the pure list transformations its
 * handlers pass to `setTodos`: prepend on add, `map` on toggle and on save-edit,
 * `filter` on delete. Each handler acts on EVERY entry whose id matches; ids
 * are not guaranteed unique by the program, so uniqueness appears below only
 * as a hypothesis of the lemmas that preserve it.
 */
module Tasks {
  import opened Text

  /** A to-do entry `{id, text, completed}`. */
  datatype Task = Task(id: string, text: string, completed: bool)

  /** The ids that occur in the list. */
  function Ids(todos: seq<Task>): set<string> {
    set t | t in todos :: t.id
  }

  /** No two entries share an id. */
  predicate UniqueIds(todos: seq<Task>) {
    forall i, j :: 0 <= i < j < |todos| ==> todos[i].id != todos[j].id
  }

  /** The number of entries whose id is `id`. */
  function Occurrences(todos: seq<Task>, id: string): (n: nat)
    ensures n <= |todos|
  {
    if todos == [] then 0
    else (if todos[0].id == id then 1 else 0) + Occurrences(todos[1..], id)
  }

  /** handleAddTask: a fresh incomplete entry in front of the old list. No check on the text. */
  function AddTask(todos: seq<Task>, id: string, text: string): (r: seq<Task>)
    ensures |r| == |todos| + 1
    ensures r[0].id == id && r[0].text == text && !r[0].completed
    ensures r[1..] == todos
    ensures Ids(r) == Ids(todos) + {id}
  {
    [Task(id, text, false)] + todos
  }

  /** handleToggleTodo: flips `completed` on every entry with that id, nothing else. */
  function ToggleTodo(todos: seq<Task>, id: string): (r: seq<Task>)
    ensures |r| == |todos|
    ensures forall i :: 0 <= i < |r| ==>
      && r[i].id == todos[i].id
      && r[i].text == todos[i].text
      && r[i].completed == (if todos[i].id == id then !todos[i].completed else todos[i].completed)
  {
    if todos == [] then []
    else
      var head := if todos[0].id == id then todos[0].(completed := !todos[0].completed) else todos[0];
      [head] + ToggleTodo(todos[1..], id)
  }

  /**
   * handleDeleteTodo: keeps the entries whose id differs, in order. Its
   * specification is stated by three lemmas below: DeleteMembers (which
   * entries survive), DeleteLength (how many) and DeleteAppend (in what order).
   */
  function DeleteTodo(todos: seq<Task>, id: string): (r: seq<Task>)
    ensures |r| <= |todos|
  {
    if todos == [] then []
    else (if todos[0].id == id then [] else [todos[0]]) + DeleteTodo(todos[1..], id)
  }

  /** The list part of handleSaveTask: replaces `text` on every entry with that id. */
  function EditTodo(todos: seq<Task>, id: string, newText: string): (r: seq<Task>)
    ensures |r| == |todos|
    ensures forall i :: 0 <= i < |r| ==>
      && r[i].id == todos[i].id
      && r[i].completed == todos[i].completed
      && r[i].text == (if todos[i].id == id then newText else todos[i].text)
  {
    if todos == [] then []
    else
      var head := if todos[0].id == id then todos[0].(text := newText) else todos[0];
      [head] + EditTodo(todos[1..], id, newText)
  }

  /** The guard of the save effect: only a non-empty list is written to storage. */
  function ShouldPersist(todos: seq<Task>): (save: bool)
    ensures save <==> Ids(todos) != {}
  {
    assert todos != [] ==> todos[0].id in Ids(todos);
    |todos| > 0
  }

  // ---------------------------------------------------------------- add

  /** Adding under an id not yet present keeps the ids unique. */
  lemma AddKeepsUnique(todos: seq<Task>, id: string, text: string)
    requires UniqueIds(todos) && id !in Ids(todos)
    ensures UniqueIds(AddTask(todos, id, text))
  {
  }

  /** Deleting the id just added gives back the old list: delete undoes add. */
  lemma DeleteUndoesAdd(todos: seq<Task>, id: string, text: string)
    requires id !in Ids(todos)
    ensures DeleteTodo(AddTask(todos, id, text), id) == todos
  {
    var r := AddTask(todos, id, text);
    assert r[1..] == todos;
    DeleteAbsent(todos, id);
  }

  /** A blank text is not refused here: the list grows, keeps the text as given, and is saved. */
  lemma AddAcceptsBlank(todos: seq<Task>, id: string, text: string)
    requires IsBlank(text)
    ensures |AddTask(todos, id, text)| == |todos| + 1
    ensures AddTask(todos, id, text)[0].text == text
    ensures ShouldPersist(AddTask(todos, id, text))
  {
  }

  // ---------------------------------------------------------------- toggle

  /** Toggling the same id twice restores the list. */
  lemma ToggleTwice(todos: seq<Task>, id: string)
    ensures ToggleTodo(ToggleTodo(todos, id), id) == todos
  {
  }

  /** Toggling an id that is not in the list changes nothing. */
  lemma ToggleAbsent(todos: seq<Task>, id: string)
    requires id !in Ids(todos)
    ensures ToggleTodo(todos, id) == todos
  {
  }

  /** Toggle keeps the set of ids, hence their uniqueness. */
  lemma ToggleKeepsIds(todos: seq<Task>, id: string)
    ensures Ids(ToggleTodo(todos, id)) == Ids(todos)
    ensures UniqueIds(todos) ==> UniqueIds(ToggleTodo(todos, id))
  {
    SameIdsPointwise(todos, ToggleTodo(todos, id));
  }

  // ---------------------------------------------------------------- delete

  /** Delete shortens the list by the number of entries with that id. */
  lemma {:induction false} DeleteLength(todos: seq<Task>, id: string)
    ensures |DeleteTodo(todos, id)| == |todos| - Occurrences(todos, id)
  {
    if todos != [] {
      DeleteLength(todos[1..], id);
    }
  }

  /** An id occurs in the list exactly when it is among its ids. */
  lemma {:induction false} OccurrencesIds(todos: seq<Task>, id: string)
    ensures Occurrences(todos, id) == 0 <==> id !in Ids(todos)
  {
    if todos != [] {
      OccurrencesIds(todos[1..], id);
      assert todos[0] in todos;
      assert Ids(todos) == {todos[0].id} + Ids(todos[1..]) by {
        TailIds(todos);
        forall x | x in Ids(todos) ensures x == todos[0].id || x in Ids(todos[1..]) {
          var t :| t in todos && t.id == x;
          var k :| 0 <= k < |todos| && todos[k] == t;
          if k > 0 {
            assert todos[1..][k - 1] == t;
          }
        }
      }
    }
  }

  /** An entry survives delete exactly when it was in the list with a different id. */
  lemma {:induction false} DeleteMembers(todos: seq<Task>, id: string)
    ensures forall t :: t in DeleteTodo(todos, id) <==> t in todos && t.id != id
  {
    if todos != [] {
      DeleteMembers(todos[1..], id);
      assert todos == [todos[0]] + todos[1..];
    }
  }

  /** Deleting an id that is not in the list changes nothing. */
  lemma {:induction false} DeleteAbsent(todos: seq<Task>, id: string)
    requires id !in Ids(todos)
    ensures DeleteTodo(todos, id) == todos
  {
    if todos != [] {
      assert todos[0] in todos;
      TailIds(todos);
      DeleteAbsent(todos[1..], id);
    }
  }

  /** After a delete no entry has that id, and a second delete is a no-op. */
  lemma DeleteIdempotent(todos: seq<Task>, id: string)
    ensures id !in Ids(DeleteTodo(todos, id))
    ensures DeleteTodo(DeleteTodo(todos, id), id) == DeleteTodo(todos, id)
  {
    DeleteIds(todos, id);
    DeleteAbsent(DeleteTodo(todos, id), id);
  }

  /** Delete removes exactly that id from the set of ids. */
  lemma DeleteIds(todos: seq<Task>, id: string)
    ensures Ids(DeleteTodo(todos, id)) == Ids(todos) - {id}
  {
    var r := DeleteTodo(todos, id);
    DeleteMembers(todos, id);
    forall x | x in Ids(todos) - {id} ensures x in Ids(r) {
      var t :| t in todos && t.id == x;
      assert t in r;
    }
  }

  /** Delete keeps order: it distributes over concatenation, so each entry is kept or dropped in place. */
  lemma {:induction false} DeleteAppend(a: seq<Task>, b: seq<Task>, id: string)
    ensures DeleteTodo(a + b, id) == DeleteTodo(a, id) + DeleteTodo(b, id)
  {
    if a == [] {
      assert a + b == b;
    } else {
      var t, rest := a[0], a[1..];
      assert a + b == [t] + (rest + b);
      DeleteCons(t, rest + b, id);
      DeleteAppend(rest, b, id);
      if t.id == id {
        calc {
          DeleteTodo(a + b, id);
          DeleteTodo(rest, id) + DeleteTodo(b, id);
          { DeleteCons(t, rest, id); assert a == [t] + rest; }
          DeleteTodo(a, id) + DeleteTodo(b, id);
        }
      } else {
        calc {
          DeleteTodo(a + b, id);
          [t] + (DeleteTodo(rest, id) + DeleteTodo(b, id));
          ([t] + DeleteTodo(rest, id)) + DeleteTodo(b, id);
          { DeleteCons(t, rest, id); assert a == [t] + rest; }
          DeleteTodo(a, id) + DeleteTodo(b, id);
        }
      }
    }
  }

  /** Delete on a list with a given first entry keeps or drops that entry in front. */
  lemma DeleteCons(t: Task, rest: seq<Task>, id: string)
    ensures DeleteTodo([t] + rest, id) == (if t.id == id then [] else [t]) + DeleteTodo(rest, id)
  {
  }

  /** On a list whose ids are unique, deleting a present id removes exactly one entry. */
  lemma DeleteRemovesOne(todos: seq<Task>, id: string)
    requires UniqueIds(todos) && id in Ids(todos)
    ensures |DeleteTodo(todos, id)| == |todos| - 1
  {
    UniqueAtMostOnce(todos, id);
    OccurrencesIds(todos, id);
    DeleteLength(todos, id);
  }

  /** Delete keeps the ids unique. */
  lemma {:induction false} DeleteKeepsUnique(todos: seq<Task>, id: string)
    requires UniqueIds(todos)
    ensures UniqueIds(DeleteTodo(todos, id))
  {
    if todos != [] {
      var rest := todos[1..];
      assert UniqueIds(rest) by {
        forall i, j | 0 <= i < j < |rest| ensures rest[i].id != rest[j].id {
          assert rest[i] == todos[i + 1] && rest[j] == todos[j + 1];
        }
      }
      DeleteKeepsUnique(rest, id);
      var tail := DeleteTodo(rest, id);
      DeleteMembers(rest, id);
      if todos[0].id != id {
        var r := [todos[0]] + tail;
        forall i, j | 0 <= i < j < |r| ensures r[i].id != r[j].id {
          if i == 0 {
            assert r[j] == tail[j - 1] && tail[j - 1] in rest;
            var k :| 0 <= k < |rest| && rest[k] == tail[j - 1];
            assert todos[k + 1] == rest[k];
          } else {
            assert r[i] == tail[i - 1] && r[j] == tail[j - 1];
          }
        }
      }
    }
  }

  // ---------------------------------------------------------------- edit

  /** Saving twice under one id keeps only the second text. */
  lemma EditLastWins(todos: seq<Task>, id: string, first: string, second: string)
    ensures EditTodo(EditTodo(todos, id, first), id, second) == EditTodo(todos, id, second)
  {
  }

  /** Saving under an id that is not in the list changes nothing. */
  lemma EditAbsent(todos: seq<Task>, id: string, newText: string)
    requires id !in Ids(todos)
    ensures EditTodo(todos, id, newText) == todos
  {
  }

  /** Edit keeps the set of ids, hence their uniqueness. */
  lemma EditKeepsIds(todos: seq<Task>, id: string, newText: string)
    ensures Ids(EditTodo(todos, id, newText)) == Ids(todos)
    ensures UniqueIds(todos) ==> UniqueIds(EditTodo(todos, id, newText))
  {
    SameIdsPointwise(todos, EditTodo(todos, id, newText));
  }

  // ---------------------------------------------------------------- persistence guard

  /** Add always leads to a save; toggle and edit save exactly when the list was non-empty. */
  lemma PersistAfterChange(todos: seq<Task>, id: string, text: string)
    ensures ShouldPersist(AddTask(todos, id, text))
    ensures ShouldPersist(ToggleTodo(todos, id)) <==> ShouldPersist(todos)
    ensures ShouldPersist(EditTodo(todos, id, text)) <==> ShouldPersist(todos)
  {
  }

  /** A delete leads to no save exactly when every entry had that id, e.g. when the last task is deleted. */
  lemma PersistAfterDelete(todos: seq<Task>, id: string)
    ensures !ShouldPersist(DeleteTodo(todos, id)) <==> Ids(todos) <= {id}
  {
    var r := DeleteTodo(todos, id);
    DeleteIds(todos, id);
    if r != [] {
      assert r[0] in r && r[0].id in Ids(r);
    } else {
      assert Ids(r) == {};
    }
  }

  // ---------------------------------------------------------------- scenario

  /** Add "Buy milk" to the empty list, toggle it, delete it: the list is empty again. */
  lemma BuyMilkScenario(id: string)
    ensures AddTask([], id, "Buy milk") == [Task(id, "Buy milk", false)]
    ensures ToggleTodo(AddTask([], id, "Buy milk"), id) == [Task(id, "Buy milk", true)]
    ensures DeleteTodo(ToggleTodo(AddTask([], id, "Buy milk"), id), id) == []
  {
  }

  // ---------------------------------------------------------------- helpers

  /** The ids of the tail are ids of the list. */
  lemma TailIds(todos: seq<Task>)
    requires todos != []
    ensures Ids(todos[1..]) <= Ids(todos)
  {
  }

  /** Two lists with the same ids position by position have the same id set and the same uniqueness. */
  lemma SameIdsPointwise(a: seq<Task>, b: seq<Task>)
    requires |a| == |b| && forall i :: 0 <= i < |a| ==> a[i].id == b[i].id
    ensures Ids(a) == Ids(b)
    ensures UniqueIds(a) ==> UniqueIds(b)
  {
  }

  /** With unique ids an id occurs at most once. */
  lemma {:induction false} UniqueAtMostOnce(todos: seq<Task>, id: string)
    requires UniqueIds(todos)
    ensures Occurrences(todos, id) <= 1
  {
    if todos != [] {
      var rest := todos[1..];
      assert UniqueIds(rest) by {
        forall i, j | 0 <= i < j < |rest| ensures rest[i].id != rest[j].id {
          assert rest[i] == todos[i + 1] && rest[j] == todos[j + 1];
        }
      }
      UniqueAtMostOnce(rest, id);
      OccurrencesIds(rest, id);
    }
  }
}
