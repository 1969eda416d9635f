/**
 * What every reachable store satisfies: each list name and todo name is
 * stripped and 1..100 characters long, and no two lists share a name. The
 * four handlers preserve it, starting from the empty store of a fresh
 * session.
 */
module StoreInvariant {
  import opened Optional
  import opened RubyString
  import opened TodoModel
  import opened Validation
  import opened Routes

  predicate WellFormedName(name: string) {
    LengthOk(name) && Stripped(name)
  }

  predicate WellFormedList(list: TodoList) {
    && WellFormedName(list.name)
    && forall j :: 0 <= j < |list.todos| ==> WellFormedName(list.todos[j].name)
  }

  predicate DistinctNames(lists: Store) {
    forall i, j :: 0 <= i < j < |lists| ==> lists[i].name != lists[j].name
  }

  predicate Valid(lists: Store) {
    && (forall i :: 0 <= i < |lists| ==> WellFormedList(lists[i]))
    && DistinctNames(lists)
  }

  /** The `before` filter's `session[:lists] ||= []` starts a valid store. */
  lemma EmptyStoreValid()
    ensures Valid([])
  {
  }

  lemma CreateListPreservesValid(lists: Store, listName: string)
    requires Valid(lists)
    ensures Valid(CreateList(lists, listName).lists)
  {
    var r := CreateList(lists, listName);
    if r.error == None {
      var name := Strip(listName);
      assert r.lists == lists + [TodoList(name, [])];
      AppendedStoreValid(lists, TodoList(name, []));
    }
  }

  /** Appending a well-formed list whose name no list carries keeps the store
      valid. */
  lemma AppendedStoreValid(lists: Store, list: TodoList)
    requires Valid(lists) && WellFormedList(list)
    requires forall i :: 0 <= i < |lists| ==> lists[i].name != list.name
    ensures Valid(lists + [list])
  {
    var after := lists + [list];
    forall i, j | 0 <= i < j < |after|
      ensures after[i].name != after[j].name
    {
      if j == |lists| {
        assert after[i] == lists[i];
      }
    }
  }

  lemma RenameListPreservesValid(lists: Store, id: int, listName: string)
    requires LongIndex(id)
    requires Addressable(|lists|, id) || ListNameError(lists, Strip(listName)) != None
    requires Valid(lists)
    ensures Valid(RenameList(lists, id, listName).lists)
  {
    var r := RenameList(lists, id, listName);
    if r.error == None {
      var k := Slot(|lists|, id);
      assert WellFormedList(lists[k]);
      assert r.lists == lists[k := r.lists[k]];
      ReplacedStoreValid(lists, k, r.lists[k]);
    }
  }

  /** Putting a well-formed list at position `k` keeps the store valid when no
      other list carries its name. */
  lemma ReplacedStoreValid(lists: Store, k: nat, list: TodoList)
    requires Valid(lists) && k < |lists| && WellFormedList(list)
    requires forall i :: 0 <= i < |lists| && i != k ==> lists[i].name != list.name
    ensures Valid(lists[k := list])
  {
    var after := lists[k := list];
    forall i, j | 0 <= i < j < |after|
      ensures after[i].name != after[j].name
    {
      if i != k && j != k {
        assert after[i] == lists[i] && after[j] == lists[j];
      }
    }
  }

  lemma DeleteListPreservesValid(lists: Store, id: int)
    requires LongIndex(id) && Valid(lists)
    ensures Valid(DeleteList(lists, id))
  {
    var r := DeleteList(lists, id);
    if Addressable(|lists|, id) {
      var k := Slot(|lists|, id);
      forall i, j | 0 <= i < j < |r|
        ensures r[i].name != r[j].name
      {
        var i' := if i < k then i else i + 1;
        var j' := if j < k then j else j + 1;
        assert r[i] == lists[i'] && r[j] == lists[j'] && i' < j';
      }
      forall i | 0 <= i < |r|
        ensures WellFormedList(r[i])
      {
        var i' := if i < k then i else i + 1;
        assert r[i] == lists[i'];
      }
    }
  }

  lemma AddTodoPreservesValid(lists: Store, listId: int, todo: string)
    requires LongIndex(listId)
    requires Addressable(|lists|, listId) || TodoError(Strip(todo)) != None
    requires Valid(lists)
    ensures Valid(AddTodo(lists, listId, todo).lists)
  {
    var r := AddTodo(lists, listId, todo);
    if r.error == None {
      var k := Slot(|lists|, listId);
      assert WellFormedList(lists[k]);
      AppendedListWellFormed(lists[k], r.lists[k], Strip(todo));
      assert r.lists == lists[k := r.lists[k]];
      ReplacedStoreValid(lists, k, r.lists[k]);
    }
  }

  /** A list keeps its shape when a well-formed todo is appended to it. */
  lemma AppendedListWellFormed(before: TodoList, after: TodoList, text: string)
    requires WellFormedList(before) && WellFormedName(text)
    requires after.name == before.name
    requires |after.todos| == |before.todos| + 1
    requires after.todos[..|before.todos|] == before.todos
    requires after.todos[|before.todos|] == Todo(text, false)
    ensures WellFormedList(after)
  {
    forall j | 0 <= j < |after.todos|
      ensures WellFormedName(after.todos[j].name)
    {
      if j < |before.todos| {
        assert after.todos[j] == after.todos[..|before.todos|][j];
      }
    }
  }

  /** Whitespace-only input strips to the empty string, which the length test
      rejects before anything else is looked at. */
  lemma BlankListNameRejected(lists: Store, listName: string)
    requires forall k :: 0 <= k < |listName| ==> IsStripSpace(listName[k])
    ensures CreateList(lists, listName) == Reply(lists, Some(ListNameLengthMessage))
  {
    StripEmptyIffBlank(listName);
  }

  lemma BlankTodoRejected(lists: Store, listId: int, todo: string)
    requires LongIndex(listId)
    requires forall k :: 0 <= k < |todo| ==> IsStripSpace(todo[k])
    ensures AddTodo(lists, listId, todo) == Reply(lists, Some(TodoLengthMessage))
  {
    StripEmptyIffBlank(todo);
  }

  /** Submitting the same list name twice: the first is created, the second
      is refused as not unique and changes nothing. */
  lemma CreateSameNameTwiceRejected(lists: Store, listName: string)
    requires CreateList(lists, listName).error == None
    ensures var once := CreateList(lists, listName).lists;
      CreateList(once, listName) == Reply(once, Some(ListNameUniqueMessage))
  {
    var once := CreateList(lists, listName).lists;
    assert once[|lists|].name == Strip(listName);
  }

  /** Renaming any list to a stripped, well-sized name some list already
      carries is refused and changes nothing. */
  lemma RenameToTakenNameRejected(lists: Store, id: int, listName: string)
    requires LongIndex(id)
    requires WellFormedName(listName) && NameTaken(lists, listName)
    ensures RenameList(lists, id, listName) == Reply(lists, Some(ListNameUniqueMessage))
  {
    StripStripped(listName);
  }

  /** The uniqueness test does not skip the list being renamed, so saving a
      list under the name it already has is refused. */
  lemma RenameToCurrentNameRejected(lists: Store, id: int)
    requires Valid(lists) && LongIndex(id) && Addressable(|lists|, id)
    ensures var current := lists[Slot(|lists|, id)].name;
      RenameList(lists, id, current) == Reply(lists, Some(ListNameUniqueMessage))
  {
    var k := Slot(|lists|, id);
    assert WellFormedList(lists[k]);
    RenameToTakenNameRejected(lists, id, lists[k].name);
  }

  /** Deleting drops exactly one list: putting it back at its old position
      gives the store before the request. */
  lemma DeleteListRemovesOne(lists: Store, id: int)
    requires LongIndex(id) && Addressable(|lists|, id)
    ensures var k := Slot(|lists|, id);
      var r := DeleteList(lists, id);
      && r[..k] + [lists[k]] + r[k..] == lists
      && multiset(r) + multiset{lists[k]} == multiset(lists)
  {
    var k := Slot(|lists|, id);
    var r := DeleteList(lists, id);
    assert r[..k] + [lists[k]] + r[k..] == lists;
    calc {
      multiset(lists);
      multiset(r[..k] + [lists[k]] + r[k..]);
      multiset(r[..k]) + multiset{lists[k]} + multiset(r[k..]);
      { assert r == r[..k] + r[k..]; }
      multiset(r) + multiset{lists[k]};
    }
  }

  /** Todo names need not be unique: the same text can be added to a list
      twice, and both copies are kept. */
  lemma DuplicateTodosAccepted(lists: Store, listId: int, todo: string)
    requires LongIndex(listId) && Addressable(|lists|, listId) && LengthOk(Strip(todo))
    ensures var once := AddTodo(lists, listId, todo);
      var twice := AddTodo(once.lists, listId, todo);
      var k := Slot(|lists|, listId);
      && twice.error == None
      && |twice.lists[k].todos| == |lists[k].todos| + 2
      && twice.lists[k].todos[|lists[k].todos|] == twice.lists[k].todos[|lists[k].todos| + 1]
  {
    var once := AddTodo(lists, listId, todo);
    var k := Slot(|lists|, listId);
    assert once.lists[k].todos[..|lists[k].todos|] == lists[k].todos;
  }
}
