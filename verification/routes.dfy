/**
 * The four POST handlers that change the store, each as a pure function from
 * the store before the request to the store after it and the error message
 * (if any) the handler puts in `session[:error]`.
 */
module Routes {
  import opened Optional
  import opened RubyString
  import opened TodoModel
  import opened Validation

  /** What a handler leaves behind: the store, and the validation error it
      reported (`None` when the request was accepted). */
  datatype Reply = Reply(lists: Store, error: Option<string>)

  /** `post "/lists"`: strip the submitted name, validate it, and on success
      append a new list with no todos. */
  function CreateList(lists: Store, listName: string): (r: Reply)
    ensures r.error == None <==>
      LengthOk(Strip(listName)) && forall i :: 0 <= i < |lists| ==> lists[i].name != Strip(listName)
    ensures r.error != None ==> r.lists == lists && r.error == ListNameError(lists, Strip(listName))
    ensures r.error == None ==>
      && |r.lists| == |lists| + 1
      && r.lists[..|lists|] == lists
      && r.lists[|lists|] == TodoList(Strip(listName), [])
  {
    var name := Strip(listName);
    var error := ListNameError(lists, name);
    if error.Some? then Reply(lists, error)
    else Reply(lists + [TodoList(name, [])], None)
  }

  /** `post "/lists/:id"`: strip the submitted name, validate it against every
      list (the one being renamed included), and on success overwrite the name
      of the list at `id`. Reading `session[:lists][id]` before validation
      raises for an index outside the `long` range. The list found there is
      dereferenced only once validation has passed, so accepting a name for
      an index that reaches no list raises. On rejection the form is rendered
      again, which is taken not to raise. */
  function RenameList(lists: Store, id: int, listName: string): (r: Reply)
    requires LongIndex(id)
    requires Addressable(|lists|, id) || ListNameError(lists, Strip(listName)) != None
    ensures r.error == None <==>
      LengthOk(Strip(listName)) && forall i :: 0 <= i < |lists| ==> lists[i].name != Strip(listName)
    ensures r.error != None ==> r.lists == lists && r.error == ListNameError(lists, Strip(listName))
    ensures r.error == None ==>
      && |r.lists| == |lists|
      && r.lists[Slot(|lists|, id)] == TodoList(Strip(listName), lists[Slot(|lists|, id)].todos)
      && forall i :: 0 <= i < |lists| && i != Slot(|lists|, id) ==> r.lists[i] == lists[i]
  {
    var name := Strip(listName);
    var error := ListNameError(lists, name);
    if error.Some? then Reply(lists, error)
    else
      var k := Slot(|lists|, id);
      Reply(lists[k := lists[k].(name := name)], None)
  }

  /** `post "/lists/:id/delete"`: `Array#delete_at(id)`. The list at `id` is
      removed and the later lists move down one place; an index that reaches
      no list leaves the store as it was, and one outside the `long` range
      raises. */
  function DeleteList(lists: Store, id: int): (r: Store)
    requires LongIndex(id)
    ensures !Addressable(|lists|, id) ==> r == lists
    ensures Addressable(|lists|, id) ==>
      && |r| == |lists| - 1
      && (forall i :: 0 <= i < Slot(|lists|, id) ==> r[i] == lists[i])
      && (forall i :: Slot(|lists|, id) <= i < |r| ==> r[i] == lists[i + 1])
  {
    if Addressable(|lists|, id) then
      var k := Slot(|lists|, id);
      lists[..k] + lists[k + 1..]
    else lists
  }

  /** `post "/lists/:list_id/todos"`: strip the submitted text, validate its
      length, and on success append an open todo to the list at `listId`. As
      with renaming, the index must fit a `long`, and the list is
      dereferenced only on the success path. */
  function AddTodo(lists: Store, listId: int, todo: string): (r: Reply)
    requires LongIndex(listId)
    requires Addressable(|lists|, listId) || TodoError(Strip(todo)) != None
    ensures r.error == None <==> LengthOk(Strip(todo))
    ensures r.error != None ==> r.lists == lists && r.error == Some(TodoLengthMessage)
    ensures r.error == None ==>
      var k := Slot(|lists|, listId);
      && |r.lists| == |lists|
      && r.lists[k].name == lists[k].name
      && |r.lists[k].todos| == |lists[k].todos| + 1
      && r.lists[k].todos[..|lists[k].todos|] == lists[k].todos
      && r.lists[k].todos[|lists[k].todos|] == Todo(Strip(todo), false)
      && forall i :: 0 <= i < |lists| && i != k ==> r.lists[i] == lists[i]
  {
    var text := Strip(todo);
    var error := TodoError(text);
    if error.Some? then Reply(lists, error)
    else
      var k := Slot(|lists|, listId);
      var list := lists[k];
      Reply(lists[k := list.(todos := list.todos + [Todo(text, false)])], None)
  }
}
