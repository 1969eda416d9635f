/**
 * A session as a sequence of POST requests, replayed from the empty store
 * the `before` filter installs. Form fields are taken to be strings. Every
 * store a session can reach this way satisfies the store invariant.
 */
module Session {
  import opened Optional
  import opened RubyString
  import opened TodoModel
  import opened Validation
  import opened Routes
  import opened StoreInvariant

  /** The four store-changing routes, with their form and path parameters. */
  datatype Request =
    | PostList(listName: string)
    | PostListUpdate(id: int, listName: string)
    | PostListDelete(id: int)
    | PostTodo(listId: int, todo: string)

  /** The handler runs to completion. Every indexed route raises for an
      index outside the `long` range; renaming and adding a todo also raise
      when they accept input for an index that reaches no list. */
  predicate Handled(lists: Store, req: Request) {
    match req
    case PostList(_) => true
    case PostListUpdate(id, listName) =>
      LongIndex(id) && (Addressable(|lists|, id) || ListNameError(lists, Strip(listName)) != None)
    case PostListDelete(id) => LongIndex(id)
    case PostTodo(listId, todo) =>
      LongIndex(listId) && (Addressable(|lists|, listId) || TodoError(Strip(todo)) != None)
  }

  /** An index that does not fit a `long` makes every indexed route raise,
      whatever the store and the submitted text. */
  lemma OversizedIndexRaises(lists: Store, id: int, listName: string, todo: string)
    requires !LongIndex(id)
    ensures !Handled(lists, PostListUpdate(id, listName))
    ensures !Handled(lists, PostListDelete(id))
    ensures !Handled(lists, PostTodo(id, todo))
  {
  }

  /** Dispatch one request to its handler. A request either reports an error
      and leaves the store alone, or grows the store by at most one list. */
  function Handle(lists: Store, req: Request): (r: Reply)
    requires Handled(lists, req)
    ensures r.error != None ==> r.lists == lists
    ensures |r.lists| <= |lists| + 1
    ensures req.PostListDelete? ==> r.error == None && |r.lists| <= |lists|
  {
    match req
    case PostList(listName) => CreateList(lists, listName)
    case PostListUpdate(id, listName) => RenameList(lists, id, listName)
    case PostListDelete(id) => Reply(DeleteList(lists, id), None)
    case PostTodo(listId, todo) => AddTodo(lists, listId, todo)
  }

  /** One request as the session sees it. Every raise in the handlers comes
      before the store is touched, so a request that raises leaves the store
      as it was, and the session carries on with the next request. */
  function Step(lists: Store, req: Request): (r: Store)
    ensures !Handled(lists, req) ==> r == lists
    ensures |r| <= |lists| + 1
  {
    if Handled(lists, req) then Handle(lists, req).lists else lists
  }

  /** The store after the whole sequence of requests. */
  function Replay(lists: Store, reqs: seq<Request>): (r: Store)
    ensures |r| <= |lists| + |reqs|
    decreases |reqs|
  {
    if reqs == [] then lists
    else Replay(Step(lists, reqs[0]), reqs[1..])
  }

  lemma HandlePreservesValid(lists: Store, req: Request)
    requires Handled(lists, req) && Valid(lists)
    ensures Valid(Handle(lists, req).lists)
  {
    match req
    case PostList(listName) => CreateListPreservesValid(lists, listName);
    case PostListUpdate(id, listName) => RenameListPreservesValid(lists, id, listName);
    case PostListDelete(id) => DeleteListPreservesValid(lists, id);
    case PostTodo(listId, todo) => AddTodoPreservesValid(lists, listId, todo);
  }

  lemma StepPreservesValid(lists: Store, req: Request)
    requires Valid(lists)
    ensures Valid(Step(lists, req))
  {
    if Handled(lists, req) {
      HandlePreservesValid(lists, req);
    }
  }

  lemma {:induction false} ReplayPreservesValid(lists: Store, reqs: seq<Request>)
    requires Valid(lists)
    ensures Valid(Replay(lists, reqs))
    decreases |reqs|
  {
    if reqs != [] {
      StepPreservesValid(lists, reqs[0]);
      ReplayPreservesValid(Step(lists, reqs[0]), reqs[1..]);
    }
  }

  /** Every store a session reaches from its empty start is valid, whichever
      of its requests raised. */
  lemma SessionStoreValid(reqs: seq<Request>)
    ensures Valid(Replay([], reqs))
  {
    EmptyStoreValid();
    ReplayPreservesValid([], reqs);
  }
}
