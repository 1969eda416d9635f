# Session todo-list store, modelled in Dafny

This project models the in-session list store of a small Sinatra todo
application. The store, `session[:lists]`, is an ordered array of lists.
Each list is a hash `{name:, todos:}` and each todo is a hash
`{name:, completed:}`. Lists have no ids: every request addresses a list by
its position in the array.

The model covers the two validators and the four request handlers that
change the store. Each handler is a pure function. It takes the store before
the request and returns the store after it, together with the validation
message the handler would flash (`None` when it accepted the request).

- `optional.dfy`: `Option`, standing in for Ruby's `nil`-or-value returns.
- `ruby_string.dfy`: `String#strip` over a fixed whitespace set (NUL, tab,
  line feed, vertical tab, form feed, carriage return, space). It includes a
  characterisation of the result, uniqueness and idempotence.
- `todo_model.dfy`: `Todo`, `TodoList`, `Store`, and Ruby's array indexing.
  An index is first converted to a C `long`, and an Integer outside the
  64-bit range raises `RangeError`. A converted index `id` reaches an element
  when `-n <= id < n`, and negative indices count from the end.
- `validation.dfy`: `error_for_list_name` and `error_for_todo`, with their
  exact messages and the 1..100 length bounds.
- `routes.dfy`: create, rename and delete a list, and add a todo.
- `store_invariant.dfy`: the store invariant and one preservation lemma per
  handler. The invariant says every list and todo name is stripped and
  1..100 characters long, and no two lists share a name. The file also holds
  the relational properties: blank input is refused, a repeated name is
  refused, rename-to-current-name is refused, delete removes exactly one
  list, and duplicate todos are accepted.
- `session.dfy`: a session as a sequence of the four requests, replayed from
  the empty store. Every store a session can reach is valid.

Behaviour of the handlers worth knowing:
- The handlers have no ids, toggling, complete-all, todo deletion,
  completion status or display ordering.
- Renaming a list to its own name is rejected, because the uniqueness test
  runs over every list, the renamed one included.
  `RenameToCurrentNameRejected` proves this.
- `delete_at` with a negative index removes counting from the end, so `-1`
  removes the last list. Only an index outside `-n..n-1` changes nothing.
  `DeleteList` models exactly that.
- Each indexed route raises `RangeError` when the index does not fit a
  `long`. Rename and add-todo raise before validating.
- Rename and add-todo also raise when they accept input for an index that
  reaches no list. `Session.Handled` covers these raises and the `long` ones,
  on the terms admitted under "## Left out".
- Every raise comes before the store is touched. A session therefore carries
  on after a failed request with the store unchanged.

## Model

| member | source | states |
|---|---|---|
| RubyString.StripLeading | todo.rb:70 | the result is a suffix of the input, everything cut off is whitespace, and it does not start with whitespace |
| RubyString.StripTrailing | todo.rb:70 | the result is a prefix of the input, everything cut off is whitespace, and it does not end with whitespace |
| RubyString.Strip | todo.rb:70 | the result is a slice of the input with only whitespace removed around it, and neither of its ends is whitespace |
| RubyString.StripUnique | todo.rb:70 | any whitespace-trimmed slice with non-whitespace ends equals the stripped input, so the postconditions of `Strip` determine it |
| RubyString.TrimmedSlicesEqual | todo.rb:70 | two whitespace-trimmed slices of one string with non-whitespace ends are equal |
| RubyString.StripStripped | todo.rb:85 | a name without surrounding whitespace, such as one already stored, is unchanged by strip |
| RubyString.StripIdempotent | todo.rb:115 | stripping twice gives the same result as stripping once |
| RubyString.StripEmptyIffBlank | todo.rb:70 | strip yields the empty string exactly when the input is whitespace only, in both directions |
| RubyString.IsStripSpace | todo.rb:70 | the characters `strip` removes: NUL, tab, line feed, vertical tab, form feed, carriage return and space |
| TodoModel.LongIndex | todo.rb:86-87 | the index fits the 64-bit `long` that `Array#[]` and `delete_at` convert it to; outside that range they raise `RangeError` |
| TodoModel.Addressable | todo.rb:104 | `delete_at` here, and `Array#[]` at lines 87 and 114, reach an element of an array of `n` lists exactly for `-n <= id < n` |
| TodoModel.Slot | todo.rb:87 | an index in `-n..n-1` names position `id` when non-negative and `n + id` when negative, and always lands inside the array |
| Validation.LengthOk | todo.rb:53 | the test `(1..100).cover?(name.size)`, shared with line 61: the size is between 1 and 100 inclusive |
| Validation.AnyListNamed | todo.rb:55 | the `any?` walk over the lists answers true exactly when some list has exactly that name (case-sensitive) |
| Validation.ListNameError | todo.rb:52-58 | the length message exactly when the size is outside 1..100 (even for a duplicate name), the uniqueness message exactly when the length is valid and some list has that name, nil exactly otherwise |
| Validation.TodoError | todo.rb:60-64 | nil exactly when the size is within 1..100, otherwise the todo length message; there is no uniqueness test |
| Routes.CreateList | todo.rb:68-81 | accepted exactly when the stripped name is 1..100 long and no list has it; then one list with that name and no todos is appended and earlier lists are untouched; otherwise the store is unchanged and the validator's message is reported |
| Routes.RenameList | todo.rb:84-99 | accepted exactly when the stripped name is valid and no list has it (the renamed one included); then only that list's name changes, its todos and every other list stay; otherwise the store is unchanged; an unreachable index is allowed only when validation fails |
| Routes.DeleteList | todo.rb:102-104 | a reachable index removes exactly that list and shifts the later ones down one place in order; any other index leaves the store unchanged |
| Routes.AddTodo | todo.rb:112-126 | accepted exactly when the stripped text is 1..100 long; then the target list gains `{name: text, completed: false}` at the end, keeping its name and existing todos and every other list; otherwise the store is unchanged with the todo length message |
| StoreInvariant.EmptyStoreValid | todo.rb:11-13 | the empty store a fresh session starts with satisfies the invariant |
| StoreInvariant.CreateListPreservesValid | todo.rb:70-77 | creating a list preserves the invariant (stripped 1..100 names, list names pairwise distinct) |
| StoreInvariant.AppendedStoreValid | todo.rb:77 | appending a well-formed list whose name no list carries keeps the store valid |
| StoreInvariant.RenameListPreservesValid | todo.rb:85-95 | renaming a list preserves the invariant |
| StoreInvariant.ReplacedStoreValid | todo.rb:95 | overwriting the list at one position with a well-formed list whose name no other list carries keeps the store valid |
| StoreInvariant.DeleteListPreservesValid | todo.rb:103-104 | deleting a list preserves the invariant |
| StoreInvariant.AddTodoPreservesValid | todo.rb:113-122 | adding a todo preserves the invariant |
| StoreInvariant.AppendedListWellFormed | todo.rb:122 | appending a well-formed todo to a well-formed list keeps every todo name well-formed |
| StoreInvariant.BlankListNameRejected | todo.rb:70-75 | a whitespace-only list name is refused with the length message and the store is unchanged |
| StoreInvariant.BlankTodoRejected | todo.rb:115-120 | a whitespace-only todo is refused with the todo length message and the store is unchanged |
| StoreInvariant.CreateSameNameTwiceRejected | todo.rb:70-77 | after a list is created, submitting the same name again is refused as not unique and changes nothing |
| StoreInvariant.RenameToTakenNameRejected | todo.rb:85-93 | renaming any list to a stripped, well-sized name that some list carries is refused as not unique and changes nothing |
| StoreInvariant.RenameToCurrentNameRejected | todo.rb:89-93 | in a valid store, renaming a list to the name it already has is refused as not unique |
| StoreInvariant.DeleteListRemovesOne | todo.rb:104 | re-inserting the deleted list at its position restores the store, and the multiset of lists loses exactly that one list |
| StoreInvariant.DuplicateTodosAccepted | todo.rb:117-122 | the same valid text can be added to a list twice, and both equal todos are kept |
| Session.Handled | todo.rb:84-126 | a request runs without raising unless its index does not fit a `long` (rename, delete, add todo), or rename or add-todo accepts its input for an index that reaches no list (nil `@list` at lines 95 and 122) |
| Session.OversizedIndexRaises | todo.rb:102-104 | for an index outside the `long` range, none of the rename, delete and add-todo requests is handled |
| Session.Step | todo.rb:84-126 | a request that raises leaves the store unchanged, and no request adds more than one list |
| Session.Handle | todo.rb:68-126 | a request that reports an error leaves the store unchanged; any request grows the store by at most one list; delete never reports an error and never grows it |
| Session.Replay | todo.rb:11-13 | after any sequence of requests, including ones that raise, the store holds at most as many lists as it started with plus the number of requests |
| Session.HandlePreservesValid | todo.rb:68-126 | whichever of the four routes handles a request, the store stays valid |
| Session.StepPreservesValid | todo.rb:84-126 | one request, whether handled or raising, keeps a valid store valid |
| Session.ReplayPreservesValid | todo.rb:68-126 | replaying any sequence of requests from a valid store ends in a valid store, whichever of them raised |
| Session.SessionStoreValid | todo.rb:11-13 | every store a session reaches from the empty store of its `before` filter is valid, for every request sequence, with raising requests leaving the store as it was |

## Left out

- Sinatra plumbing is not modelled: `configure`, the GET handlers, `erb` rendering, `redirect`, and the `session[:success]` flash. The error message is carried as the handler's result instead of being written to `session[:error]`.
- Session.Handled: form fields are always strings in the model. A missing or non-string `list_name` or `todo` field makes `.strip` raise `NoMethodError` at lines 70, 85 and 115, so create can raise too, which the model does not represent. On the error path, rename and add-todo render their form with `@list` possibly `nil` (lines 91-93 and 119-120). The templates are not part of this model, and that rendering is assumed not to raise.
- The session mechanism is not modelled. The store is passed in and returned explicitly.
- `params[...].to_i` is not modelled. Indices arrive as integers, so the parsing of non-numeric path segments to 0 is outside the model.
- Routes.RenameList and Routes.AddTodo: when validation passes and the index reaches no list, the handler dereferences `nil` and raises. This crash is a precondition rather than a result.
- Routes.RenameList, Routes.DeleteList and Routes.AddTodo: an index outside the 64-bit `long` range raises `RangeError`. This is a precondition (`LongIndex`) rather than a result. A platform whose `long` is 32 bits is not modelled.
- Ruby `strip` is modelled on characters, with one whitespace set used at both ends. Encoding, and what `String#size` counts for multi-byte input, are not modelled.
- Ids, todo toggling, complete-all, todo deletion, list-completion status and incomplete-first display ordering are not modelled, because the handlers in todo.rb do not implement them.
