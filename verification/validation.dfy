/**
 * The two validators of the store: `error_for_list_name` and
 * `error_for_todo`. Each answers nil for a valid name and an error message
 * otherwise.
 */
module Validation {
  import opened Optional
  import opened TodoModel

  const MinNameLength := 1
  const MaxNameLength := 100

  const ListNameLengthMessage := "List name must be between 1 and 100 characters."
  const ListNameUniqueMessage := "List name must be unique."
  const TodoLengthMessage := "Todo must be between 1 and 100 characters."

  /** The range test `(1..100).cover?(name.size)`. */
  predicate LengthOk(name: string) {
    MinNameLength <= |name| <= MaxNameLength
  }

  /** Some list of the store carries exactly this name (case matters). */
  ghost predicate NameTaken(lists: Store, name: string) {
    exists i :: 0 <= i < |lists| && lists[i].name == name
  }

  /** The block `lists.any? { |list| list[:name] == name }`, walking the
      store from the front. */
  function AnyListNamed(lists: Store, name: string): (b: bool)
    ensures b <==> NameTaken(lists, name)
  {
    if lists == [] then false
    else if lists[0].name == name then true
    else
      var rest := AnyListNamed(lists[1..], name);
      assert NameTaken(lists[1..], name) ==> NameTaken(lists, name) by {
        if NameTaken(lists[1..], name) {
          var i :| 0 <= i < |lists[1..]| && lists[1..][i].name == name;
          assert lists[i + 1].name == name;
        }
      }
      rest
  }

  /** `error_for_list_name`: the length test comes first, so a name that is
      both too long and already taken gets the length message; only a name of
      valid length is checked for uniqueness against every list. */
  function ListNameError(lists: Store, name: string): (r: Option<string>)
    ensures r == Some(ListNameLengthMessage) <==> !LengthOk(name)
    ensures r == Some(ListNameUniqueMessage) <==> LengthOk(name) && NameTaken(lists, name)
    ensures r == None <==> LengthOk(name) && forall i :: 0 <= i < |lists| ==> lists[i].name != name
  {
    if !LengthOk(name) then Some(ListNameLengthMessage)
    else if AnyListNamed(lists, name) then Some(ListNameUniqueMessage)
    else None
  }

  /** `error_for_todo`: only the length is checked, so duplicate todo names
      are accepted. */
  function TodoError(name: string): (r: Option<string>)
    ensures r == None <==> LengthOk(name)
    ensures r != None ==> r == Some(TodoLengthMessage)
  {
    if !LengthOk(name) then Some(TodoLengthMessage) else None
  }
}
