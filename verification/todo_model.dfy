/**
 * The session's list store: an ordered sequence of lists, each a name and
 * an ordered sequence of todos. Lists have no ids; a request addresses a
 * list by its position in the sequence.
 */
module TodoModel {

  /** A todo item, the hash `{name:, completed:}`. */
  datatype Todo = Todo(name: string, completed: bool)

  /** A list, the hash `{name:, todos:}`. */
  datatype TodoList = TodoList(name: string, todos: seq<Todo>)

  /** The value kept under `session[:lists]`; a fresh session starts empty. */
  type Store = seq<TodoList>

  /** The range of a C `long` on a 64-bit platform. */
  const LongMin := -0x8000_0000_0000_0000
  const LongMax := 0x7FFF_FFFF_FFFF_FFFF

  /** `Array#[]` and `Array#delete_at` first convert an Integer index to a C
      `long`; an index outside that range raises `RangeError` before the
      array is looked at. */
  predicate LongIndex(id: int) {
    LongMin <= id <= LongMax
  }

  /** Once converted, `Array#[]` and `Array#delete_at` reach index `id` of an
      array of `n` elements when `-n <= id < n`; a negative index counts from
      the end. */
  predicate Addressable(n: nat, id: int) {
    -(n as int) <= id < n
  }

  /** The position an addressable index refers to. */
  function Slot(n: nat, id: int): (k: nat)
    requires Addressable(n, id)
    ensures k < n
    ensures 0 <= id ==> k == id
    ensures id < 0 ==> n - k == -id
  {
    if id < 0 then n + id else id
  }
}
