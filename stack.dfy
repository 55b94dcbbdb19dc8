/// The LIFO stack collaborator used by the iterative ordered store, for node
/// references and for booleans alike. A stack is a sequence whose last element
/// is the top; its storage and capacity are not modelled.
module Stack {

  /** The stack after pushing `x`. */
  function Push<T>(s: seq<T>, x: T): (r: seq<T>)
    ensures |r| == |s| + 1
    ensures Top(r) == x && Pop(r) == s
  {
    s + [x]
  }

  /** The element on top of a non-empty stack. */
  function Top<T>(s: seq<T>): T
    requires s != []
  {
    s[|s| - 1]
  }

  /** The stack without its top element. */
  function Pop<T>(s: seq<T>): (r: seq<T>)
    requires s != []
    ensures |r| == |s| - 1
    ensures forall i | 0 <= i < |r| :: r[i] == s[i]
  {
    s[..|s| - 1]
  }

  predicate IsEmpty<T>(s: seq<T>) {
    s == []
  }
}
