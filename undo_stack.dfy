/** The LIFO `Stack` of App.js: an array `items` used only at its end. */
module UndoLog {
  import opened Wrappers

  class Stack<T> {
    var items: seq<T>

    constructor ()
      ensures items == []
    {
      items := [];
    }

    /** `push`: append at the top. */
    method Push(item: T)
      modifies this
      ensures items == old(items) + [item]
    {
      items := items + [item];
    }

    /**
     * `pop`: None (JavaScript's `null`) on an empty stack, which stays as it
     * is; otherwise the most recently pushed item, removed from the top.
     */
    method Pop() returns (top: Option<T>)
      modifies this
      ensures old(items) == [] ==> top == None && items == old(items)
      ensures old(items) != [] ==>
        top == Some(old(items)[|old(items)| - 1]) && items == old(items)[..|old(items)| - 1]
    {
      if IsEmpty() {
        return None;
      }
      top := Some(items[|items| - 1]);
      items := items[..|items| - 1];
    }

    /** `isEmpty`: the stack holds no item. */
    predicate IsEmpty()
      reads this
      ensures IsEmpty() <==> items == []
    {
      |items| == 0
    }
  }

  /** A push followed by a pop hands back the pushed item and restores the stack. */
  method PushThenPop<T>(s: Stack<T>, x: T) returns (r: Option<T>)
    modifies s
    ensures r == Some(x) && s.items == old(s.items)
  {
    s.Push(x);
    r := s.Pop();
  }
}
