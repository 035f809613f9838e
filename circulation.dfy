/**
 * The borrow / return / undo / add logic of the `App` handlers, as
 * transitions over a value: the inventory's records in list order and the
 * undo stack's actions, oldest first.
 */
module Circulation {
  import opened Wrappers
  import opened Text
  import opened Catalog

  /** The observable content of one book record. */
  datatype Record = Record(title: string, author: string, isAvailable: bool)

  datatype ActionKind = Borrow | Return

  /** An undo-stack entry; of the stored book only its title is ever read back. */
  datatype Action = Action(kind: ActionKind, title: string)

  datatype State = State(catalog: seq<Record>, log: seq<Action>)

  /** The record-level twin of `Catalog.TitlesOf`: the titles of `c`, in order. */
  function Titles(c: seq<Record>): (ts: seq<string>)
    ensures |ts| == |c| && forall i :: 0 <= i < |c| ==> ts[i] == c[i].title
  {
    seq(|c|, i requires 0 <= i < |c| => c[i].title)
  }

  /** Where `findBookByTitle(t)` lands in this state. */
  function Located(s: State, t: string): Option<nat>
  {
    FindTitle(Titles(s.catalog), t)
  }

  function SetAvailability(c: seq<Record>, i: nat, available: bool): seq<Record>
    requires i < |c|
  {
    c[i := c[i].(isAvailable := available)]
  }

  /** The availability that undoing an action of this kind writes back. */
  function UndoneAvailability(k: ActionKind): bool
  {
    match k
    case Borrow => true
    case Return => false
  }

  /** `handleBorrow` takes its success branch: the title is found and that book is available. */
  predicate CanBorrow(s: State, t: string)
  {
    match Located(s, t)
    case Some(i) => s.catalog[i].isAvailable
    case None => false
  }

  /** `handleReturn` takes its success branch: the title is found and that book is lent out. */
  predicate CanReturn(s: State, t: string)
  {
    match Located(s, t)
    case Some(i) => !s.catalog[i].isAvailable
    case None => false
  }

  function Borrowed(s: State, t: string): State
  {
    if CanBorrow(s, t)
    then State(SetAvailability(s.catalog, Located(s, t).value, false), s.log + [Action(Borrow, t)])
    else s
  }

  function Returned(s: State, t: string): State
  {
    if CanReturn(s, t)
    then State(SetAvailability(s.catalog, Located(s, t).value, true), s.log + [Action(Return, t)])
    else s
  }

  /**
   * `handleUndo`: pop the newest action; when its title is still found, write
   * the inverse availability without looking at the current one.
   */
  function Undone(s: State): State
  {
    if s.log == [] then s
    else
      var a := s.log[|s.log| - 1];
      var rest := s.log[..|s.log| - 1];
      match Located(s, a.title)
      case Some(i) => State(SetAvailability(s.catalog, i, UndoneAvailability(a.kind)), rest)
      case None => State(s.catalog, rest)
  }

  /** `handleAddBook`: both fields must be non-empty; the new record is available and not logged. */
  function Added(s: State, title: string, author: string): State
  {
    if title == [] || author == [] then s
    else State(s.catalog + [Record(title, author, true)], s.log)
  }

  /** The four records the start-up effect adds, in order; nothing logged yet. */
  function SampleState(): State
  {
    State([Record("To Kill a Mockingbird", "Harper Lee", true),
           Record("1984", "George Orwell", true),
           Record("The Great Gatsby", "F. Scott Fitzgerald", false),
           Record("Moby Dick", "Herman Melville", true)], [])
  }

  /**
   * On the sample inventory, "1984" is the second book and available; borrowing
   * it lends it out with one logged action, and one undo restores the sample
   * with an empty log, so a further undo has nothing to undo.
   */
  lemma SampleBorrowThenUndo()
    ensures Located(SampleState(), "1984") == Some(1)
    ensures CanBorrow(SampleState(), "1984")
    ensures !Borrowed(SampleState(), "1984").catalog[1].isAvailable
    ensures |Borrowed(SampleState(), "1984").log| == 1
    ensures Undone(Borrowed(SampleState(), "1984")) == SampleState()
    ensures Undone(Borrowed(SampleState(), "1984")).log == []
  {
    assert |Lower("To Kill a Mockingbird")| != |Lower("1984")|;
    assert Lower("1984") == "1984";
    BorrowThenUndo(SampleState(), "1984");
  }

  lemma TitlesIgnoreAvailability(c: seq<Record>, i: nat, available: bool)
    requires i < |c|
    ensures Titles(SetAvailability(c, i, available)) == Titles(c)
  {
    assert forall j :: 0 <= j < |c| ==> SetAvailability(c, i, available)[j].title == c[j].title;
  }

  /** A successful borrow: the located record is marked lent and the action logged. */
  lemma BorrowedAt(s: State, t: string, i: nat)
    requires Located(s, t) == Some(i) && i < |s.catalog| && s.catalog[i].isAvailable
    ensures CanBorrow(s, t)
    ensures Borrowed(s, t) == State(SetAvailability(s.catalog, i, false), s.log + [Action(Borrow, t)])
  {
  }

  /** A refused borrow: the title is not found, or the record found is lent out; nothing changes. */
  lemma BorrowRefused(s: State, t: string)
    requires Located(s, t).Some? ==> !s.catalog[Located(s, t).value].isAvailable
    ensures !CanBorrow(s, t) && Borrowed(s, t) == s
  {
  }

  /** A successful return: the located record is marked available and the action logged. */
  lemma ReturnedAt(s: State, t: string, i: nat)
    requires Located(s, t) == Some(i) && i < |s.catalog| && !s.catalog[i].isAvailable
    ensures CanReturn(s, t)
    ensures Returned(s, t) == State(SetAvailability(s.catalog, i, true), s.log + [Action(Return, t)])
  {
  }

  /** A refused return: the title is not found, or the record found is available; nothing changes. */
  lemma ReturnRefused(s: State, t: string)
    requires Located(s, t).Some? ==> s.catalog[Located(s, t).value].isAvailable
    ensures !CanReturn(s, t) && Returned(s, t) == s
  {
  }

  /** An undo whose title is found at `i` writes the inverse flag there and pops the action. */
  lemma UndoneAt(s: State, i: nat)
    requires s.log != [] && Located(s, s.log[|s.log| - 1].title) == Some(i)
    ensures i < |s.catalog|
    ensures Undone(s) == State(SetAvailability(s.catalog, i, UndoneAvailability(s.log[|s.log| - 1].kind)),
                               s.log[..|s.log| - 1])
  {
  }

  /** An undo whose title is no longer found only pops the action. */
  lemma UndoneLost(s: State)
    requires s.log != [] && Located(s, s.log[|s.log| - 1].title).None?
    ensures Undone(s) == State(s.catalog, s.log[..|s.log| - 1])
  {
  }

  /** Undo right after a successful borrow restores the flag and the stack depth. */
  lemma BorrowThenUndo(s: State, t: string)
    requires CanBorrow(s, t)
    ensures Undone(Borrowed(s, t)) == s
  {
    var i := Located(s, t).value;
    var s1 := Borrowed(s, t);
    TitlesIgnoreAvailability(s.catalog, i, false);
    assert Located(s1, t) == Some(i);
    assert s1.log[..|s1.log| - 1] == s.log;
  }

  /** Undo right after a successful return restores the flag and the stack depth. */
  lemma ReturnThenUndo(s: State, t: string)
    requires CanReturn(s, t)
    ensures Undone(Returned(s, t)) == s
  {
    var i := Located(s, t).value;
    var s1 := Returned(s, t);
    TitlesIgnoreAvailability(s.catalog, i, true);
    assert Located(s1, t) == Some(i);
    assert s1.log[..|s1.log| - 1] == s.log;
  }

  /**
   * Borrow then return of one title both succeed, and two undos unwind them
   * newest first: the first undo re-lends the book, the second makes it
   * available again and empties what was logged.
   */
  lemma BorrowReturnUndoUndo(s: State, t: string)
    requires CanBorrow(s, t)
    ensures CanReturn(Borrowed(s, t), t)
    ensures Undone(Returned(Borrowed(s, t), t)) == Borrowed(s, t)
    ensures Undone(Undone(Returned(Borrowed(s, t), t))) == s
  {
    TitlesIgnoreAvailability(s.catalog, Located(s, t).value, false);
    ReturnThenUndo(Borrowed(s, t), t);
    BorrowThenUndo(s, t);
  }

  /** A second borrow of the same title is refused and changes nothing. */
  lemma BorrowTwice(s: State, t: string)
    requires CanBorrow(s, t)
    ensures !CanBorrow(Borrowed(s, t), t) && Borrowed(Borrowed(s, t), t) == Borrowed(s, t)
  {
    TitlesIgnoreAvailability(s.catalog, Located(s, t).value, false);
  }

  /** A second return of the same title is refused and changes nothing. */
  lemma ReturnTwice(s: State, t: string)
    requires CanReturn(s, t)
    ensures !CanReturn(Returned(s, t), t) && Returned(Returned(s, t), t) == Returned(s, t)
  {
    TitlesIgnoreAvailability(s.catalog, Located(s, t).value, true);
  }

  /** Titles differing only in case borrow and return the same book with the same outcome. */
  lemma CaseInsensitive(s: State, t1: string, t2: string)
    requires Lower(t1) == Lower(t2)
    ensures CanBorrow(s, t1) == CanBorrow(s, t2)
    ensures Borrowed(s, t1).catalog == Borrowed(s, t2).catalog
    ensures CanReturn(s, t1) == CanReturn(s, t2)
    ensures Returned(s, t1).catalog == Returned(s, t2).catalog
  {
    FindTitleCaseInsensitive(Titles(s.catalog), t1, t2);
  }

  /** Every logged title still finds a book: the lookup in `handleUndo` cannot miss. */
  predicate LogResolvable(s: State)
  {
    forall k :: 0 <= k < |s.log| ==> Located(s, s.log[k].title).Some?
  }

  lemma {:induction false} AddedKeepsLookups(s: State, title: string, author: string, t: string)
    requires Located(s, t).Some?
    ensures Located(Added(s, title, author), t) == Located(s, t)
  {
    if title != [] && author != [] {
      assert Titles(Added(s, title, author).catalog) == Titles(s.catalog) + [title];
      FindTitleAppend(Titles(s.catalog), title, t);
    }
  }

  /** A borrow keeps the logged titles resolvable. */
  lemma BorrowKeepsLogResolvable(s: State, t: string)
    requires LogResolvable(s)
    ensures LogResolvable(Borrowed(s, t))
  {
    if CanBorrow(s, t) {
      TitlesIgnoreAvailability(s.catalog, Located(s, t).value, false);
    }
  }

  /** A return keeps the logged titles resolvable. */
  lemma ReturnKeepsLogResolvable(s: State, t: string)
    requires LogResolvable(s)
    ensures LogResolvable(Returned(s, t))
  {
    if CanReturn(s, t) {
      TitlesIgnoreAvailability(s.catalog, Located(s, t).value, true);
    }
  }

  /** An undo keeps the remaining logged titles resolvable. */
  lemma UndoKeepsLogResolvable(s: State)
    requires LogResolvable(s)
    ensures LogResolvable(Undone(s))
  {
    if s.log != [] {
      var a := s.log[|s.log| - 1];
      assert Located(s, a.title).Some?;
      TitlesIgnoreAvailability(s.catalog, Located(s, a.title).value, UndoneAvailability(a.kind));
      assert Titles(Undone(s).catalog) == Titles(s.catalog);
    }
  }

  /** Adding a book keeps the logged titles resolvable. */
  lemma AddKeepsLogResolvable(s: State, title: string, author: string)
    requires LogResolvable(s)
    ensures LogResolvable(Added(s, title, author))
  {
    forall k | 0 <= k < |s.log|
      ensures Located(Added(s, title, author), s.log[k].title) == Located(s, s.log[k].title)
    {
      AddedKeepsLookups(s, title, author, s.log[k].title);
    }
  }

  /** A request the user can issue from the book list. */
  datatype Request = BorrowRequest(title: string) | ReturnRequest(title: string)

  function Apply(s: State, r: Request): State
  {
    match r
    case BorrowRequest(t) => Borrowed(s, t)
    case ReturnRequest(t) => Returned(s, t)
  }

  /** The state after the requests, in order. */
  function Run(s: State, rs: seq<Request>): State
    decreases rs
  {
    if rs == [] then s else Run(Apply(s, rs[0]), rs[1..])
  }

  /** `f` applied `n` times, starting from `s`. */
  function Iterate(f: State -> State, s: State, n: nat): State
    decreases n
  {
    if n == 0 then s else f(Iterate(f, s, n - 1))
  }

  /** `n` undos in a row. */
  function UndoTimes(s: State, n: nat): State
  {
    Iterate(Undone, s, n)
  }

  /** A request either changes nothing or logs one action that one undo reverses. */
  lemma ApplyThenUndo(s: State, r: Request)
    ensures Apply(s, r) == s || (|Apply(s, r).log| == |s.log| + 1 && Undone(Apply(s, r)) == s)
  {
    match r
    case BorrowRequest(t) => if CanBorrow(s, t) { BorrowThenUndo(s, t); }
    case ReturnRequest(t) => if CanReturn(s, t) { ReturnThenUndo(s, t); }
  }

  /**
   * One unwinding step, for any step function `f`: if unwinding everything
   * logged after `next` gives `next`, and one step of `f` takes `next`, whose
   * log is one longer, back to `s`, then unwinding everything logged after
   * `s` gives `s`.
   */
  lemma UnwindStep(f: State -> State, s: State, next: State, final: State)
    requires |next.log| == |s.log| + 1 && f(next) == s
    requires |final.log| >= |next.log| && Iterate(f, final, |final.log| - |next.log|) == next
    ensures |final.log| >= |s.log| && Iterate(f, final, |final.log| - |s.log|) == s
  {
  }

  /**
   * Strict LIFO: after any run of borrow and return requests, undoing once per
   * logged action brings back the state the run started from.
   */
  lemma {:induction false} UndoUnwindsRun(s: State, rs: seq<Request>)
    ensures |Run(s, rs).log| >= |s.log|
    ensures UndoTimes(Run(s, rs), |Run(s, rs).log| - |s.log|) == s
    decreases rs
  {
    if rs != [] {
      var next := Apply(s, rs[0]);
      assert Run(s, rs) == Run(next, rs[1..]);
      UndoUnwindsRun(next, rs[1..]);
      ApplyThenUndo(s, rs[0]);
      if next != s {
        UnwindStep(Undone, s, next, Run(next, rs[1..]));
      }
    }
  }
}
