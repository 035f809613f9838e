/**
 * The non-UI logic of the `App` component: the inventory list and the undo
 * stack it holds, and the handlers that change them.
 */
module Library {
  import opened Wrappers
  import opened Text
  import opened Catalog
  import opened UndoLog
  import opened Circulation

  /** What `handleUndo` reports. */
  datatype UndoOutcome =
    | NothingToUndo           // the stack was empty
    | Reverted(action: Action) // the action was popped and its book's flag written back
    | Discarded(action: Action) // the action was popped but its title no longer finds a book

  class App {
    const inventory: LinkedList
    const undoStack: Stack<Action>
    /** The inventory's books, head to tail, and their records. */
    ghost var books: seq<Book>
    ghost var catalog: seq<Record>
    ghost var Repr: set<object>

    ghost predicate Valid()
      reads this, Repr
    {
      this in Repr && inventory in Repr && undoStack !in Repr
      && inventory.Repr <= Repr
      && inventory.Valid()
      && books == inventory.Books()
      && (forall i :: 0 <= i < |books| ==> books[i] in Repr)
      && (forall i, j :: 0 <= i < j < |books| ==> books[i] != books[j])
      && |catalog| == |books|
      && (forall i :: 0 <= i < |books| ==>
            catalog[i] == Record(books[i].title, books[i].author, books[i].isAvailable))
    }

    /** The records and the undo stack's actions. */
    ghost function Current(): State
      reads this, undoStack
    {
      State(catalog, undoStack.items)
    }

    constructor ()
      ensures Valid() && fresh(Repr) && fresh(undoStack) && Current() == State([], [])
    {
      inventory := new LinkedList();
      undoStack := new Stack();
      books := [];
      catalog := [];
      new;
      Repr := {this} + inventory.Repr;
    }

    /**
     * The in-place write `book.isAvailable = available` on the book at
     * position `i`; the ghost record at that position follows it.
     */
    method WriteAvailability(book: Book, ghost i: nat, available: bool)
      requires Valid() && i < |books| && books[i] == book
      modifies book, this`catalog
      ensures Valid()
      ensures catalog == SetAvailability(old(catalog), i, available)
    {
      book.isAvailable := available;
      catalog := SetAvailability(catalog, i, available);
    }

    /**
     * `inventory.findBookByTitle(title)`, with the position it lands on in
     * the records: null exactly when no title matches, else the book whose
     * record is at that position.
     */
    method Lookup(title: string) returns (book: Book?, ghost found: Option<nat>)
      requires Valid()
      ensures found == Located(Current(), title)
      ensures found.None? ==> book == null
      ensures found.Some? ==>
        found.value < |books| && book == books[found.value]
        && book.isAvailable == catalog[found.value].isAvailable
    {
      found := Located(Current(), title);
      assert found == FindTitle(TitlesOf(books), title) by {
        assert Titles(catalog) == TitlesOf(books);
      }
      book := inventory.FindBookByTitle(title);
    }

    /** `handleBorrow`: lend the first book with this title if it is available, and log it. */
    method Borrow(title: string) returns (ok: bool)
      requires Valid()
      modifies Repr, undoStack
      ensures Valid() && Repr == old(Repr)
      ensures books == old(books)
      ensures ok == CanBorrow(old(Current()), title)
      ensures Current() == Borrowed(old(Current()), title)
    {
      ghost var before := Current();
      var book;
      ghost var found;
      book, found := Lookup(title);
      if book != null && book.isAvailable {
        ghost var i := found.value;
        BorrowedAt(before, title, i);
        Commit(book, i, false, Action(ActionKind.Borrow, title));
        ok := true;
      } else {
        BorrowRefused(before, title);
        ok := false;
      }
    }

    /** `handleReturn`: take back the first book with this title if it is lent out, and log it. */
    method Return(title: string) returns (ok: bool)
      requires Valid()
      modifies Repr, undoStack
      ensures Valid() && Repr == old(Repr)
      ensures books == old(books)
      ensures ok == CanReturn(old(Current()), title)
      ensures Current() == Returned(old(Current()), title)
    {
      ghost var before := Current();
      var book;
      ghost var found;
      book, found := Lookup(title);
      if book != null && !book.isAvailable {
        ghost var i := found.value;
        ReturnedAt(before, title, i);
        Commit(book, i, true, Action(ActionKind.Return, title));
        ok := true;
      } else {
        ReturnRefused(before, title);
        ok := false;
      }
    }

    /**
     * A successful borrow or return: the write `book.isAvailable = available`
     * at position `i`, then `undoStack.push(action)`.
     */
    method Commit(book: Book, ghost i: nat, available: bool, action: Action)
      requires Valid() && i < |books| && books[i] == book
      modifies book, this`catalog, undoStack
      ensures Valid()
      ensures catalog == SetAvailability(old(catalog), i, available)
      ensures undoStack.items == old(undoStack.items) + [action]
    {
      WriteAvailability(book, i, available);
      undoStack.Push(action);
    }

    /** `undoStack.pop()` on a non-empty stack; nothing else changes. */
    method PopAction() returns (action: Action)
      requires Valid() && undoStack.items != []
      modifies undoStack
      ensures Valid()
      ensures action == old(undoStack.items)[|old(undoStack.items)| - 1]
      ensures undoStack.items == old(undoStack.items)[..|old(undoStack.items)| - 1]
    {
      var top := undoStack.Pop();
      action := top.value;
    }

    /** `handleUndo`: pop the newest action and write back the inverse flag if its title is found. */
    method Undo() returns (outcome: UndoOutcome)
      requires Valid()
      modifies Repr, undoStack
      ensures Valid() && Repr == old(Repr)
      ensures books == old(books)
      ensures Current() == Undone(old(Current()))
      ensures old(undoStack.items) == [] ==> outcome == NothingToUndo
      ensures old(undoStack.items) != [] ==>
        var a := old(undoStack.items)[|old(undoStack.items)| - 1];
        outcome == if Located(old(Current()), a.title).Some? then Reverted(a) else Discarded(a)
    {
      if undoStack.IsEmpty() {
        return NothingToUndo;
      }
      ghost var before := Current();
      var action := PopAction();
      var book;
      ghost var found;
      book, found := Lookup(action.title);
      if book != null {
        ghost var i := found.value;
        UndoneAt(before, i);
        WriteAvailability(book, i, UndoneAvailability(action.kind));
        outcome := Reverted(action);
      } else {
        UndoneLost(before);
        outcome := Discarded(action);
      }
    }

    /** `inventory.addBook(newBook)` on a book the app does not hold yet; the ghost records follow. */
    method Adopt(newBook: Book)
      requires Valid() && newBook !in Repr
      modifies Repr
      ensures Valid() && fresh(Repr - old(Repr) - {newBook})
      ensures books == old(books) + [newBook]
      ensures catalog == old(catalog) + [Record(newBook.title, newBook.author, newBook.isAvailable)]
    {
      assert forall i :: 0 <= i < |books| ==> books[i] !in inventory.Repr;
      inventory.AddBook(newBook);
      books := books + [newBook];
      catalog := catalog + [Record(newBook.title, newBook.author, newBook.isAvailable)];
      Repr := Repr + inventory.Repr + {newBook};
    }

    /** `handleAddBook`: refuse an empty title or author, else append an available book. */
    method AddBook(title: string, author: string) returns (ok: bool)
      requires Valid()
      modifies Repr
      ensures Valid() && fresh(Repr - old(Repr))
      ensures ok == (title != [] && author != [])
      ensures Current() == Added(old(Current()), title, author)
      ensures books == if ok then old(books) + [books[|books| - 1]] else old(books)
      ensures ok ==> fresh(books[|books| - 1])
    {
      if title == [] || author == [] {
        return false;
      }
      var newBook := new Book(title, author, true);
      Adopt(newBook);
      ok := true;
    }

    /** `handleSearch`: refuse a blank query, else search with the query as typed. */
    method Search(query: string) returns (results: Option<seq<Book>>)
      requires Valid()
      ensures IsBlank(query) ==> results == None
      ensures !IsBlank(query) ==> results == Some(Filter(books, Lower(query)))
    {
      TrimEmptyIff(query);
      if Trim(query) == [] {
        return None;
      }
      var found := inventory.Search(query);
      return Some(found);
    }
  }
}
