# Library catalog with undo — a Dafny model

This project models the core of a small library application (`App.js`):

- the book inventory, a doubly linked list of `Node`s holding `Book` objects, with
  `addBook`, `findBookByTitle`, `getAllBooks` and `search`;
- the undo `Stack` (`push`, `pop`, `isEmpty`);
- what the handlers `handleBorrow`, `handleReturn`, `handleUndo`, `handleAddBook`
  and `handleSearch` do to the inventory and the undo stack.

Modules, one per file:

- `Wrappers` (`wrappers.dfy`): the `Option` type.
- `Text` (`text.dfy`): `toLowerCase`, `String.prototype.includes` and `trim`.
  `Contains` is proved equivalent to "occurs at some offset", and "trims to empty"
  is proved equivalent to "every character is ECMAScript white space".
- `Catalog` (`catalog.dfy`): the `Book`, `Node` and `LinkedList` classes.
  - The list keeps a ghost sequence of its nodes. `Valid()` ties `head`, `tail`, every
    `next`/`prev` link and `size` to that sequence.
  - Each method is proved against a pure function of `Books()`:
    - `FindTitle`: the first case-insensitive title match;
    - `Filter`: the order-preserving selection of title-or-author matches.
  - Lemmas about those functions state what the source promises: first match, case
    insensitivity, exact membership, and preserved order.
- `UndoLog` (`undo_stack.dfy`): the generic `Stack`, whose `items` sequence is changed
  in place.
- `Circulation` (`circulation.dfy`): the handlers as pure transitions of a
  `State(catalog, log)`:
  - `Borrowed`, `Returned`, `Undone`, `Added`;
  - lemmas for the undo behaviour: undo reverts a borrow or a return; borrow, return,
    undo, undo restores the start state; undo unwinds any run of requests; and the
    log stays resolvable.
- `Library` (`library.dfy`): the `App` class that owns the inventory and the undo
  stack. Each handler method is proved to move the heap exactly as the matching
  `Circulation` transition moves `Current()`, the ghost image of the heap.

## Model

| member | source | states |
|---|---|---|
| Text.Lower | App.js:40 | lower-casing keeps the length and maps every character through the A–Z fold independently |
| Text.Contains | App.js:66-67 | `includes`: true when the query is a prefix of the text or of some suffix of it |
| Text.ContainsSound | App.js:66-67 | if `includes` answers true, the query occurs at some offset of the text |
| Text.ContainsComplete | App.js:66-67 | if the query occurs at some offset, `includes` answers true |
| Text.ContainsIff | App.js:66-67 | `includes` is true exactly when the query occurs at some offset |
| Text.ContainsEmpty | App.js:66-67 | every text includes the empty query |
| Text.Trim | App.js:211 | `trim()`: drops leading and then trailing ECMAScript white space and line terminators |
| Text.TrimStartEmptyIff | App.js:211 | trimming leading white space leaves nothing exactly when the string is all white space |
| Text.TrimEndEmptyIff | App.js:211 | trimming trailing white space leaves nothing exactly when the string is all white space |
| Text.TrimEmptyIff | App.js:211 | `trim() === ''` holds exactly when every character is white space |
| Text.TrimStartHead | App.js:211 | a non-empty left-trimmed string starts with a non-space character |
| Text.TrimEndKeepsHead | App.js:211 | right-trimming a string whose first character is not white space leaves it non-empty |
| Catalog.Book.constructor | App.js:196-200 | a new book carries the given title, author and availability |
| Catalog.Node.constructor | App.js:7-11 | a new node holds the book and has no neighbours |
| Catalog.FindTitle | App.js:37-46 | the result is the first position whose title equals the query ignoring case; None means no title does |
| Catalog.FindTitleCaseInsensitive | App.js:40 | two queries that lower-case alike find the same position |
| Catalog.FindTitleAppend | App.js:23-46 | after appending a title, a lookup finds the same earlier match, or else the new last position if it matches |
| Catalog.Filter | App.js:60-74 | the books whose lower-cased title or author contains the lower-cased query, kept in list order |
| Catalog.FilterAtPositions | App.js:60-74 | the search result is the list's books at the matching positions, in order |
| Catalog.MatchPositionsIncreasing | App.js:63-72 | matching positions are strictly increasing, so the result keeps list order without repeats |
| Catalog.MatchPositionsExact | App.js:65-69 | a position is in the result exactly when its title or author contains the lower-cased query |
| Catalog.FilterMembership | App.js:65-69 | a book is in the result exactly when it is in the list and matches |
| Catalog.FilterEmptyQuery | App.js:60-74 | an empty query returns every book in list order |
| Catalog.LinkedList.constructor | App.js:16-20 | a new list is valid and empty |
| Catalog.LinkedList.AddBook | App.js:23-34 | the book is appended at the tail, `size` grows by one, and the links stay valid |
| Catalog.LinkedList.FindBookByTitle | App.js:37-46 | the walk returns the book at the first case-insensitive title match, or null when there is none |
| Catalog.LinkedList.GetAllBooks | App.js:49-57 | the walk returns every book in list order |
| Catalog.LinkedList.Search | App.js:60-74 | the walk returns exactly `Filter` of the books for the lower-cased query |
| UndoLog.Stack.constructor | App.js:79-81 | a new stack is empty |
| UndoLog.Stack.Push | App.js:84-86 | the item is appended on top |
| UndoLog.Stack.Pop | App.js:89-94 | an empty stack answers None and stays empty; otherwise the top item is removed and returned |
| UndoLog.Stack.IsEmpty | App.js:97-99 | true exactly when there are no items |
| UndoLog.PushThenPop | App.js:84-94 | popping right after a push returns the pushed item and restores the stack |
| Circulation.Borrowed | App.js:126-141 | if `CanBorrow`, the flag at `Located` is cleared and `Action(Borrow, t)` is appended to the log; otherwise the state is unchanged |
| Circulation.Returned | App.js:144-159 | if `CanReturn`, the flag at `Located` is set and `Action(Return, t)` is appended to the log; otherwise the state is unchanged |
| Circulation.Undone | App.js:162-187 | an empty log is left alone; otherwise the last action is dropped and, if its title is still found, the inverse flag is written there without checking the current one |
| Circulation.Added | App.js:190-206 | an empty title or author leaves the state unchanged; otherwise an available record is appended and the log is untouched |
| Circulation.SampleBorrowThenUndo | App.js:114-122 | on the four sample books, "1984" is found second and available; borrowing it lends it out with one logged action, and one undo restores the sample with an empty log |
| Circulation.TitlesIgnoreAvailability | App.js:130 | changing a book's availability leaves every title, and so every lookup, unchanged |
| Circulation.BorrowedAt | App.js:128-134 | borrowing a found, available book clears its flag and logs a Borrow action |
| Circulation.BorrowRefused | App.js:138-140 | borrowing a missing or unavailable book is refused and changes nothing |
| Circulation.ReturnedAt | App.js:146-152 | returning a found, unavailable book sets its flag and logs a Return action |
| Circulation.ReturnRefused | App.js:156-158 | returning a missing or available book is refused and changes nothing |
| Circulation.UndoneAt | App.js:169-183 | undo pops the last action and writes the inverse flag (Borrow gives true, Return gives false) at the looked-up position |
| Circulation.UndoneLost | App.js:175-176 | when the logged title is no longer found, undo still consumes the action and changes no book |
| Circulation.BorrowThenUndo | App.js:162-187 | undo after a successful borrow restores the whole state, catalog and log |
| Circulation.ReturnThenUndo | App.js:162-187 | undo after a successful return restores the whole state |
| Circulation.BorrowReturnUndoUndo | App.js:162-187 | borrow, return, undo, undo: the first undo gives back the borrowed state and the second the start state (LIFO) |
| Circulation.BorrowTwice | App.js:129 | a second borrow of the same title is refused and changes nothing |
| Circulation.ReturnTwice | App.js:147 | a second return of the same title is refused and changes nothing |
| Circulation.CaseInsensitive | App.js:40 | titles that lower-case alike get the same borrow and return decisions and the same resulting catalogs (the logged titles keep the caller's case) |
| Circulation.AddedKeepsLookups | App.js:201 | adding a book never changes where an already-found title resolves |
| Circulation.BorrowKeepsLogResolvable | App.js:126-141 | borrowing keeps every logged title resolvable in the catalog |
| Circulation.ReturnKeepsLogResolvable | App.js:144-159 | returning keeps every logged title resolvable |
| Circulation.UndoKeepsLogResolvable | App.js:162-187 | undoing keeps every logged title resolvable, so the lost-book branch is unreachable from such states |
| Circulation.AddKeepsLogResolvable | App.js:190-206 | adding a book keeps every logged title resolvable |
| Circulation.ApplyThenUndo | App.js:162-187 | a borrow or return request either changes nothing or grows the log by one, and then undo reverts it |
| Circulation.UndoUnwindsRun | App.js:162-187 | after any sequence of borrow and return requests, one undo per logged action restores the start state |
| Library.App.constructor | App.js:105-106 | the app starts with an empty inventory and an empty undo stack |
| Library.App.WriteAvailability | App.js:130 | writing a book's flag in place updates the ghost catalog at that book's position only |
| Library.App.Lookup | App.js:128 | the inventory lookup returns the book at `Located(Current(), title)`, or null when there is none |
| Library.App.Commit | App.js:130-134 | a successful handler writes the flag and pushes its action onto the undo stack |
| Library.App.PopAction | App.js:169 | the newest action is removed from the undo stack and returned |
| Library.App.Borrow | App.js:126-141 | `handleBorrow` succeeds exactly when `CanBorrow`, and the new state is `Borrowed` of the old one |
| Library.App.Return | App.js:144-159 | `handleReturn` succeeds exactly when `CanReturn`, and the new state is `Returned` of the old one |
| Library.App.Undo | App.js:162-187 | `handleUndo` reports an empty stack, otherwise moves the state to `Undone` of the old one and reports whether the book was found |
| Library.App.Adopt | App.js:201 | the new book is linked at the end of the inventory and mirrored in the ghost catalog |
| Library.App.AddBook | App.js:190-206 | an empty title or author is refused; otherwise an available book is appended and the state is `Added` of the old one |
| Library.App.Search | App.js:209-218 | a blank query (after trim) is refused; otherwise the result is `Filter` of the inventory for the lower-cased, untrimmed query |

## Left out

- React state and rendering are not modelled: `useState` setters, `booksToDisplay`, messages, form fields, `preventDefault` and `handleResetSearch`. The handlers return a success flag or an outcome in place of the message text.
- Library.App.Undo, Library.App.Borrow, Library.App.Return, Library.App.Commit: the source copies the stack's items, plus the new action for a borrow or return, into a fresh `Stack` and hands it to `setUndoStack` (App.js:132-134, 150-152, 170-172). The model pushes and pops in place on one `Stack`, which ends with the same item sequence; it does not model the replaced object's identity.
- Library.App.Borrow, Library.App.Return: the handlers take the title string rather than the book object. A logged action keeps only its kind and title, because only `lastAction.book.title` is read back.
- Text.Lower: `toLowerCase` is modelled for ASCII `A`–`Z` only. Unicode case mapping is not modelled.
- The start-up effect (`useEffect`, App.js:114-122) is modelled only as the value `Circulation.SampleState`. `Library.App.constructor` builds an empty app, and no method replays the four `addBook` calls on the heap.
- Catalog.LinkedList.AddBook: `size` is an unbounded integer. JavaScript number precision is not modelled.
- Catalog.LinkedList.Search: the comparisons use the model's `Lower`, so they inherit its ASCII-only case folding.
- Library.App.AddBook: the source rejects only empty strings (`!newBookTitle`), not white-space-only ones. The model follows the code, not a "blank input" rule.
- Library.App.Borrow, Library.App.Return: the code does not distinguish "not found" from "wrong availability". Both give the same failure message, so the model returns one `false`.
- Duplicate titles are allowed. Borrow, return and undo act on the first case-insensitive match, as `findBookByTitle` does.
- Adding a book is not undoable, as in the source.
