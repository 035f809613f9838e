/**
 * The book inventory of App.js: book records and the doubly linked list
 * (`Node`, `LinkedList`) that holds them in insertion order.
 */
module Catalog {
  import opened Wrappers
  import opened Text

  /**
   * A book record `{title, author, isAvailable}`. Title and author are never
   * reassigned; the availability flag is written in place through any
   * reference to the record.
   */
  class Book {
    const title: string
    const author: string
    var isAvailable: bool

    constructor (title: string, author: string, isAvailable: bool)
      ensures this.title == title && this.author == author && this.isAvailable == isAvailable
    {
      this.title := title;
      this.author := author;
      this.isAvailable := isAvailable;
    }
  }

  /** A list cell; `book` is set once by the constructor. */
  class Node {
    const book: Book
    var next: Node?
    var prev: Node?

    constructor (book: Book)
      ensures this.book == book && next == null && prev == null
    {
      this.book := book;
      next := null;
      prev := null;
    }
  }

  /** Case-insensitive title equality, as `findBookByTitle` compares. */
  predicate SameTitle(x: string, t: string)
  {
    Lower(x) == Lower(t)
  }

  function TitlesOf(bs: seq<Book>): (ts: seq<string>)
    ensures |ts| == |bs| && forall i :: 0 <= i < |bs| ==> ts[i] == bs[i].title
  {
    seq(|bs|, i requires 0 <= i < |bs| => bs[i].title)
  }

  /**
   * The position of the first title, in order, that equals `t` ignoring case;
   * None when no title does.
   */
  function FindTitle(titles: seq<string>, t: string): (r: Option<nat>)
    ensures r.Some? ==> r.value < |titles| && SameTitle(titles[r.value], t)
    ensures r.Some? ==> forall j :: 0 <= j < r.value ==> !SameTitle(titles[j], t)
    ensures r.None? ==> forall j :: 0 <= j < |titles| ==> !SameTitle(titles[j], t)
  {
    if titles == [] then None
    else if SameTitle(titles[0], t) then Some(0)
    else match FindTitle(titles[1..], t)
      case None => None
      case Some(i) => Some(i + 1)
  }

  /** Lookup only depends on the lower-cased query. */
  lemma {:induction false} FindTitleCaseInsensitive(titles: seq<string>, t1: string, t2: string)
    requires Lower(t1) == Lower(t2)
    ensures FindTitle(titles, t1) == FindTitle(titles, t2)
  {
    if titles != [] && !SameTitle(titles[0], t1) {
      FindTitleCaseInsensitive(titles[1..], t1, t2);
    }
  }

  /** Appending a title never changes an existing first match. */
  lemma {:induction false} FindTitleAppend(titles: seq<string>, x: string, t: string)
    ensures FindTitle(titles + [x], t) ==
            if FindTitle(titles, t).Some? then FindTitle(titles, t)
            else if SameTitle(x, t) then Some(|titles|) else None
  {
    if titles != [] {
      assert (titles + [x])[1..] == titles[1..] + [x];
      FindTitleAppend(titles[1..], x, t);
    }
  }

  /** What `search` keeps: the lower-cased title or author contains `lq`. */
  predicate Matches(b: Book, lq: string)
  {
    Contains(Lower(b.title), lq) || Contains(Lower(b.author), lq)
  }

  /** The books of `bs` that match `lq`, in order. */
  function Filter(bs: seq<Book>, lq: string): seq<Book>
  {
    if bs == [] then []
    else Filter(bs[..|bs| - 1], lq) + (if Matches(bs[|bs| - 1], lq) then [bs[|bs| - 1]] else [])
  }

  /** The positions of the books of `bs` that match `lq`, in increasing order. */
  function MatchPositions(bs: seq<Book>, lq: string): seq<nat>
  {
    if bs == [] then []
    else MatchPositions(bs[..|bs| - 1], lq) + (if Matches(bs[|bs| - 1], lq) then [|bs| - 1] else [])
  }

  /** Each result of `Filter` is the book at the matching position of the same rank. */
  lemma {:induction false} FilterAtPositions(bs: seq<Book>, lq: string)
    ensures var ps := MatchPositions(bs, lq);
      |Filter(bs, lq)| == |ps|
      && forall i :: 0 <= i < |ps| ==> ps[i] < |bs| && Filter(bs, lq)[i] == bs[ps[i]]
  {
    if bs != [] {
      FilterAtPositions(bs[..|bs| - 1], lq);
    }
  }

  /** The matching positions are strictly increasing, so `Filter` keeps list order. */
  lemma {:induction false} MatchPositionsIncreasing(bs: seq<Book>, lq: string)
    ensures var ps := MatchPositions(bs, lq);
      (forall i :: 0 <= i < |ps| ==> ps[i] < |bs|)
      && (forall i, j :: 0 <= i < j < |ps| ==> ps[i] < ps[j])
  {
    if bs != [] {
      var front := bs[..|bs| - 1];
      MatchPositionsIncreasing(front, lq);
      assert MatchPositions(bs, lq) == MatchPositions(front, lq)
        + (if Matches(bs[|bs| - 1], lq) then [|bs| - 1] else []);
    }
  }

  /** A position is picked if and only if its book matches. */
  lemma {:induction false} MatchPositionsExact(bs: seq<Book>, lq: string)
    ensures forall k :: 0 <= k < |bs| ==> (k in MatchPositions(bs, lq) <==> Matches(bs[k], lq))
  {
    if bs != [] {
      var front := bs[..|bs| - 1];
      MatchPositionsExact(front, lq);
      MatchPositionsIncreasing(front, lq);
      assert MatchPositions(bs, lq) == MatchPositions(front, lq)
        + (if Matches(bs[|bs| - 1], lq) then [|bs| - 1] else []);
      assert forall k :: 0 <= k < |front| ==> front[k] == bs[k];
    }
  }

  /** A book is in the search result exactly when it is listed and matches. */
  lemma FilterMembership(bs: seq<Book>, lq: string, b: Book)
    ensures b in Filter(bs, lq) <==> b in bs && Matches(b, lq)
  {
    FilterAtPositions(bs, lq);
    MatchPositionsIncreasing(bs, lq);
    MatchPositionsExact(bs, lq);
    var ps := MatchPositions(bs, lq);
    if b in bs && Matches(b, lq) {
      var k :| 0 <= k < |bs| && bs[k] == b;
      assert k in ps;
      var i :| 0 <= i < |ps| && ps[i] == k;
      assert Filter(bs, lq)[i] == b;
    }
  }

  /** An empty query keeps every book, in order: `includes('')` is always true. */
  lemma {:induction false} FilterEmptyQuery(bs: seq<Book>)
    ensures Filter(bs, Lower([])) == bs
  {
    if bs != [] {
      FilterEmptyQuery(bs[..|bs| - 1]);
      ContainsEmpty(Lower(bs[|bs| - 1].title));
      assert bs[..|bs| - 1] + [bs[|bs| - 1]] == bs;
    }
  }

  /**
   * The doubly linked list. The ghost sequence `nodes` lists the cells from
   * head to tail; `Valid` ties it to `head`, `tail`, `size` and every
   * `next`/`prev` link.
   */
  class LinkedList {
    var head: Node?
    var tail: Node?
    var size: int
    ghost var nodes: seq<Node>
    ghost var Repr: set<object>

    ghost predicate Valid()
      reads this, Repr
    {
      this in Repr
      && (forall i :: 0 <= i < |nodes| ==> nodes[i] in Repr)
      && (forall o: object :: o in Repr ==> o == this || o is Node)
      && size == |nodes|
      && (nodes == [] ==> head == null && tail == null)
      && (nodes != [] ==> head == nodes[0] && tail == nodes[|nodes| - 1])
      && (nodes != [] ==> nodes[0].prev == null && nodes[|nodes| - 1].next == null)
      && (forall i :: 0 <= i < |nodes| - 1 ==> nodes[i].next == nodes[i + 1])
      && (forall i :: 0 < i < |nodes| ==> nodes[i].prev == nodes[i - 1])
      && (forall i, j :: 0 <= i < j < |nodes| ==> nodes[i] != nodes[j])
    }

    /** The books from head to tail. */
    ghost function Books(): (bs: seq<Book>)
      reads this
      ensures |bs| == |nodes| && forall i :: 0 <= i < |nodes| ==> bs[i] == nodes[i].book
    {
      seq(|nodes|, i requires 0 <= i < |nodes| reads this => nodes[i].book)
    }

    constructor ()
      ensures Valid() && fresh(Repr) && Books() == []
    {
      head := null;
      tail := null;
      size := 0;
      nodes := [];
      Repr := {this};
    }

    /** `addBook`: link a new cell after the tail. */
    method AddBook(book: Book)
      requires Valid()
      modifies Repr
      ensures Valid() && fresh(Repr - old(Repr))
      ensures Books() == old(Books()) + [book] && size == old(size) + 1
    {
      var newNode := new Node(book);
      if head == null {
        head := newNode;
        tail := newNode;
      } else {
        tail.next := newNode;
        newNode.prev := tail;
        tail := newNode;
      }
      size := size + 1;
      ghost var oldNodes := nodes;
      forall i | 0 <= i < |oldNodes| - 1
        ensures oldNodes[i].next == oldNodes[i + 1]
      {
        assert oldNodes[i] != oldNodes[|oldNodes| - 1];
      }
      nodes := nodes + [newNode];
      Repr := Repr + {newNode};
    }

    /** `findBookByTitle`: walk from the head, stop at the first title equal ignoring case. */
    method FindBookByTitle(title: string) returns (r: Book?)
      requires Valid()
      ensures FindTitle(TitlesOf(Books()), title).None? ==> r == null
      ensures FindTitle(TitlesOf(Books()), title).Some? ==> r == Books()[FindTitle(TitlesOf(Books()), title).value]
    {
      var current := head;
      ghost var k := 0;
      while current != null
        invariant 0 <= k <= |nodes|
        invariant current == if k < |nodes| then nodes[k] else null
        invariant forall j :: 0 <= j < k ==> !SameTitle(nodes[j].book.title, title)
        decreases |nodes| - k
      {
        if Lower(current.book.title) == Lower(title) {
          return current.book;
        }
        current := current.next;
        k := k + 1;
      }
      return null;
    }

    /** `getAllBooks`: the books from head to tail. */
    method GetAllBooks() returns (books: seq<Book>)
      requires Valid()
      ensures books == Books()
    {
      books := [];
      var current := head;
      ghost var k := 0;
      while current != null
        invariant 0 <= k <= |nodes|
        invariant current == if k < |nodes| then nodes[k] else null
        invariant books == Books()[..k]
        decreases |nodes| - k
      {
        books := books + [current.book];
        current := current.next;
        k := k + 1;
      }
    }

    /** `search`: the books whose lower-cased title or author contains the lower-cased query. */
    method Search(query: string) returns (results: seq<Book>)
      requires Valid()
      ensures results == Filter(Books(), Lower(query))
    {
      results := [];
      var lowerCaseQuery := Lower(query);
      var current := head;
      ghost var k := 0;
      while current != null
        invariant 0 <= k <= |nodes|
        invariant current == if k < |nodes| then nodes[k] else null
        invariant results == Filter(Books()[..k], lowerCaseQuery)
        decreases |nodes| - k
      {
        assert Books()[..k + 1][..k] == Books()[..k];
        if Contains(Lower(current.book.title), lowerCaseQuery)
          || Contains(Lower(current.book.author), lowerCaseQuery)
        {
          results := results + [current.book];
        }
        current := current.next;
        k := k + 1;
      }
      assert Books()[..k] == Books();
    }
  }
}
