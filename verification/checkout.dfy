/**
  The checkout loop that turns cart lines into order lines, as a
  specification: a left fold of one step per cart line over the books
  table. Each step re-reads the book (so a second line for the same book
  sees the first line's decrement), rejects when the stock is below the
  wanted quantity, takes the quantity off the stock and records an order
  line at the price read. The lemmas below state what a successful run
  leaves behind and exactly when, and with which error, a run fails.
 */
module Checkout {
  import opened Model

  /** What the loop has built after some prefix of the cart lines. */
  datatype Progress = Progress(books: map<nat, Book>, items: seq<OrderItem>, total: int)

  /** One iteration of the loop, on one cart line. */
  function Step(p: Progress, line: CartItem): Result<Progress>
  {
    if line.bookId !in p.books then Failure(RecordNotFound)
    else
      var book := p.books[line.bookId];
      if book.stock < line.quantity then Failure(InsufficientStock(book.title))
      else
        Success(Progress(
          p.books[line.bookId := book.(stock := book.stock - line.quantity)],
          p.items + [OrderItem(line.bookId, line.quantity, book.price)],
          p.total + book.price * line.quantity))
  }

  /** The whole loop: the steps in cart order, stopping at the first error. */
  function Run(books: map<nat, Book>, lines: seq<CartItem>): Result<Progress>
    decreases |lines|
  {
    if lines == [] then Success(Progress(books, [], 0))
    else
      match Run(books, lines[..|lines| - 1])
      case Failure(e) => Failure(e)
      case Success(p) => Step(p, lines[|lines| - 1])
  }

  /**
    Line k can be served: its book exists and its stock, less what the
    earlier lines of the same cart took from it, covers the quantity.
   */
  predicate Feasible(books: map<nat, Book>, lines: seq<CartItem>, k: nat)
    requires k < |lines|
  {
    && lines[k].bookId in books
    && lines[k].quantity <= books[lines[k].bookId].stock - Ordered(lines[..k], lines[k].bookId)
  }

  /** The error a run reports for an infeasible line k. */
  function ErrorAt(books: map<nat, Book>, lines: seq<CartItem>, k: nat): Error
    requires k < |lines|
  {
    if lines[k].bookId in books then InsufficientStock(books[lines[k].bookId].title)
    else RecordNotFound
  }

  /** Once a prefix of the lines fails, the whole run fails with the same error. */
  lemma {:induction false} RunFailurePersists(books: map<nat, Book>, lines: seq<CartItem>, i: nat)
    requires i <= |lines|
    requires Run(books, lines[..i]).Failure?
    ensures Run(books, lines) == Run(books, lines[..i])
    decreases |lines| - i
  {
    if i < |lines| {
      var front := lines[..|lines| - 1];
      assert front[..i] == lines[..i];
      RunFailurePersists(books, front, i);
    } else {
      assert lines[..i] == lines;
    }
  }

  /**
    A successful run keeps every book and every field of it except the
    stock, and takes off each book's stock exactly what the lines ask of it.
   */
  lemma {:induction false} RunBooks(books: map<nat, Book>, lines: seq<CartItem>)
    requires Run(books, lines).Success?
    ensures Run(books, lines).value.books.Keys == books.Keys
    ensures forall id :: id in books ==>
      Run(books, lines).value.books[id] == books[id].(stock := books[id].stock - Ordered(lines, id))
    decreases |lines|
  {
    if lines != [] {
      RunBooks(books, lines[..|lines| - 1]);
    }
  }

  /** Lines that do not ask for a book take nothing from it. */
  lemma {:induction false} OrderedUnmentioned(lines: seq<CartItem>, bookId: nat)
    requires !Mentions(lines, bookId)
    ensures Ordered(lines, bookId) == 0
    decreases |lines|
  {
    if lines != [] {
      OrderedUnmentioned(lines[..|lines| - 1], bookId);
    }
  }

  /**
    A successful run makes exactly one order line per cart line, in cart
    order, copying the book and the quantity and capturing the book's price.
   */
  lemma {:induction false} RunItems(books: map<nat, Book>, lines: seq<CartItem>)
    requires Run(books, lines).Success?
    ensures |Run(books, lines).value.items| == |lines|
    ensures forall k :: 0 <= k < |lines| ==>
      && lines[k].bookId in books
      && Run(books, lines).value.items[k] ==
           OrderItem(lines[k].bookId, lines[k].quantity, books[lines[k].bookId].price)
    decreases |lines|
  {
    if lines != [] {
      var front := lines[..|lines| - 1];
      RunItems(books, front);
      RunBooks(books, front);
    }
  }

  /** The total of a successful run is the sum of price times quantity over its order lines. */
  lemma {:induction false} RunTotal(books: map<nat, Book>, lines: seq<CartItem>)
    requires Run(books, lines).Success?
    ensures Run(books, lines).value.total == Amount(Run(books, lines).value.items)
    decreases |lines|
  {
    if lines != [] {
      var front := lines[..|lines| - 1];
      var line := lines[|lines| - 1];
      RunTotal(books, front);
      var p := Run(books, front).value;
      assert Run(books, lines) == Step(p, line);
      var price := p.books[line.bookId].price;
      var q := Run(books, lines).value;
      assert q.items == p.items + [OrderItem(line.bookId, line.quantity, price)];
      assert q.total == p.total + price * line.quantity;
      assert q.items[..|q.items| - 1] == p.items;
    }
  }

  /** After a successful run no book that a line asked for has negative stock. */
  lemma {:induction false} RunStockNonNegative(books: map<nat, Book>, lines: seq<CartItem>)
    requires Run(books, lines).Success?
    ensures forall k :: 0 <= k < |lines| ==>
      && lines[k].bookId in Run(books, lines).value.books
      && Run(books, lines).value.books[lines[k].bookId].stock >= 0
    decreases |lines|
  {
    if lines != [] {
      var front := lines[..|lines| - 1];
      RunStockNonNegative(books, front);
      var p := Run(books, front).value;
      var q := Run(books, lines).value;
      forall k | 0 <= k < |lines|
        ensures lines[k].bookId in q.books && q.books[lines[k].bookId].stock >= 0
      {
        if k < |front| {
          assert front[k] == lines[k];
        }
      }
    }
  }

  /** A run succeeds exactly when every line is feasible. */
  lemma {:induction false} RunSucceedsIff(books: map<nat, Book>, lines: seq<CartItem>)
    ensures Run(books, lines).Success? <==> forall k :: 0 <= k < |lines| ==> Feasible(books, lines, k)
    decreases |lines|
  {
    if lines != [] {
      var n := |lines|;
      var front := lines[..n - 1];
      RunSucceedsIff(books, front);
      assert forall k :: 0 <= k < n - 1 ==> front[..k] == lines[..k] && front[k] == lines[k];
      assert forall k :: 0 <= k < n - 1 ==> (Feasible(books, front, k) <==> Feasible(books, lines, k));
      if Run(books, front).Success? {
        RunBooks(books, front);
        var p := Run(books, front).value;
        var line := lines[n - 1];
        assert lines[..n - 1] == front;
        assert Run(books, lines) == Step(p, line);
        if line.bookId in books {
          assert p.books[line.bookId].stock == books[line.bookId].stock - Ordered(front, line.bookId);
        }
        assert Run(books, lines).Success? <==> Feasible(books, lines, n - 1);
      } else {
        var k :| 0 <= k < n - 1 && !Feasible(books, front, k);
        assert !Feasible(books, lines, k);
      }
    }
  }

  /** A run fails with the error of its first infeasible line. */
  lemma RunFailsAtFirstInfeasible(books: map<nat, Book>, lines: seq<CartItem>, k: nat)
    requires k < |lines|
    requires !Feasible(books, lines, k)
    requires forall j :: 0 <= j < k ==> Feasible(books, lines, j)
    ensures Run(books, lines) == Failure(ErrorAt(books, lines, k))
  {
    var upto := lines[..k];
    forall j | 0 <= j < k
      ensures Feasible(books, upto, j)
    {
      assert upto[..j] == lines[..j] && upto[j] == lines[j];
      assert Feasible(books, lines, j);
    }
    RunSucceedsIff(books, upto);
    RunBooks(books, upto);
    var through := lines[..k + 1];
    assert through[..k] == upto;
    RunFailurePersists(books, lines, k + 1);
  }

  /** A successful run never takes more of a book than the book had in stock. */
  lemma NoOversell(books: map<nat, Book>, lines: seq<CartItem>)
    requires Run(books, lines).Success?
    ensures forall id :: Mentions(lines, id) ==> id in books && Ordered(lines, id) <= books[id].stock
  {
    RunBooks(books, lines);
    RunItems(books, lines);
    RunStockNonNegative(books, lines);
  }

  /** A successful run on a catalogue without negative stock leaves none. */
  lemma RunKeepsStockNonNegative(books: map<nat, Book>, lines: seq<CartItem>)
    requires forall id :: id in books ==> books[id].stock >= 0
    requires Run(books, lines).Success?
    ensures forall id :: id in Run(books, lines).value.books ==> Run(books, lines).value.books[id].stock >= 0
  {
    RunBooks(books, lines);
    RunStockNonNegative(books, lines);
    forall id | id in books && !Mentions(lines, id)
      ensures Ordered(lines, id) == 0
    {
      OrderedUnmentioned(lines, id);
    }
  }

  /**
    Two checkouts committed one after the other together never take more
    of a book than it had: of two orders for the last copy, the second fails.
   */
  lemma SerialCheckoutsNeverOversell(books: map<nat, Book>, first: seq<CartItem>, second: seq<CartItem>)
    requires Run(books, first).Success?
    requires Run(Run(books, first).value.books, second).Success?
    ensures forall id :: Mentions(first, id) || Mentions(second, id) ==>
      id in books && Ordered(first, id) + Ordered(second, id) <= books[id].stock
  {
    var mid := Run(books, first).value.books;
    NoOversell(books, first);
    NoOversell(mid, second);
    RunBooks(books, first);
    forall id | Mentions(first, id) && !Mentions(second, id)
      ensures Ordered(second, id) == 0
    {
      OrderedUnmentioned(second, id);
    }
  }

  /**
    One iteration of the loop as the code computes it on 64-bit integers:
    the same guard, but the stock decrement wraps around. It agrees with
    `Step` whenever the new stock fits in 64 bits.
   */
  function StepAsWritten(p: Progress, line: CartItem): (r: Result<Progress>)
    ensures r.Success? <==> Step(p, line).Success?
    ensures r.Success? && Int64Min <= p.books[line.bookId].stock - line.quantity <= Int64Max ==>
      r == Step(p, line)
  {
    if line.bookId !in p.books then Failure(RecordNotFound)
    else
      var book := p.books[line.bookId];
      if book.stock < line.quantity then Failure(InsufficientStock(book.title))
      else
        Success(Progress(
          p.books[line.bookId := book.(stock := Wrap64(book.stock - line.quantity))],
          p.items + [OrderItem(line.bookId, line.quantity, book.price)],
          p.total + book.price * line.quantity))
  }

  /**
    The stock guard lets a quantity of -2^63 through, and the 64-bit
    decrement then stores a negative stock where `Step` stores 5 + 2^63.
   */
  lemma StockWrapsNegative()
    ensures
      var p := Progress(map[1 := Book(1, "title", "author", "", 100, 5)], [], 0);
      var line := CartItem(1, 1, Int64Min);
      && StepAsWritten(p, line).Success?
      && StepAsWritten(p, line).value.books[1].stock == 5 + Int64Min < 0
      && Step(p, line).Success?
      && Step(p, line).value.books[1].stock == 5 - Int64Min > 0
  {
    assert Wrap64(5 - Int64Min) == 5 + Int64Min;
  }
}
