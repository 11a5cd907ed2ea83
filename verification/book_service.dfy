/**
  The book service: the catalogue edits (create, update, delete) and the
  catalogue reads. Besides checkout, updating a book is the only writer of
  a book's stock; it overwrites the stock with the value given.
 */
module BookService {
  import opened Model
  import opened Database

  /** Stores a new book with the given fields under the next book id. */
  method CreateBook(db: Store, title: string, author: string, description: string, price: int, stock: int)
    requires db.Valid()
    modifies db
    ensures db.Valid()
    ensures old(db.nextBookId) !in old(db.books)
    ensures db.books == old(db.books)[old(db.nextBookId) := Book(old(db.nextBookId), title, author, description, price, stock)]
    ensures db.nextBookId == old(db.nextBookId) + 1
    ensures db.carts == old(db.carts) && db.orders == old(db.orders) && db.users == old(db.users)
    ensures db.nextCartId == old(db.nextCartId) && db.nextItemId == old(db.nextItemId)
    ensures db.nextOrderId == old(db.nextOrderId) && db.nextUserId == old(db.nextUserId)
  {
    var book := Book(db.nextBookId, title, author, description, price, stock);
    db.books := db.books[book.id := book];
    db.nextBookId := db.nextBookId + 1;
  }

  /**
    Overwrites title, author, description, price and stock of the book with
    the given id, keeping its id. An unknown id fails with BookNotFound and
    changes nothing. Stored orders keep the prices they captured.
   */
  method UpdateBook(db: Store, id: nat, title: string, author: string, description: string,
                    price: int, stock: int)
    returns (r: Outcome)
    requires db.Valid()
    modifies db
    ensures db.Valid()
    ensures id !in old(db.books) ==> r == Fail(BookNotFound) && unchanged(db)
    ensures id in old(db.books) ==>
      && r == Pass
      && db.books == old(db.books)[id := Book(id, title, author, description, price, stock)]
      && db.nextBookId == old(db.nextBookId)
      && db.carts == old(db.carts) && db.orders == old(db.orders) && db.users == old(db.users)
      && db.nextCartId == old(db.nextCartId) && db.nextItemId == old(db.nextItemId)
      && db.nextOrderId == old(db.nextOrderId) && db.nextUserId == old(db.nextUserId)
  {
    if id !in db.books {
      return Fail(BookNotFound);
    }
    var book := db.books[id];
    book := book.(title := title, author := author, description := description, price := price, stock := stock);
    db.books := db.books[id := book];
    r := Pass;
  }

  /** Removes the book with the given id, if there is one; nothing else changes. */
  method DeleteBook(db: Store, id: nat)
    requires db.Valid()
    modifies db
    ensures db.Valid()
    ensures db.books == old(db.books) - {id}
    ensures db.nextBookId == old(db.nextBookId)
    ensures db.carts == old(db.carts) && db.orders == old(db.orders) && db.users == old(db.users)
    ensures db.nextCartId == old(db.nextCartId) && db.nextItemId == old(db.nextItemId)
    ensures db.nextOrderId == old(db.nextOrderId) && db.nextUserId == old(db.nextUserId)
  {
    db.books := db.books - {id};
  }

  /** The stored book with the given id, or the store's not-found error. */
  function GetBook(db: Store, id: nat): (r: Result<Book>)
    reads db
    requires db.Valid()
    ensures r.Success? <==> id in db.books
    ensures r.Success? ==> r.value == db.books[id] && r.value.id == id
    ensures r.Failure? ==> r.error == RecordNotFound
  {
    if id in db.books then Success(db.books[id]) else Failure(RecordNotFound)
  }

  /** The stored books with ids below `n`, in ascending id order. */
  function BooksBelow(books: map<nat, Book>, n: nat): (r: seq<Book>)
    requires forall id :: id in books ==> books[id].id == id
    ensures forall k :: 0 <= k < |r| ==> r[k].id in books && books[r[k].id] == r[k] && r[k].id < n
    ensures forall id :: id in books && id < n ==> books[id] in r
    ensures forall i, j :: 0 <= i < j < |r| ==> r[i].id < r[j].id
  {
    if n == 0 then []
    else
      var front := BooksBelow(books, n - 1);
      if n - 1 in books then front + [books[n - 1]] else front
  }

  /** Every stored book exactly once, in ascending id order. */
  function ListBooks(db: Store): (r: seq<Book>)
    reads db
    requires db.Valid()
    ensures forall b :: b in r <==> b in db.books.Values
    ensures forall i, j :: 0 <= i < j < |r| ==> r[i].id < r[j].id
  {
    BooksBelow(db.books, db.nextBookId)
  }
}
