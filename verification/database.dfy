/**
  The database the services share, as one object whose tables are
  reassigned by the operations. Ids are handed out by per-table counters,
  as a serial primary key would.
 */
module Database {
  import opened Model

  /** No two lines of a cart are for the same book. */
  predicate NoDuplicateBooks(items: seq<CartItem>)
  {
    forall i, j :: 0 <= i < j < |items| ==> items[i].bookId != items[j].bookId
  }

  /** Every book is stored under its own id, and the id counter is past all of them. */
  ghost predicate BooksValid(books: map<nat, Book>, nextBookId: nat)
  {
    && 1 <= nextBookId
    && forall id :: id in books ==> books[id].id == id && 1 <= id < nextBookId
  }

  /**
    Every cart is stored under its owner, carries a distinct id below the
    counter, has at most one line per book, and its line ids are below the
    line counter.
   */
  ghost predicate CartsValid(carts: map<nat, Cart>, nextCartId: nat, nextItemId: nat)
  {
    && 1 <= nextCartId
    && (forall u :: u in carts ==>
          && carts[u].userId == u
          && 1 <= carts[u].id < nextCartId
          && NoDuplicateBooks(carts[u].items)
          && forall k :: 0 <= k < |carts[u].items| ==> carts[u].items[k].id < nextItemId)
    && (forall u, v :: u in carts && v in carts && u != v ==> carts[u].id != carts[v].id)
  }

  /** Order ids increase along the table and stay below the counter. */
  ghost predicate OrdersValid(orders: seq<Order>, nextOrderId: nat)
  {
    && 1 <= nextOrderId
    && (forall i :: 0 <= i < |orders| ==> 1 <= orders[i].id < nextOrderId)
    && (forall i, j :: 0 <= i < j < |orders| ==> orders[i].id < orders[j].id)
  }

  /** User ids increase along the table and stay below the counter; emails are unique. */
  ghost predicate UsersValid(users: seq<User>, nextUserId: nat)
  {
    && 1 <= nextUserId
    && (forall i :: 0 <= i < |users| ==> 1 <= users[i].id < nextUserId)
    && (forall i, j :: 0 <= i < j < |users| ==> users[i].id < users[j].id && users[i].email != users[j].email)
  }

  class Store {
    var books: map<nat, Book>
    var nextBookId: nat
    /** Carts keyed by the id of the user who owns them (one cart per user). */
    var carts: map<nat, Cart>
    var nextCartId: nat
    var nextItemId: nat
    /** The orders table, in insertion order. */
    var orders: seq<Order>
    var nextOrderId: nat
    /** The users table, in insertion order. */
    var users: seq<User>
    var nextUserId: nat

    ghost predicate Valid()
      reads this
    {
      && BooksValid(books, nextBookId)
      && CartsValid(carts, nextCartId, nextItemId)
      && OrdersValid(orders, nextOrderId)
      && UsersValid(users, nextUserId)
    }

    constructor ()
      ensures Valid()
      ensures books == map[] && carts == map[] && orders == [] && users == []
      ensures nextBookId == 1 && nextCartId == 1 && nextItemId == 1 && nextOrderId == 1 && nextUserId == 1
    {
      books, carts, orders, users := map[], map[], [], [];
      nextBookId, nextCartId, nextItemId, nextOrderId, nextUserId := 1, 1, 1, 1, 1;
    }
  }
}
