/**
  The order repository: the checkout transaction and the per-user order
  lookup. The transaction runs the checkout loop on a copy of the books
  table and writes the copy, the new order and the emptied cart back only
  when every line succeeded; on an error nothing is written, which is what
  the rollback of the surrounding transaction achieves.
 */
module OrderRepository {
  import opened Model
  import opened Database
  import opened Checkout

  /** The checkout loop over the cart lines, on a copy of the books table. */
  method RunCheckout(books: map<nat, Book>, lines: seq<CartItem>) returns (r: Result<Progress>)
    ensures r == Run(books, lines)
  {
    var current: map<nat, Book> := books;
    var orderItems: seq<OrderItem> := [];
    var totalAmount := 0;
    for i := 0 to |lines|
      invariant Run(books, lines[..i]) == Success(Progress(current, orderItems, totalAmount))
    {
      var item := lines[i];
      assert lines[..i + 1][..i] == lines[..i];
      if item.bookId !in current {
        RunFailurePersists(books, lines, i + 1);
        return Failure(RecordNotFound);
      }
      var book := current[item.bookId];
      if book.stock < item.quantity {
        RunFailurePersists(books, lines, i + 1);
        return Failure(InsufficientStock(book.title));
      }
      book := book.(stock := book.stock - item.quantity);
      current := current[item.bookId := book];
      var price := book.price;
      totalAmount := totalAmount + price * item.quantity;
      orderItems := orderItems + [OrderItem(item.bookId, item.quantity, price)];
    }
    assert lines[..|lines|] == lines;
    r := Success(Progress(current, orderItems, totalAmount));
  }

  /** Deletes every line of the cart with the given id; every other cart is left as it was. */
  function ClearCart(carts: map<nat, Cart>, cartId: nat): (r: map<nat, Cart>)
    ensures r.Keys == carts.Keys
    ensures forall u :: u in carts && carts[u].id == cartId ==> r[u] == carts[u].(items := [])
    ensures forall u :: u in carts && carts[u].id != cartId ==> r[u] == carts[u]
  {
    map u | u in carts :: if carts[u].id == cartId then carts[u].(items := []) else carts[u]
  }

  /**
    What a successful checkout commits: a books table that keeps the table
    invariant, the same books with the stock the lines took off, and order
    lines and a total that match the cart lines.
   */
  lemma CheckoutCommits(books: map<nat, Book>, lines: seq<CartItem>, nextBookId: nat)
    requires BooksValid(books, nextBookId)
    requires Run(books, lines).Success?
    ensures BooksValid(Run(books, lines).value.books, nextBookId)
    ensures Run(books, lines).value.total == Amount(Run(books, lines).value.items)
    ensures |Run(books, lines).value.items| == |lines|
    ensures Run(books, lines).value.books.Keys == books.Keys
    ensures forall k :: 0 <= k < |lines| ==>
      && lines[k].bookId in books
      && Run(books, lines).value.items[k] ==
           OrderItem(lines[k].bookId, lines[k].quantity, books[lines[k].bookId].price)
      && Run(books, lines).value.books[lines[k].bookId].stock >= 0
    ensures forall id :: id in books ==>
      Run(books, lines).value.books[id] == books[id].(stock := books[id].stock - Ordered(lines, id))
  {
    RunBooks(books, lines);
    RunItems(books, lines);
    RunTotal(books, lines);
    RunStockNonNegative(books, lines);
  }

  /** Appending an order under the counter's id keeps the orders table invariant. */
  lemma OrdersValidAppend(orders: seq<Order>, nextOrderId: nat, order: Order)
    requires OrdersValid(orders, nextOrderId)
    requires order.id == nextOrderId
    ensures OrdersValid(orders + [order], nextOrderId + 1)
  {
  }

  /** Emptying a cart keeps the carts table invariant. */
  lemma CartsValidClear(carts: map<nat, Cart>, nextCartId: nat, nextItemId: nat, cartId: nat)
    requires CartsValid(carts, nextCartId, nextItemId)
    ensures CartsValid(ClearCart(carts, cartId), nextCartId, nextItemId)
  {
  }

  /**
    The writes of a committed checkout: the new books table, the order
    appended under the next order id, and the lines of cart `cartId`
    deleted. Every table invariant is kept.
   */
  method Commit(db: Store, books: map<nat, Book>, order: Order, cartId: nat)
    requires db.Valid()
    requires BooksValid(books, db.nextBookId)
    requires order.id == db.nextOrderId
    modifies db
    ensures db.Valid()
    ensures db.books == books
    ensures db.orders == old(db.orders) + [order]
    ensures db.nextOrderId == old(db.nextOrderId) + 1
    ensures db.carts == ClearCart(old(db.carts), cartId)
    ensures db.users == old(db.users)
    ensures db.nextBookId == old(db.nextBookId) && db.nextCartId == old(db.nextCartId)
    ensures db.nextItemId == old(db.nextItemId) && db.nextUserId == old(db.nextUserId)
  {
    OrdersValidAppend(db.orders, db.nextOrderId, order);
    CartsValidClear(db.carts, db.nextCartId, db.nextItemId, cartId);
    db.books, db.orders, db.nextOrderId, db.carts :=
      books, db.orders + [order], db.nextOrderId + 1, ClearCart(db.carts, cartId);
  }

  /**
    Places an order for the given cart lines inside one transaction and
    returns the order it stored. On success the books table is the one the
    checkout computed, the order (next id, the given owner, address and
    status, the computed lines and total) is appended, and the lines of the
    cart `cartId` are deleted. On any error nothing changes.
   */
  method PlaceOrderTransaction(db: Store, userId: nat, addressId: nat, status: OrderStatus,
                               cartItems: seq<CartItem>, cartId: nat)
    returns (r: Result<Order>)
    requires db.Valid()
    modifies db
    ensures db.Valid()
    ensures Run(old(db.books), cartItems).Failure? ==>
      && r == Failure(Run(old(db.books), cartItems).error)
      && unchanged(db)
    ensures Run(old(db.books), cartItems).Success? ==>
      var p := Run(old(db.books), cartItems).value;
      && r == Success(Order(old(db.nextOrderId), userId, addressId, p.total, status, p.items))
      && db.books == p.books
      && db.orders == old(db.orders) + [r.value]
      && db.nextOrderId == old(db.nextOrderId) + 1
      && db.carts == ClearCart(old(db.carts), cartId)
      && db.users == old(db.users)
      && db.nextBookId == old(db.nextBookId) && db.nextCartId == old(db.nextCartId)
      && db.nextItemId == old(db.nextItemId) && db.nextUserId == old(db.nextUserId)
    // What the stored order and stock mean, from the lemmas about the checkout:
    ensures r.Success? ==>
      && r.value.amount == Amount(r.value.items)
      && |r.value.items| == |cartItems|
      && db.books.Keys == old(db.books).Keys
      && (forall k :: 0 <= k < |cartItems| ==>
            && cartItems[k].bookId in old(db.books)
            && r.value.items[k] == OrderItem(cartItems[k].bookId, cartItems[k].quantity,
                                             old(db.books)[cartItems[k].bookId].price)
            && db.books[cartItems[k].bookId].stock >= 0)
      && (forall id :: id in old(db.books) ==>
            db.books[id] == old(db.books)[id].(stock := old(db.books)[id].stock - Ordered(cartItems, id)))
  {
    var outcome := RunCheckout(db.books, cartItems);
    if outcome.Failure? {
      // Rollback: nothing was written.
      return Failure(outcome.error);
    }
    var p := outcome.value;
    CheckoutCommits(db.books, cartItems, db.nextBookId);
    var order := Order(db.nextOrderId, userId, addressId, p.total, status, p.items);
    Commit(db, p.books, order, cartId);
    r := Success(order);
  }

  /** The orders, in table order, that belong to the given user. */
  function OrdersOf(orders: seq<Order>, userId: nat): (r: seq<Order>)
    ensures |r| <= |orders|
    ensures forall o :: o in r <==> o in orders && o.userId == userId
    ensures forall o :: multiset(r)[o] == if o.userId == userId then multiset(orders)[o] else 0
    decreases |orders|
  {
    if orders == [] then []
    else
      var front := OrdersOf(orders[..|orders| - 1], userId);
      var last := orders[|orders| - 1];
      assert orders == orders[..|orders| - 1] + [last];
      if last.userId == userId then front + [last] else front
  }

  /** Looks up the orders of one user. */
  function FindByUserID(db: Store, userId: nat): (r: seq<Order>)
    reads db
    ensures forall o :: o in r <==> o in db.orders && o.userId == userId
    ensures forall o :: multiset(r)[o] == if o.userId == userId then multiset(db.orders)[o] else 0
  {
    OrdersOf(db.orders, userId)
  }
}
