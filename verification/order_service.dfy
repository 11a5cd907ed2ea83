/**
  The order service: placing the order for a user's cart, and listing a
  user's orders. Placing an order refuses an absent or empty cart before
  any transaction is opened, and otherwise hands the cart's lines to the
  repository's checkout transaction with a PENDING order for the caller.
 */
module OrderService {
  import opened Model
  import opened Database
  import opened Checkout
  import OrderRepository

  /**
    Places the order for the user's cart. An absent or empty cart fails
    with CartEmpty and changes nothing. Otherwise the checkout either fails
    with its error and changes nothing, or stores one PENDING order for the
    user and address, takes the stock, and empties exactly this user's cart.
   */
  method PlaceOrder(db: Store, userId: nat, addressId: nat) returns (r: Outcome)
    requires db.Valid()
    modifies db
    ensures db.Valid()
    ensures userId !in old(db.carts) || old(db.carts)[userId].items == [] ==>
      r == Fail(CartEmpty) && unchanged(db)
    ensures userId in old(db.carts) && old(db.carts)[userId].items != [] ==>
      var cart := old(db.carts)[userId];
      match Run(old(db.books), cart.items)
      case Failure(e) => r == Fail(e) && unchanged(db)
      case Success(p) =>
        && r == Pass
        && db.books == p.books
        && db.orders == old(db.orders) + [Order(old(db.nextOrderId), userId, addressId, p.total, Pending, p.items)]
        && db.carts == old(db.carts)[userId := cart.(items := [])]
        && db.users == old(db.users)
        && db.nextOrderId == old(db.nextOrderId) + 1
        && db.nextBookId == old(db.nextBookId) && db.nextCartId == old(db.nextCartId)
        && db.nextItemId == old(db.nextItemId) && db.nextUserId == old(db.nextUserId)
    ensures r == Pass ==>
      && |db.orders| == |old(db.orders)| + 1
      && db.orders[..|old(db.orders)|] == old(db.orders)
      && var o := db.orders[|db.orders| - 1];
         && o.userId == userId && o.addressId == addressId && o.status == Pending
         && o.amount == Amount(o.items)
         && |o.items| == |old(db.carts)[userId].items|
  {
    if userId !in db.carts || |db.carts[userId].items| == 0 {
      return Fail(CartEmpty);
    }
    var cart := db.carts[userId];
    ghost var before := db.carts;
    var placed := OrderRepository.PlaceOrderTransaction(db, userId, addressId, Pending, cart.items, cart.id);
    if placed.Failure? {
      return Fail(placed.error);
    }
    assert db.carts == before[userId := cart.(items := [])];
    assert db.orders[..|old(db.orders)|] == old(db.orders);
    r := Pass;
  }

  /** The orders of one user, as the repository finds them. */
  function GetOrders(db: Store, userId: nat): (r: seq<Order>)
    reads db
    ensures r == OrderRepository.FindByUserID(db, userId)
    ensures forall o :: o in r <==> o in db.orders && o.userId == userId
    ensures forall o :: multiset(r)[o] == if o.userId == userId then multiset(db.orders)[o] else 0
  {
    OrderRepository.FindByUserID(db, userId)
  }
}
