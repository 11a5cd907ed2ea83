/**
  The cart service: adding a quantity of a book to a user's cart, and
  reading the cart. Adding finds or creates the user's cart, then merges
  the quantity into the cart's line for the book: the line is updated, or
  removed when its quantity drops to zero or below, or, when the cart has
  no line for the book yet, a new line is appended with the quantity as
  given (a non-positive quantity included).
 */
module CartService {
  import opened Model
  import opened Database

  /** The position of the first line for the book, if any. */
  function FindLine(items: seq<CartItem>, bookId: nat): (r: Option<nat>)
    ensures r.Some? ==>
      && r.value < |items|
      && items[r.value].bookId == bookId
      && forall j :: 0 <= j < r.value ==> items[j].bookId != bookId
    ensures r.None? ==> forall j :: 0 <= j < |items| ==> items[j].bookId != bookId
    decreases |items|
  {
    if items == [] then None
    else if items[0].bookId == bookId then Some(0)
    else
      match FindLine(items[1..], bookId)
      case None => None
      case Some(k) => Some(k + 1)
  }

  /** The cart's line for the book, if any. */
  function LineFor(items: seq<CartItem>, bookId: nat): (r: Option<CartItem>)
    ensures r.Some? ==> r.value in items && r.value.bookId == bookId
    ensures r.None? ==> forall j :: 0 <= j < |items| ==> items[j].bookId != bookId
  {
    match FindLine(items, bookId)
    case None => None
    case Some(k) => Some(items[k])
  }

  /** A line for the book with no earlier one is the line FindLine finds. */
  lemma FindLineFirst(items: seq<CartItem>, bookId: nat, k: nat)
    requires k < |items| && items[k].bookId == bookId
    requires forall j :: 0 <= j < k ==> items[j].bookId != bookId
    ensures FindLine(items, bookId) == Some(k)
  {
  }

  /** The lines of a cart after adding `quantity` of a book, a new line getting id `freshId`. */
  function MergedLines(items: seq<CartItem>, bookId: nat, quantity: int, freshId: nat): seq<CartItem>
  {
    match FindLine(items, bookId)
    case Some(k) =>
      var merged := items[k].quantity + quantity;
      if merged <= 0 then items[..k] + items[k + 1..]
      else items[k := items[k].(quantity := merged)]
    case None => items + [CartItem(freshId, bookId, quantity)]
  }

  /**
    The merge as the code computes it on 64-bit integers: the sum of the
    quantities wraps around before the zero test. It agrees with
    `MergedLines` whenever that sum fits in 64 bits.
   */
  function MergedLinesAsWritten(items: seq<CartItem>, bookId: nat, quantity: int, freshId: nat): (r: seq<CartItem>)
    ensures FindLine(items, bookId).None? ==> r == MergedLines(items, bookId, quantity, freshId)
    ensures && FindLine(items, bookId).Some?
            && Int64Min <= items[FindLine(items, bookId).value].quantity + quantity <= Int64Max
            ==> r == MergedLines(items, bookId, quantity, freshId)
  {
    match FindLine(items, bookId)
    case Some(k) =>
      var merged := Wrap64(items[k].quantity + quantity);
      if merged <= 0 then items[..k] + items[k + 1..]
      else items[k := items[k].(quantity := merged)]
    case None => items + [CartItem(freshId, bookId, quantity)]
  }

  /**
    Adding 1 to a line holding 2^63 - 1 copies wraps the sum to -2^63, so
    the code deletes the line, where `MergedLines` keeps it with 2^63.
   */
  lemma MergeWrapsAndRemoves()
    ensures MergedLinesAsWritten([CartItem(1, 7, Int64Max)], 7, 1, 2) == []
    ensures MergedLines([CartItem(1, 7, Int64Max)], 7, 1, 2) == [CartItem(1, 7, Int64Max + 1)]
  {
    var items := [CartItem(1, 7, Int64Max)];
    assert FindLine(items, 7) == Some(0);
    assert Wrap64(Int64Max + 1) == Int64Min;
    assert items[..0] + items[1..] == [];
  }

  /** Merging never makes a second line for the same book. */
  lemma MergedLinesNoDuplicates(items: seq<CartItem>, bookId: nat, quantity: int, freshId: nat)
    requires NoDuplicateBooks(items)
    ensures NoDuplicateBooks(MergedLines(items, bookId, quantity, freshId))
  {
    var r := MergedLines(items, bookId, quantity, freshId);
    match FindLine(items, bookId)
    case Some(k) =>
      if items[k].quantity + quantity <= 0 {
        forall i, j | 0 <= i < j < |r|
          ensures r[i].bookId != r[j].bookId
        {
          var i' := if i < k then i else i + 1;
          var j' := if j < k then j else j + 1;
          assert r[i] == items[i'] && r[j] == items[j'];
        }
      }
    case None =>
  }

  /**
    After merging, the cart's line for the book is the old line with the
    quantity added, or no line when that sum is zero or below, or a new
    line with the given quantity when there was none.
   */
  lemma MergedLinesLine(items: seq<CartItem>, bookId: nat, quantity: int, freshId: nat)
    requires NoDuplicateBooks(items)
    ensures LineFor(MergedLines(items, bookId, quantity, freshId), bookId) ==
      match LineFor(items, bookId)
      case Some(line) =>
        if line.quantity + quantity <= 0 then None
        else Some(line.(quantity := line.quantity + quantity))
      case None => Some(CartItem(freshId, bookId, quantity))
  {
    var r := MergedLines(items, bookId, quantity, freshId);
    match FindLine(items, bookId)
    case Some(k) =>
      if items[k].quantity + quantity <= 0 {
        forall j | 0 <= j < |r|
          ensures r[j].bookId != bookId
        {
          var j' := if j < k then j else j + 1;
          assert r[j] == items[j'];
        }
      } else {
        FindLineFirst(r, bookId, k);
      }
    case None =>
      FindLineFirst(r, bookId, |items|);
  }

  /**
    Adding a positive quantity to a line that holds a positive quantity
    keeps the line, with the two quantities summed.
   */
  lemma MergedLinesKeepsPositive(items: seq<CartItem>, bookId: nat, quantity: int, freshId: nat)
    requires NoDuplicateBooks(items)
    requires LineFor(items, bookId).Some? && LineFor(items, bookId).value.quantity > 0
    requires quantity > 0
    ensures LineFor(MergedLines(items, bookId, quantity, freshId), bookId) ==
      Some(LineFor(items, bookId).value.(quantity := LineFor(items, bookId).value.quantity + quantity))
  {
    MergedLinesLine(items, bookId, quantity, freshId);
  }

  /** Merging leaves the line of every other book as it was. */
  lemma MergedLinesOthers(items: seq<CartItem>, bookId: nat, quantity: int, freshId: nat, other: nat)
    requires other != bookId
    ensures LineFor(MergedLines(items, bookId, quantity, freshId), other) == LineFor(items, other)
  {
    var r := MergedLines(items, bookId, quantity, freshId);
    match FindLine(items, bookId)
    case Some(k) =>
      if items[k].quantity + quantity <= 0 {
        match FindLine(items, other)
        case None =>
          forall j | 0 <= j < |r|
            ensures r[j].bookId != other
          {
            var j' := if j < k then j else j + 1;
            assert r[j] == items[j'];
          }
        case Some(m) =>
          var m' := if m < k then m else m - 1;
          forall j | 0 <= j < m'
            ensures r[j].bookId != other
          {
            var j' := if j < k then j else j + 1;
            assert r[j] == items[j'];
          }
          assert r[m'] == items[m];
          FindLineFirst(r, other, m');
      } else {
        match FindLine(items, other)
        case None =>
        case Some(m) =>
          FindLineFirst(r, other, m);
      }
    case None =>
      match FindLine(items, other)
      case None =>
      case Some(m) =>
        FindLineFirst(r, other, m);
  }

  /**
    Storing a well-formed cart for a user keeps the carts table well formed,
    also when the counters are moved forward.
   */
  lemma CartsValidAfterPut(carts: map<nat, Cart>, oldNextCartId: nat, oldNextItemId: nat,
                           nextCartId: nat, nextItemId: nat, userId: nat, cart: Cart)
    requires CartsValid(carts, oldNextCartId, oldNextItemId)
    requires oldNextCartId <= nextCartId && oldNextItemId <= nextItemId
    requires cart.userId == userId && 1 <= cart.id < nextCartId
    requires NoDuplicateBooks(cart.items)
    requires forall k :: 0 <= k < |cart.items| ==> cart.items[k].id < nextItemId
    requires forall v :: v in carts && v != userId ==> carts[v].id != cart.id
    ensures CartsValid(carts[userId := cart], nextCartId, nextItemId)
  {
  }

  /** Stores the user's cart and moves the cart and line counters to the given values. */
  method PutCart(db: Store, userId: nat, cart: Cart, nextCartId: nat, nextItemId: nat)
    requires db.Valid()
    requires CartsValid(db.carts[userId := cart], nextCartId, nextItemId)
    modifies db
    ensures db.Valid()
    ensures db.carts == old(db.carts)[userId := cart]
    ensures db.nextCartId == nextCartId && db.nextItemId == nextItemId
    ensures db.books == old(db.books) && db.orders == old(db.orders) && db.users == old(db.users)
    ensures db.nextBookId == old(db.nextBookId) && db.nextOrderId == old(db.nextOrderId)
    ensures db.nextUserId == old(db.nextUserId)
  {
    db.carts, db.nextCartId, db.nextItemId := db.carts[userId := cart], nextCartId, nextItemId;
  }

  /**
    Adds `quantity` of a book to the user's cart. An unknown book fails with
    BookNotFound and a failed cart lookup (other than not-found, given by
    `lookupFails`) fails with StoreFailure; neither changes anything.
    Otherwise the user's cart is created when missing (with the next cart
    id), its lines become the merged lines, and nothing else changes.
   */
  method AddToCart(db: Store, userId: nat, bookId: nat, quantity: int, lookupFails: bool)
    returns (r: Outcome)
    requires db.Valid()
    modifies db
    ensures db.Valid()
    ensures bookId !in old(db.books) ==> r == Fail(BookNotFound) && unchanged(db)
    ensures bookId in old(db.books) && lookupFails ==> r == Fail(StoreFailure) && unchanged(db)
    ensures bookId in old(db.books) && !lookupFails ==>
      var cartId := if userId in old(db.carts) then old(db.carts)[userId].id else old(db.nextCartId);
      var oldItems := if userId in old(db.carts) then old(db.carts)[userId].items else [];
      && r == Pass
      && db.carts == old(db.carts)[userId := Cart(cartId, userId, MergedLines(oldItems, bookId, quantity, old(db.nextItemId)))]
      && db.nextCartId == (if userId in old(db.carts) then old(db.nextCartId) else old(db.nextCartId) + 1)
      && db.nextItemId == (if LineFor(oldItems, bookId).None? then old(db.nextItemId) + 1 else old(db.nextItemId))
      && db.books == old(db.books) && db.orders == old(db.orders) && db.users == old(db.users)
      && db.nextBookId == old(db.nextBookId) && db.nextOrderId == old(db.nextOrderId)
      && db.nextUserId == old(db.nextUserId)
  {
    if bookId !in db.books {
      return Fail(BookNotFound);
    }
    if lookupFails {
      return Fail(StoreFailure);
    }
    // Get the cart, or make the one to create.
    var cart: Cart;
    var nextCartId := db.nextCartId;
    if userId in db.carts {
      cart := db.carts[userId];
    } else {
      cart := Cart(nextCartId, userId, []);
      nextCartId := nextCartId + 1;
    }
    // Merge the quantity into the line for the book, or add a line.
    var nextItemId := db.nextItemId;
    var items: seq<CartItem>;
    var found := FindLine(cart.items, bookId);
    match found {
      case Some(k) =>
        var item := cart.items[k];
        item := item.(quantity := item.quantity + quantity);
        if item.quantity <= 0 {
          items := cart.items[..k] + cart.items[k + 1..];
        } else {
          items := cart.items[k := item];
        }
      case None =>
        items := cart.items + [CartItem(nextItemId, bookId, quantity)];
        nextItemId := nextItemId + 1;
    }
    assert items == MergedLines(cart.items, bookId, quantity, db.nextItemId);
    MergedLinesNoDuplicates(cart.items, bookId, quantity, db.nextItemId);
    CartsValidAfterPut(db.carts, db.nextCartId, db.nextItemId, nextCartId, nextItemId,
                       userId, cart.(items := items));
    PutCart(db, userId, cart.(items := items), nextCartId, nextItemId);
    r := Pass;
  }

  /** The user's cart, or the store's not-found error when the user has none. */
  function GetCart(db: Store, userId: nat): (r: Result<Cart>)
    reads db
    requires db.Valid()
    ensures r.Success? <==> userId in db.carts
    ensures r.Success? ==> r.value == db.carts[userId] && r.value.userId == userId
    ensures r.Failure? ==> r.error == RecordNotFound
  {
    if userId in db.carts then Success(db.carts[userId]) else Failure(RecordNotFound)
  }
}
