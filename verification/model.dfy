/**
  The records of the book shop (internal/model) as values, the error
  conditions its services report, and the result wrappers they return.

  Money is counted in integer cents, so an order total is an exact sum.
  Quantities and stock are unbounded integers: nothing in the services
  forces them to be positive.
 */
module Model {

  datatype Option<+T> = None | Some(value: T)

  datatype Result<+T> = Success(value: T) | Failure(error: Error)

  /** What an operation that returns only an error returns. */
  datatype Outcome = Pass | Fail(error: Error)

  /** The error conditions the services distinguish. */
  datatype Error =
    | CartEmpty                    // "cart is empty"
    | InsufficientStock(title: string)  // "insufficient stock for book: <title>"
    | RecordNotFound               // the store's own not-found error
    | BookNotFound                 // "book not found"
    | UserAlreadyExists            // "user already exists"
    | InvalidCredentials           // "invalid credentials"
    | HashFailure                  // the password hasher failed
    | TokenFailure                 // the token signer failed
    | StoreFailure                 // any other failure reported by the store

  /** The range of Go's 64-bit `int`, which quantities and stock have in the code. */
  const Int64Min: int := -0x8000_0000_0000_0000
  const Int64Max: int := 0x7FFF_FFFF_FFFF_FFFF

  /** Two's-complement wrap-around of an integer result into the 64-bit range. */
  function Wrap64(x: int): (r: int)
    ensures Int64Min <= r <= Int64Max
    ensures (r - x) % 0x1_0000_0000_0000_0000 == 0
    ensures Int64Min <= x <= Int64Max ==> r == x
  {
    (x - Int64Min) % 0x1_0000_0000_0000_0000 + Int64Min
  }

  datatype Book = Book(
    id: nat,
    title: string,
    author: string,
    description: string,
    price: int,   // cents
    stock: int)

  /** One line of a cart: a wanted quantity of one book. */
  datatype CartItem = CartItem(id: nat, bookId: nat, quantity: int)

  /** A user's cart; its lines are kept in the order they were added. */
  datatype Cart = Cart(id: nat, userId: nat, items: seq<CartItem>)

  datatype OrderStatus = Pending | Completed | Cancelled

  /** One line of an order, with the unit price captured at checkout. */
  datatype OrderItem = OrderItem(bookId: nat, quantity: int, price: int)

  datatype Order = Order(
    id: nat,
    userId: nat,
    addressId: nat,
    amount: int,  // cents
    status: OrderStatus,
    items: seq<OrderItem>)

  /** Roles are free-form strings; these two are the ones the system names. */
  const RoleAdmin: string := "ADMIN"
  const RoleUser: string := "USER"

  datatype User = User(id: nat, name: string, email: string, password: string, role: string)

  /** The sum of price times quantity over order lines. */
  function Amount(items: seq<OrderItem>): int
  {
    if items == [] then 0
    else Amount(items[..|items| - 1]) + items[|items| - 1].price * items[|items| - 1].quantity
  }

  /** The total quantity that cart lines ask of one book. */
  function Ordered(lines: seq<CartItem>, bookId: nat): int
  {
    if lines == [] then 0
    else
      var last := lines[|lines| - 1];
      Ordered(lines[..|lines| - 1], bookId) + (if last.bookId == bookId then last.quantity else 0)
  }

  /** True when some line asks for the given book. */
  predicate Mentions(lines: seq<CartItem>, bookId: nat)
  {
    exists k :: 0 <= k < |lines| && lines[k].bookId == bookId
  }
}
