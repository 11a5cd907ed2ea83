# book-backend: a verified model of the bookstore core

This project models the core of book-backend, a bookstore REST backend.
The core covers:

- the book catalogue (create, update, delete, get, list);
- the per-user shopping cart (add a quantity of a book, read the cart);
- signup and login;
- the two request gates in front of the protected routes: authentication by bearer token, and the role check;
- order placement, which is the heart of the system.

Order placement takes the caller's cart and runs one transaction over its lines:

- Each line re-reads its book.
- A missing book or a stock below the wanted quantity aborts the whole transaction.
- Otherwise the line's quantity comes off the stock, and an order line records the book, the quantity and the price at that moment.
- After the last line, one PENDING order is stored with the total of price times quantity, and the cart's lines are deleted.

The whole database is one object, `Database.Store`:

- the books table (a map from id to book);
- the carts table (a map from the owning user's id to the cart, with its lines in order);
- the orders and users tables (sequences in insertion order);
- the id counters.

Every operation that writes the database is a module-level method that takes the store as a parameter, modifies it, and states its complete new state in its postcondition.
The checkout loop is written twice:

- once as a specification: `Checkout.Run`, a left fold of one `Step` per cart line;
- once as the loop itself: `OrderRepository.RunCheckout`, proved equal to `Run`.

The lemmas about `Run` state what a successful checkout leaves behind, and exactly when and with which error a checkout fails.

Some facts about the code that the model keeps as they are:

- The service's `PlaceOrder` (internal/service/order_service.go:26-87) inlines the same transaction as the repository's `PlaceOrderTransaction`, step for step. The model writes the transaction once, and `OrderService.PlaceOrder` calls it with status PENDING and the cart's id.
- Neither quantities nor stock are checked for sign anywhere. A line with a negative quantity passes the stock check whenever the stock is at least that quantity, which is always the case when the stock is not negative, and it raises the stock. A line with quantity zero passes when the stock is not negative and leaves the stock as it was.
- Adding a book that is not yet in the cart appends a line with the quantity as given, even zero or a negative one. Merging into an existing line, by contrast, deletes the line when its quantity drops to zero or below.

## Model

| member | source | states |
|---|---|---|
| Model.Wrap64 | internal/repository/order_repository.go:61 | a 64-bit wrapped result lies in the 64-bit range, differs from the exact result by a multiple of 2^64, and equals it when it fits |
| Checkout.RunFailurePersists | internal/repository/order_repository.go:49-58 | once the lines up to some point fail, the whole checkout fails with that same error (the loop returns at the first error) |
| Checkout.RunBooks | internal/repository/order_repository.go:56-64 | a successful checkout keeps every book and all its fields except stock, and each book's stock drops by exactly the quantity the cart's lines ask of it, with repeated lines accumulating |
| Checkout.RunItems | internal/repository/order_repository.go:66-73 | a successful checkout makes one order line per cart line, in cart order, with the line's book and quantity and the book's price read at checkout |
| Checkout.RunTotal | internal/repository/order_repository.go:66-67 | the total of a successful checkout is the sum of price times quantity over its order lines |
| Checkout.RunStockNonNegative | internal/repository/order_repository.go:56-61 | after a successful checkout no book a line asked for has negative stock |
| Checkout.RunSucceedsIff | internal/repository/order_repository.go:49-73 | a checkout succeeds if and only if every line's book exists and its stock, less what earlier lines of the cart took, covers the line's quantity |
| Checkout.RunFailsAtFirstInfeasible | internal/repository/order_repository.go:52-58 | a failing checkout reports the error of its first unservable line: not-found for a missing book, insufficient stock with that book's title otherwise |
| Checkout.NoOversell | internal/repository/order_repository.go:56-61 | a successful checkout never takes more of a book than the book had in stock |
| Checkout.RunKeepsStockNonNegative | internal/repository/order_repository.go:56-61 | on a catalogue with no negative stock, a successful checkout leaves no negative stock |
| Checkout.SerialCheckoutsNeverOversell | internal/repository/order_repository.go:50-61 | two checkouts committed one after the other together take no more of any book than it had, so of two orders for the last copy the second fails |
| Checkout.StepAsWritten | internal/repository/order_repository.go:52-73 | the loop step as the code computes it on 64-bit integers: it passes exactly when the step succeeds, and agrees with it whenever the new stock fits in 64 bits |
| Checkout.StockWrapsNegative | internal/repository/order_repository.go:56-61 | a stock of 5 and a line quantity of -2^63 pass the guard, and the 64-bit decrement stores a negative stock where the unbounded step stores 5 + 2^63 |
| OrderRepository.RunCheckout | internal/repository/order_repository.go:46-73 | the loop over the cart lines computes exactly the checkout specification: the same new stock, order lines and total, or the same first error |
| OrderRepository.ClearCart | internal/repository/order_repository.go:84-86 | deleting the lines of one cart empties exactly the cart with that id and leaves every other cart as it was |
| OrderRepository.Commit | internal/repository/order_repository.go:75-86 | the commit stores the new books table, appends the order under the next order id, empties the cart with the given id, changes nothing else and keeps every table invariant |
| OrderRepository.PlaceOrderTransaction | internal/repository/order_repository.go:43-90 | on error, that error is returned and nothing changes (rollback); on success, the stock is the checkout's, one order with the next id, the given status, the computed lines and total equal to their amount is appended, the cart's lines are gone, everything else is unchanged, and every referenced book's stock is non-negative |
| OrderRepository.OrdersOf | internal/repository/order_repository.go:25-32 | the orders kept are exactly those of the table owned by the user, each as many times as it is stored and no more |
| OrderRepository.FindByUserID | internal/repository/order_repository.go:25-32 | an order is found if and only if it is stored and belongs to the user, and each such order is returned as many times as it is stored |
| OrderService.PlaceOrder | internal/service/order_service.go:26-87 | a missing or empty cart gives "cart is empty" and changes nothing; otherwise a failed checkout returns its error and changes nothing, and a successful one stores one PENDING order for the user and address with the checkout's lines and total, takes the stock, empties exactly this user's cart, advances only the order id counter and leaves the users table as it was |
| OrderService.GetOrders | internal/service/order_service.go:89-91 | the user's orders are exactly the stored orders owned by the user, each as many times as it is stored |
| CartService.FindLine | internal/service/cart_service.go:44 | the position found holds a line for the book and no earlier line does; none is found only when no line is for the book |
| CartService.LineFor | internal/service/cart_service.go:44-45 | the line found is in the cart and is for the book; none means no line is for the book |
| CartService.MergedLinesAsWritten | internal/service/cart_service.go:43-60 | the merge as the code computes it on 64-bit integers agrees with the unbounded merge whenever the summed quantity fits in 64 bits |
| CartService.MergeWrapsAndRemoves | internal/service/cart_service.go:47-49 | adding 1 to a line of 2^63 - 1 copies wraps the sum to -2^63, so the code deletes the line, where the unbounded merge keeps it with 2^63 copies |
| CartService.MergedLinesNoDuplicates | internal/service/cart_service.go:43-60 | adding to a cart never creates a second line for the same book |
| CartService.MergedLinesLine | internal/service/cart_service.go:43-60 | after adding, the book's line has the old quantity plus the added one, or is removed when that sum is zero or below, or is a new line with the given quantity when there was none |
| CartService.MergedLinesKeepsPositive | internal/service/cart_service.go:47-51 | adding a positive quantity to a line that holds a positive quantity keeps the line, with the quantities summed |
| CartService.MergedLinesOthers | internal/service/cart_service.go:43-60 | adding to a cart leaves the line of every other book as it was |
| CartService.CartsValidAfterPut | internal/service/cart_service.go:31-41 | storing a user's cart with its own id and distinct books keeps every cart table invariant (one cart per user, distinct cart ids) |
| CartService.PutCart | internal/service/cart_service.go:34-60 | storing the user's cart and moving the id counters changes nothing else and keeps every table invariant |
| CartService.AddToCart | internal/service/cart_service.go:23-61 | an unknown book gives "book not found" and a failed cart lookup its error, neither changing anything; otherwise the user's cart, created under the next id when missing, gets the merged lines and nothing else changes |
| CartService.GetCart | internal/service/cart_service.go:63-65 | the cart is found if and only if the user has one, and it is that user's; otherwise not-found |
| BookService.CreateBook | internal/service/book_service.go:18-27 | a new book with the given fields is stored under a fresh id and nothing else changes |
| BookService.UpdateBook | internal/service/book_service.go:29-42 | an unknown id gives "book not found" and changes nothing; otherwise the book's fields are overwritten, keeping its id, and nothing else (stored orders included) changes |
| BookService.DeleteBook | internal/service/book_service.go:44-46 | the book is removed, if present, and nothing else changes |
| BookService.GetBook | internal/service/book_service.go:48-50 | the book is found if and only if it is stored, and it carries the id asked for; otherwise not-found |
| BookService.BooksBelow | internal/service/book_service.go:52-54 | the list holds exactly the stored books with ids below the bound, in strictly ascending id order |
| BookService.ListBooks | internal/service/book_service.go:52-54 | the list holds exactly the stored books, each once, in ascending id order |
| AuthService.FindByEmail | internal/service/auth_service.go:21 | a user found is stored and has the email; none found means no stored user has it |
| AuthService.FindByEmailAfterAppend | internal/service/auth_service.go:21-43 | storing a user changes the lookup only for its email, and only when that email was free |
| AuthService.EffectiveRole | internal/service/auth_service.go:31-34 | an empty role becomes USER, and a role that was given is kept |
| AuthService.Signup | internal/service/auth_service.go:20-44 | a taken email gives "user already exists" and a failed hash its error, neither changing anything; otherwise one user with the hash as password and the role defaulted to USER is appended under the next id, and the email now finds it |
| AuthService.Login | internal/service/auth_service.go:46-57 | an unknown email and a wrong password both give "invalid credentials"; a known email with a matching password gives the token issued for the user's id and role, or the token error when issuing fails |
| AuthService.LoginAfterSignup | internal/service/auth_service.go:20-57 | right after signup, login with that email succeeds exactly when the password matches the stored hash and a token can be issued, and returns that token |
| AuthMiddleware.SplitPiecesFree | internal/middleware/auth_middleware.go:21 | no piece of the split header contains a space |
| AuthMiddleware.SplitJoin | internal/middleware/auth_middleware.go:21 | the pieces of the split header joined back with spaces give the header |
| AuthMiddleware.SplitTwo | internal/middleware/auth_middleware.go:21-22 | "a b" with no space in a or b splits into exactly the two pieces a and b |
| AuthMiddleware.BearerTokenIff | internal/middleware/auth_middleware.go:21-28 | a header is accepted if and only if it is "Bearer " followed by a token without spaces, and that remainder is the token validated |
| AuthMiddleware.Authenticate | internal/middleware/auth_middleware.go:12-39 | an empty header, a header of the wrong form and a token that does not validate each abort with 401; a header "Bearer <token>" whose token validates always continues the chain, with user_id and role set from the token's claims |
| AuthMiddleware.RequireRole | internal/middleware/auth_middleware.go:41-51 | the chain continues, with the context untouched, if and only if a role is set and equals the required one; otherwise it aborts with 403 |
| AuthMiddleware.AuthenticatedRole | internal/middleware/auth_middleware.go:12-51 | the authentication gate followed by the role gate lets a request through exactly when the header is "Bearer " plus a space-free token that validates to claims whose role is the required one |

## Left out

- Row locks and concurrency: the row lock on each book and the transaction's isolation are not modelled. The database is one object changed by one operation at a time, and the lemma about two checkouts covers them committed one after the other only. Nothing is claimed about deadlock freedom.
- Money: prices and amounts are float64 in the code and whole cents (unbounded integers) here, so rounding of the float sum is not modelled. Unsigned ids are unbounded naturals.
- Object-relational mapping details: soft delete, timestamps, eager loading of the book into cart and order lines, the ids of order lines, and the PENDING default of the status column. A deleted book is simply absent from the books table.
- RunStockNonNegative: holds for unbounded integers only. The code keeps stock and quantities in 64-bit integers, and a line quantity near -2^63 makes the stock decrement wrap around, so the code can store a negative stock (see Findings).
- RunKeepsStockNonNegative: holds for unbounded integers only, for the same 64-bit wrap-around of the stock decrement.
- PlaceOrderTransaction: its clause that every referenced book's stock is non-negative holds for unbounded integers only, for the same 64-bit wrap-around.
- Step, RunBooks, MergedLines and AddToCart compute on unbounded integers. The 64-bit wrap-around of the stock decrement and of the merged cart quantity is modelled only in `StepAsWritten` and `MergedLinesAsWritten`, which the rest of the model does not use.
- PlaceOrder: in the code, a cart lookup that fails for any reason, not only "not found", is reported as "cart is empty". The model has no input for a failed lookup, so only a missing or an empty cart gives `CartEmpty`.
- Store-read failures: the model's lookups never fail. In the code, `Signup` carries on when the email lookup fails, `Login` reports invalid credentials for any lookup error, `UpdateBook` and `AddToCart` report "book not found" for any error of the book lookup, and `AddToCart` appends a new line for any error of the line lookup. In the model each of these paths is the not-found case.
- ListBooks and BooksBelow return the books in ascending id order, which is the model's choice. The code's query has no ORDER BY (internal/repository/book_repository.go:37-43), so the code returns the rows in whatever order the database stores them. Of their contracts, the code guarantees only that each stored book appears exactly once, which the strictly ascending ids imply.
- RunFailsAtFirstInfeasible, RunItems and RunCheckout take the cart's lines in insertion order. The code loads them without an ORDER BY (internal/repository/cart_repository.go:19), so the order in which checkout visits them is whatever the database returns, and with it which error comes first and the order of the order lines. The model also updates a merged cart line in its place in that order.
- Store-write failures: every save, create and delete is modelled as succeeding, except the cart lookup in `AddToCart`, whose non-not-found error is the `lookupFails` parameter. The failure of the final order insert or cart delete inside the transaction would roll back like a checkout error; it is not modelled.
- Password hashing and tokens: bcrypt and JWT are not part of this model. The hash a signup stores is a parameter, since the salt is random. The password check and token issuance are given functions, and token validation (signature, expiry) is a given function from token to claims.
- The HTTP controllers, routing, request binding, logging and the repositories' other pass-through queries are not part of this model.
- `GetAllOrders` and `FindAllOrders` return the whole orders table unchanged (`Store.orders`), so they have no member of their own.
- The error texts and the HTTP responses the gates write are not modelled. Errors are the `Model.Error` values, and the gates' verdicts carry only the status code.
- The service's `PlaceOrder` and the repository's `PlaceOrderTransaction` are the same transaction written twice in the code; the model writes it once.

## Findings

| source | as written | input that shows it | evidently intended | confidence | as-written member | corrected member |
|---|---|---|---|---|---|---|
| internal/repository/order_repository.go:56-61 | the stock guard compares 64-bit integers and the stock decrement wraps around | a book with stock 5 and a cart line with quantity -2^63: the guard passes and the stored stock is 5 - 2^63 | the stock decrement never wraps, so a checkout on non-negative stock leaves non-negative stock | not executed | Checkout.StockWrapsNegative | Checkout.RunKeepsStockNonNegative |
| internal/service/cart_service.go:47-49 | the merged cart quantity is a 64-bit sum that wraps around before the zero test | a line holding 2^63 - 1 copies and an added quantity of 1: the sum wraps to -2^63 and the line is deleted | the sum never wraps, so adding a positive quantity to a line that holds a positive quantity never deletes it | not executed | CartService.MergeWrapsAndRemoves | CartService.MergedLinesKeepsPositive |
