/** The entities of the store application, their column ranges and the
    constraints the database schema keeps (store/models.py). */
module Models {

  // ---------------------------------------------------------------------
  // Errors and replies
  // ---------------------------------------------------------------------

  /** The ways a request can fail. */
  datatype Error =
    | NotFound                     // `DoesNotExist`: a 404 from a view's lookup, a server error when uncaught in a serializer
    | Invalid(message: string)     // a serializer `ValidationError` (HTTP 400)
    | NotAllowed(message: string)  // a view's explicit HTTP 405 refusal
    | Protected                    // `ProtectedError` raised by an `on_delete=PROTECT` reference
    | IntegrityViolation           // a foreign-key, primary-key or unique constraint rejects a row
    | OutOfRange                   // a value does not fit its column
    | MultipleObjectsReturned      // a `.get(...)` matched more than one row

  datatype Option<+T> = None | Some(value: T)

  datatype Result<+T> = Ok(value: T) | Err(error: Error) {
    predicate IsFailure() {
      Err?
    }

    function PropagateFailure<U>(): Result<U>
      requires Err?
    {
      Err(error)
    }

    function Extract(): T
      requires Ok?
    {
      value
    }
  }

  /** What a request leaves behind: the store after it, and its outcome. */
  datatype Reply<+T> = Reply(store: Store, result: Result<T>)

  /** Commit the work of a transaction, or roll back to `s` when it failed. */
  function Commit<T>(s: Store, work: Result<(Store, T)>): (r: Reply<T>)
    ensures r.result.Err? ==> r.store == s
    ensures work.Ok? ==> r.result == Ok(work.value.1) && r.store == work.value.0
    ensures work.Err? ==> r.result == Err(work.error)
  {
    match work
    case Ok((s', v)) => Reply(s', Ok(v))
    case Err(e) => Reply(s, Err(e))
  }

  // ---------------------------------------------------------------------
  // Column types
  // ---------------------------------------------------------------------

  type CategoryId = nat
  type BookId = nat
  /** `Cart.cart_id` is a random UUID: an opaque number chosen by the caller. */
  type CartId = nat
  type CartItemId = nat
  type CustomerId = nat
  type UserId = nat
  type OrderId = nat
  type OrderItemId = nat

  /** `SmallIntegerField`: a signed 16-bit column. */
  const SmallIntMin: int := -32768
  const SmallIntMax: int := 32767

  /** `DecimalField(max_digits=6, decimal_places=2)` held as cents: 9999.99 at most. */
  const MaxPriceCents: int := 999999

  predicate IsSmallInt(x: int) {
    SmallIntMin <= x <= SmallIntMax
  }

  predicate IsPrice(cents: int) {
    -MaxPriceCents <= cents <= MaxPriceCents
  }

  /** `Order.status`, a one-character column restricted to three choices. */
  datatype Status = Pending | Complete | Failed

  /** The status a new order gets when none is given. */
  const DefaultStatus: Status := Pending

  /** The stored one-character code of a status. */
  function StatusCode(st: Status): (code: char)
    ensures code in {'P', 'C', 'F'}
  {
    match st
    case Pending => 'P'
    case Complete => 'C'
    case Failed => 'F'
  }

  /** The choice validation of the status field: only the three codes parse. */
  function ParseStatus(code: char): (r: Option<Status>)
    ensures forall st: Status :: r == Some(st) <==> StatusCode(st) == code
    ensures r.None? <==> code !in {'P', 'C', 'F'}
  {
    if code == 'P' then Some(Pending)
    else if code == 'C' then Some(Complete)
    else if code == 'F' then Some(Failed)
    else None
  }

  // ---------------------------------------------------------------------
  // Rows
  // ---------------------------------------------------------------------

  /** `featured` is a nullable reference to a book (`on_delete=SET_NULL`). */
  datatype Category = Category(featured: Option<BookId>)

  /** `price` in cents; `category` is `on_delete=PROTECT`. */
  datatype Book = Book(price: int, category: CategoryId)

  /** The profile of one user account. */
  datatype Customer = Customer(user: UserId)

  /** Keyed by its customer, so a customer has at most one. */
  datatype Address = Address(province: string, city: string, street: string, detail: string)

  /** Both references are `on_delete=CASCADE`; `quantity` is a plain small integer. */
  datatype CartItem = CartItem(cart: CartId, book: BookId, quantity: int)

  /** `customer` is `on_delete=PROTECT`. */
  datatype Order = Order(customer: CustomerId, status: Status)

  /** `order` and `book` are `on_delete=PROTECT`; `unitPrice` is a copy in cents. */
  datatype OrderItem = OrderItem(order: OrderId, book: BookId, quantity: int, unitPrice: int)

  /** The database. Tables with auto-increment keys carry the next key to hand out. */
  datatype Store = Store(
    categories: map<CategoryId, Category>,
    books: map<BookId, Book>,
    customers: map<CustomerId, Customer>,
    addresses: map<CustomerId, Address>,
    carts: set<CartId>,
    cartItems: map<CartItemId, CartItem>,
    orders: map<OrderId, Order>,
    orderItems: map<OrderItemId, OrderItem>,
    nextCustomer: nat,
    nextCartItem: nat,
    nextOrder: nat,
    nextOrderItem: nat)

  // ---------------------------------------------------------------------
  // Schema constraints
  // ---------------------------------------------------------------------

  /** Every stored value fits its column. */
  ghost predicate ColumnsInRange(s: Store) {
    && (forall b :: b in s.books ==> IsPrice(s.books[b].price))
    && (forall k :: k in s.cartItems ==> IsSmallInt(s.cartItems[k].quantity))
    && (forall k :: k in s.orderItems ==> IsSmallInt(s.orderItems[k].quantity))
    && (forall k :: k in s.orderItems ==> IsPrice(s.orderItems[k].unitPrice))
  }

  /** Auto-increment keys already handed out are below the counter. */
  ghost predicate KeysBelowCounters(s: Store) {
    && (forall k :: k in s.customers ==> k < s.nextCustomer)
    && (forall k :: k in s.cartItems ==> k < s.nextCartItem)
    && (forall k :: k in s.orders ==> k < s.nextOrder)
    && (forall k :: k in s.orderItems ==> k < s.nextOrderItem)
  }

  /** Every foreign key names an existing row. */
  ghost predicate ReferencesResolve(s: Store) {
    && (forall b :: b in s.books ==> s.books[b].category in s.categories)
    && (forall c :: c in s.categories && s.categories[c].featured.Some? ==> s.categories[c].featured.value in s.books)
    && (forall c :: c in s.addresses ==> c in s.customers)
    && (forall k :: k in s.cartItems ==> s.cartItems[k].cart in s.carts && s.cartItems[k].book in s.books)
    && (forall o :: o in s.orders ==> s.orders[o].customer in s.customers)
    && (forall k :: k in s.orderItems ==> s.orderItems[k].order in s.orders && s.orderItems[k].book in s.books)
  }

  /** `Customer.user` is one-to-one. */
  ghost predicate OneCustomerPerUser(s: Store) {
    forall c1, c2 :: c1 in s.customers && c2 in s.customers && s.customers[c1].user == s.customers[c2].user ==> c1 == c2
  }

  /** `unique_together = [['order', 'book']]` on order items. */
  ghost predicate OrderBookUnique(s: Store) {
    forall k1, k2 :: k1 in s.orderItems && k2 in s.orderItems
      && s.orderItems[k1].order == s.orderItems[k2].order && s.orderItems[k1].book == s.orderItems[k2].book
      ==> k1 == k2
  }

  /** Everything the database itself guarantees about its contents. */
  ghost predicate Valid(s: Store) {
    && ColumnsInRange(s)
    && KeysBelowCounters(s)
    && ReferencesResolve(s)
    && OneCustomerPerUser(s)
    && OrderBookUnique(s)
  }

  /** At most one cart item per (cart, book). No database constraint states
      this: it holds only as long as every writer merges. */
  ghost predicate MergeUnique(s: Store) {
    forall k1, k2 :: k1 in s.cartItems && k2 in s.cartItems
      && s.cartItems[k1].cart == s.cartItems[k2].cart && s.cartItems[k1].book == s.cartItems[k2].book
      ==> k1 == k2
  }

  /** A database with no rows. */
  const Empty: Store := Store(map[], map[], map[], map[], {}, map[], map[], map[], 0, 0, 0, 0)
}
