/** Orders: who sees which, placing an order from a cart in one transaction,
    status updates, and the refusal to delete. */
module Orders {
  import opened Models
  import opened Query
  import opened Carts
  import opened Customers

  /** Validation of an unknown cart. */
  const NoCartMessage := "NO cart with the given ID!"
  /** Validation of a cart without items. */
  const EmptyCartMessage := "Cart is Empty."
  /** A status code outside the choices. */
  const InvalidChoiceMessage := "not a valid choice"
  /** The refusal to delete any order. */
  const OrderDeleteMessage := "Orders can not be Deleted!"

  /** The requesting account, as the views see it. */
  datatype User = User(id: UserId, isStaff: bool)

  // ---------------------------------------------------------------------
  // Visibility
  // ---------------------------------------------------------------------

  /** The order's customer profile belongs to `user` (`customer__user_id=user`). */
  predicate OwnedBy(s: Store, ord: Order, user: UserId) {
    ord.customer in s.customers && s.customers[ord.customer].user == user
  }

  /** The queryset of the order view: every order for staff, otherwise the
      orders whose customer belongs to the requester. */
  function VisibleOrders(s: Store, u: User): (rows: seq<OrderId>)
    ensures Increasing(rows)
    ensures forall o :: o in rows ==> o in s.orders
    ensures forall o :: o in rows && !u.isStaff ==> OwnedBy(s, s.orders[o], u.id)
  {
    Select(s.orders, s.nextOrder, (ord: Order) => u.isStaff || OwnedBy(s, ord, u.id))
  }

  /** Staff see every order. */
  lemma StaffSeeEveryOrder(s: Store, u: User)
    requires KeysBelowCounters(s) && u.isStaff
    ensures forall o :: o in VisibleOrders(s, u) <==> o in s.orders
  {
  }

  /** A non-staff user sees exactly the orders of their own profile. */
  lemma VisibleOrdersOfCustomer(s: Store, u: User, c: CustomerId)
    requires Valid(s) && !u.isStaff && FindCustomer(s, u.id) == Ok(c)
    ensures forall o :: o in VisibleOrders(s, u) <==> o in s.orders && s.orders[o].customer == c
  {
  }

  /** A non-staff user without a profile sees nothing. */
  lemma VisibleOrdersWithoutProfile(s: Store, u: User)
    requires Valid(s) && !u.isStaff && FindCustomer(s, u.id).Err?
    ensures VisibleOrders(s, u) == []
  {
    FindCustomerExact(s, u.id);
    IncreasingUnique(VisibleOrders(s, u), []);
  }

  /** Two different non-staff users never see the same order. */
  lemma VisibleOrdersDisjoint(s: Store, u1: User, u2: User, o: OrderId)
    requires !u1.isStaff && !u2.isStaff && u1.id != u2.id
    ensures !(o in VisibleOrders(s, u1) && o in VisibleOrders(s, u2))
  {
  }

  // ---------------------------------------------------------------------
  // Placing an order
  // ---------------------------------------------------------------------

  /** The checks on the posted cart id, before any write. */
  function ValidateCart(s: Store, cart: CartId): (r: Result<()>)
    ensures r.Ok? <==> cart in s.carts && ListCartItems(s, cart) != []
    ensures cart !in s.carts ==> r == Err(Invalid(NoCartMessage))
    ensures cart in s.carts && ListCartItems(s, cart) == [] ==> r == Err(Invalid(EmptyCartMessage))
  {
    if cart !in s.carts then Err(Invalid(NoCartMessage))
    else if |ListCartItems(s, cart)| == 0 then Err(Invalid(EmptyCartMessage))
    else Ok(())
  }

  /** The order line copied from cart item `k`: the same book and quantity,
      and the book's price at this moment as the unit price. */
  function LineOf(s: Store, order: OrderId, k: CartItemId): OrderItem
    requires k in s.cartItems && s.cartItems[k].book in s.books
  {
    OrderItem(order, s.cartItems[k].book, s.cartItems[k].quantity, s.books[s.cartItems[k].book].price)
  }

  /** The order lines for the listed cart items, in their order; a cart item
      whose book does not resolve cannot be copied. */
  function Snapshot(s: Store, order: OrderId, rows: seq<CartItemId>): (r: Result<seq<OrderItem>>)
    ensures r.Ok? <==> Priced(s, rows)
    ensures r.Err? ==> r.error == IntegrityViolation
    ensures r.Ok? ==> |r.value| == |rows|
    ensures r.Ok? ==> forall i :: 0 <= i < |rows| ==> r.value[i] == LineOf(s, order, rows[i])
  {
    if Priced(s, rows) then Ok(seq(|rows|, i requires 0 <= i < |rows| => LineOf(s, order, rows[i])))
    else Err(IntegrityViolation)
  }

  /** `lines` stored under consecutive keys from `base` on. */
  function Placed(base: nat, lines: seq<OrderItem>): (m: map<OrderItemId, OrderItem>)
    ensures forall k :: k in m <==> base <= k < base + |lines|
    ensures forall k :: k in m ==> m[k] == lines[k - base]
  {
    IntervalMembers(base, |lines|);
    map k | k in Interval(base, |lines|) :: lines[k - base]
  }

  /** Two order lines for the same (order, book). */
  predicate SameSlot(a: OrderItem, b: OrderItem) {
    a.order == b.order && a.book == b.book
  }

  /** What the database demands of a batch of new order lines: values that
      fit their columns, references that resolve, free keys, and no
      (order, book) repeated within the batch or with a stored line. */
  predicate Insertable(s: Store, lines: seq<OrderItem>) {
    && (forall i :: 0 <= i < |lines| ==> IsSmallInt(lines[i].quantity) && IsPrice(lines[i].unitPrice))
    && (forall i :: 0 <= i < |lines| ==> lines[i].order in s.orders && lines[i].book in s.books)
    && (forall k :: k in s.orderItems ==> !(s.nextOrderItem <= k < s.nextOrderItem + |lines|))
    && (forall i, j :: 0 <= i < j < |lines| ==> !SameSlot(lines[i], lines[j]))
    && (forall k, i :: k in s.orderItems && 0 <= i < |lines| ==> !SameSlot(s.orderItems[k], lines[i]))
  }

  /** `OrderItem.objects.bulk_create(lines)`: a single statement inserting
      every line under the next keys. A value outside its column, a
      reference to a missing row, a key already taken or a repeated
      (order, book) rejects the statement as a whole. */
  function BulkCreate(s: Store, lines: seq<OrderItem>): (r: Result<Store>)
    ensures r.Err? ==> r.error == OutOfRange || r.error == IntegrityViolation
    ensures r.Ok? <==> Insertable(s, lines)
    ensures r.Ok? ==> forall i :: 0 <= i < |lines| ==> IsSmallInt(lines[i].quantity) && IsPrice(lines[i].unitPrice)
    ensures r.Ok? ==> forall i :: 0 <= i < |lines| ==> lines[i].order in s.orders && lines[i].book in s.books
    ensures r.Ok? ==> forall i, j :: 0 <= i < j < |lines| ==> !SameSlot(lines[i], lines[j])
    ensures r.Ok? ==> forall k, i :: k in s.orderItems && 0 <= i < |lines| ==> !SameSlot(s.orderItems[k], lines[i])
    ensures r.Ok? ==> r.value == s.(orderItems := s.orderItems + Placed(s.nextOrderItem, lines),
                                    nextOrderItem := s.nextOrderItem + |lines|)
    ensures r.Ok? ==> forall k :: k in s.orderItems ==> k !in Placed(s.nextOrderItem, lines)
  {
    if !(forall i :: 0 <= i < |lines| ==> IsSmallInt(lines[i].quantity) && IsPrice(lines[i].unitPrice)) then
      Err(OutOfRange)
    else if !(forall i :: 0 <= i < |lines| ==> lines[i].order in s.orders && lines[i].book in s.books) then
      Err(IntegrityViolation)
    else if exists k :: k in s.orderItems && s.nextOrderItem <= k < s.nextOrderItem + |lines| then
      Err(IntegrityViolation)
    else if exists i, j :: 0 <= i < j < |lines| && SameSlot(lines[i], lines[j]) then
      Err(IntegrityViolation)
    else if exists k, i :: k in s.orderItems && 0 <= i < |lines| && SameSlot(s.orderItems[k], lines[i]) then
      Err(IntegrityViolation)
    else
      Ok(s.(orderItems := s.orderItems + Placed(s.nextOrderItem, lines),
            nextOrderItem := s.nextOrderItem + |lines|))
  }

  /** The body of the transaction: find the requester's profile, save a new
      order for it, copy the cart's items into order lines, insert them, and
      delete the cart (its items go with it). */
  function PlaceOrderWork(s: Store, user: UserId, cart: CartId): (r: Result<(Store, OrderId)>)
    ensures r.Ok? ==> r.value.1 == s.nextOrder
  {
    var customer :- FindCustomer(s, user);
    var o := s.nextOrder;
    if o in s.orders then Err(IntegrityViolation)
    else CopyCart(SaveOrder(s, customer), o, cart)
  }

  /** `order.save()`: a pending order of `customer` under the next order key. */
  function SaveOrder(s: Store, customer: CustomerId): (s1: Store)
    ensures s1.orders.Keys == s.orders.Keys + {s.nextOrder} && s1.nextOrder == s.nextOrder + 1
    ensures s1.orders[s.nextOrder] == Order(customer, Pending)
    ensures forall o :: o in s.orders && o != s.nextOrder ==> s1.orders[o] == s.orders[o]
    ensures s1 == s.(orders := s1.orders, nextOrder := s1.nextOrder)
  {
    s.(orders := s.orders[s.nextOrder := Order(customer, DefaultStatus)], nextOrder := s.nextOrder + 1)
  }

  /** The rest of the transaction once order `o` is saved: copy the cart's
      items into lines of `o`, insert them, and delete the cart. */
  function CopyCart(s1: Store, o: OrderId, cart: CartId): (r: Result<(Store, OrderId)>)
    ensures r.Ok? ==> r.value.1 == o
  {
    var lines :- Snapshot(s1, o, ListCartItems(s1, cart));
    var s2 :- BulkCreate(s1, lines);
    Ok((DeleteCartRow(s2, cart), o))
  }

  /** The new order: the next key, status pending, the requester's profile. */
  ghost predicate OrderCreated(s: Store, t: Store, user: UserId, o: OrderId) {
    && o == s.nextOrder && o !in s.orders
    && o in t.orders && t.orders == s.orders[o := t.orders[o]]
    && t.orders[o].status == Pending && OwnedBy(s, t.orders[o], user)
    && t.nextOrder == o + 1
  }

  /** One new line per listed cart item, under the next keys and in the
      listed order, holding its book, its quantity and the book's price in
      `s`; the lines already stored are kept. */
  ghost predicate LinesCopied(s: Store, t: Store, rows: seq<CartItemId>, o: OrderId) {
    && Priced(s, rows)
    && t.nextOrderItem == s.nextOrderItem + |rows|
    && (forall k :: k in t.orderItems <==> k in s.orderItems || s.nextOrderItem <= k < t.nextOrderItem)
    && (forall k :: k in s.orderItems ==> t.orderItems[k] == s.orderItems[k])
    && (forall k :: s.nextOrderItem <= k < t.nextOrderItem ==>
          k in t.orderItems && t.orderItems[k] == LineOf(s, o, rows[k - s.nextOrderItem]))
  }

  /** The cart is deleted and its items with it; other items are kept. */
  ghost predicate CartConsumed(s: Store, t: Store, cart: CartId) {
    && t.carts == s.carts - {cart}
    && (forall k :: k in t.cartItems <==> k in s.cartItems && s.cartItems[k].cart != cart)
    && (forall k :: k in t.cartItems ==> t.cartItems[k] == s.cartItems[k])
  }

  /** What a successful placement leaves behind: a fresh pending order of
      the requester's profile, one line per item of the cart holding its
      book, its quantity and the book's price at that moment, the cart and
      its items gone, and nothing else changed. */
  ghost predicate PlacedFrom(s: Store, t: Store, user: UserId, cart: CartId, o: OrderId) {
    && cart in s.carts && ListCartItems(s, cart) != []
    && OrderCreated(s, t, user, o)
    && LinesCopied(s, t, ListCartItems(s, cart), o)
    && CartConsumed(s, t, cart)
    && t == s.(orders := t.orders, nextOrder := t.nextOrder, orderItems := t.orderItems,
               nextOrderItem := t.nextOrderItem, carts := t.carts, cartItems := t.cartItems)
  }

  /** POST on orders for the requesting user: validation, then the
      transaction, committed as a whole or rolled back as a whole. */
  function PlaceOrder(s: Store, user: UserId, cart: CartId): (r: Reply<OrderId>)
    ensures r.result.Err? ==> r.store == s
    ensures cart !in s.carts ==> r.result == Err(Invalid(NoCartMessage))
    ensures cart in s.carts && ListCartItems(s, cart) == [] ==> r.result == Err(Invalid(EmptyCartMessage))
  {
    match ValidateCart(s, cart)
    case Err(e) => Reply(s, Err(e))
    case Ok(_) => Commit(s, PlaceOrderWork(s, user, cart))
  }

  /** The states a successful placement passes through: `s1` after saving
      order `o` for `customer`, `s2` after inserting `lines`, `t` after
      deleting the cart. */
  ghost predicate Steps(s: Store, user: UserId, cart: CartId, customer: CustomerId, lines: seq<OrderItem>,
                        s1: Store, s2: Store, t: Store)
  {
    && FindCustomer(s, user) == Ok(customer)
    && s.nextOrder !in s.orders
    && s1 == SaveOrder(s, customer)
    && Snapshot(s1, s.nextOrder, ListCartItems(s, cart)) == Ok(lines)
    && BulkCreate(s1, lines) == Ok(s2)
    && t == DeleteCartRow(s2, cart)
  }

  /** A successful transaction went through its steps. */
  lemma WorkSteps(s: Store, user: UserId, cart: CartId)
    returns (customer: CustomerId, lines: seq<OrderItem>, s1: Store, s2: Store)
    requires PlaceOrderWork(s, user, cart).Ok?
    ensures Steps(s, user, cart, customer, lines, s1, s2, PlaceOrderWork(s, user, cart).value.0)
  {
    customer := FindCustomer(s, user).value;
    var o := s.nextOrder;
    s1 := SaveOrder(s, customer);
    WorkCopiesCart(s, user, cart, customer, s1);
    lines, s2 := CopyCartSteps(s1, o, cart);
  }

  /** Once the profile is found and the order saved, the transaction is the
      copy of the cart into that order; the order leaves the cart's listing
      as it was. */
  lemma WorkCopiesCart(s: Store, user: UserId, cart: CartId, customer: CustomerId, s1: Store)
    requires FindCustomer(s, user) == Ok(customer) && s.nextOrder !in s.orders
    requires s1 == SaveOrder(s, customer)
    ensures PlaceOrderWork(s, user, cart) == CopyCart(s1, s.nextOrder, cart)
    ensures ListCartItems(s1, cart) == ListCartItems(s, cart)
  {
    var r := FindCustomer(s, user);
    assert !r.IsFailure() && r.Extract() == customer;
    ListCartItemsFrame(s, s1, cart);
  }

  /** Saving an order leaves every cart's listing as it was. */
  lemma ListCartItemsFrame(s: Store, t: Store, cart: CartId)
    requires t.cartItems == s.cartItems && t.nextCartItem == s.nextCartItem
    ensures ListCartItems(t, cart) == ListCartItems(s, cart)
  {
  }

  /** A successful copy of the cart went through the snapshot and the insert. */
  lemma CopyCartSteps(s1: Store, o: OrderId, cart: CartId) returns (lines: seq<OrderItem>, s2: Store)
    requires CopyCart(s1, o, cart).Ok?
    ensures Snapshot(s1, o, ListCartItems(s1, cart)) == Ok(lines)
    ensures BulkCreate(s1, lines) == Ok(s2)
    ensures CopyCart(s1, o, cart) == Ok((DeleteCartRow(s2, cart), o))
  {
    lines := Snapshot(s1, o, ListCartItems(s1, cart)).value;
    s2 := BulkCreate(s1, lines).value;
  }

  /** A successful placement went through the steps of the transaction. */
  lemma PlaceOrderSteps(s: Store, user: UserId, cart: CartId)
    returns (customer: CustomerId, lines: seq<OrderItem>, s1: Store, s2: Store)
    requires PlaceOrder(s, user, cart).result.Ok?
    ensures cart in s.carts && ListCartItems(s, cart) != []
    ensures PlaceOrder(s, user, cart).result.value == s.nextOrder
    ensures Steps(s, user, cart, customer, lines, s1, s2, PlaceOrder(s, user, cart).store)
  {
    assert ValidateCart(s, cart).Ok?;
    customer, lines, s1, s2 := WorkSteps(s, user, cart);
  }

  /** The steps of the transaction, all accepted, commit it. */
  lemma StepsCommit(s: Store, user: UserId, cart: CartId, customer: CustomerId, lines: seq<OrderItem>,
                    s1: Store, s2: Store, t: Store)
    requires Steps(s, user, cart, customer, lines, s1, s2, t)
    ensures PlaceOrderWork(s, user, cart) == Ok((t, s.nextOrder))
  {
    WorkCopiesCart(s, user, cart, customer, s1);
  }

  /** A rejected insert of the order lines fails the transaction with its error. */
  lemma InsertFails(s: Store, user: UserId, cart: CartId, customer: CustomerId, lines: seq<OrderItem>, s1: Store)
    requires FindCustomer(s, user) == Ok(customer) && s.nextOrder !in s.orders
    requires s1 == SaveOrder(s, customer)
    requires Snapshot(s1, s.nextOrder, ListCartItems(s, cart)) == Ok(lines)
    requires BulkCreate(s1, lines).Err?
    ensures PlaceOrderWork(s, user, cart) == Err(BulkCreate(s1, lines).error)
  {
    WorkCopiesCart(s, user, cart, customer, s1);
    CopyCartInsertFails(s1, s.nextOrder, cart, lines);
  }

  lemma CopyCartInsertFails(s1: Store, o: OrderId, cart: CartId, lines: seq<OrderItem>)
    requires Snapshot(s1, o, ListCartItems(s1, cart)) == Ok(lines)
    requires BulkCreate(s1, lines).Err?
    ensures CopyCart(s1, o, cart) == Err(BulkCreate(s1, lines).error)
  {
  }

  lemma StepsCreateOrder(s: Store, user: UserId, cart: CartId, customer: CustomerId, lines: seq<OrderItem>,
                         s1: Store, s2: Store, t: Store)
    requires Steps(s, user, cart, customer, lines, s1, s2, t)
    ensures OrderCreated(s, t, user, s.nextOrder)
  {
  }

  /** Storing `lines` under the next keys keeps the lines already stored. */
  lemma PlacedKeeps(s: Store, t: Store, lines: seq<OrderItem>)
    requires forall k :: k in s.orderItems ==> k !in Placed(s.nextOrderItem, lines)
    requires t.orderItems == s.orderItems + Placed(s.nextOrderItem, lines)
    ensures forall k :: k in t.orderItems <==> k in s.orderItems || s.nextOrderItem <= k < s.nextOrderItem + |lines|
    ensures forall k :: k in s.orderItems ==> t.orderItems[k] == s.orderItems[k]
  {
  }

  /** Storing `lines` under the next keys puts line `i` under key `next + i`. */
  lemma PlacedLines(s: Store, t: Store, lines: seq<OrderItem>)
    requires t.orderItems == s.orderItems + Placed(s.nextOrderItem, lines)
    ensures forall k :: s.nextOrderItem <= k < s.nextOrderItem + |lines| ==>
      k in t.orderItems && t.orderItems[k] == lines[k - s.nextOrderItem]
  {
  }

  /** Storing the snapshot lines of `rows` under the next keys copies them. */
  lemma CopyLines(s: Store, t: Store, rows: seq<CartItemId>, o: OrderId, lines: seq<OrderItem>)
    requires Priced(s, rows) && |lines| == |rows|
    requires forall i :: 0 <= i < |rows| ==> lines[i] == LineOf(s, o, rows[i])
    requires forall k :: k in t.orderItems <==> k in s.orderItems || s.nextOrderItem <= k < s.nextOrderItem + |lines|
    requires forall k :: k in s.orderItems ==> t.orderItems[k] == s.orderItems[k]
    requires forall k :: s.nextOrderItem <= k < s.nextOrderItem + |lines| ==>
      k in t.orderItems && t.orderItems[k] == lines[k - s.nextOrderItem]
    requires t.nextOrderItem == s.nextOrderItem + |lines|
    ensures LinesCopied(s, t, rows, o)
  {
    forall k | s.nextOrderItem <= k < t.nextOrderItem
      ensures k in t.orderItems && t.orderItems[k] == LineOf(s, o, rows[k - s.nextOrderItem])
    {
      assert t.orderItems[k] == lines[k - s.nextOrderItem];
    }
  }

  lemma StepsCopyLines(s: Store, user: UserId, cart: CartId, customer: CustomerId, lines: seq<OrderItem>,
                       s1: Store, s2: Store, t: Store)
    requires Steps(s, user, cart, customer, lines, s1, s2, t)
    ensures LinesCopied(s, t, ListCartItems(s, cart), s.nextOrder)
  {
    var rows := ListCartItems(s, cart);
    var o := s.nextOrder;
    assert Priced(s1, rows);
    forall i | 0 <= i < |rows|
      ensures lines[i] == LineOf(s, o, rows[i])
    {
      assert lines[i] == LineOf(s1, o, rows[i]);
    }
    StoreLines(s, t, rows, o, lines);
  }

  /** Inserting the snapshot lines of `rows` under the next keys copies them. */
  lemma StoreLines(s: Store, t: Store, rows: seq<CartItemId>, o: OrderId, lines: seq<OrderItem>)
    requires Priced(s, rows) && |lines| == |rows|
    requires forall i :: 0 <= i < |rows| ==> lines[i] == LineOf(s, o, rows[i])
    requires forall k :: k in s.orderItems ==> k !in Placed(s.nextOrderItem, lines)
    requires t.orderItems == s.orderItems + Placed(s.nextOrderItem, lines)
    requires t.nextOrderItem == s.nextOrderItem + |lines|
    ensures LinesCopied(s, t, rows, o)
  {
    PlacedKeeps(s, t, lines);
    PlacedLines(s, t, lines);
    CopyLines(s, t, rows, o, lines);
  }

  lemma StepsConsumeCart(s: Store, user: UserId, cart: CartId, customer: CustomerId, lines: seq<OrderItem>,
                         s1: Store, s2: Store, t: Store)
    requires Steps(s, user, cart, customer, lines, s1, s2, t)
    ensures CartConsumed(s, t, cart)
  {
  }

  /** A successful placement did exactly what `PlacedFrom` describes. */
  lemma PlaceOrderPlaces(s: Store, user: UserId, cart: CartId)
    requires PlaceOrder(s, user, cart).result.Ok?
    ensures PlacedFrom(s, PlaceOrder(s, user, cart).store, user, cart, PlaceOrder(s, user, cart).result.value)
  {
    var customer, lines, s1, s2 := PlaceOrderSteps(s, user, cart);
    var t := PlaceOrder(s, user, cart).store;
    StepsCreateOrder(s, user, cart, customer, lines, s1, s2, t);
    StepsCopyLines(s, user, cart, customer, lines, s1, s2, t);
    StepsConsumeCart(s, user, cart, customer, lines, s1, s2, t);
  }

  // ---------------------------------------------------------------------
  // Consistency of a placement
  // ---------------------------------------------------------------------

  /** A stored line and a new line never share an (order, book). */
  lemma PlacedOldNew(s: Store, t: Store, lines: seq<OrderItem>, k1: OrderItemId, k2: OrderItemId)
    requires t.orderItems == s.orderItems + Placed(s.nextOrderItem, lines)
    requires forall k, i :: k in s.orderItems && 0 <= i < |lines| ==> !SameSlot(s.orderItems[k], lines[i])
    requires k1 in s.orderItems && k1 in t.orderItems && t.orderItems[k1] == s.orderItems[k1]
    requires k2 in t.orderItems && k2 !in s.orderItems
    ensures !SameSlot(t.orderItems[k1], t.orderItems[k2])
  {
    assert k2 in Placed(s.nextOrderItem, lines);
    assert t.orderItems[k2] == lines[k2 - s.nextOrderItem];
  }

  /** Two new lines under different keys never share an (order, book). */
  lemma PlacedNewNew(s: Store, t: Store, lines: seq<OrderItem>, k1: OrderItemId, k2: OrderItemId)
    requires t.orderItems == s.orderItems + Placed(s.nextOrderItem, lines)
    requires forall i, j :: 0 <= i < j < |lines| ==> !SameSlot(lines[i], lines[j])
    requires k1 in t.orderItems && k1 !in s.orderItems
    requires k2 in t.orderItems && k2 !in s.orderItems && k1 != k2
    ensures !SameSlot(t.orderItems[k1], t.orderItems[k2])
  {
    var n := s.nextOrderItem;
    assert k1 in Placed(n, lines) && k2 in Placed(n, lines);
    assert t.orderItems[k1] == lines[k1 - n] && t.orderItems[k2] == lines[k2 - n];
  }

  /** Lines that repeat no (order, book), among themselves or with the
      stored lines, keep the stored lines unique per (order, book). */
  lemma PlacedUnique(s: Store, t: Store, lines: seq<OrderItem>)
    requires OrderBookUnique(s)
    requires forall k :: k in s.orderItems ==> k !in Placed(s.nextOrderItem, lines)
    requires t.orderItems == s.orderItems + Placed(s.nextOrderItem, lines)
    requires forall i, j :: 0 <= i < j < |lines| ==> !SameSlot(lines[i], lines[j])
    requires forall k, i :: k in s.orderItems && 0 <= i < |lines| ==> !SameSlot(s.orderItems[k], lines[i])
    ensures OrderBookUnique(t)
  {
    PlacedKeeps(s, t, lines);
    forall k1, k2 | k1 in t.orderItems && k2 in t.orderItems && k1 != k2
      ensures !SameSlot(t.orderItems[k1], t.orderItems[k2])
    {
      if k1 in s.orderItems && k2 !in s.orderItems {
        PlacedOldNew(s, t, lines, k1, k2);
      } else if k1 !in s.orderItems && k2 in s.orderItems {
        PlacedOldNew(s, t, lines, k2, k1);
      } else if k1 !in s.orderItems && k2 !in s.orderItems {
        PlacedNewNew(s, t, lines, k1, k2);
      }
    }
  }

  /** Lines that fit their columns keep every column in range. */
  lemma PlacedColumns(s: Store, t: Store, lines: seq<OrderItem>)
    requires ColumnsInRange(s)
    requires t == s.(orderItems := s.orderItems + Placed(s.nextOrderItem, lines),
                     nextOrderItem := s.nextOrderItem + |lines|)
    requires forall i :: 0 <= i < |lines| ==> IsSmallInt(lines[i].quantity) && IsPrice(lines[i].unitPrice)
    ensures ColumnsInRange(t)
  {
    PlacedLines(s, t, lines);
  }

  /** New lines go under keys below the raised counter. */
  lemma PlacedKeys(s: Store, t: Store, lines: seq<OrderItem>)
    requires KeysBelowCounters(s)
    requires t == s.(orderItems := s.orderItems + Placed(s.nextOrderItem, lines),
                     nextOrderItem := s.nextOrderItem + |lines|)
    ensures KeysBelowCounters(t)
  {
  }

  /** Lines that resolve keep every reference resolving. */
  lemma PlacedReferences(s: Store, t: Store, lines: seq<OrderItem>)
    requires ReferencesResolve(s)
    requires t == s.(orderItems := s.orderItems + Placed(s.nextOrderItem, lines),
                     nextOrderItem := s.nextOrderItem + |lines|)
    requires forall i :: 0 <= i < |lines| ==> lines[i].order in s.orders && lines[i].book in s.books
    ensures ReferencesResolve(t)
  {
    PlacedLines(s, t, lines);
  }

  /** An accepted bulk insert keeps every schema constraint. */
  lemma BulkCreateValid(s: Store, lines: seq<OrderItem>)
    requires Valid(s) && BulkCreate(s, lines).Ok?
    ensures Valid(BulkCreate(s, lines).value)
  {
    var t := BulkCreate(s, lines).value;
    PlacedUnique(s, t, lines);
    PlacedColumns(s, t, lines);
    PlacedKeys(s, t, lines);
    PlacedReferences(s, t, lines);
  }

  /** Saving the new order keeps every schema constraint. */
  lemma OrderSavedValid(s: Store, s1: Store, customer: CustomerId)
    requires Valid(s) && customer in s.customers
    requires s1 == SaveOrder(s, customer)
    ensures Valid(s1)
  {
    assert ReferencesResolve(s1);
  }

  /** Deleting a cart row keeps every schema constraint. */
  lemma DeleteCartRowValid(s: Store, cart: CartId)
    requires Valid(s)
    ensures Valid(DeleteCartRow(s, cart))
  {
    ValidAfterCartItems(s, DeleteCartRow(s, cart));
  }

  /** Placing an order keeps every schema constraint; in particular no two
      order lines share an (order, book). */
  lemma PlaceOrderPreservesValid(s: Store, user: UserId, cart: CartId)
    requires Valid(s)
    ensures Valid(PlaceOrder(s, user, cart).store)
  {
    if PlaceOrder(s, user, cart).result.Ok? {
      var customer, lines, s1, s2 := PlaceOrderSteps(s, user, cart);
      OrderSavedValid(s, s1, customer);
      BulkCreateValid(s1, lines);
      DeleteCartRowValid(s2, cart);
    }
  }

  /** Placing an order keeps the one-row-per-(cart, book) rule: cart items
      are only removed. */
  lemma PlaceOrderPreservesMergeUnique(s: Store, user: UserId, cart: CartId)
    requires MergeUnique(s)
    ensures MergeUnique(PlaceOrder(s, user, cart).store)
  {
    if PlaceOrder(s, user, cart).result.Ok? {
      PlaceOrderPlaces(s, user, cart);
    }
  }

  /** The lines snapshotted from a cart under the merge rule fit their
      columns, resolve, and never repeat an (order, book), so the insert
      is accepted. */
  lemma SnapshotAccepted(s: Store, s1: Store, cart: CartId, customer: CustomerId, lines: seq<OrderItem>)
    requires Valid(s) && MergeUnique(s) && customer in s.customers
    requires s1 == SaveOrder(s, customer)
    requires Snapshot(s1, s.nextOrder, ListCartItems(s, cart)) == Ok(lines)
    ensures BulkCreate(s1, lines).Ok?
  {
    var rows := ListCartItems(s, cart);
    var o := s.nextOrder;
    forall i, j | 0 <= i < j < |lines|
      ensures !SameSlot(lines[i], lines[j])
    {
      assert rows[i] in rows && rows[j] in rows;
      assert rows[i] < rows[j];
    }
    forall k, i | k in s1.orderItems && 0 <= i < |lines|
      ensures !SameSlot(s1.orderItems[k], lines[i])
    {
      assert s1.orderItems[k].order in s.orders;
    }
    forall i | 0 <= i < |lines|
      ensures IsSmallInt(lines[i].quantity) && IsPrice(lines[i].unitPrice)
    {
      assert lines[i] == LineOf(s1, o, rows[i]);
    }
  }

  /** The items listed for a cart under the schema constraints have books. */
  lemma CartRowsPriced(s: Store, cart: CartId)
    requires Valid(s)
    ensures Priced(s, ListCartItems(s, cart))
  {
    var rows := ListCartItems(s, cart);
    forall i | 0 <= i < |rows|
      ensures rows[i] in s.cartItems
    {
      assert rows[i] in rows;
    }
  }

  /** With a profile found, the transaction commits under the schema
      constraints and the merge rule. */
  lemma WorkAccepted(s: Store, user: UserId, cart: CartId)
    requires Valid(s) && MergeUnique(s) && FindCustomer(s, user).Ok?
    ensures PlaceOrderWork(s, user, cart).Ok?
  {
    var customer := FindCustomer(s, user).value;
    var o := s.nextOrder;
    var s1 := SaveOrder(s, customer);
    CartRowsPriced(s, cart);
    var lines := Snapshot(s1, o, ListCartItems(s, cart)).value;
    SnapshotAccepted(s, s1, cart, customer, lines);
    var s2 := BulkCreate(s1, lines).value;
    StepsCommit(s, user, cart, customer, lines, s1, s2, DeleteCartRow(s2, cart));
  }

  /** Under the schema constraints and the merge rule, placing an order
      succeeds exactly when the cart exists, is not empty and the requester
      has a customer profile. */
  lemma PlaceOrderSucceedsIff(s: Store, user: UserId, cart: CartId)
    requires Valid(s) && MergeUnique(s)
    ensures PlaceOrder(s, user, cart).result.Ok? <==>
      && cart in s.carts && ListCartItems(s, cart) != []
      && exists c :: c in s.customers && s.customers[c].user == user
  {
    FindCustomerExact(s, user);
    if cart in s.carts && ListCartItems(s, cart) != [] && FindCustomer(s, user).Ok? {
      WorkAccepted(s, user, cart);
    }
  }

  /** Snapshot lines of two items for the same book repeat an (order, book). */
  lemma SnapshotRejected(s: Store, s1: Store, cart: CartId, customer: CustomerId, lines: seq<OrderItem>,
                         k1: CartItemId, k2: CartItemId)
    requires Valid(s) && customer in s.customers
    requires s1 == SaveOrder(s, customer)
    requires Snapshot(s1, s.nextOrder, ListCartItems(s, cart)) == Ok(lines)
    requires k1 in s.cartItems && k2 in s.cartItems && k1 < k2
    requires s.cartItems[k1].cart == cart && s.cartItems[k2].cart == cart
    requires s.cartItems[k1].book == s.cartItems[k2].book
    ensures BulkCreate(s1, lines) == Err(IntegrityViolation)
  {
    var rows := ListCartItems(s, cart);
    assert k1 in rows && k2 in rows;
    var i :| 0 <= i < |rows| && rows[i] == k1;
    var j :| 0 <= j < |rows| && rows[j] == k2;
    assert i < j;
    assert SameSlot(lines[i], lines[j]);
    forall m | 0 <= m < |lines|
      ensures IsSmallInt(lines[m].quantity) && IsPrice(lines[m].unitPrice)
    {
      assert lines[m] == LineOf(s1, s.nextOrder, rows[m]);
    }
  }

  /** Two items of the cart for the same book (possible, since no database
      constraint forbids it) make the insert of the order lines fail on
      `unique_together`; the whole placement is rolled back, the new order
      included. */
  lemma PlaceOrderDuplicateRollsBack(s: Store, user: UserId, cart: CartId, k1: CartItemId, k2: CartItemId)
    requires Valid(s)
    requires k1 in s.cartItems && k2 in s.cartItems && k1 < k2
    requires s.cartItems[k1].cart == cart && s.cartItems[k2].cart == cart
    requires s.cartItems[k1].book == s.cartItems[k2].book
    requires exists c :: c in s.customers && s.customers[c].user == user
    ensures PlaceOrder(s, user, cart) == Reply(s, Err(IntegrityViolation))
  {
    FindCustomerExact(s, user);
    var customer := FindCustomer(s, user).value;
    var o := s.nextOrder;
    var s1 := SaveOrder(s, customer);
    CartRowsPriced(s, cart);
    var lines := Snapshot(s1, o, ListCartItems(s, cart)).value;
    SnapshotRejected(s, s1, cart, customer, lines, k1, k2);
    InsertFails(s, user, cart, customer, lines, s1);
    assert k1 in ListCartItems(s, cart);
  }

  // ---------------------------------------------------------------------
  // Lines and totals of an order
  // ---------------------------------------------------------------------

  /** The lines of order `o`, as the order serializer nests them. */
  function OrderLines(s: Store, o: OrderId): (keys: seq<OrderItemId>)
    ensures Increasing(keys)
    ensures forall k :: k in keys <==> k in s.orderItems && k < s.nextOrderItem && s.orderItems[k].order == o
  {
    Select(s.orderItems, s.nextOrderItem, (it: OrderItem) => it.order == o)
  }

  /** The sum of unit price times quantity over the listed lines. */
  function SumLines(items: map<OrderItemId, OrderItem>, keys: seq<OrderItemId>): int
    requires forall k :: k in keys ==> k in items
  {
    if keys == [] then 0
    else
      var last := keys[|keys| - 1];
      SumLines(items, keys[..|keys| - 1]) + items[last].unitPrice * items[last].quantity
  }

  /** What order `o` cost, from the unit prices its lines recorded. */
  function OrderTotal(s: Store, o: OrderId): int {
    SumLines(s.orderItems, OrderLines(s, o))
  }

  /** An order's total reads nothing but the order lines. */
  lemma OrderTotalFrame(s: Store, t: Store, o: OrderId)
    requires t.orderItems == s.orderItems && t.nextOrderItem == s.nextOrderItem
    ensures OrderTotal(t, o) == OrderTotal(s, o)
  {
  }

  /** The lines of a freshly placed order are the new keys, one per cart item. */
  lemma PlaceOrderLines(s: Store, user: UserId, cart: CartId)
    requires Valid(s) && PlaceOrder(s, user, cart).result.Ok?
    ensures OrderLines(PlaceOrder(s, user, cart).store, PlaceOrder(s, user, cart).result.value)
         == Interval(s.nextOrderItem, |ListCartItems(s, cart)|)
  {
    PlaceOrderPlaces(s, user, cart);
    CopiedLinesOfOrder(s, PlaceOrder(s, user, cart).store, ListCartItems(s, cart), s.nextOrder);
  }

  /** The lines of the new order are exactly the copied ones. */
  lemma CopiedLinesOfOrder(s: Store, t: Store, rows: seq<CartItemId>, o: OrderId)
    requires Valid(s) && o == s.nextOrder && LinesCopied(s, t, rows, o)
    ensures OrderLines(t, o) == Interval(s.nextOrderItem, |rows|)
  {
    forall k | s.nextOrderItem <= k < t.nextOrderItem
      ensures k in t.orderItems && t.orderItems[k].order == o
    {
      assert t.orderItems[k] == LineOf(s, o, rows[k - s.nextOrderItem]);
    }
    NewOrderLines(s, t, o, |rows|);
  }

  /** When the lines stored so far belong to existing orders and every new
      line belongs to the new order `o`, the lines of `o` are the new keys. */
  lemma NewOrderLines(s: Store, t: Store, o: OrderId, n: nat)
    requires o !in s.orders
    requires forall k :: k in s.orderItems ==> k < s.nextOrderItem && s.orderItems[k].order in s.orders
    requires forall k :: k in t.orderItems <==> k in s.orderItems || s.nextOrderItem <= k < s.nextOrderItem + n
    requires forall k :: k in s.orderItems ==> t.orderItems[k] == s.orderItems[k]
    requires forall k :: s.nextOrderItem <= k < s.nextOrderItem + n ==> k in t.orderItems && t.orderItems[k].order == o
    requires t.nextOrderItem == s.nextOrderItem + n
    ensures OrderLines(t, o) == Interval(s.nextOrderItem, n)
  {
    SelectIsInterval(t.orderItems, t.nextOrderItem, (it: OrderItem) => it.order == o, s.nextOrderItem, n);
  }

  /** The first `j` copied lines add up to the first `j` cart item totals. */
  lemma {:induction false} SumLinesSnapshot(s: Store, t: Store, o: OrderId, rows: seq<CartItemId>, n: nat, j: nat)
    requires Priced(s, rows) && j <= |rows|
    requires forall k :: n <= k < n + |rows| ==> k in t.orderItems && t.orderItems[k] == LineOf(s, o, rows[k - n])
    ensures forall k :: k in Interval(n, j) ==> k in t.orderItems
    ensures SumLines(t.orderItems, Interval(n, j)) == SumTotals(s, rows[..j])
    decreases j
  {
    IntervalMembers(n, j);
    if j > 0 {
      SumLinesSnapshot(s, t, o, rows, n, j - 1);
      assert Interval(n, j)[..j - 1] == Interval(n, j - 1);
      assert rows[..j][..j - 1] == rows[..j - 1];
      assert t.orderItems[n + j - 1] == LineOf(s, o, rows[j - 1]);
    }
  }

  /** A successful placement copied the cart's items into order lines. */
  lemma PlaceOrderCopies(s: Store, user: UserId, cart: CartId)
    requires PlaceOrder(s, user, cart).result.Ok?
    ensures PlaceOrder(s, user, cart).result.value == s.nextOrder
    ensures LinesCopied(s, PlaceOrder(s, user, cart).store, ListCartItems(s, cart), s.nextOrder)
  {
    var customer, lines, s1, s2 := PlaceOrderSteps(s, user, cart);
    StepsCopyLines(s, user, cart, customer, lines, s1, s2, PlaceOrder(s, user, cart).store);
  }

  /** All copied lines add up to the totals of all the cart items. */
  lemma SumLinesAll(s: Store, t: Store, o: OrderId, rows: seq<CartItemId>, n: nat)
    requires Priced(s, rows)
    requires forall k :: n <= k < n + |rows| ==> k in t.orderItems && t.orderItems[k] == LineOf(s, o, rows[k - n])
    ensures forall k :: k in Interval(n, |rows|) ==> k in t.orderItems
    ensures SumLines(t.orderItems, Interval(n, |rows|)) == SumTotals(s, rows)
  {
    SumLinesSnapshot(s, t, o, rows, n, |rows|);
    assert rows[..|rows|] == rows;
  }

  /** Lines copied from `rows` that make up the whole order add up to the
      totals of `rows`. */
  lemma TotalOfCopiedLines(s: Store, t: Store, rows: seq<CartItemId>, o: OrderId)
    requires LinesCopied(s, t, rows, o)
    requires OrderLines(t, o) == Interval(s.nextOrderItem, |rows|)
    ensures OrderTotal(t, o) == SumTotals(s, rows)
  {
    SumLinesAll(s, t, o, rows, s.nextOrderItem);
  }

  /** Converting a cart keeps its total: the new order costs what the cart
      showed at that moment. */
  lemma PlaceOrderKeepsTotal(s: Store, user: UserId, cart: CartId)
    requires Valid(s) && PlaceOrder(s, user, cart).result.Ok?
    ensures OrderTotal(PlaceOrder(s, user, cart).store, PlaceOrder(s, user, cart).result.value)
         == CartTotal(s, cart)
  {
    PlaceOrderCopies(s, user, cart);
    PlaceOrderLines(s, user, cart);
    TotalOfCopiedLines(s, PlaceOrder(s, user, cart).store, ListCartItems(s, cart), s.nextOrder);
  }

  // ---------------------------------------------------------------------
  // The order view
  // ---------------------------------------------------------------------

  /** POST on orders: the transaction runs for the requesting account. */
  function CreateOrder(s: Store, u: User, cart: CartId): (r: Reply<OrderId>)
    ensures r.result.Err? ==> r.store == s
    ensures r.result.Ok? ==> r.result.value == s.nextOrder && r.result.value in r.store.orders
    ensures r.result.Ok? ==> PlacedFrom(s, r.store, u.id, cart, r.result.value)
  {
    var r := PlaceOrder(s, u.id, cart);
    if r.result.Ok? then
      PlaceOrderPlaces(s, u.id, cart);
      r
    else r
  }

  /** The new order belongs to the requester and is visible to them. */
  lemma CreateOrderVisible(s: Store, u: User, cart: CartId)
    requires CreateOrder(s, u, cart).result.Ok?
    ensures var r := CreateOrder(s, u, cart);
      && OwnedBy(r.store, r.store.orders[r.result.value], u.id)
      && r.result.value in VisibleOrders(r.store, u)
  {
    PlaceOrderPlaces(s, u.id, cart);
  }

  /** PATCH on an order, a partial update: only the status is written, to
      any of the three choices, from any status; a body without a status
      writes nothing. */
  function UpdateOrderStatus(s: Store, u: User, o: OrderId, code: Option<char>): (r: Reply<()>)
    ensures r.result.Err? ==> r.store == s
    ensures r.result.Ok? <==> o in VisibleOrders(s, u) && (code.None? || code.value in {'P', 'C', 'F'})
    ensures o !in VisibleOrders(s, u) ==> r.result == Err(NotFound)
    ensures code.None? ==> r.store == s
    ensures r.result.Ok? && code.Some? ==>
      && o in s.orders && o in r.store.orders
      && StatusCode(r.store.orders[o].status) == code.value
      && r.store == s.(orders := s.orders[o := Order(s.orders[o].customer, r.store.orders[o].status)])
  {
    if o !in VisibleOrders(s, u) then Reply(s, Err(NotFound))
    else
      match code
      case None => Reply(s, Ok(()))
      case Some(c) =>
        match ParseStatus(c)
        case None => Reply(s, Err(Invalid(InvalidChoiceMessage)))
        case Some(st) => Reply(s.(orders := s.orders[o := s.orders[o].(status := st)]), Ok(()))
  }

  /** No transition is forbidden: a visible order can be moved from
      whatever status it has to any status, completed orders included. */
  lemma AnyStatusTransition(s: Store, u: User, o: OrderId, target: Status)
    requires o in VisibleOrders(s, u)
    ensures UpdateOrderStatus(s, u, o, Some(StatusCode(target))).result.Ok?
    ensures UpdateOrderStatus(s, u, o, Some(StatusCode(target))).store.orders[o].status == target
  {
  }

  lemma UpdateOrderStatusPreservesValid(s: Store, u: User, o: OrderId, code: Option<char>)
    requires Valid(s)
    ensures Valid(UpdateOrderStatus(s, u, o, code).store)
  {
  }

  /** DELETE on an order is refused, whatever the order and its status. */
  function DestroyOrder(s: Store, u: User, o: OrderId): (r: Reply<()>)
    ensures r.store == s
    ensures r.result == Err(NotAllowed(OrderDeleteMessage))
  {
    Reply(s, Err(NotAllowed(OrderDeleteMessage)))
  }

  /** Deleting an order row: refused while lines refer to it
      (`on_delete=PROTECT` on the order of a line). */
  function DeleteOrderRow(s: Store, o: OrderId): (r: Reply<()>)
    ensures r.result.Err? ==> r.store == s
    ensures r.result == Err(NotFound) <==> o !in s.orders
    ensures r.result == Err(Protected) <==> o in s.orders && exists k :: k in s.orderItems && s.orderItems[k].order == o
    ensures r.result.Ok? <==> o in s.orders && !(exists k :: k in s.orderItems && s.orderItems[k].order == o)
    ensures r.result.Ok? ==> o in s.orders && r.store == s.(orders := s.orders - {o})
  {
    if o !in s.orders then Reply(s, Err(NotFound))
    else if exists k :: k in s.orderItems && s.orderItems[k].order == o then Reply(s, Err(Protected))
    else Reply(s.(orders := s.orders - {o}), Ok(()))
  }

  lemma DeleteOrderRowPreservesValid(s: Store, o: OrderId)
    requires Valid(s)
    ensures Valid(DeleteOrderRow(s, o).store)
  {
  }

  /** A placed order always has a line, so its row can never be deleted. */
  lemma PlacedOrderIsProtected(s: Store, user: UserId, cart: CartId)
    requires PlaceOrder(s, user, cart).result.Ok?
    ensures DeleteOrderRow(PlaceOrder(s, user, cart).store, PlaceOrder(s, user, cart).result.value).result == Err(Protected)
  {
    PlaceOrderPlaces(s, user, cart);
    var t := PlaceOrder(s, user, cart).store;
    assert t.orderItems[s.nextOrderItem].order == s.nextOrder;
  }
}
