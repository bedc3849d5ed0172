/** Shopping carts and their items: adding with merge, overwriting a
    quantity, deletion with cascade, and the totals the cart view shows. */
module Carts {
  import opened Models
  import opened Query

  /** A requested quantity outside the small-integer column. */
  const QuantityRangeMessage := "quantity is outside the small-integer range"

  // ---------------------------------------------------------------------
  // Queries
  // ---------------------------------------------------------------------

  /** The items of `cart`, as the cart-item view lists them. */
  function ListCartItems(s: Store, cart: CartId): (rows: seq<CartItemId>)
    ensures Increasing(rows)
    ensures forall k :: k in rows <==> k in s.cartItems && k < s.nextCartItem && s.cartItems[k].cart == cart
  {
    Select(s.cartItems, s.nextCartItem, (it: CartItem) => it.cart == cart)
  }

  /** The rows `CartItem.objects.get(cart_id=cart, book_id=book)` can match. */
  function Matching(s: Store, cart: CartId, book: BookId): (rows: seq<CartItemId>)
    ensures Increasing(rows)
    ensures forall k :: k in rows <==>
      (k in s.cartItems && k < s.nextCartItem && s.cartItems[k].cart == cart && s.cartItems[k].book == book)
  {
    Select(s.cartItems, s.nextCartItem, (it: CartItem) => it.cart == cart && it.book == book)
  }

  /** Under the merge rule the match for (cart, book) is the one row holding it. */
  lemma MatchingSingle(s: Store, cart: CartId, book: BookId, k: CartItemId)
    requires KeysBelowCounters(s) && MergeUnique(s)
    requires k in s.cartItems && s.cartItems[k].cart == cart && s.cartItems[k].book == book
    ensures Matching(s, cart, book) == [k]
  {
    assert Increasing([k]);
    IncreasingUnique(Matching(s, cart, book), [k]);
  }

  /** A store that differs only in its cart items is consistent when those
      items are: in range, below the counter, and referring to existing rows. */
  lemma ValidAfterCartItems(s: Store, t: Store)
    requires Valid(s)
    requires t == s.(cartItems := t.cartItems, nextCartItem := t.nextCartItem, carts := t.carts)
    requires forall k :: k in t.cartItems ==> IsSmallInt(t.cartItems[k].quantity) && k < t.nextCartItem
    requires forall k :: k in t.cartItems ==> t.cartItems[k].cart in t.carts && t.cartItems[k].book in t.books
    ensures Valid(t)
  {
    assert ColumnsInRange(t);
    assert KeysBelowCounters(t);
    assert ReferencesResolve(t);
  }

  /** The schema alone does not keep one row per (cart, book): a database
      holding two rows for the same book in one cart meets every constraint. */
  lemma SchemaAllowsDuplicateItems()
    ensures var s := Empty.(categories := map[1 := Category(None)], books := map[1 := Book(500, 1)],
                            carts := {7}, cartItems := map[0 := CartItem(7, 1, 1), 1 := CartItem(7, 1, 2)],
                            nextCartItem := 2);
      Valid(s) && !MergeUnique(s)
  {
    var s := Empty.(categories := map[1 := Category(None)], books := map[1 := Book(500, 1)],
                    carts := {7}, cartItems := map[0 := CartItem(7, 1, 1), 1 := CartItem(7, 1, 2)],
                    nextCartItem := 2);
    assert s.cartItems[0].book == s.cartItems[1].book;
  }

  /** Listing a cart under a consistent database yields exactly its items. */
  lemma ListCartItemsExact(s: Store, cart: CartId, k: CartItemId)
    requires Valid(s)
    ensures k in ListCartItems(s, cart) <==> k in s.cartItems && s.cartItems[k].cart == cart
  {
  }

  // ---------------------------------------------------------------------
  // Adding with merge
  // ---------------------------------------------------------------------

  /** POST on a cart's items. An existing row for (cart, book) has its
      quantity increased; otherwise a new row is inserted. Only the table
      of cart items (and its key counter) can change. */
  function AddToCart(s: Store, cart: CartId, book: BookId, quantity: int): (r: Reply<()>)
    ensures r.result.Err? ==> r.store == s
    ensures r.store == s.(cartItems := r.store.cartItems, nextCartItem := r.store.nextCartItem)
    ensures r.result.Ok? ==> IsSmallInt(quantity)
    ensures r.result.Ok? ==> s.cartItems.Keys <= r.store.cartItems.Keys
  {
    if !IsSmallInt(quantity) then Reply(s, Err(Invalid(QuantityRangeMessage)))
    else
      var found := Matching(s, cart, book);
      if |found| > 1 then Reply(s, Err(MultipleObjectsReturned))
      else if |found| == 1 then
        var k := found[0];
        assert k in found;
        var merged := s.cartItems[k].quantity + quantity;
        if !IsSmallInt(merged) then Reply(s, Err(OutOfRange))
        else Reply(s.(cartItems := s.cartItems[k := s.cartItems[k].(quantity := merged)]), Ok(()))
      else if cart !in s.carts || book !in s.books then Reply(s, Err(IntegrityViolation))
      else
        Reply(s.(cartItems := s.cartItems[s.nextCartItem := CartItem(cart, book, quantity)],
                 nextCartItem := s.nextCartItem + 1),
              Ok(()))
  }

  /** A book already in the cart: its row grows by `quantity`, no row is
      added and every other row stays as it was. */
  lemma AddToCartMerges(s: Store, cart: CartId, book: BookId, quantity: int, k: CartItemId)
    requires Valid(s) && MergeUnique(s)
    requires k in s.cartItems && s.cartItems[k].cart == cart && s.cartItems[k].book == book
    ensures var r := AddToCart(s, cart, book, quantity);
      r.result.Ok? <==> IsSmallInt(quantity) && IsSmallInt(s.cartItems[k].quantity + quantity)
    ensures var r := AddToCart(s, cart, book, quantity);
      r.result.Ok? ==>
        && r.store.cartItems == s.cartItems[k := CartItem(cart, book, s.cartItems[k].quantity + quantity)]
        && r.store.nextCartItem == s.nextCartItem
  {
    MatchingSingle(s, cart, book, k);
  }

  /** A book not yet in the cart: exactly one row is added, under a fresh
      key, holding the requested cart, book and quantity. */
  lemma AddToCartInserts(s: Store, cart: CartId, book: BookId, quantity: int)
    requires Valid(s)
    requires forall k :: k in s.cartItems ==> s.cartItems[k].cart != cart || s.cartItems[k].book != book
    ensures var r := AddToCart(s, cart, book, quantity);
      r.result.Ok? <==> IsSmallInt(quantity) && cart in s.carts && book in s.books
    ensures var r := AddToCart(s, cart, book, quantity);
      r.result.Ok? ==>
        && s.nextCartItem !in s.cartItems
        && r.store.cartItems == s.cartItems[s.nextCartItem := CartItem(cart, book, quantity)]
  {
    IncreasingUnique(Matching(s, cart, book), []);
  }

  /** Adding keeps every schema constraint. */
  lemma AddToCartPreservesValid(s: Store, cart: CartId, book: BookId, quantity: int)
    requires Valid(s)
    ensures Valid(AddToCart(s, cart, book, quantity).store)
  {
    var found := Matching(s, cart, book);
    if |found| == 1 {
      assert found[0] in found;
    }
    ValidAfterCartItems(s, AddToCart(s, cart, book, quantity).store);
  }

  /** Adding keeps at most one row per (cart, book). */
  lemma AddToCartPreservesMergeUnique(s: Store, cart: CartId, book: BookId, quantity: int)
    requires Valid(s) && MergeUnique(s)
    ensures MergeUnique(AddToCart(s, cart, book, quantity).store)
  {
    var r := AddToCart(s, cart, book, quantity);
    var found := Matching(s, cart, book);
    if r.result.Ok? && |found| == 0 {
      forall k | k in s.cartItems
        ensures s.cartItems[k].cart != cart || s.cartItems[k].book != book
      {
        assert k !in found;
      }
    } else if r.result.Ok? {
      assert found[0] in found;
    }
  }

  /** How many copies of `book` the cart holds: the quantity of its row, or
      0 when there is none. */
  function Held(s: Store, cart: CartId, book: BookId): int {
    var rows := Matching(s, cart, book);
    if rows == [] then 0
    else
      assert rows[0] in rows;
      s.cartItems[rows[0]].quantity
  }

  /** A successful add leaves exactly one row for the book, and the held
      quantity grows by the amount added. */
  lemma AddToCartHeld(s: Store, cart: CartId, book: BookId, quantity: int)
    requires Valid(s) && MergeUnique(s)
    requires AddToCart(s, cart, book, quantity).result.Ok?
    ensures |Matching(AddToCart(s, cart, book, quantity).store, cart, book)| == 1
    ensures Held(AddToCart(s, cart, book, quantity).store, cart, book) == Held(s, cart, book) + quantity
  {
    var t := AddToCart(s, cart, book, quantity).store;
    var found := Matching(s, cart, book);
    AddToCartPreservesValid(s, cart, book, quantity);
    AddToCartPreservesMergeUnique(s, cart, book, quantity);
    if |found| == 1 {
      var k := found[0];
      assert k in found;
      AddToCartMerges(s, cart, book, quantity, k);
      MatchingSingle(t, cart, book, k);
    } else {
      AddToCartInserts(s, cart, book, quantity);
      MatchingSingle(t, cart, book, s.nextCartItem);
    }
  }

  /** Adding `a` and then `b` of the same book leaves one row for it, whose
      quantity has grown by `a + b`; for a book not yet in the cart, that
      row holds `a + b`. */
  lemma AddTwiceAccumulates(s: Store, cart: CartId, book: BookId, a: int, b: int)
    requires Valid(s) && MergeUnique(s)
    requires AddToCart(s, cart, book, a).result.Ok?
    requires AddToCart(AddToCart(s, cart, book, a).store, cart, book, b).result.Ok?
    ensures var s2 := AddToCart(AddToCart(s, cart, book, a).store, cart, book, b).store;
      && |Matching(s2, cart, book)| == 1
      && Held(s2, cart, book) == Held(s, cart, book) + a + b
  {
    var s1 := AddToCart(s, cart, book, a).store;
    AddToCartHeld(s, cart, book, a);
    AddToCartPreservesValid(s, cart, book, a);
    AddToCartPreservesMergeUnique(s, cart, book, a);
    AddToCartHeld(s1, cart, book, b);
  }

  // ---------------------------------------------------------------------
  // Overwriting and removing
  // ---------------------------------------------------------------------

  /** PATCH on one item of a cart: only its quantity is written, and it is
      overwritten, not added to. */
  function UpdateCartItem(s: Store, cart: CartId, item: CartItemId, quantity: int): (r: Reply<()>)
    ensures r.result.Err? ==> r.store == s
    ensures r.result.Ok? <==> item in s.cartItems && s.cartItems[item].cart == cart && IsSmallInt(quantity)
    ensures r.result.Ok? ==>
      && r.store == s.(cartItems := r.store.cartItems)
      && r.store.cartItems.Keys == s.cartItems.Keys
      && r.store.cartItems[item] == CartItem(cart, s.cartItems[item].book, quantity)
      && forall j :: j in s.cartItems && j != item ==> r.store.cartItems[j] == s.cartItems[j]
  {
    if item !in s.cartItems || s.cartItems[item].cart != cart then Reply(s, Err(NotFound))
    else if !IsSmallInt(quantity) then Reply(s, Err(Invalid(QuantityRangeMessage)))
    else Reply(s.(cartItems := s.cartItems[item := s.cartItems[item].(quantity := quantity)]), Ok(()))
  }

  /** DELETE on one item of a cart. */
  function DeleteCartItem(s: Store, cart: CartId, item: CartItemId): (r: Reply<()>)
    ensures r.result.Err? ==> r.store == s
    ensures r.result.Ok? <==> item in s.cartItems && s.cartItems[item].cart == cart
    ensures r.result.Ok? ==> r.store == s.(cartItems := s.cartItems - {item})
  {
    if item !in s.cartItems || s.cartItems[item].cart != cart then Reply(s, Err(NotFound))
    else Reply(s.(cartItems := s.cartItems - {item}), Ok(()))
  }

  /** Overwriting a quantity keeps the constraints and the merge rule:
      the row keeps its cart and its book. */
  lemma UpdateCartItemPreserves(s: Store, cart: CartId, item: CartItemId, quantity: int)
    requires Valid(s) && MergeUnique(s)
    ensures Valid(UpdateCartItem(s, cart, item, quantity).store)
    ensures MergeUnique(UpdateCartItem(s, cart, item, quantity).store)
  {
    var t := UpdateCartItem(s, cart, item, quantity).store;
    if item in s.cartItems {
      assert forall k :: k in t.cartItems ==> t.cartItems[k].cart == s.cartItems[k].cart && t.cartItems[k].book == s.cartItems[k].book;
    }
    ValidAfterCartItems(s, t);
  }

  lemma DeleteCartItemPreserves(s: Store, cart: CartId, item: CartItemId)
    requires Valid(s) && MergeUnique(s)
    ensures Valid(DeleteCartItem(s, cart, item).store)
    ensures MergeUnique(DeleteCartItem(s, cart, item).store)
  {
    ValidAfterCartItems(s, DeleteCartItem(s, cart, item).store);
  }

  /** The writes the cart-item view accepts; the HTTP method picks the serializer. */
  datatype CartItemRequest =
    | Post(book: BookId, quantity: int)
    | Patch(item: CartItemId, newQuantity: int)
    | Delete(item: CartItemId)

  /** Route a write on the items of `cart` to the serializer its method
      picks: POST merges, PATCH overwrites, DELETE removes. */
  function HandleCartItems(s: Store, cart: CartId, req: CartItemRequest): (r: Reply<()>)
    ensures r.result.Err? ==> r.store == s
    ensures r.store == s.(cartItems := r.store.cartItems, nextCartItem := r.store.nextCartItem)
    ensures req.Patch? ==> r.store.cartItems.Keys == s.cartItems.Keys
    ensures req.Patch? && r.result.Ok? ==>
      req.item in r.store.cartItems && r.store.cartItems[req.item].quantity == req.newQuantity
    ensures req.Delete? && r.result.Ok? ==> r.store.cartItems.Keys == s.cartItems.Keys - {req.item}
    ensures req.Post? && r.result.Ok? ==> s.cartItems.Keys <= r.store.cartItems.Keys
    ensures req.Post? ==> r == AddToCart(s, cart, req.book, req.quantity)
    ensures req.Patch? ==> r == UpdateCartItem(s, cart, req.item, req.newQuantity)
    ensures req.Delete? ==> r == DeleteCartItem(s, cart, req.item)
  {
    match req
    case Post(book, quantity) => AddToCart(s, cart, book, quantity)
    case Patch(item, quantity) => UpdateCartItem(s, cart, item, quantity)
    case Delete(item) => DeleteCartItem(s, cart, item)
  }

  /** Every write on cart items keeps the schema constraints and the
      one-row-per-(cart, book) rule, the latter although no constraint
      in the database enforces it. */
  lemma HandleCartItemsPreserves(s: Store, cart: CartId, req: CartItemRequest)
    requires Valid(s) && MergeUnique(s)
    ensures Valid(HandleCartItems(s, cart, req).store)
    ensures MergeUnique(HandleCartItems(s, cart, req).store)
  {
    match req
    case Post(book, quantity) =>
      AddToCartPreservesValid(s, cart, book, quantity);
      AddToCartPreservesMergeUnique(s, cart, book, quantity);
    case Patch(item, quantity) =>
      UpdateCartItemPreserves(s, cart, item, quantity);
    case Delete(item) =>
      DeleteCartItemPreserves(s, cart, item);
  }

  // ---------------------------------------------------------------------
  // Carts
  // ---------------------------------------------------------------------

  /** POST on carts, with `id` the freshly generated UUID. */
  function CreateCart(s: Store, id: CartId): (r: Reply<()>)
    ensures r.result.Err? ==> r.store == s
    ensures r.result.Ok? <==> id !in s.carts
    ensures r.result.Ok? ==> r.store == s.(carts := s.carts + {id})
  {
    if id in s.carts then Reply(s, Err(IntegrityViolation))
    else Reply(s.(carts := s.carts + {id}), Ok(()))
  }

  /** A new cart holds no items. */
  lemma CreateCartIsEmpty(s: Store, id: CartId)
    requires Valid(s)
    requires CreateCart(s, id).result.Ok?
    ensures Valid(CreateCart(s, id).store)
    ensures ListCartItems(CreateCart(s, id).store, id) == []
  {
    IncreasingUnique(ListCartItems(CreateCart(s, id).store, id), []);
  }

  /** Deleting a cart row; its items go with it (`on_delete=CASCADE`). */
  function DeleteCartRow(s: Store, cart: CartId): (s': Store)
    ensures s' == s.(carts := s'.carts, cartItems := s'.cartItems)
    ensures s'.carts == s.carts - {cart}
    ensures forall k :: k in s'.cartItems <==> k in s.cartItems && s.cartItems[k].cart != cart
    ensures forall k :: k in s'.cartItems ==> s'.cartItems[k] == s.cartItems[k]
  {
    s.(carts := s.carts - {cart},
       cartItems := map k | k in s.cartItems && s.cartItems[k].cart != cart :: s.cartItems[k])
  }

  /** After the cascade the deleted cart lists nothing, every other cart
      lists what it did, and the constraints still hold. */
  lemma DeleteCartRowCascades(s: Store, cart: CartId)
    requires Valid(s) && MergeUnique(s)
    ensures Valid(DeleteCartRow(s, cart)) && MergeUnique(DeleteCartRow(s, cart))
    ensures ListCartItems(DeleteCartRow(s, cart), cart) == []
    ensures forall other :: other != cart ==> ListCartItems(DeleteCartRow(s, cart), other) == ListCartItems(s, other)
  {
    var s' := DeleteCartRow(s, cart);
    ValidAfterCartItems(s, s');
    IncreasingUnique(ListCartItems(s', cart), []);
    forall other | other != cart
      ensures ListCartItems(s', other) == ListCartItems(s, other)
    {
      SelectAgree(s'.cartItems, s'.nextCartItem, (it: CartItem) => it.cart == other,
                  s.cartItems, s.nextCartItem, (it: CartItem) => it.cart == other);
    }
  }

  /** DELETE on a cart. */
  function DestroyCart(s: Store, cart: CartId): (r: Reply<()>)
    ensures r.result.Err? ==> r.store == s
    ensures r.result.Ok? <==> cart in s.carts
    ensures r.result.Ok? ==> r.store == DeleteCartRow(s, cart)
  {
    if cart !in s.carts then Reply(s, Err(NotFound))
    else Reply(DeleteCartRow(s, cart), Ok(()))
  }

  // ---------------------------------------------------------------------
  // Totals
  // ---------------------------------------------------------------------

  /** Every listed row is an item whose book exists. */
  predicate Priced(s: Store, rows: seq<CartItemId>) {
    forall i :: 0 <= i < |rows| ==> rows[i] in s.cartItems && s.cartItems[rows[i]].book in s.books
  }

  /** The total of one item: the book's current price times the quantity. */
  function ItemTotal(s: Store, k: CartItemId): int
    requires k in s.cartItems && s.cartItems[k].book in s.books
  {
    s.books[s.cartItems[k].book].price * s.cartItems[k].quantity
  }

  function SumTotals(s: Store, rows: seq<CartItemId>): int
    requires Priced(s, rows)
  {
    if rows == [] then 0
    else SumTotals(s, rows[..|rows| - 1]) + ItemTotal(s, rows[|rows| - 1])
  }

  /** Every cart item names an existing book, so it has a price. */
  ghost predicate ItemsPriced(s: Store) {
    forall k :: k in s.cartItems ==> s.cartItems[k].book in s.books
  }

  /** The total the cart view shows, from live book prices. */
  function CartTotal(s: Store, cart: CartId): (total: int)
    requires ItemsPriced(s)
    ensures ListCartItems(s, cart) == [] ==> total == 0
  {
    SumTotals(s, ListCartItems(s, cart))
  }

  /** Sums agree when the item totals of the listed rows agree. */
  lemma {:induction false} SumTotalsFrame(s: Store, t: Store, rows: seq<CartItemId>)
    requires Priced(s, rows) && Priced(t, rows)
    requires forall i :: 0 <= i < |rows| ==> ItemTotal(s, rows[i]) == ItemTotal(t, rows[i])
    ensures SumTotals(s, rows) == SumTotals(t, rows)
  {
    if rows != [] {
      SumTotalsFrame(s, t, rows[..|rows| - 1]);
    }
  }

  /** Changing the total of the one listed row `k` by `delta` changes the sum by `delta`. */
  lemma {:induction false} SumTotalsUpdate(s: Store, t: Store, rows: seq<CartItemId>, k: CartItemId, delta: int)
    requires Priced(s, rows) && Priced(t, rows) && Increasing(rows) && k in rows
    requires forall i :: 0 <= i < |rows| && rows[i] != k ==> ItemTotal(s, rows[i]) == ItemTotal(t, rows[i])
    requires ItemTotal(t, k) == ItemTotal(s, k) + delta
    ensures SumTotals(t, rows) == SumTotals(s, rows) + delta
  {
    var n := |rows| - 1;
    var prefix := rows[..n];
    if rows[n] == k {
      assert forall i :: 0 <= i < |prefix| ==> prefix[i] < rows[n];
      SumTotalsFrame(s, t, prefix);
    } else {
      assert k in prefix by {
        var i :| 0 <= i < |rows| && rows[i] == k;
        assert i < n;
        assert prefix[i] == k;
      }
      SumTotalsUpdate(s, t, prefix, k, delta);
    }
  }

  lemma Distribute(price: int, before: int, q: int)
    ensures price * (before + q) == price * before + price * q
  {
  }

  /** The hypotheses about raising the quantity of item `k` by `q`. */
  ghost predicate MergedAt(s: Store, t: Store, k: CartItemId, q: int) {
    && ItemsPriced(s) && KeysBelowCounters(s) && k in s.cartItems
    && t.books == s.books && t.nextCartItem == s.nextCartItem
    && t.cartItems == s.cartItems[k := s.cartItems[k].(quantity := s.cartItems[k].quantity + q)]
  }

  lemma ListAfterMerge(s: Store, t: Store, k: CartItemId, q: int, cart: CartId)
    requires MergedAt(s, t, k, q)
    ensures ListCartItems(t, cart) == ListCartItems(s, cart)
  {
    SelectAgree(t.cartItems, t.nextCartItem, (it: CartItem) => it.cart == cart,
                s.cartItems, s.nextCartItem, (it: CartItem) => it.cart == cart);
  }

  lemma ItemTotalsAfterMerge(s: Store, t: Store, k: CartItemId, q: int, rows: seq<CartItemId>)
    requires MergedAt(s, t, k, q) && Priced(s, rows)
    ensures Priced(t, rows)
    ensures forall i :: 0 <= i < |rows| && rows[i] != k ==> ItemTotal(s, rows[i]) == ItemTotal(t, rows[i])
    ensures ItemTotal(t, k) == ItemTotal(s, k) + s.books[s.cartItems[k].book].price * q
  {
    var price := s.books[s.cartItems[k].book].price;
    Distribute(price, s.cartItems[k].quantity, q);
  }

  /** Raising the quantity of one item of `cart` by `q` raises the cart's
      total by the book's price times `q`. */
  lemma TotalAfterMerge(s: Store, t: Store, k: CartItemId, q: int)
    requires MergedAt(s, t, k, q)
    ensures ItemsPriced(t)
    ensures CartTotal(t, s.cartItems[k].cart) == CartTotal(s, s.cartItems[k].cart) + s.books[s.cartItems[k].book].price * q
  {
    var cart := s.cartItems[k].cart;
    var rows := ListCartItems(s, cart);
    ListAfterMerge(s, t, k, q, cart);
    ItemTotalsAfterMerge(s, t, k, q, rows);
    SumTotalsUpdate(s, t, rows, k, s.books[s.cartItems[k].book].price * q);
  }

  /** The hypotheses about an insertion at the next cart-item key. */
  ghost predicate InsertedAtNext(s: Store, t: Store, item: CartItem) {
    && ItemsPriced(s) && KeysBelowCounters(s) && item.book in s.books
    && t.books == s.books && t.nextCartItem == s.nextCartItem + 1
    && t.cartItems == s.cartItems[s.nextCartItem := item]
  }

  lemma ListAfterInsert(s: Store, t: Store, item: CartItem)
    requires InsertedAtNext(s, t, item)
    ensures ListCartItems(t, item.cart) == ListCartItems(s, item.cart) + [s.nextCartItem]
  {
    SelectExtend(s.cartItems, s.nextCartItem, (it: CartItem) => it.cart == item.cart, item);
  }

  lemma SumAfterInsert(s: Store, t: Store, item: CartItem, rows: seq<CartItemId>)
    requires InsertedAtNext(s, t, item)
    requires rows == ListCartItems(s, item.cart)
    ensures Priced(s, rows) && Priced(t, rows)
    ensures SumTotals(t, rows) == SumTotals(s, rows)
  {
    forall i | 0 <= i < |rows|
      ensures rows[i] in s.cartItems && t.cartItems[rows[i]] == s.cartItems[rows[i]]
    {
      assert rows[i] in rows;
    }
    SumTotalsFrame(s, t, rows);
  }

  /** Inserting a new item of `cart` raises the cart's total by that item's total. */
  lemma TotalAfterInsert(s: Store, t: Store, item: CartItem)
    requires InsertedAtNext(s, t, item)
    ensures ItemsPriced(t)
    ensures CartTotal(t, item.cart) == CartTotal(s, item.cart) + s.books[item.book].price * item.quantity
  {
    var rows := ListCartItems(s, item.cart);
    ListAfterInsert(s, t, item);
    SumAfterInsert(s, t, item, rows);
  }

  /** A successful add raises the cart's total by the book's current price
      times the added quantity, whether it merged or inserted. */
  lemma AddToCartTotal(s: Store, cart: CartId, book: BookId, quantity: int)
    requires Valid(s) && MergeUnique(s)
    requires AddToCart(s, cart, book, quantity).result.Ok?
    ensures Valid(AddToCart(s, cart, book, quantity).store)
    ensures book in s.books
    ensures CartTotal(AddToCart(s, cart, book, quantity).store, cart)
         == CartTotal(s, cart) + s.books[book].price * quantity
  {
    AddToCartPreservesValid(s, cart, book, quantity);
    var t := AddToCart(s, cart, book, quantity).store;
    var found := Matching(s, cart, book);
    if |found| == 1 {
      var k := found[0];
      assert k in found;
      AddToCartMerges(s, cart, book, quantity, k);
      TotalAfterMerge(s, t, k, quantity);
    } else {
      AddToCartInserts(s, cart, book, quantity);
      TotalAfterInsert(s, t, CartItem(cart, book, quantity));
    }
  }
}
