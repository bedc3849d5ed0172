# Bookstore carts and orders, in Dafny

A model of the cart-to-order workflow of a Django REST bookstore.

- **The database.** It is one immutable `Store` record of maps. It holds categories, books, customer profiles, addresses, carts, cart items, orders and order lines. Tables with auto-increment keys carry the next key to hand out.
- **Endpoints.** Every endpoint is a pure function from a store to a `Reply`: the store afterwards and a `Result`. Every failure leaves the store unchanged. Placing an order runs in `transaction.atomic`. It is modelled as a unit of work that is committed or rolled back as a whole (`Models.Commit`).
- **Numbers.** Prices are integer cents, because `DecimalField(max_digits=6, decimal_places=2)` holds at most 9999.99. Quantities are `SmallIntegerField`s, so they lie in [-32768, 32767].
- **`Models.Valid`.** It collects what the schema itself guarantees:
  - values fit their columns;
  - keys are below their counters;
  - every foreign key resolves;
  - `Customer.user` is one-to-one;
  - `unique_together` holds on (order, book).
- **`Models.MergeUnique`.** The rule "one cart item per (cart, book)" is kept apart from `Valid`. No database constraint states it; only the merge logic of the add-to-cart serializer keeps it.

Modules, in dependency order:

| file | module | what it holds |
|---|---|---|
| `query.dfy` | `Query` | `Select`, the ORM's `filter(...)` as an ascending scan of a keyed table; an ascending key list is determined by its members |
| `models.dfy` | `Models` | rows, column ranges, status choices, errors, replies, schema constraints |
| `customers.dfy` | `Customers` | the profile lookup, address creation (as written and as intended), customer deletion |
| `carts.dfy` | `Carts` | add with merge, quantity overwrite, item and cart deletion, cart totals |
| `orders.dfy` | `Orders` | order visibility, order placement, order totals, status updates, the refusal to delete |
| `catalog.dfy` | `Catalog` | repricing, book and category deletion with their guards and cascades |

## Model

| member | source | states |
|---|---|---|
| Models.Commit | store/serializers.py:181-205 | a failed transaction returns its error with the store exactly as before; a committed one returns the work's store and value |
| Models.ParseStatus | store/models.py:80-89 | a status code is accepted exactly when it is 'P', 'C' or 'F', and it then parses to the one status whose code it is |
| Models.StatusCode | store/models.py:80-89 | every status is stored as one of the three choice codes |
| Customers.FindCustomer | store/serializers.py:184 | a found profile belongs to the user and is the only such profile; a missing profile means none belongs to the user; the only failures are "does not exist" and "multiple objects" |
| Customers.FindCustomerExact | store/models.py:44 | under the one-to-one constraint the lookup succeeds exactly when some profile belongs to the user |
| Customers.CreateAddress | store/serializers.py:74-82 | as written, the user id is used as a customer id; success exactly when that customer exists and has no address; a second address is refused with the store unchanged |
| Customers.CreateAddressWrongCustomer | store/serializers.py:75-82 | a consistent store in which user 2's profile is customer 1, yet user 2's address is filed under customer 2, which is user 3's profile |
| Customers.CreateAddressForUser | store/serializers.py:74-82 | corrected: the address is filed under the requester's own profile, which had none; a failure changes nothing |
| Customers.CreateAddressForUserSucceeds | store/serializers.py:78-79 | corrected creation succeeds exactly when the requester has a profile without an address |
| Customers.CreateAddressForUserPreservesValid | store/models.py:61 | corrected creation keeps every schema constraint, so each customer still has at most one address |
| Customers.DeleteCustomer | store/models.py:61 | deleting a customer is not found exactly when it is missing, refused exactly while an order refers to it (PROTECT), and succeeds exactly for an existing customer no order refers to; its address then goes with it (CASCADE) |
| Customers.DeleteCustomerPreservesValid | store/models.py:90 | deleting a customer keeps every schema constraint |
| Carts.ListCartItems | store/views.py:100-101 | the listed items are exactly the items whose cart is the routed cart; the model lists them in ascending key order |
| Carts.ListCartItemsExact | store/views.py:100-101 | under the constraints, an item is listed exactly when it belongs to the routed cart |
| Carts.Matching | store/serializers.py:118 | the rows the merge lookup can match are exactly the items holding that book in that cart |
| Carts.MatchingSingle | store/serializers.py:117-121 | under the merge rule, the lookup for a book already in the cart matches exactly its one row |
| Carts.SchemaAllowsDuplicateItems | store/models.py:73-76 | a store with two items for the same book in one cart meets every schema constraint: no constraint enforces the merge rule |
| Carts.AddToCart | store/serializers.py:112-125 | a refused add changes nothing; only the cart-item table and its counter can change; an accepted quantity is a small integer; no item disappears |
| Carts.AddToCartMerges | store/serializers.py:117-121 | for a book already in the cart: success exactly when the summed quantity fits; that row's quantity grows by the amount, no row is added, every other row is unchanged |
| Carts.AddToCartInserts | store/serializers.py:122-124 | for a book not yet in the cart: success exactly when the quantity fits and the cart and book exist; exactly one row is added, under a fresh key, with the requested cart, book and quantity |
| Carts.AddToCartPreservesValid | store/serializers.py:112-125 | adding keeps every schema constraint |
| Carts.AddToCartPreservesMergeUnique | store/serializers.py:117-124 | adding keeps at most one cart item per (cart, book) |
| Carts.AddToCartHeld | store/serializers.py:117-124 | after an add exactly one row holds the book, and the quantity held grows by the amount added |
| Carts.AddTwiceAccumulates | store/serializers.py:117-124 | adding a and then b of the same book leaves one row, holding a + b more than before |
| Carts.UpdateCartItem | store/serializers.py:128-131 | PATCH succeeds exactly for an item of the routed cart and a small-integer quantity; it overwrites that item's quantity (no merge); the item keeps its cart and book; keys and other items are unchanged |
| Carts.DeleteCartItem | store/views.py:100-101 | deletion succeeds exactly for an item of the routed cart and removes only that item |
| Carts.UpdateCartItemPreserves | store/serializers.py:128-131 | overwriting a quantity keeps the constraints and the merge rule |
| Carts.DeleteCartItemPreserves | store/views.py:100-101 | deleting an item keeps the constraints and the merge rule |
| Carts.HandleCartItems | store/views.py:103-108 | the method picks the write: POST is exactly the merging add (`Carts.AddToCart`), PATCH exactly the overwrite (`Carts.UpdateCartItem`), DELETE exactly the removal (`Carts.DeleteCartItem`); POST never removes an item, PATCH keeps the key set, DELETE removes only the item; failures change nothing |
| Carts.HandleCartItemsPreserves | store/views.py:103-108 | every write on cart items keeps the constraints and the merge rule |
| Carts.CreateCart | store/models.py:68-70 | creating a cart succeeds exactly for an unused id and adds only that cart |
| Carts.CreateCartIsEmpty | store/models.py:68-70 | a new cart lists no items |
| Carts.DeleteCartRow | store/models.py:75 | deleting a cart removes it and exactly its items; the remaining items are unchanged |
| Carts.DeleteCartRowCascades | store/models.py:75 | after the cascade the deleted cart lists nothing, every other cart lists what it did, and the constraints and merge rule hold |
| Carts.DestroyCart | store/views.py:114-119 | DELETE on a cart succeeds exactly for an existing cart, and then is the cascading deletion |
| Carts.CartTotal | store/serializers.py:143-144 | an empty cart totals 0; the total is the sum over the cart's items of `Carts.ItemTotal`, the item total of store/serializers.py:102-103, the book's current price times the quantity |
| Carts.AddToCartTotal | store/serializers.py:143-144 | a successful add raises the cart total by the book's current price times the added quantity, whether it merged or inserted |
| Orders.VisibleOrders | store/views.py:134-139 | listed orders exist, and the model lists them in ascending key order; a non-staff user is listed only orders whose customer belongs to them |
| Orders.StaffSeeEveryOrder | store/views.py:136-137 | staff see every order |
| Orders.VisibleOrdersOfCustomer | store/views.py:139 | a non-staff user sees exactly the orders of their own profile |
| Orders.VisibleOrdersWithoutProfile | store/views.py:139 | a non-staff user without a profile sees no order |
| Orders.VisibleOrdersDisjoint | store/views.py:139 | two different non-staff users never see the same order |
| Orders.ValidateCart | store/serializers.py:173-178 | validation passes exactly for an existing, non-empty cart; an unknown cart and an empty cart fail with their messages |
| Orders.Snapshot | store/serializers.py:190-199 | one line per cart item in listing order, carrying the new order, the item's book and quantity, and the book's current price; it fails, with an integrity error, exactly when an item or its book is missing |
| Orders.BulkCreate | store/serializers.py:201 | the insert is accepted exactly when the lines fit their columns, resolve, find their keys free, and repeat no (order, book) among themselves or with stored lines; the lines go under fresh consecutive keys; a rejection is a range or integrity error |
| Orders.SaveOrder | store/serializers.py:186-188 | saving the order adds exactly one pending order of the customer under the next order key; other orders and every other table are unchanged |
| Orders.PlaceOrderWork | store/serializers.py:181-205 | the transaction's new order gets the next order key |
| Orders.PlaceOrder | store/serializers.py:173-205 | any failure leaves the store unchanged; an unknown cart and an empty cart fail validation |
| Orders.PlaceOrderPlaces | store/serializers.py:180-205 | success creates a fresh pending order of the requester's profile, and one line per cart item with its book, quantity and current price under the next keys; the cart and its items are gone and nothing else changes |
| Orders.PlaceOrderSucceedsIff | store/serializers.py:173-205 | under the constraints and the merge rule, placement succeeds exactly when the cart exists, is non-empty and the requester has a profile |
| Orders.PlaceOrderDuplicateRollsBack | store/models.py:99-100 | two items for the same book in the cart make the insert of lines violate unique_together; the whole placement, the new order included, is rolled back |
| Orders.BulkCreateValid | store/models.py:99-100 | an accepted insert of lines keeps every constraint, unique (order, book) included |
| Orders.PlaceOrderPreservesValid | store/serializers.py:180-205 | placement keeps every schema constraint |
| Orders.PlaceOrderPreservesMergeUnique | store/serializers.py:203 | placement keeps the merge rule, as it only removes cart items |
| Orders.PlaceOrderLines | store/serializers.py:192-201 | the new order's lines are exactly the new keys, one per cart item |
| Orders.OrderLines | store/serializers.py:160 | the lines nested under an order are exactly the stored lines of that order; the model lists them in ascending key order |
| Orders.OrderTotalFrame | store/models.py:92-96 | an order's total depends only on the stored lines |
| Orders.PlaceOrderKeepsTotal | store/serializers.py:192-201 | the new order's total, from the recorded unit prices, equals the cart total at the moment of conversion |
| Orders.CreateOrder | store/views.py:149-154 | a failure changes nothing; a success returns the new order, and is the full placement for the requesting user (`Orders.PlacedFrom`): a pending order of their profile, the cart's items copied at current prices, the cart gone |
| Orders.CreateOrderVisible | store/views.py:149-154 | the new order belongs to the requester's profile and the requester can see it |
| Orders.UpdateOrderStatus | store/serializers.py:163-166 | PATCH, a partial update, succeeds exactly for a visible order with either no status or one of the three codes; an invisible order is not found; a body without a status changes nothing; otherwise only that order's status changes, to the posted code |
| Orders.AnyStatusTransition | store/serializers.py:163-166 | no transition is restricted: any visible order can be set to any status |
| Orders.UpdateOrderStatusPreservesValid | store/models.py:89 | a status update keeps every constraint |
| Orders.DestroyOrder | store/views.py:156-157 | deleting an order is always refused, whatever the order, and changes nothing |
| Orders.DeleteOrderRow | store/models.py:94 | deleting an order row is not found exactly when it is missing, refused exactly while a line refers to it (PROTECT), and succeeds exactly for an existing order no line refers to, removing only it |
| Orders.DeleteOrderRowPreservesValid | store/models.py:94 | deleting an unreferenced order keeps every constraint |
| Orders.PlacedOrderIsProtected | store/models.py:94 | a freshly placed order has a line, so its row cannot be deleted |
| Catalog.UpdateBookPrice | store/models.py:27 | a price write succeeds exactly for an existing book and a price that fits the decimal column, and changes only that price |
| Catalog.UpdateBookPricePreservesValid | store/models.py:27 | repricing keeps every constraint |
| Catalog.SnapshotSurvivesRepricing | store/serializers.py:197 | repricing a book after a placement leaves the new order's total at the cart total from placement time |
| Catalog.Unfeature | store/models.py:10 | a category featuring the deleted book then features nothing (SET_NULL), with its other fields unchanged; any other category is unchanged |
| Catalog.DeleteBookRow | store/models.py:93 | deleting a book is not found exactly when it is missing, refused exactly while an order line refers to it (PROTECT), and succeeds exactly for an existing book no line refers to; its cart items go (CASCADE); categories featuring it feature nothing and others are unchanged |
| Catalog.DestroyBook | store/views.py:30-34 | DELETE on a book is refused exactly while an order line refers to it; otherwise it succeeds exactly for an existing book; a success is exactly the row deletion with its cascades (`Catalog.DeleteBookRow`): the book is gone, its cart items go, categories featuring it feature nothing, order lines are unchanged |
| Catalog.DestroyBookPreservesValid | store/views.py:30-34 | deleting a book keeps every constraint |
| Catalog.DestroyBookPreservesMergeUnique | store/models.py:74 | deleting a book keeps the merge rule |
| Catalog.JoinRowsExist | store/views.py:70 | a category either holds no book, making a row of its own in the join, or holds a filed book; so the join's rows are empty exactly when there is no category |
| Catalog.ValuesBooksCount | store/views.py:70 | the left join of categories with books has no row exactly when there is no category |
| Catalog.DeleteCategoryRow | store/models.py:29 | deleting a category is not found exactly when it is missing, refused exactly while a book is filed under it (PROTECT), and succeeds exactly for an existing category holding no book, removing only it |
| Catalog.DestroyCategory | store/views.py:69-72 | as written: while any category exists, every category deletion is refused, and a refusal changes nothing |
| Catalog.DestroyCategoryNeverSucceeds | store/views.py:69-72 | as written, category deletion never succeeds |
| Catalog.EmptyCategoryRefused | store/views.py:69-72 | a consistent store with one empty category: the guard as written refuses to delete it, the intended guard deletes it |
| Catalog.DestroyCategoryIntended | store/views.py:69-72 | corrected: refused exactly while a book is filed under that category; otherwise it succeeds exactly for an existing category and removes only it |
| Catalog.DestroyCategoryIntendedPreservesValid | store/models.py:29 | corrected category deletion keeps every constraint |

## Left out

- Admin configuration, the seeding script, URL routing, filter sets, pagination and search are presentation or configuration. They have no behaviour to state.
- `store/permissions.py` is attached to no view.
- The signal that creates a profile for each new user is not modelled. The model handles a user without a profile instead.
- Book images, comments and discounts are left out. The discount amount is a float column.
- Book title, slug, description and inventory are left out, and so are timestamps. They take no part in the workflow. The cascades to images and comments on book deletion are left out with them.
- The user table is left out, and with it the `on_delete=CASCADE` from a user to their profile.
- Cart UUIDs and auto-increment keys are not generated. Cart ids are supplied by the caller; other keys come from per-table counters.
- HTTP status codes are reduced to the kinds of `Models.Error`. Responses and serializer output shapes are not modelled, except the totals.
- Concurrency is left out; the model is sequential. In particular, two simultaneous adds of the same book can race the merge lookup and create duplicate rows. `Carts.SchemaAllowsDuplicateItems` and `Orders.PlaceOrderDuplicateRollsBack` state what such rows allow and cause.
- Carts.AddToCart: an out-of-range merged quantity is an `OutOfRange` error, as a database that checks small-integer columns reports it. A database that does not check them would store the value.
- Carts.UpdateCartItem: a PATCH that omits the quantity is not modelled. The quantity is always given.
- Nothing checks that a quantity is positive. The code has no such check anywhere, so the model accepts zero and negative quantities.
- Carts.ListCartItems: the model fixes ascending key order. No `Meta.ordering` and no `order_by` make the program promise any order, only the set of rows.
- Orders.VisibleOrders: the model fixes ascending key order, where the program promises only which orders are listed.
- Orders.OrderLines: the model fixes ascending key order, where the program promises only which lines are nested.
- Orders.Snapshot: the model copies the cart items in ascending key order. The program's query has no `order_by`, so it promises only the set of items copied.
- Orders.PlaceOrderPlaces: the model gives the new lines the next keys in the cart items' key order. The program fixes only that each cart item yields one line; which line gets which key is up to the database.
- Orders.Snapshot: the error for an item whose book is missing cannot happen under the constraints. It stands in for the join that would otherwise drop the item.
- Carts.CartTotal: its contract states only the empty cart. How the total moves is stated by `Carts.AddToCartTotal`, and its agreement with an order by `Orders.PlaceOrderKeepsTotal`.
- Orders.PlaceOrder: its own contract states only atomicity and the validation errors. The success case is stated by `Orders.PlaceOrderPlaces` and `Orders.PlaceOrderSucceedsIff`.

## Findings

| source | as written | input that shows it | evidently intended | confidence | as-written member | corrected member |
|---|---|---|---|---|---|---|
| store/views.py:69-72 | the guard counts the rows of `Category.objects.values('books')`, a join over every category, so it is positive whenever any category exists | one category with no book in it: deleting it is refused with "this category has one or more book in it" | refuse only while a book is filed under the category being deleted | high; not executed | Catalog.DestroyCategory, Catalog.DestroyCategoryNeverSucceeds, Catalog.EmptyCategoryRefused | Catalog.DestroyCategoryIntended, Catalog.DestroyCategoryIntendedPreservesValid |
| store/serializers.py:75-82 | the requesting user's id is used as a customer id, both to look the customer up and to key the new address | customer 1 belongs to user 2, customer 2 to user 3; user 2 posts an address and it is filed under customer 2 | look the profile up by its user and file the address under that profile | medium (ids coincide when profiles are created in user order); not executed | Customers.CreateAddress, Customers.CreateAddressWrongCustomer | Customers.CreateAddressForUser, Customers.CreateAddressForUserSucceeds |
