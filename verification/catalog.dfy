/** Books and categories: repricing, and deletion with its guards and its
    cascades. */
module Catalog {
  import opened Models
  import opened Carts
  import opened Orders

  /** A price the decimal column cannot hold. */
  const PriceRangeMessage := "price does not fit six digits with two decimals"
  /** The refusal to delete a book an order line refers to. */
  const BookOrderedMessage := "Product cannot be deleted because it is associated with an order item."
  /** The refusal to delete a category. */
  const CategoryHasBooksMessage := "this category has one or more book in it.delete books first!"

  // ---------------------------------------------------------------------
  // Books
  // ---------------------------------------------------------------------

  /** A write of a book's price, which must fit the decimal column. */
  function UpdateBookPrice(s: Store, b: BookId, cents: int): (r: Reply<()>)
    ensures r.result.Err? ==> r.store == s
    ensures r.result.Ok? <==> b in s.books && IsPrice(cents)
    ensures r.result.Ok? ==> r.store == s.(books := s.books[b := Book(cents, s.books[b].category)])
  {
    if b !in s.books then Reply(s, Err(NotFound))
    else if !IsPrice(cents) then Reply(s, Err(Invalid(PriceRangeMessage)))
    else Reply(s.(books := s.books[b := s.books[b].(price := cents)]), Ok(()))
  }

  lemma UpdateBookPricePreservesValid(s: Store, b: BookId, cents: int)
    requires Valid(s)
    ensures Valid(UpdateBookPrice(s, b, cents).store)
  {
  }

  /** Order lines keep the price they were placed at: repricing a book
      right after a placement leaves the new order's total at what the
      cart showed when it was converted. */
  lemma SnapshotSurvivesRepricing(s: Store, user: UserId, cart: CartId, b: BookId, cents: int)
    requires Valid(s) && PlaceOrder(s, user, cart).result.Ok?
    ensures var placed := PlaceOrder(s, user, cart);
      OrderTotal(UpdateBookPrice(placed.store, b, cents).store, placed.result.value) == CartTotal(s, cart)
  {
    var placed := PlaceOrder(s, user, cart);
    PlaceOrderKeepsTotal(s, user, cart);
    OrderTotalFrame(placed.store, UpdateBookPrice(placed.store, b, cents).store, placed.result.value);
  }

  /** A category that featured book `b` features nothing once it is gone
      (`on_delete=SET_NULL`). */
  function Unfeature(cat: Category, b: BookId): (c: Category)
    ensures c.featured != Some(b)
    ensures cat.featured == Some(b) ==> c == cat.(featured := None)
    ensures cat.featured != Some(b) ==> c == cat
  {
    if cat.featured == Some(b) then cat.(featured := None) else cat
  }

  /** Whether an order line refers to book `b`. */
  predicate Ordered(s: Store, b: BookId) {
    exists k :: k in s.orderItems && s.orderItems[k].book == b
  }

  /** Deleting a book row: refused while an order line refers to it
      (`on_delete=PROTECT`); the cart items holding it go with it
      (`on_delete=CASCADE`); categories featuring it feature nothing. */
  function DeleteBookRow(s: Store, b: BookId): (r: Reply<()>)
    ensures r.result.Err? ==> r.store == s
    ensures r.result == Err(NotFound) <==> b !in s.books
    ensures r.result == Err(Protected) <==> b in s.books && Ordered(s, b)
    ensures r.result.Ok? <==> b in s.books && !Ordered(s, b)
    ensures r.result.Ok? ==> b in s.books && r.store.books == s.books - {b}
    ensures r.result.Ok? ==> forall k :: k in r.store.cartItems <==> k in s.cartItems && s.cartItems[k].book != b
    ensures r.result.Ok? ==> forall k :: k in r.store.cartItems ==> r.store.cartItems[k] == s.cartItems[k]
    ensures r.result.Ok? ==> r.store.categories.Keys == s.categories.Keys
    ensures r.result.Ok? ==> forall c :: c in s.categories ==> r.store.categories[c].featured != Some(b)
    ensures r.result.Ok? ==> forall c :: c in s.categories && s.categories[c].featured != Some(b) ==>
      r.store.categories[c] == s.categories[c]
    ensures r.result.Ok? ==> forall c :: c in s.categories && r.store.categories[c].featured.Some? ==>
      r.store.categories[c].featured == s.categories[c].featured
    ensures r.result.Ok? ==> r.store == s.(books := r.store.books, cartItems := r.store.cartItems,
                                          categories := r.store.categories)
  {
    if b !in s.books then Reply(s, Err(NotFound))
    else if Ordered(s, b) then Reply(s, Err(Protected))
    else
      Reply(s.(books := s.books - {b},
               cartItems := map k | k in s.cartItems && s.cartItems[k].book != b :: s.cartItems[k],
               categories := map c | c in s.categories :: Unfeature(s.categories[c], b)),
            Ok(()))
  }

  /** DELETE on a book: refused, before the book is even looked up, while
      an order line refers to it. */
  function DestroyBook(s: Store, b: BookId): (r: Reply<()>)
    ensures r.result.Err? ==> r.store == s
    ensures r.result == Err(NotAllowed(BookOrderedMessage))
        <==> Ordered(s, b)
    ensures r.result.Ok? <==> b in s.books && !Ordered(s, b)
    ensures r.result.Ok? ==> b !in r.store.books && r.store.orderItems == s.orderItems
    ensures r.result.Ok? ==> r == DeleteBookRow(s, b)
  {
    if Ordered(s, b) then
      Reply(s, Err(NotAllowed(BookOrderedMessage)))
    else DeleteBookRow(s, b)
  }

  /** The references left after a book is gone still resolve: no order
      line held it, and no remaining cart item or category refers to it. */
  lemma BookGoneResolves(s: Store, t: Store, b: BookId)
    requires ReferencesResolve(s) && !Ordered(s, b)
    requires t == s.(books := s.books - {b}, cartItems := t.cartItems, categories := t.categories)
    requires forall k :: k in t.cartItems ==> k in s.cartItems && t.cartItems[k] == s.cartItems[k] && s.cartItems[k].book != b
    requires t.categories.Keys == s.categories.Keys
    requires forall c :: c in s.categories ==> t.categories[c].featured != Some(b)
    requires forall c :: c in s.categories && t.categories[c].featured.Some? ==> t.categories[c].featured == s.categories[c].featured
    ensures ReferencesResolve(t)
  {
  }

  /** Deleting a book keeps every schema constraint. */
  lemma DestroyBookPreservesValid(s: Store, b: BookId)
    requires Valid(s)
    ensures Valid(DestroyBook(s, b).store)
  {
    var t := DestroyBook(s, b).store;
    if DestroyBook(s, b).result.Ok? {
      BookGoneResolves(s, t, b);
      assert ColumnsInRange(t);
      assert KeysBelowCounters(t);
    }
  }

  /** Deleting a book keeps at most one cart item per (cart, book). */
  lemma DestroyBookPreservesMergeUnique(s: Store, b: BookId)
    requires MergeUnique(s)
    ensures MergeUnique(DestroyBook(s, b).store)
  {
  }

  // ---------------------------------------------------------------------
  // Categories
  // ---------------------------------------------------------------------

  /** Whether some book is filed under category `c`. */
  predicate HasBooks(s: Store, c: CategoryId) {
    exists b :: b in s.books && s.books[b].category == c
  }

  /** The categories holding no book: each is one row of the join, with a
      null book. */
  function LonelyCategories(s: Store): set<CategoryId> {
    set c | c in s.categories && !HasBooks(s, c)
  }

  /** The books filed under an existing category: each is one row of the join. */
  function FiledBooks(s: Store): set<BookId> {
    set b | b in s.books && s.books[b].category in s.categories
  }

  /** The join has a row exactly when there is a category: a category is
      either lonely or has a filed book. */
  lemma JoinRowsExist(s: Store)
    ensures s.categories == map[] <==> LonelyCategories(s) == {} && FiledBooks(s) == {}
  {
    if s.categories != map[] {
      var c :| c in s.categories;
      if HasBooks(s, c) {
        var b :| b in s.books && s.books[b].category == c;
        assert b in FiledBooks(s);
      } else {
        assert c in LonelyCategories(s);
      }
    }
  }

  /** The rows of `Category.objects.values('books')`, a left outer join of
      categories with their books: one row per filed book, and one row for
      each category holding no book. */
  function ValuesBooksCount(s: Store): (n: nat)
    ensures n == 0 <==> s.categories == map[]
  {
    JoinRowsExist(s);
    |LonelyCategories(s)| + |FiledBooks(s)|
  }

  /** Deleting a category row: refused while a book is filed under it
      (`on_delete=PROTECT`). */
  function DeleteCategoryRow(s: Store, c: CategoryId): (r: Reply<()>)
    ensures r.result.Err? ==> r.store == s
    ensures r.result == Err(NotFound) <==> c !in s.categories
    ensures r.result == Err(Protected) <==> c in s.categories && HasBooks(s, c)
    ensures r.result.Ok? <==> c in s.categories && !HasBooks(s, c)
    ensures r.result.Ok? ==> c in s.categories && r.store == s.(categories := s.categories - {c})
  {
    if c !in s.categories then Reply(s, Err(NotFound))
    else if HasBooks(s, c) then Reply(s, Err(Protected))
    else Reply(s.(categories := s.categories - {c}), Ok(()))
  }

  /** DELETE on a category as written: the guard counts the join rows of
      every category, not of the one being deleted. */
  function DestroyCategory(s: Store, c: CategoryId): (r: Reply<()>)
    ensures r.result.Err? ==> r.store == s
    ensures s.categories != map[] ==>
      r.result == Err(NotAllowed(CategoryHasBooksMessage))
  {
    if ValuesBooksCount(s) > 0 then
      Reply(s, Err(NotAllowed(CategoryHasBooksMessage)))
    else DeleteCategoryRow(s, c)
  }

  /** The guard as written refuses every deletion: while any category
      exists the join has a row, and without categories there is nothing
      to delete. */
  lemma DestroyCategoryNeverSucceeds(s: Store, c: CategoryId)
    ensures DestroyCategory(s, c).result.Err?
    ensures DestroyCategory(s, c).store == s
  {
  }

  /** The store holding one category with no book in it. */
  const OneEmptyCategory: Store := Empty.(categories := map[1 := Category(None)])

  /** An empty category that the guard as written refuses to delete, and
      that the intended guard deletes. */
  lemma EmptyCategoryRefused()
    ensures Valid(OneEmptyCategory)
    ensures DestroyCategory(OneEmptyCategory, 1).result
         == Err(NotAllowed(CategoryHasBooksMessage))
    ensures DestroyCategoryIntended(OneEmptyCategory, 1).result.Ok?
  {
  }

  /** DELETE on a category, with the guard looking at the category being
      deleted: refused exactly while a book is filed under it. */
  function DestroyCategoryIntended(s: Store, c: CategoryId): (r: Reply<()>)
    ensures r.result.Err? ==> r.store == s
    ensures r.result == Err(NotAllowed(CategoryHasBooksMessage))
        <==> HasBooks(s, c)
    ensures r.result.Ok? <==> c in s.categories && !HasBooks(s, c)
    ensures r.result.Ok? ==> r.store == s.(categories := s.categories - {c})
  {
    if HasBooks(s, c) then
      Reply(s, Err(NotAllowed(CategoryHasBooksMessage)))
    else DeleteCategoryRow(s, c)
  }

  lemma DestroyCategoryIntendedPreservesValid(s: Store, c: CategoryId)
    requires Valid(s)
    ensures Valid(DestroyCategoryIntended(s, c).store)
  {
  }
}
