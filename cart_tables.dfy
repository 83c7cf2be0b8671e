/** The `cart` and `purchases` tables, the effect of each SQL statement the cart
    code runs on them, and the join that prices a user's cart. Every statement is
    a function from the old table to the new one; the class in module Shop
    applies them. */
module CartTables {
  import opened Options
  import opened Catalog

  type UserId = int
  type Timestamp = int

  /** A row of `cart`. Its AUTOINCREMENT id only fixes the order of the rows,
      which the sequence keeps. */
  datatype CartRow = CartRow(userId: UserId, productId: ProductId, quantity: int)

  /** A row of the cart join `SELECT p.id, p.name, p.price, c.quantity`. */
  datatype CartItem = CartItem(productId: ProductId, name: string, price: real, quantity: int)

  /** A row of `purchases`. */
  datatype PurchaseRow = PurchaseRow(userId: UserId, productId: ProductId, quantity: int, date: Timestamp)

  predicate Matches(row: CartRow, user: UserId, product: ProductId)
  {
    row.userId == user && row.productId == product
  }

  /** No cart row holds a quantity below one. */
  predicate PositiveQuantities(cart: seq<CartRow>)
  {
    forall x :: x in cart ==> x.quantity > 0
  }

  /** Number of rows for the pair `(user, product)`. */
  function MatchCount(cart: seq<CartRow>, user: UserId, product: ProductId): nat
  {
    if cart == [] then 0
    else (if Matches(cart[0], user, product) then 1 else 0) + MatchCount(cart[1..], user, product)
  }

  /** Total quantity held for the pair `(user, product)` over all its rows. */
  function PairQuantity(cart: seq<CartRow>, user: UserId, product: ProductId): int
  {
    if cart == [] then 0
    else (if Matches(cart[0], user, product) then cart[0].quantity else 0)
         + PairQuantity(cart[1..], user, product)
  }

  /** The rows of one user, in table order: what that user can see of the cart. */
  function UserRows(cart: seq<CartRow>, user: UserId): (r: seq<CartRow>)
    ensures forall x :: x in r <==> x in cart && x.userId == user
    ensures |r| <= |cart|
  {
    if cart == [] then []
    else (if cart[0].userId == user then [cart[0]] else []) + UserRows(cart[1..], user)
  }

  lemma {:induction false} UserRowsAppend(a: seq<CartRow>, b: seq<CartRow>, user: UserId)
    ensures UserRows(a + b, user) == UserRows(a, user) + UserRows(b, user)
  {
    if a != [] {
      assert (a + b)[0] == a[0] && (a + b)[1..] == a[1..] + b;
      UserRowsAppend(a[1..], b, user);
    } else {
      assert a + b == b;
    }
  }

  lemma {:induction false} MatchCountAppend(a: seq<CartRow>, b: seq<CartRow>, user: UserId, product: ProductId)
    ensures MatchCount(a + b, user, product) == MatchCount(a, user, product) + MatchCount(b, user, product)
  {
    if a != [] {
      assert (a + b)[0] == a[0] && (a + b)[1..] == a[1..] + b;
      MatchCountAppend(a[1..], b, user, product);
    } else {
      assert a + b == b;
    }
  }

  // ---------------------------------------------------------------------------
  // INSERT INTO cart (user_id, product_id, quantity) VALUES (user, product, 1)

  function AddedRow(user: UserId, product: ProductId): CartRow
  {
    CartRow(user, product, 1)
  }

  /** Adding to the cart never merges: the pair gains one more row even when it
      already had one, the user's view grows by exactly that row at the end, and
      every other user's view is unchanged. */
  lemma AddToCartEffect(cart: seq<CartRow>, user: UserId, product: ProductId, other: UserId)
    requires other != user
    ensures MatchCount(cart + [AddedRow(user, product)], user, product) == MatchCount(cart, user, product) + 1
    ensures UserRows(cart + [AddedRow(user, product)], user) == UserRows(cart, user) + [AddedRow(user, product)]
    ensures UserRows(cart + [AddedRow(user, product)], other) == UserRows(cart, other)
  {
    var row := AddedRow(user, product);
    MatchCountAppend(cart, [row], user, product);
    UserRowsAppend(cart, [row], user);
    UserRowsAppend(cart, [row], other);
    assert [row][1..] == [];
  }

  // ---------------------------------------------------------------------------
  // UPDATE cart SET quantity = q WHERE user_id = user AND product_id = product

  function SetQuantity(cart: seq<CartRow>, user: UserId, product: ProductId, q: int): (r: seq<CartRow>)
    ensures |r| == |cart|
    ensures forall k :: 0 <= k < |cart| ==>
              r[k] == if Matches(cart[k], user, product) then cart[k].(quantity := q) else cart[k]
  {
    if cart == [] then []
    else [if Matches(cart[0], user, product) then cart[0].(quantity := q) else cart[0]]
         + SetQuantity(cart[1..], user, product, q)
  }

  /** The update touches no other user's rows. */
  lemma {:induction false} SetQuantityOtherUsers(cart: seq<CartRow>, user: UserId, product: ProductId, q: int, other: UserId)
    requires other != user
    ensures UserRows(SetQuantity(cart, user, product, q), other) == UserRows(cart, other)
  {
    if cart != [] {
      var r := SetQuantity(cart, user, product, q);
      assert r[1..] == SetQuantity(cart[1..], user, product, q);
      SetQuantityOtherUsers(cart[1..], user, product, q, other);
    }
  }

  /** Every duplicate row of the pair gets the new quantity, so the pair ends up
      holding `q` times its number of rows; with no row the cart is unchanged. */
  lemma {:induction false} SetQuantityPairQuantity(cart: seq<CartRow>, user: UserId, product: ProductId, q: int)
    ensures PairQuantity(SetQuantity(cart, user, product, q), user, product) == q * MatchCount(cart, user, product)
    ensures MatchCount(SetQuantity(cart, user, product, q), user, product) == MatchCount(cart, user, product)
    ensures MatchCount(cart, user, product) == 0 ==> SetQuantity(cart, user, product, q) == cart
  {
    if cart != [] {
      var r := SetQuantity(cart, user, product, q);
      assert r[1..] == SetQuantity(cart[1..], user, product, q);
      SetQuantityPairQuantity(cart[1..], user, product, q);
      ScaleSum(q, if Matches(cart[0], user, product) then 1 else 0, MatchCount(cart[1..], user, product));
    }
  }

  lemma ScaleSum(q: int, a: int, b: int)
    ensures q * (a + b) == q * a + q * b
  {
  }

  /** A positive new quantity keeps every cart quantity positive. */
  lemma SetQuantityKeepsPositive(cart: seq<CartRow>, user: UserId, product: ProductId, q: int)
    requires PositiveQuantities(cart) && q > 0
    ensures PositiveQuantities(SetQuantity(cart, user, product, q))
  {
    var r := SetQuantity(cart, user, product, q);
    forall x | x in r ensures x.quantity > 0 {
      var k :| 0 <= k < |r| && r[k] == x;
      assert cart[k] in cart;
    }
  }

  // ---------------------------------------------------------------------------
  // DELETE FROM cart WHERE user_id = user AND product_id = product

  function DeleteRows(cart: seq<CartRow>, user: UserId, product: ProductId): (r: seq<CartRow>)
    ensures forall x :: x in r <==> x in cart && !Matches(x, user, product)
    ensures forall x :: !Matches(x, user, product) ==> multiset(r)[x] == multiset(cart)[x]
    ensures |r| == |cart| - MatchCount(cart, user, product)
    ensures MatchCount(cart, user, product) == 0 ==> r == cart
  {
    if cart == [] then []
    else
      assert cart == [cart[0]] + cart[1..];
      (if Matches(cart[0], user, product) then [] else [cart[0]])
      + DeleteRows(cart[1..], user, product)
  }

  /** The deletion touches no other user's rows. */
  lemma {:induction false} DeleteRowsOtherUsers(cart: seq<CartRow>, user: UserId, product: ProductId, other: UserId)
    requires other != user
    ensures UserRows(DeleteRows(cart, user, product), other) == UserRows(cart, other)
  {
    if cart != [] {
      var head := if Matches(cart[0], user, product) then [] else [cart[0]];
      UserRowsAppend(head, DeleteRows(cart[1..], user, product), other);
      DeleteRowsOtherUsers(cart[1..], user, product, other);
      if head != [] {
        assert head[1..] == [];
      }
    }
  }

  // ---------------------------------------------------------------------------
  // DELETE FROM cart WHERE user_id = user

  function ClearUser(cart: seq<CartRow>, user: UserId): (r: seq<CartRow>)
    ensures forall x :: x in r <==> x in cart && x.userId != user
    ensures |r| == |cart| - |UserRows(cart, user)|
  {
    if cart == [] then []
    else (if cart[0].userId == user then [] else [cart[0]]) + ClearUser(cart[1..], user)
  }

  /** After the checkout delete the user has no rows left. */
  lemma {:induction false} ClearUserLeavesNone(cart: seq<CartRow>, user: UserId)
    ensures UserRows(ClearUser(cart, user), user) == []
  {
    if cart != [] {
      var head := if cart[0].userId == user then [] else [cart[0]];
      UserRowsAppend(head, ClearUser(cart[1..], user), user);
      ClearUserLeavesNone(cart[1..], user);
      if head != [] {
        assert head[1..] == [];
      }
    }
  }

  /** After the checkout delete every other user keeps exactly the rows they
      had, in order. */
  lemma {:induction false} ClearUserEffect(cart: seq<CartRow>, user: UserId, other: UserId)
    requires other != user
    ensures UserRows(ClearUser(cart, user), other) == UserRows(cart, other)
  {
    if cart != [] {
      var head := if cart[0].userId == user then [] else [cart[0]];
      UserRowsAppend(head, ClearUser(cart[1..], user), other);
      ClearUserEffect(cart[1..], user, other);
      if head != [] {
        assert head[1..] == [];
      }
    }
  }

  // ---------------------------------------------------------------------------
  // SELECT p.id, p.name, p.price, c.quantity FROM cart c
  //   JOIN products p ON c.product_id = p.id WHERE c.user_id = user

  /** The item a cart row and a product produce when they join. */
  function ItemFor(row: CartRow, p: Product): CartItem
  {
    CartItem(p.id, p.name, p.price, row.quantity)
  }

  /** The items one cart row joins to: one per product row with its id. */
  function JoinRow(row: CartRow, products: seq<Product>): (r: seq<CartItem>)
    ensures forall it :: it in r ==> it.productId == row.productId && it.quantity == row.quantity
    ensures r != [] ==> Lookup(products, row.productId).Some?
  {
    if products == [] then []
    else (if products[0].id == row.productId then [ItemFor(row, products[0])] else [])
         + JoinRow(row, products[1..])
  }

  /** The inner join, cart rows in table order. Being an inner join, it yields
      items only for products present in the catalogue. */
  function JoinCart(cart: seq<CartRow>, products: seq<Product>, user: UserId): (r: seq<CartItem>)
    ensures forall it :: it in r ==> Lookup(products, it.productId).Some?
  {
    if cart == [] then []
    else (if cart[0].userId == user then JoinRow(cart[0], products) else [])
         + JoinCart(cart[1..], products, user)
  }

  lemma {:induction false} JoinRowMember(row: CartRow, products: seq<Product>, it: CartItem)
    ensures it in JoinRow(row, products) <==>
            exists p :: p in products && p.id == row.productId && it == ItemFor(row, p)
  {
    if products != [] {
      JoinRowMember(row, products[1..], it);
      if exists p :: p in products && p.id == row.productId && it == ItemFor(row, p) {
        var p :| p in products && p.id == row.productId && it == ItemFor(row, p);
        if p != products[0] {
          assert p in products[1..];
        }
      }
    }
  }

  /** An item is in the join exactly when some cart row of the user and some
      product carrying that row's product id produce it: rows of other users and
      rows whose product is missing yield nothing. */
  lemma {:induction false} JoinCartMember(cart: seq<CartRow>, products: seq<Product>, user: UserId, it: CartItem)
    ensures it in JoinCart(cart, products, user) <==>
            exists row, p :: row in cart && row.userId == user && p in products
                             && p.id == row.productId && it == ItemFor(row, p)
  {
    if cart != [] {
      JoinCartMember(cart[1..], products, user, it);
      JoinRowMember(cart[0], products, it);
      if exists row, p :: row in cart && row.userId == user && p in products
                          && p.id == row.productId && it == ItemFor(row, p) {
        var row, p :| row in cart && row.userId == user && p in products
                      && p.id == row.productId && it == ItemFor(row, p);
        if row != cart[0] {
          assert row in cart[1..];
        }
      }
    }
  }

  /** Every item of a user whose cart quantities are positive has a positive
      quantity. */
  lemma JoinCartPositive(cart: seq<CartRow>, products: seq<Product>, user: UserId)
    requires PositiveQuantities(cart)
    ensures forall it :: it in JoinCart(cart, products, user) ==> it.quantity > 0
  {
    forall it | it in JoinCart(cart, products, user) ensures it.quantity > 0 {
      JoinCartMember(cart, products, user, it);
    }
  }

  lemma {:induction false} JoinRowMissing(row: CartRow, products: seq<Product>)
    requires forall p :: p in products ==> p.id != row.productId
    ensures JoinRow(row, products) == []
  {
    if products != [] {
      assert products[0] in products;
      JoinRowMissing(row, products[1..]);
    }
  }

  /** A cart row whose product is missing from the catalogue adds nothing. */
  lemma {:induction false} JoinSkipsMissing(cart: seq<CartRow>, row: CartRow, products: seq<Product>, user: UserId)
    requires forall p :: p in products ==> p.id != row.productId
    ensures JoinCart(cart + [row], products, user) == JoinCart(cart, products, user)
  {
    if cart == [] {
      assert [row][1..] == [];
      JoinRowMissing(row, products);
    } else {
      assert (cart + [row])[0] == cart[0] && (cart + [row])[1..] == cart[1..] + [row];
      JoinSkipsMissing(cart[1..], row, products, user);
    }
  }

  /** The user's rows whose product is in the catalogue, in table order. */
  function FoundRows(cart: seq<CartRow>, products: seq<Product>, user: UserId): (r: seq<CartRow>)
    ensures forall x :: x in r <==> x in cart && x.userId == user && Lookup(products, x.productId).Some?
  {
    if cart == [] then []
    else (if cart[0].userId == user && Lookup(products, cart[0].productId).Some? then [cart[0]] else [])
         + FoundRows(cart[1..], products, user)
  }

  /** Each row paired with the product its id looks up. */
  function ItemsOf(rows: seq<CartRow>, products: seq<Product>): (r: seq<CartItem>)
    requires forall x :: x in rows ==> Lookup(products, x.productId).Some?
    ensures |r| == |rows|
    ensures forall k :: 0 <= k < |rows| ==> r[k] == ItemFor(rows[k], Lookup(products, rows[k].productId).value)
  {
    if rows == [] then []
    else [ItemFor(rows[0], Lookup(products, rows[0].productId).value)] + ItemsOf(rows[1..], products)
  }

  /** Dropping the first product keeps the ids unique, and none of the others
      carries its id. */
  lemma UniqueIdsTail(products: seq<Product>)
    requires UniqueIds(products) && products != []
    ensures UniqueIds(products[1..])
    ensures forall p :: p in products[1..] ==> p.id != products[0].id
  {
    forall i, j | 0 <= i < j < |products[1..]| ensures products[1..][i].id != products[1..][j].id {
      assert products[1..][i] == products[i + 1] && products[1..][j] == products[j + 1];
    }
    forall p | p in products[1..] ensures p.id != products[0].id {
      var j :| 0 <= j < |products[1..]| && products[1..][j] == p;
      assert products[j + 1] == p;
    }
  }

  /** With one product per id, a cart row joins to exactly its product, or to
      nothing when the product is missing. */
  lemma {:induction false} JoinRowUnique(row: CartRow, products: seq<Product>)
    requires UniqueIds(products)
    ensures JoinRow(row, products) == match Lookup(products, row.productId)
                                      case Some(p) => [ItemFor(row, p)]
                                      case None => []
  {
    if products != [] {
      UniqueIdsTail(products);
      if products[0].id == row.productId {
        JoinRowMissing(row, products[1..]);
      } else {
        JoinRowUnique(row, products[1..]);
      }
    }
  }

  /** With one product per id, the join holds one item per row of the user whose
      product exists, in table order, carrying that product's id, name and price
      and the row's quantity. Two clicks on "Add to Cart" therefore give two
      items, not one item of quantity two. */
  lemma {:induction false} JoinCartUnique(cart: seq<CartRow>, products: seq<Product>, user: UserId)
    requires UniqueIds(products)
    ensures JoinCart(cart, products, user) == ItemsOf(FoundRows(cart, products, user), products)
  {
    if cart != [] {
      JoinCartUnique(cart[1..], products, user);
      JoinRowUnique(cart[0], products);
      var found := FoundRows(cart, products, user);
      if cart[0].userId == user && Lookup(products, cart[0].productId).Some? {
        assert found[1..] == FoundRows(cart[1..], products, user);
      }
    }
  }

  /** What `quantity` units at `price` cost: the page's `price * quantity`. */
  function Charge(price: real, quantity: int): real
  {
    price * quantity as real
  }

  /** `price * quantity` summed over the items, accumulated front to back as the
      cart page does. */
  function TotalCost(items: seq<CartItem>): real
  {
    if items == [] then 0.0
    else TotalCost(items[..|items| - 1]) + Charge(items[|items| - 1].price, items[|items| - 1].quantity)
  }

  /** Items of non-negative price and quantity cost a non-negative total. */
  lemma {:induction false} TotalCostNonNegative(items: seq<CartItem>)
    requires forall k :: 0 <= k < |items| ==> items[k].price >= 0.0 && items[k].quantity >= 0
    ensures TotalCost(items) >= 0.0
  {
    if items != [] {
      var n := |items| - 1;
      TotalCostNonNegative(items[..n]);
      var last := items[n];
      assert Charge(last.price, last.quantity) >= 0.0;
    }
  }

  lemma {:induction false} TotalCostAppend(a: seq<CartItem>, b: seq<CartItem>)
    ensures TotalCost(a + b) == TotalCost(a) + TotalCost(b)
  {
    if b == [] {
      assert a + b == a;
    } else {
      var ab := a + b;
      assert ab[..|ab| - 1] == a + b[..|b| - 1];
      assert ab[|ab| - 1] == b[|b| - 1];
      TotalCostAppend(a, b[..|b| - 1]);
    }
  }

  /** What one cart row is charged: its quantity at the price of every product
      row carrying its product id, so nothing when the product is missing. */
  function RowCharge(row: CartRow, products: seq<Product>): real
  {
    if products == [] then 0.0
    else (if products[0].id == row.productId then Charge(products[0].price, row.quantity) else 0.0)
         + RowCharge(row, products[1..])
  }

  /** Reference definition of a user's cart value, row by row. */
  function CartValue(cart: seq<CartRow>, products: seq<Product>, user: UserId): real
  {
    if cart == [] then 0.0
    else (if cart[0].userId == user then RowCharge(cart[0], products) else 0.0)
         + CartValue(cart[1..], products, user)
  }

  lemma {:induction false} JoinRowCost(row: CartRow, products: seq<Product>)
    ensures TotalCost(JoinRow(row, products)) == RowCharge(row, products)
  {
    if products != [] {
      var head := if products[0].id == row.productId then [ItemFor(row, products[0])] else [];
      var tail := JoinRow(row, products[1..]);
      assert JoinRow(row, products) == head + tail;
      TotalCostAppend(head, tail);
      if head != [] {
        assert head[..0] == [];
      }
      JoinRowCost(row, products[1..]);
    }
  }

  /** The total the cart page shows equals the row-by-row cart value: rows whose
      product is missing are dropped by the join and contribute nothing. */
  lemma {:induction false} TotalCostIsCartValue(cart: seq<CartRow>, products: seq<Product>, user: UserId)
    ensures TotalCost(JoinCart(cart, products, user)) == CartValue(cart, products, user)
  {
    if cart != [] {
      var head := if cart[0].userId == user then JoinRow(cart[0], products) else [];
      TotalCostAppend(head, JoinCart(cart[1..], products, user));
      TotalCostIsCartValue(cart[1..], products, user);
      JoinRowCost(cart[0], products);
    }
  }

  lemma {:induction false} RowChargeMissing(row: CartRow, products: seq<Product>)
    requires forall p :: p in products ==> p.id != row.productId
    ensures RowCharge(row, products) == 0.0
  {
    if products != [] {
      assert products[0] in products;
      RowChargeMissing(row, products[1..]);
    }
  }

  /** With one product per id, a row is charged its quantity times the unit
      price of its product, and nothing when the product is missing. */
  lemma {:induction false} RowChargeUnique(row: CartRow, products: seq<Product>)
    requires UniqueIds(products)
    ensures RowCharge(row, products) == Charge(UnitPrice(products, row.productId), row.quantity)
  {
    if products != [] {
      UniqueIdsTail(products);
      if products[0].id == row.productId {
        RowChargeMissing(row, products[1..]);
      } else {
        RowChargeUnique(row, products[1..]);
      }
    }
  }

  /** One click on "Add to Cart" raises the user's cart value by the product's
      unit price, although the unit lands on a new row rather than merging. */
  lemma AddToCartValue(cart: seq<CartRow>, products: seq<Product>, user: UserId, product: ProductId)
    requires UniqueIds(products)
    ensures CartValue(cart + [AddedRow(user, product)], products, user)
            == CartValue(cart, products, user) + UnitPrice(products, product)
  {
    var row := AddedRow(user, product);
    var before := JoinCart(cart, products, user);
    JoinCartAppend(cart, [row], products, user);
    assert JoinCart([row], products, user) == JoinRow(row, products) + JoinCart([], products, user);
    assert JoinCart([row], products, user) == JoinRow(row, products);
    assert JoinCart(cart + [row], products, user) == before + JoinRow(row, products);
    TotalCostAppend(before, JoinRow(row, products));
    JoinRowCost(row, products);
    RowChargeUnique(row, products);
    assert RowCharge(row, products) == UnitPrice(products, product);
    TotalCostIsCartValue(cart + [row], products, user);
    TotalCostIsCartValue(cart, products, user);
  }

  lemma {:induction false} JoinCartAppend(a: seq<CartRow>, b: seq<CartRow>, products: seq<Product>, user: UserId)
    ensures JoinCart(a + b, products, user) == JoinCart(a, products, user) + JoinCart(b, products, user)
  {
    if a != [] {
      assert (a + b)[0] == a[0] && (a + b)[1..] == a[1..] + b;
      JoinCartAppend(a[1..], b, products, user);
    } else {
      assert a + b == b;
    }
  }

  // ---------------------------------------------------------------------------
  // INSERT INTO purchases ... VALUES (user, product_id, quantity, now()), once per item

  /** The rows the purchase loop appends: one per item, in item order, carrying
      the user, the item's product id and quantity, and the `k`-th clock reading. */
  function PurchaseRows(items: seq<CartItem>, user: UserId, clock: nat -> Timestamp): (r: seq<PurchaseRow>)
    ensures |r| == |items|
    ensures forall k :: 0 <= k < |items| ==>
              r[k] == PurchaseRow(user, items[k].productId, items[k].quantity, clock(k))
  {
    if items == [] then []
    else
      var n := |items| - 1;
      PurchaseRows(items[..n], user, clock) + [PurchaseRow(user, items[n].productId, items[n].quantity, clock(n))]
  }

  /** Items of positive quantity become purchase rows of positive quantity. */
  lemma PurchaseRowsPositive(items: seq<CartItem>, user: UserId, clock: nat -> Timestamp)
    requires forall it :: it in items ==> it.quantity > 0
    ensures forall row :: row in PurchaseRows(items, user, clock) ==> row.quantity > 0
  {
    var rows := PurchaseRows(items, user, clock);
    forall row | row in rows ensures row.quantity > 0 {
      var k :| 0 <= k < |rows| && rows[k] == row;
      assert items[k] in items;
    }
  }

  /** What a list of purchase rows is worth at current catalogue prices. */
  function LedgerValue(rows: seq<PurchaseRow>, products: seq<Product>): real
  {
    if rows == [] then 0.0
    else
      var n := |rows| - 1;
      LedgerValue(rows[..n], products) + Charge(UnitPrice(products, rows[n].productId), rows[n].quantity)
  }

  /** Items priced at their product's catalogue price. */
  predicate PricedFromCatalogue(items: seq<CartItem>, products: seq<Product>)
  {
    forall k :: 0 <= k < |items| ==> items[k].price == UnitPrice(products, items[k].productId)
  }

  lemma {:induction false} LedgerValueOfItems(items: seq<CartItem>, products: seq<Product>, user: UserId, clock: nat -> Timestamp)
    requires PricedFromCatalogue(items, products)
    ensures LedgerValue(PurchaseRows(items, user, clock), products) == TotalCost(items)
  {
    if items != [] {
      var n := |items| - 1;
      var rows := PurchaseRows(items, user, clock);
      assert rows[..n] == PurchaseRows(items[..n], user, clock);
      assert PricedFromCatalogue(items[..n], products) by {
        forall k | 0 <= k < n ensures items[..n][k].price == UnitPrice(products, items[..n][k].productId) {
          assert items[..n][k] == items[k];
        }
      }
      LedgerValueOfItems(items[..n], products, user, clock);
    }
  }

  /** With one product per id, every joined item carries its product's price. */
  lemma JoinCartPriced(cart: seq<CartRow>, products: seq<Product>, user: UserId)
    requires UniqueIds(products)
    ensures PricedFromCatalogue(JoinCart(cart, products, user), products)
  {
    var items := JoinCart(cart, products, user);
    forall k | 0 <= k < |items| ensures items[k].price == UnitPrice(products, items[k].productId) {
      JoinCartMember(cart, products, user, items[k]);
      var row, p :| row in cart && row.userId == user && p in products
                    && p.id == row.productId && items[k] == ItemFor(row, p);
      var i :| 0 <= i < |products| && products[i] == p;
      var q := Lookup(products, p.id).value;
      var j :| 0 <= j < |products| && products[j] == q;
      assert i == j;
    }
  }

  /** The amount reported as paid equals what the appended purchase rows are
      worth at catalogue prices, because both come from the same join; this
      needs one product per id. */
  lemma PaidMatchesLedger(cart: seq<CartRow>, products: seq<Product>, user: UserId, clock: nat -> Timestamp)
    requires UniqueIds(products)
    ensures LedgerValue(PurchaseRows(JoinCart(cart, products, user), user, clock), products)
            == TotalCost(JoinCart(cart, products, user))
            == CartValue(cart, products, user)
  {
    JoinCartPriced(cart, products, user);
    LedgerValueOfItems(JoinCart(cart, products, user), products, user, clock);
    TotalCostIsCartValue(cart, products, user);
  }
}
