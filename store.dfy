/** The shop's database as the cart pages drive it: the three tables as fields
    that each operation updates in place. */
module Shop {
  import opened Options
  import opened Catalog
  import opened CartTables

  class Store {
    var products: seq<Product>
    var cart: seq<CartRow>
    var purchases: seq<PurchaseRow>

    /** The cart only ever receives quantity 1 or a positive overwrite, and rows
        are deleted rather than set to zero. */
    ghost predicate Valid()
      reads this
    {
      PositiveQuantities(cart)
    }

    /** A store with the given catalogue and purchase history and an empty cart. */
    constructor (catalogue: seq<Product>, history: seq<PurchaseRow>)
      ensures Valid()
      ensures products == catalogue && cart == [] && purchases == history
    {
      products := catalogue;
      cart := [];
      purchases := history;
    }

    /** "Add to Cart" on a product card: inserts a fresh row `(user, product, 1)`
        behind every existing row, without looking for one to merge into. */
    method AddToCart(user: UserId, product: ProductId)
      requires Valid()
      modifies this
      ensures Valid()
      ensures cart == old(cart) + [AddedRow(user, product)]
      ensures products == old(products) && purchases == old(purchases)
      ensures MatchCount(cart, user, product) == old(MatchCount(cart, user, product)) + 1
      ensures forall other :: other != user ==> UserRows(cart, other) == old(UserRows(cart, other))
    {
      cart := cart + [AddedRow(user, product)];
      MatchCountAppend(old(cart), [AddedRow(user, product)], user, product);
      assert [AddedRow(user, product)][1..] == [];
      forall other | other != user
        ensures UserRows(cart, other) == UserRows(old(cart), other)
      {
        AddToCartEffect(old(cart), user, product, other);
      }
    }

    /** The home page's "Add to Cart" for the first popular product; nothing is
        inserted when there is no popular product. */
    method AddFirstPopularToCart(user: UserId) returns (shown: Option<Product>)
      requires Valid()
      modifies this
      ensures Valid()
      ensures shown == FirstPopular(products)
      ensures cart == old(cart) + (if shown.Some? then [AddedRow(user, shown.value.id)] else [])
      ensures products == old(products) && purchases == old(purchases)
    {
      shown := FirstPopular(products);
      if shown.Some? {
        AddToCart(user, shown.value.id);
      }
    }

    /** `update_cart_quantity`: a positive quantity overwrites the quantity of
        every row of the pair; zero or less deletes every row of the pair. */
    method UpdateCartQuantity(user: UserId, product: ProductId, newQuantity: int)
      requires Valid()
      modifies this
      ensures Valid()
      ensures cart == if newQuantity > 0 then SetQuantity(old(cart), user, product, newQuantity)
                      else DeleteRows(old(cart), user, product)
      ensures products == old(products) && purchases == old(purchases)
      ensures newQuantity > 0 ==>
                |cart| == old(|cart|) && PairQuantity(cart, user, product) == newQuantity * old(MatchCount(cart, user, product))
      ensures newQuantity <= 0 ==> forall x :: x in cart ==> !Matches(x, user, product)
      ensures newQuantity <= 0 ==>
                forall x :: !Matches(x, user, product) ==> multiset(cart)[x] == old(multiset(cart))[x]
      ensures forall other :: other != user ==> UserRows(cart, other) == old(UserRows(cart, other))
    {
      if newQuantity > 0 {
        SetQuantityKeepsPositive(cart, user, product, newQuantity);
        SetQuantityPairQuantity(cart, user, product, newQuantity);
        cart := SetQuantity(cart, user, product, newQuantity);
      } else {
        cart := DeleteRows(cart, user, product);
      }
      forall other | other != user
        ensures UserRows(cart, other) == UserRows(old(cart), other)
      {
        SetQuantityOtherUsers(old(cart), user, product, newQuantity, other);
        DeleteRowsOtherUsers(old(cart), user, product, other);
      }
    }

    /** The cart page: the joined items of the user and the total cost. */
    method CartView(user: UserId) returns (items: seq<CartItem>, total: real)
      ensures items == JoinCart(cart, products, user)
      ensures total == CartValue(cart, products, user)
    {
      items := JoinCart(cart, products, user);
      total := SumItems(items);
      TotalCostIsCartValue(cart, products, user);
    }

    /** The cart page's loop: `price * quantity` added to the total item by item. */
    static method SumItems(items: seq<CartItem>) returns (total: real)
      ensures total == TotalCost(items)
    {
      total := 0.0;
      var i := 0;
      while i < |items|
        invariant 0 <= i <= |items|
        invariant total == TotalCost(items[..i])
      {
        assert items[..i + 1][..i] == items[..i];
        total := total + Charge(items[i].price, items[i].quantity);
        i := i + 1;
      }
      assert items[..i] == items;
    }

    /** The purchase loop: appends one purchase row per item, in item order,
        stamped with the `k`-th reading of the clock. */
    method AppendPurchases(user: UserId, items: seq<CartItem>, clock: nat -> Timestamp)
      modifies this
      ensures purchases == old(purchases) + PurchaseRows(items, user, clock)
      ensures cart == old(cart) && products == old(products)
    {
      var i := 0;
      while i < |items|
        invariant 0 <= i <= |items|
        invariant purchases == old(purchases) + PurchaseRows(items[..i], user, clock)
        invariant cart == old(cart) && products == old(products)
      {
        assert items[..i + 1][..i] == items[..i];
        purchases := purchases + [PurchaseRow(user, items[i].productId, items[i].quantity, clock(i))];
        i := i + 1;
      }
      assert items[..i] == items;
    }

    /** The "Purchase" button: one purchase row per item read by the cart page,
        in that order; then every cart row of the user is deleted. The amount
        reported as paid is the total the page computed. */
    method Purchase(user: UserId, clock: nat -> Timestamp) returns (items: seq<CartItem>, paid: real)
      requires Valid()
      modifies this
      ensures Valid()
      ensures items == JoinCart(old(cart), old(products), user)
      ensures paid == CartValue(old(cart), old(products), user)
      ensures purchases == old(purchases) + PurchaseRows(items, user, clock)
      ensures forall row :: row in purchases[old(|purchases|)..] ==> row.quantity > 0
      ensures cart == ClearUser(old(cart), user)
      ensures products == old(products)
      ensures UserRows(cart, user) == []
      ensures forall other :: other != user ==> UserRows(cart, other) == old(UserRows(cart, other))
      ensures UniqueIds(products) ==> LedgerValue(purchases[old(|purchases|)..], products) == paid
      ensures UniqueIds(products) ==> |purchases| == old(|purchases|) + |FoundRows(old(cart), products, user)|
    {
      items, paid := CartView(user);
      AppendPurchases(user, items, clock);
      ghost var appended := purchases[old(|purchases|)..];
      assert appended == PurchaseRows(items, user, clock);
      JoinCartPositive(cart, products, user);
      PurchaseRowsPositive(items, user, clock);
      if UniqueIds(products) {
        PaidMatchesLedger(cart, products, user, clock);
        JoinCartUnique(cart, products, user);
      }
      cart := ClearUser(cart, user);
      forall other | other != user
        ensures UserRows(cart, other) == UserRows(old(cart), other)
      {
        ClearUserEffect(old(cart), user, other);
      }
      ClearUserLeavesNone(old(cart), user);
    }
  }
}
