# Cart-to-purchase core of the Streamlit store (`app6.py`)

This project models the shopping logic of the single-file Streamlit store.
The store keeps its data in SQLite. This model holds three tables in memory:

- `products`: id, name, price, is_popular, description;
- `cart`: user_id, product_id, quantity;
- `purchases`: user_id, product_id, quantity, date.

Modules:

- `Options` (`options.dfy`) holds the optional value the queries and the parser return.
- `Catalog` (`catalog.dfy`) holds the product row and SQLite's `LIKE` operator. It defines the three catalogue queries as pure filters: the products page with its search box, the popular page, and the home page's first popular product.
- `CartTables` (`cart_tables.dfy`) defines each SQL statement the cart code runs as a function from the old table to the new one. It also holds the cart join and two reference definitions: the cart's value row by row, and the value of a list of purchase rows at catalogue prices. The lemmas about these functions are here too.
- `Shop` (`store.dfy`) has a class `Store` whose fields are the three tables. Its methods are:
  - the two "Add to Cart" buttons;
  - `update_cart_quantity`;
  - the cart page's total loop;
  - the purchase loop, followed by the delete of the user's cart.

  Each method's postcondition ties the new tables to the `CartTables` functions of the old ones.
- `Color` (`color.dfy`) models `hex_to_rgba`. It strips the leading `#` characters and applies Python's `int(pair, 16)` to three slices. That parse follows Python's own grammar: surrounding whitespace, a sign, a `0x` prefix and `_` separators are all accepted. On the two-character slices `hex_to_rgba` takes, the model pins down exactly which slices parse.

Where the code departs from how a shopping cart is usually meant to behave, the model follows the code:

- Adding to the cart always inserts a new row `(user, product, 1)`. It never merges into an existing row, so a pair can hold several rows. An update of the pair then sets every one of them, and the pair ends up holding the new quantity times its row count.
- A checkout of an empty cart appends nothing and reports 0 as paid. The model does not report a separate "empty" result.
- Each purchase row is stamped with its own clock reading, not one shared timestamp.
- Nothing checks that the product exists. A cart row whose product is missing is dropped by the inner join, so it is neither charged nor purchased.
- `hex_to_rgba` accepts more than `#rrggbb`. A pair such as `-f` parses to -15, so a component lies in -15..255 in general. It lies in 0..255 when all six characters are hex digits.

The whole project verifies with

```
dafny verify --resource-limit 2000000 --verification-time-limit 0 options.dfy catalog.dfy cart_tables.dfy store.dfy color.dfy
```

## Model

| member | source | states |
|---|---|---|
| Catalog.LikeMatch | app6.py:255 | a pattern without `%` or `_` matches exactly the texts of its length that equal it up to ASCII case |
| Catalog.SearchIsSubstring | app6.py:255 | for a query without `%` or `_`, `name LIKE '%q%'` holds exactly when `q` occurs in the name, ignoring ASCII case |
| Catalog.ProductsPage | app6.py:253-258 | a row is listed as many times as it occurs in the table when it has `is_popular = 0` and either the query is empty or the name matches `'%'+query+'%'`, and not at all otherwise |
| Catalog.ProductsPageSearch | app6.py:253-258 | with a wildcard-free query, the listing holds exactly the non-popular products whose name contains the query, ignoring ASCII case |
| Catalog.PopularProducts | app6.py:264 | a row is listed as many times as it occurs in the table when it has `is_popular = 1`, and not at all otherwise |
| Catalog.FirstPopular | app6.py:327-328 | `None` iff no row has `is_popular = 1`; otherwise the row at the first index with `is_popular = 1` |
| Catalog.FirstPopularHeadsListing | app6.py:327-328 | the home page's product is the head of the popular listing, and there is none exactly when that listing is empty |
| Catalog.Lookup | app6.py:281 | `None` iff no product carries the id; otherwise a product of the table with that id |
| CartTables.AddToCartEffect | app6.py:247 | an insert adds one more row for the pair even when one exists; the user's rows grow by exactly `(user, product, 1)` at the end; every other user's rows are unchanged |
| CartTables.AddToCartValue | app6.py:247 | with one product per id, one click raises the user's cart value by the product's unit price, although the unit lands on a new row |
| CartTables.SetQuantity | app6.py:271 | same length; every row of the pair gets the new quantity; every other row is kept as it was, in place |
| CartTables.SetQuantityPairQuantity | app6.py:270-271 | after the update the pair holds `q` times its row count; the row count is unchanged; a pair with no row leaves the cart unchanged |
| CartTables.SetQuantityOtherUsers | app6.py:271 | the update leaves every other user's rows unchanged |
| CartTables.SetQuantityKeepsPositive | app6.py:270-271 | a positive new quantity keeps every cart quantity positive |
| CartTables.DeleteRows | app6.py:272-273 | no row of the pair survives; every other row keeps its number of occurrences; the length drops by the pair's row count; with no row of the pair the cart is unchanged |
| CartTables.DeleteRowsOtherUsers | app6.py:273 | the delete leaves every other user's rows unchanged |
| CartTables.ClearUser | app6.py:319 | a row survives iff it belongs to another user; the length drops by the user's row count |
| CartTables.ClearUserLeavesNone | app6.py:319 | after the checkout delete the user has no rows |
| CartTables.ClearUserEffect | app6.py:319 | after the checkout delete every other user keeps exactly the rows they had, in order |
| CartTables.JoinCart | app6.py:278-284 | being an inner join, every item carries the id of a product present in the table |
| CartTables.JoinRowUnique | app6.py:281 | with one product per id, a cart row joins to exactly its product, or to nothing when the product is missing |
| CartTables.JoinCartUnique | app6.py:278-284 | with one product per id, the join holds one item per row of the user whose product exists, in table order, with that product's id, name and price and the row's quantity |
| CartTables.JoinCartMember | app6.py:278-284 | an item is in the join iff some cart row of the user and some product with that row's product id produce it, with the product's id, name and price and the row's quantity |
| CartTables.JoinCartPositive | app6.py:278-284 | positive cart quantities give joined items of positive quantity |
| CartTables.JoinSkipsMissing | app6.py:281 | a cart row whose product is missing adds nothing to the join |
| CartTables.TotalCostNonNegative | app6.py:286-309 | items of non-negative price and quantity give a non-negative total |
| CartTables.TotalCostIsCartValue | app6.py:286-309 | the total summed over the joined items equals the row-by-row cart value, where a row with a missing product contributes nothing |
| CartTables.RowChargeUnique | app6.py:281 | with one product per id, a row is charged its quantity times its product's unit price, and nothing when the product is missing |
| CartTables.PurchaseRows | app6.py:315-318 | one purchase row per item, in item order, each with the user, the item's product id and quantity, and the `k`-th clock reading |
| CartTables.PurchaseRowsPositive | app6.py:315-318 | items of positive quantity give purchase rows of positive quantity |
| CartTables.JoinCartPriced | app6.py:279-281 | with one product per id, every joined item carries its product's catalogue price |
| CartTables.LedgerValueOfItems | app6.py:317-321 | rows appended for items priced from the catalogue are worth, at catalogue prices, the items' total |
| CartTables.PaidMatchesLedger | app6.py:309-321 | with one product per id, the appended purchase rows are worth what the page reports as paid, and that equals the cart value |
| Shop.Store.AddToCart | app6.py:246-249 | the cart becomes the old cart plus `(user, product, 1)` at the end; the pair's row count rises by one; the other tables and every other user's rows are unchanged; quantities stay positive |
| Shop.Store.AddFirstPopularToCart | app6.py:327-343 | the product shown is the first popular one; the cart gains `(user, its id, 1)` iff there is one; the other tables are unchanged |
| Shop.Store.UpdateCartQuantity | app6.py:269-274 | the cart becomes the update of the pair when the quantity is positive and the delete of the pair otherwise. A positive update keeps the length and leaves the pair holding `q` times its old row count. Otherwise no row of the pair remains and every other row keeps its number of occurrences. Other users' rows and the other tables are unchanged |
| Shop.Store.CartView | app6.py:278-309 | returns the join of the user's rows and a total equal to the row-by-row cart value |
| Shop.Store.SumItems | app6.py:286-309 | the loop's total is `price * quantity` summed over the items |
| Shop.Store.AppendPurchases | app6.py:315-318 | the purchases table becomes the old one followed by the purchase rows of the items; the cart and the products are unchanged |
| Shop.Store.Purchase | app6.py:314-321 | the items and the amount paid are the join and cart value read before any write. One row per item is appended, in order, and earlier purchases are kept. Every new row has a positive quantity. The user's cart rows are deleted and other users' rows are kept. With one product per id, the amount paid equals the appended rows' value, and one row is appended per cart row of the user whose product exists |
| Color.LStripHash | app6.py:348 | the result is no longer than the code and does not start with `#` |
| Color.StrippedAreHashes | app6.py:348 | the result is a suffix of the code, and every character stripped is a `#` |
| Color.PairParses | app6.py:349 | a slice of at most two characters parses exactly when it is one hex digit, alone or after a hex digit, a space or a sign, or before a space; anything else raises |
| Color.HexToRgbAccepts | app6.py:347-350 | the conversion returns exactly when each of the three slices of the stripped code is accepted in that sense, so `#zz0000` raises |
| Color.ParseHex | app6.py:349 | `int(t, 16)` of an empty or blank string raises |
| Color.HexToRgb | app6.py:347-350 | every component lies in -15..255; a code of fewer than five characters after its `#`s raises |
| Color.Pair | app6.py:349 | the slice `s[i:i+2]` has at most two characters, and exactly `s[i..i+2]` when the string is long enough |
| Color.ParseHexPairBound | app6.py:349 | `int(t, 16)` of a slice of at most two characters lies in -15..255 |
| Color.ParseSignedDigit | app6.py:349 | a minus sign and one hex digit parse to the digit's negated value, so the bound -15 is reached |
| Color.ParseTwoDigits | app6.py:349 | two hex digits parse to `16 * first + second` |
| Color.ByteAt | app6.py:349 | the base-16 value of two hex digits lies in 0..255 |
| Color.ParsePairAt | app6.py:349 | the slice at an offset holding two hex digits parses to their base-16 value |
| Color.PairsOfSixDigits | app6.py:349 | six hex digits give the three pairs' base-16 values |
| Color.HexToRgbWellFormed | app6.py:347-350 | a code whose stripped form starts with six hex digits gives the three pairs' base-16 values, each in 0..255 |
| Color.FormatHexRoundTrip | app6.py:347-350 | parsing the `#rrggbb` form of any colour with components in 0..255 gives that colour back |

## Left out

- Streamlit rendering, CSS, image placeholders, `st.rerun` and page routing are user interface, not logic.
- The SQLite connection, table creation and the seed purchases are I/O and set-up. The tables are sequences here, and the store's constructor takes the catalogue and the purchase history as given.
- Signup, login and password handling are credential lookups. The current user is a parameter of every operation.
- The host dashboard (pandas and plotly aggregation) and its whole-table `to_sql(..., if_exists='replace')` edits are library calls. The one trace they leave in the model is that product ids need not be unique: every lemma that needs one product per id requires `UniqueIds`.
- `datetime.datetime.now()` is a clock. It is a parameter `clock`, and the `k`-th purchase row gets `clock(k)`.
- Prices are exact `real` values. Float `REAL` rounding and the `:.2f` money formatting are not modelled.
- `Color.HexToRgb`: the `alpha` argument and the `rgba(...)` output string are not modelled. The function returns the three components, or `None` where Python raises `ValueError`.
- `Color.ParseHex`: whitespace is the ASCII set `int()` skips, space and tab to carriage return. In a string holding non-ASCII characters, Python also accepts Unicode whitespace and Unicode digits, and these are not modelled.
- Commit and rollback atomicity and concurrent sessions are not modelled. Each statement applies at once, in program order.
- SQL leaves the order of `SELECT` rows unspecified. The model fixes it to the order in which the rows were inserted.
- NULL columns are not modelled. Every name, price and quantity is present.
- `CartTables.JoinCart`: its own postcondition says only that items come from present products. What the join contains is stated by `CartTables.JoinCartMember` and, with one product per id, by `CartTables.JoinCartUnique`.
- `Shop.Store.Purchase`: the amount paid matches the ledger only with one product per id. With duplicate ids, a cart row joins to every product row carrying its id, and it is charged once for each of them.
- `Shop.Store.UpdateCartQuantity`: the page only offers quantities of 0 and up, but the model accepts any integer, as the function itself does.
