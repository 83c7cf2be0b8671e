/** The product catalogue: the `products` table, the SQLite `LIKE` operator the
    search page uses, and the three read-only queries made against the table. */
module Catalog {
  import opened Options

  type ProductId = int

  /** A row of the `products` table. `isPopular` is the raw INTEGER column: the
      queries test it for 0 and 1, so any other value is in neither listing. */
  datatype Product = Product(id: ProductId, name: string, price: real, isPopular: int, description: string)

  // ---------------------------------------------------------------------------
  // SQLite LIKE, with its default settings: `%` matches any run of characters,
  // `_` matches exactly one, there is no escape character, and letters of the
  // ASCII range compare without regard to case.

  function LowerAscii(c: char): char
  {
    if 'A' <= c <= 'Z' then (c as int + 32) as char else c
  }

  predicate FoldEq(a: char, b: char)
  {
    LowerAscii(a) == LowerAscii(b)
  }

  /** `t LIKE p`. A pattern without wildcards matches exactly the texts equal
      to it up to ASCII case. */
  predicate LikeMatch(p: string, t: string)
    ensures NoWildcards(p) ==> (LikeMatch(p, t) <==> |p| == |t| && PrefixFold(p, t))
    decreases |p| + |t|
  {
    if p == [] then t == []
    else if p[0] == '%' then LikeMatch(p[1..], t) || (t != [] && LikeMatch(p, t[1..]))
    else if t == [] then false
    else if p[0] == '_' then LikeMatch(p[1..], t[1..])
    else FoldEq(p[0], t[0]) && LikeMatch(p[1..], t[1..])
  }

  predicate NoWildcards(q: string)
  {
    forall k :: 0 <= k < |q| ==> q[k] != '%' && q[k] != '_'
  }

  /** `q` occurs in `t` as written, up to ASCII case. */
  predicate PrefixFold(q: string, t: string)
  {
    |q| <= |t| && forall k :: 0 <= k < |q| ==> FoldEq(q[k], t[k])
  }

  predicate ContainsFold(t: string, q: string)
  {
    exists i :: 0 <= i <= |t| && PrefixFold(q, t[i..])
  }

  lemma {:induction false} PercentMatchesAll(t: string)
    ensures LikeMatch("%", t)
  {
    if t != [] {
      PercentMatchesAll(t[1..]);
    }
  }

  /** A literal followed by `%` matches exactly the texts that start with it. */
  lemma {:induction false} LiteralThenPercent(q: string, t: string)
    requires NoWildcards(q)
    ensures LikeMatch(q + "%", t) <==> PrefixFold(q, t)
  {
    if q == [] {
      assert q + "%" == "%";
      PercentMatchesAll(t);
    } else {
      var p := q + "%";
      assert p[0] == q[0] && p[1..] == q[1..] + "%";
      assert NoWildcards(q[1..]) by {
        forall k | 0 <= k < |q[1..]| ensures q[1..][k] != '%' && q[1..][k] != '_' {
          assert q[1..][k] == q[k + 1];
        }
      }
      if t != [] {
        LiteralThenPercent(q[1..], t[1..]);
        if PrefixFold(q, t) {
          assert PrefixFold(q[1..], t[1..]) by {
            forall k | 0 <= k < |q[1..]| ensures FoldEq(q[1..][k], t[1..][k]) {
              assert q[1..][k] == q[k + 1] && t[1..][k] == t[k + 1];
            }
          }
        }
        if FoldEq(q[0], t[0]) && PrefixFold(q[1..], t[1..]) {
          forall k | 0 <= k < |q| ensures FoldEq(q[k], t[k]) {
            if k > 0 {
              assert q[1..][k - 1] == q[k] && t[1..][k - 1] == t[k];
            }
          }
        }
      }
    }
  }

  /** A leading `%` lets the rest of the pattern match any suffix. */
  lemma {:induction false} PercentThen(r: string, t: string)
    ensures LikeMatch("%" + r, t) <==> exists i :: 0 <= i <= |t| && LikeMatch(r, t[i..])
  {
    var p := "%" + r;
    assert p[0] == '%' && p[1..] == r;
    assert t[0..] == t;
    if t != [] {
      PercentThen(r, t[1..]);
      if LikeMatch(p, t[1..]) {
        var j :| 0 <= j <= |t[1..]| && LikeMatch(r, t[1..][j..]);
        assert t[1..][j..] == t[j + 1..];
      }
      if exists i :: 0 <= i <= |t| && LikeMatch(r, t[i..]) {
        var i :| 0 <= i <= |t| && LikeMatch(r, t[i..]);
        if i > 0 {
          assert t[1..][i - 1..] == t[i..];
        }
      }
    }
  }

  /** The search page's pattern `'%' + q + '%'` is a case-insensitive substring
      test whenever the query holds no wildcard character. */
  lemma SearchIsSubstring(q: string, t: string)
    requires NoWildcards(q)
    ensures LikeMatch("%" + q + "%", t) <==> ContainsFold(t, q)
  {
    assert "%" + q + "%" == "%" + (q + "%");
    PercentThen(q + "%", t);
    forall i | 0 <= i <= |t| ensures LikeMatch(q + "%", t[i..]) <==> PrefixFold(q, t[i..]) {
      LiteralThenPercent(q, t[i..]);
    }
  }

  // ---------------------------------------------------------------------------
  // Queries on the products table. Rows come back in table order.

  /** The search predicate of the products page: `is_popular = 0`, and, when the
      search box is not empty, `name LIKE '%' || query || '%'`. */
  predicate ListedOnProductsPage(p: Product, query: string)
  {
    p.isPopular == 0 && (query == [] || LikeMatch("%" + query + "%", p.name))
  }

  /** The products page listing: every row that passes the search predicate,
      as often as it occurs in the table, and no other row. */
  function ProductsPage(products: seq<Product>, query: string): (r: seq<Product>)
    ensures forall p :: multiset(r)[p] == if ListedOnProductsPage(p, query) then multiset(products)[p] else 0
    ensures forall p :: p in r <==> p in products && ListedOnProductsPage(p, query)
    ensures |r| <= |products|
  {
    if products == [] then []
    else
      assert products == [products[0]] + products[1..];
      (if ListedOnProductsPage(products[0], query) then [products[0]] else [])
      + ProductsPage(products[1..], query)
  }

  /** The popular products page listing: every row with `is_popular = 1`, as
      often as it occurs in the table, and no other row. */
  function PopularProducts(products: seq<Product>): (r: seq<Product>)
    ensures forall p :: multiset(r)[p] == if p.isPopular == 1 then multiset(products)[p] else 0
    ensures forall p :: p in r <==> p in products && p.isPopular == 1
    ensures |r| <= |products|
  {
    if products == [] then []
    else
      assert products == [products[0]] + products[1..];
      (if products[0].isPopular == 1 then [products[0]] else [])
      + PopularProducts(products[1..])
  }

  /** The home page's `... WHERE is_popular = 1 LIMIT 1`. */
  function FirstPopular(products: seq<Product>): (r: Option<Product>)
    ensures r.None? <==> forall k :: 0 <= k < |products| ==> products[k].isPopular != 1
    ensures r.Some? ==> exists k :: 0 <= k < |products| && products[k] == r.value
                          && products[k].isPopular == 1
                          && forall j :: 0 <= j < k ==> products[j].isPopular != 1
  {
    if products == [] then None
    else if products[0].isPopular == 1 then Some(products[0])
    else
      var rest := FirstPopular(products[1..]);
      if rest.Some? then
        var k :| 0 <= k < |products[1..]| && products[1..][k] == rest.value
                 && products[1..][k].isPopular == 1
                 && forall j :: 0 <= j < k ==> products[1..][j].isPopular != 1;
        assert products[k + 1] == rest.value;
        rest
      else rest
  }

  /** The first popular product is the head of the popular listing. */
  lemma {:induction false} FirstPopularHeadsListing(products: seq<Product>)
    ensures FirstPopular(products) == (if PopularProducts(products) == [] then None
                                       else Some(PopularProducts(products)[0]))
  {
    if products != [] && products[0].isPopular != 1 {
      FirstPopularHeadsListing(products[1..]);
    }
  }

  /** In the search listing, a query without wildcards keeps exactly the
      non-popular products whose name contains it, ignoring ASCII case. */
  lemma ProductsPageSearch(products: seq<Product>, query: string, p: Product)
    requires NoWildcards(query)
    ensures p in ProductsPage(products, query) <==>
            p in products && p.isPopular == 0 && ContainsFold(p.name, query)
  {
    SearchIsSubstring(query, p.name);
    if query == [] {
      assert PrefixFold(query, p.name[0..]);
    }
  }

  // ---------------------------------------------------------------------------
  // Product lookup by id, as the cart join uses it.

  /** `id` is a primary key: no two rows share it. */
  predicate UniqueIds(products: seq<Product>)
  {
    forall i, j :: 0 <= i < j < |products| ==> products[i].id != products[j].id
  }

  /** A product of the table with the given id, or nothing. */
  function Lookup(products: seq<Product>, id: ProductId): (r: Option<Product>)
    ensures r.None? <==> forall k :: 0 <= k < |products| ==> products[k].id != id
    ensures r.Some? ==> r.value in products && r.value.id == id
  {
    if products == [] then None
    else if products[0].id == id then Some(products[0])
    else Lookup(products[1..], id)
  }

  /** The unit price charged for a product id: its price, or nothing when the
      product is missing. */
  function UnitPrice(products: seq<Product>, id: ProductId): real
  {
    match Lookup(products, id)
    case Some(p) => p.price
    case None => 0.0
  }
}
