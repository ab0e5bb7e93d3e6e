/**
 * The five JPA repositories, as one in-memory database: a table per entity,
 * keyed by id, and one identity counter per table that hands out the next id.
 */
module Repositories {
  import opened Common
  import opened Text
  import opened Domain

  /** Every id in use was handed out by the counter, which starts at 1. */
  predicate KeysBelow(keys: set<int>, next: int) {
    && 1 <= next
    && forall k :: k in keys ==> 1 <= k < next
  }

  /** Every product points at an existing category. */
  predicate ProductsInCategories(products: map<int, Product>, categories: map<int, Category>) {
    forall k :: k in products ==> products[k].categoryId in categories
  }

  /** No two products share a SKU. */
  predicate SkusUnique(products: map<int, Product>) {
    forall a, b :: a in products && b in products && a != b ==> products[a].sku != products[b].sku
  }

  predicate PricesPositive(products: map<int, Product>) {
    forall k :: k in products ==> products[k].price > 0
  }

  /** The form `UserService` stores: no white space at either end and no
      upper-case letter, that is, trimmed and lower-cased. */
  predicate IsNormalizedEmail(e: string) {
    && (e == [] || (!IsSpace(e[0]) && !IsSpace(e[|e| - 1])))
    && forall i :: 0 <= i < |e| ==> !IsAsciiUpper(e[i])
  }

  predicate EmailsNormalized(users: map<int, User>) {
    forall k :: k in users ==> IsNormalizedEmail(users[k].email)
  }

  /** No two users share an email. */
  predicate EmailsUnique(users: map<int, User>) {
    forall a, b :: a in users && b in users && a != b ==> users[a].email != users[b].email
  }

  predicate RatingsInRange(reviews: map<int, Review>) {
    forall k :: k in reviews ==> 1 <= reviews[k].rating <= 5
  }

  /** The sum of the line totals. */
  function Total(lines: seq<OrderItem>): int
    decreases |lines|
  {
    if lines == [] then 0 else Total(lines[..|lines| - 1]) + lines[|lines| - 1].lineTotal
  }

  /** Every line's total is its unit price times its quantity. */
  predicate LinesPriced(lines: seq<OrderItem>) {
    forall i :: 0 <= i < |lines| ==> lines[i].lineTotal == lines[i].unitPrice * lines[i].quantity
  }

  /** An order as `create` builds it: priced lines and the sum of their
      totals as the order total.  No later operation touches either. */
  predicate OrderConsistent(o: Order) {
    LinesPriced(o.items) && o.total == Total(o.items)
  }

  predicate OrdersConsistent(orders: map<int, Order>) {
    forall k :: k in orders ==> OrderConsistent(orders[k])
  }

  class Database {
    var users: map<int, User>
    var categories: map<int, Category>
    var products: map<int, Product>
    var orders: map<int, Order>
    var reviews: map<int, Review>
    var nextUserId: int
    var nextCategoryId: int
    var nextProductId: int
    var nextOrderId: int
    var nextReviewId: int

    /** What the service layer keeps true between requests. */
    ghost predicate Valid()
      reads this
    {
      && KeysBelow(users.Keys, nextUserId)
      && KeysBelow(categories.Keys, nextCategoryId)
      && KeysBelow(products.Keys, nextProductId)
      && KeysBelow(orders.Keys, nextOrderId)
      && KeysBelow(reviews.Keys, nextReviewId)
      && ProductsInCategories(products, categories)
      && SkusUnique(products)
      && PricesPositive(products)
      && EmailsNormalized(users)
      && EmailsUnique(users)
      && RatingsInRange(reviews)
      && OrdersConsistent(orders)
    }

    /** An empty database. */
    constructor ()
      ensures Valid()
      ensures users == map[] && categories == map[] && products == map[]
      ensures orders == map[] && reviews == map[]
    {
      users, categories, products, orders, reviews := map[], map[], map[], map[], map[];
      nextUserId, nextCategoryId, nextProductId, nextOrderId, nextReviewId := 1, 1, 1, 1, 1;
    }
  }
}
