/**
 * The JPA entities, as values.  The generated `id` of each row is the key
 * under which its table stores it; `createdAt` is left out.  Money is held
 * in integer cents: prices are `DECIMAL(12,2)` and `BigDecimal` arithmetic
 * on them is exact.
 */
module Domain {
  import opened Common

  datatype User = User(name: string, email: string)

  datatype Category = Category(name: string, slug: string)

  /** `categoryId` is the mandatory many-to-one link to a category. */
  datatype Product = Product(name: string, sku: string, price: int, stock: int, categoryId: int)

  datatype OrderStatus = Created | Paid | Cancelled

  /** One order line: the product, how many, and the price frozen at order time. */
  datatype OrderItem = OrderItem(productId: int, quantity: int, unitPrice: int, lineTotal: int)

  datatype Order = Order(userId: int, status: OrderStatus, total: int, items: seq<OrderItem>)

  /** A review's comment may be null. */
  datatype Review = Review(userId: int, productId: int, rating: int, comment: Option<string>)
}
