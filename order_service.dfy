/**
 * `OrderService`: placing an order, the status state machine, lookup and
 * deletion.  Placing an order walks the requested lines in order; each line
 * looks its product up, rejects a non-positive quantity, rejects a quantity
 * above the product's current stock, takes that quantity off the stock,
 * freezes the unit price and adds `price * quantity` to the running total.
 * The whole call is one transaction: when any line fails, every table is
 * left as it was.
 */
module OrderService {
  import opened Common
  import opened Text
  import opened Domain
  import opened Repositories

  /** One requested line: product id and quantity. */
  datatype ItemRequest = ItemRequest(productId: int, quantity: int)

  datatype ItemResponse = ItemResponse(productId: int, productName: string, quantity: int, unitPrice: int, lineTotal: int)

  datatype OrderResponse = OrderResponse(id: int, userId: int, status: string, total: int, items: seq<ItemResponse>)

  // ---------------------------------------------------------------------
  // Specification of the item loop

  /** One pass of the item loop against the current product table: the
      table after the stock decrement and the order line it produces. */
  function TakeLine(products: map<int, Product>, req: ItemRequest): (r: Result<(map<int, Product>, OrderItem)>)
    ensures r == Err(NotFound) <==> req.productId !in products
    ensures r.Err? ==> r.error != Conflict
    ensures r.Ok? ==>
      && req.productId in products
      && r.value.0.Keys == products.Keys
      && r.value.0[req.productId].stock == products[req.productId].stock - req.quantity >= 0
      && r.value.1.lineTotal == r.value.1.unitPrice * r.value.1.quantity
  {
    if req.productId !in products then Err(NotFound)
    else if req.quantity <= 0 then Err(BadRequest)
    else if products[req.productId].stock < req.quantity then Err(BadRequest)
    else
      var p := products[req.productId];
      Ok((products[req.productId := p.(stock := p.stock - req.quantity)],
          OrderItem(req.productId, req.quantity, p.price, p.price * req.quantity)))
  }

  /** The item loop over `reqs`: the first failing line's error, or the final
      product table and the order lines in request order. */
  function TakeLines(products: map<int, Product>, reqs: seq<ItemRequest>): (r: Result<(map<int, Product>, seq<OrderItem>)>)
    ensures r.Err? ==> r.error != Conflict
    ensures r.Ok? ==> r.value.0.Keys == products.Keys && |r.value.1| == |reqs| && LinesPriced(r.value.1)
    decreases |reqs|
  {
    if reqs == [] then Ok((products, []))
    else
      match TakeLines(products, reqs[..|reqs| - 1])
      case Err(e) => Err(e)
      case Ok((ps, lines)) =>
        match TakeLine(ps, reqs[|reqs| - 1])
        case Err(e) => Err(e)
        case Ok((ps', line)) => Ok((ps', lines + [line]))
  }

  /** The total quantity `reqs` asks of product `k`. */
  function Quantity(reqs: seq<ItemRequest>, k: int): int
    decreases |reqs|
  {
    if reqs == [] then 0
    else Quantity(reqs[..|reqs| - 1], k) + (if reqs[|reqs| - 1].productId == k then reqs[|reqs| - 1].quantity else 0)
  }

  /** What the request costs at the prices in `products`: the sum of
      price times quantity over the requested lines. */
  function Cost(products: map<int, Product>, reqs: seq<ItemRequest>): int
    requires forall i :: 0 <= i < |reqs| ==> reqs[i].productId in products
    decreases |reqs|
  {
    if reqs == [] then 0
    else
      var last := reqs[|reqs| - 1];
      Cost(products, reqs[..|reqs| - 1]) + products[last.productId].price * last.quantity
  }

  /** A request the loop accepts as a whole: every product exists, every
      quantity is positive, and no product is asked for more than it has. */
  predicate Acceptable(products: map<int, Product>, reqs: seq<ItemRequest>) {
    forall i :: 0 <= i < |reqs| ==>
      && reqs[i].productId in products
      && reqs[i].quantity > 0
      && Quantity(reqs, reqs[i].productId) <= products[reqs[i].productId].stock
  }

  /** The whole of `create`: the user lookup, then the item loop; on success
      the new product table and the order row, with status CREATED. */
  function PlaceOrder(users: map<int, User>, products: map<int, Product>, userId: int, reqs: seq<ItemRequest>): (r: Result<(map<int, Product>, Order)>)
    ensures userId !in users ==> r == Err(NotFound)
    ensures r.Err? ==> r.error != Conflict
    ensures r.Ok? ==>
      && r.value.0.Keys == products.Keys
      && r.value.1.userId == userId
      && r.value.1.status == Created
      && |r.value.1.items| == |reqs|
      && OrderConsistent(r.value.1)
  {
    if userId !in users then Err(NotFound)
    else
      match TakeLines(products, reqs)
      case Err(e) => Err(e)
      case Ok((ps, lines)) => Ok((ps, Order(userId, Created, Total(lines), lines)))
  }

  // ---------------------------------------------------------------------
  // Properties of the item loop

  /** Stock accounting: the same products afterwards, each with its stock
      lowered by exactly the quantity requested of it and nothing else
      changed; products not in the request keep their row. */
  lemma {:induction false} TakeLinesStock(products: map<int, Product>, reqs: seq<ItemRequest>)
    requires TakeLines(products, reqs).Ok?
    ensures TakeLines(products, reqs).value.0.Keys == products.Keys
    ensures forall k :: k in products ==>
      TakeLines(products, reqs).value.0[k] == products[k].(stock := products[k].stock - Quantity(reqs, k))
    decreases |reqs|
  {
    if reqs != [] {
      var init := reqs[..|reqs| - 1];
      TakeLinesStock(products, init);
    }
  }

  /** One line per requested item, in request order, carrying the product's
      price from before the order and `price * quantity` as its total. */
  lemma {:induction false} TakeLinesLines(products: map<int, Product>, reqs: seq<ItemRequest>)
    requires TakeLines(products, reqs).Ok?
    ensures |TakeLines(products, reqs).value.1| == |reqs|
    ensures forall i :: 0 <= i < |reqs| ==>
      && reqs[i].productId in products
      && TakeLines(products, reqs).value.1[i] ==
         OrderItem(reqs[i].productId, reqs[i].quantity,
                   products[reqs[i].productId].price,
                   products[reqs[i].productId].price * reqs[i].quantity)
    decreases |reqs|
  {
    if reqs != [] {
      var init := reqs[..|reqs| - 1];
      TakeLinesLines(products, init);
      TakeLinesStock(products, init);
      var lines := TakeLines(products, init).value.1;
      var all := TakeLines(products, reqs).value.1;
      assert all == lines + [all[|all| - 1]];
      var last := reqs[|reqs| - 1];
      assert last.productId in products;
      assert all[|all| - 1] == OrderItem(last.productId, last.quantity,
                                         products[last.productId].price,
                                         products[last.productId].price * last.quantity);
      forall i | 0 <= i < |reqs| - 1
        ensures reqs[i].productId in products
        ensures all[i] == OrderItem(reqs[i].productId, reqs[i].quantity,
                                    products[reqs[i].productId].price,
                                    products[reqs[i].productId].price * reqs[i].quantity)
      {
        assert reqs[i] == init[i];
      }
    }
  }

  /** The item loop succeeds exactly on acceptable requests. */
  lemma {:induction false} TakeLinesSucceeds(products: map<int, Product>, reqs: seq<ItemRequest>)
    ensures TakeLines(products, reqs).Ok? <==> Acceptable(products, reqs)
    decreases |reqs|
  {
    if reqs != [] {
      var init, last := reqs[..|reqs| - 1], reqs[|reqs| - 1];
      TakeLinesSucceeds(products, init);
      QuantityOfLast(reqs);
      assert forall i :: 0 <= i < |init| ==> init[i] == reqs[i];
      if Acceptable(products, reqs) {
        assert last.quantity > 0;
        assert Acceptable(products, init);
        TakeLinesStock(products, init);
        var (ps, lines) := TakeLines(products, init).value;
        assert ps[last.productId].stock >= last.quantity;
        assert TakeLine(ps, last).Ok?;
        assert TakeLines(products, reqs) == Ok((TakeLine(ps, last).value.0, lines + [TakeLine(ps, last).value.1]));
      } else if TakeLines(products, init).Ok? {
        TakeLinesStock(products, init);
        var ps := TakeLines(products, init).value.0;
        if last.productId in products && last.quantity > 0 {
          var i :| 0 <= i < |reqs| && !(
            && reqs[i].productId in products
            && reqs[i].quantity > 0
            && Quantity(reqs, reqs[i].productId) <= products[reqs[i].productId].stock);
          assert reqs[i].productId == last.productId;
          assert ps[last.productId].stock < last.quantity;
        }
      }
    }
  }

  /** A failed loop reports the first failing line's reason: NotFound only
      for a missing product, BadRequest only for a non-positive quantity or
      one that the stock left by the earlier lines cannot cover; never
      Conflict. */
  lemma {:induction false} TakeLinesFailure(products: map<int, Product>, reqs: seq<ItemRequest>)
    requires TakeLines(products, reqs).Err?
    ensures TakeLines(products, reqs).error != Conflict
    ensures TakeLines(products, reqs).error == NotFound ==>
      exists i :: 0 <= i < |reqs| && reqs[i].productId !in products
    ensures TakeLines(products, reqs).error == BadRequest ==>
      exists i :: 0 <= i < |reqs| && reqs[i].productId in products &&
        (reqs[i].quantity <= 0 || Quantity(reqs[..i + 1], reqs[i].productId) > products[reqs[i].productId].stock)
    decreases |reqs|
  {
    var init, last := reqs[..|reqs| - 1], reqs[|reqs| - 1];
    assert forall i :: 0 <= i < |init| ==> init[i] == reqs[i] && init[..i + 1] == reqs[..i + 1];
    if TakeLines(products, init).Err? {
      TakeLinesFailure(products, init);
    } else {
      TakeLinesStock(products, init);
      assert reqs[..|reqs|] == reqs;
      QuantityOfLast(reqs);
    }
  }

  /** Once a prefix of the request fails, the whole request fails the same
      way: later lines are never reached. */
  lemma {:induction false} TakeLinesPrefixFails(products: map<int, Product>, reqs: seq<ItemRequest>, n: nat)
    requires n <= |reqs|
    requires TakeLines(products, reqs[..n]).Err?
    ensures TakeLines(products, reqs) == TakeLines(products, reqs[..n])
    decreases |reqs|
  {
    if n < |reqs| {
      var init := reqs[..|reqs| - 1];
      assert init[..n] == reqs[..n];
      TakeLinesPrefixFails(products, init, n);
    } else {
      assert reqs[..n] == reqs;
    }
  }

  /** The sum of the line totals is what the request costs at the prices
      from before the order. */
  lemma {:induction false} TotalIsCost(products: map<int, Product>, reqs: seq<ItemRequest>)
    requires TakeLines(products, reqs).Ok?
    ensures forall i :: 0 <= i < |reqs| ==> reqs[i].productId in products
    ensures Total(TakeLines(products, reqs).value.1) == Cost(products, reqs)
    decreases |reqs|
  {
    TakeLinesLines(products, reqs);
    if reqs != [] {
      var init := reqs[..|reqs| - 1];
      TotalIsCost(products, init);
      TakeLinesStock(products, init);
      var all := TakeLines(products, reqs).value.1;
      assert all[..|all| - 1] == TakeLines(products, init).value.1;
    }
  }

  /** Every product a successful order touches is left with a stock of at
      least zero, however many lines name it. */
  lemma TouchedStockNonNegative(products: map<int, Product>, reqs: seq<ItemRequest>)
    requires TakeLines(products, reqs).Ok?
    ensures forall i :: 0 <= i < |reqs| ==>
      && reqs[i].productId in TakeLines(products, reqs).value.0
      && TakeLines(products, reqs).value.0[reqs[i].productId].stock >= 0
  {
    TakeLinesSucceeds(products, reqs);
    TakeLinesStock(products, reqs);
  }

  /** What `create` decides, stated on its inputs: an unknown user gives
      NotFound; otherwise the order goes through exactly when the request is
      acceptable, and then it is a CREATED order of one line per item whose
      total is the request's cost. */
  lemma PlaceOrderOutcome(users: map<int, User>, products: map<int, Product>, userId: int, reqs: seq<ItemRequest>)
    ensures userId !in users ==> PlaceOrder(users, products, userId, reqs) == Err(NotFound)
    ensures userId in users ==> (PlaceOrder(users, products, userId, reqs).Ok? <==> Acceptable(products, reqs))
    ensures PlaceOrder(users, products, userId, reqs).Err? ==> PlaceOrder(users, products, userId, reqs).error != Conflict
    ensures PlaceOrder(users, products, userId, reqs).Ok? ==>
      && (forall i :: 0 <= i < |reqs| ==> reqs[i].productId in products)
      && var order := PlaceOrder(users, products, userId, reqs).value.1;
      && order.userId == userId
      && order.status == Created
      && |order.items| == |reqs|
      && order.total == Cost(products, reqs)
  {
    TakeLinesSucceeds(products, reqs);
    if userId in users {
      if TakeLines(products, reqs).Ok? {
        TakeLinesLines(products, reqs);
        TotalIsCost(products, reqs);
      } else {
        TakeLinesFailure(products, reqs);
      }
    }
  }

  lemma QuantityOfLast(reqs: seq<ItemRequest>)
    requires reqs != []
    ensures forall k :: Quantity(reqs, k) == Quantity(reqs[..|reqs| - 1], k) + (if reqs[|reqs| - 1].productId == k then reqs[|reqs| - 1].quantity else 0)
  {
  }

  /** The loop changes stock only, so the table invariants on products
      survive it, and every order line names a product that still exists. */
  lemma TakeLinesKeepsInvariant(products: map<int, Product>, categories: map<int, Category>, next: int, reqs: seq<ItemRequest>)
    requires TakeLines(products, reqs).Ok?
    requires KeysBelow(products.Keys, next) && ProductsInCategories(products, categories)
    requires SkusUnique(products) && PricesPositive(products)
    ensures var (ps, lines) := TakeLines(products, reqs).value;
      && KeysBelow(ps.Keys, next) && ProductsInCategories(ps, categories)
      && SkusUnique(ps) && PricesPositive(ps)
      && forall i :: 0 <= i < |lines| ==> lines[i].productId in ps
  {
    TakeLinesStock(products, reqs);
    TakeLinesLines(products, reqs);
  }

  // ---------------------------------------------------------------------
  // Responses

  /** The name `OrderStatus.name()` reports. */
  function Name(s: OrderStatus): (r: string)
    ensures r != []
  {
    match s
    case Created => "CREATED"
    case Paid => "PAID"
    case Cancelled => "CANCELLED"
  }

  /** `toResponse`: the order row with each line's product name looked up. */
  function ToResponse(id: int, order: Order, products: map<int, Product>): (r: OrderResponse)
    requires forall i :: 0 <= i < |order.items| ==> order.items[i].productId in products
    ensures r.id == id && r.userId == order.userId && r.status == Name(order.status) && r.total == order.total
    ensures |r.items| == |order.items|
    ensures forall i :: 0 <= i < |r.items| ==>
      var line := order.items[i];
      && r.items[i].productId == line.productId
      && r.items[i].productName == products[line.productId].name
      && r.items[i].quantity == line.quantity
      && r.items[i].unitPrice == line.unitPrice
      && r.items[i].lineTotal == line.lineTotal
  {
    OrderResponse(id, order.userId, Name(order.status), order.total,
      seq(|order.items|, i requires 0 <= i < |order.items| =>
        var line := order.items[i];
        ItemResponse(line.productId, products[line.productId].name, line.quantity, line.unitPrice, line.lineTotal)))
  }

  /** The response to a placed order echoes the request: one item per
      requested line, in order, with its product, quantity and the price
      from before the order, and the request's cost as total. */
  lemma CreatedResponse(users: map<int, User>, products: map<int, Product>, userId: int, reqs: seq<ItemRequest>, id: int)
    requires PlaceOrder(users, products, userId, reqs).Ok?
    ensures var (ps, order) := PlaceOrder(users, products, userId, reqs).value;
      && (forall i :: 0 <= i < |order.items| ==> order.items[i].productId in ps)
      && var resp := ToResponse(id, order, ps);
      && resp.id == id && resp.userId == userId && resp.status == "CREATED"
      && |resp.items| == |reqs|
      && (forall i :: 0 <= i < |reqs| ==>
            && reqs[i].productId in products
            && resp.items[i].productId == reqs[i].productId
            && resp.items[i].productName == products[reqs[i].productId].name
            && resp.items[i].quantity == reqs[i].quantity
            && resp.items[i].unitPrice == products[reqs[i].productId].price)
      && resp.total == Cost(products, reqs)
  {
    TakeLinesLines(products, reqs);
    TakeLinesStock(products, reqs);
    TotalIsCost(products, reqs);
  }

  // ---------------------------------------------------------------------
  // Status state machine

  /** `OrderStatus.valueOf`: the status with exactly this name, if any. */
  function StatusNamed(u: string): (r: Option<OrderStatus>)
    ensures r.Some? ==> u == Name(r.value)
    ensures r.None? ==> u != Name(Created) && u != Name(Paid) && u != Name(Cancelled)
  {
    if u == "CREATED" then Some(Created)
    else if u == "PAID" then Some(Paid)
    else if u == "CANCELLED" then Some(Cancelled)
    else None
  }

  /** `OrderStatus.valueOf(s.trim().toUpperCase())`; None where `valueOf`
      throws. */
  function ParseStatus(s: string): (r: Option<OrderStatus>)
    ensures r.Some? ==> Name(r.value) == Upper(Trim(s))
    ensures r.None? ==> forall st :: Name(st) != Upper(Trim(s))
  {
    StatusNamed(Upper(Trim(s)))
  }

  /** The checks of `patchStatus` after the order is found, in their order:
      an unknown status is BadRequest, a status other than CREATED is
      Conflict, a target of CREATED is BadRequest. */
  function NextStatus(current: OrderStatus, requested: string): (r: Result<OrderStatus>)
    ensures r.Ok? ==> current == Created && r.value != Created
    ensures r.Err? ==> r.error != NotFound
    ensures ParseStatus(requested).None? ==> r == Err(BadRequest)
  {
    match ParseStatus(requested)
    case None => Err(BadRequest)
    case Some(target) =>
      if current != Created then Err(Conflict)
      else if target == Created then Err(BadRequest)
      else Ok(target)
  }

  /** Every status name parses back to its status. */
  lemma ParseName(s: OrderStatus)
    ensures ParseStatus(Name(s)) == Some(s)
  {
    var n := Name(s);
    TrimOfTrimmed(n);
    UpperOfUpper(n);
  }

  /** Parsing ignores the case of ASCII letters. */
  lemma ParseIgnoresCase(s: string)
    ensures ParseStatus(Lower(s)) == ParseStatus(s)
  {
    TrimLowerCommute(s);
    UpperOfLower(Trim(s));
    assert Upper(Trim(Lower(s))) == Upper(Trim(s));
  }

  /** The only moves are CREATED to PAID and CREATED to CANCELLED. */
  lemma Transitions(current: OrderStatus, requested: string)
    ensures NextStatus(current, requested).Ok? <==>
      current == Created && ParseStatus(requested) in {Some(Paid), Some(Cancelled)}
    ensures NextStatus(current, requested).Ok? ==> NextStatus(current, requested) == Ok(ParseStatus(requested).value)
  {
  }

  /** On a CREATED order nothing is ever a Conflict: a request fails, with
      BadRequest, exactly when it does not parse to PAID or CANCELLED, and
      that includes a request for CREATED itself. */
  lemma CreatedOrderErrors(requested: string)
    ensures NextStatus(Created, requested) != Err(Conflict)
    ensures NextStatus(Created, requested) == Err(BadRequest) <==>
      ParseStatus(requested) !in {Some(Paid), Some(Cancelled)}
    ensures ParseStatus(requested) == Some(Created) ==> NextStatus(Created, requested) == Err(BadRequest)
  {
  }

  /** PAID and CANCELLED are terminal: any well-formed request on them is a
      Conflict, and a malformed one is still a BadRequest. */
  lemma TerminalStatus(current: OrderStatus, requested: string)
    requires current != Created
    ensures ParseStatus(requested).Some? ==> NextStatus(current, requested) == Err(Conflict)
    ensures ParseStatus(requested).None? ==> NextStatus(current, requested) == Err(BadRequest)
  {
  }

  /** After one successful change, a second well-formed request conflicts. */
  lemma SecondPatchConflicts(current: OrderStatus, first: string, second: string)
    requires NextStatus(current, first).Ok?
    requires ParseStatus(second).Some?
    ensures NextStatus(NextStatus(current, first).value, second) == Err(Conflict)
  {
  }

  /** The unit test's case: a PAID order asked to become CANCELLED is a
      Conflict. */
  lemma PaidToCancelledConflicts()
    ensures NextStatus(Paid, "CANCELLED") == Err(Conflict)
  {
    ParseName(Cancelled);
  }

  // ---------------------------------------------------------------------
  // The service operations

  /** The item loop of `create`.  It decrements the stock in the product
      table as it goes; on an error the table is put back, which is what
      the transaction's rollback does. */
  method TakeItems(db: Database, items: seq<ItemRequest>) returns (r: Result<seq<OrderItem>>, total: int)
    requires db.Valid()
    modifies db`products
    ensures db.Valid()
    ensures TakeLines(old(db.products), items).Err? ==>
      r == Err(TakeLines(old(db.products), items).error) && db.products == old(db.products)
    ensures TakeLines(old(db.products), items).Ok? ==>
      && r.Ok?
      && TakeLines(old(db.products), items) == Ok((db.products, r.value))
      && total == Total(r.value)
  {
    var snapshot := db.products;
    var lines: seq<OrderItem> := [];
    total := 0;
    var i := 0;
    while i < |items|
      invariant 0 <= i <= |items|
      invariant TakeLines(snapshot, items[..i]) == Ok((db.products, lines))
      invariant total == Total(lines)
    {
      var req := items[i];
      assert items[..i + 1][..i] == items[..i] && items[..i + 1][i] == req;
      if req.productId !in db.products {
        TakeLinesPrefixFails(snapshot, items, i + 1);
        db.products := snapshot;
        return Err(NotFound), total;
      }
      var p := db.products[req.productId];
      if req.quantity <= 0 {
        TakeLinesPrefixFails(snapshot, items, i + 1);
        db.products := snapshot;
        return Err(BadRequest), total;
      }
      if p.stock < req.quantity {
        TakeLinesPrefixFails(snapshot, items, i + 1);
        db.products := snapshot;
        return Err(BadRequest), total;
      }
      db.products := db.products[req.productId := p.(stock := p.stock - req.quantity)];
      var line := OrderItem(req.productId, req.quantity, p.price, p.price * req.quantity);
      total := total + line.lineTotal;
      assert (lines + [line])[..|lines|] == lines;
      lines := lines + [line];
      i := i + 1;
    }
    assert items[..i] == items;
    TakeLinesKeepsInvariant(snapshot, db.categories, db.nextProductId, items);
    r := Ok(lines);
  }

  /** `create`: NotFound for an unknown user, then the item loop; a
      successful order is saved under the next id with status CREATED. */
  method Create(db: Database, userId: int, items: seq<ItemRequest>) returns (r: Result<OrderResponse>)
    requires db.Valid()
    modifies db`products, db`orders, db`nextOrderId
    ensures db.Valid()
    ensures PlaceOrder(old(db.users), old(db.products), userId, items).Err? ==>
      && r == Err(PlaceOrder(old(db.users), old(db.products), userId, items).error)
      && db.products == old(db.products) && db.orders == old(db.orders) && db.nextOrderId == old(db.nextOrderId)
    ensures PlaceOrder(old(db.users), old(db.products), userId, items).Ok? ==>
      var (ps, order) := PlaceOrder(old(db.users), old(db.products), userId, items).value;
      && db.products == ps
      && db.orders == old(db.orders)[old(db.nextOrderId) := order]
      && db.nextOrderId == old(db.nextOrderId) + 1
      && (forall i :: 0 <= i < |order.items| ==> order.items[i].productId in ps)
      && r == Ok(ToResponse(old(db.nextOrderId), order, ps))
  {
    if userId !in db.users {
      return Err(NotFound);
    }
    ghost var before := db.products;
    var lines, total := TakeItems(db, items);
    if lines.Err? {
      return Err(lines.error);
    }
    TakeLinesKeepsInvariant(before, db.categories, db.nextProductId, items);
    var order := Order(userId, Created, total, lines.value);
    var id := db.nextOrderId;
    db.orders := db.orders[id := order];
    db.nextOrderId := id + 1;
    r := Ok(ToResponse(id, order, db.products));
  }

  /** `get`: the stored order, or NotFound. */
  method Get(db: Database, id: int) returns (r: Result<Order>)
    ensures r.Ok? <==> id in db.orders
    ensures r.Ok? ==> r.value == db.orders[id]
    ensures r.Err? ==> r.error == NotFound
  {
    if id !in db.orders {
      return Err(NotFound);
    }
    return Ok(db.orders[id]);
  }

  /** `patchStatus`: NotFound for a missing order, then the state machine;
      on success only that order's status changes. */
  method PatchStatus(db: Database, id: int, status: string) returns (r: Result<Order>)
    requires db.Valid()
    modifies db`orders
    ensures db.Valid()
    ensures id !in old(db.orders) ==> r == Err(NotFound) && db.orders == old(db.orders)
    ensures id in old(db.orders) ==>
      var o := old(db.orders)[id];
      match NextStatus(o.status, status)
      case Err(e) => r == Err(e) && db.orders == old(db.orders)
      case Ok(s) => r == Ok(o.(status := s)) && db.orders == old(db.orders)[id := o.(status := s)]
  {
    if id !in db.orders {
      return Err(NotFound);
    }
    var o := db.orders[id];
    var target := ParseStatus(status);
    if target.None? {
      return Err(BadRequest);
    }
    if o.status != Created {
      return Err(Conflict);
    }
    if target.value == Created {
      return Err(BadRequest);
    }
    var patched := o.(status := target.value);
    db.orders := db.orders[id := patched];
    r := Ok(patched);
  }

  /** `delete`: NotFound for a missing order; otherwise exactly that order
      is removed. */
  method Delete(db: Database, id: int) returns (r: Result<()>)
    requires db.Valid()
    modifies db`orders
    ensures db.Valid()
    ensures id !in old(db.orders) ==> r == Err(NotFound) && db.orders == old(db.orders)
    ensures id in old(db.orders) ==> r == Ok(()) && db.orders == old(db.orders) - {id}
  {
    if id !in db.orders {
      return Err(NotFound);
    }
    db.orders := db.orders - {id};
    r := Ok(());
  }

  // ---------------------------------------------------------------------
  // Scenarios

  /** The rollback scenario: A has 5 in stock and B has 1; ordering 2 of
      each fails with BadRequest on B, after A's line was accepted. */
  lemma RollbackScenario()
    ensures PlaceOrder(map[1 := User("Can", "can@test.com")],
                       map[1 := Product("A", "A-SKU", 1000, 5, 1), 2 := Product("B", "B-SKU", 1000, 1, 1)],
                       1, [ItemRequest(1, 2), ItemRequest(2, 2)]) == Err(BadRequest)
  {
    var ps := map[1 := Product("A", "A-SKU", 1000, 5, 1), 2 := Product("B", "B-SKU", 1000, 1, 1)];
    var ps1 := ps[1 := Product("A", "A-SKU", 1000, 3, 1)];
    var first := [ItemRequest(1, 2)];
    var reqs := first + [ItemRequest(2, 2)];
    assert first[..0] == [];
    assert TakeLines(ps, first[..0]) == Ok((ps, []));
    assert TakeLine(ps, ItemRequest(1, 2)) == Ok((ps1, OrderItem(1, 2, 1000, 2000)));
    assert [] + [OrderItem(1, 2, 1000, 2000)] == [OrderItem(1, 2, 1000, 2000)];
    assert TakeLines(ps, first) == Ok((ps1, [OrderItem(1, 2, 1000, 2000)]));
    assert reqs[..1] == first;
    assert TakeLine(ps1, ItemRequest(2, 2)) == Err(BadRequest);
    assert [ItemRequest(1, 2), ItemRequest(2, 2)] == reqs;
  }

  /** Ordering 2 of a product with 10 in stock at 30.00 leaves 8 in stock
      and one line totalling 60.00. */
  lemma StockDecreaseScenario()
    ensures PlaceOrder(map[1 := User("Zeynep", "zeynep@ornek.com")],
                       map[1 := Product("Defter", "SKU-TR-10", 3000, 10, 1)],
                       1, [ItemRequest(1, 2)])
         == Ok((map[1 := Product("Defter", "SKU-TR-10", 3000, 8, 1)],
                Order(1, Created, 6000, [OrderItem(1, 2, 3000, 6000)])))
  {
    var ps := map[1 := Product("Defter", "SKU-TR-10", 3000, 10, 1)];
    var ps1 := map[1 := Product("Defter", "SKU-TR-10", 3000, 8, 1)];
    var reqs := [ItemRequest(1, 2)];
    var lines := [OrderItem(1, 2, 3000, 6000)];
    assert reqs[..0] == [] && lines[..0] == [];
    assert ps[1 := ps[1].(stock := 8)] == ps1;
    assert TakeLines(ps, reqs[..0]) == Ok((ps, []));
    assert TakeLine(ps, ItemRequest(1, 2)) == Ok((ps1, OrderItem(1, 2, 3000, 6000)));
    assert [] + lines == lines;
    assert TakeLines(ps, reqs) == Ok((ps1, lines));
    assert Total(lines) == 6000;
  }
}
