/**
 * `ProductService`: create with a SKU uniqueness check, field-by-field
 * patch, listing filtered by category, and delete.
 */
module ProductService {
  import opened Common
  import opened Text
  import opened Domain
  import opened Repositories

  datatype ProductResponse = ProductResponse(id: int, name: string, sku: string, price: int, stock: int, categoryId: int, categoryName: string)

  /** A patch request; `None` is a field the request leaves null. */
  datatype ProductPatch = ProductPatch(name: Option<string>, sku: Option<string>, price: Option<int>, stock: Option<int>, categoryId: Option<int>)

  /** `existsBySku`. */
  predicate SkuTaken(products: map<int, Product>, sku: string) {
    exists k :: k in products && products[k].sku == sku
  }

  /** `existsByCategoryId`. */
  predicate CategoryInUse(products: map<int, Product>, categoryId: int) {
    exists k :: k in products && products[k].categoryId == categoryId
  }

  /** `toResponse`: the row with its category's name. */
  function ToResponse(id: int, p: Product, categories: map<int, Category>): (r: ProductResponse)
    requires p.categoryId in categories
    ensures r.id == id && Product(r.name, r.sku, r.price, r.stock, r.categoryId) == p
    ensures r.categoryName == categories[p.categoryId].name
  {
    ProductResponse(id, p.name, p.sku, p.price, p.stock, p.categoryId, categories[p.categoryId].name)
  }

  // ---------------------------------------------------------------------
  // create

  /** `create`: Conflict when the trimmed SKU is taken, checked before the
      category; NotFound for an unknown category; otherwise the product is
      stored under the next id with trimmed name and SKU. */
  method Create(db: Database, name: string, sku: string, price: int, stock: int, categoryId: int) returns (r: Result<ProductResponse>)
    requires db.Valid()
    requires price > 0 && stock >= 0
    modifies db`products, db`nextProductId
    ensures db.Valid()
    ensures SkuTaken(old(db.products), Trim(sku)) ==>
      r == Err(Conflict) && db.products == old(db.products) && db.nextProductId == old(db.nextProductId)
    ensures !SkuTaken(old(db.products), Trim(sku)) && categoryId !in db.categories ==>
      r == Err(NotFound) && db.products == old(db.products) && db.nextProductId == old(db.nextProductId)
    ensures !SkuTaken(old(db.products), Trim(sku)) && categoryId in db.categories ==>
      var id := old(db.nextProductId);
      var p := Product(Trim(name), Trim(sku), price, stock, categoryId);
      && id !in old(db.products)
      && db.products == old(db.products)[id := p]
      && db.nextProductId == id + 1
      && r == Ok(ToResponse(id, p, db.categories))
  {
    var trimmedSku := Trim(sku);
    if SkuTaken(db.products, trimmedSku) {
      return Err(Conflict);
    }
    if categoryId !in db.categories {
      return Err(NotFound);
    }
    var p := Product(Trim(name), trimmedSku, price, stock, categoryId);
    var id := db.nextProductId;
    db.products := db.products[id := p];
    db.nextProductId := id + 1;
    r := Ok(ToResponse(id, p, db.categories));
  }

  // ---------------------------------------------------------------------
  // patch

  /** What `patch` does to the table: NotFound for a missing product;
      Conflict for a new SKU (trimmed) that another row holds; NotFound for
      an unknown category; otherwise the row with each supplied field set. */
  function Patched(products: map<int, Product>, categories: map<int, Category>, id: int, patch: ProductPatch): (r: Result<Product>)
    ensures id !in products ==> r == Err(NotFound)
    ensures r.Err? ==> r.error != BadRequest
    ensures r == Err(Conflict) ==>
      && id in products && patch.sku.Some?
      && products[id].sku != Trim(patch.sku.value) && SkuTaken(products, Trim(patch.sku.value))
    ensures r.Ok? ==> id in products && (patch.categoryId.Some? ==> r.value.categoryId in categories)
  {
    if id !in products then Err(NotFound)
    else
      var p := products[id];
      if patch.sku.Some? && p.sku != Trim(patch.sku.value) && SkuTaken(products, Trim(patch.sku.value)) then Err(Conflict)
      else if patch.categoryId.Some? && patch.categoryId.value !in categories then Err(NotFound)
      else Ok(Product(
        if patch.name.Some? then Trim(patch.name.value) else p.name,
        if patch.sku.Some? then Trim(patch.sku.value) else p.sku,
        if patch.price.Some? then patch.price.value else p.price,
        if patch.stock.Some? then patch.stock.value else p.stock,
        if patch.categoryId.Some? then patch.categoryId.value else p.categoryId))
  }

  /** `patch`.  The fields are set one by one on a copy of the row, in the
      order of the source; an error leaves the table as it was. */
  method Patch(db: Database, id: int, patch: ProductPatch) returns (r: Result<ProductResponse>)
    requires db.Valid()
    requires patch.price.Some? ==> patch.price.value > 0
    modifies db`products
    ensures db.Valid()
    ensures Patched(old(db.products), db.categories, id, patch).Err? ==>
      r == Err(Patched(old(db.products), db.categories, id, patch).error) && db.products == old(db.products)
    ensures Patched(old(db.products), db.categories, id, patch).Ok? ==>
      var q := Patched(old(db.products), db.categories, id, patch).value;
      && q.categoryId in db.categories
      && db.products == old(db.products)[id := q]
      && r == Ok(ToResponse(id, q, db.categories))
  {
    if id !in db.products {
      return Err(NotFound);
    }
    var p := db.products[id];
    if patch.name.Some? {
      p := p.(name := Trim(patch.name.value));
    }
    if patch.sku.Some? {
      var sku := Trim(patch.sku.value);
      if p.sku != sku && SkuTaken(db.products, sku) {
        assert Patched(db.products, db.categories, id, patch) == Err(Conflict);
        return Err(Conflict);
      }
      p := p.(sku := sku);
    }
    if patch.price.Some? {
      p := p.(price := patch.price.value);
    }
    if patch.stock.Some? {
      p := p.(stock := patch.stock.value);
    }
    if patch.categoryId.Some? {
      if patch.categoryId.value !in db.categories {
        assert Patched(db.products, db.categories, id, patch) == Err(NotFound);
        return Err(NotFound);
      }
      p := p.(categoryId := patch.categoryId.value);
    }
    assert Patched(db.products, db.categories, id, patch) == Ok(p);
    PatchKeepsSkusUnique(db.products, db.categories, id, patch);
    ReplaceKeepsTables(db.products, db.categories, db.nextProductId, id, p);
    db.products := db.products[id := p];
    r := Ok(ToResponse(id, p, db.categories));
  }

  /** Replacing an existing row by one with a positive price and a known
      category keeps the ids, the category links and the prices valid. */
  lemma ReplaceKeepsTables(products: map<int, Product>, categories: map<int, Category>, next: int, id: int, q: Product)
    requires KeysBelow(products.Keys, next) && ProductsInCategories(products, categories) && PricesPositive(products)
    requires id in products && q.categoryId in categories && q.price > 0
    ensures KeysBelow(products[id := q].Keys, next)
    ensures ProductsInCategories(products[id := q], categories)
    ensures PricesPositive(products[id := q])
  {
    assert products[id := q].Keys == products.Keys;
  }

  /** A patch sets exactly the supplied fields (name and SKU trimmed) and
      keeps every field the request leaves null. */
  lemma PatchSetsSuppliedFields(products: map<int, Product>, categories: map<int, Category>, id: int, patch: ProductPatch)
    requires Patched(products, categories, id, patch).Ok?
    ensures id in products
    ensures var p, q := products[id], Patched(products, categories, id, patch).value;
      && q.name == (if patch.name.Some? then Trim(patch.name.value) else p.name)
      && q.sku == (if patch.sku.Some? then Trim(patch.sku.value) else p.sku)
      && q.price == (if patch.price.Some? then patch.price.value else p.price)
      && q.stock == (if patch.stock.Some? then patch.stock.value else p.stock)
      && q.categoryId == (if patch.categoryId.Some? then patch.categoryId.value else p.categoryId)
  {
  }

  /** Re-sending the product's own SKU never conflicts. */
  lemma OwnSkuNeverConflicts(products: map<int, Product>, categories: map<int, Category>, id: int, patch: ProductPatch)
    requires id in products
    requires patch.sku.Some? ==> Trim(patch.sku.value) == products[id].sku
    ensures Patched(products, categories, id, patch) != Err(Conflict)
  {
  }

  /** A new SKU that another product holds is a Conflict, whatever else the
      patch says. */
  lemma TakenSkuConflicts(products: map<int, Product>, categories: map<int, Category>, id: int, patch: ProductPatch, other: int)
    requires id in products && other in products && other != id
    requires SkusUnique(products)
    requires patch.sku.Some? && Trim(patch.sku.value) == products[other].sku
    ensures Patched(products, categories, id, patch) == Err(Conflict)
  {
  }

  /** A successful patch keeps SKUs unique. */
  lemma PatchKeepsSkusUnique(products: map<int, Product>, categories: map<int, Category>, id: int, patch: ProductPatch)
    requires SkusUnique(products)
    requires Patched(products, categories, id, patch).Ok?
    ensures SkusUnique(products[id := Patched(products, categories, id, patch).value])
  {
    var q := Patched(products, categories, id, patch).value;
    var ps := products[id := q];
    forall a, b | a in ps && b in ps && a != b
      ensures ps[a].sku != ps[b].sku
    {
      if a == id || b == id {
        var other := if a == id then b else a;
        assert ps[other] == products[other];
        if q.sku == products[other].sku {
          assert patch.sku.Some? && products[id].sku != q.sku;
          assert SkuTaken(products, Trim(patch.sku.value));
          assert false;
        }
      }
    }
  }

  // ---------------------------------------------------------------------
  // list and delete

  /** `list`: every product, or those of one category, as responses. */
  function List(products: map<int, Product>, categories: map<int, Category>, categoryId: Option<int>): (r: map<int, ProductResponse>)
    requires ProductsInCategories(products, categories)
    ensures forall k :: k in r <==> k in products && (categoryId.None? || products[k].categoryId == categoryId.value)
    ensures forall k :: k in r ==> r[k] == ToResponse(k, products[k], categories)
  {
    map k | k in products && (categoryId.None? || products[k].categoryId == categoryId.value) :: ToResponse(k, products[k], categories)
  }

  /** With no filter the listing covers the table; a category's listing is
      empty exactly when no product is in it. */
  lemma ListFilters(products: map<int, Product>, categories: map<int, Category>, c: int)
    requires ProductsInCategories(products, categories)
    ensures List(products, categories, None).Keys == products.Keys
    ensures List(products, categories, Some(c)) == map[] <==> !CategoryInUse(products, c)
  {
    if CategoryInUse(products, c) {
      var k :| k in products && products[k].categoryId == c;
      assert k in List(products, categories, Some(c));
    }
  }

  /** `delete`: NotFound for a missing product; otherwise exactly that row
      is removed. */
  method Delete(db: Database, id: int) returns (r: Result<()>)
    requires db.Valid()
    modifies db`products
    ensures db.Valid()
    ensures id !in old(db.products) ==> r == Err(NotFound) && db.products == old(db.products)
    ensures id in old(db.products) ==> r == Ok(()) && db.products == old(db.products) - {id}
  {
    if id !in db.products {
      return Err(NotFound);
    }
    db.products := db.products - {id};
    r := Ok(());
  }
}
