/**
 * `CategoryService`: create and update derive the slug from the name;
 * delete is refused while any product is in the category.
 */
module CategoryService {
  import opened Common
  import opened Text
  import opened SlugUtil
  import opened Domain
  import opened Repositories
  import ProductService

  datatype CategoryResponse = CategoryResponse(id: int, name: string, slug: string)

  /** The row `create` and `update` store for a requested name: the trimmed
      name and the slug of the name as given. */
  function Named(name: string): (c: Category)
    ensures IsSlug(c.slug)
  {
    Category(Trim(name), Slugify(Some(name)))
  }

  /** The slug a category gets is the slug of the name it stores: trimming
      first changes nothing. */
  lemma SlugMatchesStoredName(name: string)
    ensures Named(name).slug == Slugify(Some(Named(name).name))
  {
    TrimLowerCommute(name);
    TrimIdempotent(Lower(name));
  }

  /** `create`: always stored, under the next id. */
  method Create(db: Database, name: string) returns (r: CategoryResponse)
    requires db.Valid()
    modifies db`categories, db`nextCategoryId
    ensures db.Valid()
    ensures old(db.nextCategoryId) !in old(db.categories)
    ensures db.categories == old(db.categories)[old(db.nextCategoryId) := Named(name)]
    ensures db.nextCategoryId == old(db.nextCategoryId) + 1
    ensures r == CategoryResponse(old(db.nextCategoryId), Trim(name), Slugify(Some(name)))
  {
    // The slug's definition plays no part here: only its value is stored.
    hide Slugify;
    var c := Named(name);
    var id := db.nextCategoryId;
    db.categories := db.categories[id := c];
    db.nextCategoryId := id + 1;
    r := CategoryResponse(id, c.name, c.slug);
  }

  /** `update`: NotFound for a missing category; otherwise the name and the
      slug are replaced and the id is kept. */
  method Update(db: Database, id: int, name: string) returns (r: Result<CategoryResponse>)
    requires db.Valid()
    modifies db`categories
    ensures db.Valid()
    ensures id !in old(db.categories) ==> r == Err(NotFound) && db.categories == old(db.categories)
    ensures id in old(db.categories) ==>
      && db.categories == old(db.categories)[id := Named(name)]
      && r == Ok(CategoryResponse(id, Trim(name), Slugify(Some(name))))
  {
    // The slug's definition plays no part here: only its value is stored.
    hide Slugify;
    if id !in db.categories {
      return Err(NotFound);
    }
    var c := db.categories[id];
    c := c.(name := Trim(name));
    c := c.(slug := Slugify(Some(name)));
    db.categories := db.categories[id := c];
    r := Ok(CategoryResponse(id, c.name, c.slug));
  }

  /** `delete`: NotFound for a missing category, checked first; Conflict
      while any product is in it; otherwise exactly that category is
      removed. */
  method Delete(db: Database, id: int) returns (r: Result<()>)
    requires db.Valid()
    modifies db`categories
    ensures db.Valid()
    ensures id !in old(db.categories) ==> r == Err(NotFound) && db.categories == old(db.categories)
    ensures id in old(db.categories) && ProductService.CategoryInUse(db.products, id) ==>
      r == Err(Conflict) && db.categories == old(db.categories)
    ensures id in old(db.categories) && !ProductService.CategoryInUse(db.products, id) ==>
      r == Ok(()) && db.categories == old(db.categories) - {id}
  {
    if id !in db.categories {
      return Err(NotFound);
    }
    if ProductService.CategoryInUse(db.products, id) {
      return Err(Conflict);
    }
    db.categories := db.categories - {id};
    r := Ok(());
  }

  /** Deleting a category is allowed exactly when listing its products
      gives nothing, and then no product is left pointing at it. */
  lemma DeleteLeavesNoOrphans(products: map<int, Product>, categories: map<int, Category>, id: int)
    requires ProductsInCategories(products, categories)
    ensures ProductService.List(products, categories, Some(id)) == map[] <==> !ProductService.CategoryInUse(products, id)
    ensures !ProductService.CategoryInUse(products, id) ==> ProductsInCategories(products, categories - {id})
  {
    ProductService.ListFilters(products, categories, id);
  }
}
