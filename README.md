# minicommerce service layer in Dafny

This project models the service layer of the minicommerce Spring Boot backend.
That layer covers users, categories, products, orders and reviews, plus the
slug helper that category names go through.

## How the model is built

**State.**
- The five JPA repositories are one `Database` class (module `Repositories`).
- Each table is a `map<int, Record>` field keyed by id.
- Each table has an identity counter that hands out the next id.
- The services are methods that take the database and change exactly the fields their `modifies` clause names.
- Each method states the whole new state of the tables it touches.

**Errors.** The Java exceptions become a `Result` whose error is `NotFound`,
`BadRequest` or `Conflict`. `@Transactional` rollback becomes "on an error every
table the method may change equals its old value".

**Money.** Prices and totals are integer cents. Prices have scale 2 and the code
never rounds, so integer cents are exact.

**What the services keep.** `Database.Valid()` is the invariant the service code
maintains between requests. Every method that changes the database requires and
ensures it; this includes the order item loop `TakeItems`. It holds:
- ids below their counters;
- every product in an existing category (kept by the restricted category delete);
- unique SKUs;
- positive prices;
- emails stored trimmed, lower-cased and unique;
- ratings between 1 and 5;
- every stored order has each line total equal to unit price times quantity, and a total equal to the sum of its line totals.

**Orders.**
- `OrderService.TakeLines` is the reference definition of the item loop in `create`. It walks the request lines in order with `TakeLine`.
- `TakeItems` is that loop, written as a loop. It decrements the stock in the product table in place and puts the table back on an error.
- `OrderService.Create` is proved against `PlaceOrder`.
- Lemmas about `TakeLines` prove the stock accounting, the line contents, the total and the failure cases.
- `patchStatus` is `NextStatus`, a state machine over a parsed status. Parsing is ASCII trim plus upper-case, then a lookup by name.

**Slugs.** `SlugUtil.Slugify` follows the Java chain: lower-case, trim, dash
replacement, dash stripping. It is proved to give a well-formed slug. Further
lemmas prove it keeps the letters and digits, is idempotent and is empty exactly
when the input has no letter or digit. Instance lemmas cover the unit tests'
examples.

**Java string semantics.**
- `String.trim` removes characters at or below U+0020 from both ends.
- Case mapping is ASCII only.

**Two copies.**
- The `edu.akademik` copies of `OrderService`, `CategoryService` and `SlugUtil` match the `com.minicommerceapi.minicommerce` ones apart from package, imports, comments and indentation. The same holds for the `com.minicommerceapi.service` copy of `ReviewService`.
- Each operation is therefore modelled once, and the table below cites both copies.
- The `edu.akademik` `SlugUtil.java` starts with a stray `\` line before its package declaration. The model ignores it.

Files:
- `common.dfy`: `Option`, `Error`, `Result`.
- `text.dfy`: Java `trim`, ASCII case mapping.
- `slug.dfy`: the slug helper.
- `domain.dfy`: entity records.
- `repositories.dfy`: the database and its invariant.
- One file per service.

## Model

| member | source | states |
|---|---|---|
| SlugUtil.Slugify | src/main/java/com/minicommerceapi/minicommerce/util/SlugUtil.java:16-25 | a null input gives ""; every result uses only `[a-z0-9-]`, has no "--" and neither starts nor ends with a dash; the second copy does the same at src/main/java/edu/akademik/minicommerce/util/SlugUtil.java:10-17 |
| SlugUtil.DashedShape | src/main/java/com/minicommerceapi/minicommerce/util/SlugUtil.java:23 | the run replacement outputs only slug characters and single dashes |
| SlugUtil.SlugifyKeepsAlnums | src/main/java/com/minicommerceapi/minicommerce/util/SlugUtil.java:22-24 | the slug keeps exactly the lower-cased input's letters and digits, in order |
| SlugUtil.SlugFixpoint | src/test/java/com/minicommerceapi/minicommerce/util/SlugUtilTest.java:52-54 | an already well-formed slug is returned unchanged |
| SlugUtil.SlugifyIdempotent | src/test/java/com/minicommerceapi/minicommerce/util/SlugUtilTest.java:52-54 | slugifying a slug changes nothing |
| SlugUtil.SlugifyEmpty | src/test/java/com/minicommerceapi/minicommerce/util/SlugUtilTest.java:47-49 | the slug is empty if and only if the input has no ASCII letter or digit |
| SlugUtil.SlugifyTwoWords | src/test/java/com/minicommerceapi/minicommerce/util/SlugUtilTest.java:18-32 | two alphanumeric words joined by any run of other characters become the lower-cased words joined by one dash |
| SlugUtil.SlugifyThreeWords | src/test/java/com/minicommerceapi/minicommerce/util/SlugUtilTest.java:24-26 | likewise for three words and two separator runs |
| SlugUtil.HelloWorldExample | src/test/java/com/minicommerceapi/minicommerce/util/SlugUtilTest.java:25 | "Hello, World! @2026" gives "hello-world-2026" |
| SlugUtil.SlugifyPadded | src/main/java/com/minicommerceapi/minicommerce/util/SlugUtil.java:22-24 | separators before the first and after the last letter or digit vanish: padding a string that starts and ends with a letter or digit with runs of other characters leaves its slug unchanged |
| SlugUtil.SlugifyPaddedTwoWords | src/test/java/com/minicommerceapi/minicommerce/util/SlugUtilTest.java:28-32 | two words joined by a separator run and padded with separator runs at both ends become the lower-cased words joined by one dash |
| SlugUtil.PaddedHelloWorldExample | src/test/java/com/minicommerceapi/minicommerce/util/SlugUtilTest.java:30 | "  Hello   World  " gives "hello-world" |
| SlugUtil.DashedHelloWorldExample | src/test/java/com/minicommerceapi/minicommerce/util/SlugUtilTest.java:43 | "--Hello--World--" gives "hello-world" |
| SlugUtil.WinterJacketExample | src/test/java/edu/akademik/minicommerce/unit/SlugUtilTest.java:12 | "Winter Jacket" gives "winter-jacket" |
| OrderService.TakeLine | src/main/java/com/minicommerceapi/minicommerce/service/OrderService.java:42-61 | one pass of the item loop: NotFound exactly when the product is missing; never Conflict; on success the table keeps its ids, that product's stock drops by the quantity and stays at least zero, and the line total is the unit price times the quantity |
| OrderService.TakeLines | src/main/java/com/minicommerceapi/minicommerce/service/OrderService.java:41-62 | the reference definition of the item loop: never Conflict; on success the table keeps its ids and there is one line per request item, each with a line total of unit price times quantity |
| OrderService.PlaceOrder | src/main/java/com/minicommerceapi/minicommerce/service/OrderService.java:29-65 | an unknown user is NotFound; never Conflict; on success the table keeps its ids and the order is a CREATED order of that user with one line per request item, priced lines and the sum of the line totals as its total |
| OrderService.ToResponse | src/main/java/com/minicommerceapi/minicommerce/service/OrderService.java:112-124 | the response has the order's id, user, status name and total, and one item per order line, in order, with the line's product id, quantity, unit price and line total and the product's name |
| OrderService.CreatedResponse | src/main/java/com/minicommerceapi/minicommerce/service/OrderService.java:29-68 | the response to a successful order has the status "CREATED", one item per request line in request order with the product's id and name, the quantity and the price before the order, and the request's cost as total |
| OrderService.TakeItems | src/main/java/com/minicommerceapi/minicommerce/service/OrderService.java:41-62 | the item loop keeps `Database.Valid()`; on success the product table and the lines are those of the reference loop and the running total is the sum of the line totals; on the first failing line its error is returned and the product table is restored; the second copy has the same loop at src/main/java/edu/akademik/minicommerce/service/OrderService.java:39-60 |
| OrderService.Create | src/main/java/com/minicommerceapi/minicommerce/service/OrderService.java:29-68 | an unknown user gives NotFound; a failing loop gives its error and leaves products, orders and the counter unchanged; on success the new stock is stored, the CREATED order is saved under a fresh id, and the response lists the lines with their product names; the second copy does the same at src/main/java/edu/akademik/minicommerce/service/OrderService.java:29-66 |
| OrderService.TakeLinesStock | src/main/java/com/minicommerceapi/minicommerce/service/OrderService.java:41-52 | after a successful loop the table has the same ids; every product's stock is lowered by exactly the total quantity requested of it; nothing else changes; the second copy does the same at src/main/java/edu/akademik/minicommerce/service/OrderService.java:46-50 |
| OrderService.TakeLinesLines | src/main/java/com/minicommerceapi/minicommerce/service/OrderService.java:54-61 | one line per request item, in request order, each with the product's price from before the order and a line total of price times quantity |
| OrderService.TakeLinesSucceeds | src/main/java/com/minicommerceapi/minicommerce/service/OrderService.java:42-50 | the loop succeeds if and only if every product exists, every quantity is positive and no product is asked for more than its stock in total |
| OrderService.TakeLinesFailure | src/main/java/com/minicommerceapi/minicommerce/service/OrderService.java:42-50 | a failure is never Conflict; NotFound only when some product is missing; BadRequest only when some line has a non-positive quantity or more than the stock the earlier lines left; the second copy does the same at src/main/java/edu/akademik/minicommerce/service/OrderService.java:40-48 |
| OrderService.TakeLinesPrefixFails | src/main/java/com/minicommerceapi/minicommerce/service/OrderService.java:41-50 | once a prefix of the lines fails, the whole request fails with the same error |
| OrderService.TotalIsCost | src/main/java/com/minicommerceapi/minicommerce/service/OrderService.java:39-64 | the order total equals the sum of price times quantity over the requested lines; the second copy does the same at src/main/java/edu/akademik/minicommerce/service/OrderService.java:37-62 |
| OrderService.TouchedStockNonNegative | src/main/java/com/minicommerceapi/minicommerce/service/OrderService.java:48-52 | every product a successful order names ends with stock of at least zero, even when several lines name it; the second copy does the same at src/main/java/edu/akademik/minicommerce/service/OrderService.java:46-50 |
| OrderService.PlaceOrderOutcome | src/main/java/com/minicommerceapi/minicommerce/service/OrderService.java:29-64 | an unknown user is NotFound; for a known user the order succeeds if and only if the request is acceptable; errors are never Conflict; a success is a CREATED order for that user with one line per item and the request's cost as total |
| OrderService.TakeLinesKeepsInvariant | src/main/java/com/minicommerceapi/minicommerce/service/OrderService.java:41-61 | the loop keeps ids, category links, SKU uniqueness and prices, and every line names an existing product |
| OrderService.RollbackScenario | src/test/java/com/minicommerceapi/minicommerce/e2e/MiniCommerceServerE2ETest.java:162-192 | A with stock 5 and B with stock 1, ordering 2 of each, gives BadRequest |
| OrderService.StockDecreaseScenario | src/test/java/com/minicommerceapi/e2e/ApiE2ETest.java:61-85 | ordering 2 of a product with stock 10 at 30.00 leaves stock 8, one line and a total of 60.00 |
| OrderService.ParseStatus | src/main/java/com/minicommerceapi/minicommerce/service/OrderService.java:88 | a parsed status is the one whose name equals the trimmed, upper-cased request; nothing is parsed exactly when no name equals it |
| OrderService.StatusNamed | src/main/java/com/minicommerceapi/minicommerce/service/OrderService.java:88 | `valueOf` finds a status exactly when the string is one of the three names |
| OrderService.ParseName | src/main/java/com/minicommerceapi/minicommerce/service/OrderService.java:88 | every status name parses back to its status |
| OrderService.ParseIgnoresCase | src/main/java/com/minicommerceapi/minicommerce/service/OrderService.java:88 | parsing ignores the case of ASCII letters |
| OrderService.NextStatus | src/main/java/com/minicommerceapi/minicommerce/service/OrderService.java:86-98 | a request that does not parse is BadRequest whatever the current status; a success moves a CREATED order to a status other than CREATED; the state machine never reports NotFound |
| OrderService.CreatedOrderErrors | src/main/java/com/minicommerceapi/minicommerce/service/OrderService.java:86-98 | a CREATED order never gives Conflict: a request fails with BadRequest if and only if it does not parse to PAID or CANCELLED, so a request for CREATED is BadRequest |
| OrderService.Transitions | src/main/java/com/minicommerceapi/minicommerce/service/OrderService.java:93-101 | a change succeeds if and only if the order is CREATED and the request parses to PAID or CANCELLED, and then the new status is the parsed one; the second copy does the same at src/main/java/edu/akademik/minicommerce/service/OrderService.java:94-101 |
| OrderService.TerminalStatus | src/main/java/com/minicommerceapi/minicommerce/service/OrderService.java:86-95 | on PAID or CANCELLED a well-formed request is Conflict and a malformed one is still BadRequest; the second copy does the same at src/main/java/edu/akademik/minicommerce/service/OrderService.java:84-96 |
| OrderService.SecondPatchConflicts | src/main/java/com/minicommerceapi/minicommerce/service/OrderService.java:93-101 | after one successful change, any second well-formed request is Conflict |
| OrderService.PaidToCancelledConflicts | src/test/java/edu/akademik/minicommerce/unit/OrderStatusPatchTest.java:20-32 | a PAID order asked to become CANCELLED gives Conflict |
| OrderService.PatchStatus | src/main/java/com/minicommerceapi/minicommerce/service/OrderService.java:81-102 | a missing order is NotFound; otherwise the state machine's error leaves the table unchanged, and a success changes only that order's status; the second copy does the same at src/main/java/edu/akademik/minicommerce/service/OrderService.java:80-103 |
| OrderService.Get | src/main/java/com/minicommerceapi/minicommerce/service/OrderService.java:75-79 | the stored order if the id exists, NotFound otherwise; the second copy does the same at src/main/java/edu/akademik/minicommerce/service/OrderService.java:73-77 |
| OrderService.Delete | src/main/java/com/minicommerceapi/minicommerce/service/OrderService.java:104-110 | a missing id is NotFound and nothing is removed; otherwise exactly that order is removed; the second copy does the same at src/main/java/edu/akademik/minicommerce/service/OrderService.java:105-111 |
| ProductService.Create | src/main/java/com/minicommerceapi/minicommerce/service/ProductService.java:25-47 | a taken trimmed SKU is Conflict, checked before the category; an unknown category is NotFound; both leave the table unchanged; otherwise the product with trimmed name and SKU and the given price, stock and category is stored under a fresh id |
| ProductService.Patch | src/main/java/com/minicommerceapi/minicommerce/service/ProductService.java:63-87 | errors (missing product, SKU conflict, unknown category) leave the table unchanged; a success replaces only that row with the patched one; validity is kept |
| ProductService.Patched | src/main/java/com/minicommerceapi/minicommerce/service/ProductService.java:63-87 | a missing product is NotFound; a patch never gives BadRequest; Conflict only when a SKU is supplied whose trimmed form differs from the product's own and is held by some product; on success a supplied category exists |
| ProductService.PatchSetsSuppliedFields | src/main/java/com/minicommerceapi/minicommerce/service/ProductService.java:67-85 | every supplied field is set (name and SKU trimmed) and every null field keeps its value |
| ProductService.OwnSkuNeverConflicts | src/main/java/com/minicommerceapi/minicommerce/service/ProductService.java:69-75 | re-sending the product's own SKU never conflicts |
| ProductService.TakenSkuConflicts | src/main/java/com/minicommerceapi/minicommerce/service/ProductService.java:69-75 | a SKU held by another product is Conflict |
| ProductService.PatchKeepsSkusUnique | src/main/java/com/minicommerceapi/minicommerce/service/ProductService.java:69-75 | a successful patch keeps SKUs unique |
| ProductService.List | src/main/java/com/minicommerceapi/minicommerce/service/ProductService.java:49-55 | the listing holds exactly the products of the category, or all of them when no category is given, each with its category's name |
| ProductService.ListFilters | src/main/java/com/minicommerceapi/minicommerce/service/ProductService.java:50-54 | the unfiltered listing covers the table; a category's listing is empty if and only if no product is in it |
| ProductService.ToResponse | src/main/java/com/minicommerceapi/minicommerce/service/ProductService.java:97-108 | the response has the id, every field of the product and its category's name |
| ProductService.Delete | src/main/java/com/minicommerceapi/minicommerce/service/ProductService.java:89-95 | a missing id is NotFound; otherwise exactly that product is removed |
| CategoryService.Named | src/main/java/com/minicommerceapi/minicommerce/service/CategoryService.java:28-29 | the stored row's slug is a well-formed slug |
| CategoryService.SlugMatchesStoredName | src/main/java/com/minicommerceapi/minicommerce/service/CategoryService.java:28-29 | the stored slug is also the slug of the stored (trimmed) name |
| CategoryService.Create | src/main/java/com/minicommerceapi/minicommerce/service/CategoryService.java:25-32 | the trimmed name and the slug of the name are stored under a fresh id; the second copy does the same at src/main/java/edu/akademik/minicommerce/service/CategoryService.java:25-32 |
| CategoryService.Update | src/main/java/com/minicommerceapi/minicommerce/service/CategoryService.java:45-51 | a missing id is NotFound; otherwise name and slug are replaced under the same id; the second copy does the same at src/main/java/edu/akademik/minicommerce/service/CategoryService.java:45-51 |
| CategoryService.Delete | src/main/java/com/minicommerceapi/minicommerce/service/CategoryService.java:58-69 | a missing id is NotFound, checked first; a category with products is Conflict and stays; otherwise exactly that category is removed; every product still has its category; the second copy does the same at src/main/java/edu/akademik/minicommerce/service/CategoryService.java:58-67 |
| CategoryService.DeleteLeavesNoOrphans | src/main/java/com/minicommerceapi/minicommerce/service/CategoryService.java:65-68 | the category's product listing is empty if and only if no product is in it, which is the check delete makes; when that check passes, every product keeps an existing category once the category is removed |
| UserService.NormalizeEmail | src/main/java/com/minicommerceapi/minicommerce/service/UserService.java:70-72 | null gives ""; otherwise the result has the trimmed input's length and each character is the lower-case form of the trimmed input's character at that place; every result is trimmed and has no upper-case letter |
| UserService.NormalizeFixpoint | src/main/java/com/minicommerceapi/minicommerce/service/UserService.java:70-72 | an address already in the stored form is returned unchanged |
| UserService.NormalizedForm | src/main/java/com/minicommerceapi/minicommerce/service/UserService.java:70-72 | the stored form is exactly the strings that trimming and lower-casing leave unchanged |
| UserService.NormalizeIdempotent | src/main/java/com/minicommerceapi/minicommerce/service/UserService.java:70-72 | normalising twice equals normalising once |
| UserService.VariantsCollide | src/main/java/com/minicommerceapi/minicommerce/service/UserService.java:24-27 | upper-case, lower-case and space-padded variants of an email normalise alike, so they collide |
| UserService.NormalizeExample | src/test/java/edu/akademik/minicommerce/unit/UserServiceTest.java:32-36 | " A@B.COM " is stored as "a@b.com" |
| UserService.Create | src/main/java/com/minicommerceapi/minicommerce/service/UserService.java:22-33 | a taken normalised email is Conflict and nothing changes; otherwise the trimmed name and normalised email are stored under a fresh id; emails stay normalised and unique |
| UserService.Update | src/main/java/com/minicommerceapi/minicommerce/service/UserService.java:46-56 | a missing id is NotFound; a new email that another user holds is Conflict; keeping one's own email never conflicts; otherwise name and email are replaced; emails stay unique |
| UserService.Delete | src/main/java/com/minicommerceapi/minicommerce/service/UserService.java:58-64 | a missing id is NotFound; otherwise exactly that user is removed |
| ReviewService.Create | src/main/java/com/minicommerceapi/minicommerce/service/ReviewService.java:28-41 | an unknown user is NotFound, checked first, then an unknown product; neither adds a review; otherwise the review with exactly the given fields is stored under a fresh id; the third copy does the same at src/main/java/com/minicommerceapi/service/ReviewService.java:28-41 |
| ReviewService.List | src/main/java/com/minicommerceapi/minicommerce/service/ReviewService.java:43-49 | the listing holds exactly the reviews of the product, or all of them when no product is given; the third copy does the same at src/main/java/com/minicommerceapi/service/ReviewService.java:43-49 |
| ReviewService.ListPartitions | src/main/java/com/minicommerceapi/minicommerce/service/ReviewService.java:45-48 | every review is in its own product's listing and no other; the unfiltered listing covers the table |
| ReviewService.Get | src/main/java/com/minicommerceapi/minicommerce/service/ReviewService.java:51-55 | NotFound if and only if the id is missing; otherwise the stored review |
| ReviewService.Patched | src/main/java/com/minicommerceapi/minicommerce/service/ReviewService.java:58-68 | user and product are kept; the rating is the supplied one, or the stored one when the request's rating is null; the comment likewise, each field independently of the other |
| ReviewService.PatchProperties | src/main/java/com/minicommerceapi/minicommerce/service/ReviewService.java:58-68 | a patch never changes user or product, keeps the rating in range, is the identity when nothing is supplied, and applying it twice equals applying it once |
| ReviewService.Patch | src/main/java/com/minicommerceapi/minicommerce/service/ReviewService.java:58-68 | a missing id is NotFound; otherwise only that review changes, a supplied rating or comment replacing the stored one; the third copy does the same at src/main/java/com/minicommerceapi/service/ReviewService.java:58-68 |
| ReviewService.ToResponse | src/main/java/com/minicommerceapi/minicommerce/service/ReviewService.java:78-80 | the response has the id and every field of the review |
| ReviewService.Delete | src/main/java/com/minicommerceapi/minicommerce/service/ReviewService.java:70-76 | a missing id is NotFound; otherwise exactly that review is removed; the third copy does the same at src/main/java/com/minicommerceapi/service/ReviewService.java:70-76 |

## Left out

- Unicode in `slugify`: the NFD normalisation and combining-mark removal (`SlugUtil.java:19-20`) are a call into `java.text.Normalizer`. The model is ASCII only, where that step changes nothing. The accent test cases are therefore outside it.
- Case mapping: `toLowerCase(Locale.ROOT)` and the default-locale `toUpperCase()` in status parsing are ASCII only. Non-ASCII letters are left as they are.
- Concurrency: each request runs alone. The unsynchronised stock update is outside the model.
- Number widths: `BigDecimal` prices are unbounded integer cents. The column precision (12 digits) and Java `int` ranges for stock and quantity are not modelled.
- Database constraints the service code does not check are not modelled:
  - unique category name and slug;
  - foreign keys from order lines and reviews to products and users, and from orders to users.
- `ProductService.Delete`: removes the product even when order lines or reviews name it, as the service code does. `OrderItem.java` and `Review.java` are not part of this model, so their JPA mapping is unknown here. If that mapping declares foreign keys to products, the database would refuse such a delete. The model does not assume either way.
- `UserService.Delete`: removes the user even when orders or reviews name it, as the service code does. `Order.java` and `Review.java` are not part of this model. Whether the database would refuse that delete depends on their JPA mapping, which the model does not assume.
- `OrderService.Get`: returns the stored order row, not the response with product names. A line may name a product deleted since, so those names are not guaranteed.
- `OrderService.PatchStatus`: returns the stored order row, not the response with product names, for the same reason.
- `OrderService.Create`: accepts an empty item list, as the service code does. The request validation (`@Size(min = 1)`) that rejects it before the service is not modelled.
- Bean validation: only the constraints the services rely on are modelled, as preconditions:
  - price > 0;
  - stock ≥ 0 on create;
  - rating 1..5;
  - comment length ≤ 600.

  `@NotBlank`, `@Email` and the name and SKU length limits are not modelled.
- Patched stock: a product patch may set any stock, including a negative one, as the source allows. The order properties therefore quantify over the requested products only.
- Read-only lookups and listings that no property depends on are not modelled: `get` and `list` of users and categories, `get` of products, `list` of orders.
- Timestamps: `createdAt`.
- Response ordering: listings are maps keyed by id, so the row order of `findAll` is not modelled.
- Controllers, `GlobalExceptionHandler` and `ApiError`: HTTP routing and status mapping are replaced by the `Error` datatype.
