# milly commerce core in Dafny

A model of the commerce core of milly, a Django shop backend. It covers:

- products with an append-only stock-event ledger;
- product discounts, of which only the highest active one applies;
- per-user coupons;
- the use cases built on these: create a product with its opening stock,
  change stock under optimistic locking with three attempts, replace a
  product's discount, issue a coupon, list products by page, and price one
  product for a user;
- the exception hierarchy with its HTTP status codes and messages;
- `get_or_raise` and the time-ordered id generator.

Modules, one per source file:

| module | file | models |
|---|---|---|
| `Exceptions` | exceptions.dfy | `common/exceptions.py`: the classes as a `Kind` with a parent function; class-attribute lookup along the inheritance chain |
| `Utils` | utils.dfy | `common/utils.py`: `get_or_raise` and `new_id` |
| `Entities` | entities.dfy | `commerce/domain/entities.py`: the records and their `create` factories |
| `Services` | services.dfy | `commerce/app/services.py`: the product-discount calculation |
| `Persistence` | persistence.dfy | the Django ORM adapter, as a `Store` class whose tables are fields updated in place |
| `StockUpdate` | stock.dfy | `UpdateProductStockUsecase` and its retry decorator |
| `Usecases` | usecases.dfy | the other use cases of `commerce/app/usecases.py` |

Conventions of the model:

- Money and percentages are `real`, because Python floats are left out.
  Datetimes are epoch milliseconds.
- Each `create` draws an id and reads the clock. Both arrive as a `Stamp`
  parameter (epoch ms and a random draw below 10000).
- A Python exception is the `Err` side of a `Result`. The `Error` type is one of:
  - a milly exception: its class and its optional detail;
  - an `IntegrityError`, with the database constraint that failed;
  - `DoesNotExist`;
  - a `ValueError`.
- The concurrency race against the stock ledger is modelled as it reaches the
  use case: `get_last_stock_event` returns an outdated event. The parameter
  `stale` lists what its successive calls return while the race lasts.
  After that, the store's true latest event is returned.
- `UpdateProductStockUsecase.execute` is specified by the recursive function
  `StockUpdate.Run` over attempt numbers. The method `UpdateProductStock`,
  with its loop, is proved equal to it.
- The code is followed wherever it and the documentation differ. The
  docstring of `new_id` (`src/common/utils.py:23-26`) promises a 19-digit
  number with a 6-digit random part. The code builds 13 digits, a `-`, and 4
  random digits: 18 characters, as `Utils.NewIdFormat` states.

## Model

| member | source | states |
|---|---|---|
| Exceptions.Parent | src/common/exceptions.py:1-63 | every class but `MillyException` has exactly one base, one level nearer the root |
| Exceptions.OwnStatus | src/common/exceptions.py:1-63 | the root class declares a status, so every status lookup ends |
| Exceptions.OwnMsg | src/common/exceptions.py:1-63 | the root class declares a message, so every message lookup ends |
| Exceptions.IsSubclass | src/common/exceptions.py:1-63 | a base class is never deeper in the hierarchy than its subclass |
| Exceptions.Status | src/common/exceptions.py:1-63 | the `status` class attribute: a class's own value when it sets one, and always a value some class on the chain up to `MillyException` sets |
| Exceptions.Msg | src/common/exceptions.py:1-63 | the `msg` class attribute: a class's own message when it sets one, and always a message some class on the chain up to `MillyException` sets; never empty |
| Exceptions.SubclassDepth | src/common/exceptions.py:1-63 | a superclass sits no deeper than its subclass, and at equal depth they are the same class |
| Exceptions.SubclassTransitive | src/common/exceptions.py:1-63 | subclassing is transitive |
| Exceptions.SubclassAntisymmetric | src/common/exceptions.py:1-63 | two classes that are subclasses of each other are the same class |
| Exceptions.EveryKindIsMilly | src/common/exceptions.py:1-63 | every exception is a `MillyException` with status 400, 401 or 500 |
| Exceptions.InheritedStatus | src/common/exceptions.py:1-63 | a class inherits the status of the nearest ancestor that declares one |
| Exceptions.InheritedMsg | src/common/exceptions.py:1-63 | a class inherits the message of the nearest ancestor that declares one |
| Exceptions.ClientStatus | src/common/exceptions.py:14-63 | a client error has status 401 exactly when it is `Unauthorized` or `Unauthenticated`, and 400 otherwise |
| Exceptions.ServiceStatus | src/common/exceptions.py:9-11 | every service error, the lock conflict included, has status 500 |
| Exceptions.LockErrorIsServiceError | src/common/exceptions.py:52-53 | the lock conflict is a service error but not the reverse; a plain `ServiceException` is not retried as a conflict |
| Exceptions.ParameterRequiredIsClientError | src/common/exceptions.py:56-57 | `ParameterRequired` is an `InvalidParameter`, hence a 400 client error |
| Utils.GetOrRaise | src/common/utils.py:12-19 | the value is returned exactly when the key is present with a truthy value; otherwise the given exception is raised with the key as detail |
| Utils.FalsyValuesAreMissing | src/common/utils.py:17-18 | 0, "", False and an absent key all raise `ParameterRequired` (status 400) |
| Utils.Fixed | src/common/utils.py:29 | the last `width` decimal digits of a number, most significant first: exactly `width` digit characters |
| Utils.NumDigitsBound | src/common/utils.py:29 | a number below 10^w has at most w digits |
| Utils.ZeroPadDigits | src/common/utils.py:29 | `:0{width}d` formatting gives only digits, at least `width` of them and at least as many as the number has |
| Utils.ZeroPadFits | src/common/utils.py:29 | within the width, padding never truncates |
| Utils.FixedRoundTrip | src/common/utils.py:29 | reading the padded digits back gives the number |
| Utils.LexLessExtend | src/common/utils.py:22-29 | string order of equal-length strings survives appending one character each |
| Utils.LexLessConcat | src/common/utils.py:22-29 | string order of equal-length prefixes decides the order of the whole strings |
| Utils.FixedMonotone | src/common/utils.py:29 | padded numbers compare as strings the way they compare as numbers |
| Utils.NewId | src/common/utils.py:22-29 | an id is a run of at least 13 digits, a `-`, and a run of at least 4 digits |
| Utils.NewIdFormat | src/common/utils.py:22-29 | an id is 18 characters: 13 timestamp digits, `-`, 4 random digits, each part decoding to its number |
| Utils.NewIdSplit | src/common/utils.py:29 | an id is the 13-digit padded timestamp followed by `-` and the padded random part |
| Utils.NewIdTimeOrdered | src/common/utils.py:22-29 | an id of a later millisecond sorts after an earlier one, whatever the random parts |
| Entities.NewProduct | src/commerce/domain/entities.py:8-21 | a product is built exactly when its price is positive, with the fields given; otherwise an error with the validator's `ValueError` message |
| Entities.CreateProduct | src/commerce/domain/entities.py:23-32 | the factory sets the id and both timestamps from the clock and random inputs, and builds the product exactly when the price is positive |
| Entities.CreateStockEvent | src/commerce/domain/entities.py:43-57 | the event carries the given product, change, total and version with a fresh id |
| Entities.CreateDiscount | src/commerce/domain/entities.py:68-83 | the discount carries the given fields and is active unless told otherwise |
| Entities.CreateCoupon | src/commerce/domain/entities.py:95-112 | the coupon carries the given fields and is active unless told otherwise |
| Entities.CreatedActiveByDefault | src/commerce/domain/entities.py:74 | discounts and coupons created with the defaults are active |
| Entities.IdLength | src/commerce/domain/entities.py:26 | every entity id is 18 characters long within the clock's range |
| Services.PercentOfWithin | src/commerce/app/services.py:25 | a percentage within 0..100 takes at most the whole amount, and never less than nothing |
| Services.ActivePercentages | src/commerce/app/services.py:21 | the percentages collected are exactly those of the active discounts |
| Services.Max | src/commerce/app/services.py:24 | the maximum is an element and bounds every element |
| Services.MaxActivePercentage | src/commerce/app/services.py:21-24 | the largest percentage among active discounts is taken by one of them and bounds all of them |
| Services.MaxActiveUnique | src/commerce/app/services.py:24 | the largest active percentage depends only on which discounts there are |
| Services.CalcProductDiscount | src/commerce/app/services.py:12-26 | a `ServiceException` exactly when some discount, active or not, belongs to another product; 0 with no active discount; otherwise price times the largest active percentage |
| Services.AmountIsMaxPercentage | src/commerce/app/services.py:24-26 | the amount is the price times any maximal active percentage |
| Services.SameDiscountsSameAmount | src/commerce/app/services.py:12-26 | reordering or repeating discounts does not change the result |
| Services.PermutationInvariant | src/commerce/app/services.py:12-26 | a permutation of the discounts gives the same result |
| Services.InactiveDiscountIrrelevant | src/commerce/app/services.py:21 | adding an inactive discount of the same product changes nothing |
| Services.DiscountWithinPrice | src/commerce/app/services.py:21-26 | discounts do not stack: with percentages in 0..100 the amount lies between 0 and the price |
| Services.TenPercentExample | src/commerce/app/services.py:12-26 | one 10% discount on 10000 takes 1000 off |
| Persistence.Append | src/commerce/adapter/persistence/django_orm/django_orm_persistence_adpater.py:38-39 | saving an event adds it at the end of its product's history and leaves other histories alone |
| Persistence.LastEvent | src/commerce/adapter/persistence/django_orm/django_orm_persistence_adpater.py:46-54 | `None` exactly when there is no event; otherwise a stored event with the highest version |
| Persistence.StockInsertOutcome | src/commerce/adapter/persistence/django_orm/django_orm_persistence_adpater.py:33-44 | the insert succeeds, returning the event, exactly when its (product, version) key is free and the product exists; it is a lock conflict exactly when the key is taken; any other failure is the foreign-key error |
| Persistence.FindProduct | src/commerce/adapter/persistence/django_orm/django_orm_persistence_adpater.py:104 | the product with the id, found exactly when one is stored |
| Persistence.ActiveDiscountsOf | src/commerce/adapter/persistence/django_orm/django_orm_persistence_adpater.py:106-111 | exactly the active discounts of the product |
| Persistence.Deactivated | src/commerce/adapter/persistence/django_orm/django_orm_persistence_adpater.py:60-64 | the product's active discounts become inactive; every other row is untouched |
| Persistence.UserActiveCoupons | src/commerce/adapter/persistence/django_orm/django_orm_persistence_adpater.py:114-117 | exactly the user's active coupons |
| Persistence.StockCount | src/commerce/adapter/persistence/django_orm/django_orm_persistence_adpater.py:93-98 | 0 for a product without events; for a well-formed history, the sum of all its changes, never negative |
| Persistence.LowerStr | src/commerce/adapter/persistence/django_orm/django_orm_persistence_adpater.py:82 | case folding keeps the length and folds each character |
| Persistence.FilterByName | src/commerce/adapter/persistence/django_orm/django_orm_persistence_adpater.py:80-82 | exactly the products whose name contains the search text, ignoring case; no filter for `None` or "" |
| Persistence.FilterByNameSingle | src/commerce/adapter/persistence/django_orm/django_orm_persistence_adpater.py:80-82 | one product is kept exactly when its name matches |
| Persistence.FilterByNameConcat | src/commerce/adapter/persistence/django_orm/django_orm_persistence_adpater.py:80-82 | filtering keeps table order: the filtered concatenation is the concatenation of the filtered parts |
| Persistence.NoFilterKeepsAll | src/commerce/adapter/persistence/django_orm/django_orm_persistence_adpater.py:81 | without search text every product is kept, in order |
| Persistence.PageOf | src/commerce/adapter/persistence/django_orm/django_orm_persistence_adpater.py:83 | a negative slice bound raises `ValueError`; otherwise the page is the slice `(page-1)*size .. page*size` clipped to the list |
| Persistence.PaginationExample | src/commerce/adapter/persistence/django_orm/django_orm_persistence_adpater.py:83 | 25 products in pages of 10 give pages of 10, 10, 5 and 0 |
| Persistence.TotalIsSumOfChanges | src/commerce/adapter/persistence/django_orm/django_orm_persistence_adpater.py:93-98 | in a well-formed history each event's total is the sum of the changes up to and including it |
| Persistence.LastOfWellFormed | src/commerce/adapter/persistence/django_orm/django_orm_persistence_adpater.py:46-54 | in a well-formed history the highest version is the last event appended |
| Persistence.TakenVersions | src/commerce/adapter/persistence/django_orm/django_orm_persistence_adpater.py:33-44 | in a well-formed history the taken versions are exactly 1..n, so only version n+1 can be inserted |
| Persistence.ExtendWellFormed | src/commerce/app/usecases.py:84-89 | the event with the next version and the last total plus its change extends a well-formed history |
| Persistence.NoActiveDiscounts | src/commerce/adapter/persistence/django_orm/django_orm_persistence_adpater.py:106-111 | with no active discount of the product, the query finds none |
| Persistence.NoneActiveAfterDeactivation | src/commerce/adapter/persistence/django_orm/django_orm_persistence_adpater.py:60-64 | after deactivation the product has no active discount |
| Persistence.UpsertLeavesOneActive | src/commerce/adapter/persistence/django_orm/django_orm_persistence_adpater.py:56-68 | deactivating the others and inserting an active discount leaves it the product's only active one |
| Persistence.UpsertKeepsOneActivePerProduct | src/commerce/adapter/persistence/django_orm/django_orm_persistence_adpater.py:56-68 | replacing a discount keeps at most one active discount per product |
| Persistence.AppendKeepsInvariant | src/commerce/adapter/persistence/django_orm/django_orm_persistence_adpater.py:33-44 | appending an event that extends its existing product's history keeps the store invariant |
| Persistence.HasProductGrows | src/commerce/adapter/persistence/django_orm/django_orm_persistence_adpater.py:24-26 | storing a product keeps every existing product reference valid |
| Persistence.Store.constructor | src/commerce/adapter/persistence/django_orm/django_orm_persistence_adpater.py:22 | an empty store with its users satisfies the invariant |
| Persistence.Store.CreateProduct | src/commerce/adapter/persistence/django_orm/django_orm_persistence_adpater.py:23-31 | product and first event are stored together, or on an integrity error neither is |
| Persistence.Store.CreateProductStockEvent | src/commerce/adapter/persistence/django_orm/django_orm_persistence_adpater.py:33-44 | the outcome of the insert; the ledger grows by the event on success and is unchanged otherwise; no other table changes |
| Persistence.Store.GetLastStockEvent | src/commerce/adapter/persistence/django_orm/django_orm_persistence_adpater.py:46-54 | `None` exactly for a product without events; otherwise its event with the highest version |
| Persistence.Store.CreateProductDiscount | src/commerce/adapter/persistence/django_orm/django_orm_persistence_adpater.py:56-68 | fails exactly for an unknown product, and then changes nothing; otherwise optionally deactivates the product's discounts and appends the new one |
| Persistence.Store.CreateCupon | src/commerce/adapter/persistence/django_orm/django_orm_persistence_adpater.py:70-73 | a taken code is a unique violation, an unknown user a foreign-key violation; stored exactly when the code is fresh and the user exists |
| Persistence.Store.RowOf | src/commerce/adapter/persistence/django_orm/django_orm_persistence_adpater.py:85-99 | a row holds the product, exactly its active discounts, and the latest total (0 without events) |
| Persistence.Store.GetProducts | src/commerce/adapter/persistence/django_orm/django_orm_persistence_adpater.py:75-99 | fails exactly on a negative slice bound; otherwise one row per product of the filtered page, in order |
| Persistence.Store.RowsOf | src/commerce/adapter/persistence/django_orm/django_orm_persistence_adpater.py:85-99 | the loop over the page yields the row of each product, in order |
| Persistence.Store.GetProduct | src/commerce/adapter/persistence/django_orm/django_orm_persistence_adpater.py:101-112 | `DoesNotExist` exactly for an unknown id; otherwise the product and exactly its active discounts |
| Persistence.Store.GetCupons | src/commerce/adapter/persistence/django_orm/django_orm_persistence_adpater.py:114-117 | the loop yields exactly `UserActiveCoupons` of the coupon table, which keeps the table order of the user's active coupons |
| Persistence.Store.IsUserExist | src/commerce/adapter/persistence/django_orm/django_orm_persistence_adpater.py:119-121 | under the store invariant every user who holds a coupon exists |
| StockUpdate.UpdateProductStock | src/commerce/app/usecases.py:67-90 | the loop returns what the attempt-by-attempt specification returns; only a success appends its event; with reads from the product's own history the store invariant is kept |
| StockUpdate.Run | src/commerce/app/usecases.py:67-90 | the retried use case from attempt `k` on tries at most `Tries - k` events, so at most three in all |
| StockUpdate.NextEventIsCreated | src/commerce/app/usecases.py:84-89 | the event an attempt builds is the one `ProductStockEventEntity.create` makes with version + 1 and total + change |
| StockUpdate.RunSettles | src/commerce/app/usecases.py:67-90 | with no attempt a read failed; an error is a read failure, a lock conflict or the foreign-key error; a success is the last event tried, for the product asked for |
| StockUpdate.AttemptsFollowReads | src/commerce/app/usecases.py:74-90 | every event tried is the successor of that attempt's read: version + 1 and total + change |
| StockUpdate.EarlierAttemptsConflicted | src/commerce/app/usecases.py:67-72 | every attempt before the last ended in a lock conflict |
| StockUpdate.LastAttemptDecides | src/commerce/app/usecases.py:67-90 | unless a read failed, the result is the insert outcome of the last event tried |
| StockUpdate.OnlyConflictsRetried | src/commerce/app/usecases.py:67-72 | every attempt but the last ended in a lock conflict; unless a read failed, the result is the last attempt's; a success used a free version |
| StockUpdate.ConflictSurfacesAfterThirdAttempt | src/commerce/app/usecases.py:67-72 | a conflict reaches the caller only after all three attempts conflicted |
| StockUpdate.NoEventIsNotRetried | src/commerce/app/usecases.py:74-79 | a product without stock events raises a 500 service error at once, with nothing written and no retry |
| StockUpdate.InsufficientStockIsRefused | src/commerce/app/usecases.py:81-82 | a change that would make the stock negative raises `InvalidStockChange` (400) before anything is written |
| StockUpdate.NoLostUpdate | src/commerce/app/usecases.py:74-90 | however stale the reads, a success appends version n+1 with the latest total plus the change, and the history stays well formed |
| StockUpdate.SuccessKeepsInvariant | src/commerce/app/usecases.py:67-90 | appending the event of a successful update keeps the store invariant |
| StockUpdate.SucceedsWhenRaceEnds | src/commerce/app/usecases.py:67-90 | when the race ends before the attempts run out and every read has enough stock, the update succeeds |
| StockUpdate.StaleReadExample | src/commerce/tests.py:172-217 | with versions 1 and 2 stored and an outdated first read, versions 2 then 3 are tried and 3 is stored with total 220 |
| Usecases.NewProductKeepsInvariant | src/commerce/app/usecases.py:40-57 | a new product with a valid price and its opening event keeps the store invariant, on an empty history |
| Usecases.CreateProduct | src/commerce/app/usecases.py:40-57 | a non-positive price, then a negative stock, raise `InvalidParameter` without writing; otherwise product and version-1 event are stored, and the stock count equals the opening stock |
| Usecases.UpsertKeepsInvariant | src/commerce/app/usecases.py:106-115 | replacing a discount of an existing product keeps the store invariant |
| Usecases.UpsertProductDiscount | src/commerce/app/usecases.py:106-115 | fails exactly for an unknown product; otherwise the new active discount is the product's only active one |
| Usecases.NewCouponKeepsInvariant | src/commerce/app/usecases.py:132-145 | a coupon of an existing user under a fresh code keeps the store invariant |
| Usecases.CreateCupon | src/commerce/app/usecases.py:132-145 | an invalid period, then an unknown user, raise `InvalidParameter`; the coupon is stored active exactly when period, user and code are good; the foreign-key error never surfaces |
| Usecases.RowsMatchTheirProduct | src/commerce/app/usecases.py:173-175 | the store's rows never make the discount service raise |
| Usecases.ListingOf | src/commerce/app/usecases.py:173-182 | the listing of a row: its product and stock, the service's discount, a total that adds back up to the price, and within 0..price for valid percentages |
| Usecases.RowListingDescribes | src/commerce/app/usecases.py:173-182 | the listing built from a store row has the product, the service discount, the price after it and the current stock |
| Usecases.ListingsOf | src/commerce/app/usecases.py:166-182 | one listing per row, in order |
| Usecases.GetProducts | src/commerce/app/usecases.py:163-182 | one listing per product of the page, in order: the service's discount, the price minus it, the current stock; a negative page bound is the only failure |
| Usecases.ListingWithinPrice | src/commerce/app/usecases.py:176 | a listed price lies between 0 and the product's price |
| Usecases.BestCouponPercentage | src/commerce/app/usecases.py:210-222 | `None` exactly when no coupon is usable now; otherwise the largest percentage of a usable coupon |
| Usecases.CouponPercentage | src/commerce/app/usecases.py:208-222 | no coupon unless the user id is all digits and not "anonymous"; otherwise the best usable coupon of that user, `None` exactly when there is none |
| Usecases.CouponPercentageAsWritten | src/commerce/app/usecases.py:209-222 | the selection as written raises `ValueError` exactly for a signed-in user without a usable coupon |
| Usecases.AsWrittenFailsOnlyWithoutCoupon | src/commerce/app/usecases.py:209-222 | where it returns, the selection as written agrees with the corrected one; it fails exactly where the corrected one finds no coupon |
| Usecases.SignedInUserWithoutCouponRaises | src/commerce/app/usecases.py:215-222 | user "1" without coupons makes the code as written raise, while the corrected selection applies no coupon |
| Usecases.PriceWithCoupon | src/commerce/app/usecases.py:223-233 | the coupon amount is its percentage of the price left after the product discount; the final price is the price minus both amounts; without a coupon only the product discount comes off |
| Usecases.CouponWithinRemainder | src/commerce/app/usecases.py:223-228 | the coupon applies to what the product discount left: both it and the final price lie between 0 and that remainder |
| Usecases.SuccessiveDiscounts | src/commerce/app/usecases.py:223-228 | the discounts are successive: the final price is price × (1 − d/100) × (1 − c/100) |
| Usecases.GetProductWithCuponDiscount | src/commerce/app/usecases.py:194-234 | the use case with the coupon step corrected (Usecases.CouponPercentage; the behaviour as written is Usecases.CouponPercentageAsWritten): `DoesNotExist` exactly for an unknown product; otherwise the stored product, the service's discount, and the best usable coupon of a signed-in user on the remainder |
| Usecases.DetailPriceExample | src/commerce/tests.py:369-394 | 20000 with a 10% discount and a 10% coupon: 2000 and 1800 off, final price 16200 |
| Usecases.AnonymousPaysDiscountedPrice | src/commerce/app/usecases.py:209 | an anonymous visitor gets no coupon and pays the price after the product discount |

## Left out

- The web layer (views, DTOs, URL routing, authentication) is not part of this model.
- The ORM models are not part of this model, and neither is `Decimal` versus `float`. Money is exact `real` arithmetic, so float rounding is not modelled.
- Primary-key collisions of `new_id` are not modelled. Two ids drawn in the same millisecond with the same random part would make Django's `save()` update the existing row. The model always appends.
- The retry decorator's `delay=0.2` and `backoff=2` are not modelled: the model has no clock, only the number of attempts.
- StockUpdate.UpdateProductStock uses one `Stamp` for every attempt, and StockUpdate.Run takes the id and creation time it gives (`FreshOf`). The source draws a new id and clock reading per attempt. The events differ only in `id` and `created_at`, and no property depends on those.
- Entities.CreateProduct: one `Stamp` gives the id and both timestamps. The source reads `datetime.now()` twice and `time.time()` once more inside `new_id`, so its `created_at`, `updated_at` and id time may differ by a few microseconds.
- Entities.NewProduct: pydantic wraps the validator's `ValueError` in a `ValidationError` whose text adds the field name and input. The model keeps the validator's message as a `ValueError`.
- Django's `IntegerField` is 32-bit, and `change`, `total_after_change` and `version` are stored in such fields (`src/commerce/adapter/persistence/django_orm/models.py:50-53`). The model uses unbounded integers, so a database overflow error on a value outside the 32-bit range is not modelled.
- Case folding for the name search and `str.isdigit` cover ASCII only. Unicode case mapping and Unicode digits are not modelled.
- `is_user_exist` with a non-numeric id raises a `ValueError` from the integer primary key. The model answers by set membership.
- `parse_datetime_with_default` (`src/common/utils.py:32-53`) is not part of this model. It only parses text into datetimes, which are integers here.
- `InvalidStockChange` comes from `commerce/domain/exceptions.py`, which is not part of this model. It is modelled as a `ClientException` subclass with no attributes of its own. This follows the test at `src/commerce/tests.py:151-168`, which expects status 400.
- Discount and coupon percentages are not validated by the source, and the model does not validate them either. The bounds lemmas (Services.DiscountWithinPrice, Usecases.CouponWithinRemainder, Usecases.ListingWithinPrice) assume 0..100.
- Django QuerySet behaviour is reduced to table order. Unordered queries, lazy evaluation and the generator's partial output before an exception are not modelled.
- `timezone.now()` is evaluated once per coupon in the source. The model uses one instant `now` for the whole call.
- The `max()` error text depends on the Python version. The model uses "max() arg is an empty sequence".
- Usecases.GetProducts returns the whole listing or an error. The source is a generator, so a caller may have consumed earlier entries before a failure. The model proves that the discount service cannot fail on the store's rows, so only the slice error remains, and it is raised before the first entry.

## Findings

| source | as written | input that shows it | evidently intended | confidence | as-written member | corrected member |
|---|---|---|---|---|---|---|
| src/commerce/app/usecases.py:210-222 | `valid_coupons` is a generator object, which is always truthy, so `max(valid_coupons, ...)` runs even when no coupon qualifies and raises `ValueError` | a signed-in user with id "1" and no active, currently valid coupon, viewing any existing product | no coupon discount (`max_discount_cupon = None`), price after the product discount only | high, not executed | Usecases.CouponPercentageAsWritten (shown by Usecases.SignedInUserWithoutCouponRaises) | Usecases.CouponPercentage (used by Usecases.GetProductWithCuponDiscount) |
