/** The application's use cases over the store: creating a product with its
    opening stock, replacing a product's discount, issuing a coupon, the
    product listing, and the product detail priced for a user. The stock
    update lives in module StockUpdate. */
module Usecases {
  import opened Wrappers
  import opened Exceptions
  import opened Entities
  import opened Services
  import opened Persistence
  import Utils

  const PriceRequiredMessage: string := "price must be greater than 0."
  const StockRequiredMessage: string := "stock must be non-negative."
  const PeriodMessage: string := "cupon valid period is invalid."
  const UserNotFoundMessage: string := "user not found."

  // ---------------------------------------------------------------------
  // CreateProductUsecase

  /** A new product with its opening stock event (version 1, the whole
      stock as the change) keeps the store invariant, and its history was
      empty before. */
  lemma NewProductKeepsInvariant(products: seq<Product>, ledger: Ledger, discounts: seq<Discount>, cupons: seq<Coupon>, users: set<string>, product: Product, event: StockEvent)
    requires StoreInvariant(products, ledger, discounts, cupons, users)
    requires ValidPrice(product.price)
    requires event.productId == product.id && event.version == 1
    requires event.change == event.totalAfterChange >= 0
    requires EventViolation(ledger, products + [product], event).None?
    ensures EventsOf(ledger, product.id) == []
    ensures StoreInvariant(products + [product], Append(ledger, event), discounts, cupons, users)
  {
    var grown := products + [product];
    if product.id in ledger {
      TakenVersions(EventsOf(ledger, product.id), product.id, 1);
    }
    forall pid | pid in ledger
      ensures HasProduct(grown, pid)
    {
      HasProductGrows(products, product, pid);
    }
    forall d | d in discounts
      ensures HasProduct(grown, d.productId)
    {
      HasProductGrows(products, product, d.productId);
    }
    assert StoreInvariant(grown, ledger, discounts, cupons, users);
    assert HasProduct(grown, product.id) by {
      assert product in grown;
    }
    assert EventsOf(ledger, product.id) + [event] == [event];
    AppendKeepsInvariant(grown, ledger, discounts, cupons, users, event);
  }

  /** `CreateProductUsecase.execute`: validate the price, then the stock;
      store the product and an opening event holding the whole stock. The
      two ids are drawn separately. */
  method CreateProduct(store: Store, name: string, description: string, price: real, stock: int, productStamp: Stamp, eventStamp: Stamp)
    returns (r: Result<(Product, StockEvent), Error>)
    modifies store
    ensures price <= 0.0 ==> r == Err(Milly(InvalidParameter, Some(PriceRequiredMessage)))
    ensures price > 0.0 && stock < 0 ==> r == Err(Milly(InvalidParameter, Some(StockRequiredMessage)))
    ensures r.Err? ==> unchanged(store)
    ensures r.Ok? ==>
      && r.value.0 == Product(IdOf(productStamp), name, description, price, productStamp.epochMs, productStamp.epochMs)
      && r.value.1 == CreateStockEvent(IdOf(productStamp), stock, stock, 1, eventStamp)
      && store.products == old(store.products) + [r.value.0]
      && store.ledger == Append(old(store.ledger), r.value.1)
      && store.discounts == old(store.discounts) && store.cupons == old(store.cupons) && store.users == old(store.users)
    ensures old(store.Consistent()) && price > 0.0 && stock >= 0 ==>
      (r.Ok? <==> EventsOf(old(store.ledger), IdOf(productStamp)) == [])
    ensures old(store.Consistent()) && r.Ok? ==> StockCount(store.ledger, r.value.0.id) == stock
    ensures old(store.Consistent()) ==> store.Consistent()
  {
    if price <= 0.0 {
      return Err(Milly(InvalidParameter, Some(PriceRequiredMessage)));
    }
    if stock < 0 {
      return Err(Milly(InvalidParameter, Some(StockRequiredMessage)));
    }
    var product := Entities.CreateProduct(name, description, price, productStamp).value;
    var event := CreateStockEvent(product.id, stock, stock, 1, eventStamp);
    ghost var before := EventsOf(store.ledger, product.id);
    if store.Consistent() {
      if product.id in store.ledger {
        TakenVersions(before, product.id, 1);
      }
      if EventViolation(store.ledger, store.products + [product], event).None? {
        NewProductKeepsInvariant(store.products, store.ledger, store.discounts, store.cupons, store.users, product, event);
      }
    }
    assert before == [] ==> EventViolation(store.ledger, store.products + [product], event).None? by {
      assert product in store.products + [product];
    }
    r := store.CreateProduct(product, event);
    if r.Ok? {
      assert EventsOf(store.ledger, product.id) == before + [event];
      if before == [] {
        assert LastEvent([event]) == Some(event) by {
          assert [event][..0] == [];
        }
      }
    }
  }

  // ---------------------------------------------------------------------
  // UpsertProductDiscountUsecase

  /** Replacing a product's discount keeps the store invariant. */
  lemma UpsertKeepsInvariant(products: seq<Product>, ledger: Ledger, discounts: seq<Discount>, cupons: seq<Coupon>, users: set<string>, d: Discount)
    requires StoreInvariant(products, ledger, discounts, cupons, users)
    requires HasProduct(products, d.productId)
    ensures StoreInvariant(products, ledger, Deactivated(discounts, d.productId) + [d], cupons, users)
  {
    var after := Deactivated(discounts, d.productId) + [d];
    forall x | x in after
      ensures HasProduct(products, x.productId)
    {
      var i :| 0 <= i < |after| && after[i] == x;
      if i < |discounts| {
        assert discounts[i] in discounts;
      }
    }
    UpsertKeepsOneActivePerProduct(discounts, d);
  }

  /** `UpsertProductDiscountUsecase.execute`: the new discount is stored
      active and every other discount of the product is deactivated, so it
      is the product's only active discount. */
  method UpsertProductDiscount(store: Store, productId: string, percentage: real, startDate: int, endDate: int, stamp: Stamp)
    returns (r: Result<Discount, Error>)
    modifies store
    ensures r.Err? <==> !HasProduct(old(store.products), productId)
    ensures r.Err? ==> r.error == IntegrityError(ForeignKeyViolation) && store.discounts == old(store.discounts)
    ensures r.Ok? ==> r.value == CreateDiscount(productId, percentage, startDate, endDate, stamp) && r.value.active
    ensures r.Ok? ==> store.discounts == Deactivated(old(store.discounts), productId) + [r.value]
    ensures r.Ok? ==> ActiveDiscountsOf(store.discounts, productId) == [r.value]
    ensures store.products == old(store.products) && store.ledger == old(store.ledger)
    ensures store.cupons == old(store.cupons) && store.users == old(store.users)
    ensures old(store.Consistent()) ==> store.Consistent()
  {
    var discount := CreateDiscount(productId, percentage, startDate, endDate, stamp);
    if store.Consistent() && HasProduct(store.products, productId) {
      UpsertKeepsInvariant(store.products, store.ledger, store.discounts, store.cupons, store.users, discount);
    }
    UpsertLeavesOneActive(store.discounts, discount);
    r := store.CreateProductDiscount(discount, true);
  }

  // ---------------------------------------------------------------------
  // CreateCuponUsecase

  /** A coupon of an existing user under a fresh code keeps the store
      invariant. */
  lemma NewCouponKeepsInvariant(products: seq<Product>, ledger: Ledger, discounts: seq<Discount>, cupons: seq<Coupon>, users: set<string>, c: Coupon)
    requires StoreInvariant(products, ledger, discounts, cupons, users)
    requires c.userId in users
    requires forall x :: x in cupons ==> x.code != c.code
    ensures StoreInvariant(products, ledger, discounts, cupons + [c], users)
  {
    var after := cupons + [c];
    forall i, j | 0 <= i < j < |after|
      ensures after[i].code != after[j].code
    {
      if j == |cupons| {
        assert cupons[i] in cupons;
      }
    }
  }

  /** `CreateCuponUsecase.execute`: the period is checked first, then the
      user; the coupon is stored active. The user check comes first, so a
      foreign-key failure never reaches the caller; a taken code does. */
  method CreateCupon(store: Store, userId: string, code: string, validFrom: int, discountPercentage: real, validTo: int, stamp: Stamp)
    returns (r: Result<Coupon, Error>)
    modifies store
    ensures validFrom >= validTo ==> r == Err(Milly(InvalidParameter, Some(PeriodMessage)))
    ensures validFrom < validTo && userId !in old(store.users) ==> r == Err(Milly(InvalidParameter, Some(UserNotFoundMessage)))
    ensures r.Ok? <==> validFrom < validTo && userId in old(store.users) && forall c :: c in old(store.cupons) ==> c.code != code
    ensures r.Err? ==> store.cupons == old(store.cupons) && r.error != IntegrityError(ForeignKeyViolation)
    ensures r.Ok? ==> r.value == CreateCoupon(userId, code, discountPercentage, validFrom, validTo, stamp) && r.value.active
    ensures r.Ok? ==> store.cupons == old(store.cupons) + [r.value]
    ensures store.products == old(store.products) && store.ledger == old(store.ledger)
    ensures store.discounts == old(store.discounts) && store.users == old(store.users)
    ensures old(store.Consistent()) ==> store.Consistent()
  {
    if validFrom >= validTo {
      return Err(Milly(InvalidParameter, Some(PeriodMessage)));
    }
    if !store.IsUserExist(userId) {
      return Err(Milly(InvalidParameter, Some(UserNotFoundMessage)));
    }
    var cupon := CreateCoupon(userId, code, discountPercentage, validFrom, validTo, stamp);
    if store.Consistent() && forall c :: c in store.cupons ==> c.code != code {
      NewCouponKeepsInvariant(store.products, store.ledger, store.discounts, store.cupons, store.users, cupon);
    }
    r := store.CreateCupon(cupon);
  }

  // ---------------------------------------------------------------------
  // GetProductsUsecase

  /** One entry of the listing: the product, its own discount, the price
      after it, and the current stock. */
  datatype Listing = Listing(product: Product, productDiscountAmount: real, totalAmount: real, stockCount: int)

  /** The rows the store hands out never carry another product's discount,
      so the discount service cannot refuse them. */
  lemma RowsMatchTheirProduct(discounts: seq<Discount>, p: Product)
    ensures !Mismatched(p, ActiveDiscountsOf(discounts, p.id))
    ensures CalcProductDiscount(p, ActiveDiscountsOf(discounts, p.id)).Ok?
  {
  }

  /** `l` lists `p`: the discount the service computes from the product's
      active discounts, the price after it, and the current stock. */
  predicate Describes(l: Listing, p: Product, discounts: seq<Discount>, ledger: Ledger) {
    && l.product == p
    && CalcProductDiscount(p, ActiveDiscountsOf(discounts, p.id)) == Ok(l.productDiscountAmount)
    && l.totalAmount == p.price - l.productDiscountAmount
    && l.stockCount == StockCount(ledger, p.id)
  }

  /** The DTO the use case builds from one row. */
  function ListingOf(row: ProductRow): (l: Listing)
    requires !Mismatched(row.product, row.discounts)
    ensures l.product == row.product && l.stockCount == row.stockCount
    ensures CalcProductDiscount(row.product, row.discounts) == Ok(l.productDiscountAmount)
    ensures l.totalAmount + l.productDiscountAmount == row.product.price
    ensures ValidPrice(row.product.price) && (forall d :: d in row.discounts ==> 0.0 <= d.percentage <= 100.0) ==>
      0.0 <= l.totalAmount <= row.product.price
  {
    var amount := CalcProductDiscount(row.product, row.discounts).value;
    assert ValidPrice(row.product.price) && (forall d :: d in row.discounts ==> 0.0 <= d.percentage <= 100.0) ==>
      0.0 <= row.product.price - amount <= row.product.price by {
      if ValidPrice(row.product.price) && (forall d :: d in row.discounts ==> 0.0 <= d.percentage <= 100.0) {
        DiscountWithinPrice(row.product, row.discounts);
      }
    }
    Listing(row.product, amount, row.product.price - amount, row.stockCount)
  }

  /** The listing of a row the store hands out describes its product. */
  lemma RowListingDescribes(row: ProductRow, p: Product, discounts: seq<Discount>, ledger: Ledger)
    requires row == ProductRow(p, ActiveDiscountsOf(discounts, p.id), StockCount(ledger, p.id))
    ensures !Mismatched(row.product, row.discounts)
    ensures Describes(ListingOf(row), p, discounts, ledger)
  {
    RowsMatchTheirProduct(discounts, p);
  }

  /** The loop of `GetProductsUsecase.execute`: one listing per row, in
      order. */
  method ListingsOf(rows: seq<ProductRow>) returns (listings: seq<Listing>)
    requires forall k :: 0 <= k < |rows| ==> !Mismatched(rows[k].product, rows[k].discounts)
    ensures |listings| == |rows|
    ensures forall k :: 0 <= k < |rows| ==> listings[k] == ListingOf(rows[k])
  {
    listings := [];
    var i := 0;
    while i < |rows|
      invariant 0 <= i <= |rows|
      invariant |listings| == i
      invariant forall k :: 0 <= k < i ==> listings[k] == ListingOf(rows[k])
    {
      listings := listings + [ListingOf(rows[i])];
      i := i + 1;
    }
  }

  /** `GetProductsUsecase.execute`: one listing per row of the requested
      page, in order; a negative page bound is the only failure. */
  method GetProducts(store: Store, productName: Option<string>, pageSize: int := 30, pageIndex: int := 1)
    returns (r: Result<seq<Listing>, Error>)
    ensures r.Err? <==> PageOf(FilterByName(store.products, productName), pageSize, pageIndex).Err?
    ensures r.Err? ==> r.error == ValueError(NegativeIndexMessage)
    ensures r.Ok? ==>
      var page := PageOf(FilterByName(store.products, productName), pageSize, pageIndex).value;
      && |r.value| == |page|
      && forall i :: 0 <= i < |page| ==> Describes(r.value[i], page[i], store.discounts, store.ledger)
  {
    var rows := store.GetProducts(productName, pageSize, pageIndex);
    if rows.Err? {
      return Err(rows.error);
    }
    ghost var page := PageOf(FilterByName(store.products, productName), pageSize, pageIndex).value;
    forall k | 0 <= k < |rows.value|
      ensures !Mismatched(rows.value[k].product, rows.value[k].discounts)
      ensures Describes(ListingOf(rows.value[k]), page[k], store.discounts, store.ledger)
    {
      RowListingDescribes(rows.value[k], page[k], store.discounts, store.ledger);
    }
    var listings := ListingsOf(rows.value);
    r := Ok(listings);
  }

  /** A listed price lies between zero and the product's price when the
      discount percentages are within 0..100. */
  lemma ListingWithinPrice(discounts: seq<Discount>, p: Product)
    requires ValidPrice(p.price)
    requires forall d :: d in discounts ==> 0.0 <= d.percentage <= 100.0
    ensures var amount := CalcProductDiscount(p, ActiveDiscountsOf(discounts, p.id)).value;
      0.0 <= p.price - amount <= p.price
  {
    DiscountWithinPrice(p, ActiveDiscountsOf(discounts, p.id));
  }

  // ---------------------------------------------------------------------
  // GetProductWithCuponDiscountUsecase

  /** Coupons apply only to a signed-in user, whose id is all digits. */
  predicate CouponEligible(userId: string) {
    userId != "anonymous" && Utils.IsDigits(userId)
  }

  /** A coupon is usable now: active and within its validity period. */
  predicate Usable(c: Coupon, now: int) {
    c.active && c.validFrom <= now <= c.validTo
  }

  /** The largest percentage among the usable coupons; `None` without one. */
  function BestCouponPercentage(cs: seq<Coupon>, now: int): (r: Option<real>)
    ensures r.None? <==> forall c :: c in cs ==> !Usable(c, now)
    ensures r.Some? ==> exists c :: c in cs && Usable(c, now) && c.discountPercentage == r.value
    ensures r.Some? ==> forall c :: c in cs && Usable(c, now) ==> c.discountPercentage <= r.value
  {
    if cs == [] then None
    else
      var rest := BestCouponPercentage(cs[..|cs| - 1], now);
      var c := cs[|cs| - 1];
      assert cs == cs[..|cs| - 1] + [c];
      if !Usable(c, now) then rest
      else if rest.Some? && rest.value >= c.discountPercentage then rest
      else Some(c.discountPercentage)
  }

  /** The coupon percentage the use case applies. */
  function CouponPercentage(userId: string, cupons: seq<Coupon>, now: int): (r: Option<real>)
    ensures !CouponEligible(userId) ==> r.None?
    ensures CouponEligible(userId) ==> (r.None? <==> forall c :: c in cupons && c.userId == userId ==> !Usable(c, now))
    ensures r.Some? ==> exists c :: c in cupons && c.userId == userId && Usable(c, now) && c.discountPercentage == r.value
    ensures r.Some? ==> forall c :: c in cupons && c.userId == userId && Usable(c, now) ==> c.discountPercentage <= r.value
  {
    if CouponEligible(userId) then BestCouponPercentage(UserActiveCoupons(cupons, userId), now) else None
  }

  const EmptyMaxMessage: string := "max() arg is an empty sequence"

  /** The coupon selection as written: the generator object is always
      truthy, so `max` runs even when no coupon is usable, and raises. */
  function CouponPercentageAsWritten(userId: string, cupons: seq<Coupon>, now: int): (r: Result<Option<real>, Error>)
    ensures r.Err? <==> CouponEligible(userId) && forall c :: c in cupons && c.userId == userId ==> !Usable(c, now)
    ensures r.Err? ==> r.error == ValueError(EmptyMaxMessage)
    ensures r.Ok? && CouponEligible(userId) ==> r.value.Some?
  {
    if !CouponEligible(userId) then Ok(None)
    else
      var best := BestCouponPercentage(UserActiveCoupons(cupons, userId), now);
      if best.None? then Err(ValueError(EmptyMaxMessage)) else Ok(best)
  }

  /** The selection as written agrees with the corrected one wherever it
      returns, and fails exactly where the corrected one finds no coupon
      for a signed-in user. */
  lemma AsWrittenFailsOnlyWithoutCoupon(userId: string, cupons: seq<Coupon>, now: int)
    ensures CouponPercentageAsWritten(userId, cupons, now).Ok? ==>
      CouponPercentageAsWritten(userId, cupons, now).value == CouponPercentage(userId, cupons, now)
    ensures CouponPercentageAsWritten(userId, cupons, now).Err? <==>
      CouponEligible(userId) && CouponPercentage(userId, cupons, now).None?
  {
  }

  /** The failing input: user "1" holding no coupon. The corrected selection
      applies no coupon; the selection as written raises. */
  lemma SignedInUserWithoutCouponRaises(now: int)
    ensures CouponPercentageAsWritten("1", [], now) == Err(ValueError(EmptyMaxMessage))
    ensures CouponPercentage("1", [], now) == None
  {
    assert CouponEligible("1");
  }

  /** The coupon's percentage applies to the price left after the product
      discount; without a coupon nothing more comes off. */
  function PriceWithCoupon(product: Product, productDiscountAmount: real, couponPercentage: Option<real>): (info: ProductWithDiscountInfo)
    ensures info.product == product && info.productDiscountAmount == productDiscountAmount
    ensures info.finalPrice == product.price - productDiscountAmount - info.cuponDiscountAmount
    ensures couponPercentage.None? ==> info.cuponDiscountAmount == 0.0 && info.finalPrice == product.price - productDiscountAmount
    ensures couponPercentage.Some? ==>
      info.cuponDiscountAmount == PercentOf(product.price - productDiscountAmount, couponPercentage.value)
  {
    var rate := if couponPercentage.Some? then couponPercentage.value else 0.0;
    var cupon := PercentOf(product.price - productDiscountAmount, rate);
    ProductWithDiscountInfo(product, productDiscountAmount, cupon, product.price - productDiscountAmount - cupon)
  }

  /** The discounts apply one after the other: with percentages within
      0..100 the coupon never takes more than what the product discount
      left, and the final price lies between zero and that. */
  lemma CouponWithinRemainder(product: Product, productDiscountAmount: real, couponPercentage: Option<real>)
    requires 0.0 <= productDiscountAmount <= product.price
    requires couponPercentage.Some? ==> 0.0 <= couponPercentage.value <= 100.0
    ensures var info := PriceWithCoupon(product, productDiscountAmount, couponPercentage);
      && 0.0 <= info.cuponDiscountAmount <= product.price - productDiscountAmount
      && 0.0 <= info.finalPrice <= product.price - productDiscountAmount
  {
    var rate := if couponPercentage.Some? then couponPercentage.value else 0.0;
    PercentOfWithin(product.price - productDiscountAmount, rate);
  }

  /** The two discounts compound: a product discount of `d` percent and
      then a coupon of `c` percent leave the price times (1 - d/100) times
      (1 - c/100). */
  lemma SuccessiveDiscounts(product: Product, d: real, c: real)
    ensures PriceWithCoupon(product, PercentOf(product.price, d), Some(c)).finalPrice
      == product.price * (1.0 - d / 100.0) * (1.0 - c / 100.0)
  {
    var price, x, y := product.price, d / 100.0, c / 100.0;
    var rest := price - PercentOf(price, d);
    assert rest == price * (1.0 - x);
    var info := PriceWithCoupon(product, PercentOf(price, d), Some(c));
    assert info.finalPrice == rest - rest * y;
    assert rest - rest * y == rest * (1.0 - y);
  }

  /** `GetProductWithCuponDiscountUsecase.execute` with the coupon step
      corrected: the product and its own discount, then, for a signed-in
      user, the best usable coupon on what is left, and no coupon when the
      user holds none (`CouponPercentage`). As written, a signed-in user
      without a usable coupon makes the use case raise instead; that
      behaviour is `CouponPercentageAsWritten`. Here an unknown product is
      the only failure. */
  method GetProductWithCuponDiscount(store: Store, userId: string, productId: string, now: int)
    returns (r: Result<ProductWithDiscountInfo, Error>)
    ensures r.Err? <==> !HasProduct(store.products, productId)
    ensures r.Err? ==> r.error == DoesNotExist
    ensures r.Ok? ==>
      && r.value.product in store.products && r.value.product.id == productId
      && CalcProductDiscount(r.value.product, ActiveDiscountsOf(store.discounts, productId)) == Ok(r.value.productDiscountAmount)
      && r.value == PriceWithCoupon(r.value.product, r.value.productDiscountAmount, CouponPercentage(userId, store.cupons, now))
  {
    var found := store.GetProduct(productId);
    if found.Err? {
      return Err(found.error);
    }
    var (product, discounts) := found.value;
    RowsMatchTheirProduct(store.discounts, product);
    var amount := CalcProductDiscount(product, discounts).value;
    var best: Option<real> := None;
    if userId != "anonymous" && Utils.IsDigits(userId) {
      var cs := store.GetCupons(userId);
      best := BestCouponPercentage(cs, now);
    }
    r := Ok(PriceWithCoupon(product, amount, best));
  }

  /** The detail-view case: a 20000 product with a 10% discount (2000 off)
      and a usable 10% coupon of the signed-in user (1800 off the remaining
      18000) costs 16200. */
  lemma DetailPriceExample(productId: string, s1: Stamp, s2: Stamp, now: int)
    ensures var p := Product(productId, "", "", 20000.0, 0, 0);
      var d := CreateDiscount(productId, 10.0, 0, 0, s1);
      var c := CreateCoupon("7", "C", 10.0, now, now, s2);
      && CalcProductDiscount(p, [d]) == Ok(2000.0)
      && CouponPercentage("7", [c], now) == Some(10.0)
      && PriceWithCoupon(p, 2000.0, Some(10.0)) == ProductWithDiscountInfo(p, 2000.0, 1800.0, 16200.0)
  {
    var p := Product(productId, "", "", 20000.0, 0, 0);
    var d := CreateDiscount(productId, 10.0, 0, 0, s1);
    assert ActivePercentages([d]) == [10.0] by {
      assert [d][..0] == [];
    }
    AmountIsMaxPercentage(p, [d], 10.0);
    var c := CreateCoupon("7", "C", 10.0, now, now, s2);
    assert CouponEligible("7");
    assert UserActiveCoupons([c], "7") == [c] by {
      assert [c][..0] == [];
    }
    assert [c][..0] == [];
  }

  /** An anonymous visitor pays the price after the product discount. */
  lemma AnonymousPaysDiscountedPrice(product: Product, productDiscountAmount: real, cupons: seq<Coupon>, now: int)
    ensures CouponPercentage("anonymous", cupons, now) == None
    ensures PriceWithCoupon(product, productDiscountAmount, CouponPercentage("anonymous", cupons, now)).finalPrice
      == product.price - productDiscountAmount
  {
  }
}
