/** The domain records: products, the stock-event ledger entries, product
    discounts, coupons, and the priced product a detail view returns. Every
    `create` draws a fresh id and reads the clock; both arrive here as a
    `Stamp`. Datetimes are epoch milliseconds. */
module Entities {
  import opened Wrappers
  import opened Exceptions
  import Utils

  /** A clock reading and a random draw below 10_000, as `new_id` takes them. */
  datatype Stamp = Stamp(epochMs: nat, rand: nat)

  function IdOf(stamp: Stamp): string {
    Utils.NewId(stamp.epochMs, stamp.rand)
  }

  datatype Product = Product(
    id: string,
    name: string,
    description: string,
    price: real,
    createdAt: int,
    updatedAt: int)

  datatype StockEvent = StockEvent(
    id: string,
    productId: string,
    change: int,
    totalAfterChange: int,
    createdAt: int,
    version: int)

  datatype Discount = Discount(
    id: string,
    productId: string,
    percentage: real,
    startDate: int,
    endDate: int,
    active: bool)

  datatype Coupon = Coupon(
    id: string,
    userId: string,
    code: string,
    discountPercentage: real,
    validFrom: int,
    validTo: int,
    active: bool)

  /** A product with the two discounts applied in turn; derived, never stored. */
  datatype ProductWithDiscountInfo = ProductWithDiscountInfo(
    product: Product,
    productDiscountAmount: real,
    cuponDiscountAmount: real,
    finalPrice: real)

  const PriceMessage: string := "가격은 0보다 커야 합니다"

  /** The price validator: a product's price is positive. */
  predicate ValidPrice(price: real) {
    price > 0.0
  }

  /** Building a ProductEntity runs the price validator; it raises a
      ValueError for a price that is not positive. */
  function NewProduct(id: string, name: string, description: string, price: real, createdAt: int, updatedAt: int): (r: Result<Product, Error>)
    ensures r.Ok? <==> ValidPrice(price)
    ensures r.Ok? ==> r.value == Product(id, name, description, price, createdAt, updatedAt)
    ensures r.Err? ==> r.error == ValueError(PriceMessage)
  {
    if ValidPrice(price) then Ok(Product(id, name, description, price, createdAt, updatedAt))
    else Err(ValueError(PriceMessage))
  }

  /** `ProductEntity.create`: a fresh id, both timestamps from the clock,
      and the same validation as every other construction. */
  function CreateProduct(name: string, description: string, price: real, stamp: Stamp): (r: Result<Product, Error>)
    ensures r.Ok? <==> price > 0.0
    ensures r.Ok? ==> r.value == Product(IdOf(stamp), name, description, price, stamp.epochMs, stamp.epochMs)
    ensures r.Err? ==> r.error == ValueError(PriceMessage)
  {
    NewProduct(IdOf(stamp), name, description, price, stamp.epochMs, stamp.epochMs)
  }

  /** `ProductStockEventEntity.create`: the fields as given, a fresh id. */
  function CreateStockEvent(productId: string, change: int, totalAfterChange: int, version: int, stamp: Stamp): (e: StockEvent)
    ensures e.productId == productId && e.change == change
    ensures e.totalAfterChange == totalAfterChange && e.version == version
    ensures e.id == IdOf(stamp) && e.createdAt == stamp.epochMs
  {
    StockEvent(IdOf(stamp), productId, change, totalAfterChange, stamp.epochMs, version)
  }

  /** `ProductDiscountEntity.create`: active unless told otherwise. */
  function CreateDiscount(productId: string, percentage: real, startDate: int, endDate: int, stamp: Stamp, active: bool := true): (d: Discount)
    ensures d.productId == productId && d.percentage == percentage
    ensures d.startDate == startDate && d.endDate == endDate
    ensures d.active == active && d.id == IdOf(stamp)
  {
    Discount(IdOf(stamp), productId, percentage, startDate, endDate, active)
  }

  /** `CuponEntity.create`: active unless told otherwise. */
  function CreateCoupon(userId: string, code: string, discountPercentage: real, validFrom: int, validTo: int, stamp: Stamp, active: bool := true): (c: Coupon)
    ensures c.userId == userId && c.code == code && c.discountPercentage == discountPercentage
    ensures c.validFrom == validFrom && c.validTo == validTo
    ensures c.active == active && c.id == IdOf(stamp)
  {
    Coupon(IdOf(stamp), userId, code, discountPercentage, validFrom, validTo, active)
  }

  /** Created with the defaults, discounts and coupons come out active. */
  lemma CreatedActiveByDefault(productId: string, userId: string, code: string, percentage: real, from: int, to: int, stamp: Stamp)
    ensures CreateDiscount(productId, percentage, from, to, stamp).active
    ensures CreateCoupon(userId, code, percentage, from, to, stamp).active
  {
  }

  /** Within the clock's 13-digit range every id is 18 characters long. */
  lemma IdLength(stamp: Stamp)
    requires stamp.epochMs < Utils.Pow10(13) && stamp.rand < Utils.Pow10(4)
    ensures |IdOf(stamp)| == 18
  {
    Utils.NewIdFormat(stamp.epochMs, stamp.rand);
  }
}
