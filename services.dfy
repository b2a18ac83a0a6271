/** `CalcProductDiscountService`: the amount a product's own discounts take
    off its price. Only the single highest active percentage applies. */
module Services {
  import opened Wrappers
  import opened Exceptions
  import opened Entities

  const MismatchMessage: string := "Product and Discount do not match."

  /** `amount * (percentage / 100)`. */
  function PercentOf(amount: real, percentage: real): real {
    amount * (percentage / 100.0)
  }

  /** A percentage within 0..100 takes off at most the whole amount. */
  lemma PercentOfWithin(amount: real, percentage: real)
    requires 0.0 <= amount && 0.0 <= percentage <= 100.0
    ensures 0.0 <= PercentOf(amount, percentage) <= amount
  {
    assert 0.0 <= percentage / 100.0 <= 1.0;
  }

  /** The percentages of the active discounts, in order. */
  function ActivePercentages(ds: seq<Discount>): (r: seq<real>)
    ensures |r| <= |ds|
    ensures forall x :: x in r <==> exists d :: d in ds && d.active && d.percentage == x
  {
    if ds == [] then []
    else
      var rest := ActivePercentages(ds[..|ds| - 1]);
      var d := ds[|ds| - 1];
      assert ds == ds[..|ds| - 1] + [d];
      if d.active then rest + [d.percentage] else rest
  }

  /** `max` of a non-empty sequence. */
  function Max(xs: seq<real>): (m: real)
    requires xs != []
    ensures m in xs
    ensures forall x :: x in xs ==> x <= m
  {
    if |xs| == 1 then xs[0]
    else
      var m := Max(xs[1..]);
      assert xs == [xs[0]] + xs[1..];
      if xs[0] > m then xs[0] else m
  }

  /** Some discount in the list belongs to another product. */
  predicate Mismatched(product: Product, ds: seq<Discount>) {
    exists d :: d in ds && d.productId != product.id
  }

  predicate HasActive(ds: seq<Discount>) {
    exists d :: d in ds && d.active
  }

  /** `m` is the largest percentage among the active discounts. */
  predicate IsMaxActive(ds: seq<Discount>, m: real) {
    && (exists d :: d in ds && d.active && d.percentage == m)
    && (forall d :: d in ds && d.active ==> d.percentage <= m)
  }

  /** `max(discount.percentage for discount in applicable_discounts)`. */
  function MaxActivePercentage(ds: seq<Discount>): (m: real)
    requires HasActive(ds)
    ensures IsMaxActive(ds, m)
  {
    var applicable := ActivePercentages(ds);
    var d :| d in ds && d.active;
    assert d.percentage in applicable;
    assert forall d :: d in ds && d.active ==> d.percentage in applicable;
    Max(applicable)
  }

  /** Two maximal active percentages are the same number. */
  lemma MaxActiveUnique(ds1: seq<Discount>, ds2: seq<Discount>, m1: real, m2: real)
    requires forall d :: d in ds1 <==> d in ds2
    requires IsMaxActive(ds1, m1) && IsMaxActive(ds2, m2)
    ensures m1 == m2
  {
    var d1 :| d1 in ds1 && d1.active && d1.percentage == m1;
    var d2 :| d2 in ds2 && d2.active && d2.percentage == m2;
    assert d1 in ds2 && d2 in ds1;
  }

  /** The service: a `ServiceException` when any discount, active or not,
      belongs to another product; 0 when none is active; otherwise the price
      times the largest active percentage. */
  function CalcProductDiscount(product: Product, discounts: seq<Discount>): (r: Result<real, Error>)
    ensures r.Err? <==> Mismatched(product, discounts)
    ensures r.Err? ==> r.error == Milly(ServiceException, Some(MismatchMessage))
    ensures r.Ok? && !HasActive(discounts) ==> r.value == 0.0
    ensures r.Ok? && HasActive(discounts) ==>
      exists m :: IsMaxActive(discounts, m) && r.value == PercentOf(product.price, m)
  {
    if Mismatched(product, discounts) then
      Err(Milly(ServiceException, Some(MismatchMessage)))
    else
      var applicable := ActivePercentages(discounts);
      if applicable == [] then
        assert forall d :: d in discounts && d.active ==> d.percentage in applicable;
        Ok(0.0)
      else
        assert HasActive(discounts) by {
          assert applicable[0] in applicable;
        }
        var m := MaxActivePercentage(discounts);
        Ok(PercentOf(product.price, m))
  }

  /** The amount when some discount is active: price times the maximum. */
  lemma AmountIsMaxPercentage(product: Product, discounts: seq<Discount>, m: real)
    requires CalcProductDiscount(product, discounts).Ok? && IsMaxActive(discounts, m)
    ensures CalcProductDiscount(product, discounts).value == PercentOf(product.price, m)
  {
    var m' :| IsMaxActive(discounts, m') && CalcProductDiscount(product, discounts).value == PercentOf(product.price, m');
    MaxActiveUnique(discounts, discounts, m, m');
  }

  /** The discount is determined by the set of discounts alone: reordering
      or repeating them changes nothing. */
  lemma SameDiscountsSameAmount(product: Product, ds1: seq<Discount>, ds2: seq<Discount>)
    requires forall d :: d in ds1 <==> d in ds2
    ensures CalcProductDiscount(product, ds1) == CalcProductDiscount(product, ds2)
  {
    var r1, r2 := CalcProductDiscount(product, ds1), CalcProductDiscount(product, ds2);
    assert Mismatched(product, ds1) <==> Mismatched(product, ds2);
    assert HasActive(ds1) <==> HasActive(ds2);
    if r1.Ok? && HasActive(ds1) {
      var m1 :| IsMaxActive(ds1, m1) && r1.value == PercentOf(product.price, m1);
      var m2 :| IsMaxActive(ds2, m2) && r2.value == PercentOf(product.price, m2);
      MaxActiveUnique(ds1, ds2, m1, m2);
    }
  }

  /** A permutation of the discount list gives the same amount. */
  lemma PermutationInvariant(product: Product, ds1: seq<Discount>, ds2: seq<Discount>)
    requires multiset(ds1) == multiset(ds2)
    ensures CalcProductDiscount(product, ds1) == CalcProductDiscount(product, ds2)
  {
    forall d ensures d in ds1 <==> d in ds2 {
      assert d in ds1 <==> d in multiset(ds1);
      assert d in ds2 <==> d in multiset(ds2);
    }
    SameDiscountsSameAmount(product, ds1, ds2);
  }

  /** Adding an inactive discount of the same product changes nothing. */
  lemma InactiveDiscountIrrelevant(product: Product, ds: seq<Discount>, extra: Discount)
    requires !extra.active && extra.productId == product.id
    ensures CalcProductDiscount(product, ds + [extra]) == CalcProductDiscount(product, ds)
  {
    var r1, r2 := CalcProductDiscount(product, ds + [extra]), CalcProductDiscount(product, ds);
    assert Mismatched(product, ds + [extra]) <==> Mismatched(product, ds);
    assert HasActive(ds + [extra]) <==> HasActive(ds);
    if r1.Ok? && HasActive(ds + [extra]) {
      var m1 :| IsMaxActive(ds + [extra], m1) && r1.value == PercentOf(product.price, m1);
      var d1 :| d1 in ds + [extra] && d1.active && d1.percentage == m1;
      assert d1 in ds;
      var m2 :| IsMaxActive(ds, m2) && r2.value == PercentOf(product.price, m2);
      var d2 :| d2 in ds && d2.active && d2.percentage == m2;
      assert d2 in ds + [extra];
    }
  }

  /** Discounts do not stack: with percentages within 0..100 the amount is
      never more than the price, and never negative. */
  lemma DiscountWithinPrice(product: Product, discounts: seq<Discount>)
    requires product.price > 0.0
    requires forall d :: d in discounts ==> 0.0 <= d.percentage <= 100.0
    requires CalcProductDiscount(product, discounts).Ok?
    ensures 0.0 <= CalcProductDiscount(product, discounts).value <= product.price
  {
    var r := CalcProductDiscount(product, discounts);
    if HasActive(discounts) {
      var m :| IsMaxActive(discounts, m) && r.value == PercentOf(product.price, m);
      var b :| b in discounts && b.active && b.percentage == m;
      PercentOfWithin(product.price, m);
    }
  }

  /** A 10000 product with one active 10% discount: 1000 off. */
  lemma TenPercentExample(id: string, stamp: Stamp)
    ensures var p := Product(id, "", "", 10000.0, 0, 0);
      var d := CreateDiscount(id, 10.0, 0, 0, stamp);
      CalcProductDiscount(p, [d]) == Ok(1000.0)
  {
    var p := Product(id, "", "", 10000.0, 0, 0);
    var d := CreateDiscount(id, 10.0, 0, 0, stamp);
    assert ActivePercentages([d]) == [10.0] by {
      assert [d][..0] == [];
    }
    AmountIsMaxPercentage(p, [d], 10.0);
  }
}
