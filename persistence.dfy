/** The persistence adapter as an in-memory store: the products table, the
    stock-event ledger, product discounts, coupons and the set of user ids.
    Its methods change the tables in place with the same outcomes the ORM
    adapter has, including the typed integrity failures of the database
    (the unique key on (product, version), the unique coupon code, and the
    foreign keys to products and users). */
module Persistence {
  import opened Wrappers
  import opened Exceptions
  import opened Entities

  /** The stock events of each product, in insertion order. */
  type Ledger = map<string, seq<StockEvent>>

  /** One listing row: a product, its active discounts, its current stock. */
  datatype ProductRow = ProductRow(product: Product, discounts: seq<Discount>, stockCount: int)

  const NegativeIndexMessage: string := "Negative indexing is not supported."

  function EventsOf(ledger: Ledger, productId: string): seq<StockEvent> {
    if productId in ledger then ledger[productId] else []
  }

  /** The ledger with one more event at the end of its product's history. */
  function Append(ledger: Ledger, e: StockEvent): (r: Ledger)
    ensures EventsOf(r, e.productId) == EventsOf(ledger, e.productId) + [e]
    ensures forall p :: p != e.productId ==> EventsOf(r, p) == EventsOf(ledger, p)
    ensures forall p :: p in r <==> p in ledger || p == e.productId
  {
    ledger[e.productId := EventsOf(ledger, e.productId) + [e]]
  }

  /** `get_last_stock_event`: the event with the highest version, or `None`
      for a product without events. */
  function LastEvent(events: seq<StockEvent>): (r: Option<StockEvent>)
    ensures r.None? <==> events == []
    ensures r.Some? ==> r.value in events
    ensures r.Some? ==> forall e :: e in events ==> e.version <= r.value.version
  {
    if events == [] then None
    else
      var rest := LastEvent(events[..|events| - 1]);
      var e := events[|events| - 1];
      assert events == events[..|events| - 1] + [e];
      if rest.Some? && rest.value.version > e.version then rest else Some(e)
  }

  predicate HasVersion(events: seq<StockEvent>, version: int) {
    exists e :: e in events && e.version == version
  }

  predicate HasProduct(products: seq<Product>, id: string) {
    exists p :: p in products && p.id == id
  }

  /** Why inserting `e` fails, if it does: a taken (product, version) key
      first, then a product that does not exist. */
  function EventViolation(ledger: Ledger, products: seq<Product>, e: StockEvent): Option<Violation> {
    if HasVersion(EventsOf(ledger, e.productId), e.version) then Some(UniqueViolation)
    else if !HasProduct(products, e.productId) then Some(ForeignKeyViolation)
    else None
  }

  /** `create_product_stock_event`: a unique-key violation becomes the
      optimistic-lock conflict; any other integrity error propagates. */
  function StockInsertOutcome(ledger: Ledger, products: seq<Product>, e: StockEvent): (r: Result<StockEvent, Error>)
    ensures r.Ok? ==> r.value == e && !HasVersion(EventsOf(ledger, e.productId), e.version)
    ensures (r.Err? && IsOptimisticLockError(r.error)) <==> HasVersion(EventsOf(ledger, e.productId), e.version)
    ensures r.Err? && !IsOptimisticLockError(r.error) ==> r.error == IntegrityError(ForeignKeyViolation)
    ensures r.Ok? <==> !HasVersion(EventsOf(ledger, e.productId), e.version) && HasProduct(products, e.productId)
  {
    match EventViolation(ledger, products, e)
    case Some(UniqueViolation) => Err(Milly(DBOptimisticLockError, None))
    case Some(v) => Err(IntegrityError(v))
    case None => Ok(e)
  }

  /** `Product.objects.get(id=...)`: the first product with that id. */
  function FindProduct(products: seq<Product>, id: string): (r: Option<Product>)
    ensures r.None? <==> !HasProduct(products, id)
    ensures r.Some? ==> r.value in products && r.value.id == id
  {
    if products == [] then None
    else if products[0].id == id then Some(products[0])
    else
      assert products == [products[0]] + products[1..];
      FindProduct(products[1..], id)
  }

  /** `ProductDiscount.objects.filter(product_id=..., active=True)`, in
      table order. */
  function ActiveDiscountsOf(ds: seq<Discount>, productId: string): (r: seq<Discount>)
    ensures |r| <= |ds|
    ensures forall d :: d in r <==> d in ds && d.productId == productId && d.active
  {
    if ds == [] then []
    else
      var d := ds[|ds| - 1];
      assert ds == ds[..|ds| - 1] + [d];
      ActiveDiscountsOf(ds[..|ds| - 1], productId) + (if d.productId == productId && d.active then [d] else [])
  }

  /** `.filter(product_id=..., active=True).update(active=False)` when asked
      to deactivate the others. */
  function Deactivated(ds: seq<Discount>, productId: string): (r: seq<Discount>)
    ensures |r| == |ds|
    ensures forall i :: 0 <= i < |ds| ==> r[i] == if ds[i].productId == productId && ds[i].active then ds[i].(active := false) else ds[i]
  {
    seq(|ds|, i requires 0 <= i < |ds| => if ds[i].productId == productId && ds[i].active then ds[i].(active := false) else ds[i])
  }

  /** `Cupons.objects.filter(user_id=..., active=True)`, in table order. */
  function UserActiveCoupons(cs: seq<Coupon>, userId: string): (r: seq<Coupon>)
    ensures |r| <= |cs|
    ensures forall c :: c in r <==> c in cs && c.userId == userId && c.active
  {
    if cs == [] then []
    else
      var c := cs[|cs| - 1];
      assert cs == cs[..|cs| - 1] + [c];
      UserActiveCoupons(cs[..|cs| - 1], userId) + (if c.userId == userId && c.active then [c] else [])
  }

  /** The current stock of a product: its latest event's total, 0 without
      one. Over a well-formed history that is the sum of all its changes. */
  function StockCount(ledger: Ledger, productId: string): (n: int)
    ensures EventsOf(ledger, productId) == [] ==> n == 0
    ensures LedgerWellFormed(EventsOf(ledger, productId), productId) ==>
      n == SumOfChanges(EventsOf(ledger, productId)) && n >= 0
  {
    var events := EventsOf(ledger, productId);
    var n := match LastEvent(events) case Some(e) => e.totalAfterChange case None => 0;
    assert LedgerWellFormed(events, productId) ==> n == SumOfChanges(events) && n >= 0 by {
      if events != [] && LedgerWellFormed(events, productId) {
        LastOfWellFormed(events, productId);
        TotalIsSumOfChanges(events, productId, |events| - 1);
        assert events[..|events|] == events;
      }
    }
    n
  }

  /** The stock a history of changes adds up to, starting from nothing. */
  function SumOfChanges(events: seq<StockEvent>): int {
    if events == [] then 0 else SumOfChanges(events[..|events| - 1]) + events[|events| - 1].change
  }

  /** ASCII case folding, as the case-insensitive match is modelled. */
  function Lower(c: char): char {
    if 'A' <= c <= 'Z' then (c as int + 32) as char else c
  }

  function LowerStr(s: string): (r: string)
    ensures |r| == |s|
    ensures forall i :: 0 <= i < |s| ==> r[i] == Lower(s[i])
  {
    seq(|s|, i requires 0 <= i < |s| => Lower(s[i]))
  }

  /** `needle` occurs in `hay` starting at `i`. */
  predicate OccursAt(hay: string, needle: string, i: int) {
    0 <= i && i + |needle| <= |hay| && hay[i..i + |needle|] == needle
  }

  /** `name__icontains=needle`. */
  predicate ContainsIgnoreCase(name: string, needle: string) {
    exists i :: 0 <= i <= |name| && OccursAt(LowerStr(name), LowerStr(needle), i)
  }

  /** `if product_name:` — no filter for `None` or the empty string. */
  predicate NameMatches(filter: Option<string>, p: Product) {
    filter.None? || filter.value == "" || ContainsIgnoreCase(p.name, filter.value)
  }

  function FilterByName(products: seq<Product>, filter: Option<string>): (r: seq<Product>)
    ensures |r| <= |products|
    ensures forall p :: p in r <==> p in products && NameMatches(filter, p)
  {
    if products == [] then []
    else
      var p := products[|products| - 1];
      assert products == products[..|products| - 1] + [p];
      FilterByName(products[..|products| - 1], filter) + (if NameMatches(filter, p) then [p] else [])
  }

  lemma AppendAssoc<T>(a: seq<T>, b: seq<T>, c: seq<T>)
    ensures (a + b) + c == a + (b + c)
  {
  }

  /** One more product at the end of the table is kept after the others
      exactly when its name matches. */
  lemma FilterByNameSnoc(front: seq<Product>, p: Product, filter: Option<string>)
    ensures FilterByName(front + [p], filter) == FilterByName(front, filter) + if NameMatches(filter, p) then [p] else []
  {
    assert (front + [p])[..|front|] == front;
  }

  /** Filtering a table split in two filters each part and keeps the parts
      in order; with the one-product case this fixes the result as the
      matching products in table order. */
  lemma {:induction false} FilterByNameConcat(front: seq<Product>, back: seq<Product>, filter: Option<string>)
    ensures FilterByName(front + back, filter) == FilterByName(front, filter) + FilterByName(back, filter)
    decreases |back|
  {
    if back == [] {
      assert front + back == front;
    } else {
      var n := |back|;
      var rest, p := back[..n - 1], back[n - 1];
      assert back == rest + [p];
      assert front + back == (front + rest) + [p];
      FilterByNameSnoc(front + rest, p, filter);
      FilterByNameSnoc(rest, p, filter);
      FilterByNameConcat(front, rest, filter);
      var a, b, kept := FilterByName(front, filter), FilterByName(rest, filter), if NameMatches(filter, p) then [p] else [];
      AppendAssoc(a, b, kept);
    }
  }

  /** A single product is kept exactly when its name matches. */
  lemma FilterByNameSingle(p: Product, filter: Option<string>)
    ensures FilterByName([p], filter) == if NameMatches(filter, p) then [p] else []
  {
    assert [p][..0] == [];
  }

  /** Without a name to search for, every product is listed, in order. */
  lemma {:induction false} NoFilterKeepsAll(products: seq<Product>, filter: Option<string>)
    requires filter.None? || filter.value == ""
    ensures FilterByName(products, filter) == products
  {
    if products != [] {
      NoFilterKeepsAll(products[..|products| - 1], filter);
      assert products == products[..|products| - 1] + [products[|products| - 1]];
    }
  }

  function Min(a: int, b: int): int { if a < b then a else b }

  /** The number of rows a page holds: what is left after `start`, at most
      `stop - start`. */
  function PageLength(total: nat, start: nat, stop: nat): nat {
    if stop <= start || total <= start then 0 else Min(stop, total) - start
  }

  /** `query[(page - 1) * size : page * size]`: negative bounds are refused,
      an end before the start gives an empty page, and the page is cut at
      the end of the table. */
  function PageOf(ps: seq<Product>, pageSize: int, pageIndex: int): (r: Result<seq<Product>, Error>)
    ensures r.Err? <==> (pageIndex - 1) * pageSize < 0 || pageIndex * pageSize < 0
    ensures r.Err? ==> r.error == ValueError(NegativeIndexMessage)
    ensures r.Ok? ==>
      var start := (pageIndex - 1) * pageSize;
      && |r.value| == PageLength(|ps|, start, pageIndex * pageSize)
      && forall i :: 0 <= i < |r.value| ==> r.value[i] == ps[start + i]
  {
    var start, stop := (pageIndex - 1) * pageSize, pageIndex * pageSize;
    if start < 0 || stop < 0 then Err(ValueError(NegativeIndexMessage))
    else
      var lo := Min(start, |ps|);
      var hi := Min(if stop < start then start else stop, |ps|);
      Ok(ps[lo..hi])
  }

  /** Twenty-five products in pages of ten: 10, 10, 5, then nothing. */
  lemma PaginationExample(ps: seq<Product>)
    requires |ps| == 25
    ensures PageOf(ps, 10, 1).Ok? && |PageOf(ps, 10, 1).value| == 10
    ensures PageOf(ps, 10, 2).Ok? && |PageOf(ps, 10, 2).value| == 10
    ensures PageOf(ps, 10, 3).Ok? && |PageOf(ps, 10, 3).value| == 5
    ensures PageOf(ps, 10, 4).Ok? && |PageOf(ps, 10, 4).value| == 0
  {
  }

  /** The well-formed history of one product: versions 1, 2, 3, ... in
      order, each total the previous total plus the change (the first event
      starting from zero), and no total below zero. */
  predicate LedgerWellFormed(events: seq<StockEvent>, productId: string) {
    forall i :: 0 <= i < |events| ==>
      && events[i].productId == productId
      && events[i].version == i + 1
      && events[i].totalAfterChange >= 0
      && events[i].totalAfterChange == (if i == 0 then 0 else events[i - 1].totalAfterChange) + events[i].change
  }

  /** In a well-formed history each running total is the sum of the changes
      up to and including its event. */
  lemma {:induction false} TotalIsSumOfChanges(events: seq<StockEvent>, productId: string, j: nat)
    requires LedgerWellFormed(events, productId) && j < |events|
    ensures events[j].totalAfterChange == SumOfChanges(events[..j + 1])
  {
    var upTo := events[..j + 1];
    assert upTo[..j] == events[..j] && upTo[j] == events[j];
    assert SumOfChanges(upTo) == SumOfChanges(events[..j]) + events[j].change;
    if j > 0 {
      assert events[j].totalAfterChange == events[j - 1].totalAfterChange + events[j].change;
      TotalIsSumOfChanges(events, productId, j - 1);
    } else {
      assert events[0].totalAfterChange == events[0].change;
    }
  }

  /** In a well-formed history the latest event is the last one appended. */
  lemma LastOfWellFormed(events: seq<StockEvent>, productId: string)
    requires LedgerWellFormed(events, productId) && events != []
    ensures LastEvent(events) == Some(events[|events| - 1])
  {
    var r := LastEvent(events).value;
    var k :| 0 <= k < |events| && events[k] == r;
    assert events[|events| - 1].version <= r.version;
  }

  /** The successor of the last event extends a well-formed history. */
  lemma ExtendWellFormed(events: seq<StockEvent>, productId: string, e: StockEvent)
    requires LedgerWellFormed(events, productId)
    requires e.productId == productId && e.version == |events| + 1 && e.totalAfterChange >= 0
    requires e.totalAfterChange == (if events == [] then 0 else events[|events| - 1].totalAfterChange) + e.change
    ensures LedgerWellFormed(events + [e], productId)
  {
    var after := events + [e];
    assert after[|events|] == e;
    forall i | 0 <= i < |after|
      ensures after[i].productId == productId && after[i].version == i + 1
      ensures after[i].totalAfterChange >= 0
      ensures after[i].totalAfterChange == (if i == 0 then 0 else after[i - 1].totalAfterChange) + after[i].change
    {
      if i == |events| {
        if i > 0 {
          assert after[i - 1] == events[|events| - 1];
        }
      } else {
        assert after[i] == events[i];
        if i > 0 {
          assert after[i - 1] == events[i - 1];
          assert events[i].totalAfterChange == events[i - 1].totalAfterChange + events[i].change;
        } else {
          assert events[0].totalAfterChange == events[0].change;
        }
      }
    }
  }

  /** In a well-formed history the taken versions are exactly 1 .. n. */
  lemma TakenVersions(events: seq<StockEvent>, productId: string, version: int)
    requires LedgerWellFormed(events, productId)
    ensures HasVersion(events, version) <==> 1 <= version <= |events|
  {
    if HasVersion(events, version) {
      var e :| e in events && e.version == version;
      var j :| 0 <= j < |events| && events[j] == e;
    }
    if 1 <= version <= |events| {
      assert events[version - 1] in events;
    }
  }

  /** At most one discount per product is active. */
  predicate OneActivePerProduct(ds: seq<Discount>) {
    forall i, j :: 0 <= i < j < |ds| && ds[i].active && ds[j].active ==> ds[i].productId != ds[j].productId
  }

  lemma {:induction false} NoActiveDiscounts(ds: seq<Discount>, productId: string)
    requires forall d :: d in ds ==> !(d.productId == productId && d.active)
    ensures ActiveDiscountsOf(ds, productId) == []
  {
    if ds != [] {
      NoActiveDiscounts(ds[..|ds| - 1], productId);
    }
  }

  /** After the bulk deactivation no discount of the product is active,
      and every other discount is as it was. */
  lemma NoneActiveAfterDeactivation(ds: seq<Discount>, productId: string)
    ensures ActiveDiscountsOf(Deactivated(ds, productId), productId) == []
  {
    NoActiveDiscounts(Deactivated(ds, productId), productId);
  }

  /** Deactivating a product's discounts and then adding an active one
      leaves exactly that one active for the product. */
  lemma UpsertLeavesOneActive(ds: seq<Discount>, d: Discount)
    requires d.active
    ensures ActiveDiscountsOf(Deactivated(ds, d.productId) + [d], d.productId) == [d]
  {
    var after := Deactivated(ds, d.productId);
    NoneActiveAfterDeactivation(ds, d.productId);
    assert (after + [d])[..|after|] == after;
  }

  /** The upsert keeps at most one active discount per product. */
  lemma UpsertKeepsOneActivePerProduct(ds: seq<Discount>, d: Discount)
    requires OneActivePerProduct(ds)
    ensures OneActivePerProduct(Deactivated(ds, d.productId) + [d])
  {
    var after := Deactivated(ds, d.productId) + [d];
    forall i, j | 0 <= i < j < |after| && after[i].active && after[j].active
      ensures after[i].productId != after[j].productId
    {
      if j < |ds| {
        assert ds[i].active && ds[j].active;
      }
    }
  }

  /** The invariant the use cases keep: valid prices, well-formed
      histories of existing products, discounts of existing products with
      at most one active each, coupons of existing users with unique codes. */
  predicate StoreInvariant(products: seq<Product>, ledger: Ledger, discounts: seq<Discount>, cupons: seq<Coupon>, users: set<string>) {
    && (forall p :: p in products ==> ValidPrice(p.price))
    && (forall pid :: pid in ledger ==> HasProduct(products, pid) && LedgerWellFormed(ledger[pid], pid))
    && (forall d :: d in discounts ==> HasProduct(products, d.productId))
    && OneActivePerProduct(discounts)
    && (forall c :: c in cupons ==> c.userId in users)
    && (forall i, j :: 0 <= i < j < |cupons| ==> cupons[i].code != cupons[j].code)
  }

  /** Appending an event that extends its product's history well keeps the
      invariant. */
  lemma AppendKeepsInvariant(products: seq<Product>, ledger: Ledger, discounts: seq<Discount>, cupons: seq<Coupon>, users: set<string>, e: StockEvent)
    requires StoreInvariant(products, ledger, discounts, cupons, users)
    requires HasProduct(products, e.productId)
    requires LedgerWellFormed(EventsOf(ledger, e.productId) + [e], e.productId)
    ensures StoreInvariant(products, Append(ledger, e), discounts, cupons, users)
  {
    var after := Append(ledger, e);
    forall pid | pid in after
      ensures HasProduct(products, pid) && LedgerWellFormed(after[pid], pid)
    {
      assert after[pid] == EventsOf(after, pid);
    }
  }

  /** Storing one more product keeps every reference to a product valid. */
  lemma HasProductGrows(products: seq<Product>, extra: Product, id: string)
    requires HasProduct(products, id)
    ensures HasProduct(products + [extra], id)
  {
    var p :| p in products && p.id == id;
    assert p in products + [extra];
  }

  class Store {
    var products: seq<Product>
    var ledger: Ledger
    var discounts: seq<Discount>
    var cupons: seq<Coupon>
    var users: set<string>

    /** The invariant the use cases keep, over the current tables. */
    predicate Consistent()
      reads this
    {
      StoreInvariant(products, ledger, discounts, cupons, users)
    }

    constructor (users: set<string>)
      ensures products == [] && ledger == map[] && discounts == [] && cupons == []
      ensures this.users == users
      ensures Consistent()
    {
      products, ledger, discounts, cupons := [], map[], [], [];
      this.users := users;
    }

    /** `create_product`: the product and its first stock event are stored
        together in one transaction; when the event cannot be stored neither
        is, and the integrity error propagates. */
    method CreateProduct(product: Product, event: StockEvent) returns (r: Result<(Product, StockEvent), Error>)
      modifies this
      ensures EventViolation(old(ledger), old(products) + [product], event).Some? ==>
        && r == Err(IntegrityError(EventViolation(old(ledger), old(products) + [product], event).value))
        && unchanged(this)
      ensures EventViolation(old(ledger), old(products) + [product], event).None? ==>
        && r == Ok((product, event))
        && products == old(products) + [product]
        && ledger == Append(old(ledger), event)
        && discounts == old(discounts) && cupons == old(cupons) && users == old(users)
    {
      var violation := EventViolation(ledger, products + [product], event);
      if violation.Some? {
        return Err(IntegrityError(violation.value));
      }
      products := products + [product];
      ledger := Append(ledger, event);
      r := Ok((product, event));
    }

    /** `create_product_stock_event`: appends the event unless its
        (product, version) key is taken, which is the optimistic-lock
        conflict, or its product does not exist. */
    method CreateProductStockEvent(event: StockEvent) returns (r: Result<StockEvent, Error>)
      modifies this
      ensures r == StockInsertOutcome(old(ledger), old(products), event)
      ensures ledger == if r.Ok? then Append(old(ledger), event) else old(ledger)
      ensures products == old(products) && discounts == old(discounts)
      ensures cupons == old(cupons) && users == old(users)
    {
      r := StockInsertOutcome(ledger, products, event);
      if r.Ok? {
        ledger := Append(ledger, event);
      }
    }

    /** `get_last_stock_event`. */
    function GetLastStockEvent(productId: string): (r: Option<StockEvent>)
      reads this
      ensures r.None? <==> EventsOf(ledger, productId) == []
      ensures r.Some? ==> r.value in EventsOf(ledger, productId)
      ensures r.Some? ==> forall e :: e in EventsOf(ledger, productId) ==> e.version <= r.value.version
    {
      LastEvent(EventsOf(ledger, productId))
    }

    /** `create_product_discount`: in one transaction, optionally deactivate
        the product's active discounts, then insert the new one; a product
        that does not exist rolls both back. */
    method CreateProductDiscount(discount: Discount, deactivateOthers: bool := false) returns (r: Result<Discount, Error>)
      modifies this
      ensures r.Err? <==> !HasProduct(old(products), discount.productId)
      ensures r.Err? ==> r.error == IntegrityError(ForeignKeyViolation) && discounts == old(discounts)
      ensures r.Ok? ==> r.value == discount
      ensures r.Ok? ==> discounts == (if deactivateOthers then Deactivated(old(discounts), discount.productId) else old(discounts)) + [discount]
      ensures products == old(products) && ledger == old(ledger)
      ensures cupons == old(cupons) && users == old(users)
    {
      if !HasProduct(products, discount.productId) {
        return Err(IntegrityError(ForeignKeyViolation));
      }
      if deactivateOthers {
        discounts := Deactivated(discounts, discount.productId);
      }
      discounts := discounts + [discount];
      r := Ok(discount);
    }

    /** `create_cupon`: a taken code or an unknown user is an integrity
        error; otherwise the coupon is stored. */
    method CreateCupon(cupon: Coupon) returns (r: Result<Coupon, Error>)
      modifies this
      ensures (exists c :: c in old(cupons) && c.code == cupon.code) ==> r == Err(IntegrityError(UniqueViolation))
      ensures (forall c :: c in old(cupons) ==> c.code != cupon.code) && cupon.userId !in old(users) ==>
        r == Err(IntegrityError(ForeignKeyViolation))
      ensures r.Err? ==> cupons == old(cupons)
      ensures r.Ok? ==> r.value == cupon && cupons == old(cupons) + [cupon]
      ensures r.Ok? <==> (forall c :: c in old(cupons) ==> c.code != cupon.code) && cupon.userId in old(users)
      ensures products == old(products) && ledger == old(ledger)
      ensures discounts == old(discounts) && users == old(users)
    {
      if exists c :: c in cupons && c.code == cupon.code {
        return Err(IntegrityError(UniqueViolation));
      }
      if cupon.userId !in users {
        return Err(IntegrityError(ForeignKeyViolation));
      }
      cupons := cupons + [cupon];
      r := Ok(cupon);
    }

    /** One listing row for `p`. */
    function RowOf(p: Product): (row: ProductRow)
      reads this
      ensures row.product == p
      ensures forall d :: d in row.discounts <==> d in discounts && d.productId == p.id && d.active
      ensures LastEvent(EventsOf(ledger, p.id)).None? ==> row.stockCount == 0
      ensures LastEvent(EventsOf(ledger, p.id)).Some? ==> row.stockCount == LastEvent(EventsOf(ledger, p.id)).value.totalAfterChange
    {
      ProductRow(p, ActiveDiscountsOf(discounts, p.id), StockCount(ledger, p.id))
    }

    /** `get_products`: the requested page of the (optionally name-filtered)
        products, one row per product with its active discounts and current
        stock, in table order. */
    method GetProducts(productName: Option<string>, pageSize: int, curPage: int) returns (r: Result<seq<ProductRow>, Error>)
      ensures r.Err? <==> PageOf(FilterByName(products, productName), pageSize, curPage).Err?
      ensures r.Err? ==> r.error == ValueError(NegativeIndexMessage)
      ensures r.Ok? ==>
        var page := PageOf(FilterByName(products, productName), pageSize, curPage).value;
        && |r.value| == |page|
        && forall i :: 0 <= i < |page| ==> r.value[i] == RowOf(page[i])
    {
      var query := PageOf(FilterByName(products, productName), pageSize, curPage);
      if query.Err? {
        return Err(query.error);
      }
      var rows := RowsOf(query.value);
      r := Ok(rows);
    }

    /** The loop of `get_products`: one row per product of the page, in
        order. */
    method RowsOf(page: seq<Product>) returns (rows: seq<ProductRow>)
      ensures |rows| == |page|
      ensures forall i :: 0 <= i < |page| ==> rows[i] == RowOf(page[i])
    {
      rows := [];
      var i := 0;
      while i < |page|
        invariant 0 <= i <= |page|
        invariant |rows| == i
        invariant forall k :: 0 <= k < i ==> rows[k] == RowOf(page[k])
      {
        rows := rows + [RowOf(page[i])];
        i := i + 1;
      }
    }

    /** `get_product`: the product and its active discounts; `DoesNotExist`
        for an unknown id. */
    function GetProduct(productId: string): (r: Result<(Product, seq<Discount>), Error>)
      reads this
      ensures r.Err? <==> !HasProduct(products, productId)
      ensures r.Err? ==> r.error == DoesNotExist
      ensures r.Ok? ==> r.value.0 in products && r.value.0.id == productId
      ensures r.Ok? ==> forall d :: d in r.value.1 <==> d in discounts && d.productId == productId && d.active
    {
      match FindProduct(products, productId)
      case None => Err(DoesNotExist)
      case Some(p) => Ok((p, ActiveDiscountsOf(discounts, p.id)))
    }

    /** `get_cupons`: the user's active coupons, in table order. */
    method GetCupons(userId: string) returns (r: seq<Coupon>)
      ensures r == UserActiveCoupons(cupons, userId)
      ensures forall c :: c in r <==> c in cupons && c.userId == userId && c.active
    {
      var table := cupons;
      r := [];
      var i := 0;
      while i < |table|
        invariant 0 <= i <= |table|
        invariant r == UserActiveCoupons(table[..i], userId)
      {
        var c := table[i];
        assert table[..i + 1] == table[..i] + [c];
        if c.userId == userId && c.active {
          r := r + [c];
        }
        i := i + 1;
      }
      assert table[..i] == table;
    }

    /** `is_user_exist`. */
    predicate IsUserExist(userId: string)
      reads this
      ensures Consistent() && (exists c :: c in cupons && c.userId == userId) ==> IsUserExist(userId)
    {
      userId in users
    }
  }
}
