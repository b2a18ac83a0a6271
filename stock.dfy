/** `UpdateProductStockUsecase`: read the product's latest stock event,
    refuse a change that would take the total below zero, and append the
    next version; a taken version is an optimistic-lock conflict, on which
    the whole read-compute-append sequence runs again, three attempts in all.

    A concurrent writer is modelled the way the race shows itself to this
    use case: `get_last_stock_event` hands back a stale event. `stale[k]` is
    what the k-th call returns while the race lasts; once `stale` is used
    up, the call returns the true latest event of the ledger. */
module StockUpdate {
  import opened Wrappers
  import opened Exceptions
  import opened Entities
  import opened Persistence

  /** `retry(tries=3, ...)`. */
  const Tries: nat := 3

  const NotFoundMessage: string := "stock event not found."

  function InsufficientMessage(productId: string): string {
    "insufficient stock for product " + productId + "."
  }

  /** What `execute` returns or raises, and every event it handed to
      `create_product_stock_event`, in call order. */
  datatype Outcome = Outcome(result: Result<StockEvent, Error>, attempted: seq<StockEvent>)

  function Prepend(events: seq<StockEvent>, o: Outcome): Outcome {
    Outcome(o.result, events + o.attempted)
  }

  /** The failure `retry` catches: the optimistic-lock conflict. */
  predicate IsConflict(r: Result<StockEvent, Error>) {
    r.Err? && IsOptimisticLockError(r.error)
  }

  /** The answer of the k-th call of `get_last_stock_event`. */
  function ReadLast(ledger: Ledger, productId: string, stale: seq<StockEvent>, k: nat): Option<StockEvent> {
    if k < |stale| then Some(stale[k]) else LastEvent(EventsOf(ledger, productId))
  }

  /** What `new_id()` and `datetime.now()` give the event an attempt
      creates: its id and its creation time. */
  datatype Fresh = Fresh(id: string, createdAt: nat)

  /** The id and creation time `ProductStockEventEntity.create` derives
      from one clock reading and random draw. */
  function FreshOf(stamp: Stamp): Fresh {
    Fresh(IdOf(stamp), stamp.epochMs)
  }

  /** The event attempt k tries to append after reading `last`. */
  function NextEvent(productId: string, change: int, last: StockEvent, issued: Fresh): StockEvent {
    StockEvent(issued.id, productId, change, last.totalAfterChange + change, issued.createdAt, last.version + 1)
  }

  /** The attempt's event is the one `ProductStockEventEntity.create` makes
      for the successor of `last`. */
  lemma NextEventIsCreated(productId: string, change: int, last: StockEvent, stamp: Stamp)
    ensures NextEvent(productId, change, last, FreshOf(stamp))
      == CreateStockEvent(productId, change, last.totalAfterChange + change, last.version + 1, stamp)
  {
  }

  /** Attempts k, k + 1, ... of the retried `execute`. A failed attempt
      stores nothing, so every attempt sees the same ledger. */
  function Run(ledger: Ledger, products: seq<Product>, productId: string, change: int, stale: seq<StockEvent>, issued: Fresh, k: nat): (o: Outcome)
    requires k < Tries
    decreases Tries - k
    ensures |o.attempted| <= Tries - k
  {
    match ReadLast(ledger, productId, stale, k)
    case None => Outcome(Err(Milly(ServiceException, Some(NotFoundMessage))), [])
    case Some(last) =>
      if last.totalAfterChange + change < 0 then
        Outcome(Err(Milly(InvalidStockChange, Some(InsufficientMessage(productId)))), [])
      else
        var event := NextEvent(productId, change, last, issued);
        var res := StockInsertOutcome(ledger, products, event);
        if IsConflict(res) && k + 1 < Tries then
          Prepend([event], Run(ledger, products, productId, change, stale, issued, k + 1))
        else
          Outcome(res, [event])
  }

  /** What any run can end in: a read failure before anything is tried, a
      conflict, a missing product, or the last event tried, stored for
      this product. */
  predicate Settled(o: Outcome, productId: string) {
    && (o.attempted == [] ==> ReadFailure(o.result))
    && (o.result.Err? ==>
          ReadFailure(o.result) || IsOptimisticLockError(o.result.error) || o.result.error == IntegrityError(ForeignKeyViolation))
    && (o.result.Ok? ==>
          o.attempted != [] && o.result.value == o.attempted[|o.attempted| - 1] && o.result.value.productId == productId)
  }

  /** Reads that come from the product's own history: the true latest or an
      event that was the latest before a concurrent writer appended more. */
  predicate StaleFrom(ledger: Ledger, productId: string, stale: seq<StockEvent>) {
    forall e :: e in stale ==> e in EventsOf(ledger, productId)
  }

  /** The retried `execute` against the store. */
  method UpdateProductStock(store: Store, productId: string, change: int, stale: seq<StockEvent>, stamp: Stamp)
    returns (r: Result<StockEvent, Error>, attempted: seq<StockEvent>)
    modifies store
    ensures Outcome(r, attempted) == Run(old(store.ledger), old(store.products), productId, change, stale, FreshOf(stamp), 0)
    ensures store.ledger == if r.Ok? then Append(old(store.ledger), r.value) else old(store.ledger)
    ensures store.products == old(store.products) && store.discounts == old(store.discounts)
    ensures store.cupons == old(store.cupons) && store.users == old(store.users)
    ensures old(store.Consistent()) && StaleFrom(old(store.ledger), productId, stale) ==> store.Consistent()
  {
    attempted := [];
    var attempt := 0;
    while true
      invariant 0 <= attempt < Tries
      invariant |attempted| == attempt
      invariant store.ledger == old(store.ledger) && store.products == old(store.products)
      invariant store.discounts == old(store.discounts) && store.cupons == old(store.cupons) && store.users == old(store.users)
      invariant Run(old(store.ledger), old(store.products), productId, change, stale, FreshOf(stamp), 0)
        == Prepend(attempted, Run(store.ledger, store.products, productId, change, stale, FreshOf(stamp), attempt))
      decreases Tries - attempt
    {
      var last := if attempt < |stale| then Some(stale[attempt]) else store.GetLastStockEvent(productId);
      if last.None? {
        r := Err(Milly(ServiceException, Some(NotFoundMessage)));
        return;
      }
      if last.value.totalAfterChange + change < 0 {
        r := Err(Milly(InvalidStockChange, Some(InsufficientMessage(productId))));
        return;
      }
      var event := NextEvent(productId, change, last.value, FreshOf(stamp));
      ghost var before := attempted;
      attempted := attempted + [event];
      r := store.CreateProductStockEvent(event);
      if !IsConflict(r) || attempt + 1 == Tries {
        if r.Ok? && old(store.Consistent()) && StaleFrom(old(store.ledger), productId, stale) {
          SuccessKeepsInvariant(old(store.products), old(store.ledger), old(store.discounts), old(store.cupons), old(store.users),
            productId, change, stale, FreshOf(stamp));
        }
        return;
      }
      AppendAssoc(before, [event], Run(store.ledger, store.products, productId, change, stale, FreshOf(stamp), attempt + 1).attempted);
      attempt := attempt + 1;
    }
  }

  /** `create_product_stock_event` is called at most three times, and each
      call carries the event built from that attempt's read: the next
      version and the read total plus the change. */
  lemma {:induction false} AttemptsFollowReads(ledger: Ledger, products: seq<Product>, productId: string, change: int, stale: seq<StockEvent>, issued: Fresh, k: nat)
    requires k < Tries
    ensures var o := Run(ledger, products, productId, change, stale, issued, k);
      forall i :: 0 <= i < |o.attempted| ==> BuiltFromRead(ledger, productId, change, stale, issued, k + i, o.attempted[i])
    decreases Tries - k
  {
    var read := ReadLast(ledger, productId, stale, k);
    if read.Some? && read.value.totalAfterChange + change >= 0 {
      var event := NextEvent(productId, change, read.value, issued);
      var res := StockInsertOutcome(ledger, products, event);
      assert BuiltFromRead(ledger, productId, change, stale, issued, k, event);
      if IsConflict(res) && k + 1 < Tries {
        var rest := Run(ledger, products, productId, change, stale, issued, k + 1);
        assert Run(ledger, products, productId, change, stale, issued, k).attempted == [event] + rest.attempted;
        AttemptsFollowReads(ledger, products, productId, change, stale, issued, k + 1);
        forall i | 1 <= i < 1 + |rest.attempted|
          ensures BuiltFromRead(ledger, productId, change, stale, issued, k + i, ([event] + rest.attempted)[i])
        {
          assert ([event] + rest.attempted)[i] == rest.attempted[i - 1];
          assert k + i == (k + 1) + (i - 1);
        }
      } else {
        assert Run(ledger, products, productId, change, stale, issued, k).attempted == [event];
      }
    }
  }

  /** Attempt `j` handed `e` to `create_product_stock_event`: the successor
      of what its read returned, one version up, with the read total plus
      the change. */
  predicate BuiltFromRead(ledger: Ledger, productId: string, change: int, stale: seq<StockEvent>, issued: Fresh, j: nat, e: StockEvent) {
    && ReadLast(ledger, productId, stale, j).Some?
    && var last := ReadLast(ledger, productId, stale, j).value;
       && e == NextEvent(productId, change, last, issued)
       && e.version == last.version + 1
       && e.totalAfterChange == last.totalAfterChange + change
  }

  /** The two failures `execute` raises itself, before any write. */
  predicate ReadFailure(r: Result<StockEvent, Error>) {
    r.Err? && r.error.Milly? && r.error.kind in {ServiceException, InvalidStockChange}
  }

  /** Every run ends in one of the outcomes `Settled` names. */
  lemma {:induction false} RunSettles(ledger: Ledger, products: seq<Product>, productId: string, change: int, stale: seq<StockEvent>, issued: Fresh, k: nat)
    requires k < Tries
    ensures Settled(Run(ledger, products, productId, change, stale, issued, k), productId)
    decreases Tries - k
  {
    var read := ReadLast(ledger, productId, stale, k);
    if read.Some? && read.value.totalAfterChange + change >= 0 {
      var event := NextEvent(productId, change, read.value, issued);
      var res := StockInsertOutcome(ledger, products, event);
      if IsConflict(res) && k + 1 < Tries {
        RunSettles(ledger, products, productId, change, stale, issued, k + 1);
      }
    }
  }

  /** Every attempt before the last one ended in a conflict. */
  lemma {:induction false} EarlierAttemptsConflicted(ledger: Ledger, products: seq<Product>, productId: string, change: int, stale: seq<StockEvent>, issued: Fresh, k: nat)
    requires k < Tries
    ensures var o := Run(ledger, products, productId, change, stale, issued, k);
      forall i :: 0 <= i < |o.attempted| - 1 ==> IsConflict(StockInsertOutcome(ledger, products, o.attempted[i]))
    decreases Tries - k
  {
    var read := ReadLast(ledger, productId, stale, k);
    if read.Some? && read.value.totalAfterChange + change >= 0 {
      var event := NextEvent(productId, change, read.value, issued);
      var res := StockInsertOutcome(ledger, products, event);
      if IsConflict(res) && k + 1 < Tries {
        EarlierAttemptsConflicted(ledger, products, productId, change, stale, issued, k + 1);
      }
    }
  }

  /** Unless a read failed, the outcome is that of the last attempt. */
  lemma {:induction false} LastAttemptDecides(ledger: Ledger, products: seq<Product>, productId: string, change: int, stale: seq<StockEvent>, issued: Fresh, k: nat)
    requires k < Tries
    ensures var o := Run(ledger, products, productId, change, stale, issued, k);
      !ReadFailure(o.result) ==> o.attempted != [] && o.result == StockInsertOutcome(ledger, products, o.attempted[|o.attempted| - 1])
    decreases Tries - k
  {
    var read := ReadLast(ledger, productId, stale, k);
    if read.Some? && read.value.totalAfterChange + change >= 0 {
      var event := NextEvent(productId, change, read.value, issued);
      var res := StockInsertOutcome(ledger, products, event);
      if IsConflict(res) && k + 1 < Tries {
        var rest := Run(ledger, products, productId, change, stale, issued, k + 1);
        assert Run(ledger, products, productId, change, stale, issued, k) == Outcome(rest.result, [event] + rest.attempted);
        LastAttemptDecides(ledger, products, productId, change, stale, issued, k + 1);
        if !ReadFailure(rest.result) {
          assert ([event] + rest.attempted)[|rest.attempted|] == rest.attempted[|rest.attempted| - 1];
        }
      } else {
        assert Run(ledger, products, productId, change, stale, issued, k) == Outcome(res, [event]);
      }
    }
  }

  /** Only a conflict is retried: every attempt before the last one ended
      in a conflict, and unless a read failed, the outcome is that of the
      last attempt. A success is the last event tried, under a
      (product, version) key that was free. */
  lemma OnlyConflictsRetried(ledger: Ledger, products: seq<Product>, productId: string, change: int, stale: seq<StockEvent>, issued: Fresh, k: nat)
    requires k < Tries
    ensures var o := Run(ledger, products, productId, change, stale, issued, k);
      && (forall i :: 0 <= i < |o.attempted| - 1 ==> IsConflict(StockInsertOutcome(ledger, products, o.attempted[i])))
      && (!ReadFailure(o.result) ==> o.attempted != [] && o.result == StockInsertOutcome(ledger, products, o.attempted[|o.attempted| - 1]))
      && (o.result.Ok? ==> !HasVersion(EventsOf(ledger, productId), o.result.value.version))
  {
    EarlierAttemptsConflicted(ledger, products, productId, change, stale, issued, k);
    LastAttemptDecides(ledger, products, productId, change, stale, issued, k);
    RunSettles(ledger, products, productId, change, stale, issued, k);
  }

  /** The conflict reaches the caller only after the third attempt: three
      calls of `create_product_stock_event`, each refused. */
  lemma {:induction false} ConflictSurfacesAfterThirdAttempt(ledger: Ledger, products: seq<Product>, productId: string, change: int, stale: seq<StockEvent>, issued: Fresh, k: nat)
    requires k < Tries
    ensures var o := Run(ledger, products, productId, change, stale, issued, k);
      IsConflict(o.result) ==> |o.attempted| == Tries - k
    decreases Tries - k
  {
    var read := ReadLast(ledger, productId, stale, k);
    if read.Some? && read.value.totalAfterChange + change >= 0 {
      var event := NextEvent(productId, change, read.value, issued);
      var res := StockInsertOutcome(ledger, products, event);
      if IsConflict(res) && k + 1 < Tries {
        ConflictSurfacesAfterThirdAttempt(ledger, products, productId, change, stale, issued, k + 1);
      }
    }
  }

  /** A product without stock events is a service error, raised at once and
      not retried: nothing is handed to `create_product_stock_event`. */
  lemma NoEventIsNotRetried(ledger: Ledger, products: seq<Product>, productId: string, change: int, issued: Fresh)
    requires EventsOf(ledger, productId) == []
    ensures Run(ledger, products, productId, change, [], issued, 0) == Outcome(Err(Milly(ServiceException, Some(NotFoundMessage))), [])
    ensures Status(ServiceException) == 500
    ensures !IsOptimisticLockError(Run(ledger, products, productId, change, [], issued, 0).result.error)
  {
  }

  /** A change that would take the latest total below zero is refused with
      InvalidStockChange, a client error, before anything is written. */
  lemma InsufficientStockIsRefused(ledger: Ledger, products: seq<Product>, productId: string, change: int, issued: Fresh)
    requires EventsOf(ledger, productId) != []
    requires LastEvent(EventsOf(ledger, productId)).value.totalAfterChange + change < 0
    ensures Run(ledger, products, productId, change, [], issued, 0)
      == Outcome(Err(Milly(InvalidStockChange, Some(InsufficientMessage(productId)))), [])
    ensures IsSubclass(InvalidStockChange, ClientException) && Status(InvalidStockChange) == 400
  {
  }

  /** No update is lost. On a well-formed history, whatever stale events the
      race hands back, a successful update appends exactly the successor of
      the true latest event: version n + 1 and the latest total plus the
      change, so the history stays well formed. */
  lemma {:induction false} NoLostUpdate(ledger: Ledger, products: seq<Product>, productId: string, change: int, stale: seq<StockEvent>, issued: Fresh, k: nat)
    requires k < Tries
    requires LedgerWellFormed(EventsOf(ledger, productId), productId)
    requires StaleFrom(ledger, productId, stale)
    ensures var o := Run(ledger, products, productId, change, stale, issued, k);
      var events := EventsOf(ledger, productId);
      o.result.Ok? ==>
        && events != []
        && o.result.value.version == |events| + 1
        && o.result.value.totalAfterChange == events[|events| - 1].totalAfterChange + change
        && LedgerWellFormed(events + [o.result.value], productId)
    decreases Tries - k
  {
    var events := EventsOf(ledger, productId);
    var o := Run(ledger, products, productId, change, stale, issued, k);
    var read := ReadLast(ledger, productId, stale, k);
    if read.Some? && read.value.totalAfterChange + change >= 0 {
      var last := read.value;
      var event := NextEvent(productId, change, last, issued);
      var res := StockInsertOutcome(ledger, products, event);
      if IsConflict(res) && k + 1 < Tries {
        NoLostUpdate(ledger, products, productId, change, stale, issued, k + 1);
      } else if res.Ok? {
        assert last in events;
        var j :| 0 <= j < |events| && events[j] == last;
        TakenVersions(events, productId, event.version);
        assert j == |events| - 1;
        assert last == events[|events| - 1];
        ExtendWellFormed(events, productId, event);
      }
    }
  }

  /** A successful update keeps the store invariant. */
  lemma SuccessKeepsInvariant(products: seq<Product>, ledger: Ledger, discounts: seq<Discount>, cupons: seq<Coupon>, users: set<string>,
                              productId: string, change: int, stale: seq<StockEvent>, issued: Fresh)
    requires StoreInvariant(products, ledger, discounts, cupons, users)
    requires StaleFrom(ledger, productId, stale)
    requires Run(ledger, products, productId, change, stale, issued, 0).result.Ok?
    ensures StoreInvariant(products, Append(ledger, Run(ledger, products, productId, change, stale, issued, 0).result.value), discounts, cupons, users)
  {
    var e := Run(ledger, products, productId, change, stale, issued, 0).result.value;
    NoLostUpdate(ledger, products, productId, change, stale, issued, 0);
    OnlyConflictsRetried(ledger, products, productId, change, stale, issued, 0);
    RunSettles(ledger, products, productId, change, stale, issued, 0);
    AppendKeepsInvariant(products, ledger, discounts, cupons, users, e);
  }

  /** Once the race is over before the tries run out, and no read sees too
      little stock, the update succeeds. */
  lemma {:induction false} SucceedsWhenRaceEnds(ledger: Ledger, products: seq<Product>, productId: string, change: int, stale: seq<StockEvent>, issued: Fresh, k: nat)
    requires k < Tries && |stale| < Tries
    requires LedgerWellFormed(EventsOf(ledger, productId), productId) && EventsOf(ledger, productId) != []
    requires HasProduct(products, productId)
    requires StaleFrom(ledger, productId, stale)
    requires forall e :: e in stale ==> e.totalAfterChange + change >= 0
    requires LastEvent(EventsOf(ledger, productId)).value.totalAfterChange + change >= 0
    ensures Run(ledger, products, productId, change, stale, issued, k).result.Ok?
    decreases Tries - k
  {
    var events := EventsOf(ledger, productId);
    LastOfWellFormed(events, productId);
    var read := ReadLast(ledger, productId, stale, k);
    var last := read.value;
    assert last in events;
    var event := NextEvent(productId, change, last, issued);
    if k < |stale| {
      var res := StockInsertOutcome(ledger, products, event);
      if IsConflict(res) {
        SucceedsWhenRaceEnds(ledger, products, productId, change, stale, issued, k + 1);
      }
    } else {
      TakenVersions(events, productId, event.version);
    }
  }

  /** The race of the concurrency test: versions 1 (total 100) and 2 (total
      200) are stored, the first read returns the outdated version 1. The
      first attempt tries version 2 and conflicts, the retry reads version 2
      and stores version 3 with total 220. */
  lemma StaleReadExample(productId: string, product: Product, issued: Fresh, s1: Stamp, s2: Stamp)
    requires product.id == productId
    ensures
      var v1 := CreateStockEvent(productId, 100, 100, 1, s1);
      var v2 := CreateStockEvent(productId, 100, 200, 2, s2);
      var ledger := map[productId := [v1, v2]];
      var o := Run(ledger, [product], productId, 20, [v1], issued, 0);
      && |o.attempted| == 2
      && o.attempted[0].version == 2 && o.attempted[1].version == 3
      && o.result.Ok? && o.result.value.totalAfterChange == 220
      && o.result.value.version == 3
  {
    var v1 := CreateStockEvent(productId, 100, 100, 1, s1);
    var v2 := CreateStockEvent(productId, 100, 200, 2, s2);
    var ledger := map[productId := [v1, v2]];
    assert EventsOf(ledger, productId) == [v1, v2];
    assert LastEvent([v1, v2]) == Some(v2) by {
      assert [v1, v2][..1] == [v1];
      assert [v1][..0] == [];
    }
    var e1 := NextEvent(productId, 20, v1, issued);
    assert HasVersion([v1, v2], e1.version) by {
      assert v2 in [v1, v2];
    }
    var e2 := NextEvent(productId, 20, v2, issued);
    assert !HasVersion([v1, v2], e2.version);
    assert HasProduct([product], productId) by {
      assert product in [product];
    }
  }
}
