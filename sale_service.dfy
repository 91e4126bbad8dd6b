/**
 * The sale service: checks a sale request, prices its lines from the item
 * table (a snapshot of each item's price and the line's subtotal), and hands
 * the priced lines and their total to the repository.
 */
module SaleService {
  import opened Results
  import opened Model
  import opened Ledger
  import opened SaleRepository

  /** Which read outside a unit of work the database fails, if any. */
  datatype ReadFault =
    | NoReadFault
    | SaleRead            // the lookup of the sale header
    | ItemRead(line: nat) // the lookup of the item of request line `line`
    | LinesRead           // the lookup of the sale's lines

  /** Every request line asks for at least one unit (the `gt=0` rule on a request's quantity). */
  predicate PositiveRequests(reqs: seq<SaleItemRequest>)
  {
    forall i | 0 <= i < |reqs| :: reqs[i].quantity > 0
  }

  /**
   * What the service finds wrong with request line `i`, in the order it
   * looks: the item cannot be read, does not exist, or (when the stock is
   * checked) holds fewer units than the line asks.
   */
  function LineProblem(items: map<int, Item>, reqs: seq<SaleItemRequest>, i: int, checkStock: bool, readFault: ReadFault): Option<SaleError>
    requires 0 <= i < |reqs|
  {
    if readFault == ItemRead(i) then Some(StorageFailure)
    else if reqs[i].itemId !in items then Some(ItemNotFound)
    else if checkStock && items[reqs[i].itemId].stock < reqs[i].quantity then
      Some(InsufficientStockFor(items[reqs[i].itemId].name))
    else None
  }

  /** The line priced from the item table: the item's current price and price times quantity. */
  function PriceLine(items: map<int, Item>, req: SaleItemRequest): SaleItem
    requires req.itemId in items
  {
    var price := items[req.itemId].price;
    SaleItem(0, 0, req.itemId, req.quantity, price, price * req.quantity)
  }

  /** The lines priced one after the other, stopping at the first line with a problem. */
  function Pricing(items: map<int, Item>, reqs: seq<SaleItemRequest>, checkStock: bool, readFault: ReadFault): (r: Result<seq<SaleItem>, SaleError>)
    ensures r.Ok? ==> |r.value| == |reqs|
    ensures r.Err? ==> r.error in {StorageFailure, ItemNotFound} || r.error.InsufficientStockFor?
  {
    if reqs == [] then Ok([])
    else
      match Pricing(items, reqs[..|reqs| - 1], checkStock, readFault)
      case Err(e) => Err(e)
      case Ok(ls) =>
        match LineProblem(items, reqs, |reqs| - 1, checkStock, readFault)
        case Some(e) => Err(e)
        case None => Ok(ls + [PriceLine(items, reqs[|reqs| - 1])])
  }

  /** The sum of the subtotals of the lines. */
  function Sum(ls: seq<SaleItem>): int
  {
    if ls == [] then 0 else Sum(ls[..|ls| - 1]) + ls[|ls| - 1].subtotal
  }

  /**
   * Pricing succeeds exactly when no line has a problem, and then every line
   * carries its request's item and quantity, the item's price and price times
   * quantity; when it fails, the error is that of the first line with one.
   */
  lemma {:induction false} PricingSpec(items: map<int, Item>, reqs: seq<SaleItemRequest>, checkStock: bool, readFault: ReadFault)
    ensures var r := Pricing(items, reqs, checkStock, readFault);
      r.Ok? <==> forall i | 0 <= i < |reqs| :: LineProblem(items, reqs, i, checkStock, readFault) == None
    ensures var r := Pricing(items, reqs, checkStock, readFault);
      r.Ok? ==> forall i | 0 <= i < |reqs| ::
        && r.value[i].itemId == reqs[i].itemId && r.value[i].itemId in items
        && r.value[i].quantity == reqs[i].quantity
        && r.value[i].priceAtSale == items[reqs[i].itemId].price
        && r.value[i].subtotal == r.value[i].priceAtSale * r.value[i].quantity
    ensures var r := Pricing(items, reqs, checkStock, readFault);
      r.Err? ==> exists i | 0 <= i < |reqs| ::
        && LineProblem(items, reqs, i, checkStock, readFault) == Some(r.error)
        && forall j | 0 <= j < i :: LineProblem(items, reqs, j, checkStock, readFault) == None
  {
    if reqs != [] {
      var n := |reqs| - 1;
      var p := reqs[..n];
      PricingSpec(items, p, checkStock, readFault);
      forall i | 0 <= i < n
        ensures LineProblem(items, p, i, checkStock, readFault) == LineProblem(items, reqs, i, checkStock, readFault)
      {
      }
    }
  }

  /** A priced line keeps what the request asks: the same item and quantity, line by line. */
  lemma PricingDemand(items: map<int, Item>, reqs: seq<SaleItemRequest>, checkStock: bool, readFault: ReadFault)
    requires Pricing(items, reqs, checkStock, readFault).Ok?
    ensures var ls := Pricing(items, reqs, checkStock, readFault).value;
      Known(items, ls) && (PositiveRequests(reqs) ==> Positive(ls))
  {
    PricingSpec(items, reqs, checkStock, readFault);
  }

  /** Adding a line adds its subtotal. */
  lemma SumStep(ls: seq<SaleItem>, l: SaleItem)
    ensures Sum(ls + [l]) == Sum(ls) + l.subtotal
  {
    assert (ls + [l])[..|ls|] == ls;
  }

  /** Renumbering lines for storage keeps their total. */
  lemma {:induction false} SumNumbered(ls: seq<SaleItem>, saleId: int, firstId: int)
    ensures Sum(Numbered(ls, saleId, firstId)) == Sum(ls)
  {
    if ls != [] {
      var n := |ls| - 1;
      SumNumbered(ls[..n], saleId, firstId);
      assert Numbered(ls, saleId, firstId)[..n] == Numbered(ls[..n], saleId, firstId);
    }
  }

  /**
   * One pass of the pricing loop: the item lookup, the not-found check, the
   * stock pre-check when `checkStock`, and the priced line.
   */
  method PriceOne(items: map<int, Item>, reqs: seq<SaleItemRequest>, i: int, checkStock: bool, readFault: ReadFault)
    returns (r: Result<SaleItem, SaleError>)
    requires 0 <= i < |reqs|
    ensures r == match LineProblem(items, reqs, i, checkStock, readFault)
                 case Some(e) => Err(e)
                 case None => Ok(PriceLine(items, reqs[i]))
  {
    if readFault == ItemRead(i) {
      return Err(StorageFailure);
    }
    if reqs[i].itemId !in items {
      return Err(ItemNotFound);
    }
    var item := items[reqs[i].itemId];
    if checkStock && item.stock < reqs[i].quantity {
      return Err(InsufficientStockFor(item.name));
    }
    var subtotal := item.price * reqs[i].quantity;
    return Ok(SaleItem(0, 0, reqs[i].itemId, reqs[i].quantity, item.price, subtotal));
  }

  /**
   * Prices the request lines in order, reading each line's item and adding
   * its subtotal to the running total; the stock pre-check is made only when
   * `checkStock` (Create makes it, Update not).
   */
  method PriceLines(items: map<int, Item>, reqs: seq<SaleItemRequest>, checkStock: bool, readFault: ReadFault)
    returns (r: Result<(seq<SaleItem>, int), SaleError>)
    ensures r == match Pricing(items, reqs, checkStock, readFault)
                 case Err(e) => Err(e)
                 case Ok(ls) => Ok((ls, Sum(ls)))
  {
    var lines: seq<SaleItem> := [];
    var total := 0;
    var i := 0;
    assert reqs[..0] == [];
    while i < |reqs|
      invariant 0 <= i <= |reqs|
      invariant Pricing(items, reqs[..i], checkStock, readFault) == Ok(lines)
      invariant total == Sum(lines)
    {
      var priced := PriceOne(items, reqs, i, checkStock, readFault);
      PricingStep(items, reqs, i, checkStock, readFault, lines);
      if priced.Err? {
        PricingStops(items, reqs, i + 1, checkStock, readFault);
        return Err(priced.error);
      }
      SumStep(lines, priced.value);
      total := total + priced.value.subtotal;
      lines := lines + [priced.value];
      i := i + 1;
    }
    assert reqs[..i] == reqs;
    return Ok((lines, total));
  }

  /** Pricing one more line. */
  lemma PricingStep(items: map<int, Item>, reqs: seq<SaleItemRequest>, i: int, checkStock: bool, readFault: ReadFault, ls: seq<SaleItem>)
    requires 0 <= i < |reqs| && Pricing(items, reqs[..i], checkStock, readFault) == Ok(ls)
    ensures Pricing(items, reqs[..i + 1], checkStock, readFault)
      == match LineProblem(items, reqs, i, checkStock, readFault)
         case Some(e) => Err(e)
         case None => Ok(ls + [PriceLine(items, reqs[i])])
  {
    assert reqs[..i + 1][..i] == reqs[..i];
    assert LineProblem(items, reqs[..i + 1], i, checkStock, readFault) == LineProblem(items, reqs, i, checkStock, readFault);
  }

  /** Once pricing a prefix fails, pricing the whole request fails the same way. */
  lemma {:induction false} PricingStops(items: map<int, Item>, reqs: seq<SaleItemRequest>, k: int, checkStock: bool, readFault: ReadFault)
    requires 0 <= k <= |reqs| && Pricing(items, reqs[..k], checkStock, readFault).Err?
    ensures Pricing(items, reqs, checkStock, readFault) == Pricing(items, reqs[..k], checkStock, readFault)
    decreases |reqs| - k
  {
    if k == |reqs| {
      assert reqs[..k] == reqs;
    } else {
      assert reqs[..k + 1][..k] == reqs[..k];
      PricingStops(items, reqs, k + 1, checkStock, readFault);
    }
  }

  /** The result and tables after the service's Create(userID, items). */
  function CreateSaleSpec(t: Tables, nextSaleId: int, nextLineId: int, userId: int, reqs: seq<SaleItemRequest>,
                          readFault: ReadFault, fault: Fault): (r: (Result<Sale, SaleError>, Tables))
    ensures r.0 == Err(EmptySale) <==> reqs == []
    ensures reqs != [] && Pricing(t.items, reqs, true, readFault).Err? ==> r == (Err(Pricing(t.items, reqs, true, readFault).error), t)
    ensures r.0.Err? ==> r.1 == t
    ensures r.0.Ok? ==>
      && Pricing(t.items, reqs, true, readFault).Ok?
      && var ls := Pricing(t.items, reqs, true, readFault).value;
      && r.0.value == Sale(nextSaleId, userId, Sum(ls), false)
      && Decrement(t.items, ls).Applied? && r.1.items == Decrement(t.items, ls).items
      && r.1.sales == t.sales[nextSaleId := r.0.value]
      && r.1.lines == t.lines[nextSaleId := Numbered(ls, nextSaleId, nextLineId)]
    ensures (fault == NoFault && reqs != [] && Pricing(t.items, reqs, true, readFault).Ok?
             && Decrement(t.items, Pricing(t.items, reqs, true, readFault).value).Short?) ==>
      r == (Err(InsufficientStock), t)
    ensures readFault == NoReadFault && fault == NoFault ==>
      (r.0.Ok? <==>
        && reqs != [] && Pricing(t.items, reqs, true, NoReadFault).Ok?
        && Decrement(t.items, Pricing(t.items, reqs, true, NoReadFault).value).Applied?)
  {
    if reqs == [] then (Err(EmptySale), t)
    else
      match Pricing(t.items, reqs, true, readFault)
      case Err(e) => (Err(e), t)
      case Ok(ls) =>
        var x := CreateSpec(t, nextSaleId, nextLineId, userId, Sum(ls), ls, fault);
        (if x.0.Ok? then Ok(x.0.value.0) else Err(x.0.error), x.1)
  }

  /** The result and tables after the service's Update(id, items): no stock pre-check here. */
  function UpdateSaleSpec(t: Tables, nextLineId: int, id: int, reqs: seq<SaleItemRequest>,
                          readFault: ReadFault, fault: Fault): (r: (Outcome<SaleError>, Tables))
    ensures r.0 == Fail(EmptySale) <==> reqs == []
    ensures reqs != [] && readFault != SaleRead && !Live(t, id) ==> r == (Fail(SaleNotFound), t)
    ensures r.0.Fail? ==> r.1 == t
    ensures r.0.Pass? ==>
      && Live(t, id) && Pricing(t.items, reqs, false, readFault).Ok?
      && var ls := Pricing(t.items, reqs, false, readFault).value;
      && Decrement(Restore(t.items, LinesOf(t, id)), ls).Applied?
      && r.1.items == Decrement(Restore(t.items, LinesOf(t, id)), ls).items
      && r.1.sales == t.sales[id := t.sales[id].(totalAmount := Sum(ls))]
      && r.1.lines == t.lines[id := Numbered(ls, id, nextLineId)]
    ensures (fault == NoFault && reqs != [] && readFault != SaleRead && Live(t, id)
             && Pricing(t.items, reqs, false, readFault).Ok?
             && Decrement(Restore(t.items, LinesOf(t, id)), Pricing(t.items, reqs, false, readFault).value).Short?) ==>
      r == (Fail(InsufficientStock), t)
    ensures readFault == NoReadFault && fault == NoFault ==>
      (r.0.Pass? <==>
        && reqs != [] && Live(t, id) && Pricing(t.items, reqs, false, NoReadFault).Ok?
        && Decrement(Restore(t.items, LinesOf(t, id)), Pricing(t.items, reqs, false, NoReadFault).value).Applied?)
  {
    if reqs == [] then (Fail(EmptySale), t)
    else if readFault == SaleRead then (Fail(StorageFailure), t)
    else if !Live(t, id) then (Fail(SaleNotFound), t)
    else
      match Pricing(t.items, reqs, false, readFault)
      case Err(e) => (Fail(e), t)
      case Ok(ls) =>
        UpdateAllOrNothing(t, nextLineId, id, Sum(ls), ls, fault);
        UpdateSpec(t, nextLineId, id, Sum(ls), ls, fault)
  }

  /** The result and tables after the service's Delete(id). */
  function DeleteSaleSpec(t: Tables, id: int, readFault: ReadFault, fault: Fault): (r: (Outcome<SaleError>, Tables))
    ensures readFault != SaleRead && !Live(t, id) ==> r == (Fail(SaleNotFound), t)
    ensures r.0.Fail? ==> r.1 == t
    ensures r.0.Pass? ==>
      && Live(t, id) && !Live(r.1, id) && id !in r.1.lines
      && r.1.items == Restore(t.items, LinesOf(t, id))
      && r.1.sales == t.sales[id := t.sales[id].(deleted := true)]
    ensures readFault != SaleRead && fault == NoFault ==> (r.0.Pass? <==> Live(t, id))
  {
    if readFault == SaleRead then (Fail(StorageFailure), t)
    else if !Live(t, id) then (Fail(SaleNotFound), t)
    else DeleteSpec(t, id, fault)
  }

  /** Every sale that has lines records as its total the sum of their subtotals. */
  predicate TotalsMatch(t: Tables)
  {
    forall s | s in t.lines :: s in t.sales && t.sales[s].totalAmount == Sum(t.lines[s])
  }

  /** A sale created through the service records the sum of its lines' subtotals; other sales keep theirs. */
  lemma CreateSaleKeepsTotals(t: Tables, nextSaleId: int, nextLineId: int, userId: int, reqs: seq<SaleItemRequest>,
                              readFault: ReadFault, fault: Fault)
    requires TotalsMatch(t) && Consistent(t, nextSaleId, nextLineId)
    ensures TotalsMatch(CreateSaleSpec(t, nextSaleId, nextLineId, userId, reqs, readFault, fault).1)
  {
    if reqs != [] && Pricing(t.items, reqs, true, readFault).Ok? {
      var ls := Pricing(t.items, reqs, true, readFault).value;
      SumNumbered(ls, nextSaleId, nextLineId);
    }
  }

  /** An update through the service records the sum of the new lines' subtotals. */
  lemma UpdateSaleKeepsTotals(t: Tables, nextLineId: int, id: int, reqs: seq<SaleItemRequest>, readFault: ReadFault, fault: Fault)
    requires TotalsMatch(t)
    ensures TotalsMatch(UpdateSaleSpec(t, nextLineId, id, reqs, readFault, fault).1)
  {
    if reqs != [] && readFault != SaleRead && Live(t, id) && Pricing(t.items, reqs, false, readFault).Ok? {
      var ls := Pricing(t.items, reqs, false, readFault).value;
      SumNumbered(ls, id, nextLineId);
    }
  }

  /** A deleted sale loses its lines, so what is left still matches. */
  lemma DeleteSaleKeepsTotals(t: Tables, id: int, readFault: ReadFault, fault: Fault)
    requires TotalsMatch(t)
    ensures TotalsMatch(DeleteSaleSpec(t, id, readFault, fault).1)
  {
  }

  /** Request lines that all name different items. */
  predicate DistinctItems(reqs: seq<SaleItemRequest>)
  {
    forall i, j | 0 <= i < j < |reqs| :: reqs[i].itemId != reqs[j].itemId
  }

  /**
   * When every line names a different item, the service's per-line stock
   * pre-check is enough: the repository's guarded decrements all apply.
   */
  lemma PrecheckSufficesForDistinctItems(items: map<int, Item>, reqs: seq<SaleItemRequest>, readFault: ReadFault)
    requires DistinctItems(reqs) && Pricing(items, reqs, true, readFault).Ok?
    ensures Decrement(items, Pricing(items, reqs, true, readFault).value).Applied?
  {
    var ls := Pricing(items, reqs, true, readFault).value;
    PricingSpec(items, reqs, true, readFault);
    DecrementSpec(items, ls);
    forall i | 0 <= i < |ls|
      ensures Fits(items, ls, i)
    {
      assert LineProblem(items, reqs, i, true, readFault) == None;
      QtyOfAbsent(ls[..i], ls[i].itemId);
    }
  }

  /**
   * A request naming the same item twice can pass the per-line pre-check and
   * still be refused by the repository: with 5 units in stock, two lines of 3
   * each pass the check, and the second guarded decrement finds only 2 units.
   */
  lemma RepeatedItemPassesPrecheck()
    ensures var items := map[1 := Item("B-1", "bolt", 1, 1, 5, 0, 100)];
      var reqs := [SaleItemRequest(1, 3), SaleItemRequest(1, 3)];
      && Pricing(items, reqs, true, NoReadFault).Ok?
      && CreateSaleSpec(Tables(items, map[], map[]), 1, 1, 7, reqs, NoReadFault, NoFault).0 == Err(InsufficientStock)
  {
    var items := map[1 := Item("B-1", "bolt", 1, 1, 5, 0, 100)];
    var reqs := [SaleItemRequest(1, 3), SaleItemRequest(1, 3)];
    assert reqs[..0] == [];
    PricingStep(items, reqs, 0, true, NoReadFault, []);
    assert LineProblem(items, reqs, 0, true, NoReadFault) == None;
    assert [] + [PriceLine(items, reqs[0])] == [PriceLine(items, reqs[0])];
    PricingStep(items, reqs, 1, true, NoReadFault, [PriceLine(items, reqs[0])]);
    assert reqs[..2] == reqs;
    var ls := Pricing(items, reqs, true, NoReadFault).value;
    SameItemTwice(items, ls[0], ls[1]);
    assert Decrement(items, ls).Short?;
  }

  /**
   * The service's Create: refuses an empty request, prices the lines with the
   * stock pre-check, and stores the sale with their total.
   */
  method CreateSale(store: SaleStore, userId: int, reqs: seq<SaleItemRequest>, readFault: ReadFault, fault: Fault)
    returns (r: Result<Sale, SaleError>)
    requires store.Valid() && PositiveRequests(reqs)
    modifies store
    ensures store.Valid()
    ensures (r, store.State()) == CreateSaleSpec(old(store.State()), old(store.nextSaleId), old(store.nextLineId), userId, reqs, readFault, fault)
  {
    if |reqs| == 0 {
      return Err(EmptySale);
    }
    var priced := PriceLines(store.items, reqs, true, readFault);
    if priced.Err? {
      return Err(priced.error);
    }
    var (lines, total) := priced.value;
    PricingDemand(store.items, reqs, true, readFault);
    var stored := store.Create(userId, total, lines, fault);
    if stored.Err? {
      return Err(stored.error);
    }
    return Ok(stored.value.0);
  }

  /**
   * The service's Update: refuses an empty request or a sale that is not
   * live, prices the lines without a stock pre-check, and lets the
   * repository replace the sale's lines and total.
   */
  method UpdateSale(store: SaleStore, id: int, reqs: seq<SaleItemRequest>, readFault: ReadFault, fault: Fault)
    returns (r: Outcome<SaleError>)
    requires store.Valid() && PositiveRequests(reqs)
    modifies store
    ensures store.Valid()
    ensures (r, store.State()) == UpdateSaleSpec(old(store.State()), old(store.nextLineId), id, reqs, readFault, fault)
  {
    if |reqs| == 0 {
      return Fail(EmptySale);
    }
    if readFault == SaleRead {
      return Fail(StorageFailure);
    }
    var existing := store.FindByID(id);
    if existing.None? {
      return Fail(SaleNotFound);
    }
    var priced := PriceLines(store.items, reqs, false, readFault);
    if priced.Err? {
      return Fail(priced.error);
    }
    var (lines, total) := priced.value;
    PricingDemand(store.items, reqs, false, readFault);
    r := store.Update(id, total, lines, fault);
  }

  /** The service's Delete: refuses a sale that is not live, then lets the repository delete it. */
  method DeleteSale(store: SaleStore, id: int, readFault: ReadFault, fault: Fault) returns (r: Outcome<SaleError>)
    requires store.Valid()
    modifies store
    ensures store.Valid()
    ensures (r, store.State()) == DeleteSaleSpec(old(store.State()), id, readFault, fault)
  {
    if readFault == SaleRead {
      return Fail(StorageFailure);
    }
    var existing := store.FindByID(id);
    if existing.None? {
      return Fail(SaleNotFound);
    }
    r := store.Delete(id, fault);
  }

  /**
   * The service's GetSaleByID: the header of a live sale with its lines in
   * id order; "sale not found" for an absent or deleted one.
   */
  function GetSaleByID(store: SaleStore, id: int, readFault: ReadFault): (r: Result<(Sale, seq<SaleItem>), SaleError>)
    reads store
    requires store.Valid()
    ensures r.Ok? <==> readFault != SaleRead && readFault != LinesRead && Live(store.State(), id)
    ensures r == Err(SaleNotFound) <==> readFault != SaleRead && !Live(store.State(), id)
    ensures r.Ok? ==> r.value.0 == store.sales[id] && r.value.0.id == id && !r.value.0.deleted
    ensures r.Ok? ==> forall i | 0 <= i < |r.value.1| :: r.value.1[i].saleId == id
    ensures r.Ok? ==> forall i, j | 0 <= i < j < |r.value.1| :: r.value.1[i].id < r.value.1[j].id
    ensures r.Ok? ==> forall i | 0 <= i < |r.value.1| :: id in store.lines && r.value.1[i] in store.lines[id]
    ensures r.Ok? ==> forall s, i | s in store.lines && 0 <= i < |store.lines[s]| && store.lines[s][i].saleId == id ::
      store.lines[s][i] in r.value.1
  {
    if readFault == SaleRead then Err(StorageFailure)
    else match store.FindByID(id)
      case None => Err(SaleNotFound)
      case Some(sale) =>
        if readFault == LinesRead then Err(StorageFailure)
        else Ok((sale, store.FindSaleItems(id)))
  }

  /**
   * The service's GetAllSales: the repository's page and a pagination record
   * echoing the page number and size with the count of all live sales.
   */
  function GetAllSales(store: SaleStore, page: int, limit: int): (r: Result<(seq<Sale>, Pagination), SaleError>)
    reads store
    requires store.Valid()
    ensures r.Err? <==> (page - 1) * limit < 0 || limit < 0
    ensures r.Ok? ==> r.value.1 == Pagination(page, limit, |LiveIds(store.sales, store.nextSaleId)|)
    ensures r.Ok? ==> |r.value.0| <= limit
    ensures r.Ok? ==> |r.value.0| == Clamp(r.value.1.totalRecords - (page - 1) * limit, limit)
    ensures r.Ok? ==> forall i | 0 <= i < |r.value.0| ::
      var x := r.value.0[i]; x.id in store.sales && store.sales[x.id] == x && !x.deleted
    ensures r.Ok? ==> forall i, j | 0 <= i < j < |r.value.0| :: r.value.0[i].id > r.value.0[j].id
    ensures r.Ok? ==> forall i | 0 <= i < |r.value.0| ::
      |Newer(store.sales, store.nextSaleId, r.value.0[i].id)| == (page - 1) * limit + i
  {
    match store.FindAll(page, limit)
    case Err(e) => Err(e)
    case Ok((rows, total)) => Ok((rows, Pagination(page, limit, total)))
  }
}
