/**
 * The sale repository: three tables (item stock, sale headers, sale lines)
 * that Create, Update and Delete change as all-or-nothing units of work.
 *
 * Each unit of work is specified by a function from the tables before to the
 * result and the tables after (CreateSpec, UpdateSpec, DeleteSpec); the class
 * methods below do the work statement by statement, as the repository does,
 * and restore a snapshot on every failing path, as the deferred rollback does.
 */
module SaleRepository {
  import opened Results
  import opened Model
  import opened Ledger

  /**
   * Which statement of a unit of work the database fails, if any. The
   * statements are numbered from 0 (BEGIN) in the order they are issued.
   */
  datatype Fault = NoFault | FailAt(step: nat)

  predicate FailsAt(f: Fault, step: int)
  {
    f.FailAt? && f.step == step
  }

  /** The fault falls on one of the first `n` statements. */
  predicate HitsBefore(f: Fault, n: int)
  {
    f.FailAt? && f.step < n
  }

  /** The three tables a unit of work spans. */
  datatype Tables = Tables(
    items: map<int, Item>,
    sales: map<int, Sale>,
    lines: map<int, seq<SaleItem>>)

  /** The sale exists and has not been soft-deleted. */
  predicate Live(t: Tables, id: int)
  {
    id in t.sales && !t.sales[id].deleted
  }

  /** The lines stored for a sale; none when it has no rows. */
  function LinesOf(t: Tables, id: int): seq<SaleItem>
  {
    if id in t.lines then t.lines[id] else []
  }

  /** The rows of one sale: known items, positive quantities, this sale's id, ids drawn before `nextLineId`, ascending. */
  predicate WellFormed(ls: seq<SaleItem>, saleId: int, items: map<int, Item>, nextLineId: int)
  {
    Known(items, ls) && Positive(ls) &&
    (forall i | 0 <= i < |ls| :: ls[i].saleId == saleId && ls[i].id < nextLineId) &&
    (forall i, j | 0 <= i < j < |ls| :: ls[i].id < ls[j].id)
  }

  /**
   * The invariant of the tables: no negative stock; each header is stored
   * under its id, drawn before `nextSaleId`; only live sales have lines.
   */
  predicate Consistent(t: Tables, nextSaleId: int, nextLineId: int)
  {
    1 <= nextSaleId && NonNegative(t.items) &&
    (forall s | s in t.sales :: t.sales[s].id == s && 1 <= s < nextSaleId) &&
    (forall s | s in t.lines :: Live(t, s) && WellFormed(t.lines[s], s, t.items, nextLineId))
  }

  /** Stock of item `k` plus what the lines of all sales hold of it: what sales move but never create or destroy. */
  function OnHand(t: Tables, nextSaleId: int, k: int): int
    requires k in t.items
  {
    t.items[k].stock + Held(t.lines, nextSaleId, k)
  }

  /** The rows written for request lines: ids drawn in order from `firstId`, all tied to sale `saleId`. */
  function Numbered(ls: seq<SaleItem>, saleId: int, firstId: int): (r: seq<SaleItem>)
    ensures SameDemand(ls, r)
    ensures forall i | 0 <= i < |r| :: r[i].saleId == saleId && r[i].id == firstId + i
  {
    seq(|ls|, i requires 0 <= i < |ls| => ls[i].(id := firstId + i, saleId := saleId))
  }

  /**
   * Statements issued until the outcome is settled when the line statements
   * start at statement `base`: an insert and a guarded decrement per line,
   * then COMMIT when all lines applied; up to the failing decrement otherwise.
   */
  function RunSteps(base: int, d: Decremented, n: nat): int
  {
    match d
    case Applied(_) => base + 2 * n + 1
    case Short(j) => base + 2 * j + 2
  }

  /** A statement issued while working on line `i` (or the COMMIT) comes before the outcome is settled. */
  lemma RunReaches(items: map<int, Item>, req: seq<SaleItem>, i: int, base: int, step: int)
    requires 0 <= i <= |req| && Decrement(items, req[..i]).Applied?
    requires step <= base + 2 * i + 1 && (i == |req| ==> step <= base + 2 * i)
    ensures step < RunSteps(base, Decrement(items, req), |req|)
  {
    DecrementPrefix(items, req, i);
    if i == |req| {
      assert req[..i] == req;
    }
  }

  /** The rows for one more request line. */
  lemma NumberedStep(ls: seq<SaleItem>, i: int, saleId: int, firstId: int)
    requires 0 <= i < |ls|
    ensures Numbered(ls[..i + 1], saleId, firstId)
         == Numbered(ls[..i], saleId, firstId) + [ls[i].(id := firstId + i, saleId := saleId)]
  {
  }

  /** Statements Delete issues before its outcome is settled, with `m` lines. */
  function DeleteSteps(live: bool, m: nat): nat
  {
    if live then m + 5 else m + 4  // BEGIN, read, m restores, delete lines, soft delete, COMMIT
  }

  /** The result and the tables after Create(sale, lines): everything or nothing. */
  function CreateSpec(t: Tables, nextSaleId: int, nextLineId: int, userId: int, totalAmount: int,
                      req: seq<SaleItem>, fault: Fault): (r: (Result<(Sale, seq<SaleItem>), SaleError>, Tables))
    ensures r.0.Err? ==> r.1 == t && r.0.error in {StorageFailure, InsufficientStock}
    ensures fault == NoFault ==> (r.0.Ok? <==> Decrement(t.items, req).Applied?)
    ensures fault == NoFault && r.0.Err? ==> r.0.error == InsufficientStock
    ensures r.0.Ok? ==>
      && r.0.value.0 == Sale(nextSaleId, userId, totalAmount, false)
      && |r.0.value.1| == |req|
      && (forall i | 0 <= i < |req| ::
            r.0.value.1[i] == req[i].(id := nextLineId + i, saleId := nextSaleId))
      && Decrement(t.items, req).Applied? && r.1.items == Decrement(t.items, req).items
      && r.1.sales == t.sales[nextSaleId := r.0.value.0]
      && r.1.lines == t.lines[nextSaleId := r.0.value.1]
  {
    var d := Decrement(t.items, req);
    if HitsBefore(fault, RunSteps(2, d, |req|)) then (Err(StorageFailure), t)
    else if d.Short? then (Err(InsufficientStock), t)
    else
      var header := Sale(nextSaleId, userId, totalAmount, false);
      var rows := Numbered(req, nextSaleId, nextLineId);
      (Ok((header, rows)), Tables(d.items, t.sales[nextSaleId := header], t.lines[nextSaleId := rows]))
  }

  /** The result and the tables after Update(id, sale, lines): restore the old lines, replace them, take the new ones. */
  function UpdateSpec(t: Tables, nextLineId: int, id: int, totalAmount: int,
                      req: seq<SaleItem>, fault: Fault): (Outcome<SaleError>, Tables)
  {
    var olds := LinesOf(t, id);
    var d := Decrement(Restore(t.items, olds), req);
    var settled := if Live(t, id) then RunSteps(|olds| + 4, d, |req|) else |olds| + 4;
    if HitsBefore(fault, settled) then (Fail(StorageFailure), t)
    else if !Live(t, id) then (Fail(SaleNotFound), t)
    else if d.Short? then (Fail(InsufficientStock), t)
    else
      (Pass, Tables(d.items,
                    t.sales[id := t.sales[id].(totalAmount := totalAmount)],
                    t.lines[id := Numbered(req, id, nextLineId)]))
  }

  /** The result and the tables after Delete(id): restore the lines, drop them, soft-delete the header. */
  function DeleteSpec(t: Tables, id: int, fault: Fault): (r: (Outcome<SaleError>, Tables))
    ensures r.0.Fail? ==> r.1 == t
    ensures fault == NoFault ==> (r.0.Pass? <==> Live(t, id)) && (r.0.Fail? ==> r.0.error == SaleNotFound)
    ensures r.0.Pass? ==>
      && Live(t, id) && !Live(r.1, id)
      && r.1.items == Restore(t.items, LinesOf(t, id))
      && r.1.sales == t.sales[id := t.sales[id].(deleted := true)]
      && r.1.lines == t.lines - {id}
  {
    var olds := LinesOf(t, id);
    if HitsBefore(fault, DeleteSteps(Live(t, id), |olds|)) then (Fail(StorageFailure), t)
    else if !Live(t, id) then (Fail(SaleNotFound), t)
    else (Pass, Tables(Restore(t.items, olds), t.sales[id := t.sales[id].(deleted := true)], t.lines - {id}))
  }

  /**
   * Update is all or nothing: a failure leaves the tables as they were; on a
   * sale that is absent or soft-deleted it fails with "sale not found"; on a
   * live one it succeeds exactly when the new lines fit the stock restored by
   * the old ones, and then replaces the total and the lines.
   */
  lemma UpdateAllOrNothing(t: Tables, nextLineId: int, id: int, totalAmount: int, req: seq<SaleItem>, fault: Fault)
    ensures var r := UpdateSpec(t, nextLineId, id, totalAmount, req, fault);
      && (r.0.Fail? ==> r.1 == t)
      && (fault == NoFault && !Live(t, id) ==> r.0 == Fail(SaleNotFound))
      && (fault == NoFault && Live(t, id) ==> (r.0.Pass? <==> Decrement(Restore(t.items, LinesOf(t, id)), req).Applied?))
      && (fault == NoFault && Live(t, id) && r.0.Fail? ==> r.0.error == InsufficientStock)
      && (r.0.Pass? ==>
            && Live(t, id) && Decrement(Restore(t.items, LinesOf(t, id)), req).Applied?
            && r.1.items == Decrement(Restore(t.items, LinesOf(t, id)), req).items
            && r.1.sales == t.sales[id := t.sales[id].(totalAmount := totalAmount)]
            && r.1.lines == t.lines[id := Numbered(req, id, nextLineId)])
  {
  }

  /** CreateSpec on a run whose lines were all written and committed. */
  lemma CreateCommitted(t: Tables, s: int, l: int, userId: int, totalAmount: int, req: seq<SaleItem>, fault: Fault, m: map<int, Item>)
    requires Decrement(t.items, req) == Applied(m) && !HitsBefore(fault, 2 * |req| + 3)
    ensures var header := Sale(s, userId, totalAmount, false);
      CreateSpec(t, s, l, userId, totalAmount, req, fault)
        == (Ok((header, Numbered(req, s, l))), Tables(m, t.sales[s := header], t.lines[s := Numbered(req, s, l)]))
  {
  }

  /** CreateSpec on a run that the line statements stopped. */
  lemma CreateStopped(t: Tables, s: int, l: int, userId: int, totalAmount: int, req: seq<SaleItem>, fault: Fault, e: SaleError)
    requires var d := Decrement(t.items, req);
      Fail(e) == if HitsBefore(fault, RunSteps(2, d, |req|)) then Fail(StorageFailure)
                 else if d.Short? then Fail(InsufficientStock) else Pass
    ensures CreateSpec(t, s, l, userId, totalAmount, req, fault) == (Err(e), t)
  {
  }

  /** UpdateSpec on a run that got past the old lines and was then decided by the header and the new lines. */
  lemma UpdateDecided(t: Tables, l: int, id: int, totalAmount: int, req: seq<SaleItem>, fault: Fault, r: Outcome<SaleError>)
    requires !HitsBefore(fault, |LinesOf(t, id)| + 3)
    requires var base := |LinesOf(t, id)| + 3;
      var d := Decrement(Restore(t.items, LinesOf(t, id)), req);
      r == if HitsBefore(fault, base + 1) then Fail(StorageFailure)
           else if !Live(t, id) then Fail(SaleNotFound)
           else if HitsBefore(fault, RunSteps(base + 1, d, |req|)) then Fail(StorageFailure)
           else if d.Short? then Fail(InsufficientStock) else Pass
    ensures r == UpdateSpec(t, l, id, totalAmount, req, fault).0
    ensures r.Fail? ==> UpdateSpec(t, l, id, totalAmount, req, fault).1 == t
    ensures r.Pass? ==>
      UpdateSpec(t, l, id, totalAmount, req, fault).1
        == Tables(Decrement(Restore(t.items, LinesOf(t, id)), req).items,
                  t.sales[id := t.sales[id].(totalAmount := totalAmount)],
                  t.lines[id := Numbered(req, id, l)])
  {
  }

  /** Larger id counters keep the invariant and the amounts on hand. */
  lemma {:induction false} CountersAdvance(t: Tables, s: int, l: int, s': int, l': int)
    requires Consistent(t, s, l) && s <= s' && l <= l'
    ensures Consistent(t, s', l')
    ensures forall k | k in t.items :: OnHand(t, s', k) == OnHand(t, s, k)
  {
    forall k | k in t.items
      ensures Held(t.lines, s', k) == Held(t.lines, s, k)
    {
      HeldBeyond(t, s, s', k);
    }
  }

  lemma {:induction false} HeldBeyond(t: Tables, s: int, s': int, k: int)
    requires forall id | id in t.lines :: id < s
    requires s <= s'
    ensures Held(t.lines, s', k) == Held(t.lines, s, k)
    decreases s' - s
  {
    if s < s' {
      HeldBeyond(t, s, s' - 1, k);
    }
  }

  lemma CreateKeepsInvariant(t: Tables, s: int, l: int, header: Sale, req: seq<SaleItem>, m: map<int, Item>)
    requires Consistent(t, s, l) && Positive(req) && Decrement(t.items, req) == Applied(m)
    requires header.id == s && !header.deleted
    ensures Consistent(Tables(m, t.sales[s := header], t.lines[s := Numbered(req, s, l)]), s + 1, l + |req|)
  {
    DecrementSpec(t.items, req);
    var rows := Numbered(req, s, l);
    var t' := Tables(m, t.sales[s := header], t.lines[s := rows]);
    forall i | 0 <= i < |rows|
      ensures rows[i].itemId in m
    {
      assert Fits(t.items, req, i);
    }
    forall x | x in t'.lines
      ensures Live(t', x) && WellFormed(t'.lines[x], x, m, l + |req|)
    {
      if x != s {
        assert WellFormed(t.lines[x], x, t.items, l);
      }
    }
  }

  lemma CreateConserves(t: Tables, s: int, l: int, header: Sale, req: seq<SaleItem>, m: map<int, Item>)
    requires Consistent(t, s, l) && Decrement(t.items, req) == Applied(m)
    ensures m.Keys == t.items.Keys
    ensures forall k | k in t.items ::
      && m[k].stock == t.items[k].stock - QtyOf(req, k)
      && OnHand(Tables(m, t.sales[s := header], t.lines[s := Numbered(req, s, l)]), s + 1, k) == OnHand(t, s, k)
  {
    DecrementSpec(t.items, req);
    var t' := Tables(m, t.sales[s := header], t.lines[s := Numbered(req, s, l)]);
    forall k | k in t.items
      ensures OnHand(t', s + 1, k) == OnHand(t, s, k)
    {
      HeldSame(t.lines, t'.lines, s, k);
      QtyOfSameDemand(req, Numbered(req, s, l), k);
    }
  }

  /**
   * A successful Create keeps the invariant, stores the sale under an id no
   * sale had, takes from each item's stock exactly what the request asks of
   * it, and conserves, for every item, stock plus the units sale lines hold.
   */
  lemma CreatePreserves(t: Tables, s: int, l: int, userId: int, totalAmount: int, req: seq<SaleItem>, fault: Fault)
    requires Consistent(t, s, l) && Positive(req)
    ensures var x := CreateSpec(t, s, l, userId, totalAmount, req, fault);
      x.0.Ok? ==>
        && s !in t.sales
        && Consistent(x.1, s + 1, l + |req|)
        && x.1.items.Keys == t.items.Keys
        && (forall k | k in t.items ::
              x.1.items[k].stock == t.items[k].stock - QtyOf(req, k) && OnHand(x.1, s + 1, k) == OnHand(t, s, k))
  {
    var d := Decrement(t.items, req);
    if d.Applied? {
      var header := Sale(s, userId, totalAmount, false);
      CreateKeepsInvariant(t, s, l, header, req, d.items);
      CreateConserves(t, s, l, header, req, d.items);
    }
  }

  lemma UpdateKeepsInvariant(t: Tables, s: int, l: int, id: int, totalAmount: int, req: seq<SaleItem>, m: map<int, Item>)
    requires Consistent(t, s, l) && Positive(req) && Live(t, id)
    requires Decrement(Restore(t.items, LinesOf(t, id)), req) == Applied(m)
    ensures Consistent(Tables(m, t.sales[id := t.sales[id].(totalAmount := totalAmount)],
                              t.lines[id := Numbered(req, id, l)]), s, l + |req|)
  {
    var olds := LinesOf(t, id);
    var restored := Restore(t.items, olds);
    RestoreKeeps(t.items, olds);
    DecrementSpec(restored, req);
    var rows := Numbered(req, id, l);
    var t' := Tables(m, t.sales[id := t.sales[id].(totalAmount := totalAmount)], t.lines[id := rows]);
    forall i | 0 <= i < |rows|
      ensures rows[i].itemId in m
    {
      assert Fits(restored, req, i);
    }
    forall x | x in t'.lines
      ensures Live(t', x) && WellFormed(t'.lines[x], x, m, l + |req|)
    {
      if x != id {
        assert WellFormed(t.lines[x], x, t.items, l);
      }
    }
  }

  lemma UpdateConserves(t: Tables, s: int, l: int, id: int, totalAmount: int, req: seq<SaleItem>, m: map<int, Item>)
    requires Consistent(t, s, l) && Live(t, id)
    requires Decrement(Restore(t.items, LinesOf(t, id)), req) == Applied(m)
    ensures m.Keys == t.items.Keys
    ensures forall k | k in t.items ::
      && m[k].stock == t.items[k].stock + QtyOf(LinesOf(t, id), k) - QtyOf(req, k)
      && OnHand(Tables(m, t.sales[id := t.sales[id].(totalAmount := totalAmount)],
                       t.lines[id := Numbered(req, id, l)]), s, k) == OnHand(t, s, k)
  {
    var olds := LinesOf(t, id);
    RestoreSpec(t.items, olds);
    DecrementSpec(Restore(t.items, olds), req);
    var t' := Tables(m, t.sales[id := t.sales[id].(totalAmount := totalAmount)], t.lines[id := Numbered(req, id, l)]);
    forall k | k in t.items
      ensures OnHand(t', s, k) == OnHand(t, s, k)
    {
      HeldChange(t.lines, t'.lines, id, s, k);
      QtyOfSameDemand(req, Numbered(req, id, l), k);
    }
  }

  /**
   * A successful Update keeps the invariant, gives back what the old lines
   * held and takes what the new ones ask, so stock plus held units is
   * conserved for every item.
   */
  lemma UpdatePreserves(t: Tables, s: int, l: int, id: int, totalAmount: int, req: seq<SaleItem>, fault: Fault)
    requires Consistent(t, s, l) && Positive(req)
    ensures var x := UpdateSpec(t, l, id, totalAmount, req, fault);
      x.0.Pass? ==>
        && Consistent(x.1, s, l + |req|)
        && x.1.items.Keys == t.items.Keys
        && (forall k | k in t.items ::
              && x.1.items[k].stock == t.items[k].stock + QtyOf(LinesOf(t, id), k) - QtyOf(req, k)
              && OnHand(x.1, s, k) == OnHand(t, s, k))
  {
    var d := Decrement(Restore(t.items, LinesOf(t, id)), req);
    if Live(t, id) && d.Applied? {
      UpdateKeepsInvariant(t, s, l, id, totalAmount, req, d.items);
      UpdateConserves(t, s, l, id, totalAmount, req, d.items);
    }
  }

  /**
   * A successful Delete keeps the invariant, gives back to stock exactly what
   * the sale's lines held, conserves stock plus held units, and leaves the
   * sale soft-deleted without lines.
   */
  lemma DeletePreserves(t: Tables, s: int, l: int, id: int, fault: Fault)
    requires Consistent(t, s, l)
    ensures var x := DeleteSpec(t, id, fault);
      x.0.Pass? ==>
        && Consistent(x.1, s, l)
        && !Live(x.1, id) && id in x.1.sales && LinesOf(x.1, id) == []
        && x.1.items.Keys == t.items.Keys
        && (forall k | k in t.items ::
              x.1.items[k].stock == t.items[k].stock + QtyOf(LinesOf(t, id), k) && OnHand(x.1, s, k) == OnHand(t, s, k))
  {
    var x := DeleteSpec(t, id, fault);
    if x.0.Pass? {
      var olds := LinesOf(t, id);
      RestoreSpec(t.items, olds);
      RestoreKeeps(t.items, olds);
      forall k | k in t.items
        ensures OnHand(x.1, s, k) == OnHand(t, s, k)
      {
        HeldChange(t.lines, x.1.lines, id, s, k);
      }
      forall y | y in x.1.lines
        ensures Live(x.1, y) && WellFormed(x.1.lines[y], y, x.1.items, l)
      {
        assert WellFormed(t.lines[y], y, t.items, l);
      }
    }
  }

  /**
   * Updating a live sale with lines that ask for the same items in the same
   * quantities as its current lines, when the database does not fail,
   * succeeds and leaves every item's stock as it was.
   */
  lemma UpdateSameLines(t: Tables, s: int, l: int, id: int, totalAmount: int, req: seq<SaleItem>)
    requires Consistent(t, s, l) && Live(t, id)
    requires SameDemand(LinesOf(t, id), req)
    ensures UpdateSpec(t, l, id, totalAmount, req, NoFault).0 == Pass
    ensures UpdateSpec(t, l, id, totalAmount, req, NoFault).1.items == t.items
  {
    RestoreThenDecrement(t.items, LinesOf(t, id), req);
  }

  /** The live sales with an id below `n`, newest first. */
  function LiveNewestFirst(sales: map<int, Sale>, n: int): (r: seq<Sale>)
    requires forall s | s in sales :: sales[s].id == s
    ensures forall i | 0 <= i < |r| :: 0 <= r[i].id < n && r[i].id in sales && sales[r[i].id] == r[i] && !r[i].deleted
    ensures forall i, j | 0 <= i < j < |r| :: r[i].id > r[j].id
    decreases n
  {
    if n <= 0 then []
    else (if n - 1 in sales && !sales[n - 1].deleted then [sales[n - 1]] else []) + LiveNewestFirst(sales, n - 1)
  }

  /** Every live sale below `n` is in the newest-first list. */
  lemma {:induction false} NewestFirstComplete(sales: map<int, Sale>, n: int, s: int)
    requires forall x | x in sales :: sales[x].id == x
    requires s in sales && 0 <= s < n && !sales[s].deleted
    ensures sales[s] in LiveNewestFirst(sales, n)
    decreases n
  {
    var rest := LiveNewestFirst(sales, n - 1);
    if s == n - 1 {
      assert LiveNewestFirst(sales, n)[0] == sales[s];
    } else {
      NewestFirstComplete(sales, n - 1, s);
      assert LiveNewestFirst(sales, n) == (if n - 1 in sales && !sales[n - 1].deleted then [sales[n - 1]] else []) + rest;
    }
  }

  /** The ids of the live sales from 0 up to `n`. */
  function LiveIds(sales: map<int, Sale>, n: int): (r: set<int>)
    ensures forall s :: s in r <==> s in sales && 0 <= s < n && !sales[s].deleted
    decreases n
  {
    if n <= 0 then {}
    else LiveIds(sales, n - 1) + (if n - 1 in sales && !sales[n - 1].deleted then {n - 1} else {})
  }

  /** One more id adds one live sale to the count exactly when that sale is live. */
  lemma LiveIdsStep(sales: map<int, Sale>, n: int)
    requires n > 0
    ensures |LiveIds(sales, n)| == |LiveIds(sales, n - 1)| + (if n - 1 in sales && !sales[n - 1].deleted then 1 else 0)
  {
    var before := LiveIds(sales, n - 1);
    assert n - 1 !in before;
    if n - 1 in sales && !sales[n - 1].deleted {
      assert |before + {n - 1}| == |before| + 1;
    }
  }

  /** The list holds one header per live sale, so its length is the number of live sales. */
  lemma {:induction false} LiveCount(sales: map<int, Sale>, n: int)
    requires forall s | s in sales :: sales[s].id == s
    ensures |LiveNewestFirst(sales, n)| == |LiveIds(sales, n)|
    decreases n
  {
    if n > 0 {
      LiveCount(sales, n - 1);
      LiveIdsStep(sales, n);
    }
  }

  /** After a successful Delete the sale is no longer among the live sales the listing shows and counts. */
  lemma DeleteHidesSale(t: Tables, id: int, fault: Fault, n: int)
    requires DeleteSpec(t, id, fault).0.Pass?
    ensures var t' := DeleteSpec(t, id, fault).1;
      LiveIds(t'.sales, n) == LiveIds(t.sales, n) - {id}
  {
    var t' := DeleteSpec(t, id, fault).1;
    assert forall x :: x in LiveIds(t'.sales, n) <==> x in LiveIds(t.sales, n) - {id};
  }

  /** The live sales below `n` with an id above `id`: the ones listed before a sale with that id. */
  function Newer(sales: map<int, Sale>, n: int, id: int): set<int>
  {
    set s | s in LiveIds(sales, n) && s > id
  }

  /** One more id adds one newer live sale exactly when that sale is live and newer. */
  lemma NewerStep(sales: map<int, Sale>, n: int, id: int)
    requires n > 0
    ensures |Newer(sales, n, id)| ==
      |Newer(sales, n - 1, id)| + (if n - 1 in sales && !sales[n - 1].deleted && n - 1 > id then 1 else 0)
  {
    var before := Newer(sales, n - 1, id);
    assert n - 1 !in before;
    if n - 1 in sales && !sales[n - 1].deleted && n - 1 > id {
      assert Newer(sales, n, id) == before + {n - 1};
      assert |before + {n - 1}| == |before| + 1;
    } else {
      assert Newer(sales, n, id) == before;
    }
  }

  /** The newest live sale heads the list and has no newer live sale. */
  lemma RankTop(sales: map<int, Sale>, n: int)
    requires forall s | s in sales :: sales[s].id == s
    requires n > 0 && n - 1 in sales && !sales[n - 1].deleted
    ensures |LiveNewestFirst(sales, n)| > 0 && |Newer(sales, n, LiveNewestFirst(sales, n)[0].id)| == 0
  {
  }

  /** A live sale at `n - 1` heads the list and pushes every older sale one place down. */
  lemma RankBelowTop(sales: map<int, Sale>, n: int, j: int)
    requires forall s | s in sales :: sales[s].id == s
    requires n > 0 && n - 1 in sales && !sales[n - 1].deleted
    requires 0 < j < |LiveNewestFirst(sales, n)|
    requires |Newer(sales, n - 1, LiveNewestFirst(sales, n - 1)[j - 1].id)| == j - 1
    ensures |Newer(sales, n, LiveNewestFirst(sales, n)[j].id)| == j
  {
    var rest := LiveNewestFirst(sales, n - 1);
    assert LiveNewestFirst(sales, n) == [sales[n - 1]] + rest;
    NewerStep(sales, n, rest[j - 1].id);
  }

  /** Without a live sale at `n - 1` the list and every rank are those below `n - 1`. */
  lemma RankSkip(sales: map<int, Sale>, n: int, j: int)
    requires forall s | s in sales :: sales[s].id == s
    requires n > 0 && !(n - 1 in sales && !sales[n - 1].deleted)
    requires 0 <= j < |LiveNewestFirst(sales, n)|
    requires |Newer(sales, n - 1, LiveNewestFirst(sales, n - 1)[j].id)| == j
    ensures |Newer(sales, n, LiveNewestFirst(sales, n)[j].id)| == j
  {
    assert LiveNewestFirst(sales, n) == LiveNewestFirst(sales, n - 1);
    NewerStep(sales, n, LiveNewestFirst(sales, n)[j].id);
  }

  /** The sale at position `j` of the newest-first list has exactly `j` newer live sales. */
  lemma {:induction false} NewestFirstRank(sales: map<int, Sale>, n: int, j: int)
    requires forall s | s in sales :: sales[s].id == s
    requires n > 0 && 0 <= j < |LiveNewestFirst(sales, n)|
    ensures |Newer(sales, n, LiveNewestFirst(sales, n)[j].id)| == j
    decreases n
  {
    if n - 1 in sales && !sales[n - 1].deleted {
      if j == 0 {
        RankTop(sales, n);
      } else {
        NewestFirstRank(sales, n - 1, j - 1);
        RankBelowTop(sales, n, j);
      }
    } else {
      assert LiveNewestFirst(sales, n) == LiveNewestFirst(sales, n - 1);
      NewestFirstRank(sales, n - 1, j);
      RankSkip(sales, n, j);
    }
  }

  /** The row at position `i` of a window starting at `offset` has `offset + i` newer live sales. */
  lemma WindowRank(sales: map<int, Sale>, n: int, offset: nat, limit: nat)
    requires forall s | s in sales :: sales[s].id == s
    ensures var w := Window(LiveNewestFirst(sales, n), offset, limit);
      forall i | 0 <= i < |w| :: |Newer(sales, n, w[i].id)| == offset + i
  {
    var w := Window(LiveNewestFirst(sales, n), offset, limit);
    forall i | 0 <= i < |w|
      ensures |Newer(sales, n, w[i].id)| == offset + i
    {
      NewestFirstRank(sales, n, offset + i);
    }
  }

  /** `n` cut down to the range 0 to `limit`. */
  function Clamp(n: int, limit: nat): nat
  {
    if n < 0 then 0 else if n > limit then limit else n
  }

  /** The rows an `OFFSET offset LIMIT limit` clause keeps. */
  function Window<T>(all: seq<T>, offset: nat, limit: nat): (w: seq<T>)
    ensures |w| == Clamp(|all| - offset, limit)
    ensures forall i | 0 <= i < |w| :: w[i] == all[offset + i]
  {
    if offset >= |all| then []
    else if offset + limit <= |all| then all[offset..offset + limit]
    else all[offset..]
  }

  /**
   * The rows `OFFSET offset LIMIT limit` keeps of the live sales below `n`,
   * newest first, with the number of all of them; the database refuses a
   * negative offset or limit.
   */
  function Page(sales: map<int, Sale>, n: int, offset: int, limit: int): (r: Result<(seq<Sale>, int), SaleError>)
    requires forall s | s in sales :: sales[s].id == s
    ensures r.Err? <==> offset < 0 || limit < 0
    ensures r.Ok? ==> r.value.1 == |LiveIds(sales, n)|
    ensures r.Ok? ==> |r.value.0| == Clamp(r.value.1 - offset, limit)
    ensures r.Ok? ==> forall i | 0 <= i < |r.value.0| ::
      var x := r.value.0[i]; 0 <= x.id < n && x.id in sales && sales[x.id] == x && !x.deleted
    ensures r.Ok? ==> forall i, j | 0 <= i < j < |r.value.0| :: r.value.0[i].id > r.value.0[j].id
    ensures r.Ok? ==> forall i | 0 <= i < |r.value.0| :: |Newer(sales, n, r.value.0[i].id)| == offset + i
  {
    if offset < 0 || limit < 0 then Err(StorageFailure)
    else
      var all := LiveNewestFirst(sales, n);
      LiveCount(sales, n);
      WindowRank(sales, n, offset, limit);
      Ok((Window(all, offset, limit), |all|))
  }

  /** The store: the three tables and the two id sequences of the database. */
  class SaleStore {
    var items: map<int, Item>
    var sales: map<int, Sale>
    var lines: map<int, seq<SaleItem>>
    var nextSaleId: int
    var nextLineId: int

    function State(): Tables
      reads this
    {
      Tables(items, sales, lines)
    }

    ghost predicate Valid()
      reads this
    {
      Consistent(State(), nextSaleId, nextLineId)
    }

    /** A store with the given items and no sales yet. */
    constructor (stock: map<int, Item>)
      requires NonNegative(stock)
      ensures Valid()
      ensures items == stock && sales == map[] && lines == map[]
    {
      items, sales, lines := stock, map[], map[];
      nextSaleId, nextLineId := 1, 1;
    }

    /** The header of a live sale; nothing for an absent or soft-deleted one. */
    function FindByID(id: int): (r: Option<Sale>)
      reads this
      ensures r.Some? <==> id in sales && !sales[id].deleted
      ensures r.Some? ==> r.value == sales[id]
    {
      if Live(State(), id) then Some(sales[id]) else None
    }

    /** The lines of a sale, in ascending id order, all carrying that sale's id. */
    function FindSaleItems(saleId: int): (r: seq<SaleItem>)
      reads this
      requires Valid()
      ensures forall i | 0 <= i < |r| :: r[i].saleId == saleId && r[i].itemId in items && r[i].quantity > 0
      ensures forall i, j | 0 <= i < j < |r| :: r[i].id < r[j].id
      ensures forall i | 0 <= i < |r| :: saleId in lines && r[i] in lines[saleId]
      ensures forall s, i | s in lines && 0 <= i < |lines[s]| && lines[s][i].saleId == saleId :: lines[s][i] in r
    {
      LinesOf(State(), saleId)
    }

    /** The page-th page of `limit` live sales, newest first, and the count of all of them. */
    function FindAll(page: int, limit: int): (r: Result<(seq<Sale>, int), SaleError>)
      reads this
      requires Valid()
      ensures r.Err? <==> (page - 1) * limit < 0 || limit < 0
      ensures r.Ok? ==> r.value.1 == |LiveIds(sales, nextSaleId)| && |r.value.0| <= limit
      ensures r.Ok? ==> |r.value.0| == Clamp(r.value.1 - (page - 1) * limit, limit)
      ensures r.Ok? ==> forall i | 0 <= i < |r.value.0| ::
        var x := r.value.0[i]; x.id in sales && sales[x.id] == x && !x.deleted
      ensures r.Ok? ==> forall i, j | 0 <= i < j < |r.value.0| :: r.value.0[i].id > r.value.0[j].id
      ensures r.Ok? ==> forall i | 0 <= i < |r.value.0| ::
        |Newer(sales, nextSaleId, r.value.0[i].id)| == (page - 1) * limit + i
    {
      Page(sales, nextSaleId, (page - 1) * limit, limit)
    }

    /**
     * The deferred rollback: the tables return to how they were when the unit
     * of work began; the id sequences keep the ids they handed out.
     */
    method Abort(t0: Tables, s0: int, l0: int)
      requires Consistent(t0, s0, l0) && s0 <= nextSaleId && l0 <= nextLineId
      modifies this
      ensures Valid() && State() == t0
      ensures nextSaleId == old(nextSaleId) && nextLineId == old(nextLineId)
    {
      items, sales, lines := t0.items, t0.sales, t0.lines;
      CountersAdvance(t0, s0, l0, nextSaleId, nextLineId);
    }

    /**
     * The statements Update and Delete share, from statement `base` on: the
     * restoring increment of each line's item. It does not roll back; its
     * caller does.
     */
    method GiveBack(olds: seq<SaleItem>, fault: Fault, base: int) returns (ok: bool)
      requires !HitsBefore(fault, base)
      modifies this
      ensures ok <==> !HitsBefore(fault, base + |olds|)
      ensures ok ==> items == Restore(old(items), olds)
      ensures sales == old(sales) && lines == old(lines)
      ensures nextSaleId == old(nextSaleId) && nextLineId == old(nextLineId)
    {
      ghost var items0 := items;
      assert olds[..0] == [];
      var i := 0;
      while i < |olds|
        invariant 0 <= i <= |olds|
        invariant !HitsBefore(fault, base + i)
        invariant items == Restore(items0, olds[..i])
        invariant sales == old(sales) && lines == old(lines)
        invariant nextSaleId == old(nextSaleId) && nextLineId == old(nextLineId)
      {
        if FailsAt(fault, base + i) {  // UPDATE items SET stock = stock + q WHERE id = item
          return false;
        }
        RestoreStep(items0, olds, i);
        items := Give(items, olds[i]);
        i := i + 1;
      }
      assert olds[..i] == olds;
      return true;
    }

    /**
     * The statements Create and Update share, from statement `base` on: for
     * each request line the INSERT of its row and the guarded decrement of its
     * item, then COMMIT. It does not roll back; its caller does.
     */
    method WriteLines(saleId: int, req: seq<SaleItem>, fault: Fault, base: int) returns (r: Outcome<SaleError>)
      requires saleId in lines && lines[saleId] == [] && !HitsBefore(fault, base)
      modifies this
      ensures var d := Decrement(old(items), req);
        r == if HitsBefore(fault, RunSteps(base, d, |req|)) then Fail(StorageFailure)
             else if d.Short? then Fail(InsufficientStock) else Pass
      ensures r.Pass? ==>
        && items == Decrement(old(items), req).items
        && lines == old(lines)[saleId := Numbered(req, saleId, old(nextLineId))]
        && nextLineId == old(nextLineId) + |req|
      ensures sales == old(sales) && nextSaleId == old(nextSaleId) && old(nextLineId) <= nextLineId
    {
      ghost var items0, lines0, l0 := items, lines, nextLineId;
      assert req[..0] == [];
      var step := base;
      var i := 0;
      while i < |req|
        invariant 0 <= i <= |req|
        invariant step == base + 2 * i && !HitsBefore(fault, step)
        invariant sales == old(sales) && nextSaleId == old(nextSaleId) && nextLineId == l0 + i
        invariant lines == lines0[saleId := Numbered(req[..i], saleId, l0)]
        invariant Decrement(items0, req[..i]) == Applied(items)
      {
        if FailsAt(fault, step) {  // INSERT INTO sale_items ... RETURNING id
          RunReaches(items0, req, i, base, step);
          return Fail(StorageFailure);
        }
        NumberedStep(req, i, saleId, l0);
        lines := lines[saleId := lines[saleId] + [req[i].(id := nextLineId, saleId := saleId)]];
        nextLineId := nextLineId + 1;
        step := step + 1;
        if FailsAt(fault, step) {  // UPDATE items SET stock = stock - q WHERE id = item AND stock >= q
          RunReaches(items0, req, i, base, step);
          return Fail(StorageFailure);
        }
        if !Guard(items, req[i]) {  // no row affected
          RunShort(items0, req, i, items);
          return Fail(InsufficientStock);
        }
        RunStep(items0, req, i, items);
        items := Take(items, req[i]);
        step := step + 1;
        i := i + 1;
      }
      assert req[..i] == req;
      if FailsAt(fault, step) {  // COMMIT
        RunReaches(items0, req, i, base, step);
        return Fail(StorageFailure);
      }
      return Pass;
    }

    /**
     * Inserts the header, then each line followed by its guarded stock
     * decrement, then commits; any failure rolls everything back.
     */
    method Create(userId: int, totalAmount: int, req: seq<SaleItem>, fault: Fault)
      returns (r: Result<(Sale, seq<SaleItem>), SaleError>)
      requires Valid() && Positive(req)
      modifies this
      ensures Valid()
      ensures (r, State()) == CreateSpec(old(State()), old(nextSaleId), old(nextLineId), userId, totalAmount, req, fault)
      ensures r.Ok? ==> nextSaleId == old(nextSaleId) + 1 && nextLineId == old(nextLineId) + |req|
      ensures old(nextSaleId) <= nextSaleId && old(nextLineId) <= nextLineId
    {
      var t0, s0, l0 := State(), nextSaleId, nextLineId;
      if HitsBefore(fault, 2) {  // BEGIN (0) or INSERT INTO sales ... RETURNING id (1) fails
        assert req[..0] == [];
        RunReaches(t0.items, req, 0, 2, fault.step);
        return Err(StorageFailure);
      }
      var sid := nextSaleId;
      nextSaleId := nextSaleId + 1;
      var header := Sale(sid, userId, totalAmount, false);
      sales := sales[sid := header];
      lines := lines[sid := []];
      var written := WriteLines(sid, req, fault, 2);
      if written.Fail? {
        CreateStopped(t0, s0, l0, userId, totalAmount, req, fault, written.error);
        Abort(t0, s0, l0);
        return Err(written.error);
      }
      r := Ok((header, lines[sid]));
      assert lines == t0.lines[sid := Numbered(req, s0, l0)];
      CreateCommitted(t0, s0, l0, userId, totalAmount, req, fault, items);
      CreateKeepsInvariant(t0, s0, l0, header, req, items);
    }

    /**
     * The statements Update and Delete begin with: BEGIN, the read of the
     * sale's lines, the restoring increment of each, and the DELETE of the
     * lines. It does not roll back; its caller does.
     */
    method Unwind(id: int, fault: Fault) returns (olds: seq<SaleItem>, ok: bool)
      requires Valid()
      modifies this
      ensures ok <==> !HitsBefore(fault, |LinesOf(old(State()), id)| + 3)
      ensures ok ==> olds == LinesOf(old(State()), id)
      ensures ok ==> items == Restore(old(items), olds) && lines == old(lines) - {id}
      ensures sales == old(sales) && nextSaleId == old(nextSaleId) && nextLineId == old(nextLineId)
    {
      if FailsAt(fault, 0) {  // BEGIN
        return [], false;
      }
      if FailsAt(fault, 1) {  // SELECT ... FROM sale_items WHERE sale_id = id
        return [], false;
      }
      olds := FindSaleItems(id);
      ok := GiveBack(olds, fault, 2);
      if !ok {
        return;
      }
      if FailsAt(fault, |olds| + 2) {  // DELETE FROM sale_items WHERE sale_id = id
        return olds, false;
      }
      lines := lines - {id};
    }

    /**
     * What Update does once the old lines are gone, from statement `base` on:
     * the header's new total, when a live header matches, then the new lines
     * and COMMIT. It does not roll back; its caller does.
     */
    method Rewrite(id: int, totalAmount: int, req: seq<SaleItem>, fault: Fault, base: int) returns (r: Outcome<SaleError>)
      requires !HitsBefore(fault, base)
      modifies this
      ensures var d := Decrement(old(items), req);
        r == if HitsBefore(fault, base + 1) then Fail(StorageFailure)
             else if !Live(old(State()), id) then Fail(SaleNotFound)
             else if HitsBefore(fault, RunSteps(base + 1, d, |req|)) then Fail(StorageFailure)
             else if d.Short? then Fail(InsufficientStock) else Pass
      ensures r.Pass? ==>
        && items == Decrement(old(items), req).items
        && sales == old(sales)[id := old(sales)[id].(totalAmount := totalAmount)]
        && lines == old(lines)[id := Numbered(req, id, old(nextLineId))]
        && nextLineId == old(nextLineId) + |req|
      ensures nextSaleId == old(nextSaleId) && old(nextLineId) <= nextLineId
    {
      if FailsAt(fault, base) {  // UPDATE sales SET total_amount = ... WHERE id = id AND deleted_at IS NULL
        return Fail(StorageFailure);
      }
      if !(id in sales && !sales[id].deleted) {  // no row affected
        return Fail(SaleNotFound);
      }
      sales := sales[id := sales[id].(totalAmount := totalAmount)];
      lines := lines[id := []];
      r := WriteLines(id, req, fault, base + 1);
    }

    /**
     * The statements of Update up to COMMIT: give back the stock of the sale's
     * current lines, delete them, rewrite the header's total (failing when no
     * live header matches), then insert and take the new lines as Create does.
     * It does not roll back; Update does.
     */
    method Attempt(id: int, totalAmount: int, req: seq<SaleItem>, fault: Fault) returns (r: Outcome<SaleError>)
      requires Valid()
      modifies this
      ensures r == UpdateSpec(old(State()), old(nextLineId), id, totalAmount, req, fault).0
      ensures r.Pass? ==> State() == UpdateSpec(old(State()), old(nextLineId), id, totalAmount, req, fault).1
      ensures r.Pass? ==> nextLineId == old(nextLineId) + |req|
      ensures nextSaleId == old(nextSaleId) && old(nextLineId) <= nextLineId
    {
      var t0, l0 := State(), nextLineId;
      var olds, ok := Unwind(id, fault);
      if !ok {
        return Fail(StorageFailure);
      }
      r := Rewrite(id, totalAmount, req, fault, |olds| + 3);
      UpdateDecided(t0, l0, id, totalAmount, req, fault, r);
      if r.Pass? {
        assert lines == t0.lines[id := Numbered(req, id, l0)];
      }
    }

    /**
     * Update(id, sale, lines): the unit of work of Attempt, committed when it
     * passes and rolled back to the snapshot otherwise.
     */
    method Update(id: int, totalAmount: int, req: seq<SaleItem>, fault: Fault) returns (r: Outcome<SaleError>)
      requires Valid() && Positive(req)
      modifies this
      ensures Valid()
      ensures (r, State()) == UpdateSpec(old(State()), old(nextLineId), id, totalAmount, req, fault)
      ensures nextSaleId == old(nextSaleId) && old(nextLineId) <= nextLineId
      ensures r.Pass? ==> nextLineId == old(nextLineId) + |req|
    {
      var t0, s0, l0 := State(), nextSaleId, nextLineId;
      r := Attempt(id, totalAmount, req, fault);
      UpdateAllOrNothing(t0, l0, id, totalAmount, req, fault);
      if r.Fail? {
        Abort(t0, s0, l0);
        return;
      }
      UpdatePreserves(t0, s0, l0, id, totalAmount, req, fault);
    }

    /**
     * Gives back the stock of the sale's lines, deletes them and soft-deletes
     * the header (failing when no live header matches); any failure rolls back.
     */
    method Delete(id: int, fault: Fault) returns (r: Outcome<SaleError>)
      requires Valid()
      modifies this
      ensures Valid()
      ensures (r, State()) == DeleteSpec(old(State()), id, fault)
      ensures r.Pass? ==> FindByID(id) == None && FindSaleItems(id) == []
      ensures nextSaleId == old(nextSaleId) && nextLineId == old(nextLineId)
    {
      var t0, s0, l0 := State(), nextSaleId, nextLineId;
      var olds, ok := Unwind(id, fault);
      if !ok {
        Abort(t0, s0, l0);
        return Fail(StorageFailure);
      }
      if FailsAt(fault, |olds| + 3) {  // UPDATE sales SET deleted_at = NOW() WHERE id = id AND deleted_at IS NULL
        Abort(t0, s0, l0);
        return Fail(StorageFailure);
      }
      if !(id in sales && !sales[id].deleted) {  // no row affected
        Abort(t0, s0, l0);
        return Fail(SaleNotFound);
      }
      sales := sales[id := sales[id].(deleted := true)];
      if FailsAt(fault, |olds| + 4) {  // COMMIT
        Abort(t0, s0, l0);
        return Fail(StorageFailure);
      }
      r := Pass;
      DeletePreserves(t0, s0, l0, id, fault);
    }
  }
}
