/**
 * Stock bookkeeping of the sale engine, on values: the guarded decrement
 * applied line after line, the unconditional restore, and how many units the
 * lines of all sales hold. The repository's units of work are proved against
 * these functions.
 */
module Ledger {
  import opened Model

  /** Units of item `k` that the lines `ls` hold. */
  function QtyOf(ls: seq<SaleItem>, k: int): int
  {
    if ls == [] then 0
    else QtyOf(ls[..|ls| - 1], k) + (if ls[|ls| - 1].itemId == k then ls[|ls| - 1].quantity else 0)
  }

  /** Every line asks for at least one unit (the `gt=0` validation of a request line). */
  predicate Positive(ls: seq<SaleItem>)
  {
    forall i | 0 <= i < |ls| :: ls[i].quantity > 0
  }

  /** Every line names an item of the table. */
  predicate Known(items: map<int, Item>, ls: seq<SaleItem>)
  {
    forall i | 0 <= i < |ls| :: ls[i].itemId in items
  }

  /** No item has negative stock. */
  predicate NonNegative(items: map<int, Item>)
  {
    forall k | k in items :: items[k].stock >= 0
  }

  /** Two line lists ask for the same items in the same quantities, line by line. */
  predicate SameDemand(a: seq<SaleItem>, b: seq<SaleItem>)
  {
    |a| == |b| &&
    forall i | 0 <= i < |a| :: a[i].itemId == b[i].itemId && a[i].quantity == b[i].quantity
  }

  /**
   * `b` is `a` with each item's stock raised (`up`) or lowered by what `ls`
   * holds of it, and nothing else changed.
   */
  ghost predicate Shifted(a: map<int, Item>, b: map<int, Item>, ls: seq<SaleItem>, up: bool)
  {
    a.Keys == b.Keys &&
    forall k | k in a ::
      b[k] == a[k].(stock := if up then a[k].stock + QtyOf(ls, k) else a[k].stock - QtyOf(ls, k))
  }

  /**
   * The WHERE clause of the guarded decrement `SET stock = stock - q WHERE
   * id = i AND stock >= q`: the row is touched only if the item exists and
   * holds at least q units at that moment.
   */
  predicate Guard(items: map<int, Item>, l: SaleItem)
  {
    l.itemId in items && items[l.itemId].stock >= l.quantity
  }

  /** The decrement itself, once the guard has matched the row. */
  function Take(items: map<int, Item>, l: SaleItem): map<int, Item>
    requires l.itemId in items
  {
    items[l.itemId := items[l.itemId].(stock := items[l.itemId].stock - l.quantity)]
  }

  /** The restoring `SET stock = stock + q WHERE id = i`: unguarded; a missing row is silently skipped. */
  function Give(items: map<int, Item>, l: SaleItem): map<int, Item>
  {
    if l.itemId in items
    then items[l.itemId := items[l.itemId].(stock := items[l.itemId].stock + l.quantity)]
    else items
  }

  /** Where a run of guarded decrements ends: all applied, or the index of the first that touched no row. */
  datatype Decremented = Applied(items: map<int, Item>) | Short(at: nat)

  /** The guarded decrements of `ls`, in order, each seeing the stock left by the ones before it. */
  function Decrement(items: map<int, Item>, ls: seq<SaleItem>): (r: Decremented)
    ensures r.Short? ==> r.at < |ls|
  {
    if ls == [] then Applied(items)
    else
      match Decrement(items, ls[..|ls| - 1])
      case Short(j) => Short(j)
      case Applied(m) =>
        if Guard(m, ls[|ls| - 1]) then Applied(Take(m, ls[|ls| - 1])) else Short(|ls| - 1)
  }

  /** The restoring increments of `ls`, in order. */
  function Restore(items: map<int, Item>, ls: seq<SaleItem>): map<int, Item>
  {
    if ls == [] then items else Give(Restore(items, ls[..|ls| - 1]), ls[|ls| - 1])
  }

  /** Line `i` of `ls` passes its guard after the lines before it have taken their units. */
  predicate Fits(items: map<int, Item>, ls: seq<SaleItem>, i: int)
    requires 0 <= i < |ls|
  {
    ls[i].itemId in items &&
    items[ls[i].itemId].stock - QtyOf(ls[..i], ls[i].itemId) >= ls[i].quantity
  }

  lemma QtyOfLast(ls: seq<SaleItem>, i: int, k: int)
    requires 0 <= i < |ls|
    ensures QtyOf(ls[..i + 1], k) == QtyOf(ls[..i], k) + (if ls[i].itemId == k then ls[i].quantity else 0)
  {
    assert ls[..i + 1][..i] == ls[..i];
  }

  /** Lines that ask for no negative amount hold at least as much in the whole list as in a prefix. */
  lemma {:induction false} QtyOfPrefix(ls: seq<SaleItem>, j: int, k: int)
    requires Positive(ls)
    requires 0 <= j <= |ls|
    ensures QtyOf(ls[..j], k) <= QtyOf(ls, k)
    decreases |ls| - j
  {
    if j < |ls| {
      QtyOfLast(ls, j, k);
      QtyOfPrefix(ls, j + 1, k);
    } else {
      assert ls[..j] == ls;
    }
  }

  /** Lines that never name item `k` hold none of it. */
  lemma {:induction false} QtyOfAbsent(ls: seq<SaleItem>, k: int)
    requires forall i | 0 <= i < |ls| :: ls[i].itemId != k
    ensures QtyOf(ls, k) == 0
  {
    if ls != [] {
      QtyOfAbsent(ls[..|ls| - 1], k);
    }
  }

  /** The units held depend only on which items and how many: ids, prices and subtotals do not matter. */
  lemma {:induction false} QtyOfSameDemand(a: seq<SaleItem>, b: seq<SaleItem>, k: int)
    requires SameDemand(a, b)
    ensures QtyOf(a, k) == QtyOf(b, k)
  {
    if a != [] {
      QtyOfSameDemand(a[..|a| - 1], b[..|b| - 1], k);
    }
  }

  /**
   * The run of guarded decrements succeeds exactly when every line fits, and
   * then lowers each item's stock by exactly what the lines take of it and
   * leaves every stock non-negative; otherwise it stops at the first line that
   * does not fit.
   */
  lemma {:induction false} DecrementSpec(items: map<int, Item>, ls: seq<SaleItem>)
    ensures Decrement(items, ls).Applied? <==> forall i | 0 <= i < |ls| :: Fits(items, ls, i)
    ensures Decrement(items, ls).Applied? ==> Shifted(items, Decrement(items, ls).items, ls, false)
    ensures Decrement(items, ls).Applied? && NonNegative(items) ==> NonNegative(Decrement(items, ls).items)
    ensures Decrement(items, ls).Short? ==>
              var j := Decrement(items, ls).at;
              (forall i | 0 <= i < j :: Fits(items, ls, i)) && !Fits(items, ls, j)
  {
    if ls != [] {
      var n := |ls| - 1;
      var p, l := ls[..n], ls[n];
      DecrementSpec(items, p);
      assert ls[..n] == p;
      forall i | 0 <= i < n
        ensures Fits(items, p, i) == Fits(items, ls, i)
      {
        assert p[..i] == ls[..i];
      }
      match Decrement(items, p)
      case Short(j) =>
      case Applied(m) =>
        if Guard(m, l) {
          var r := Take(m, l);
          forall k | k in items
            ensures r[k] == items[k].(stock := items[k].stock - QtyOf(ls, k))
          {
            QtyOfLast(ls, n, k);
          }
          if NonNegative(items) {
            assert NonNegative(r);
          }
        } else {
          assert !Fits(items, ls, n);
        }
    }
  }

  /**
   * A run that stops within the first `i` lines stops there for the whole
   * list too; a run whose first `i` lines all apply can only stop at line `i`
   * or later.
   */
  lemma {:induction false} DecrementPrefix(items: map<int, Item>, ls: seq<SaleItem>, i: int)
    requires 0 <= i <= |ls|
    ensures Decrement(items, ls[..i]).Short? ==> Decrement(items, ls) == Decrement(items, ls[..i])
    ensures Decrement(items, ls[..i]).Applied? && Decrement(items, ls).Short? ==> Decrement(items, ls).at >= i
    decreases |ls| - i
  {
    if i == |ls| {
      assert ls[..i] == ls;
    } else {
      DecrementPrefix(items, ls, i + 1);
      assert ls[..i + 1][..i] == ls[..i];
    }
  }

  /** The run extended by one line that passes its guard. */
  lemma RunStep(items: map<int, Item>, ls: seq<SaleItem>, i: int, m: map<int, Item>)
    requires 0 <= i < |ls| && Decrement(items, ls[..i]) == Applied(m) && Guard(m, ls[i])
    ensures Decrement(items, ls[..i + 1]) == Applied(Take(m, ls[i]))
  {
    assert ls[..i + 1][..i] == ls[..i];
  }

  /** The run stops at the first line whose guard fails. */
  lemma RunShort(items: map<int, Item>, ls: seq<SaleItem>, i: int, m: map<int, Item>)
    requires 0 <= i < |ls| && Decrement(items, ls[..i]) == Applied(m) && !Guard(m, ls[i])
    ensures Decrement(items, ls) == Short(i)
  {
    assert ls[..i + 1][..i] == ls[..i];
    DecrementPrefix(items, ls, i + 1);
  }

  /** The restore extended by one line. */
  lemma RestoreStep(items: map<int, Item>, ls: seq<SaleItem>, i: int)
    requires 0 <= i < |ls|
    ensures Restore(items, ls[..i + 1]) == Give(Restore(items, ls[..i]), ls[i])
  {
    assert ls[..i + 1][..i] == ls[..i];
  }

  /** Restoring lines whose items all exist raises each item's stock by exactly what the lines hold. */
  lemma {:induction false} RestoreSpec(items: map<int, Item>, ls: seq<SaleItem>)
    requires Known(items, ls)
    ensures Shifted(items, Restore(items, ls), ls, true)
  {
    if ls != [] {
      var n := |ls| - 1;
      RestoreSpec(items, ls[..n]);
      forall k | k in items
        ensures Restore(items, ls)[k] == items[k].(stock := items[k].stock + QtyOf(ls, k))
      {
        QtyOfLast(ls, n, k);
        assert ls[..n + 1] == ls;
      }
    }
  }

  /** Restoring lines that ask for positive amounts of known items keeps the items and keeps stock non-negative. */
  lemma RestoreKeeps(items: map<int, Item>, ls: seq<SaleItem>)
    requires Known(items, ls) && Positive(ls) && NonNegative(items)
    ensures Restore(items, ls).Keys == items.Keys
    ensures NonNegative(Restore(items, ls))
  {
    RestoreSpec(items, ls);
    forall k | k in items
      ensures QtyOf(ls, k) >= 0
    {
      QtyOfPrefix(ls, 0, k);
      assert ls[..0] == [];
    }
  }

  /**
   * Restoring a list of lines and then taking the same demand again with the
   * guarded decrement always succeeds and gives back exactly the starting
   * stock: an update that rewrites a sale with its own lines moves no stock.
   */
  lemma RestoreThenDecrement(items: map<int, Item>, old_: seq<SaleItem>, new_: seq<SaleItem>)
    requires Known(items, old_) && Positive(old_) && NonNegative(items)
    requires SameDemand(old_, new_)
    ensures Decrement(Restore(items, old_), new_) == Applied(items)
  {
    var m := Restore(items, old_);
    RestoreSpec(items, old_);
    DecrementSpec(m, new_);
    forall i | 0 <= i < |new_|
      ensures Fits(m, new_, i)
    {
      var k := new_[i].itemId;
      assert SameDemand(old_[..i], new_[..i]);
      QtyOfSameDemand(old_[..i], new_[..i], k);
      QtyOfLast(old_, i, k);
      QtyOfPrefix(old_, i + 1, k);
    }
    var r := Decrement(m, new_).items;
    forall k | k in items
      ensures r[k] == items[k]
    {
      QtyOfSameDemand(old_, new_, k);
    }
  }

  /**
   * Two lines for the same item both pass their guards only when together
   * they ask for no more than the item's stock: the second guard sees the
   * stock the first one left.
   */
  lemma SameItemTwice(items: map<int, Item>, a: SaleItem, b: SaleItem)
    requires a.itemId == b.itemId && a.itemId in items
    requires b.quantity > 0
    ensures Decrement(items, [a, b]).Applied? <==> a.quantity + b.quantity <= items[a.itemId].stock
  {
    assert [a, b][..1] == [a];
    assert [a][..0] == [];
    assert Decrement(items, [a]) == if Guard(items, a) then Applied(Take(items, a)) else Short(0);
  }

  /** The units of item `k` that the lines of sale `s` hold, none if it has no lines. */
  function HeldBy(lines: map<int, seq<SaleItem>>, s: int, k: int): int
  {
    if s in lines then QtyOf(lines[s], k) else 0
  }

  /** The units of item `k` held by the lines of all sales whose id is below `n`. */
  function Held(lines: map<int, seq<SaleItem>>, n: int, k: int): int
    decreases n
  {
    if n <= 0 then 0 else Held(lines, n - 1, k) + HeldBy(lines, n - 1, k)
  }

  /**
   * Two tables of lines that differ only in sale `s` hold, below any `n`
   * above `s`, amounts that differ only by what sale `s` holds in each.
   */
  lemma {:induction false} HeldChange(a: map<int, seq<SaleItem>>, b: map<int, seq<SaleItem>>, s: int, n: int, k: int)
    requires forall t | t != s :: (t in a <==> t in b) && (t in a ==> a[t] == b[t])
    requires 0 <= s < n
    ensures Held(b, n, k) == Held(a, n, k) - HeldBy(a, s, k) + HeldBy(b, s, k)
    decreases n
  {
    if n - 1 != s {
      HeldChange(a, b, s, n - 1, k);
    } else {
      HeldSame(a, b, s, k);
    }
  }

  /** Below `n`, tables that agree on every sale below `n` hold the same amounts. */
  lemma {:induction false} HeldSame(a: map<int, seq<SaleItem>>, b: map<int, seq<SaleItem>>, n: int, k: int)
    requires forall t | t < n :: (t in a <==> t in b) && (t in a ==> a[t] == b[t])
    ensures Held(b, n, k) == Held(a, n, k)
    decreases n
  {
    if n > 0 {
      HeldSame(a, b, n - 1, k);
    }
  }
}
