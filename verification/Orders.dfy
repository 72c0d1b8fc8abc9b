/**
Payment orders (payment/order/mapper.go and payment/order/task.go): an order is
recognised on the chain only by its exact amount, so the allocator hands out unused
amounts and the poller maps amounts seen in transfers back to orders.
Times are nanoseconds; a poll sees pages of transactions.
*/
module Orders {
  import opened Int64
  import opened IntervalSets

  const SECOND: int := 1_000_000_000
  const PAYMENT_TIMEOUT: int := 600 * SECOND

  /** What `int` and `int64` can hold. */
  type Amount = x: int | InRange(x)

  datatype Status = Pending | Paid

  datatype Order = Order(id: string, amount: Amount, actual: int, status: Status, createdAt: int, callback: string)

  /** The three global indexes, and the ids whose callback URL has been fetched, in order. */
  datatype Book = Book(intervals: seq<Interval>, orders: map<string, Order>, index: map<int, string>,
                       calls: seq<string>)

  datatype Contract = Contract(kind: string, amount: int)

  datatype Transaction = Transaction(blockTimestamp: int, contracts: seq<Contract>)

  /** A transaction as the poller meets it: the clock it reads and how a callback made now would end. */
  datatype Seen = Seen(tx: Transaction, now: int, callbackOk: bool)

  datatype Page = Fetched(seen: seq<Seen>) | FetchFailed | Undecodable

  // ----- Creating orders -----

  function Created(b: Book, id: string, amount: Amount, callback: string, now: int): Book {
    var actual := NextFree(b.intervals, amount);
    Book(AddTo(b.intervals, actual),
         b.orders[id := Order(id, amount, actual, Pending, now, callback)],
         b.index[actual := id],
         b.calls)
  }

  // ----- Settling transfers -----

  predicate InWindow(e: Seen) {
    TruncDiv(e.tx.blockTimestamp, 1000) >= (e.now - PAYMENT_TIMEOUT) / SECOND
  }

  predicate IsTransfer(e: Seen) {
    InWindow(e) && |e.tx.contracts| > 0 && e.tx.contracts[0].kind == "TransferContract"
  }

  /** The transfer's amount is indexed for the known order `id`. */
  predicate Hits(b: Book, e: Seen, id: string) {
    && IsTransfer(e)
    && e.tx.contracts[0].amount in b.index
    && b.index[e.tx.contracts[0].amount] == id
    && id in b.orders
  }

  /** The poller's loop body for one transaction. */
  function Settled(b: Book, e: Seen): Book {
    if !IsTransfer(e) || e.tx.contracts[0].amount !in b.index then b else
    var amount := e.tx.contracts[0].amount;
    var id := b.index[amount];
    if id !in b.orders || b.orders[id].status.Paid? then b else
    var paid := b.(orders := b.orders[id := b.orders[id].(status := Paid)]);
    if b.orders[id].callback == "" then paid
    else if e.callbackOk then paid.(calls := b.calls + [id], index := b.index - {amount})
    else paid.(calls := b.calls + [id])
  }

  function SettledAll(b: Book, es: seq<Seen>): Book {
    if es == [] then b else Settled(SettledAll(b, es[..|es| - 1]), es[|es| - 1])
  }

  ghost predicate HitByAny(b: Book, es: seq<Seen>, id: string) {
    exists e :: e in es && Hits(b, e, id)
  }

  /** The pending orders whose indexed amount occurs in an eligible transfer. */
  ghost function Due(b: Book, es: seq<Seen>): set<string> {
    set id | id in b.orders && b.orders[id].status.Pending? && HitByAny(b, es, id)
  }

  function Marked(orders: map<string, Order>, ids: set<string>): map<string, Order> {
    map id | id in orders :: if id in ids then orders[id].(status := Paid) else orders[id]
  }

  ghost function WithCallback(b: Book, ids: set<string>): set<string> {
    set id | id in ids && id in b.orders && b.orders[id].callback != ""
  }

  /** What any number of transactions may have done to `b0`. */
  ghost predicate SettledShape(b0: Book, es: seq<Seen>, b: Book) {
    && b.intervals == b0.intervals
    && b.orders == Marked(b0.orders, Due(b0, es))
    && (forall a :: a in b.index ==> a in b0.index && b.index[a] == b0.index[a])
    && (forall a :: a in b0.index && a !in b.index ==>
          b0.index[a] in b.orders && b.orders[b0.index[a]].status.Paid?)
    && multiset(b.calls) == multiset(b0.calls) + multiset(WithCallback(b0, Due(b0, es)))
  }

  lemma DueGrows(b0: Book, es: seq<Seen>, e: Seen, id: string)
    ensures HitByAny(b0, es + [e], id) <==> HitByAny(b0, es, id) || Hits(b0, e, id)
  {
    assert forall f :: f in es + [e] <==> f in es || f == e;
  }

  /** A transaction that changes nothing had nothing left to settle. */
  lemma NothingDue(b0: Book, es: seq<Seen>, b: Book, e: Seen)
    requires SettledShape(b0, es, b) && Settled(b, e) == b
    requires forall id :: Hits(b, e, id) ==> b.orders[id].status.Paid?
    ensures Due(b0, es + [e]) == Due(b0, es)
  {
    forall id ensures id in Due(b0, es + [e]) <==> id in Due(b0, es) {
      DueGrows(b0, es, e, id);
      if id in b0.orders && b0.orders[id].status.Pending? && Hits(b0, e, id) {
        var a := e.tx.contracts[0].amount;
        assert a in b.index ==> Hits(b, e, id);
        assert b.orders[id].status.Paid?;
      }
    }
  }

  /** A transaction that settles an order adds exactly that order. */
  lemma OneMoreDue(b0: Book, es: seq<Seen>, b: Book, e: Seen, id: string)
    requires SettledShape(b0, es, b) && Hits(b, e, id) && b.orders[id].status.Pending?
    ensures id !in Due(b0, es) && Due(b0, es + [e]) == Due(b0, es) + {id}
    ensures WithCallback(b0, Due(b0, es) + {id}) ==
            WithCallback(b0, Due(b0, es)) + if b.orders[id].callback != "" then {id} else {}
  {
    forall other ensures other in Due(b0, es + [e]) <==> other in Due(b0, es) + {id} {
      DueGrows(b0, es, e, other);
    }
  }

  lemma SettleKeepsShape(b0: Book, es: seq<Seen>, b: Book, e: Seen)
    requires SettledShape(b0, es, b)
    ensures SettledShape(b0, es + [e], Settled(b, e))
  {
    if id :| Hits(b, e, id) && b.orders[id].status.Pending? {
      PayKeepsShape(b0, es, b, e, id);
    } else {
      assert Settled(b, e) == b;
      NothingDue(b0, es, b, e);
    }
  }

  lemma MarkOneMore(orders: map<string, Order>, ids: set<string>, id: string)
    requires id in orders
    ensures Marked(orders, ids + {id}) == Marked(orders, ids)[id := Marked(orders, ids)[id].(status := Paid)]
  {
  }

  lemma PayKeepsShape(b0: Book, es: seq<Seen>, b: Book, e: Seen, id: string)
    requires SettledShape(b0, es, b) && Hits(b, e, id) && b.orders[id].status.Pending?
    ensures SettledShape(b0, es + [e], Settled(b, e))
  {
    OneMoreDue(b0, es, b, e, id);
    var due, due', b' := Due(b0, es), Due(b0, es + [e]), Settled(b, e);
    MarkOneMore(b0.orders, due, id);
    assert b'.orders == Marked(b0.orders, due');
    assert multiset(b'.calls) == multiset(b0.calls) + multiset(WithCallback(b0, due')) by {
      CallOnce(WithCallback(b0, due), id);
      assert b'.calls == if b.orders[id].callback != "" then b.calls + [id] else b.calls;
    }
    PaidStaysPaid(b, e, id);
    forall a | a in b0.index && a !in b'.index
      ensures b0.index[a] in b'.orders && b'.orders[b0.index[a]].status.Paid?
    {
      assert a !in b.index || b.index[a] == id;
    }
  }

  lemma PaidStaysPaid(b: Book, e: Seen, id: string)
    requires Hits(b, e, id) && b.orders[id].status.Pending?
    ensures var b' := Settled(b, e);
            && b'.intervals == b.intervals
            && (forall a :: a in b'.index ==> a in b.index && b'.index[a] == b.index[a])
            && (forall a :: a in b.index && a !in b'.index ==> b.index[a] == id)
            && id in b'.orders && b'.orders[id].status.Paid?
            && (forall k :: k in b.orders && b.orders[k].status.Paid? ==> k in b'.orders && b'.orders[k].status.Paid?)
  {
  }

  /**
  Reading off the step: an index entry goes exactly when its order is paid now and the callback it asks for
  succeeds.
  */
  lemma IndexDroppedOnSuccess(b: Book, e: Seen, a: int)
    requires a in b.index
    ensures a !in Settled(b, e).index <==>
            && Hits(b, e, b.index[a]) && e.tx.contracts[0].amount == a
            && b.orders[b.index[a]].status.Pending? && b.orders[b.index[a]].callback != "" && e.callbackOk
  {
  }

  lemma CallOnce(asked: set<string>, id: string)
    requires id !in asked
    ensures multiset(asked + {id}) == multiset(asked) + multiset{id}
    ensures asked + {} == asked
  {
  }

  /**
  Settlement computed in one step from the starting book: exactly the due orders become paid,
  nothing else about any order changes, and each newly paid order with a callback is called once.
  */
  lemma {:induction false} SettlementExact(b: Book, es: seq<Seen>)
    ensures SettledShape(b, es, SettledAll(b, es))
  {
    if es == [] {
      assert Due(b, es) == {};
      assert Marked(b.orders, {}) == b.orders;
    } else {
      var front, last := es[..|es| - 1], es[|es| - 1];
      SettlementExact(b, front);
      SettleKeepsShape(b, front, SettledAll(b, front), last);
      assert es == front + [last];
    }
  }

  /** The transaction was met in `fs`, no later than in `e`. */
  ghost predicate Met(fs: seq<Seen>, e: Seen) {
    exists f :: f in fs && f.tx == e.tx && f.now <= e.now
  }

  ghost predicate Covered(es: seq<Seen>, fs: seq<Seen>) {
    forall e :: e in es ==> Met(fs, e)
  }

  /** Every transaction is first met at the same time; order, repetition and callback outcomes are free. */
  ghost predicate SameTransfers(es: seq<Seen>, fs: seq<Seen>) {
    Covered(es, fs) && Covered(fs, es)
  }

  /** What is recent enough now was so before. */
  lemma InWindowBefore(f: Seen, e: Seen)
    requires f.tx == e.tx && f.now <= e.now && InWindow(e)
    ensures InWindow(f)
  {
    assert (f.now - PAYMENT_TIMEOUT) / SECOND <= (e.now - PAYMENT_TIMEOUT) / SECOND;
  }

  lemma DueMonotone(b: Book, es: seq<Seen>, fs: seq<Seen>)
    requires Covered(es, fs)
    ensures Due(b, es) <= Due(b, fs)
  {
    forall id | id in Due(b, es) ensures id in Due(b, fs) {
      var e :| e in es && Hits(b, e, id);
      var f :| f in fs && f.tx == e.tx && f.now <= e.now;
      InWindowBefore(f, e);
      assert Hits(b, f, id);
    }
  }

  /** Settlement is confluent: permutations, replays and callback outcomes do not matter. */
  lemma SettlementConfluent(b: Book, es: seq<Seen>, fs: seq<Seen>)
    requires SameTransfers(es, fs)
    ensures SettledAll(b, es).orders == SettledAll(b, fs).orders
    ensures multiset(SettledAll(b, es).calls) == multiset(SettledAll(b, fs).calls)
  {
    SameDue(b, es, fs);
    SettlementExact(b, es);
    SettlementExact(b, fs);
    DueDecides(b, es, SettledAll(b, es), fs, SettledAll(b, fs));
  }

  lemma SameDue(b: Book, es: seq<Seen>, fs: seq<Seen>)
    requires SameTransfers(es, fs)
    ensures Due(b, es) == Due(b, fs)
  {
    DueMonotone(b, es, fs);
    DueMonotone(b, fs, es);
  }

  lemma DueDecides(b0: Book, es: seq<Seen>, b: Book, fs: seq<Seen>, b': Book)
    requires SettledShape(b0, es, b) && SettledShape(b0, fs, b') && Due(b0, es) == Due(b0, fs)
    ensures b.orders == b'.orders && multiset(b.calls) == multiset(b'.calls)
  {
  }

  /** At most ten minutes old in whole seconds; block times are milliseconds. */
  ghost predicate TenMinutes(e: Seen) {
    TruncDiv(e.tx.blockTimestamp, 1000) >= (e.now - 600_000_000_000) / 1_000_000_000
  }

  /** A transfer as first contract, of an amount indexed to the order, at most ten minutes old. */
  ghost predicate PaysFor(e: Seen, index: map<int, string>, id: string) {
    && |e.tx.contracts| > 0 && e.tx.contracts[0].kind == "TransferContract" && TenMinutes(e)
    && e.tx.contracts[0].amount in index && index[e.tx.contracts[0].amount] == id
  }

  /** A pending order becomes paid if and only if some transaction pays for it; nothing else about any order changes. */
  lemma PaidExactly(b: Book, es: seq<Seen>, id: string)
    requires id in b.orders
    ensures id in SettledAll(b, es).orders && SettledAll(b, es).orders.Keys == b.orders.Keys
    ensures SettledAll(b, es).orders[id] == b.orders[id].(status := SettledAll(b, es).orders[id].status)
    ensures SettledAll(b, es).orders[id].status == Paid <==>
            b.orders[id].status == Paid || exists i :: 0 <= i < |es| && PaysFor(es[i], b.index, id)
  {
    SettlementExact(b, es);
    if HitByAny(b, es, id) {
      var e :| e in es && Hits(b, e, id);
      var i :| 0 <= i < |es| && es[i] == e;
    }
    if i :| 0 <= i < |es| && PaysFor(es[i], b.index, id) {
      assert es[i] in es && Hits(b, es[i], id);
    }
  }

  /** Transactions without a transfer as first contract leave everything as it is. */
  lemma {:induction false} OthersSettleNothing(b: Book, es: seq<Seen>)
    requires forall e :: e in es ==> |e.tx.contracts| == 0 || e.tx.contracts[0].kind != "TransferContract"
    ensures SettledAll(b, es) == b
  {
    if es != [] {
      assert es[|es| - 1] in es;
      OthersSettleNothing(b, es[..|es| - 1]);
    }
  }

  /** What a transfer due does: the order is paid, a callback called, and the index entry dropped if that succeeds. */
  lemma DueTransfer(b: Book, e: Seen, amount: int, id: string)
    requires e.tx.contracts != [] && e.tx.contracts[0] == Contract("TransferContract", amount)
    requires TruncDiv(e.tx.blockTimestamp, 1000) >= (e.now - 600_000_000_000) / 1_000_000_000
    requires amount in b.index && b.index[amount] == id && id in b.orders && b.orders[id].status == Pending
    ensures var b', o := Settled(b, e), b.orders[id];
            && b'.orders == b.orders[id := Order(o.id, o.amount, o.actual, Paid, o.createdAt, o.callback)]
            && b'.calls == (if o.callback == "" then b.calls else b.calls + [id])
            && b'.index == (if o.callback != "" && e.callbackOk then b.index - {amount} else b.index)
            && b'.intervals == b.intervals
  {
  }

  lemma {:induction false} SettledAllAppend(b: Book, es: seq<Seen>, fs: seq<Seen>)
    ensures SettledAll(b, es + fs) == SettledAll(SettledAll(b, es), fs)
    decreases |fs|
  {
    if fs == [] {
      assert es + fs == es;
    } else {
      var front := fs[..|fs| - 1];
      SettledAllAppend(b, es, front);
      assert (es + fs)[..|es + fs| - 1] == es + front;
    }
  }

  /**
  Meeting transactions again, at the same time or at any later one and whatever becomes of the callbacks,
  pays nothing more and calls nobody again.
  */
  lemma ReplayIsHarmless(b: Book, es: seq<Seen>, again: seq<Seen>)
    requires Covered(again, es)
    ensures SettledAll(SettledAll(b, es), again).orders == SettledAll(b, es).orders
    ensures multiset(SettledAll(SettledAll(b, es), again).calls) == multiset(SettledAll(b, es).calls)
  {
    SettledAllAppend(b, es, again);
    forall e | e in es + again ensures Met(es, e) { }
    forall e | e in es ensures Met(es + again, e) { assert e in es + again; }
    SettlementConfluent(b, es + again, es);
  }

  /** The poller indexes the first contract of every recent transaction; without one it panics there. */
  predicate Panics(e: Seen) {
    InWindow(e) && e.tx.contracts == []
  }

  /** Position of the first transaction that makes the poller panic, or the length. */
  function PanicAt(seen: seq<Seen>): (k: nat)
    ensures k <= |seen|
    ensures k < |seen| ==> Panics(seen[k])
    ensures forall i :: 0 <= i < k ==> !Panics(seen[i])
  {
    if seen == [] || Panics(seen[0]) then 0 else 1 + PanicAt(seen[1..])
  }

  /** The transactions a poll gets through: every page up to the first failure or panic. */
  function Reached(pages: seq<Page>): seq<Seen> {
    if pages == [] || !pages[0].Fetched? then []
    else if PanicAt(pages[0].seen) < |pages[0].seen| then pages[0].seen[..PanicAt(pages[0].seen)]
    else pages[0].seen + Reached(pages[1..])
  }

  /** The poll ends in a panic: a page that is no JSON, or a recent transaction without contracts. */
  predicate PollPanics(pages: seq<Page>) {
    pages != [] && !pages[0].FetchFailed? &&
    (pages[0].Undecodable? || PanicAt(pages[0].seen) < |pages[0].seen| || PollPanics(pages[1..]))
  }

  /** Exactly the transactions with nothing before them that stops the poll, and that do not stop it themselves. */
  lemma {:induction false} ReachedExactly(pages: seq<Page>, e: Seen)
    ensures e in Reached(pages) <==> exists i, j :: Reaches(pages, i, j) && pages[i].seen[j] == e
  {
    if pages != [] && pages[0].Fetched? {
      var seen, rest := pages[0].seen, pages[1..];
      ReachedExactly(rest, e);
      forall i: int, j: int | i >= 1
        ensures Reaches(pages, i, j) <==> PanicAt(seen) == |seen| && Reaches(rest, i - 1, j)
      {
        ReachesRest(pages, i, j);
      }
      if e in Reached(pages) {
        if e in seen[..PanicAt(seen)] {
          var j :| 0 <= j < PanicAt(seen) && seen[j] == e;
          assert Reaches(pages, 0, j);
        } else {
          var i, j :| Reaches(rest, i, j) && rest[i].seen[j] == e;
          assert Reaches(pages, i + 1, j);
        }
      }
      if i, j :| Reaches(pages, i, j) && pages[i].seen[j] == e {
        if i == 0 {
          assert seen[j] in seen[..PanicAt(seen)];
        } else {
          assert Reaches(rest, i - 1, j);
        }
      }
    }
  }

  /** Every page up to `i` is fetched, and nothing up to transaction `j` of that page stops the poll. */
  ghost predicate Reaches(pages: seq<Page>, i: int, j: int) {
    && 0 <= i < |pages|
    && (forall h :: 0 <= h <= i ==> pages[h].Fetched?)
    && (forall h, k :: 0 <= h < i && 0 <= k < |pages[h].seen| ==> !Panics(pages[h].seen[k]))
    && 0 <= j < |pages[i].seen| && forall k :: 0 <= k <= j ==> !Panics(pages[i].seen[k])
  }

  lemma ReachesRest(pages: seq<Page>, i: int, j: int)
    requires pages != [] && pages[0].Fetched? && i >= 1
    ensures Reaches(pages, i, j) <==> PanicAt(pages[0].seen) == |pages[0].seen| && Reaches(pages[1..], i - 1, j)
  {
    var seen, rest := pages[0].seen, pages[1..];
    assert forall h :: 1 <= h < |pages| ==> pages[h] == rest[h - 1];
    if Reaches(pages, i, j) {
      assert forall k :: 0 <= k < |seen| ==> !Panics(pages[0].seen[k]);
      forall h | 0 <= h <= i - 1 ensures rest[h].Fetched? { assert pages[h + 1].Fetched?; }
      forall h, k | 0 <= h < i - 1 && 0 <= k < |rest[h].seen| ensures !Panics(rest[h].seen[k]) {
        assert !Panics(pages[h + 1].seen[k]);
      }
    }
  }

  /** A poll panics exactly at the first page that stops it, if that is no JSON or holds a panicking transaction. */
  lemma {:induction false} PollPanicsExactly(pages: seq<Page>)
    ensures PollPanics(pages) <==>
            exists i :: 0 <= i < |pages| && Clean(pages[..i])
                        && (pages[i].Undecodable? || (pages[i].Fetched? && exists e :: e in pages[i].seen && Panics(e)))
  {
    if pages != [] {
      var rest := pages[1..];
      PollPanicsExactly(rest);
      if PollPanics(pages) && pages[0].Fetched? && PanicAt(pages[0].seen) == |pages[0].seen| {
        var i :| 0 <= i < |rest| && Clean(rest[..i])
                 && (rest[i].Undecodable? || (rest[i].Fetched? && exists e :: e in rest[i].seen && Panics(e)));
        CleanRest(pages[0], rest[..i]);
        assert pages[..i + 1] == [pages[0]] + rest[..i] && pages[i + 1] == rest[i];
      } else if PollPanics(pages) {
        assert pages[..0] == [] && Clean(pages[..0]);
        if pages[0].Fetched? { assert pages[0].seen[PanicAt(pages[0].seen)] in pages[0].seen; }
      }
      if i :| 0 <= i < |pages| && Clean(pages[..i])
              && (pages[i].Undecodable? || (pages[i].Fetched? && exists e :: e in pages[i].seen && Panics(e))) {
        if i > 0 {
          assert pages[..i] == [pages[0]] + rest[..i - 1] && pages[..i][0] == pages[0];
          CleanRest(pages[0], rest[..i - 1]);
          assert rest[i - 1] == pages[i];
        }
      }
    }
  }

  lemma CleanRest(page: Page, rest: seq<Page>)
    ensures Clean([page] + rest) <==> page.Fetched? && PanicAt(page.seen) == |page.seen| && Clean(rest)
  {
    var all := [page] + rest;
    assert all[0] == page && forall h :: 0 <= h < |rest| ==> all[h + 1] == rest[h];
    if Clean(all) {
      forall h | 0 <= h < |rest| ensures rest[h].Fetched? && PanicAt(rest[h].seen) == |rest[h].seen| {
        assert all[h + 1].Fetched?;
      }
    }
  }

  ghost predicate OnPages(pages: seq<Page>, e: Seen) {
    exists i :: 0 <= i < |pages| && pages[i].Fetched? && e in pages[i].seen
  }

  /** Every page arrives and nothing on it makes the poller panic. */
  ghost predicate Clean(pages: seq<Page>) {
    forall i :: 0 <= i < |pages| ==> pages[i].Fetched? && PanicAt(pages[i].seen) == |pages[i].seen|
  }

  lemma {:induction false} CleanIsReached(pages: seq<Page>, e: Seen)
    requires Clean(pages)
    ensures e in Reached(pages) <==> OnPages(pages, e)
  {
    if pages != [] {
      var rest := pages[1..];
      assert Clean(rest);
      CleanIsReached(rest, e);
      if OnPages(pages, e) && e !in pages[0].seen {
        var i :| 0 <= i < |pages| && e in pages[i].seen;
        assert rest[i - 1] == pages[i];
      }
      if OnPages(rest, e) {
        var i :| 0 <= i < |rest| && e in rest[i].seen;
        assert pages[i + 1] == rest[i];
      }
    }
  }

  /** Corollary of confluence: how the same transactions are cut into pages does not matter. */
  lemma PagingIrrelevant(b: Book, pages: seq<Page>, others: seq<Page>)
    requires Clean(pages) && Clean(others)
    requires forall e :: OnPages(pages, e) <==> OnPages(others, e)
    ensures SettledAll(b, Reached(pages)).orders == SettledAll(b, Reached(others)).orders
    ensures multiset(SettledAll(b, Reached(pages)).calls) == multiset(SettledAll(b, Reached(others)).calls)
  {
    forall e ensures e in Reached(pages) <==> e in Reached(others) {
      CleanIsReached(pages, e);
      CleanIsReached(others, e);
    }
    SettlementConfluent(b, Reached(pages), Reached(others));
  }

  // ----- Timeout -----

  predicate TimedOut(o: Order, now: int) {
    now - o.createdAt > PAYMENT_TIMEOUT
  }

  /** The index without the actual amounts of the timed-out orders among `ids`. */
  function Without(index: map<int, string>, orders: map<string, Order>, ids: set<string>, now: int): map<int, string> {
    map a |
      a in index && !(exists id :: id in ids && id in orders && TimedOut(orders[id], now) && orders[id].actual == a)
      :: index[a]
  }

  function Expired(b: Book, now: int): Book {
    b.(index := Without(b.index, b.orders, b.orders.Keys, now))
  }

  // ----- The service -----

  lemma PanicsExactly(seen: seq<Seen>)
    ensures PanicAt(seen) < |seen| <==> exists i :: 0 <= i < |seen| && seen[i].tx.contracts == [] && TenMinutes(seen[i])
  {
    if i :| 0 <= i < |seen| && seen[i].tx.contracts == [] && TenMinutes(seen[i]) {
      assert Panics(seen[i]);
    }
  }

  lemma PageSettles(b: Book, seen: seq<Seen>, id: string)
    requires id in b.orders
    ensures var b' := SettledAll(b, seen[..PanicAt(seen)]);
            && id in b'.orders && b'.orders[id] == b.orders[id].(status := b'.orders[id].status)
            && (b'.orders[id].status == Paid <==>
                  b.orders[id].status == Paid || exists i :: 0 <= i < PanicAt(seen) && PaysFor(seen[i], b.index, id))
  {
    var es := seen[..PanicAt(seen)];
    PaidExactly(b, es, id);
    assert forall i :: 0 <= i < |es| ==> es[i] == seen[i];
  }

  class OrderService {
    const intervalSet: IntervalSet
    var orders: map<string, Order>
    var index: map<int, string>
    var calls: seq<string>

    ghost predicate Valid()
      reads this, intervalSet
    {
      Canonical(intervalSet.intervals)
    }

    ghost function View(): Book
      reads this, intervalSet
    {
      Book(intervalSet.intervals, orders, index, calls)
    }

    constructor ()
      ensures Valid() && fresh(intervalSet)
      ensures View() == Book([], map[], map[], [])
    {
      intervalSet := new IntervalSet();
      orders, index, calls := map[], map[], [];
    }

    method MapAmountToActualAmount(amount: Amount) returns (actual: int)
      requires Valid()
      modifies intervalSet
      ensures Valid()
      ensures actual == NextFree(old(intervalSet.intervals), amount)
      ensures intervalSet.intervals == AddTo(old(intervalSet.intervals), actual)
    {
      NextFreeIsUnused(intervalSet.intervals, amount);
      NextFreeCorrect(intervalSet.intervals, amount);
      actual := intervalSet.NextMissing(amount);
      assert !WrapsAt(intervalSet.intervals, actual);
      intervalSet.Add(actual);
    }

    method CreateOrder(id: string, amount: Amount, callback: string, now: int) returns (order: Order)
      requires Valid()
      modifies this, intervalSet
      ensures Valid()
      ensures View() == Created(old(View()), id, amount, callback, now)
      ensures order == Order(id, amount, order.actual, Pending, now, callback)
      ensures orders == old(orders)[id := order] && index == old(index)[order.actual := id] && calls == old(calls)
      ensures IsLeastFree(old(intervalSet.intervals), amount, order.actual)
              || (Exhausted(old(intervalSet.intervals), amount) && order.actual == MIN_INT)
    {
      NextFreeCorrect(intervalSet.intervals, amount);
      var actual := MapAmountToActualAmount(amount);
      order := Order(id, amount, actual, Pending, now, callback);
      orders := orders[id := order];
      index := index[actual := id];
    }

    /** The nested page and transaction loops of one poll, up to its end, a failed fetch or a panic. */
    method UpdateOrderStatus(pages: seq<Page>) returns (panicked: bool)
      modifies this
      ensures View() == SettledAll(old(View()), Reached(pages))
      ensures panicked <==> PollPanics(pages)
      ensures unchanged(intervalSet)
      ensures forall id :: id in old(orders) ==>
                && id in orders && orders[id] == old(orders)[id].(status := orders[id].status)
                && (orders[id].status == Paid <==>
                      old(orders)[id].status == Paid ||
                      exists i :: 0 <= i < |Reached(pages)| && PaysFor(Reached(pages)[i], old(index), id))
    {
      forall id | id in orders { PaidExactly(View(), Reached(pages), id); }
      ghost var was := View();
      var p := 0;
      assert pages[0..] == pages;
      while p < |pages|
        invariant 0 <= p <= |pages|
        invariant SettledAll(View(), Reached(pages[p..])) == SettledAll(was, Reached(pages))
        invariant PollPanics(pages[p..]) <==> PollPanics(pages)
      {
        ghost var rest, b := pages[p..], View();
        assert rest[0] == pages[p] && rest[1..] == pages[p + 1..];
        match pages[p]
        case FetchFailed =>
          return false;
        case Undecodable =>
          return true;
        case Fetched(seen) =>
          panicked := SettlePage(seen);
          if panicked {
            return;
          }
          assert seen[..|seen|] == seen;
          SettledAllAppend(b, seen, Reached(rest[1..]));
          p := p + 1;
      }
      return false;
    }

    /** One page; ends at the first transaction on which the poller panics. */
    method SettlePage(seen: seq<Seen>) returns (panicked: bool)
      modifies this
      ensures View() == SettledAll(old(View()), seen[..PanicAt(seen)])
      ensures panicked <==> PanicAt(seen) < |seen|
      ensures panicked <==> exists i :: 0 <= i < |seen| && seen[i].tx.contracts == [] && TenMinutes(seen[i])
      ensures forall id :: id in old(orders) ==>
                && id in orders && orders[id] == old(orders)[id].(status := orders[id].status)
                && (orders[id].status == Paid <==>
                      old(orders)[id].status == Paid ||
                      exists i :: 0 <= i < PanicAt(seen) && PaysFor(seen[i], old(index), id))
    {
      ghost var was := View();
      panicked := SettleAll(seen);
      PanicsExactly(seen);
      forall id | id in was.orders { PageSettles(was, seen, id); }
    }

    /** The transaction loop. */
    method SettleAll(seen: seq<Seen>) returns (panicked: bool)
      modifies this
      ensures View() == SettledAll(old(View()), seen[..PanicAt(seen)])
      ensures panicked <==> PanicAt(seen) < |seen|
    {
      ghost var was := View();
      for i := 0 to |seen|
        invariant i <= PanicAt(seen)
        invariant View() == SettledAll(was, seen[..i])
      {
        assert seen[..i + 1][..i] == seen[..i];
        panicked := SettleOne(seen[i]);
        if panicked {
          return;
        }
      }
      return false;
    }

    /** The loop body: time filter, contract filter, lookups, status change, callback, index deletion. */
    method SettleOne(e: Seen) returns (panicked: bool)
      modifies this
      ensures View() == Settled(old(View()), e)
      ensures panicked <==> Panics(e)
      ensures |e.tx.contracts| > 0 && e.tx.contracts[0].kind != "TransferContract" ==> View() == old(View())
      ensures forall a, id ::
                && |e.tx.contracts| > 0 && e.tx.contracts[0] == Contract("TransferContract", a)
                && a in old(index) && old(index)[a] == id && id in old(orders) && old(orders)[id].status == Pending ==>
                  id in orders && (orders[id].status == Paid <==>
                    TruncDiv(e.tx.blockTimestamp, 1000) >= (e.now - 600 * 1_000_000_000) / 1_000_000_000)
    {
      var tx := e.tx;
      if TruncDiv(tx.blockTimestamp, 1000) < (e.now - PAYMENT_TIMEOUT) / SECOND {
        return false;
      }
      if |tx.contracts| == 0 {
        return true;
      }
      panicked := false;
      if tx.contracts[0].kind != "TransferContract" {
        return;
      }
      var amount := tx.contracts[0].amount;
      if amount !in index {
        return;
      }
      var orderID := index[amount];
      if orderID !in orders {
        return;
      }
      if orders[orderID].status == Pending {
        orders := orders[orderID := orders[orderID].(status := Paid)];
        if orders[orderID].callback != "" {
          calls := calls + [orderID];
          if !e.callbackOk {
            return;
          }
          index := index - {amount};
        }
      }
    }

    /** Visits the orders in any order. */
    method RemoveTimeoutOrders(now: int)
      modifies this
      ensures View() == Expired(old(View()), now)
      ensures orders == old(orders) && calls == old(calls)
      ensures forall a :: a in index <==>
                && a in old(index)
                && !exists id :: id in orders && orders[id].actual == a && now - orders[id].createdAt > 600_000_000_000
      ensures forall a :: a in index ==> index[a] == old(index)[a]
    {
      ghost var was := index;
      var todo := orders.Keys;
      while todo != {}
        invariant todo <= orders.Keys && orders == old(orders) && calls == old(calls)
        invariant index == Without(was, orders, orders.Keys - todo, now)
        decreases |todo|
      {
        var id :| id in todo;
        if TimedOut(orders[id], now) {
          index := index - {orders[id].actual};
        }
        todo := todo - {id};
      }
    }
  }
}
