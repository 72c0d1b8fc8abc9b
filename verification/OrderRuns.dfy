/**
Whole runs of the payment service: order creation, one poller transaction at a time and
timeout removal, interleaved in any way. A ledger remembers what a run handed out and credited.
*/
module OrderRuns {
  import opened Int64
  import opened IntervalSets
  import opened Orders

  datatype Step =
    | Create(id: string, amount: Amount, callback: string, now: int)
    | Observe(seen: Seen)
    | Expire(now: int)

  /** An amount handed out to an order id. */
  datatype Issue = Issue(id: string, actual: int)

  /** A transfer of `amount` turned the order `order` from pending to paid. */
  datatype Credit = Credit(amount: int, order: Order)

  datatype Ledger = Ledger(book: Book, issues: seq<Issue>, credits: seq<Credit>)

  /** The order the transaction turns from pending to paid, if any, as it was before. */
  function Credits(b: Book, e: Seen): seq<Credit> {
    if !IsTransfer(e) || e.tx.contracts[0].amount !in b.index then [] else
    var amount := e.tx.contracts[0].amount;
    var id := b.index[amount];
    if id in b.orders && b.orders[id].status.Pending? then [Credit(amount, b.orders[id])] else []
  }

  /** A credit is recorded exactly when the books of orders show a payment. */
  lemma CreditsArePayments(b: Book, e: Seen, id: string)
    requires id in b.orders
    ensures Settled(b, e).orders[id] != b.orders[id] <==>
            exists c :: c in Credits(b, e) && c.order == b.orders[id] && b.index[c.amount] == id
  {
    if Settled(b, e).orders[id] != b.orders[id] {
      assert Credits(b, e)[0].order == b.orders[id];
    }
  }

  function Next(l: Ledger, step: Step): Ledger {
    match step
    case Create(id, amount, callback, now) =>
      Ledger(Created(l.book, id, amount, callback, now),
             l.issues + [Issue(id, NextFree(l.book.intervals, amount))],
             l.credits)
    case Observe(e) =>
      Ledger(Settled(l.book, e), l.issues, l.credits + Credits(l.book, e))
    case Expire(now) =>
      l.(book := Expired(l.book, now))
  }

  function Run(steps: seq<Step>): Ledger {
    if steps == [] then Ledger(Book([], map[], map[], []), [], [])
    else Next(Run(steps[..|steps| - 1]), steps[|steps| - 1])
  }

  function Observed(es: seq<Seen>): seq<Step> {
    if es == [] then [] else Observed(es[..|es| - 1]) + [Observe(es[|es| - 1])]
  }

  lemma RunObserve(steps: seq<Step>, e: Seen)
    ensures Run(steps + [Observe(e)]).book == Settled(Run(steps).book, e)
    ensures Run(steps + [Observe(e)]).issues == Run(steps).issues
  {
    assert (steps + [Observe(e)])[..|steps|] == steps;
  }

  /** A whole poll is part of these runs: it is a sequence of transactions met one by one. */
  lemma {:induction false} PollContinuesRun(steps: seq<Step>, es: seq<Seen>)
    ensures Run(steps + Observed(es)).book == SettledAll(Run(steps).book, es)
    ensures Run(steps + Observed(es)).issues == Run(steps).issues
    decreases |es|
  {
    if es == [] {
      assert steps + [] == steps;
    } else {
      var front, last := es[..|es| - 1], es[|es| - 1];
      PollContinuesRun(steps, front);
      assert steps + Observed(es) == (steps + Observed(front)) + [Observe(last)];
      RunObserve(steps + Observed(front), last);
    }
  }

  // ----- The interval list is the set of amounts handed out -----

  ghost predicate Issued(issues: seq<Issue>, a: int) {
    exists i :: 0 <= i < |issues| && issues[i].actual == a
  }

  ghost predicate ListIsIssued(l: Ledger) {
    && Canonical(l.book.intervals)
    && forall a :: Contains(l.book.intervals, a) <==> Issued(l.issues, a)
  }

  /** In every run, whatever is asked for, the list stays canonical and holds exactly the amounts handed out. */
  lemma {:induction false} IntervalsTrackIssues(steps: seq<Step>)
    ensures ListIsIssued(Run(steps))
  {
    if steps != [] {
      var front, step := steps[..|steps| - 1], steps[|steps| - 1];
      IntervalsTrackIssues(front);
      var l := Run(front);
      if step.Create? {
        var a := NextFree(l.book.intervals, step.amount);
        NextFreeIsUnused(l.book.intervals, step.amount);
        AddToCorrect(l.book.intervals, a);
        IssuedGrows(l.issues, Issue(step.id, a));
      }
    }
  }

  lemma IssuedGrows(issues: seq<Issue>, n: Issue)
    ensures forall a :: Issued(issues + [n], a) <==> Issued(issues, a) || a == n.actual
  {
    forall a ensures Issued(issues + [n], a) <==> Issued(issues, a) || a == n.actual {
      var more := issues + [n];
      assert more[|issues|] == n;
      if Issued(issues, a) {
        var i :| 0 <= i < |issues| && issues[i].actual == a;
        assert more[i].actual == a;
      }
    }
  }

  // ----- No amount is handed out twice -----

  ghost predicate DistinctAmounts(issues: seq<Issue>) {
    forall i, j :: 0 <= i < j < |issues| ==> issues[i].actual != issues[j].actual
  }

  /** Every 64-bit amount from the requested one up is taken, and so is the one the search wraps to. */
  ghost predicate Collides(b: Book, amount: int) {
    Exhausted(b.intervals, amount) && Contains(b.intervals, MIN_INT)
  }

  ghost predicate NoCollision(steps: seq<Step>) {
    forall k :: 0 <= k < |steps| && steps[k].Create? ==> !Collides(Run(steps[..k]).book, steps[k].amount)
  }

  lemma PrefixOf(steps: seq<Step>, k: nat)
    requires k < |steps|
    ensures steps[..|steps| - 1][..k] == steps[..k]
  {
  }

  lemma CollisionPrefix(steps: seq<Step>)
    requires steps != []
    ensures NoCollision(steps) <==>
            NoCollision(steps[..|steps| - 1]) &&
            (steps[|steps| - 1].Create? ==> !Collides(Run(steps[..|steps| - 1]).book, steps[|steps| - 1].amount))
  {
    var front := steps[..|steps| - 1];
    forall k: nat | k < |front| ensures front[..k] == steps[..k] { PrefixOf(steps, k); }
  }

  /** Amounts are never handed out twice, in exactly the runs where no request collides. */
  lemma {:induction false} AmountsIssuedOnce(steps: seq<Step>)
    ensures DistinctAmounts(Run(steps).issues) <==> NoCollision(steps)
  {
    if steps != [] {
      var front, step := steps[..|steps| - 1], steps[|steps| - 1];
      AmountsIssuedOnce(front);
      IntervalsTrackIssues(front);
      CollisionPrefix(steps);
      var l := Run(front);
      if step.Create? {
        var a := NextFree(l.book.intervals, step.amount);
        NextFreeIsUnused(l.book.intervals, step.amount);
        DistinctGrows(l.issues, Issue(step.id, a));
      }
    }
  }

  lemma DistinctGrows(issues: seq<Issue>, n: Issue)
    ensures DistinctAmounts(issues + [n]) <==> DistinctAmounts(issues) && !Issued(issues, n.actual)
  {
    var more := issues + [n];
    assert forall i :: 0 <= i < |issues| ==> more[i] == issues[i];
    assert more[|issues|] == n;
  }

  /** Three requests for the largest amount: the second wraps, the third gets the second's amount again. */
  lemma LargestAmountCollides(id1: string, id2: string, id3: string)
    ensures var steps := [Create(id1, MAX_INT, "", 0), Create(id2, MAX_INT, "", 0), Create(id3, MAX_INT, "", 0)];
            && !NoCollision(steps)
            && Run(steps).issues == [Issue(id1, MAX_INT), Issue(id2, MIN_INT), Issue(id3, MIN_INT)]
  {
    var s1, s2, s3 := Create(id1, MAX_INT, "", 0), Create(id2, MAX_INT, "", 0), Create(id3, MAX_INT, "", 0);
    var steps := [s1, s2, s3];
    assert steps[..2] == [s1, s2] && steps[..2][..1] == [s1] && [s1][..0] == [];
    assert Run([s1]).book.intervals == [Interval(MAX_INT, MAX_INT)];
    assert Run([s1, s2]) == Next(Run([s1]), s2);
    assert Run([s1, s2]).book.intervals == [Interval(MIN_INT, MIN_INT), Interval(MAX_INT, MAX_INT)];
    assert Run(steps) == Next(Run([s1, s2]), s3);
    assert Run(steps).issues[1] == Issue(id2, MIN_INT) && Run(steps).issues[2] == Issue(id3, MIN_INT);
    AmountsIssuedOnce(steps);
  }

  ghost function AmountSet(issues: seq<Issue>): (r: set<int>)
    ensures forall a :: a in r <==> Issued(issues, a)
    ensures |r| <= |issues|
  {
    if issues == [] then {} else
    IssuedGrows(issues[..|issues| - 1], issues[|issues| - 1]);
    assert issues == issues[..|issues| - 1] + [issues[|issues| - 1]];
    AmountSet(issues[..|issues| - 1]) + {issues[|issues| - 1].actual}
  }

  /** The surcharge is at most the number of orders so far, and below that bound no arithmetic wraps. */
  lemma SurchargeAtMostOrders(steps: seq<Step>, amount: Amount)
    ensures var l := Run(steps);
            && (amount + |l.issues| <= MAX_INT ==> !Exhausted(l.book.intervals, amount))
            && (!Exhausted(l.book.intervals, amount) ==>
                  0 <= NextFree(l.book.intervals, amount) - amount <= |l.issues|)
  {
    IntervalsTrackIssues(steps);
    SurchargeBound(Run(steps).book.intervals, AmountSet(Run(steps).issues), amount);
  }

  // ----- No transfer credits another order -----

  /** Every live index entry names an existing order with that very amount. */
  ghost predicate IndexConsistent(b: Book) {
    forall a :: a in b.index ==> b.index[a] in b.orders && b.orders[b.index[a]].actual == a
  }

  /** The id still has an index entry. */
  ghost predicate LiveId(b: Book, id: string) {
    exists a :: a in b.index && b.index[a] == id
  }

  /** Creating an order keeps the index consistent exactly when no other live entry carries its id. */
  lemma CreateKeepsIndex(b: Book, id: string, amount: Amount, callback: string, now: int)
    requires IndexConsistent(b)
    ensures IndexConsistent(Created(b, id, amount, callback, now)) <==>
            forall a :: a in b.index && b.index[a] == id ==> a == NextFree(b.intervals, amount)
  {
    var actual, b' := NextFree(b.intervals, amount), Created(b, id, amount, callback, now);
    forall a | a in b.index && b.index[a] == id && a != actual ensures a in b'.index && b'.index[a] == id { }
  }

  function PlainTransfer(amount: int): Seen {
    Seen(Transaction(0, [Contract("TransferContract", amount)]), 0, true)
  }

  /** Every transfer that could settle something now would pay an order of exactly its amount. */
  ghost predicate CreditsMatch(b: Book) {
    forall e, c :: c in Credits(b, e) ==> c.amount == c.order.actual
  }

  /**
  After a creation no transfer can pay an order that asks for another amount if and only if no other
  live entry carries the new order's id.
  */
  lemma CreateKeepsCredits(b: Book, id: string, amount: Amount, callback: string, now: int)
    requires IndexConsistent(b)
    ensures CreditsMatch(Created(b, id, amount, callback, now)) <==>
            forall a :: a in b.index && b.index[a] == id ==> a == NextFree(b.intervals, amount)
  {
    CreateKeepsIndex(b, id, amount, callback, now);
    var b', actual := Created(b, id, amount, callback, now), NextFree(b.intervals, amount);
    if a :| a in b.index && b.index[a] == id && a != actual {
      assert IsTransfer(PlainTransfer(a));
      assert Credits(b', PlainTransfer(a)) == [Credit(a, b'.orders[id])];
      assert Credit(a, b'.orders[id]) in Credits(b', PlainTransfer(a));
    }
  }

  ghost predicate NoLiveReuse(steps: seq<Step>) {
    forall k :: 0 <= k < |steps| && steps[k].Create? ==> !LiveId(Run(steps[..k]).book, steps[k].id)
  }

  lemma LiveReusePrefix(steps: seq<Step>)
    requires steps != [] && NoLiveReuse(steps)
    ensures NoLiveReuse(steps[..|steps| - 1])
    ensures steps[|steps| - 1].Create? ==> !LiveId(Run(steps[..|steps| - 1]).book, steps[|steps| - 1].id)
  {
    var front := steps[..|steps| - 1];
    forall k: nat | k < |front| ensures front[..k] == steps[..k] { PrefixOf(steps, k); }
  }

  lemma {:induction false} IndexStaysConsistent(steps: seq<Step>)
    requires NoLiveReuse(steps)
    ensures IndexConsistent(Run(steps).book)
  {
    if steps != [] {
      LiveReusePrefix(steps);
      IndexStaysConsistent(steps[..|steps| - 1]);
      var l, step := Run(steps[..|steps| - 1]), steps[|steps| - 1];
      if step.Create? {
        CreateKeepsIndex(l.book, step.id, step.amount, step.callback, step.now);
      }
    }
  }

  /** Every index entry and every credit goes back to an issue of that amount to that id. */
  ghost predicate Traceable(l: Ledger) {
    && (forall a :: a in l.book.index ==> Issue(l.book.index[a], a) in l.issues)
    && (forall id :: id in l.book.orders ==> l.book.orders[id].id == id)
    && (forall c :: c in l.credits ==> Issue(c.order.id, c.amount) in l.issues)
  }

  lemma {:induction false} RunsAreTraceable(steps: seq<Step>)
    ensures Traceable(Run(steps))
  {
    if steps != [] {
      RunsAreTraceable(steps[..|steps| - 1]);
      var l, step := Run(steps[..|steps| - 1]), steps[|steps| - 1];
      if step.Create? {
        var n := Issue(step.id, NextFree(l.book.intervals, step.amount));
        assert forall x :: x in l.issues + [n] <==> x in l.issues || x == n;
      }
    }
  }

  /**
  Whatever the interleaving, a transfer pays an order with exactly that actual amount, and that
  order is the only one the amount was ever handed out to, even after its index entry is gone.
  */
  lemma {:induction false} NoCrossCredit(steps: seq<Step>)
    requires NoLiveReuse(steps) && NoCollision(steps)
    ensures forall c :: c in Run(steps).credits ==>
              && c.amount == c.order.actual
              && Issue(c.order.id, c.amount) in Run(steps).issues
              && forall n :: n in Run(steps).issues && n.actual == c.amount ==> n.id == c.order.id
  {
    RunsAreTraceable(steps);
    AmountsIssuedOnce(steps);
    CreditsMatchOrders(steps);
    forall c, n | c in Run(steps).credits && n in Run(steps).issues && n.actual == c.amount
      ensures n.id == c.order.id
    {
      var m := Issue(c.order.id, c.amount);
      var i :| 0 <= i < |Run(steps).issues| && Run(steps).issues[i] == m;
      var j :| 0 <= j < |Run(steps).issues| && Run(steps).issues[j] == n;
    }
  }

  lemma {:induction false} CreditsMatchOrders(steps: seq<Step>)
    requires NoLiveReuse(steps)
    ensures forall c :: c in Run(steps).credits ==> c.amount == c.order.actual
  {
    if steps != [] {
      LiveReusePrefix(steps);
      CreditsMatchOrders(steps[..|steps| - 1]);
      IndexStaysConsistent(steps[..|steps| - 1]);
    }
  }

  /** Reusing a live id: a transfer of the first order's amount pays the second order, which asks for another. */
  lemma ReusedIdIsCrossCredited(id: string)
    ensures var steps := [Create(id, 5, "", 0), Create(id, 5, "", 0), Observe(PlainTransfer(5))];
            !NoLiveReuse(steps) && Run(steps).credits == [Credit(5, Order(id, 5, 6, Pending, 0, ""))]
  {
    var s1, s2, s3 := Create(id, 5, "", 0), Create(id, 5, "", 0), Observe(PlainTransfer(5));
    var steps := [s1, s2, s3];
    assert steps[..2] == [s1, s2] && steps[..2][..1] == [s1] && [s1][..0] == [] && steps[..1] == [s1];
    var l1 := Run([s1]);
    assert l1 == Next(Run([]), s1);
    assert NextFree([], 5) == 5 && AddTo([], 5) == [Interval(5, 5)];
    assert l1.book.intervals == [Interval(5, 5)] && l1.book.index == map[5 := id];
    assert LiveId(l1.book, id) by { assert l1.book.index[5] == id; }
    assert steps[1].Create?;
    var l2 := Run([s1, s2]);
    assert l2 == Next(l1, s2);
    assert NextFree([Interval(5, 5)], 5) == 6;
    assert l2.book.index == map[5 := id, 6 := id];
    assert l2.book.orders == map[id := Order(id, 5, 6, Pending, 0, "")];
    assert Run(steps) == Next(l2, s3);
    assert IsTransfer(PlainTransfer(5));
  }

  // ----- Status only moves from pending to paid -----

  ghost predicate FreshIds(steps: seq<Step>) {
    forall k :: 0 <= k < |steps| && steps[k].Create? ==> steps[k].id !in Run(steps[..k]).book.orders
  }

  lemma FreshPrefix(steps: seq<Step>)
    requires steps != [] && FreshIds(steps)
    ensures FreshIds(steps[..|steps| - 1])
    ensures steps[|steps| - 1].Create? ==> steps[|steps| - 1].id !in Run(steps[..|steps| - 1]).book.orders
  {
    var front := steps[..|steps| - 1];
    forall k: nat | k < |front| ensures front[..k] == steps[..k] { PrefixOf(steps, k); }
  }

  /** Nothing but a pending-to-paid move separates an earlier order from a later one. */
  ghost predicate Advanced(o: Order, o': Order) {
    o' == o || (o.status.Pending? && o' == o.(status := Paid))
  }

  lemma StepAdvances(l: Ledger, step: Step, id: string)
    requires id in l.book.orders && (step.Create? ==> step.id !in l.book.orders)
    ensures id in Next(l, step).book.orders
    ensures Advanced(l.book.orders[id], Next(l, step).book.orders[id])
  {
  }

  /** With fresh ids an order is never lost or rewritten, and once paid it stays paid. */
  lemma {:induction false} StatusOnlyAdvances(steps: seq<Step>, j: nat, id: string)
    requires FreshIds(steps) && j <= |steps| && id in Run(steps[..j]).book.orders
    ensures id in Run(steps).book.orders
    ensures Advanced(Run(steps[..j]).book.orders[id], Run(steps).book.orders[id])
    decreases |steps|
  {
    if j == |steps| {
      assert steps[..j] == steps;
    } else {
      FreshPrefix(steps);
      PrefixOf(steps, j);
      StatusOnlyAdvances(steps[..|steps| - 1], j, id);
      StepAdvances(Run(steps[..|steps| - 1]), steps[|steps| - 1], id);
    }
  }

  /** With fresh ids every callback is attempted at most once, and only for a paid order. */
  lemma {:induction false} CallbackAtMostOnce(steps: seq<Step>)
    requires FreshIds(steps)
    ensures forall i :: 0 <= i < |Run(steps).book.calls| ==>
              var id := Run(steps).book.calls[i];
              id in Run(steps).book.orders && Run(steps).book.orders[id].status.Paid?
    ensures forall i, j :: 0 <= i < j < |Run(steps).book.calls| ==> Run(steps).book.calls[i] != Run(steps).book.calls[j]
  {
    if steps != [] {
      FreshPrefix(steps);
      CallbackAtMostOnce(steps[..|steps| - 1]);
    }
  }

  /** Fresh ids are in particular never live. */
  lemma FreshIdsAreNotLive(steps: seq<Step>)
    requires FreshIds(steps)
    ensures NoLiveReuse(steps) && IndexConsistent(Run(steps).book)
  {
    FreshIdsNotLiveUpTo(steps);
    IndexStaysConsistent(steps);
  }

  lemma {:induction false} FreshIdsNotLiveUpTo(steps: seq<Step>)
    requires FreshIds(steps)
    ensures NoLiveReuse(steps)
  {
    if steps != [] {
      FreshPrefix(steps);
      FreshIdsNotLiveUpTo(steps[..|steps| - 1]);
      IndexStaysConsistent(steps[..|steps| - 1]);
      NoLiveReuseExtend(steps);
    }
  }

  lemma NoLiveReuseExtend(steps: seq<Step>)
    requires steps != [] && NoLiveReuse(steps[..|steps| - 1])
    requires steps[|steps| - 1].Create? ==> !LiveId(Run(steps[..|steps| - 1]).book, steps[|steps| - 1].id)
    ensures NoLiveReuse(steps)
  {
    var front := steps[..|steps| - 1];
    forall k | 0 <= k < |steps| && steps[k].Create? ensures !LiveId(Run(steps[..k]).book, steps[k].id) {
      if k < |front| {
        PrefixOf(steps, k);
        assert front[k] == steps[k];
      }
    }
  }

  // ----- A payment in time counts -----

  /** Every order goes back to an issue of its actual amount to its id. */
  ghost predicate OrdersIssued(l: Ledger) {
    forall id :: id in l.book.orders ==> Issue(id, l.book.orders[id].actual) in l.issues
  }

  lemma IssuedNext(l: Ledger, step: Step)
    requires OrdersIssued(l)
    ensures OrdersIssued(Next(l, step))
  {
    if step.Create? {
      var n := Issue(step.id, NextFree(l.book.intervals, step.amount));
      assert forall x :: x in l.issues + [n] <==> x in l.issues || x == n;
    }
  }

  lemma {:induction false} OrdersAreIssued(steps: seq<Step>)
    ensures OrdersIssued(Run(steps))
  {
    if steps != [] {
      OrdersAreIssued(steps[..|steps| - 1]);
      IssuedNext(Run(steps[..|steps| - 1]), steps[|steps| - 1]);
    }
  }

  lemma SoleIssue(issues: seq<Issue>, x: Issue, y: Issue)
    requires DistinctAmounts(issues) && x in issues && y in issues && x.actual == y.actual
    ensures x == y
  {
    var i :| 0 <= i < |issues| && issues[i] == x;
    var j :| 0 <= j < |issues| && issues[j] == y;
  }

  /** The order is pending, indexed and not called yet, or paid and called as often as it asks for. */
  ghost predicate Kept(b: Book, o: Order) {
    && o.id in b.orders
    && if b.orders[o.id].status.Pending?
       then b.orders[o.id] == o && o.id !in b.calls && o.actual in b.index && b.index[o.actual] == o.id
       else b.orders[o.id] == o.(status := Paid) && multiset(b.calls)[o.id] == if o.callback == "" then 0 else 1
  }

  ghost predicate SoleAmount(b: Book, o: Order) {
    forall id :: id in b.orders && b.orders[id].actual == o.actual ==> id == o.id
  }

  lemma CalledOnceMore(calls: seq<string>, id: string)
    ensures multiset(calls + [id])[id] == multiset(calls)[id] + 1
    ensures forall other :: other != id ==> multiset(calls + [id])[other] == multiset(calls)[other]
    ensures id !in calls ==> multiset(calls)[id] == 0
  {
  }

  lemma ObserveKeeps(b: Book, o: Order, e: Seen)
    requires Kept(b, o)
    ensures Kept(Settled(b, e), o)
  {
    CalledOnceMore(b.calls, o.id);
    if IsTransfer(e) && e.tx.contracts[0].amount in b.index {
      var id := b.index[e.tx.contracts[0].amount];
      if id != o.id { CalledOnceMore(b.calls, id); }
    }
  }

  lemma ExpireKeeps(b: Book, o: Order, now: int)
    requires Kept(b, o) && SoleAmount(b, o) && now - o.createdAt <= 600_000_000_000
    ensures Kept(Expired(b, now), o)
  {
  }

  lemma CreateKeeps(b: Book, o: Order, id: string, amount: Amount, callback: string, now: int)
    requires Kept(b, o) && id != o.id && NextFree(b.intervals, amount) != o.actual
    ensures Kept(Created(b, id, amount, callback, now), o)
  {
  }

  /** The order was created in the run, and timeouts have not come to it yet. */
  lemma {:induction false} OrderIsKept(pre: seq<Step>, o: Order, now: int, mid: seq<Step>)
    requires InRange(o.amount) && o.status.Pending? && o.createdAt == now
    requires o.actual == NextFree(Run(pre).book.intervals, o.amount)
    requires var steps := pre + [Create(o.id, o.amount, o.callback, now)] + mid; FreshIds(steps) && NoCollision(steps)
    requires forall step :: step in mid && step.Expire? ==> step.now - now <= 600_000_000_000
    ensures var l := Run(pre + [Create(o.id, o.amount, o.callback, now)] + mid);
            Kept(l.book, o) && Issue(o.id, o.actual) in l.issues
    decreases |mid|
  {
    var created := pre + [Create(o.id, o.amount, o.callback, now)];
    var steps := created + mid;
    FreshPrefix(steps);
    CollisionPrefix(steps);
    if mid == [] {
      assert steps == created && steps[..|steps| - 1] == pre;
      CallbackAtMostOnce(pre);
      JustCreated(Run(pre), o, now);
    } else {
      var front, step := created + mid[..|mid| - 1], mid[|mid| - 1];
      assert steps[..|steps| - 1] == front && steps[|steps| - 1] == step;
      assert step in mid;
      OrderIsKept(pre, o, now, mid[..|mid| - 1]);
      KeptNext(steps, o, now);
    }
  }

  lemma JustCreated(l: Ledger, o: Order, now: int)
    requires InRange(o.amount) && o.status.Pending? && o.createdAt == now && o.id !in l.book.orders
    requires o.actual == NextFree(l.book.intervals, o.amount)
    requires forall i :: 0 <= i < |l.book.calls| ==> l.book.calls[i] in l.book.orders
    ensures var l' := Next(l, Create(o.id, o.amount, o.callback, now));
            Kept(l'.book, o) && Issue(o.id, o.actual) in l'.issues
  {
    var n := Issue(o.id, o.actual);
    assert (l.issues + [n])[|l.issues|] == n;
  }

  lemma KeptNext(steps: seq<Step>, o: Order, now: int)
    requires steps != [] && FreshIds(steps) && NoCollision(steps) && o.createdAt == now
    requires var l := Run(steps[..|steps| - 1]); Kept(l.book, o) && Issue(o.id, o.actual) in l.issues
    requires var step := steps[|steps| - 1]; step.Expire? ==> step.now - now <= 600_000_000_000
    ensures var l := Run(steps); Kept(l.book, o) && Issue(o.id, o.actual) in l.issues
  {
    var front, step := steps[..|steps| - 1], steps[|steps| - 1];
    var l := Run(front);
    FreshPrefix(steps);
    CollisionPrefix(steps);
    OrdersAreIssued(front);
    AmountsIssuedOnce(front);
    AmountsIssuedOnce(steps);
    match step
    case Create(id, amount, callback, t) =>
      var n := Issue(id, NextFree(l.book.intervals, amount));
      DistinctGrows(l.issues, n);
      assert NextFree(l.book.intervals, amount) != o.actual;
      CreateKeeps(l.book, o, id, amount, callback, t);
      assert forall x :: x in l.issues + [n] <==> x in l.issues || x == n;
    case Observe(e) => ObserveKeeps(l.book, o, e);
    case Expire(t) =>
      forall id | id in l.book.orders && l.book.orders[id].actual == o.actual ensures id == o.id {
        SoleIssue(l.issues, Issue(id, o.actual), Issue(o.id, o.actual));
      }
      ExpireKeeps(l.book, o, t);
  }

  /**
  A payment in time counts: whatever happens between the creation of an order and a transfer of its actual
  amount, at most ten minutes old, with fresh ids, no colliding amounts and no timeout of this order in
  between, the order ends up paid and its callback, if it has one, has been called exactly once.
  */
  lemma TimelyPaymentCounts(pre: seq<Step>, id: string, amount: Amount, callback: string, now: int, mid: seq<Step>,
                            e: Seen)
    requires var steps := pre + [Create(id, amount, callback, now)] + mid; FreshIds(steps) && NoCollision(steps)
    requires forall step :: step in mid && step.Expire? ==> step.now - now <= 600_000_000_000
    requires |e.tx.contracts| > 0 && e.tx.contracts[0].kind == "TransferContract"
    requires e.tx.contracts[0].amount == NextFree(Run(pre).book.intervals, amount)
    requires TruncDiv(e.tx.blockTimestamp, 1000) >= (e.now - 600_000_000_000) / 1_000_000_000
    ensures var b := Run(pre + [Create(id, amount, callback, now)] + mid + [Observe(e)]).book;
            && id in b.orders
            && b.orders[id] == Order(id, amount, e.tx.contracts[0].amount, Paid, now, callback)
            && multiset(b.calls)[id] == if callback == "" then 0 else 1
  {
    var o := Order(id, amount, e.tx.contracts[0].amount, Pending, now, callback);
    var steps := pre + [Create(id, amount, callback, now)] + mid;
    OrderIsKept(pre, o, now, mid);
    RunObserve(steps, e);
    ObserveKeeps(Run(steps).book, o, e);
    if Run(steps).book.orders[id].status.Pending? {
      DueTransfer(Run(steps).book, e, o.actual, id);
    }
  }

  // ----- After the timeout -----

  /** The order is pending and nothing is indexed to it. */
  ghost predicate Dropped(b: Book, o: Order) {
    o.id in b.orders && b.orders[o.id] == o && o.status.Pending? && forall a :: a in b.index ==> b.index[a] != o.id
  }

  lemma DroppedNext(l: Ledger, step: Step, o: Order)
    requires Dropped(l.book, o) && (step.Create? ==> step.id !in l.book.orders)
    ensures Dropped(Next(l, step).book, o)
  {
  }

  lemma {:induction false} DroppedStays(pre: seq<Step>, mid: seq<Step>, o: Order)
    requires FreshIds(pre + mid) && Dropped(Run(pre).book, o)
    ensures Dropped(Run(pre + mid).book, o)
    decreases |mid|
  {
    if mid == [] {
      assert pre + mid == pre;
    } else {
      var front, last := pre + mid[..|mid| - 1], mid[|mid| - 1];
      assert pre + mid == front + [last];
      OneStepMore(front, last);
      DroppedStays(pre, mid[..|mid| - 1], o);
      DroppedNext(Run(front), last, o);
    }
  }

  lemma OneStepMore(steps: seq<Step>, step: Step)
    ensures Run(steps + [step]) == Next(Run(steps), step)
    ensures FreshIds(steps + [step]) ==>
              FreshIds(steps) && (step.Create? ==> step.id !in Run(steps).book.orders)
  {
    assert (steps + [step])[..|steps|] == steps;
    if FreshIds(steps + [step]) { FreshPrefix(steps + [step]); }
  }

  /**
  With fresh ids an order still pending when a timeout finds it more than ten minutes old stays pending and
  untouched for ever, whatever arrives afterwards.
  */
  lemma LatePaymentIsLost(pre: seq<Step>, now: int, mid: seq<Step>, id: string)
    requires FreshIds(pre + [Expire(now)] + mid) && id in Run(pre).book.orders
    requires Run(pre).book.orders[id].status == Pending && now - Run(pre).book.orders[id].createdAt > 600_000_000_000
    ensures var b := Run(pre + [Expire(now)] + mid).book; id in b.orders && b.orders[id] == Run(pre).book.orders[id]
  {
    var o, expired := Run(pre).book.orders[id], pre + [Expire(now)];
    FreshFront(expired, mid);
    FreshPrefix(expired);
    assert expired[..|expired| - 1] == pre;
    FreshIdsAreNotLive(pre);
    RunsAreTraceable(pre);
    assert Run(expired).book == Expired(Run(pre).book, now);
    DroppedStays(expired, mid, o);
  }

  lemma {:induction false} FreshFront(a: seq<Step>, b: seq<Step>)
    requires FreshIds(a + b)
    ensures FreshIds(a)
    decreases |b|
  {
    if b == [] {
      assert a + b == a;
    } else {
      assert a + b == a + b[..|b| - 1] + [b[|b| - 1]];
      OneStepMore(a + b[..|b| - 1], b[|b| - 1]);
      FreshFront(a, b[..|b| - 1]);
    }
  }
}
