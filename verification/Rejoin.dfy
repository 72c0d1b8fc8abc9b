/**
A service that lost its registration clears its provider cache and registers again under a new id
(registry/client.go). Patches sent to the old registration may still arrive after that.
*/
module Rejoin {
  import opened Registry
  import opened Propagation
  import opened Convergence

  // ----- How often a provider is cached -----

  /** Additions count up; a removal takes one copy, if there is one. */
  function Counted(n: nat, op: Op, r: Registration): nat {
    if op == Plus(r) then n + 1 else if op == Minus(r) && n > 0 then n - 1 else n
  }

  function Count(ops: seq<Op>, r: Registration): nat {
    if ops == [] then 0 else
    Counted(Count(ops[..|ops| - 1], r), ops[|ops| - 1], r)
  }

  /** An id belongs to one registration. */
  ghost predicate IdsFixed(ops: seq<Op>) {
    forall o, p :: o in ops && p in ops && o.reg.id == p.reg.id ==> o.reg == p.reg
  }

  ghost predicate CountsAre(c: Catalogue, ops: seq<Op>, name: string) {
    forall r :: multiset(Listed(c, name))[r] == if r.name == name then Count(ops, r) else 0
  }

  lemma {:induction false} CountedWasAdded(ops: seq<Op>, r: Registration)
    requires Count(ops, r) > 0
    ensures Plus(r) in ops
  {
    if ops[|ops| - 1] != Plus(r) {
      CountedWasAdded(ops[..|ops| - 1], r);
    }
  }

  lemma DropCounts(l: seq<Registration>, k: nat)
    requires k < |l|
    ensures multiset(Drop(l, k)) == multiset(l) - multiset{l[k]}
  {
    assert l == l[..k] + [l[k]] + l[k + 1..];
  }

  /** One operation on the list it concerns, counted for one provider. */
  lemma AppliedCounts(c: Catalogue, op: Op, r: Registration)
    requires forall q :: q in Listed(c, op.reg.name) && q.id == op.reg.id ==> q == op.reg
    ensures multiset(Listed(Apply(c, op), op.reg.name))[r] == Counted(multiset(Listed(c, op.reg.name))[r], op, r)
  {
    var l, x := Listed(c, op.reg.name), op.reg;
    if op.Plus? {
      assert Listed(Apply(c, op), x.name) == l + [x];
    } else {
      MinusCounts(l, x, r);
    }
  }

  lemma MinusCounts(l: seq<Registration>, x: Registration, r: Registration)
    requires forall q :: q in l && q.id == x.id ==> q == x
    ensures var k := IndexOfId(l, x.id);
            multiset(if k < |l| then Drop(l, k) else l)[r] == Counted(multiset(l)[r], Minus(x), r)
  {
    var k := IndexOfId(l, x.id);
    if k < |l| {
      DropCounts(l, k);
      assert l[k] == x && x in multiset(l);
    } else {
      assert x !in multiset(l);
    }
  }

  lemma CountGrows(front: seq<Op>, op: Op, r: Registration)
    ensures Count(front + [op], r) == Counted(Count(front, r), op, r)
  {
    assert (front + [op])[..|front|] == front;
  }

  lemma CountStep(c: Catalogue, front: seq<Op>, op: Op, name: string)
    requires CountsAre(c, front, name)
    requires forall o :: o in front && o.reg.id == op.reg.id ==> o.reg == op.reg
    ensures CountsAre(Apply(c, op), front + [op], name)
  {
    if op.reg.name == name {
      forall q | q in Listed(c, name) && q.id == op.reg.id ensures q == op.reg {
        assert q in multiset(Listed(c, name));
        CountedWasAdded(front, q);
      }
    }
    forall r ensures multiset(Listed(Apply(c, op), name))[r] == if r.name == name then Count(front + [op], r) else 0 {
      CountGrows(front, op, r);
      if op.reg.name == name { AppliedCounts(c, op, r); }
    }
  }

  /** The cache holds every provider as often as the operations count it, whatever repeats. */
  lemma {:induction false} CachedCount(ops: seq<Op>, name: string)
    requires IdsFixed(ops)
    ensures CountsAre(ApplyAll(map[], ops), ops, name)
  {
    if ops != [] {
      var front, last := ops[..|ops| - 1], ops[|ops| - 1];
      assert ops == front + [last];
      CachedCount(front, name);
      CountStep(ApplyAll(map[], front), front, last, name);
    }
  }

  /** At least as many copies as additions exceed removals. */
  lemma {:induction false} CountAtLeast(ops: seq<Op>, r: Registration)
    ensures Count(ops, r) + multiset(ops)[Minus(r)] >= multiset(ops)[Plus(r)]
  {
    if ops != [] {
      assert ops == ops[..|ops| - 1] + [ops[|ops| - 1]];
      CountAtLeast(ops[..|ops| - 1], r);
    }
  }

  /** Added at most once: one copy if alive, none otherwise. */
  lemma {:induction false} CountAlive(ops: seq<Op>, r: Registration)
    requires multiset(ops)[Plus(r)] <= 1
    ensures Count(ops, r) == if Alive(ops, r) then 1 else 0
  {
    if ops != [] {
      var front, last := ops[..|ops| - 1], ops[|ops| - 1];
      assert ops == front + [last];
      assert multiset(ops) == multiset(front) + multiset{last};
      CountAlive(front, r);
      AliveExtend(front, last, r);
      assert last == Plus(r) ==> Plus(r) !in multiset(front);
      if Alive(front, r) { AliveIsAdded(front, r); }
    }
  }

  /** The additions of one provider come before its removals. */
  ghost predicate AddedFirstFor(ops: seq<Op>, r: Registration) {
    forall i, j :: 0 <= i < |ops| && 0 <= j < |ops| && ops[i] == Minus(r) && ops[j] == Plus(r) ==> j < i
  }

  lemma AddedFirstSplits(ops: seq<Op>)
    ensures AddedFirst(ops) <==> forall r :: AddedFirstFor(ops, r)
  {
    if forall r :: AddedFirstFor(ops, r) {
      forall i, j | 0 <= i < |ops| && 0 <= j < |ops| && ops[i].Minus? && ops[j] == Plus(ops[i].reg) ensures j < i {
        assert AddedFirstFor(ops, ops[i].reg);
      }
    }
  }

  lemma TwiceCounts(ops: seq<Op>, i: nat, k: nat)
    requires i < k < |ops| && ops[i] == ops[k]
    ensures multiset(ops)[ops[i]] >= 2
  {
    assert ops == ops[..k] + ops[k..];
    assert ops[..k][i] in multiset(ops[..k]) && ops[k..][0] in multiset(ops[k..]);
  }

  lemma AtMostOnce(ops: seq<Op>, i: nat, k: nat)
    requires i < |ops| && k < |ops| && ops[i] == ops[k] && multiset(ops)[ops[i]] <= 1
    ensures i == k
  {
    if i < k { TwiceCounts(ops, i, k); }
    if k < i { TwiceCounts(ops, k, i); }
  }

  /** One addition and at most one removal: alive unless the removal came after the addition. */
  lemma AliveOnce(ops: seq<Op>, r: Registration)
    requires Plus(r) in ops && multiset(ops)[Plus(r)] <= 1 && multiset(ops)[Minus(r)] <= 1
    ensures Alive(ops, r) <==> !(Minus(r) in ops && AddedFirstFor(ops, r))
  {
    var j :| 0 <= j < |ops| && ops[j] == Plus(r);
    if Minus(r) in ops {
      var i :| 0 <= i < |ops| && ops[i] == Minus(r);
      forall k | 0 <= k < |ops| ensures (ops[k] == Minus(r) <==> k == i) && (ops[k] == Plus(r) <==> k == j) {
        if ops[k] == Minus(r) { AtMostOnce(ops, i, k); }
        if ops[k] == Plus(r) { AtMostOnce(ops, j, k); }
      }
    } else {
      assert forall k :: j < k < |ops| ==> ops[k] != Minus(r);
    }
  }

  // ----- Late patches among the new ones -----

  /** What can still arrive for an old registration, next to what is sent to the new one. */
  ghost predicate LateMail(me: Registration, late: seq<Op>, sent: seq<Op>) {
    && (forall o :: multiset(late)[o] <= 1)
    && (forall r :: Minus(r) in late ==> Plus(r) !in sent && Minus(r) !in sent)
    && (forall o :: o in late ==> o.reg.name in me.required)
    && IdsFixed(sent + late)
  }

  /** In the new mail a provider is removed only after its addition, and each once. */
  lemma CountSent(me: Registration, m: Catalogue, sent: seq<Op>, used: set<string>, r: Registration)
    requires Tracks(me, m, sent, used)
    ensures multiset(sent)[Minus(r)] <= multiset(sent)[Plus(r)] <= 1
    ensures Count(sent, r) + multiset(sent)[Minus(r)] == multiset(sent)[Plus(r)]
  {
    assert forall o :: o in sent <==> o in multiset(sent);
    OrderedIsAddedFirst(sent);
    AliveIffNotRemoved(sent, r);
    CountAlive(sent, r);
    if Minus(r) in sent {
      var j :| 0 <= j < |sent| && sent[j] == Minus(r);
      assert sent[j].Minus?;
      assert Plus(r) in sent;
    }
  }

  /** The provider was added to the old registration and nothing takes that back. */
  ghost predicate LeftBehind(late: seq<Op>, r: Registration) {
    Plus(r) in late && Minus(r) !in late
  }

  ghost predicate NoneLeftBehind(late: seq<Op>) {
    forall r :: !LeftBehind(late, r)
  }

  lemma RejoinCount(me: Registration, m: Catalogue, sent: seq<Op>, used: set<string>, late: seq<Op>, ops: seq<Op>,
                    r: Registration)
    requires Tracks(me, m, sent, used) && LateMail(me, late, sent) && multiset(ops) == multiset(sent) + multiset(late)
    ensures Count(ops, r) == Count(sent, r) <==> !LeftBehind(late, r) && AddedFirstFor(ops, r)
  {
    assert forall o :: (o in sent <==> o in multiset(sent)) && (o in late <==> o in multiset(late))
                       && (o in ops <==> o in multiset(ops));
    CountSent(me, m, sent, used, r);
    if LeftBehind(late, r) {
      CountAtLeast(ops, r);
    } else if Plus(r) in ops {
      CountAlive(ops, r);
      AliveOnce(ops, r);
    } else if Count(ops, r) > 0 {
      CountedWasAdded(ops, r);
    }
  }

  lemma FixedPart(all: seq<Op>, ops: seq<Op>)
    requires IdsFixed(all) && forall o :: o in ops ==> o in all
    ensures IdsFixed(ops)
  {
  }

  lemma OpsKnown(me: Registration, m: Catalogue, sent: seq<Op>, used: set<string>, late: seq<Op>, ops: seq<Op>)
    requires Tracks(me, m, sent, used) && LateMail(me, late, sent) && multiset(ops) == multiset(sent) + multiset(late)
    ensures IdsFixed(ops) && IdsFixed(sent)
    ensures forall o :: o in ops ==> o.reg.name in me.required
  {
    forall o | o in ops ensures o in sent + late && o.reg.name in me.required {
      assert o in multiset(ops);
      assert o in multiset(sent) || o in multiset(late);
    }
    FixedPart(sent + late, ops);
    FixedPart(sent + late, sent);
  }

  /** Agreement is a matter of counting every provider of a required service. */
  lemma AgreementCounts(me: Registration, m: Catalogue, sent: seq<Op>, used: set<string>, ops: seq<Op>)
    requires Tracks(me, m, sent, used) && IdsFixed(sent) && IdsFixed(ops)
    ensures Agrees(ApplyAll(map[], ops), m, me.required) <==>
            forall r: Registration :: r.name in me.required ==> Count(ops, r) == Count(sent, r)
  {
    var c := ApplyAll(map[], ops);
    forall name | name in me.required
      ensures CountsAre(c, ops, name) && CountsAre(m, sent, name)
    {
      CachedCount(ops, name);
      CachedCount(sent, name);
      assert Listed(ApplyAll(map[], sent), name) == Listed(m, name);
    }
    if Agrees(c, m, me.required) {
      forall r: Registration | r.name in me.required ensures Count(ops, r) == Count(sent, r) {
        assert CountsAre(c, ops, r.name) && CountsAre(m, sent, r.name);
        assert multiset(Listed(c, r.name)) == multiset(Listed(m, r.name));
      }
    }
    if forall r: Registration :: r.name in me.required ==> Count(ops, r) == Count(sent, r) {
      forall name | name in me.required ensures multiset(Listed(c, name)) == multiset(Listed(m, name)) {
        SameCounts(c, m, sent, ops, name);
      }
    }
  }

  lemma SameCounts(c: Catalogue, m: Catalogue, sent: seq<Op>, ops: seq<Op>, name: string)
    requires CountsAre(c, ops, name) && CountsAre(m, sent, name)
    requires forall r: Registration :: r.name == name ==> Count(ops, r) == Count(sent, r)
    ensures multiset(Listed(c, name)) == multiset(Listed(m, name))
  {
    forall r ensures multiset(Listed(c, name))[r] == multiset(Listed(m, name))[r] { }
  }

  /** Agreement after a fresh start, with late operations mixed in at any place. */
  lemma MixedAgreement(me: Registration, m: Catalogue, sent: seq<Op>, used: set<string>, late: seq<Op>, ops: seq<Op>)
    requires Tracks(me, m, sent, used) && LateMail(me, late, sent) && multiset(ops) == multiset(sent) + multiset(late)
    ensures Agrees(ApplyAll(map[], ops), m, me.required) <==> AddedFirst(ops) && NoneLeftBehind(late)
  {
    OpsKnown(me, m, sent, used, late, ops);
    AgreementCounts(me, m, sent, used, ops);
    AddedFirstSplits(ops);
    forall r ensures Count(ops, r) == Count(sent, r) <==> !LeftBehind(late, r) && AddedFirstFor(ops, r) {
      RejoinCount(me, m, sent, used, late, ops, r);
    }
    forall r: Registration | r.name !in me.required ensures !LeftBehind(late, r) && AddedFirstFor(ops, r) {
      assert Plus(r) in ops || Plus(r) in late ==> Plus(r).reg.name in me.required;
    }
  }

  // ----- What any registration is ever sent -----

  function Sent(me: Registration, s: State): seq<Op> {
    OpsOf(Mailbox(me, s.log))
  }

  lemma NotifyOps(me: Registration, log: seq<Event>, full: Patch, r: Registration, audience: Catalogue)
    requires NoRepeats(me.required) && (full == Patch([r], []) || full == Patch([], [r]))
    ensures OpsOf(Mailbox(me, log + [Notify(full, audience)])) ==
            OpsOf(Mailbox(me, log)) + if InMap(audience, me) && r.name in me.required then [OpOf(full)] else []
  {
    if InMap(audience, me) {
      NotifyGrows(me, log, full, r, audience);
    } else {
      MailGrows(me, log, Notify(full, audience));
      assert Mailbox(me, log) + [] == Mailbox(me, log);
    }
  }

  lemma WelcomeOps(me: Registration, log: seq<Event>, r: Registration, m: Catalogue)
    ensures OpsOf(Mailbox(me, log + [Welcome(r, m)])) ==
            OpsOf(Mailbox(me, log)) + if r == me then Pluses(Catalogued(me.required, m)) else []
  {
    var rs := Catalogued(me.required, m);
    MailGrows(me, log, Welcome(r, m));
    if r == me && rs != [] {
      OpsGrow(Mailbox(me, log), Patch(rs, []));
      assert PatchOps(Patch(rs, [])) == Pluses(rs);
    } else {
      assert Mailbox(me, log) + [] == Mailbox(me, log);
    }
  }

  lemma RemovedOps(me: Registration, s: State, name: string, url: string)
    requires NoRepeats(me.required)
    ensures var l := Listed(s.regs, name);
            var k := IndexOfUrl(l, url);
            Sent(me, Removed(s, name, url)) ==
            Sent(me, s) + if k < |l| && InMap(s.regs, me) && l[k].name in me.required then [Minus(l[k])] else []
  {
    var l := Listed(s.regs, name);
    var k := IndexOfUrl(l, url);
    if k < |l| { NotifyOps(me, s.log, Patch([], [l[k]]), l[k], s.regs); }
  }

  lemma AddedOps(me: Registration, s: State, r: Registration)
    requires NoRepeats(me.required) && Completes(s, r)
    ensures var m := Added(s, r).regs;
            Sent(me, Added(s, r)) ==
            Sent(me, Removed(s, r.name, r.url))
            + (if r == me then Pluses(Catalogued(me.required, m)) else [])
            + (if InMap(m, me) && r.name in me.required then [Plus(r)] else [])
  {
    AddedLog(s, r);
    var s1, m := Removed(s, r.name, r.url), Added(s, r).regs;
    WelcomeOps(me, s1.log, r, m);
    NotifyOps(me, s1.log + [Welcome(r, m)], Patch([r], []), r, m);
  }

  /** No operation is sent twice, ids are known and belong to one registration, and what was removed is gone. */
  ghost predicate Tidy(me: Registration, m: Catalogue, ops: seq<Op>, used: set<string>) {
    && Unique(multiset(ops))
    && (forall o :: o in ops ==> o.reg.id in used && o.reg.name in me.required)
    && (forall r :: Minus(r) in ops ==> !InMap(m, r))
    && (forall o, x :: o in ops && InMap(m, x) && o.reg.id == x.id ==> o.reg == x)
  }

  /** A removal leaves a subset of the registrations, without the removed one. */
  lemma RemovedFewer(s: State, used: set<string>, name: string, url: string)
    requires Sound(s, used)
    ensures forall r :: InMap(Removed(s, name, url).regs, r) ==> InMap(s.regs, r)
    ensures var l := Listed(s.regs, name);
            var k := IndexOfUrl(l, url);
            k < |l| ==> l[k].name == name && l[k].id in used
                        && InMap(s.regs, l[k]) && !InMap(Removed(s, name, url).regs, l[k])
  {
    var l := Listed(s.regs, name);
    var k := IndexOfUrl(l, url);
    if k < |l| {
      assert Filed(l, name, used);
      forall r ensures InMap(Removed(s, name, url).regs, r) ==> InMap(s.regs, r) && r != l[k] {
        DropMembers(l, k, r);
      }
    }
  }

  lemma TidyMinus(me: Registration, m: Catalogue, m': Catalogue, ops: seq<Op>, used: set<string>, x: Registration)
    requires Tidy(me, m, ops, used) && InMap(m, x) && x.id in used && x.name in me.required
    requires !InMap(m', x) && forall r :: InMap(m', r) ==> InMap(m, r) && (r.id == x.id ==> r == x)
    ensures Tidy(me, m', ops + [Minus(x)], used)
  {
    UniqueAdd(ops, Minus(x));
  }

  lemma RemovedTidy(me: Registration, s: State, used: set<string>, name: string, url: string)
    requires NoRepeats(me.required) && Sound(s, used) && Tidy(me, s.regs, Sent(me, s), used)
    ensures Tidy(me, Removed(s, name, url).regs, Sent(me, Removed(s, name, url)), used)
  {
    var l, s', ops := Listed(s.regs, name), Removed(s, name, url), Sent(me, s);
    var k := IndexOfUrl(l, url);
    RemovedFewer(s, used, name, url);
    RemovedOps(me, s, name, url);
    if k < |l| && InMap(s.regs, me) && l[k].name in me.required {
      forall r | InMap(s.regs, r) && r.id == l[k].id ensures r == l[k] { SameIdSameEntry(s.regs, used, r, l[k]); }
      TidyMinus(me, s.regs, s'.regs, ops, used, l[k]);
    } else {
      assert ops + [] == ops;
    }
  }

  lemma TidyPlus(me: Registration, m: Catalogue, m': Catalogue, ops: seq<Op>, used: set<string>, r: Registration,
                 sent: bool)
    requires Tidy(me, m, ops, used) && r.id !in used && (sent ==> r.name in me.required)
    requires forall x :: InMap(m', x) ==> InMap(m, x) || x == r
    requires forall x :: InMap(m, x) ==> x.id in used
    ensures Tidy(me, m', ops + if sent then [Plus(r)] else [], used + {r.id})
  {
    if sent { UniqueAdd(ops, Plus(r)); } else { assert ops + [] == ops; }
  }

  lemma AddedMore(s: State, used: set<string>, r: Registration)
    requires Sound(s, used) && Completes(s, r)
    ensures forall x :: InMap(Added(s, r).regs, x) ==> InMap(Removed(s, r.name, r.url).regs, x) || x == r
    ensures forall x :: InMap(Removed(s, r.name, r.url).regs, x) ==> x.id in used
  {
    RemovedSound(s, used, r.name, r.url);
    AddedLog(s, r);
  }

  /** The newcomer's own mail starts with the catalogue alone. */
  lemma JoinedOps(me: Registration, s: State, used: set<string>)
    requires NoRepeats(me.required) && me.name !in me.required && Sound(s, used) && me.id !in used && Completes(s, me)
    ensures Sent(me, Added(s, me)) == Pluses(Catalogued(me.required, Added(s, me).regs))
  {
    var s1 := Removed(s, me.name, me.url);
    RemovedSound(s, used, me.name, me.url);
    StrangerHasNoMail(me, s1.log, used);
    AddedLog(s, me);
    JoinMail(me, s1.log, Added(s, me).regs);
  }

  lemma WelcomeTidy(me: Registration, m: Catalogue, used: set<string>)
    requires Rostered(m, used) && NoRepeats(me.required)
    ensures Tidy(me, m, Pluses(Catalogued(me.required, m)), used)
  {
    var rs := Catalogued(me.required, m);
    var ops := Pluses(rs);
    WelcomeTracks(me, m, used);
    CataloguedDistinct(me.required, m, used);
    forall o, x | o in ops && InMap(m, x) && o.reg.id == x.id ensures o.reg == x {
      assert o.reg in rs;
      SameIdSameEntry(m, used, o.reg, x);
    }
  }

  lemma SameIdSameEntry(m: Catalogue, used: set<string>, x: Registration, y: Registration)
    requires Rostered(m, used) && InMap(m, x) && InMap(m, y) && x.id == y.id
    ensures x == y
  {
    var i :| 0 <= i < |m[x.name]| && m[x.name][i] == x;
    var j :| 0 <= j < |m[y.name]| && m[y.name][j] == y;
    assert Filed(m[x.name], x.name, used);
    assert x.name != y.name ==> Apart(m[x.name], m[y.name]);
  }

  lemma AddedTidy(me: Registration, s: State, used: set<string>, r: Registration)
    requires NoRepeats(me.required) && me.name !in me.required && r.id !in used
    requires Sound(s, used) && Tidy(me, s.regs, Sent(me, s), used)
    ensures Tidy(me, Added(s, r).regs, Sent(me, Added(s, r)), used + {r.id})
  {
    if r == me && Completes(s, me) {
      JoinedOps(me, s, used);
      AddedSound(s, used, me);
      WelcomeTidy(me, Added(s, me).regs, used + {me.id});
    } else {
      RemovedTidy(me, s, used, r.name, r.url);
      if Completes(s, r) {
        var s1, m := Removed(s, r.name, r.url), Added(s, r).regs;
        AddedMore(s, used, r);
        AddedOps(me, s, r);
        assert Sent(me, s1) + [] == Sent(me, s1);
        TidyPlus(me, s1.regs, m, Sent(me, s1), used, r, InMap(m, me) && r.name in me.required);
      }
    }
  }

  /** What any registration has been sent in any run is tidy, whether it is still registered or not. */
  lemma {:induction false} MailIsTidy(steps: seq<Step>, me: Registration)
    requires FreshIds(steps) && NoRepeats(me.required) && me.name !in me.required
    ensures Tidy(me, Run(steps).regs, Sent(me, Run(steps)), UsedIds(steps))
  {
    if steps != [] {
      var front, step := steps[..|steps| - 1], steps[|steps| - 1];
      MailIsTidy(front, me);
      RunsAreSound(front);
      match step
      case AddStep(r) => AddedTidy(me, Run(front), UsedIds(front), r);
      case RemoveStep(name, url) =>
        RemovedTidy(me, Run(front), UsedIds(front), name, url);
        assert UsedIds(steps) == UsedIds(front);
    }
  }

  // ----- What the new registration is sent about older ones -----

  /** Of the registrations known before, only those still listed then are registered or announced as added. */
  ghost predicate Recent(m: Catalogue, ops: seq<Op>, used0: set<string>, m0: Catalogue) {
    && (forall r :: InMap(m, r) && r.id in used0 ==> InMap(m0, r))
    && (forall r :: Plus(r) in ops && r.id in used0 ==> InMap(m0, r))
  }

  lemma RemovedRecent(me: Registration, s: State, used: set<string>, name: string, url: string, used0: set<string>,
                      m0: Catalogue)
    requires NoRepeats(me.required) && Sound(s, used) && Recent(s.regs, Sent(me, s), used0, m0)
    ensures Recent(Removed(s, name, url).regs, Sent(me, Removed(s, name, url)), used0, m0)
  {
    RemovedFewer(s, used, name, url);
    RemovedOps(me, s, name, url);
  }

  lemma AddedRecent(me: Registration, s: State, used: set<string>, r: Registration, used0: set<string>, m0: Catalogue)
    requires NoRepeats(me.required) && Sound(s, used) && Recent(s.regs, Sent(me, s), used0, m0)
    requires r.id !in used && used0 <= used
    ensures Recent(Added(s, r).regs, Sent(me, Added(s, r)), used0, m0)
  {
    RemovedRecent(me, s, used, r.name, r.url, used0, m0);
    if Completes(s, r) {
      var s1, m := Removed(s, r.name, r.url), Added(s, r).regs;
      AddedMore(s, used, r);
      AddedSound(s, used, r);
      SentOnAdd(me, s, used, r);
      RecentMore(s1.regs, m, Sent(me, s1), Sent(me, Added(s, r)), r, used0, m0);
    }
  }

  /** Whatever is announced as added after a registration was so before, or is registered now. */
  lemma SentOnAdd(me: Registration, s: State, used: set<string>, r: Registration)
    requires NoRepeats(me.required) && Completes(s, r) && Rostered(Added(s, r).regs, used + {r.id})
    ensures forall x :: Plus(x) in Sent(me, Added(s, r)) ==>
              Plus(x) in Sent(me, Removed(s, r.name, r.url)) || InMap(Added(s, r).regs, x) || x == r
  {
    var ops, m := Sent(me, Removed(s, r.name, r.url)), Added(s, r).regs;
    var all := Pluses(Catalogued(me.required, m));
    CataloguedListed(me.required, m, used + {r.id});
    AddedOps(me, s, r);
    forall o | o in Sent(me, Added(s, r)) ensures o in ops || o in all || o == Plus(r) { }
    forall x | Plus(x) in all ensures InMap(m, x) { assert Plus(x).reg == x; }
  }

  lemma CataloguedListed(required: seq<string>, m: Catalogue, used: set<string>)
    requires Rostered(m, used) && NoRepeats(required)
    ensures forall o :: o in Pluses(Catalogued(required, m)) ==> InMap(m, o.reg)
  {
    CataloguedDistinct(required, m, used);
    forall o | o in Pluses(Catalogued(required, m)) ensures InMap(m, o.reg) {
      assert o.reg in Catalogued(required, m);
    }
  }

  /** Announcing what is registered by now, with nothing but `r` new, stays recent. */
  lemma RecentMore(m1: Catalogue, m: Catalogue, ops: seq<Op>, ops': seq<Op>, r: Registration, used0: set<string>,
                   m0: Catalogue)
    requires Recent(m1, ops, used0, m0) && r.id !in used0
    requires forall x :: InMap(m, x) ==> InMap(m1, x) || x == r
    requires forall x :: Plus(x) in ops' ==> Plus(x) in ops || InMap(m, x) || x == r
    ensures Recent(m, ops', used0, m0)
  {
  }

  lemma {:induction false} RunIsRecent(pre: seq<Step>, more: seq<Step>, me: Registration)
    requires FreshIds(pre + more) && me.id !in UsedIds(pre) && NoRepeats(me.required)
    ensures Recent(Run(pre + more).regs, Sent(me, Run(pre + more)), UsedIds(pre), Run(pre).regs)
    ensures UsedIds(pre) <= UsedIds(pre + more)
    decreases |more|
  {
    if more == [] {
      assert pre + more == pre;
      RunsAreSound(pre);
      StrangerHasNoMail(me, Run(pre).log, UsedIds(pre));
    } else {
      var front, last := pre + more[..|more| - 1], more[|more| - 1];
      assert pre + more == front + [last];
      RunGrows(front, last);
      RunIsRecent(pre, more[..|more| - 1], me);
      RunsAreSound(front);
      match last
      case AddStep(r) => AddedRecent(me, Run(front), UsedIds(front), r, UsedIds(pre), Run(pre).regs);
      case RemoveStep(name, url) =>
        RemovedRecent(me, Run(front), UsedIds(front), name, url, UsedIds(pre), Run(pre).regs);
    }
  }

  // ----- Re-registration -----

  lemma {:induction false} SeqOf(m: multiset<Patch>) returns (s: seq<Patch>)
    ensures multiset(s) == m
    decreases |m|
  {
    if |m| == 0 {
      s := [];
    } else {
      var p :| p in m;
      var rest := SeqOf(m - multiset{p});
      s := rest + [p];
    }
  }

  lemma OpsOfBoth(ops: seq<Patch>, a: seq<Patch>, b: seq<Patch>)
    requires multiset(ops) == multiset(a) + multiset(b)
    ensures multiset(OpsOf(ops)) == multiset(OpsOf(a)) + multiset(OpsOf(b))
  {
    assert multiset(ops) == multiset(a + b);
    OpsPermute(ops, a + b);
    OpsOfAppend(a, b);
  }

  /** Fewer patches, fewer operations. */
  lemma OpsOfFewer(a: seq<Patch>, b: seq<Patch>)
    requires multiset(a) <= multiset(b)
    ensures multiset(OpsOf(a)) <= multiset(OpsOf(b))
  {
    var rest := SeqOf(multiset(b) - multiset(a));
    OpsOfBoth(b, a, rest);
  }

  /** From what the two registrations have been sent follows what may arrive late. */
  lemma LateIsLate(me: Registration, m: Catalogue, sent: seq<Op>, used: set<string>, m0: Catalogue, used0: set<string>,
                   oldSent: seq<Op>, late: seq<Op>)
    requires Tracks(me, m, sent, used) && Recent(m, sent, used0, m0)
    requires Tidy(me, m0, oldSent, used0) && multiset(late) <= multiset(oldSent)
    ensures LateMail(me, late, sent)
  {
    assert forall o :: o in late ==> o in oldSent by {
      assert forall o :: (o in late <==> o in multiset(late)) && (o in oldSent <==> o in multiset(oldSent));
    }
    forall o ensures multiset(late)[o] <= 1 { assert o in multiset(oldSent) ==> multiset(oldSent)[o] == 1; }
    forall r | Minus(r) in sent ensures Plus(r) in sent { RemovedWasAdded(sent, r); }
    forall r | Minus(r) in late ensures Plus(r) !in sent {
      assert Minus(r) in oldSent && Minus(r).reg.id in used0;
    }
    forall o, p | o in late && p in sent && o.reg.id == p.reg.id ensures o.reg == p.reg {
      assert Plus(p.reg) in sent;
    }
    assert forall o :: (o in sent ==> o in multiset(sent)) && (o in oldSent ==> o in multiset(oldSent));
  }

  lemma RemovedWasAdded(sent: seq<Op>, r: Registration)
    requires Ordered(sent) && Minus(r) in sent
    ensures Plus(r) in sent
  {
    var j :| 0 <= j < |sent| && sent[j] == Minus(r);
    assert sent[j].Minus?;
  }

  /**
  A service re-registers: the cache starts empty, and all patches for the new registration arrive, mixed in
  any order with any patches that had been sent to the old one. The cache agrees with the registry if and
  only if additions arrive before their removals and every late addition is taken back by a late removal.
  */
  lemma RejoinAgreement(pre: seq<Step>, old_: Registration, me: Registration, post: seq<Step>, late: seq<Patch>,
                        arrived: seq<Patch>)
    requires StaysJoined(pre, me, post) && old_.required == me.required && old_.name == me.name
    requires multiset(late) <= multiset(Mailbox(old_, Run(pre).log))
    requires multiset(arrived) == multiset(Mailbox(me, Run(pre + [AddStep(me)] + post).log)) + multiset(late)
    ensures Agrees(Delivered(arrived), Run(pre + [AddStep(me)] + post).regs, me.required)
            <==> AddedFirst(OpsOf(arrived)) && NoneLeftBehind(OpsOf(late))
  {
    var steps := pre + [AddStep(me)] + post;
    var mail := Mailbox(me, Run(steps).log);
    RunFollows(pre, me, post);
    OldMailIsLate(pre, old_, me, post, late);
    OpsOfBoth(arrived, mail, late);
    MixedAgreement(me, Run(steps).regs, OpsOf(mail), UsedIds(steps), OpsOf(late), OpsOf(arrived));
  }

  lemma OldMailIsLate(pre: seq<Step>, old_: Registration, me: Registration, post: seq<Step>, late: seq<Patch>)
    requires StaysJoined(pre, me, post) && old_.required == me.required && old_.name == me.name
    requires multiset(late) <= multiset(Mailbox(old_, Run(pre).log))
    ensures LateMail(me, OpsOf(late), Sent(me, Run(pre + [AddStep(me)] + post)))
  {
    var steps := pre + [AddStep(me)] + post;
    OldMailIsTidy(pre, old_, me, post);
    OpsOfFewer(late, Mailbox(old_, Run(pre).log));
    NewMailIsRecent(pre, me, post);
    RunFollows(pre, me, post);
    LateIsLate(me, Run(steps).regs, Sent(me, Run(steps)), UsedIds(steps), Run(pre).regs, UsedIds(pre),
               Sent(old_, Run(pre)), OpsOf(late));
  }

  lemma OldMailIsTidy(pre: seq<Step>, old_: Registration, me: Registration, post: seq<Step>)
    requires StaysJoined(pre, me, post) && old_.required == me.required && old_.name == me.name
    ensures Tidy(me, Run(pre).regs, Sent(old_, Run(pre)), UsedIds(pre))
  {
    StaysFresh(pre, me, post);
    MailIsTidy(pre, old_);
    TidySame(old_, me, Run(pre).regs, Sent(old_, Run(pre)), UsedIds(pre));
  }

  lemma NewMailIsRecent(pre: seq<Step>, me: Registration, post: seq<Step>)
    requires StaysJoined(pre, me, post)
    ensures var steps := pre + [AddStep(me)] + post;
            Recent(Run(steps).regs, Sent(me, Run(steps)), UsedIds(pre), Run(pre).regs)
  {
    Associative(pre, [AddStep(me)], post);
    StaysFresh(pre, me, post);
    RunIsRecent(pre, [AddStep(me)] + post, me);
  }

  lemma TidySame(a: Registration, b: Registration, m: Catalogue, ops: seq<Op>, used: set<string>)
    requires Tidy(a, m, ops, used) && a.required == b.required
    ensures Tidy(b, m, ops, used)
  {
  }

  lemma {:induction false} FreshFront(a: seq<Step>, b: seq<Step>)
    requires FreshIds(a + b)
    ensures FreshIds(a)
    decreases |b|
  {
    if b == [] {
      assert a + b == a;
    } else {
      assert (a + b)[..|a + b| - 1] == a + b[..|b| - 1];
      FreshFront(a, b[..|b| - 1]);
    }
  }

  lemma StaysFresh(pre: seq<Step>, me: Registration, post: seq<Step>)
    requires FreshIds(pre + [AddStep(me)] + post)
    ensures FreshIds(pre) && me.id !in UsedIds(pre)
  {
    FreshFront(pre + [AddStep(me)], post);
    RunGrows(pre, AddStep(me));
  }

  /** The subscriber and a provider join, and the subscriber is removed again. */
  function JoinAndLeave(old_: Registration, p: Registration): seq<Step> {
    [AddStep(old_), AddStep(p), RemoveStep(old_.name, old_.url)]
  }

  lemma JoinAndLeaveRun(old_: Registration, p: Registration)
    requires old_.required == [p.name] && old_.name != p.name && old_.id != p.id
    ensures var s := Run(JoinAndLeave(old_, p));
            && FreshIds(JoinAndLeave(old_, p)) && UsedIds(JoinAndLeave(old_, p)) == {old_.id, p.id}
            && Listed(s.regs, old_.name) == [] && Listed(s.regs, p.name) == [p]
            && s.log == Added(Added(State(map[], []), old_), p).log
                        + [Notify(Patch([], [old_]), map[old_.name := [old_], p.name := [p]])]
  {
    var a, b, c := AddStep(old_), AddStep(p), RemoveStep(old_.name, old_.url);
    RunGrows([], a);
    RunGrows([a], b);
    RunGrows([a, b], c);
    assert [] + [a] == [a] && [a] + [b] == [a, b] && [a, b] + [c] == JoinAndLeave(old_, p);
    BothJoined(old_, p);
    assert Drop([old_], 0) == [];
  }

  lemma JoinAndLeaveMail(old_: Registration, p: Registration)
    requires old_.required == [p.name] && old_.name != p.name && old_.id != p.id
    ensures Mailbox(old_, Run(JoinAndLeave(old_, p)).log) == [Patch([p], [])]
  {
    var m1 := map[old_.name := [old_], p.name := [p]];
    JoinAndLeaveRun(old_, p);
    JoinedMail(old_, p);
    assert InMap(m1, old_) by { assert [old_][0] == old_; }
    MailGrows(old_, Added(Added(State(map[], []), old_), p).log, Notify(Patch([], [old_]), m1));
    MailOfNotify(old_, Patch([], [old_]), old_, m1);
  }

  lemma RejoinsAfterLeaving(old_: Registration, me: Registration, p: Registration)
    requires old_.required == [p.name] && old_.name != p.name && me == old_.(id := me.id)
    requires old_.id != p.id && me.id != p.id && me.id != old_.id
    ensures StaysJoined(JoinAndLeave(old_, p), me, [])
  {
    var pre := JoinAndLeave(old_, p);
    JoinAndLeaveRun(old_, p);
    RunGrows(pre, AddStep(me));
    AddedLog(Run(pre), me);
    assert pre + [AddStep(me)] + [] == pre + [AddStep(me)];
    var none: seq<Step> := [];
    forall k | 0 <= k <= |none| ensures Present(pre, me, none[..k]) { assert none[..k] == []; }
  }

  lemma AdditionIsLeftBehind(p: Registration)
    ensures !NoneLeftBehind(OpsOf([Patch([p], [])]))
  {
    OpsOfOne(Patch([p], []));
    SingleOp(Patch([p], []), p);
    assert LeftBehind(OpsOf([Patch([p], [])]), p);
  }

  lemma LateAdditionStays(pre: seq<Step>, old_: Registration, me: Registration, post: seq<Step>, late: seq<Patch>,
                          arrived: seq<Patch>)
    requires StaysJoined(pre, me, post) && old_.required == me.required && old_.name == me.name
    requires multiset(late) <= multiset(Mailbox(old_, Run(pre).log)) && !NoneLeftBehind(OpsOf(late))
    requires multiset(arrived) == multiset(Mailbox(me, Run(pre + [AddStep(me)] + post).log)) + multiset(late)
    ensures !Agrees(Delivered(arrived), Run(pre + [AddStep(me)] + post).regs, me.required)
  {
    RejoinAgreement(pre, old_, me, post, late, arrived);
  }

  /**
  The patch that announced the provider to the old registration arrives after the new one's catalogue: no
  agreement.
  */
  lemma LateAdditionRun(old_: Registration, me: Registration, p: Registration)
    requires old_.required == [p.name] && old_.name != p.name && me == old_.(id := me.id)
    requires old_.id != p.id && me.id != p.id && me.id != old_.id
    ensures var s := Run(JoinAndLeave(old_, p) + [AddStep(me)] + []);
            !Agrees(Delivered(Mailbox(me, s.log) + [Patch([p], [])]), s.regs, me.required)
  {
    var arrived := Mailbox(me, Run(JoinAndLeave(old_, p) + [AddStep(me)] + []).log) + [Patch([p], [])];
    JoinAndLeaveMail(old_, p);
    RejoinsAfterLeaving(old_, me, p);
    AdditionIsLeftBehind(p);
    LateAdditionStays(JoinAndLeave(old_, p), old_, me, [], [Patch([p], [])], arrived);
  }
}
