/**
Registry and subscriber agree: over every run, a subscriber that has received everything holds the
registry's provider lists, exactly when each provider's addition reached it before its removal.
*/
module Convergence {
  import opened Registry
  import opened Propagation

  ghost predicate NoRepeats(names: seq<string>) {
    forall i, j :: 0 <= i < j < |names| ==> names[i] != names[j]
  }

  lemma LastName(names: seq<string>, name: string)
    requires names != []
    ensures name in names <==> name in names[..|names| - 1] || name == names[|names| - 1]
    ensures NoRepeats(names) ==> NoRepeats(names[..|names| - 1]) && names[|names| - 1] !in names[..|names| - 1]
  {
    assert names == names[..|names| - 1] + [names[|names| - 1]];
  }

  // ----- What every run of the registry keeps -----

  /** A list under its own name, with distinct URLs, distinct ids, and only known ids. */
  ghost predicate Filed(l: seq<Registration>, name: string, used: set<string>) {
    && UrlsDistinct(l) && IdsDistinct(l)
    && forall i :: 0 <= i < |l| ==> l[i].name == name && l[i].id in used
  }

  ghost predicate Apart(a: seq<Registration>, b: seq<Registration>) {
    forall i, j :: 0 <= i < |a| && 0 <= j < |b| ==> a[i].id != b[j].id
  }

  /** Every list is well filed and no id stands under two names. */
  ghost predicate Rostered(m: Catalogue, used: set<string>) {
    && (forall name :: name in m ==> Filed(m[name], name, used))
    && (forall n1, n2 :: n1 in m && n2 in m && n1 != n2 ==> Apart(m[n1], m[n2]))
  }

  ghost predicate Known(e: Event, used: set<string>) {
    match e
    case Notify(_, audience) =>
      forall name, i :: name in audience && 0 <= i < |audience[name]| ==> audience[name][i].id in used
    case Welcome(newcomer, _) => newcomer.id in used
  }

  ghost predicate Sound(s: State, used: set<string>) {
    Rostered(s.regs, used) && forall e :: e in s.log ==> Known(e, used)
  }

  lemma ReplaceRostered(m: Catalogue, used: set<string>, more: set<string>, name: string, l: seq<Registration>)
    requires Rostered(m, used) && used <= more && Filed(l, name, more)
    requires forall n :: n in m && n != name ==> Apart(l, m[n]) && Apart(m[n], l)
    ensures Rostered(m[name := l], more)
  {
  }

  lemma DropFiled(l: seq<Registration>, name: string, used: set<string>, k: nat)
    requires Filed(l, name, used) && k < |l|
    ensures Filed(Drop(l, k), name, used)
  {
    DropMembers(l, k, l[k]);
    DropIsDistinct(l, k);
    DropFrom(l, k);
  }

  lemma DropFrom(l: seq<Registration>, k: nat)
    requires k < |l|
    ensures forall i :: 0 <= i < |Drop(l, k)| ==> Drop(l, k)[i] == l[if i < k then i else i + 1]
  {
  }

  lemma DropApart(l: seq<Registration>, k: nat, other: seq<Registration>)
    requires k < |l| && Apart(l, other) && Apart(other, l)
    ensures Apart(Drop(l, k), other) && Apart(other, Drop(l, k))
  {
    DropFrom(l, k);
  }

  lemma DropRostered(m: Catalogue, used: set<string>, name: string, k: nat)
    requires Rostered(m, used) && k < |Listed(m, name)|
    ensures Rostered(m[name := Drop(Listed(m, name), k)], used)
  {
    var l := Listed(m, name);
    DropFiled(l, name, used, k);
    forall n | n in m && n != name ensures Apart(Drop(l, k), m[n]) && Apart(m[n], Drop(l, k)) {
      DropApart(l, k, m[n]);
    }
    ReplaceRostered(m, used, used, name, Drop(l, k));
  }

  lemma RemovedSound(s: State, used: set<string>, name: string, url: string)
    requires Sound(s, used)
    ensures Sound(Removed(s, name, url), used)
  {
    var l := Listed(s.regs, name);
    if IndexOfUrl(l, url) < |l| {
      DropRostered(s.regs, used, name, IndexOfUrl(l, url));
    }
  }

  lemma AppendRostered(m: Catalogue, used: set<string>, r: Registration)
    requires Rostered(m, used) && r.id !in used
    requires IndexOfUrl(Listed(m, r.name), r.url) == |Listed(m, r.name)|
    ensures Rostered(m[r.name := Listed(m, r.name) + [r]], used + {r.id})
  {
    var l := Listed(m, r.name) + [r];
    assert Filed(l, r.name, used + {r.id});
    forall n | n in m && n != r.name ensures Apart(l, m[n]) && Apart(m[n], l) {
      assert forall i :: 0 <= i < |m[n]| ==> m[n][i].id in used;
      assert r.name in m ==> Apart(m[r.name], m[n]);
    }
    ReplaceRostered(m, used, used + {r.id}, r.name, l);
  }

  lemma KnownMore(log: seq<Event>, used: set<string>, more: set<string>)
    requires used <= more && forall e :: e in log ==> Known(e, used)
    ensures forall e :: e in log ==> Known(e, more)
  {
    forall e | e in log ensures Known(e, more) {
      assert Known(e, used);
    }
  }

  lemma AddedLog(s: State, r: Registration)
    requires Completes(s, r)
    ensures var s1, s2 := Removed(s, r.name, r.url), Added(s, r);
            && s2.regs == s1.regs[r.name := Listed(s1.regs, r.name) + [r]]
            && s2.log == s1.log + [Welcome(r, s2.regs)] + [Notify(Patch([r], []), s2.regs)]
            && InMap(s2.regs, r)
  {
    var l := Listed(Added(s, r).regs, r.name);
    assert l[|l| - 1] == r;
  }

  lemma AddedSound(s: State, used: set<string>, r: Registration)
    requires Sound(s, used) && r.id !in used
    ensures Sound(Added(s, r), used + {r.id})
  {
    var s1, more := Removed(s, r.name, r.url), used + {r.id};
    RemovedSound(s, used, r.name, r.url);
    KnownMore(s1.log, used, more);
    if Completes(s, r) {
      RemovedIsDistinct(s, r.name, r.url);
      AppendRostered(s1.regs, used, r);
      AddedLog(s, r);
      var m := Added(s, r).regs;
      assert Known(Welcome(r, m), more) && Known(Notify(Patch([r], []), m), more);
    }
  }

  lemma {:induction false} RunsAreSound(steps: seq<Step>)
    requires FreshIds(steps)
    ensures Sound(Run(steps), UsedIds(steps))
  {
    if steps != [] {
      var front, step := steps[..|steps| - 1], steps[|steps| - 1];
      RunsAreSound(front);
      match step
      case AddStep(r) => AddedSound(Run(front), UsedIds(front), r);
      case RemoveStep(name, url) =>
        RemovedSound(Run(front), UsedIds(front), name, url);
        assert UsedIds(steps) == UsedIds(front);
    }
  }

  // ----- What arrives in the mailbox -----

  lemma {:induction false} StrangerHasNoMail(me: Registration, log: seq<Event>, used: set<string>)
    requires me.id !in used && forall e :: e in log ==> Known(e, used)
    ensures Mailbox(me, log) == []
  {
    if log != [] {
      var last := log[|log| - 1];
      StrangerHasNoMail(me, log[..|log| - 1], used);
      assert Known(last, used);
    }
  }

  /** A patch about one registration reaches a subscriber once, if at all. */
  lemma {:induction false} SinglePatch(required: seq<string>, full: Patch, r: Registration)
    requires NoRepeats(required) && (full == Patch([r], []) || full == Patch([], [r]))
    ensures PatchesFor(required, full) == if r.name in required then [full] else []
  {
    if required != [] {
      var front, last := required[..|required| - 1], required[|required| - 1];
      SinglePatch(front, full, r);
      LastName(required, r.name);
      assert OfName([r], last) == if r.name == last then [r] else [];
    }
  }

  function OpOf(full: Patch): Op
    requires |full.added| + |full.removed| == 1
  {
    if |full.added| == 1 then Plus(full.added[0]) else Minus(full.removed[0])
  }

  lemma MailGrows(me: Registration, log: seq<Event>, e: Event)
    ensures Mailbox(me, log + [e]) == Mailbox(me, log) + MailOf(me, e)
  {
    assert (log + [e])[..|log|] == log;
  }

  lemma OpsGrow(mail: seq<Patch>, p: Patch)
    ensures OpsOf(mail + [p]) == OpsOf(mail) + PatchOps(p)
  {
    assert (mail + [p])[..|mail|] == mail;
  }

  lemma MailOfNotify(me: Registration, full: Patch, r: Registration, audience: Catalogue)
    requires NoRepeats(me.required) && (full == Patch([r], []) || full == Patch([], [r])) && InMap(audience, me)
    ensures MailOf(me, Notify(full, audience)) == if r.name in me.required then [full] else []
  {
    SinglePatch(me.required, full, r);
  }

  /** Announcing one change to a registered subscriber adds one operation, or none. */
  lemma NotifyGrows(me: Registration, log: seq<Event>, full: Patch, r: Registration, audience: Catalogue)
    requires NoRepeats(me.required) && (full == Patch([r], []) || full == Patch([], [r])) && InMap(audience, me)
    ensures OpsOf(Mailbox(me, log + [Notify(full, audience)])) ==
            OpsOf(Mailbox(me, log)) + if r.name in me.required then [OpOf(full)] else []
  {
    var mail := Mailbox(me, log);
    MailGrows(me, log, Notify(full, audience));
    MailOfNotify(me, full, r, audience);
    if r.name in me.required {
      OpsGrow(mail, full);
      SingleOp(full, r);
    } else {
      assert mail + [] == mail && OpsOf(mail) + [] == OpsOf(mail);
    }
  }

  lemma SingleOp(full: Patch, r: Registration)
    requires full == Patch([r], []) || full == Patch([], [r])
    ensures PatchOps(full) == [OpOf(full)]
  {
  }

  // ----- The cache follows the registry -----

  /** Every removal comes after the addition it undoes. */
  ghost predicate Ordered(ops: seq<Op>) {
    forall j :: 0 <= j < |ops| && ops[j].Minus? ==> exists i :: 0 <= i < j && ops[i] == Plus(ops[j].reg)
  }

  ghost predicate Tracks(me: Registration, m: Catalogue, ops: seq<Op>, used: set<string>) {
    && (forall name :: name in me.required ==> Listed(ApplyAll(map[], ops), name) == Listed(m, name))
    && Unique(multiset(ops))
    && Ordered(ops)
    && (forall o :: o in ops ==> o.reg.id in used && o.reg.name in me.required)
  }

  lemma UniqueAdd(ops: seq<Op>, x: Op)
    requires Unique(multiset(ops)) && x !in ops
    requires forall o :: o in ops && o.reg.id == x.reg.id ==> o.reg == x.reg
    ensures Unique(multiset(ops + [x]))
  {
    var m := multiset(ops);
    assert multiset(ops + [x]) == m + multiset{x};
    assert forall o :: o in m ==> o in ops;
  }

  lemma OrderedAdd(ops: seq<Op>, x: Op)
    requires Ordered(ops) && (x.Minus? ==> Plus(x.reg) in ops)
    ensures Ordered(ops + [x])
  {
    var more := ops + [x];
    forall j | 0 <= j < |more| && more[j].Minus? ensures exists i :: 0 <= i < j && more[i] == Plus(more[j].reg) {
      if j < |ops| {
        var i :| 0 <= i < j && ops[i] == Plus(ops[j].reg);
        assert more[i] == Plus(more[j].reg);
      } else {
        var i :| 0 <= i < |ops| && ops[i] == Plus(x.reg);
        assert more[i] == Plus(x.reg);
      }
    }
  }

  lemma ApplyOneMore(c: Catalogue, ops: seq<Op>, x: Op)
    ensures ApplyAll(c, ops + [x]) == Apply(ApplyAll(c, ops), x)
  {
    assert (ops + [x])[..|ops|] == ops;
  }

  /** With additions first, nobody in the cache has a removal behind it. */
  lemma AliveNotRemoved(ops: seq<Op>, r: Registration)
    requires Unique(multiset(ops)) && Ordered(ops) && Alive(ops, r)
    ensures Plus(r) in ops && Minus(r) !in ops
  {
    var i :| 0 <= i < |ops| && ops[i] == Plus(r) && forall j :: i < j < |ops| ==> ops[j] != Minus(r);
    if Minus(r) in ops {
      var j :| 0 <= j < |ops| && ops[j] == Minus(r);
      var i' :| 0 <= i' < j && ops[i'] == Plus(ops[j].reg);
      OnlyOnce(ops, i', i);
    }
  }

  lemma {:induction false} OnlyOnce(ops: seq<Op>, i: nat, j: nat)
    requires Unique(multiset(ops)) && i < |ops| && j < |ops| && ops[i] == ops[j]
    ensures i == j
    decreases |ops|
  {
    UniqueFront(ops);
    var front := ops[..|ops| - 1];
    if i < |front| && j < |front| {
      OnlyOnce(front, i, j);
    }
  }

  /** Before a listed provider is removed, it has been added once and never removed. */
  lemma ListedOps(me: Registration, m: Catalogue, ops: seq<Op>, used: set<string>, x: Registration)
    requires Tracks(me, m, ops, used) && x.name in me.required && x in Listed(m, x.name)
    ensures Plus(x) in ops && Minus(x) !in ops
    ensures forall o :: o in ops && o.reg.id == x.id ==> o.reg == x
    ensures IdsDistinct(Listed(m, x.name))
  {
    Survivors(ops, x.name);
    AliveNotRemoved(ops, x);
    assert forall o :: o in ops ==> o in multiset(ops);
    assert Plus(x) in multiset(ops);
  }

  /** Removal at the registry by position and at the cache by id take out the same entry. */
  lemma TrackMinus(me: Registration, m: Catalogue, ops: seq<Op>, used: set<string>, x: Registration, k: nat)
    requires Tracks(me, m, ops, used) && x.name in me.required
    requires k < |Listed(m, x.name)| && Listed(m, x.name)[k] == x && x.id in used
    ensures Tracks(me, m[x.name := Drop(Listed(m, x.name), k)], ops + [Minus(x)], used)
  {
    ListedOps(me, m, ops, used, x);
    UniqueAdd(ops, Minus(x));
    OrderedAdd(ops, Minus(x));
    SyncMinus(me, m, ops, x, k);
    OpsInScope(me, ops, Minus(x), used);
    TracksFrom(me, m[x.name := Drop(Listed(m, x.name), k)], ops + [Minus(x)], used);
  }

  lemma TracksFrom(me: Registration, m: Catalogue, ops: seq<Op>, used: set<string>)
    requires forall name :: name in me.required ==> Listed(ApplyAll(map[], ops), name) == Listed(m, name)
    requires Unique(multiset(ops)) && Ordered(ops)
    requires forall o :: o in ops ==> o.reg.id in used && o.reg.name in me.required
    ensures Tracks(me, m, ops, used)
  {
  }

  lemma SyncMinus(me: Registration, m: Catalogue, ops: seq<Op>, x: Registration, k: nat)
    requires forall name :: name in me.required ==> Listed(ApplyAll(map[], ops), name) == Listed(m, name)
    requires x.name in me.required && k < |Listed(m, x.name)| && Listed(m, x.name)[k] == x
    requires IdsDistinct(Listed(m, x.name))
    ensures forall name :: name in me.required ==>
              Listed(ApplyAll(map[], ops + [Minus(x)]), name) == Listed(m[x.name := Drop(Listed(m, x.name), k)], name)
  {
    ApplyOneMore(map[], ops, Minus(x));
    assert IndexOfId(Listed(m, x.name), x.id) == k;
  }

  lemma OpsInScope(me: Registration, ops: seq<Op>, x: Op, used: set<string>)
    requires forall o :: o in ops ==> o.reg.id in used && o.reg.name in me.required
    requires x.reg.id in used && x.reg.name in me.required
    ensures forall o :: o in ops + [x] ==> o.reg.id in used && o.reg.name in me.required
  {
  }

  lemma TrackPlus(me: Registration, m: Catalogue, ops: seq<Op>, used: set<string>, r: Registration)
    requires Tracks(me, m, ops, used) && r.id !in used && r.name in me.required
    ensures Tracks(me, m[r.name := Listed(m, r.name) + [r]], ops + [Plus(r)], used + {r.id})
  {
    UniqueAdd(ops, Plus(r));
    OrderedAdd(ops, Plus(r));
    ApplyOneMore(map[], ops, Plus(r));
    OpsInScope(me, ops, Plus(r), used + {r.id});
    TracksFrom(me, m[r.name := Listed(m, r.name) + [r]], ops + [Plus(r)], used + {r.id});
  }

  /** A change of a list the subscriber does not require is no concern of the cache. */
  lemma TrackOther(me: Registration, m: Catalogue, ops: seq<Op>, used: set<string>, more: set<string>, name: string,
                   l: seq<Registration>)
    requires Tracks(me, m, ops, used) && name !in me.required && used <= more
    ensures Tracks(me, m[name := l], ops + [], more)
  {
    assert ops + [] == ops;
  }

  ghost predicate Follows(me: Registration, s: State, used: set<string>) {
    Sound(s, used) && InMap(s.regs, me) && Tracks(me, s.regs, OpsOf(Mailbox(me, s.log)), used)
  }

  lemma RemovedFollows(me: Registration, s: State, used: set<string>, name: string, url: string)
    requires Follows(me, s, used) && NoRepeats(me.required)
    ensures var s' := Removed(s, name, url); Sound(s', used) && Tracks(me, s'.regs, OpsOf(Mailbox(me, s'.log)), used)
  {
    RemovedSound(s, used, name, url);
    var l := Listed(s.regs, name);
    var k := IndexOfUrl(l, url);
    if k < |l| {
      NotifyGrows(me, s.log, Patch([], [l[k]]), l[k], s.regs);
      if name in me.required {
        TrackMinus(me, s.regs, OpsOf(Mailbox(me, s.log)), used, l[k], k);
      } else {
        TrackOther(me, s.regs, OpsOf(Mailbox(me, s.log)), used, used, name, Drop(l, k));
      }
    }
  }

  lemma AddedFollows(me: Registration, s: State, used: set<string>, r: Registration)
    requires Follows(me, s, used) && NoRepeats(me.required) && r.id !in used && me.id in used
    requires InMap(Added(s, r).regs, me)
    ensures Follows(me, Added(s, r), used + {r.id})
  {
    AddedSound(s, used, r);
    RemovedFollows(me, s, used, r.name, r.url);
    if Completes(s, r) {
      AddedLog(s, r);
      var s1, s2 := Removed(s, r.name, r.url), Added(s, r);
      AnnounceGrows(me, s1.log, r, s2.regs);
      var ops := OpsOf(Mailbox(me, s1.log));
      if r.name in me.required {
        TrackPlus(me, s1.regs, ops, used, r);
      } else {
        TrackOther(me, s1.regs, ops, used, used + {r.id}, r.name, Listed(s1.regs, r.name) + [r]);
      }
    }
  }

  lemma AnnounceGrows(me: Registration, before: seq<Event>, r: Registration, m: Catalogue)
    requires r != me && InMap(m, me) && NoRepeats(me.required)
    ensures OpsOf(Mailbox(me, before + [Welcome(r, m)] + [Notify(Patch([r], []), m)])) ==
            OpsOf(Mailbox(me, before)) + if r.name in me.required then [Plus(r)] else []
  {
    MailGrows(me, before, Welcome(r, m));
    assert Mailbox(me, before) + [] == Mailbox(me, before);
    NotifyGrows(me, before + [Welcome(r, m)], Patch([r], []), r, m);
  }

  // ----- Joining -----

  lemma {:induction false} OfNameAppend(a: seq<Registration>, b: seq<Registration>, name: string)
    ensures OfName(a + b, name) == OfName(a, name) + OfName(b, name)
    decreases |b|
  {
    if b == [] {
      assert a + b == a;
    } else {
      OfNameAppend(a, b[..|b| - 1], name);
      assert (a + b)[..|a + b| - 1] == a + b[..|b| - 1];
    }
  }

  lemma {:induction false} OfNameUniform(l: seq<Registration>, own: string, name: string)
    requires forall i :: 0 <= i < |l| ==> l[i].name == own
    ensures OfName(l, name) == if name == own then l else []
  {
    if l != [] {
      OfNameUniform(l[..|l| - 1], own, name);
      assert l == l[..|l| - 1] + [l[|l| - 1]];
    }
  }

  lemma {:induction false} OfNameCatalogued(required: seq<string>, m: Catalogue, used: set<string>, name: string)
    requires Rostered(m, used) && NoRepeats(required)
    ensures OfName(Catalogued(required, m), name) == if name in required then Listed(m, name) else []
  {
    if required != [] {
      var front, last := required[..|required| - 1], required[|required| - 1];
      OfNameCatalogued(front, m, used, name);
      OfNameAppend(Catalogued(front, m), Listed(m, last), name);
      OfNameUniform(Listed(m, last), last, name);
      LastName(required, name);
    }
  }

  /** Adding a list to an empty cache files it by name. */
  lemma {:induction false} PlusesByName(rs: seq<Registration>, name: string)
    ensures Listed(ApplyAll(map[], Pluses(rs)), name) == OfName(rs, name)
  {
    if rs != [] {
      var front := rs[..|rs| - 1];
      PlusesByName(front, name);
      assert Pluses(rs)[..|rs| - 1] == Pluses(front);
    }
  }

  lemma {:induction false} CataloguedDistinct(required: seq<string>, m: Catalogue, used: set<string>)
    requires Rostered(m, used) && NoRepeats(required)
    ensures IdsDistinct(Catalogued(required, m))
    ensures forall r :: r in Catalogued(required, m) ==> r.id in used && r.name in required && r in Listed(m, r.name)
  {
    if required != [] {
      var front, last := required[..|required| - 1], required[|required| - 1];
      CataloguedDistinct(front, m, used);
      assert required == front + [last] && last !in front;
      var a, b := Catalogued(front, m), Listed(m, last);
      forall i, j | 0 <= i < |a| && 0 <= j < |b| ensures a[i].id != b[j].id {
        assert a[i] in Listed(m, a[i].name);
        assert a[i].name in front;
      }
    }
  }

  lemma {:induction false} PlusesUnique(rs: seq<Registration>)
    requires IdsDistinct(rs)
    ensures Unique(multiset(Pluses(rs)))
  {
    if rs != [] {
      var front, last := rs[..|rs| - 1], rs[|rs| - 1];
      PlusesUnique(front);
      assert Pluses(rs) == Pluses(front) + [Plus(last)];
      assert forall o :: o in Pluses(front) ==> o.reg in front;
      assert forall r :: r in front ==> r.id != last.id;
      UniqueAdd(Pluses(front), Plus(last));
    }
  }

  lemma WelcomeTracks(me: Registration, m: Catalogue, used: set<string>)
    requires Rostered(m, used) && NoRepeats(me.required)
    ensures Tracks(me, m, Pluses(Catalogued(me.required, m)), used)
  {
    var rs := Catalogued(me.required, m);
    CataloguedDistinct(me.required, m, used);
    PlusesUnique(rs);
    forall name | name in me.required ensures Listed(ApplyAll(map[], Pluses(rs)), name) == Listed(m, name) {
      PlusesByName(rs, name);
      OfNameCatalogued(me.required, m, used, name);
    }
    forall o | o in Pluses(rs) ensures o.reg.id in used && o.reg.name in me.required {
      assert o.reg in rs;
    }
  }

  lemma OpsOfOne(p: Patch)
    ensures OpsOf([p]) == PatchOps(p)
  {
    OpsGrow([], p);
    assert [] + [p] == [p] && [] + PatchOps(p) == PatchOps(p);
  }

  /** What a newcomer has been sent when its registration completes. */
  lemma JoinMail(me: Registration, before: seq<Event>, m: Catalogue)
    requires Mailbox(me, before) == [] && InMap(m, me) && NoRepeats(me.required) && me.name !in me.required
    ensures OpsOf(Mailbox(me, before + [Welcome(me, m)] + [Notify(Patch([me], []), m)])) ==
            Pluses(Catalogued(me.required, m))
  {
    var rs, log := Catalogued(me.required, m), before + [Welcome(me, m)];
    MailGrows(me, before, Welcome(me, m));
    NotifyGrows(me, log, Patch([me], []), me, m);
    if rs != [] {
      assert Mailbox(me, log) == [Patch(rs, [])];
      OpsOfOne(Patch(rs, []));
      assert PatchOps(Patch(rs, [])) == Pluses(rs);
    }
    assert Pluses(rs) + [] == Pluses(rs);
  }

  /** A newcomer whose registration completes starts out in agreement with the registry. */
  lemma JoinFollows(me: Registration, s: State, used: set<string>)
    requires Sound(s, used) && me.id !in used && Completes(s, me)
    requires NoRepeats(me.required) && me.name !in me.required
    ensures Follows(me, Added(s, me), used + {me.id})
  {
    AddedSound(s, used, me);
    RemovedSound(s, used, me.name, me.url);
    AddedLog(s, me);
    var s1, s2 := Removed(s, me.name, me.url), Added(s, me);
    StrangerHasNoMail(me, s1.log, used);
    JoinMail(me, s1.log, s2.regs);
    WelcomeTracks(me, s2.regs, used + {me.id});
  }

  // ----- Whole runs -----

  /** `me` is registered after joining and then `post`. */
  ghost predicate Present(pre: seq<Step>, me: Registration, post: seq<Step>) {
    InMap(Run(pre + [AddStep(me)] + post).regs, me)
  }

  ghost predicate AlwaysPresent(pre: seq<Step>, me: Registration, post: seq<Step>) {
    forall k :: 0 <= k <= |post| ==> Present(pre, me, post[..k])
  }

  lemma PresentPrefix(pre: seq<Step>, me: Registration, post: seq<Step>)
    requires AlwaysPresent(pre, me, post) && post != []
    ensures AlwaysPresent(pre, me, post[..|post| - 1]) && Present(pre, me, post)
  {
    var front := post[..|post| - 1];
    assert post[..|post|] == post;
    forall k | 0 <= k <= |front| ensures Present(pre, me, front[..k]) {
      assert front[..k] == post[..k];
    }
  }

  /** `me` joins after `pre` and stays registered throughout `post`. */
  ghost predicate StaysJoined(pre: seq<Step>, me: Registration, post: seq<Step>) {
    && FreshIds(pre + [AddStep(me)] + post)
    && Completes(Run(pre), me)
    && NoRepeats(me.required) && me.name !in me.required
    && AlwaysPresent(pre, me, post)
  }

  lemma NextFollows(me: Registration, steps: seq<Step>, step: Step)
    requires NoRepeats(me.required) && FreshIds(steps + [step]) && me.id in UsedIds(steps)
    requires Follows(me, Run(steps), UsedIds(steps)) && InMap(Run(steps + [step]).regs, me)
    ensures Follows(me, Run(steps + [step]), UsedIds(steps + [step])) && me.id in UsedIds(steps + [step])
  {
    assert (steps + [step])[..|steps|] == steps;
    match step
    case AddStep(r) => AddedFollows(me, Run(steps), UsedIds(steps), r);
    case RemoveStep(name, url) =>
      assert UsedIds(steps + [step]) == UsedIds(steps);
      RemovedFollows(me, Run(steps), UsedIds(steps), name, url);
  }

  lemma SplitLast(a: seq<Step>, b: seq<Step>)
    requires b != []
    ensures a + b == a + b[..|b| - 1] + [b[|b| - 1]]
  {
  }

  lemma StaysPrefix(pre: seq<Step>, me: Registration, post: seq<Step>)
    requires StaysJoined(pre, me, post) && post != []
    ensures StaysJoined(pre, me, post[..|post| - 1])
    ensures Present(pre, me, post)
  {
    SplitLast(pre + [AddStep(me)], post);
    RunGrows(pre + [AddStep(me)] + post[..|post| - 1], post[|post| - 1]);
    PresentPrefix(pre, me, post);
  }

  lemma {:induction false} RunFollows(pre: seq<Step>, me: Registration, post: seq<Step>)
    requires StaysJoined(pre, me, post)
    ensures var steps := pre + [AddStep(me)] + post;
            Follows(me, Run(steps), UsedIds(steps)) && me.id in UsedIds(steps)
    decreases |post|
  {
    var steps := pre + [AddStep(me)] + post;
    if post == [] {
      assert steps == pre + [AddStep(me)] && steps[..|pre|] == pre;
      RunsAreSound(pre);
      JoinFollows(me, Run(pre), UsedIds(pre));
    } else {
      var post', last := post[..|post| - 1], post[|post| - 1];
      var front := pre + [AddStep(me)] + post';
      SplitLast(pre + [AddStep(me)], post);
      StaysPrefix(pre, me, post);
      RunFollows(pre, me, post');
      NextFollows(me, front, last);
    }
  }

  function RemoveSteps(gone: seq<(string, string)>): seq<Step> {
    if gone == [] then [] else RemoveSteps(gone[..|gone| - 1]) + [RemoveStep(gone[|gone| - 1].0, gone[|gone| - 1].1)]
  }

  /** The expiry sweep is part of these runs: it is a sequence of removal steps. */
  lemma {:induction false} SweepContinuesRun(steps: seq<Step>, gone: seq<(string, string)>)
    ensures Run(steps + RemoveSteps(gone)) == RemovedAll(Run(steps), gone)
    decreases |gone|
  {
    if gone == [] {
      assert steps + [] == steps;
    } else {
      var front, last := gone[..|gone| - 1], gone[|gone| - 1];
      SweepContinuesRun(steps, front);
      var more := steps + RemoveSteps(front);
      assert steps + RemoveSteps(gone) == more + [RemoveStep(last.0, last.1)];
      assert (more + [RemoveStep(last.0, last.1)])[..|more|] == more;
    }
  }

  /** With delivery in sending order the cached lists equal the registry's, as sequences. */
  lemma FifoAgreement(pre: seq<Step>, me: Registration, post: seq<Step>, name: string)
    requires StaysJoined(pre, me, post) && name in me.required
    ensures var s := Run(pre + [AddStep(me)] + post);
            Listed(Delivered(Mailbox(me, s.log)), name) == Listed(s.regs, name)
  {
    RunFollows(pre, me, post);
  }

  // ----- Reordered delivery -----

  /** Each provider's addition is worked off before its removal. */
  ghost predicate AddedFirst(ops: seq<Op>) {
    forall i, j :: 0 <= i < |ops| && 0 <= j < |ops| && ops[i].Minus? && ops[j] == Plus(ops[i].reg) ==> j < i
  }

  lemma {:induction false} OpsOfAppend(a: seq<Patch>, b: seq<Patch>)
    ensures OpsOf(a + b) == OpsOf(a) + OpsOf(b)
    decreases |b|
  {
    if b == [] {
      assert a + b == a;
    } else {
      var front, last := b[..|b| - 1], b[|b| - 1];
      OpsOfAppend(a, front);
      assert b == front + [last] && a + b == a + front + [last];
      OpsGrow(front, last);
      OpsGrow(a + front, last);
      Associative(OpsOf(a), OpsOf(front), PatchOps(last));
    }
  }

  lemma Associative<T>(a: seq<T>, b: seq<T>, c: seq<T>)
    ensures (a + b) + c == a + (b + c)
  {
  }

  lemma Middle<T>(a: seq<T>, b: seq<T>, c: seq<T>)
    ensures multiset(a + b + c) == multiset(a + c) + multiset(b)
  {
  }

  lemma OpsMiddle(left: seq<Patch>, p: Patch, right: seq<Patch>)
    ensures multiset(OpsOf(left + [p] + right)) == multiset(OpsOf(left + right)) + multiset(PatchOps(p))
  {
    OpsOfAppend(left, right);
    OpsOfAppend(left + [p], right);
    OpsGrow(left, p);
    Middle(OpsOf(left), PatchOps(p), OpsOf(right));
  }

  lemma CancelOne<T>(x: multiset<T>, y: multiset<T>, p: T)
    requires x + multiset{p} == y + multiset{p}
    ensures x == y
  {
    assert x == (x + multiset{p}) - multiset{p};
    assert y == (y + multiset{p}) - multiset{p};
  }

  /** Reordering patches reorders operations. */
  lemma {:induction false} OpsPermute(a: seq<Patch>, b: seq<Patch>)
    requires multiset(a) == multiset(b)
    ensures multiset(OpsOf(a)) == multiset(OpsOf(b))
    decreases |a|
  {
    if a == [] {
      assert |b| == |multiset(b)| == 0;
    } else {
      var front, p := a[..|a| - 1], a[|a| - 1];
      assert a == front + [p];
      assert p in multiset(b);
      var k :| 0 <= k < |b| && b[k] == p;
      var left, right := b[..k], b[k + 1..];
      assert b == left + [p] + right;
      Middle(left, [p], right);
      CancelOne(multiset(front), multiset(left + right), p);
      OpsPermute(front, left + right);
      OpsGrow(front, p);
      OpsMiddle(left, p, right);
    }
  }

  lemma SameMembersSameMultiset(a: seq<Registration>, b: seq<Registration>)
    requires IdsDistinct(a) && IdsDistinct(b)
    ensures (forall r :: r in a <==> r in b) <==> multiset(a) == multiset(b)
  {
    if multiset(a) == multiset(b) {
      forall r ensures r in a <==> r in b {
        assert r in a <==> r in multiset(a);
        assert r in b <==> r in multiset(b);
      }
    }
    if forall r :: r in a <==> r in b {
      forall r ensures multiset(a)[r] == multiset(b)[r] {
        CountDistinct(a, r);
        CountDistinct(b, r);
      }
    }
  }

  lemma {:induction false} CountDistinct(a: seq<Registration>, r: Registration)
    requires IdsDistinct(a)
    ensures multiset(a)[r] == if r in a then 1 else 0
  {
    if a != [] {
      var front, last := a[..|a| - 1], a[|a| - 1];
      assert a == front + [last];
      CountDistinct(front, r);
    }
  }

  /** Among operations with additions first, being added and never removed decides. */
  lemma AliveIffNotRemoved(ops: seq<Op>, r: Registration)
    requires AddedFirst(ops)
    ensures Alive(ops, r) <==> Plus(r) in ops && Minus(r) !in ops
  {
    if Plus(r) in ops && Minus(r) !in ops {
      var i :| 0 <= i < |ops| && ops[i] == Plus(r);
      assert forall j :: i < j < |ops| ==> ops[j] != Minus(r);
    }
  }

  lemma OrderedIsAddedFirst(ops: seq<Op>)
    requires Unique(multiset(ops)) && Ordered(ops)
    ensures AddedFirst(ops)
  {
    forall i, j | 0 <= i < |ops| && 0 <= j < |ops| && ops[i].Minus? && ops[j] == Plus(ops[i].reg) ensures j < i {
      var k :| 0 <= k < i && ops[k] == Plus(ops[i].reg);
      OnlyOnce(ops, k, j);
    }
  }

  /** A removal that overtakes its addition leaves the provider in the cache for good. */
  lemma OvertakenStays(ops: seq<Op>, i: nat, j: nat)
    requires Unique(multiset(ops)) && i < j < |ops| && ops[i].Minus? && ops[j] == Plus(ops[i].reg)
    ensures Alive(ops, ops[i].reg)
  {
    var r := ops[i].reg;
    forall k | j < k < |ops| ensures ops[k] != Minus(r) {
      if ops[k] == Minus(r) { OnlyOnce(ops, i, k); }
    }
  }

  /** A provider comes and goes after `me` has joined: two patches. */
  function ComeAndGo(me: Registration, p: Registration): seq<Step> {
    [AddStep(me), AddStep(p), RemoveStep(p.name, p.url)]
  }

  lemma RunGrows(steps: seq<Step>, step: Step)
    ensures Run(steps + [step]) == Next(Run(steps), step)
    ensures FreshIds(steps + [step]) <==> FreshIds(steps) && (step.AddStep? ==> step.reg.id !in UsedIds(steps))
    ensures UsedIds(steps + [step]) == UsedIds(steps) + if step.AddStep? then {step.reg.id} else {}
  {
    assert (steps + [step])[..|steps|] == steps;
  }

  /** What the registry holds and has announced after the subscriber and then the provider joined. */
  lemma BothJoined(me: Registration, p: Registration)
    requires me.name != p.name
    ensures var m0, m1 := map[me.name := [me]], map[me.name := [me], p.name := [p]];
            Added(Added(State(map[], []), me), p) ==
            State(m1, [Welcome(me, m0), Notify(Patch([me], []), m0)] + [Welcome(p, m1), Notify(Patch([p], []), m1)])
  {
    assert [] + [me] == [me] && [] + [p] == [p];
    assert Added(State(map[], []), me).regs == map[me.name := [me]];
  }

  lemma BothListed(me: Registration, p: Registration)
    requires me.name != p.name
    ensures var m := Added(Added(State(map[], []), me), p).regs; InMap(m, me) && Listed(m, p.name) == [p]
  {
    BothJoined(me, p);
    assert [me][0] == me;
  }

  lemma ComeAndGoRun(me: Registration, p: Registration)
    requires me.name != p.name && me.id != p.id
    ensures FreshIds(ComeAndGo(me, p))
    ensures Run(ComeAndGo(me, p)) == Removed(Added(Added(State(map[], []), me), p), p.name, p.url)
  {
    var a, b, c := AddStep(me), AddStep(p), RemoveStep(p.name, p.url);
    RunGrows([], a);
    RunGrows([a], b);
    RunGrows([a, b], c);
    assert [] + [a] == [a] && [a] + [b] == [a, b] && [a, b] + [c] == ComeAndGo(me, p);
  }

  lemma MailOfFour(me: Registration, a: Event, b: Event, c: Event, d: Event, p: Patch)
    requires MailOf(me, a) == [] && MailOf(me, b) == [] && MailOf(me, c) == [] && MailOf(me, d) == [p]
    ensures Mailbox(me, [a, b] + [c, d]) == [p]
  {
    assert [] + [a] == [a] && [a] + [b] + [c] + [d] == [a, b] + [c, d];
    MailGrows(me, [], a);
    MailGrows(me, [a], b);
    MailGrows(me, [a] + [b], c);
    MailGrows(me, [a] + [b] + [c], d);
  }

  /** Only the announcements of the provider are mail for the subscriber. */
  lemma ProviderMail(me: Registration, p: Registration, m0: Catalogue, m1: Catalogue)
    requires me.required == [p.name] && me.name != p.name && me.id != p.id
    requires InMap(m0, me) && InMap(m1, me) && Listed(m0, p.name) == []
    ensures MailOf(me, Welcome(me, m0)) == MailOf(me, Notify(Patch([me], []), m0)) == MailOf(me, Welcome(p, m1)) == []
    ensures MailOf(me, Notify(Patch([p], []), m1)) == [Patch([p], [])]
    ensures MailOf(me, Notify(Patch([], [p]), m1)) == [Patch([], [p])]
  {
    assert Catalogued([p.name], m0) == [] by { assert [p.name][..0] == []; }
    MailOfNotify(me, Patch([me], []), me, m0);
    MailOfNotify(me, Patch([p], []), p, m1);
    MailOfNotify(me, Patch([], [p]), p, m1);
  }

  lemma JoinedMail(me: Registration, p: Registration)
    requires me.required == [p.name] && me.name != p.name && me.id != p.id
    ensures Mailbox(me, Added(Added(State(map[], []), me), p).log) == [Patch([p], [])]
  {
    var m0, m1 := map[me.name := [me]], map[me.name := [me], p.name := [p]];
    BothJoined(me, p);
    assert InMap(m0, me) && InMap(m1, me) by { assert [me][0] == me; }
    ProviderMail(me, p, m0, m1);
    MailOfFour(me, Welcome(me, m0), Notify(Patch([me], []), m0), Welcome(p, m1), Notify(Patch([p], []), m1),
               Patch([p], []));
  }

  lemma LeavingMail(me: Registration, p: Registration, s: State)
    requires me.required == [p.name] && InMap(s.regs, me) && Listed(s.regs, p.name) == [p]
    ensures Mailbox(me, Removed(s, p.name, p.url).log) == Mailbox(me, s.log) + [Patch([], [p])]
    ensures Listed(Removed(s, p.name, p.url).regs, p.name) == []
  {
    assert IndexOfUrl([p], p.url) == 0 && Drop([p], 0) == [];
    MailGrows(me, s.log, Notify(Patch([], [p]), s.regs));
    MailOfNotify(me, Patch([], [p]), p, s.regs);
  }

  /** Exactly two patches reach the subscriber. */
  lemma ComeAndGoMail(me: Registration, p: Registration)
    requires me.required == [p.name] && me.name != p.name && me.id != p.id
    ensures Mailbox(me, Run(ComeAndGo(me, p)).log) == [Patch([p], []), Patch([], [p])]
    ensures Listed(Run(ComeAndGo(me, p)).regs, p.name) == []
  {
    var s := Added(Added(State(map[], []), me), p);
    ComeAndGoRun(me, p);
    JoinedMail(me, p);
    BothListed(me, p);
    LeavingMail(me, p, s);
  }

  lemma WrongWayOps(p: Registration)
    ensures OpsOf([Patch([], [p]), Patch([p], [])]) == [Minus(p)] + [Plus(p)]
  {
    var minus, plus := Patch([], [p]), Patch([p], []);
    OpsOfOne(minus);
    OpsGrow([minus], plus);
    assert [minus] + [plus] == [minus, plus];
    SingleOp(minus, p);
    SingleOp(plus, p);
  }

  lemma WrongWayRound(p: Registration)
    ensures Listed(Delivered([Patch([], [p]), Patch([p], [])]), p.name) == [p]
  {
    WrongWayOps(p);
    ApplyOneMore(map[], [Minus(p)], Plus(p));
    assert [Minus(p)][..0] == [];
    assert ApplyAll(map[], [Minus(p)]) == map[];
    assert [] + [p] == [p];
  }

  /** The two patches delivered the wrong way round: the provider stays cached although it is gone. */
  lemma OvertakenRun(me: Registration, p: Registration)
    requires me.required == [p.name] && me.name != p.name && me.id != p.id
    ensures var s, arrived := Run(ComeAndGo(me, p)), [Patch([], [p]), Patch([p], [])];
            && multiset(arrived) == multiset(Mailbox(me, s.log))
            && Listed(s.regs, p.name) == []
            && Listed(Delivered(arrived), p.name) == [p]
  {
    ComeAndGoMail(me, p);
    WrongWayRound(p);
  }

  ghost predicate Agrees(c: Catalogue, m: Catalogue, names: seq<string>) {
    forall name :: name in names ==> multiset(Listed(c, name)) == multiset(Listed(m, name))
  }

  /**
  Once every patch has been delivered, in whatever order, the subscriber's provider lists equal the
  registry's as multisets exactly when every addition arrived before the removal it belongs to.
  */
  lemma ReorderedAgreement(pre: seq<Step>, me: Registration, post: seq<Step>, arrived: seq<Patch>)
    requires StaysJoined(pre, me, post)
    requires multiset(arrived) == multiset(Mailbox(me, Run(pre + [AddStep(me)] + post).log))
    ensures Agrees(Delivered(arrived), Run(pre + [AddStep(me)] + post).regs, me.required) <==>
            AddedFirst(OpsOf(arrived))
  {
    RunFollows(pre, me, post);
    var steps := pre + [AddStep(me)] + post;
    var s := Run(steps);
    OpsPermute(arrived, Mailbox(me, s.log));
    PermutedAgreement(me, s.regs, OpsOf(Mailbox(me, s.log)), UsedIds(steps), OpsOf(arrived));
  }

  lemma PermutedAgreement(me: Registration, m: Catalogue, sent: seq<Op>, used: set<string>, ops: seq<Op>)
    requires Tracks(me, m, sent, used) && multiset(ops) == multiset(sent)
    ensures Agrees(ApplyAll(map[], ops), m, me.required) <==> AddedFirst(ops)
  {
    assert forall o :: o in ops <==> o in sent by {
      assert forall o :: o in ops <==> o in multiset(ops);
      assert forall o :: o in sent <==> o in multiset(sent);
    }
    OrderedIsAddedFirst(sent);
    if AddedFirst(ops) {
      forall name | name in me.required
        ensures multiset(Listed(ApplyAll(map[], ops), name)) == multiset(Listed(m, name))
      {
        SameSurvivors(m, sent, ops, name);
      }
    } else {
      var i, j :| 0 <= i < |ops| && 0 <= j < |ops| && ops[i].Minus? && ops[j] == Plus(ops[i].reg) && j >= i;
      OvertakenStays(ops, i, j);
      var r := ops[i].reg;
      AliveIffNotRemoved(sent, r);
      Survivors(ops, r.name);
      Survivors(sent, r.name);
      assert ops[i] in ops && Minus(r) in sent;
      var c := Listed(ApplyAll(map[], ops), r.name);
      assert r in multiset(c) && r !in multiset(Listed(m, r.name));
    }
  }

  lemma SameSurvivors(m: Catalogue, sent: seq<Op>, ops: seq<Op>, name: string)
    requires Unique(multiset(sent)) && multiset(ops) == multiset(sent) && (forall o :: o in ops <==> o in sent)
    requires AddedFirst(sent) && AddedFirst(ops)
    requires Listed(ApplyAll(map[], sent), name) == Listed(m, name)
    ensures multiset(Listed(ApplyAll(map[], ops), name)) == multiset(Listed(m, name))
  {
    Survivors(sent, name);
    Survivors(ops, name);
    forall r ensures Alive(ops, r) <==> Alive(sent, r) {
      AliveIffNotRemoved(ops, r);
      AliveIffNotRemoved(sent, r);
    }
    SameMembersSameMultiset(Listed(ApplyAll(map[], ops), name), Listed(m, name));
  }
}
