/**
Patch propagation from the registry to a subscriber's provider cache (registry/server.go,
registry/client.go). Patches leave from separate goroutines, so they may arrive in any order.
*/
module Propagation {
  import opened Registry

  // ----- The subscriber's cache -----

  /** One entry of a patch. */
  datatype Op = Plus(reg: Registration) | Minus(reg: Registration)

  /** Position of the first registration with the id, or the length. */
  function IndexOfId(l: seq<Registration>, id: string): (k: nat)
    ensures k <= |l|
    ensures k < |l| ==> l[k].id == id
    ensures forall i :: 0 <= i < k ==> l[i].id != id
  {
    if l == [] || l[0].id == id then 0 else 1 + IndexOfId(l[1..], id)
  }

  function Apply(c: Catalogue, op: Op): Catalogue {
    var l := Listed(c, op.reg.name);
    match op
    case Plus(r) => c[r.name := l + [r]]
    case Minus(r) => if IndexOfId(l, r.id) == |l| then c else c[r.name := Drop(l, IndexOfId(l, r.id))]
  }

  function ApplyAll(c: Catalogue, ops: seq<Op>): Catalogue {
    if ops == [] then c else Apply(ApplyAll(c, ops[..|ops| - 1]), ops[|ops| - 1])
  }

  function Pluses(rs: seq<Registration>): (ops: seq<Op>)
    ensures |ops| == |rs| && forall i :: 0 <= i < |rs| ==> ops[i] == Plus(rs[i])
  {
    seq(|rs|, i requires 0 <= i < |rs| => Plus(rs[i]))
  }

  function Minuses(rs: seq<Registration>): (ops: seq<Op>)
    ensures |ops| == |rs| && forall i :: 0 <= i < |rs| ==> ops[i] == Minus(rs[i])
  {
    seq(|rs|, i requires 0 <= i < |rs| => Minus(rs[i]))
  }

  /** A patch is worked off additions first. */
  function PatchOps(p: Patch): seq<Op> {
    Pluses(p.added) + Minuses(p.removed)
  }

  function OpsOf(mail: seq<Patch>): seq<Op> {
    if mail == [] then [] else OpsOf(mail[..|mail| - 1]) + PatchOps(mail[|mail| - 1])
  }

  /** The cache of a subscriber that started empty and received the patches in this order. */
  function Delivered(mail: seq<Patch>): Catalogue {
    ApplyAll(map[], OpsOf(mail))
  }

  lemma ApplyNext(c: Catalogue, ops: seq<Op>, i: nat)
    requires i < |ops|
    ensures ApplyAll(c, ops[..i + 1]) == Apply(ApplyAll(c, ops[..i]), ops[i])
  {
    assert ops[..i + 1][..i] == ops[..i];
  }

  lemma {:induction false} ApplyAllAppend(c: Catalogue, a: seq<Op>, b: seq<Op>)
    ensures ApplyAll(c, a + b) == ApplyAll(ApplyAll(c, a), b)
    decreases |b|
  {
    if b == [] {
      assert a + b == a;
    } else {
      ApplyAllAppend(c, a, b[..|b| - 1]);
      assert (a + b)[..|a + b| - 1] == a + b[..|b| - 1];
    }
  }

  /** A registration both added and removed by one patch is not cached by it: additions come first. */
  lemma PatchTakesBack(c: Catalogue, r: Registration)
    requires IndexOfId(Listed(c, r.name), r.id) == |Listed(c, r.name)|
    ensures Listed(ApplyAll(c, PatchOps(Patch([r], [r]))), r.name) == Listed(c, r.name)
  {
    var l, added := Listed(c, r.name), c[r.name := Listed(c, r.name) + [r]];
    ApplyAllAppend(c, Pluses([r]), Minuses([r]));
    assert Pluses([r])[..0] == [] && Minuses([r])[..0] == [];
    assert ApplyAll(c, Pluses([r])) == added;
    var k := IndexOfId(l + [r], r.id);
    assert (l + [r])[|l|] == r && forall i :: 0 <= i < |l| ==> (l + [r])[i] == l[i];
    assert k == |l| && Drop(l + [r], k) == l;
  }

  class Providers {
    var services: Catalogue

    constructor ()
      ensures services == map[]
    {
      services := map[];
    }

    /** Additions first, then removals. */
    method Update(p: Patch)
      modifies this
      ensures services == ApplyAll(old(services), PatchOps(p))
    {
      ApplyAllAppend(services, Pluses(p.added), Minuses(p.removed));
      AddProviders(p.added);
      RemoveProviders(p.removed);
    }

    method AddProviders(rs: seq<Registration>)
      modifies this
      ensures services == ApplyAll(old(services), Pluses(rs))
    {
      ghost var was, ops := services, Pluses(rs);
      for i := 0 to |rs|
        invariant services == ApplyAll(was, ops[..i])
      {
        ApplyNext(was, ops, i);
        AddProvider(rs[i]);
      }
      assert ops[..|rs|] == ops;
    }

    method RemoveProviders(rs: seq<Registration>)
      modifies this
      ensures services == ApplyAll(old(services), Minuses(rs))
    {
      ghost var was, ops := services, Minuses(rs);
      for i := 0 to |rs|
        invariant services == ApplyAll(was, ops[..i])
      {
        ApplyNext(was, ops, i);
        if rs[i].name in services {
          RemoveProvider(rs[i]);
        }
      }
      assert ops[..|rs|] == ops;
    }

    method AddProvider(r: Registration)
      modifies this
      ensures services == Apply(old(services), Plus(r))
    {
      if r.name !in services {
        services := services[r.name := []];
      }
      services := services[r.name := services[r.name] + [r]];
    }

    /** The inner loop: splice out the first provider with the id. */
    method RemoveProvider(r: Registration)
      requires r.name in services
      modifies this
      ensures services == Apply(old(services), Minus(r))
    {
      var l := services[r.name];
      for i := 0 to |l|
        invariant services == old(services)
        invariant forall j :: 0 <= j < i ==> l[j].id != r.id
      {
        if l[i].id == r.id {
          assert IndexOfId(l, r.id) == i;
          services := services[r.name := l[..i] + l[i + 1..]];
          return;
        }
      }
    }
  }

  // ----- What the registry sends -----

  function OfName(rs: seq<Registration>, name: string): seq<Registration> {
    if rs == [] then []
    else OfName(rs[..|rs| - 1], name) + if rs[|rs| - 1].name == name then [rs[|rs| - 1]] else []
  }

  /** One patch for each required service that the full patch is about. */
  function PatchesFor(required: seq<string>, full: Patch): seq<Patch> {
    if required == [] then [] else
    var name := required[|required| - 1];
    var p := Patch(OfName(full.added, name), OfName(full.removed, name));
    PatchesFor(required[..|required| - 1], full) + if p == Patch([], []) then [] else [p]
  }

  function Catalogued(required: seq<string>, m: Catalogue): seq<Registration> {
    if required == [] then []
    else Catalogued(required[..|required| - 1], m) + Listed(m, required[|required| - 1])
  }

  function MailOf(me: Registration, e: Event): seq<Patch> {
    match e
    case Notify(full, audience) => if InMap(audience, me) then PatchesFor(me.required, full) else []
    case Welcome(newcomer, m) =>
      if newcomer == me && Catalogued(me.required, m) != [] then [Patch(Catalogued(me.required, m), [])] else []
  }

  /** Everything sent to `me`, in sending order. */
  function Mailbox(me: Registration, log: seq<Event>): seq<Patch> {
    if log == [] then [] else Mailbox(me, log[..|log| - 1]) + MailOf(me, log[|log| - 1])
  }

  // ----- Runs of the registry -----

  datatype Step = AddStep(reg: Registration) | RemoveStep(name: string, url: string)

  function Next(s: State, step: Step): State {
    match step
    case AddStep(r) => Added(s, r)
    case RemoveStep(name, url) => Removed(s, name, url)
  }

  function Run(steps: seq<Step>): State {
    if steps == [] then State(map[], []) else Next(Run(steps[..|steps| - 1]), steps[|steps| - 1])
  }

  /** The service ids generated so far. */
  function UsedIds(steps: seq<Step>): set<string> {
    if steps == [] then {}
    else UsedIds(steps[..|steps| - 1]) + if steps[|steps| - 1].AddStep? then {steps[|steps| - 1].reg.id} else {}
  }

  /** Generated service ids never repeat. */
  ghost predicate FreshIds(steps: seq<Step>) {
    steps != [] ==>
      && FreshIds(steps[..|steps| - 1])
      && (steps[|steps| - 1].AddStep? ==> steps[|steps| - 1].reg.id !in UsedIds(steps[..|steps| - 1]))
  }

  // ----- Which providers survive a sequence of operations -----

  /** Every operation occurs once, and an id belongs to one registration. */
  ghost predicate Unique(m: multiset<Op>) {
    && (forall o :: o in m ==> m[o] == 1)
    && (forall o, p :: o in m && p in m && o.reg.id == p.reg.id ==> o.reg == p.reg)
  }

  ghost predicate IdsDistinct(l: seq<Registration>) {
    forall i, j :: 0 <= i < j < |l| ==> l[i].id != l[j].id
  }

  /** Added, and not removed after that. */
  ghost predicate Alive(ops: seq<Op>, r: Registration) {
    exists i :: 0 <= i < |ops| && ops[i] == Plus(r) && forall j :: i < j < |ops| ==> ops[j] != Minus(r)
  }

  lemma UniqueFront(ops: seq<Op>)
    requires ops != [] && Unique(multiset(ops))
    ensures Unique(multiset(ops[..|ops| - 1])) && ops[|ops| - 1] !in ops[..|ops| - 1]
    ensures forall o :: o in ops[..|ops| - 1] && o.reg.id == ops[|ops| - 1].reg.id ==> o.reg == ops[|ops| - 1].reg
  {
    var front, last := ops[..|ops| - 1], ops[|ops| - 1];
    assert ops == front + [last];
    assert multiset(ops) == multiset(front) + multiset{last};
    UniquePart(multiset(front), last);
    assert forall o :: o in front ==> o in multiset(front);
  }

  lemma UniquePart(m: multiset<Op>, x: Op)
    requires Unique(m + multiset{x})
    ensures Unique(m) && x !in m
    ensures forall o :: o in m && o.reg.id == x.reg.id ==> o.reg == x.reg
  {
    var all := m + multiset{x};
    assert forall o :: o in m ==> o in all && m[o] <= all[o];
    assert x in all;
  }

  lemma AliveExtend(ops: seq<Op>, op: Op, r: Registration)
    ensures Alive(ops + [op], r) <==> op == Plus(r) || (Alive(ops, r) && op != Minus(r))
  {
    var more := ops + [op];
    assert more[|ops|] == op;
    assert forall i :: 0 <= i < |ops| ==> more[i] == ops[i];
    if Alive(ops, r) && op != Minus(r) {
      var i :| 0 <= i < |ops| && ops[i] == Plus(r) && forall j :: i < j < |ops| ==> ops[j] != Minus(r);
      assert more[i] == Plus(r);
    }
  }

  lemma AliveIsAdded(ops: seq<Op>, r: Registration)
    requires Alive(ops, r)
    ensures Plus(r) in ops
  {
  }

  lemma DropMembers(l: seq<Registration>, k: nat, r: Registration)
    requires k < |l| && IdsDistinct(l)
    ensures IdsDistinct(Drop(l, k))
    ensures r in Drop(l, k) <==> r in l && r != l[k]
  {
    var d := Drop(l, k);
    assert forall i :: 0 <= i < |d| ==> d[i] == l[if i < k then i else i + 1];
    if r in l && r != l[k] {
      var i :| 0 <= i < |l| && l[i] == r;
      assert d[if i < k then i else i - 1] == r;
    }
  }

  ghost predicate SurvivorsAre(c: Catalogue, ops: seq<Op>, name: string) {
    && IdsDistinct(Listed(c, name))
    && forall r :: r in Listed(c, name) <==> r.name == name && Alive(ops, r)
  }

  lemma SurvivorsStep(c: Catalogue, front: seq<Op>, op: Op, name: string)
    requires SurvivorsAre(c, front, name) && op !in front
    requires forall o :: o in front && o.reg.id == op.reg.id ==> o.reg == op.reg
    ensures SurvivorsAre(Apply(c, op), front + [op], name)
  {
    var l, l', x := Listed(c, name), Listed(Apply(c, op), name), op.reg;
    forall r | r in l ensures r.id == x.id ==> r == x { AliveIsAdded(front, r); }
    if x.name != name {
      assert l' == l;
    } else if op.Plus? {
      assert l' == l + [x];
      assert x !in l by { if x in l { AliveIsAdded(front, x); } }
    } else if IndexOfId(l, x.id) < |l| {
      var k := IndexOfId(l, x.id);
      assert l[k] == x;
      forall r ensures r in l' <==> r in l && r != x { DropMembers(l, k, r); }
    }
    forall r ensures r in l' <==> r.name == name && Alive(front + [op], r) {
      AliveExtend(front, op, r);
    }
  }

  /** A provider is in the cache exactly if it was added and not removed afterwards, and then once. */
  lemma {:induction false} Survivors(ops: seq<Op>, name: string)
    requires Unique(multiset(ops))
    ensures SurvivorsAre(ApplyAll(map[], ops), ops, name)
  {
    if ops != [] {
      var front, last := ops[..|ops| - 1], ops[|ops| - 1];
      UniqueFront(ops);
      Survivors(front, name);
      SurvivorsStep(ApplyAll(map[], front), front, last, name);
      assert ops == front + [last];
    }
  }
}
