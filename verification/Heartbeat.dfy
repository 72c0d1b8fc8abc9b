/**
Registration, heartbeats and the two-snapshot expiry sweep as interleaved steps
(registry/server.go, registry/heartbeat/server.go). A registration first writes its heartbeat
entry and is added later; a heartbeat first checks that the service is registered and writes later;
the sweep copies the registrations first and the heartbeat entries later.
*/
module Heartbeat {
  import opened Registry
  import P = Propagation

  datatype Sweep =
    | Idle
    | RegsTaken(regs: Catalogue)
    | BothTaken(regs: Catalogue, beats: map<string, int>)

  /** `joinedAt` remembers when each service id was generated; it only serves the statements below. */
  datatype World = World(
    server: State, lastBeat: map<string, int>, stamped: set<Registration>, checked: set<string>,
    sweep: Sweep, clock: int, joinedAt: map<string, int>)

  datatype Step =
    | Stamp(reg: Registration, now: int)
    | Enrol(reg: Registration)
    | Deregister(name: string, url: string)
    | Check(id: string)
    | Beat(id: string, now: int)
    | TakeRegs
    | TakeBeats
    | Expel(name: string, reg: Registration, now: int)

  ghost predicate Registered(m: Catalogue, r: Registration) {
    exists name :: name in m && r in m[name]
  }

  ghost predicate IsRegistered(m: Catalogue, id: string) {
    exists r :: Registered(m, r) && r.id == id
  }

  /** The sweep has both snapshots and finds this registration stale in them. */
  ghost predicate Condemned(sweep: Sweep, name: string, r: Registration, now: int) {
    sweep.BothTaken? && r in Listed(sweep.regs, name) && Stale(sweep.beats, now, r)
  }

  /** What must hold for a step to happen; generated ids are new and time does not run backwards. */
  ghost predicate Enabled(w: World, step: Step) {
    match step
    case Stamp(r, now) => r.id !in w.lastBeat && w.clock <= now
    case Enrol(r) => r in w.stamped
    case Deregister(_, _) => true
    case Check(id) => IsRegistered(w.server.regs, id)
    case Beat(id, now) => id in w.checked && w.clock <= now
    case TakeRegs => true
    case TakeBeats => w.sweep.RegsTaken?
    case Expel(name, r, now) => Condemned(w.sweep, name, r, now) && w.clock <= now
  }

  function Next(w: World, step: Step): World {
    match step
    case Stamp(r, now) =>
      w.(lastBeat := w.lastBeat[r.id := now], stamped := w.stamped + {r},
         clock := now, joinedAt := w.joinedAt[r.id := now])
    case Enrol(r) => w.(server := Added(w.server, r), stamped := w.stamped - {r})
    case Deregister(name, url) => w.(server := Removed(w.server, name, url))
    case Check(id) => w.(checked := w.checked + {id})
    case Beat(id, now) => w.(lastBeat := w.lastBeat[id := now], checked := w.checked - {id}, clock := now)
    case TakeRegs => w.(sweep := RegsTaken(w.server.regs))
    case TakeBeats => if w.sweep.RegsTaken? then w.(sweep := BothTaken(w.sweep.regs, w.lastBeat)) else w
    case Expel(name, r, now) => w.(server := Removed(w.server, name, r.url), clock := now)
  }

  function Start(): World {
    World(State(map[], []), map[], {}, {}, Idle, 0, map[])
  }

  function From(w: World, steps: seq<Step>): World {
    if steps == [] then w else Next(From(w, steps[..|steps| - 1]), steps[|steps| - 1])
  }

  function Run(steps: seq<Step>): World {
    From(Start(), steps)
  }

  ghost predicate PossibleFrom(w: World, steps: seq<Step>) {
    steps != [] ==> PossibleFrom(w, steps[..|steps| - 1]) && Enabled(From(w, steps[..|steps| - 1]), steps[|steps| - 1])
  }

  ghost predicate Possible(steps: seq<Step>) {
    PossibleFrom(Start(), steps)
  }

  lemma OneMore(w: World, steps: seq<Step>, step: Step)
    ensures From(w, steps + [step]) == Next(From(w, steps), step)
    ensures PossibleFrom(w, steps + [step]) <==> PossibleFrom(w, steps) && Enabled(From(w, steps), step)
  {
    assert (steps + [step])[..|steps|] == steps;
  }

  /** What a step is to the registry alone. */
  function RegistryStep(step: Step): seq<P.Step> {
    match step
    case Enrol(r) => [P.AddStep(r)]
    case Deregister(name, url) => [P.RemoveStep(name, url)]
    case Expel(name, r, _) => [P.RemoveStep(name, r.url)]
    case _ => []
  }

  function RegistrySteps(steps: seq<Step>): seq<P.Step> {
    if steps == [] then [] else RegistrySteps(steps[..|steps| - 1]) + RegistryStep(steps[|steps| - 1])
  }

  lemma RegistryNext(front: seq<P.Step>, w: World, step: Step)
    requires w.server == P.Run(front)
    ensures Next(w, step).server == P.Run(front + RegistryStep(step))
  {
    if RegistryStep(step) == [] {
      assert front + [] == front;
    } else {
      assert (front + RegistryStep(step))[..|front|] == front;
    }
  }

  /** The registry goes through one of the runs for which subscribers are shown to follow it. */
  lemma {:induction false} ServerIsRegistryRun(steps: seq<Step>)
    ensures Run(steps).server == P.Run(RegistrySteps(steps))
  {
    if steps != [] {
      ServerIsRegistryRun(steps[..|steps| - 1]);
      RegistryNext(RegistrySteps(steps[..|steps| - 1]), Run(steps[..|steps| - 1]), steps[|steps| - 1]);
    }
  }

  lemma RemovedMembers(s: State, name: string, url: string, r: Registration)
    requires Registered(Removed(s, name, url).regs, r)
    ensures Registered(s.regs, r)
  {
    var m := Removed(s, name, url).regs;
    var n :| n in m && r in m[n];
    var l := Listed(s.regs, name);
    assert r in Listed(s.regs, n);
  }

  lemma AddedMembers(s: State, new_: Registration, r: Registration)
    requires Registered(Added(s, new_).regs, r)
    ensures r == new_ || Registered(s.regs, r)
  {
    var s1, m := Removed(s, new_.name, new_.url), Added(s, new_).regs;
    var n :| n in m && r in m[n];
    if r != new_ {
      assert r in Listed(s1.regs, n);
      RemovedMembers(s, new_.name, new_.url, r);
    }
  }

  /** The entry was written when the id was generated, and only moves forward. */
  ghost predicate HasBeat(beats: map<string, int>, joinedAt: map<string, int>, id: string) {
    id in beats && id in joinedAt && joinedAt[id] <= beats[id]
  }

  ghost predicate Covered(w: World) {
    && (forall id :: id in w.lastBeat ==> HasBeat(w.lastBeat, w.joinedAt, id) && w.lastBeat[id] <= w.clock)
    && (forall id :: id in w.joinedAt ==> id in w.lastBeat)
    && (forall r :: r in w.stamped ==> r.id in w.lastBeat)
    && (forall r :: Registered(w.server.regs, r) ==> r.id in w.lastBeat)
    && (forall id :: id in w.checked ==> id in w.lastBeat)
  }

  ghost predicate SnapshotCovered(w: World) {
    match w.sweep
    case Idle => true
    case RegsTaken(regs) => forall r :: Registered(regs, r) ==> r.id in w.lastBeat
    case BothTaken(regs, beats) => forall r :: Registered(regs, r) ==> HasBeat(beats, w.joinedAt, r.id)
  }

  lemma StepCovers(w: World, step: Step)
    requires Covered(w) && Enabled(w, step)
    ensures Covered(Next(w, step))
  {
    match step
    case Enrol(r) =>
      forall x | Registered(Added(w.server, r).regs, x) ensures x.id in w.lastBeat { AddedMembers(w.server, r, x); }
    case Deregister(name, url) =>
      forall x | Registered(Removed(w.server, name, url).regs, x) ensures x.id in w.lastBeat {
        RemovedMembers(w.server, name, url, x);
      }
    case Expel(name, r, now) =>
      forall x | Registered(Removed(w.server, name, r.url).regs, x) ensures x.id in w.lastBeat {
        RemovedMembers(w.server, name, r.url, x);
      }
    case _ =>
  }

  lemma StepCoversSnapshot(w: World, step: Step)
    requires Covered(w) && SnapshotCovered(w) && Enabled(w, step)
    ensures SnapshotCovered(Next(w, step))
  {
    if w.sweep.BothTaken? && step.Stamp? {
      forall r | Registered(w.sweep.regs, r) ensures r.id != step.reg.id {
        assert HasBeat(w.sweep.beats, w.joinedAt, r.id);
      }
    }
  }

  lemma {:induction false} RunsCover(steps: seq<Step>)
    requires Possible(steps)
    ensures Covered(Run(steps)) && SnapshotCovered(Run(steps))
  {
    if steps != [] {
      RunsCover(steps[..|steps| - 1]);
      StepCovers(Run(steps[..|steps| - 1]), steps[|steps| - 1]);
      StepCoversSnapshot(Run(steps[..|steps| - 1]), steps[|steps| - 1]);
    }
  }

  /**
  In every interleaving, each registration the sweep looks at has a heartbeat entry in the later
  snapshot, so it is judged by a real heartbeat, and never within 20 seconds of its registration.
  */
  lemma SweepJudgesByHeartbeat(steps: seq<Step>, r: Registration, now: int)
    requires Possible(steps) && Run(steps).sweep.BothTaken? && Registered(Run(steps).sweep.regs, r)
    ensures var w := Run(steps);
            && r.id in w.sweep.beats && r.id in w.joinedAt
            && (Stale(w.sweep.beats, now, r) <==> now - w.sweep.beats[r.id] > EXPIRY)
            && (Stale(w.sweep.beats, now, r) ==> now - w.joinedAt[r.id] > EXPIRY)
  {
    RunsCover(steps);
    assert HasBeat(Run(steps).sweep.beats, Run(steps).joinedAt, r.id);
  }

  // ----- The sweep removes by URL -----

  /** Nobody deregisters this name and URL or registers it again, and no new sweep begins. */
  ghost predicate Undisturbed(steps: seq<Step>, name: string, url: string) {
    forall step :: step in steps ==>
      && step != Deregister(name, url)
      && !(step.Enrol? && step.reg.name == name && step.reg.url == url)
      && !step.TakeRegs? && !step.TakeBeats?
  }

  ghost predicate ExpelsUrl(steps: seq<Step>, name: string, url: string) {
    exists step :: step in steps && step.Expel? && step.name == name && step.reg.url == url
  }

  lemma StepKeepsOthers(s: State, step: Step, w: World, r: Registration)
    requires AllUrlsDistinct(w.server.regs) && s == Next(w, step).server
    requires Undisturbed([step], r.name, r.url)
    ensures AllUrlsDistinct(s.regs)
    ensures InMap(s.regs, r) <==> InMap(w.server.regs, r) && !ExpelsUrl([step], r.name, r.url)
  {
    assert step in [step];
    match step
    case Enrol(x) =>
      AddedIsDistinct(w.server, x);
      RemovedExact(w.server, x.name, x.url, r.name, r);
    case Deregister(name, url) =>
      RemovedIsDistinct(w.server, name, url);
      RemovedExact(w.server, name, url, r.name, r);
    case Expel(name, x, _) =>
      RemovedIsDistinct(w.server, name, x.url);
      RemovedExact(w.server, name, x.url, r.name, r);
    case _ =>
  }

  lemma UndisturbedSplits(front: seq<Step>, last: Step, name: string, url: string)
    ensures Undisturbed(front + [last], name, url) ==> Undisturbed(front, name, url) && Undisturbed([last], name, url)
    ensures ExpelsUrl(front + [last], name, url) <==> ExpelsUrl(front, name, url) || ExpelsUrl([last], name, url)
  {
    var all := front + [last];
    assert last in all;
    assert forall step :: step in front ==> step in all;
    assert forall step :: step in all ==> step in front || step in [last];
  }

  /**
  Over every interleaving a registration, however fresh, that nobody deregisters or replaces survives if
  and only if the sweep expels no registration of its name and URL.
  */
  lemma {:induction false} SweepExpelsByUrl(w: World, rest: seq<Step>, r: Registration)
    requires AllUrlsDistinct(w.server.regs) && InMap(w.server.regs, r) && Undisturbed(rest, r.name, r.url)
    ensures AllUrlsDistinct(From(w, rest).server.regs)
    ensures InMap(From(w, rest).server.regs, r) <==> !ExpelsUrl(rest, r.name, r.url)
  {
    if rest != [] {
      var front, last := rest[..|rest| - 1], rest[|rest| - 1];
      assert rest == front + [last];
      UndisturbedSplits(front, last, r.name, r.url);
      SweepExpelsByUrl(w, front, r);
      StepKeepsOthers(From(w, rest).server, last, From(w, front), r);
    }
  }

  lemma {:induction false} SnapshotsStay(w: World, rest: seq<Step>)
    requires forall step :: step in rest ==> !step.TakeRegs? && !step.TakeBeats?
    ensures From(w, rest).sweep == w.sweep
  {
    if rest != [] {
      assert rest == rest[..|rest| - 1] + [rest[|rest| - 1]];
      SnapshotsStay(w, rest[..|rest| - 1]);
    }
  }

  lemma {:induction false} ExpelledWereCondemned(w: World, rest: seq<Step>, step: Step)
    requires PossibleFrom(w, rest) && step in rest && step.Expel?
    requires forall other :: other in rest ==> !other.TakeRegs? && !other.TakeBeats?
    ensures Condemned(w.sweep, step.name, step.reg, step.now)
  {
    var front, last := rest[..|rest| - 1], rest[|rest| - 1];
    assert rest == front + [last];
    assert forall other :: other in front ==> other in rest;
    SnapshotsStay(w, front);
    if step != last {
      assert step in front;
      ExpelledWereCondemned(w, front, step);
    }
  }

  /** A possible continuation that loses the registration to the sweep alone, by removals made up to `until`. */
  ghost predicate LosesToSweep(w: World, rest: seq<Step>, r: Registration, until: int) {
    && PossibleFrom(w, rest) && Undisturbed(rest, r.name, r.url) && !InMap(From(w, rest).server.regs, r)
    && forall step :: step in rest && step.Expel? ==> step.now <= until
  }

  lemma LostWasCondemned(w: World, rest: seq<Step>, r: Registration, until: int) returns (x: Registration)
    requires AllUrlsDistinct(w.server.regs) && InMap(w.server.regs, r) && LosesToSweep(w, rest, r, until)
    ensures Condemned(w.sweep, r.name, x, until) && x.url == r.url
  {
    SweepExpelsByUrl(w, rest, r);
    var step :| step in rest && step.Expel? && step.name == r.name && step.reg.url == r.url;
    ExpelledWereCondemned(w, rest, step);
    x := step.reg;
  }

  lemma CondemnedCanBeLost(w: World, r: Registration, x: Registration, until: int) returns (rest: seq<Step>)
    requires AllUrlsDistinct(w.server.regs) && InMap(w.server.regs, r) && w.clock <= until
    requires Condemned(w.sweep, r.name, x, until) && x.url == r.url
    ensures LosesToSweep(w, rest, r, until)
  {
    var step := Expel(r.name, x, until);
    rest := [step];
    assert [] + [step] == rest;
    OneMore(w, [], step);
    assert step in rest;
    SweepExpelsByUrl(w, rest, r);
  }

  /**
  Removals made up to a given time can lose a registration if and only if the two snapshots hold one of
  its name and URL whose copied heartbeat is stale at that time. How recent the registration itself and
  its own heartbeats are plays no part.
  */
  lemma LostExactlyIfUrlCondemned(w: World, r: Registration, until: int)
    requires AllUrlsDistinct(w.server.regs) && InMap(w.server.regs, r) && w.clock <= until
    ensures (exists rest :: LosesToSweep(w, rest, r, until))
            <==> exists x :: Condemned(w.sweep, r.name, x, until) && x.url == r.url
  {
    if rest :| LosesToSweep(w, rest, r, until) {
      var x := LostWasCondemned(w, rest, r, until);
    }
    if x :| Condemned(w.sweep, r.name, x, until) && x.url == r.url {
      var rest := CondemnedCanBeLost(w, r, x, until);
    }
  }

  /** Registered, copied by the sweep, and registered again under a new id. */
  function ReRegistration(r: Registration, renewed: Registration, t: int, now: int): seq<Step> {
    [Stamp(r, t), Enrol(r), TakeRegs, TakeBeats, Stamp(renewed, now), Enrol(renewed)]
  }

  lemma SnapshotRun(r: Registration, t: int)
    requires 0 <= t
    ensures var steps, s := [Stamp(r, t), Enrol(r), TakeRegs, TakeBeats], Added(State(map[], []), r);
            && Possible(steps)
            && Listed(s.regs, r.name) == [r]
            && Run(steps) == World(s, map[r.id := t], {}, {}, BothTaken(s.regs, map[r.id := t]), t, map[r.id := t])
  {
    var a, b, c, d := Stamp(r, t), Enrol(r), TakeRegs, TakeBeats;
    OneMore(Start(), [], a);
    OneMore(Start(), [a], b);
    OneMore(Start(), [a, b], c);
    OneMore(Start(), [a, b, c], d);
    assert [] + [a] == [a] && [a] + [b] == [a, b] && [a, b] + [c] == [a, b, c] && [a, b, c] + [d] == [a, b, c, d];
    assert {r} - {r} == {};
  }

  lemma ReRegistrationRun(r: Registration, renewed: Registration, t: int, now: int)
    requires renewed.name == r.name && renewed.url == r.url && renewed.id != r.id && 0 <= t <= now
    ensures var steps := ReRegistration(r, renewed, t, now);
            && Possible(steps)
            && Listed(Run(steps).server.regs, r.name) == [renewed]
            && Run(steps).lastBeat == map[r.id := t, renewed.id := now] && Run(steps).clock == now
            && Run(steps).sweep.BothTaken? && Listed(Run(steps).sweep.regs, r.name) == [r]
            && Run(steps).sweep.beats == map[r.id := t]
  {
    SnapshotRun(r, t);
    var steps, e, f := [Stamp(r, t), Enrol(r), TakeRegs, TakeBeats], Stamp(renewed, now), Enrol(renewed);
    OneMore(Start(), steps, e);
    OneMore(Start(), steps + [e], f);
    assert steps + [e] + [f] == ReRegistration(r, renewed, t, now);
    assert Drop([r], 0) == [] && [] + [renewed] == [renewed];
  }

  /**
  A service that re-registers between the snapshots and the removal: the run is possible, and at its end
  the new registration is gone although its heartbeat entry is as recent as can be.
  */
  lemma LateSweepHitsNewcomer(r: Registration, renewed: Registration, t: int, now: int)
    requires renewed.name == r.name && renewed.url == r.url && renewed.id != r.id && 0 <= t && now - t > EXPIRY
    ensures var steps := ReRegistration(r, renewed, t, now);
            && Possible(steps + [Expel(r.name, r, now)])
            && InMap(Run(steps).server.regs, renewed)
            && !InMap(Run(steps + [Expel(r.name, r, now)]).server.regs, renewed)
            && !Stale(Run(steps + [Expel(r.name, r, now)]).lastBeat, now, renewed)
  {
    ReRegistrationRun(r, renewed, t, now);
    OneMore(Start(), ReRegistration(r, renewed, t, now), Expel(r.name, r, now));
    assert Drop([renewed], 0) == [];
  }

  /**
  A service that never re-registers and whose heartbeats are at most 20 seconds apart: a beat that comes
  after the heartbeat copy is not seen, and the removal, more than 20 seconds after the copied one, expels it.
  */
  lemma OldBeatCopyExpels(r: Registration, t: int, beat: int, now: int)
    requires 0 <= t <= beat <= now && beat - t <= EXPIRY && now - beat <= EXPIRY && now - t > EXPIRY
    ensures var steps := [Stamp(r, t), Enrol(r), TakeRegs, TakeBeats] + [Check(r.id)] + [Beat(r.id, beat)]
                         + [Expel(r.name, r, now)];
            Possible(steps) && !InMap(Run(steps).server.regs, r) && !Stale(Run(steps).lastBeat, now, r)
  {
    SnapshotRun(r, t);
    var steps := [Stamp(r, t), Enrol(r), TakeRegs, TakeBeats];
    OneMore(Start(), steps, Check(r.id));
    OneMore(Start(), steps + [Check(r.id)], Beat(r.id, beat));
    OneMore(Start(), steps + [Check(r.id)] + [Beat(r.id, beat)], Expel(r.name, r, now));
    var m := Run(steps).server.regs;
    assert m[r.name][0] == r && Registered(m, r);
    assert Drop([r], 0) == [];
  }

  /** The heartbeat server's map, updated by the common part of every heartbeat handler. */
  class HeartBeatServer {
    var lastBeat: map<string, int>
    const validator: RegistryServer?

    constructor (validator: RegistryServer?)
      ensures this.validator == validator && lastBeat == map[]
    {
      this.validator := validator;
      lastBeat := map[];
    }

    /** The HTTP status; only a registered service's entry is written, and no other entry changes. */
    method HandleCommonLogic(id: string, now: int) returns (status: nat)
      modifies this
      ensures status in {200, 400, 401, 500}
      ensures status == 400 <==> id == ""
      ensures status == 500 <==> id != "" && validator == null
      ensures status == 200 <==> id != "" && validator != null && IsRegistered(validator.regs, id)
      ensures lastBeat == if status == 200 then old(lastBeat)[id := now] else old(lastBeat)
    {
      if id == "" {
        return 400;
      }
      if validator == null {
        return 500;
      }
      var registered := validator.IsServiceRegistered(id);
      RegisteredAt(validator.regs, id);
      if !registered {
        return 401;
      }
      lastBeat := lastBeat[id := now];
      return 200;
    }
  }

  lemma RegisteredAt(m: Catalogue, id: string)
    ensures IsRegistered(m, id) <==> exists name, i :: name in m && 0 <= i < |m[name]| && m[name][i].id == id
  {
    if name, i :| name in m && 0 <= i < |m[name]| && m[name][i].id == id {
      assert Registered(m, m[name][i]);
    }
    if r :| Registered(m, r) && r.id == id {
      var name :| name in m && r in m[name];
      var i :| 0 <= i < |m[name]| && m[name][i] == r;
      assert m[name][i].id == id;
    }
  }
}
