/**
Plan renewal and plan eviction (web/controllers/PlanMonitor.go), with the admission test of Connect.
*/
module Plans {
  import opened Sessions

  const UNLIMITED: int := -1

  datatype User = User(uuid: string, planEnd: int, renewCycle: int, nextRenew: int, used: int, limit: int)

  predicate DueForRenewal(u: User, now: int) {
    u.nextRenew < now && u.planEnd >= now
  }

  function Renewed(u: User, now: int): User {
    if DueForRenewal(u, now) then u.(used := 0, nextRenew := u.nextRenew + u.renewCycle) else u
  }

  predicate Evicted(u: User, now: int) {
    u.planEnd < now || u.used >= u.limit
  }

  /** Connect lets the user in. */
  predicate Admits(u: User, now: int) {
    u.planEnd >= now && (u.used < u.limit || u.limit == UNLIMITED)
  }

  function RenewedAll(users: seq<User>, now: int): (r: seq<User>)
    ensures |r| == |users| && forall i :: 0 <= i < |users| ==> r[i] == Renewed(users[i], now)
  {
    seq(|users|, i requires 0 <= i < |users| => Renewed(users[i], now))
  }

  ghost predicate EvictedUser(users: seq<User>, now: int, uuid: string) {
    exists i :: 0 <= i < |users| && users[i].uuid == uuid && Evicted(users[i], now)
  }

  /** Where a database error ends the tick, and with it the monitor: in a query, or saving the n-th renewed user. */
  datatype Fault = NoFault | FirstQueryFails | SaveFails(at: nat) | SecondQueryFails

  function DueCount(users: seq<User>, now: int): nat {
    if users == [] then 0
    else DueCount(users[..|users| - 1], now) + if DueForRenewal(users[|users| - 1], now) then 1 else 0
  }

  /** How many users the save loop gets through. */
  ghost predicate SavedUpTo(users: seq<User>, now: int, fault: Fault, k: nat) {
    match fault
    case FirstQueryFails => k == 0
    case SaveFails(at) =>
      k <= |users| && DueCount(users[..k], now) <= at
      && (k < |users| ==> DueCount(users[..k], now) == at && DueForRenewal(users[k], now))
    case _ => k == |users|
  }

  function RenewedUpTo(users: seq<User>, now: int, k: nat): seq<User>
    requires k <= |users|
  {
    RenewedAll(users[..k], now) + users[k..]
  }

  lemma RenewOneMore(users: seq<User>, now: int, i: nat)
    requires i < |users|
    ensures RenewedUpTo(users, now, i)[i] == users[i]
    ensures RenewedUpTo(users, now, i + 1) == RenewedUpTo(users, now, i)[i := Renewed(users[i], now)]
    ensures !DueForRenewal(users[i], now) ==> RenewedUpTo(users, now, i + 1) == RenewedUpTo(users, now, i)
    ensures DueCount(users[..i + 1], now) == DueCount(users[..i], now) + if DueForRenewal(users[i], now) then 1 else 0
  {
    assert users[..i + 1][..i] == users[..i];
  }

  /** The save loop after `i` users, `saved` of them renewed. */
  ghost predicate Renewing(was: seq<User>, now: int, fault: Fault, i: nat, saved: nat, users: seq<User>) {
    && i <= |was| && users == RenewedUpTo(was, now, i)
    && saved == DueCount(was[..i], now) && (fault.SaveFails? ==> saved <= fault.at)
  }

  lemma RenewingStep(was: seq<User>, now: int, fault: Fault, i: nat, saved: nat, users: seq<User>)
    requires Renewing(was, now, fault, i, saved, users) && i < |was|
    ensures i < |users| && users[i] == was[i]
    ensures !DueForRenewal(was[i], now) ==> Renewing(was, now, fault, i + 1, saved, users)
    ensures DueForRenewal(was[i], now) ==>
              if fault == SaveFails(saved) then SavedUpTo(was, now, fault, i)
              else Renewing(was, now, fault, i + 1, saved + 1, users[i := Renewed(was[i], now)])
  {
    RenewOneMore(was, now, i);
  }

  /** Unlike the heartbeat monitor's, the URL has no path. */
  function EvictUrl(ip: string, port: string): string {
    "http://" + ip + ":" + port
  }

  /** How many of the connections are at the node behind `url`. */
  function ConnectionsAt(l: seq<Conn>, port: string, url: string): nat {
    if l == [] then 0
    else ConnectionsAt(l[..|l| - 1], port, url) + if EvictUrl(l[|l| - 1].nodeIP, port) == url then 1 else 0
  }

  /** A record of the user with the plan over or the traffic used up. */
  ghost predicate OverPlan(users: seq<User>, now: int, uuid: string) {
    exists i :: 0 <= i < |users| && users[i].uuid == uuid && (users[i].planEnd < now || users[i].used >= users[i].limit)
  }

  /** The first `k` users with a renewal date passed and a plan still running. */
  ghost function DuePositions(users: seq<User>, now: int, k: nat): set<int>
    requires k <= |users|
  {
    set i | 0 <= i < k && users[i].nextRenew < now && users[i].planEnd >= now
  }

  lemma {:induction false} DueCounts(users: seq<User>, now: int, k: nat)
    requires k <= |users|
    ensures DueCount(users[..k], now) == |DuePositions(users, now, k)|
  {
    if k > 0 {
      DueCounts(users, now, k - 1);
      assert users[..k][..k - 1] == users[..k - 1];
      OneDueMore(users, now, k - 1);
      assert users[..k][k - 1] == users[k - 1];
    }
  }

  lemma OneDueMore(users: seq<User>, now: int, k: nat)
    requires k < |users|
    ensures DuePositions(users, now, k + 1) == DuePositions(users, now, k)
              + if users[k].nextRenew < now && users[k].planEnd >= now then {k} else {}
  {
  }

  /** What the tick has done to the users: the first `k` gone through, the due ones renewed, unless a save failed. */
  ghost predicate RenewedExactly(was: seq<User>, users: seq<User>, now: int, fault: Fault, k: nat) {
    && |users| == |was| && k <= |was|
    && (forall i :: 0 <= i < |was| ==>
          users[i] == if i < k && was[i].nextRenew < now && was[i].planEnd >= now
                      then was[i].(used := 0, nextRenew := was[i].nextRenew + was[i].renewCycle) else was[i])
    && (fault.SaveFails? && k < |was| ==> |DuePositions(was, now, k)| == fault.at)
  }

  /** What the tick has done to the sessions: the users over their plan are gone, and filed once per connection. */
  ghost predicate EvictedExactly(was: SessionMap, m: SessionMap, users: seq<User>, now: int, port: string, b: Batches) {
    && (forall u :: u in m <==> u in was && !OverPlan(users, now, u))
    && (forall u :: u in m ==> m[u] == was[u])
    && (forall url, u ::
          Tally(b, url, u) == if OverPlan(users, now, u) then |PositionsAt(Of(was, u), port, url)| else 0)
  }

  lemma RenewalIsExact(was: seq<User>, users: seq<User>, now: int, fault: Fault, k: nat)
    requires k <= |was| && SavedUpTo(was, now, fault, k) && users == RenewedUpTo(was, now, k)
    ensures RenewedExactly(was, users, now, fault, k)
  {
    DueCounts(was, now, k);
  }

  lemma EvictionIsExact(was: SessionMap, m: SessionMap, users: seq<User>, now: int, port: string, b: Batches)
    requires KeepsOthers(was, users, now, m) && FiledExactly(was, users, now, port, b)
    ensures EvictedExactly(was, m, users, now, port, b)
  {
    forall u ensures OverPlan(users, now, u) <==> EvictedUser(users, now, u) {
      if i :| 0 <= i < |users| && users[i].uuid == u && Evicted(users[i], now) { }
    }
    forall url, u { ConnectionPositions(Of(was, u), port, url); }
  }

  class PlanMonitor {
    var users: seq<User>
    const controller: Controller

    constructor (users: seq<User>, controller: Controller)
      ensures this.users == users && this.controller == controller
    {
      this.users, this.controller := users, controller;
    }

    /** First phase; `k` users have been gone through when it ends. */
    method Renew(now: int, fault: Fault) returns (stopped: bool, ghost k: nat)
      modifies this
      ensures k <= |old(users)| && SavedUpTo(old(users), now, fault, k) && users == RenewedUpTo(old(users), now, k)
      ensures stopped <==> fault.FirstQueryFails? || k < |old(users)|
    {
      if fault.FirstQueryFails? {
        return true, 0;
      }
      ghost var was := users;
      var saved := 0;
      for i := 0 to |users|
        invariant |users| == |was| && Renewing(was, now, fault, i, saved, users)
      {
        RenewingStep(was, now, fault, i, saved, users);
        if users[i].nextRenew < now && users[i].planEnd >= now {
          if fault == SaveFails(saved) {
            return true, i;
          }
          users := users[i := users[i].(used := 0, nextRenew := users[i].nextRenew + users[i].renewCycle)];
          saved := saved + 1;
        }
      }
      assert was[..|was|] == was;
      return false, |users|;
    }

    /** One evicted user's connections, filed by node. */
    method FileUser(user: string, l: seq<Conn>, port: string, batches: Batches) returns (b: Batches)
      ensures forall url, v ::
                Tally(b, url, v) == Tally(batches, url, v) + if v == user then ConnectionsAt(l, port, url) else 0
    {
      b := batches;
      assert forall url :: ConnectionsAt(l[..0], port, url) == 0;
      for i := 0 to |l|
        invariant forall url, v ::
            Tally(b, url, v) == Tally(batches, url, v) + if v == user then ConnectionsAt(l[..i], port, url) else 0
      {
        assert l[..i + 1][..i] == l[..i];
        var url := EvictUrl(l[i].nodeIP, port);
        forall at, v
          ensures Tally(b[url := Batch(b, url) + [user]], at, v) == Tally(b, at, v)
                  + if at == url && v == user then 1 else 0
        {
          TallyAppend(b, url, user, at, v);
        }
        b := b[url := Batch(b, url) + [user]];
      }
      assert l[..|l|] == l;
    }

    /** Second phase: the sessions of exactly the users over their plan go, into the batches of their nodes. */
    method EvictAll(now: int, port: string) returns (batches: Batches)
      modifies controller
      ensures KeepsOthers(old(controller.sessions), users, now, controller.sessions)
      ensures FiledExactly(old(controller.sessions), users, now, port, batches)
    {
      ghost var was := controller.sessions;
      batches := map[];
      for i := 0 to |users|
        invariant KeepsOthers(was, users[..i], now, controller.sessions)
        invariant FiledExactly(was, users[..i], now, port, batches)
      {
        EvictedOneMore(users, i, now);
        if Evicted(users[i], now) {
          var uuid := users[i].uuid;
          if uuid in controller.sessions {
            var connections := controller.sessions[uuid];
            controller.sessions := controller.sessions - {uuid};
            batches := FileUser(uuid, connections, port, batches);
          }
        }
      }
      assert users[..|users|] == users;
    }

    /**
    One tick. A database error stops it, and the monitor for good, with the renewals saved so far and
    every session untouched.
    */
    method Tick(now: int, port: string, fault: Fault) returns (stopped: bool, batches: Batches, ghost k: nat)
      modifies this, controller
      ensures k <= |old(users)| && SavedUpTo(old(users), now, fault, k) && users == RenewedUpTo(old(users), now, k)
      ensures stopped <==> fault.FirstQueryFails? || fault.SecondQueryFails? || k < |old(users)|
      ensures stopped ==> controller.sessions == old(controller.sessions) && batches == map[]
      ensures !stopped ==>
                && users == RenewedAll(old(users), now)
                && KeepsOthers(old(controller.sessions), users, now, controller.sessions)
                && FiledExactly(old(controller.sessions), users, now, port, batches)
      ensures RenewedExactly(old(users), users, now, fault, k)
      ensures !stopped ==> EvictedExactly(old(controller.sessions), controller.sessions, users, now, port, batches)
    {
      batches := map[];
      stopped, k := Renew(now, fault);
      RenewalIsExact(old(users), users, now, fault, k);
      if stopped || fault.SecondQueryFails? {
        stopped := true;
        return;
      }
      assert old(users)[..k] == old(users);
      batches := EvictAll(now, port);
      EvictionIsExact(old(controller.sessions), controller.sessions, users, now, port, batches);
    }
  }

  /** Exactly the evicted users' sessions are gone. */
  ghost predicate KeepsOthers(was: SessionMap, users: seq<User>, now: int, m: SessionMap) {
    && (forall uuid :: uuid in m <==> uuid in was && !EvictedUser(users, now, uuid))
    && (forall uuid :: uuid in m ==> m[uuid] == was[uuid])
  }

  /** Every evicted user is in a node's batch once for each connection there, and nobody else is. */
  ghost predicate FiledExactly(was: SessionMap, users: seq<User>, now: int, port: string, b: Batches) {
    forall url, v :: Tally(b, url, v) == if EvictedUser(users, now, v) then ConnectionsAt(Of(was, v), port, url) else 0
  }

  /** The positions of the connections at the node. */
  ghost function PositionsAt(l: seq<Conn>, port: string, url: string): set<int> {
    set i | 0 <= i < |l| && "http://" + l[i].nodeIP + ":" + port == url
  }

  /** The running count is the number of these positions. */
  lemma {:induction false} ConnectionPositions(l: seq<Conn>, port: string, url: string)
    ensures ConnectionsAt(l, port, url) == |PositionsAt(l, port, url)|
  {
    if l != [] {
      var front, c, k := l[..|l| - 1], l[|l| - 1], |l| - 1;
      ConnectionPositions(front, port, url);
      assert PositionsAt(l, port, url) ==
             PositionsAt(front, port, url) + if "http://" + c.nodeIP + ":" + port == url then {k} else {};
    }
  }

  lemma {:induction false} ConnectionsAtNodes(l: seq<Conn>, port: string, url: string)
    ensures ConnectionsAt(l, port, url) > 0 ==> exists c :: c in l && url == EvictUrl(c.nodeIP, port)
  {
    if l != [] {
      ConnectionsAtNodes(l[..|l| - 1], port, url);
      assert l == l[..|l| - 1] + [l[|l| - 1]];
    }
  }

  lemma UrlsDiffer(ip: string, other: string, port: string)
    requires forall i :: 0 <= i < |port| ==> '0' <= port[i] <= '9'
    ensures EvictUrl(other, port) != DisconnectUrl(ip, port)
  {
    var taken, sent := DisconnectUrl(ip, port), EvictUrl(other, port);
    assert taken[|taken| - 1] == 't';
    assert sent[|sent| - 1] == if port == "" then ':' else port[|port| - 1];
  }

  /** No batch goes to a URL at which a node takes disconnects: evicted users are never cut off at the node. */
  lemma EvictionMissesTheNode(was: SessionMap, users: seq<User>, now: int, port: string, b: Batches, ip: string,
                              v: string)
    requires FiledExactly(was, users, now, port, b) && forall i :: 0 <= i < |port| ==> '0' <= port[i] <= '9'
    ensures Tally(b, DisconnectUrl(ip, port), v) == 0
  {
    ConnectionsAtNodes(Of(was, v), port, DisconnectUrl(ip, port));
    forall other ensures EvictUrl(other, port) != DisconnectUrl(ip, port) { UrlsDiffer(ip, other, port); }
  }

  lemma EvictedOneMore(users: seq<User>, i: nat, now: int)
    requires i < |users|
    ensures forall uuid :: EvictedUser(users[..i + 1], now, uuid) <==>
              EvictedUser(users[..i], now, uuid) || (users[i].uuid == uuid && Evicted(users[i], now))
  {
    forall uuid ensures EvictedUser(users[..i + 1], now, uuid) <==>
                        EvictedUser(users[..i], now, uuid) || (users[i].uuid == uuid && Evicted(users[i], now)) {
      var more := users[..i + 1];
      assert more[i] == users[i];
      if EvictedUser(users[..i], now, uuid) {
        var j :| 0 <= j < i && users[..i][j].uuid == uuid && Evicted(users[..i][j], now);
        assert more[j] == users[j];
      }
    }
  }

  // ----- Eviction against admission -----

  /** A user renewed in a tick is evicted by the same tick exactly if the plan allows no traffic at all. */
  lemma RenewedIsNotEvicted(u: User, now: int)
    requires DueForRenewal(u, now)
    ensures Evicted(Renewed(u, now), now) <==> u.limit <= 0
  {
  }

  /**
  Eviction and admission agree on every user except those with an unlimited plan: the monitor
  compares their usage with the marker itself and evicts whom Connect admits.
  */
  lemma EvictionMatchesAdmission(u: User, now: int)
    ensures (Evicted(u, now) <==> !Admits(u, now)) <==>
            !(u.limit == UNLIMITED && u.planEnd >= now && u.used >= UNLIMITED)
  {
  }

  /** An unlimited user with a running plan, let in and thrown out at the same time. */
  lemma UnlimitedIsEvicted(uuid: string)
    ensures var u := User(uuid, 20, 10, 20, 0, UNLIMITED); Admits(u, 5) && Evicted(u, 5) && !DueForRenewal(u, 5)
  {
  }

  // ----- Renewal over a run of ticks -----

  function AfterTicks(u: User, ticks: seq<int>): User {
    if ticks == [] then u else Renewed(AfterTicks(u, ticks[..|ticks| - 1]), ticks[|ticks| - 1])
  }

  function Resets(u: User, ticks: seq<int>): nat {
    if ticks == [] then 0
    else Resets(u, ticks[..|ticks| - 1])
         + if DueForRenewal(AfterTicks(u, ticks[..|ticks| - 1]), ticks[|ticks| - 1]) then 1 else 0
  }

  /** The renewal date never drifts: it is the initial one plus a whole number of cycles, one per reset. */
  lemma {:induction false} RenewalHasNoDrift(u: User, ticks: seq<int>)
    ensures AfterTicks(u, ticks).nextRenew == u.nextRenew + Resets(u, ticks) * u.renewCycle
    ensures AfterTicks(u, ticks).renewCycle == u.renewCycle && AfterTicks(u, ticks).planEnd == u.planEnd
    ensures AfterTicks(u, ticks).limit == u.limit && AfterTicks(u, ticks).uuid == u.uuid
  {
    if ticks != [] {
      var front := ticks[..|ticks| - 1];
      RenewalHasNoDrift(u, front);
      var n := Resets(u, front);
      assert (n + 1) * u.renewCycle == n * u.renewCycle + u.renewCycle;
    }
  }

  ghost function Latest(start: int, ticks: seq<int>): int {
    if ticks == [] then start else ticks[|ticks| - 1]
  }

  /** Ticks in order, within the plan, each less than a cycle after the one before, from `start` on. */
  ghost predicate Regular(u: User, start: int, ticks: seq<int>) {
    && u.renewCycle > 0
    && (ticks != [] ==>
          var front, t := ticks[..|ticks| - 1], ticks[|ticks| - 1];
          Regular(u, start, front) && Latest(start, front) <= t < Latest(start, front) + u.renewCycle && t <= u.planEnd)
  }

  lemma {:induction false} StaysCaughtUp(u: User, start: int, ticks: seq<int>)
    requires Regular(u, start, ticks) && start <= u.nextRenew
    ensures var v, t := AfterTicks(u, ticks), Latest(start, ticks);
            t <= v.nextRenew && (Resets(u, ticks) > 0 ==> v.nextRenew - u.renewCycle < t)
  {
    if ticks != [] {
      var front := ticks[..|ticks| - 1];
      StaysCaughtUp(u, start, front);
      RenewalHasNoDrift(u, front);
    }
  }

  /** Ticks at most `gap` apart. */
  ghost predicate Within(gap: int, start: int, ticks: seq<int>) {
    ticks != [] ==>
      Within(gap, start, ticks[..|ticks| - 1]) && ticks[|ticks| - 1] <= Latest(start, ticks[..|ticks| - 1]) + gap
  }

  /** How far the renewal date lies behind the latest tick; not positive when caught up. */
  ghost function Lag(u: User, start: int, ticks: seq<int>): int {
    Latest(start, ticks) - AfterTicks(u, ticks).nextRenew
  }

  /** A lag shrinks by the cycle less the gap with every tick until it is gone, and then stays gone. */
  lemma {:induction false} LagShrinks(u: User, start: int, gap: int, ticks: seq<int>)
    requires Regular(u, start, ticks) && Within(gap, start, ticks) && gap < u.renewCycle
    ensures Lag(u, start, ticks) <= 0 || Lag(u, start, ticks) <= Lag(u, start, []) - |ticks| * (u.renewCycle - gap)
  {
    if ticks != [] {
      var front := ticks[..|ticks| - 1];
      LagShrinks(u, start, gap, front);
      RenewalHasNoDrift(u, front);
      var n, pace := |front|, u.renewCycle - gap;
      assert (n + 1) * pace == n * pace + pace;
    }
  }

  /** However far behind, renewal has caught up after enough ticks. */
  lemma RenewalCatchesUp(u: User, start: int, gap: int, ticks: seq<int>)
    requires Regular(u, start, ticks) && Within(gap, start, ticks) && gap < u.renewCycle
    requires |ticks| * (u.renewCycle - gap) >= start - u.nextRenew
    ensures Latest(start, ticks) <= AfterTicks(u, ticks).nextRenew
  {
    LagShrinks(u, start, gap, ticks);
  }

  /**
  Once caught up there is exactly one reset per cycle boundary passed: the number of resets is the
  least n for which the n-th renewal date has not passed.
  */
  lemma OneResetPerBoundary(u: User, start: int, ticks: seq<int>)
    requires Regular(u, start, ticks) && start <= u.nextRenew
    ensures var n, t := Resets(u, ticks), Latest(start, ticks);
            t <= u.nextRenew + n * u.renewCycle && forall k :: 0 <= k < n ==> u.nextRenew + k * u.renewCycle < t
  {
    StaysCaughtUp(u, start, ticks);
    RenewalHasNoDrift(u, ticks);
    var n, t := Resets(u, ticks), Latest(start, ticks);
    forall k | 0 <= k < n ensures u.nextRenew + k * u.renewCycle < t {
      CyclesBefore(k, n, u.renewCycle);
    }
  }

  lemma {:induction false} CyclesBefore(k: nat, n: nat, cycle: int)
    requires k < n && cycle > 0
    ensures k * cycle <= n * cycle - cycle
    decreases n
  {
    assert (n - 1) * cycle == n * cycle - cycle;
    if k < n - 1 {
      CyclesBefore(k, n - 1, cycle);
    }
  }
}
