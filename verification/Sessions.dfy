/**
User sessions (web/controllers): the map from user to connections, updated by Connect, client
heartbeats and the monitor tick, which prunes, copies, times out and writes back.
*/
module Sessions {
  import opened Registry

  const MAX_CONNECTIONS_PER_USER: nat := 2
  const HEARTBEAT_TIMEOUT: int := 30 * SECOND

  datatype Conn = Conn(nodeIP: string, serviceID: string, nodePort: string, clientIP: string, lastBeat: int)

  type SessionMap = map<string, seq<Conn>>

  function Of(m: SessionMap, user: string): seq<Conn> {
    if user in m then m[user] else []
  }

  /** The two tests a connection has to pass in a tick. */
  datatype Test = NodeUp(regs: seq<Registration>) | BeatRecent(now: int)

  predicate Passes(t: Test, c: Conn) {
    match t
    case NodeUp(regs) => exists i :: 0 <= i < |regs| && c.serviceID == regs[i].id && c.nodeIP == regs[i].publicIP
    case BeatRecent(now) => now - c.lastBeat <= HEARTBEAT_TIMEOUT
  }

  /** A registration with this id at this address. */
  ghost predicate RegisteredAt(regs: seq<Registration>, id: string, ip: string) {
    exists reg :: reg in regs && reg.id == id && reg.publicIP == ip
  }

  /** Exactly the connections whose service id and node address are registered together. */
  ghost predicate OnlyRegistered(m: SessionMap, regs: seq<Registration>, m': SessionMap) {
    forall u, c :: c in Of(m', u) <==> c in Of(m, u) && RegisteredAt(regs, c.serviceID, c.nodeIP)
  }

  lemma OnlyRegisteredOf(m: SessionMap, regs: seq<Registration>, m': SessionMap, u: string, c: Conn)
    requires OnlyRegistered(m, regs, m')
    ensures c in Of(m', u) <==> c in Of(m, u) && RegisteredAt(regs, c.serviceID, c.nodeIP)
  {
  }

  /** Those of them with a heartbeat at most 30 seconds old. */
  ghost predicate OnlyAlive(m: SessionMap, regs: seq<Registration>, now: int, m': SessionMap) {
    forall u, c ::
      c in Of(m', u) <==>
      c in Of(m, u) && RegisteredAt(regs, c.serviceID, c.nodeIP) && now - c.lastBeat <= 30_000_000_000
  }

  /** The connections that pass, in order. */
  function Keep(t: Test, l: seq<Conn>): seq<Conn> {
    if l == [] then []
    else Keep(t, l[..|l| - 1]) + if Passes(t, l[|l| - 1]) then [l[|l| - 1]] else []
  }

  /** The connections that fail, in order. */
  function Reject(t: Test, l: seq<Conn>): seq<Conn> {
    if l == [] then []
    else Reject(t, l[..|l| - 1]) + if Passes(t, l[|l| - 1]) then [] else [l[|l| - 1]]
  }

  function Put(m: SessionMap, user: string, l: seq<Conn>): SessionMap {
    if l == [] then m - {user} else m[user := l]
  }

  // ----- The single steps -----

  /** Admission: a user at the limit loses the oldest connection. */
  function Admitted(m: SessionMap, user: string, c: Conn): SessionMap {
    var l := Of(m, user);
    m[user := (if |l| >= MAX_CONNECTIONS_PER_USER then l[1..] else l) + [c]]
  }

  /** Position of the user's first connection to the service, or the length. */
  function FirstTo(l: seq<Conn>, serviceID: string): (k: nat)
    ensures k <= |l|
    ensures k < |l| ==> l[k].serviceID == serviceID
    ensures forall i :: 0 <= i < k ==> l[i].serviceID != serviceID
  {
    if l == [] || l[0].serviceID == serviceID then 0 else 1 + FirstTo(l[1..], serviceID)
  }

  function Touched(m: SessionMap, user: string, serviceID: string, now: int): SessionMap {
    var l := Of(m, user);
    var k := FirstTo(l, serviceID);
    if k == |l| then m else m[user := l[k := l[k].(lastBeat := now)]]
  }

  function Pruned(m: SessionMap, regs: seq<Registration>): SessionMap {
    map user | user in m && Keep(NodeUp(regs), m[user]) != [] :: Keep(NodeUp(regs), m[user])
  }

  /** Overwrite a user's list with what is still alive in the (possibly old) copy. */
  function WrittenBack(m: SessionMap, user: string, copied: seq<Conn>, now: int): SessionMap {
    Put(m, user, Keep(BeatRecent(now), copied))
  }

  /** A whole tick when nothing else happens in between. */
  function Survivors(l: seq<Conn>, regs: seq<Registration>, now: int): seq<Conn> {
    Keep(BeatRecent(now), Keep(NodeUp(regs), l))
  }

  function Ticked(m: SessionMap, regs: seq<Registration>, now: int): SessionMap {
    map user | user in m && Survivors(m[user], regs, now) != [] :: Survivors(m[user], regs, now)
  }

  // ----- Conservation in a tick -----

  lemma SplitOneMore(l: seq<Conn>, front: seq<Conn>, last: Conn, kept: seq<Conn>, rejected: seq<Conn>,
                     kept': seq<Conn>, rejected': seq<Conn>)
    requires l == front + [last] && multiset(front) == multiset(kept) + multiset(rejected)
    requires (kept' == kept + [last] && rejected' == rejected) || (kept' == kept && rejected' == rejected + [last])
    ensures multiset(l) == multiset(kept') + multiset(rejected')
  {
    assert multiset(l) == multiset(front) + multiset{last};
  }

  lemma {:induction false} KeepSplits(t: Test, l: seq<Conn>)
    ensures multiset(l) == multiset(Keep(t, l)) + multiset(Reject(t, l))
  {
    if l != [] {
      var front, last := l[..|l| - 1], l[|l| - 1];
      assert l == front + [last];
      KeepSplits(t, front);
      KeepOneMore(t, l);
      SplitOneMore(l, front, last, Keep(t, front), Reject(t, front), Keep(t, l), Reject(t, l));
    }
  }

  lemma KeepOneMore(t: Test, l: seq<Conn>)
    requires l != []
    ensures var front, last := l[..|l| - 1], l[|l| - 1];
            if Passes(t, last) then Keep(t, l) == Keep(t, front) + [last] && Reject(t, l) == Reject(t, front)
            else Keep(t, l) == Keep(t, front) && Reject(t, l) == Reject(t, front) + [last]
  {
    assert Keep(t, l[..|l| - 1]) + [] == Keep(t, l[..|l| - 1]) &&
           Reject(t, l[..|l| - 1]) + [] == Reject(t, l[..|l| - 1]);
  }

  lemma {:induction false} KeepPasses(t: Test, l: seq<Conn>, c: Conn)
    ensures c in Keep(t, l) <==> c in l && Passes(t, c)
    ensures c in Reject(t, l) <==> c in l && !Passes(t, c)
  {
    if l != [] {
      KeepPasses(t, l[..|l| - 1], c);
      assert l == l[..|l| - 1] + [l[|l| - 1]];
    }
  }

  /** Every connection is exactly one of pruned, timed out, or surviving with its node up and a recent beat. */
  lemma TickConserves(l: seq<Conn>, regs: seq<Registration>, now: int)
    ensures multiset(l) == multiset(Reject(NodeUp(regs), l))
                           + multiset(Reject(BeatRecent(now), Keep(NodeUp(regs), l)))
                           + multiset(Survivors(l, regs, now))
    ensures forall c :: c in Reject(NodeUp(regs), l) ==> !Passes(NodeUp(regs), c)
    ensures forall c :: c in Reject(BeatRecent(now), Keep(NodeUp(regs), l)) ==>
              Passes(NodeUp(regs), c) && now - c.lastBeat > HEARTBEAT_TIMEOUT
    ensures forall c :: c in Survivors(l, regs, now) ==>
              Passes(NodeUp(regs), c) && now - c.lastBeat <= HEARTBEAT_TIMEOUT
  {
    var up := Keep(NodeUp(regs), l);
    KeepSplits(NodeUp(regs), l);
    KeepSplits(BeatRecent(now), up);
    forall c ensures c in Reject(NodeUp(regs), l) ==> !Passes(NodeUp(regs), c) { KeepPasses(NodeUp(regs), l, c); }
    forall c ensures c in up ==> Passes(NodeUp(regs), c) { KeepPasses(NodeUp(regs), l, c); }
    forall c ensures c in Keep(BeatRecent(now), up) ==> c in up && Passes(BeatRecent(now), c) {
      KeepPasses(BeatRecent(now), up, c);
    }
    forall c ensures c in Reject(BeatRecent(now), up) ==> c in up && !Passes(BeatRecent(now), c) {
      KeepPasses(BeatRecent(now), up, c);
    }
  }

  function DisconnectUrl(ip: string, port: string): string {
    "http://" + ip + ":" + port + "/disconnect"
  }

  /** How many of the connections timed out at the node behind `url`. */
  function TimedOutAt(l: seq<Conn>, now: int, port: string, url: string): nat {
    if l == [] then 0
    else TimedOutAt(l[..|l| - 1], now, port, url)
         + if !Passes(BeatRecent(now), l[|l| - 1]) && DisconnectUrl(l[|l| - 1].nodeIP, port) == url then 1 else 0
  }

  /** The positions of the connections to the node behind `url` whose last heartbeat is over 30 seconds old. */
  ghost function LatePositions(l: seq<Conn>, now: int, port: string, url: string): set<int> {
    set i | 0 <= i < |l| && now - l[i].lastBeat > 30_000_000_000
            && "http://" + l[i].nodeIP + ":" + port + "/disconnect" == url
  }

  lemma OnePositionMore(l: seq<Conn>, now: int, port: string, url: string)
    requires l != []
    ensures var front, c, k := l[..|l| - 1], l[|l| - 1], |l| - 1;
            LatePositions(l, now, port, url) == LatePositions(front, now, port, url)
              + if now - c.lastBeat > 30_000_000_000 && "http://" + c.nodeIP + ":" + port + "/disconnect" == url
                then {k} else {}
  {
  }

  /** The running count is the number of these positions. */
  lemma {:induction false} TimedOutPositions(l: seq<Conn>, now: int, port: string, url: string)
    ensures TimedOutAt(l, now, port, url) == |LatePositions(l, now, port, url)|
  {
    if l != [] {
      TimedOutPositions(l[..|l| - 1], now, port, url);
      OnePositionMore(l, now, port, url);
    }
  }

  /** A user all of whose connections are recent is in no batch. */
  lemma RecentUserIsInNoBatch(batches: Batches, l: seq<Conn>, now: int, port: string, url: string, v: string)
    requires Tally(batches, url, v) == |LatePositions(l, now, port, url)|
    requires forall c :: c in l ==> now - c.lastBeat <= 30_000_000_000
    ensures v !in Batch(batches, url)
  {
    assert forall i :: 0 <= i < |l| ==> l[i] in l;
    assert LatePositions(l, now, port, url) == {};
  }

  type Batches = map<string, seq<string>>

  function Batch(b: Batches, url: string): seq<string> {
    if url in b then b[url] else []
  }

  /** How often a user stands in the batch for `url`. */
  function Tally(b: Batches, url: string, user: string): nat {
    multiset(Batch(b, url))[user]
  }

  lemma TallyAppend(b: Batches, url: string, user: string, at: string, v: string)
    ensures Tally(b[url := Batch(b, url) + [user]], at, v) == Tally(b, at, v) + if at == url && v == user then 1 else 0
  {
  }

  /** All users but those in `todo` have been pruned. */
  ghost predicate PrunedExcept(was: SessionMap, todo: set<string>, regs: seq<Registration>, m: SessionMap) {
    && m.Keys <= was.Keys
    && (forall u :: u in todo ==> u in m && m[u] == Of(was, u))
    && (forall u :: u in was && u !in todo ==> Of(m, u) == Keep(NodeUp(regs), was[u]) && (u in m ==> m[u] != []))
  }

  lemma PruneOneMore(was: SessionMap, todo: set<string>, regs: seq<Registration>, m: SessionMap, user: string)
    requires PrunedExcept(was, todo, regs, m) && user in todo && user in was
    ensures PrunedExcept(was, todo - {user}, regs, Put(m, user, Keep(NodeUp(regs), m[user])))
  {
  }

  lemma PrunedAll(was: SessionMap, regs: seq<Registration>, m: SessionMap)
    requires PrunedExcept(was, {}, regs, m)
    ensures m == Pruned(was, regs)
  {
  }

  /** All copied users but those in `todo` have been written back. */
  ghost predicate WrittenExcept(copied: SessionMap, todo: set<string>, now: int, m: SessionMap) {
    && m.Keys <= copied.Keys
    && (forall u :: u in copied && u !in todo ==>
          Of(m, u) == Keep(BeatRecent(now), copied[u]) && (u in m ==> m[u] != []))
  }

  lemma WriteOneUser(copied: SessionMap, todo: set<string>, now: int, m: SessionMap, user: string)
    requires WrittenExcept(copied, todo, now, m) && user in todo && user in copied
    ensures WrittenExcept(copied, todo - {user}, now, WrittenBack(m, user, copied[user], now))
  {
  }

  // ----- The shared map -----

  class Controller {
    var sessions: SessionMap

    constructor ()
      ensures sessions == map[]
    {
      sessions := map[];
    }

    method Connect(user: string, c: Conn)
      modifies this
      ensures sessions == Admitted(old(sessions), user, c)
      ensures user in sessions
      ensures sessions[user] ==
              (if |Of(old(sessions), user)| >= 2 then Of(old(sessions), user)[1..] else Of(old(sessions), user)) + [c]
      ensures forall u :: u != user ==> Of(sessions, u) == Of(old(sessions), u)
    {
      var userConnections := Of(sessions, user);
      if |userConnections| >= MAX_CONNECTIONS_PER_USER {
        sessions := sessions[user := sessions[user][1..]];
      }
      sessions := sessions[user := Of(sessions, user) + [c]];
    }

    method HeartbeatFromClient(user: string, serviceID: string, now: int) returns (status: nat)
      modifies this
      ensures sessions == if serviceID == "" then old(sessions) else Touched(old(sessions), user, serviceID, now)
      ensures status == 400 <==> serviceID == ""
      ensures status == 200 <==>
              serviceID != "" && FirstTo(Of(old(sessions), user), serviceID) < |Of(old(sessions), user)|
      ensures status in {200, 400, 404}
      ensures status != 200 ==> sessions == old(sessions)
      ensures status == 200 ==>
                var l, l' := Of(old(sessions), user), Of(sessions, user);
                && sessions == old(sessions)[user := l']
                && exists k :: 0 <= k < |l| && l[k].serviceID == serviceID && l' == l[k := l[k].(lastBeat := now)]
                               && forall i :: 0 <= i < k ==> l[i].serviceID != serviceID
    {
      if serviceID == "" {
        return 400;
      }
      if user !in sessions {
        return 404;
      }
      var l := sessions[user];
      for i := 0 to |l|
        invariant sessions == old(sessions)
        invariant forall j :: 0 <= j < i ==> l[j].serviceID != serviceID
      {
        if l[i].serviceID == serviceID {
          assert FirstTo(l, serviceID) == i;
          sessions := sessions[user := l[i := l[i].(lastBeat := now)]];
          return 200;
        }
      }
      return 404;
    }

    method KeepUp(l: seq<Conn>, regs: seq<Registration>) returns (valid: seq<Conn>)
      ensures valid == Keep(NodeUp(regs), l)
    {
      valid := [];
      for i := 0 to |l|
        invariant valid == Keep(NodeUp(regs), l[..i])
      {
        var found := false;
        for j := 0 to |regs|
          invariant !found
          invariant forall h :: 0 <= h < j ==> !(l[i].serviceID == regs[h].id && l[i].nodeIP == regs[h].publicIP)
        {
          if l[i].serviceID == regs[j].id && l[i].nodeIP == regs[j].publicIP {
            found := true;
            break;
          }
        }
        assert l[..i + 1][..i] == l[..i];
        if found {
          valid := valid + [l[i]];
        }
      }
      assert l[..|l|] == l;
    }

    /** Visits the users in any order. */
    method Prune(regs: seq<Registration>)
      modifies this
      ensures sessions == Pruned(old(sessions), regs)
      ensures OnlyRegistered(old(sessions), regs, sessions)
      ensures forall u :: u in sessions ==> sessions[u] != []
    {
      ghost var was := sessions;
      var todo := sessions.Keys;
      while todo != {}
        invariant todo <= was.Keys && PrunedExcept(was, todo, regs, sessions)
        decreases |todo|
      {
        var user :| user in todo;
        var valid := KeepUp(sessions[user], regs);
        PruneOneMore(was, todo, regs, sessions, user);
        if |valid| == 0 {
          sessions := sessions - {user};
        } else {
          sessions := sessions[user := valid];
        }
        todo := todo - {user};
      }
      PrunedAll(was, regs, sessions);
      PrunedExactly(was, regs);
    }

    /** Split one user's copied connections and file the timed-out ones by node. */
    method CollectUser(user: string, l: seq<Conn>, now: int, port: string, batches: Batches)
      returns (valid: seq<Conn>, b: Batches)
      ensures valid == Keep(BeatRecent(now), l)
      ensures forall url, v ::
                Tally(b, url, v) == Tally(batches, url, v) + if v == user then TimedOutAt(l, now, port, url) else 0
    {
      valid, b := [], batches;
      assert forall url :: TimedOutAt(l[..0], now, port, url) == 0;
      for i := 0 to |l|
        invariant valid == Keep(BeatRecent(now), l[..i])
        invariant forall url, v ::
            Tally(b, url, v) == Tally(batches, url, v) + if v == user then TimedOutAt(l[..i], now, port, url) else 0
      {
        assert l[..i + 1][..i] == l[..i];
        if now - l[i].lastBeat <= HEARTBEAT_TIMEOUT {
          valid := valid + [l[i]];
        } else {
          var url := DisconnectUrl(l[i].nodeIP, port);
          forall at, v
            ensures Tally(b[url := Batch(b, url) + [user]], at, v) == Tally(b, at, v)
                    + if at == url && v == user then 1 else 0
          {
            TallyAppend(b, url, user, at, v);
          }
          b := b[url := Batch(b, url) + [user]];
        }
      }
      assert l[..|l|] == l;
    }

    /** Time out and write back the copied users, in any order. */
    method WriteBackAll(usersToProcess: SessionMap, now: int, port: string) returns (batches: Batches)
      requires sessions == usersToProcess
      modifies this
      ensures sessions.Keys <= usersToProcess.Keys
      ensures forall u :: u in usersToProcess ==> Of(sessions, u) == Keep(BeatRecent(now), usersToProcess[u])
      ensures forall u :: u in sessions ==> sessions[u] != []
      ensures forall url, v :: Tally(batches, url, v) == TimedOutAt(Of(usersToProcess, v), now, port, url)
    {
      var todo := usersToProcess.Keys;
      batches := map[];
      while todo != {}
        invariant todo <= usersToProcess.Keys && WrittenExcept(usersToProcess, todo, now, sessions)
        invariant forall url, v ::
                    Tally(batches, url, v) == if v in todo then 0 else TimedOutAt(Of(usersToProcess, v), now, port, url)
        decreases |todo|
      {
        var user :| user in todo;
        var valid;
        valid, batches := CollectUser(user, usersToProcess[user], now, port, batches);
        WriteOneUser(usersToProcess, todo, now, sessions, user);
        if |valid| == 0 {
          sessions := sessions - {user};
        } else {
          sessions := sessions[user := valid];
        }
        todo := todo - {user};
      }
    }

    /**
    One tick with nothing in between, users in any order: the map holds exactly the survivors of both
    tests, and a user is in a node's disconnect batch once for each of the user's connections to the node
    that timed out.
    */
    method MonitorTick(regs: seq<Registration>, now: int, port: string) returns (batches: Batches)
      modifies this
      ensures sessions == Ticked(old(sessions), regs, now)
      ensures OnlyAlive(old(sessions), regs, now, sessions)
      ensures forall url, v ::
                Tally(batches, url, v) == |LatePositions(Keep(NodeUp(regs), Of(old(sessions), v)), now, port, url)|
    {
      ghost var was := sessions;
      batches := PruneAndTimeOut(regs, now, port);
      TickedExactly(was, regs, now);
      forall url, v
        ensures Tally(batches, url, v) == |LatePositions(Keep(NodeUp(regs), Of(was, v)), now, port, url)|
      {
        TimedOutPositions(Keep(NodeUp(regs), Of(was, v)), now, port, url);
      }
    }

    method PruneAndTimeOut(regs: seq<Registration>, now: int, port: string) returns (batches: Batches)
      modifies this
      ensures sessions == Ticked(old(sessions), regs, now)
      ensures forall url, v ::
                Tally(batches, url, v) == TimedOutAt(Keep(NodeUp(regs), Of(old(sessions), v)), now, port, url)
    {
      ghost var was := sessions;
      Prune(regs);
      PrunedLists(was, regs);
      batches := WriteBackAll(sessions, now, port);
      TickedFrom(was, regs, now, sessions);
    }
  }

  /** Exactly the connections whose service id and node address are registered together stay. */
  lemma PrunedExactly(m: SessionMap, regs: seq<Registration>)
    ensures OnlyRegistered(m, regs, Pruned(m, regs))
  {
    PrunedLists(m, regs);
    forall u, c ensures c in Of(Pruned(m, regs), u) <==> c in Of(m, u) && RegisteredAt(regs, c.serviceID, c.nodeIP) {
      KeepPasses(NodeUp(regs), Of(m, u), c);
      RegisteredPasses(c, regs);
    }
  }

  lemma RegisteredPasses(c: Conn, regs: seq<Registration>)
    ensures Passes(NodeUp(regs), c) <==> RegisteredAt(regs, c.serviceID, c.nodeIP)
  {
    if Passes(NodeUp(regs), c) {
      var i :| 0 <= i < |regs| && c.serviceID == regs[i].id && c.nodeIP == regs[i].publicIP;
      assert regs[i] in regs;
    }
  }

  /** Exactly the connections with a recent heartbeat and a registered node survive a tick. */
  lemma TickedExactly(m: SessionMap, regs: seq<Registration>, now: int)
    ensures OnlyAlive(m, regs, now, Ticked(m, regs, now))
  {
    forall u, c
      ensures c in Of(Ticked(m, regs, now), u) <==>
              c in Of(m, u) && RegisteredAt(regs, c.serviceID, c.nodeIP) && now - c.lastBeat <= 30_000_000_000
    {
      KeepPasses(NodeUp(regs), Of(m, u), c);
      KeepPasses(BeatRecent(now), Keep(NodeUp(regs), Of(m, u)), c);
      RegisteredPasses(c, regs);
      TickedSurvivors(m, regs, now, u);
    }
  }

  lemma TickedSurvivors(m: SessionMap, regs: seq<Registration>, now: int, u: string)
    ensures Of(Ticked(m, regs, now), u) == Survivors(Of(m, u), regs, now)
  {
  }

  /** A node that registered again under a new id: the connections made before are pruned. */
  lemma ReRegisteredNodeIsPruned(user: string, c: Conn, node: Registration)
    requires node.publicIP == c.nodeIP && node.id != c.serviceID
    ensures user !in Pruned(map[user := [c]], [node])
  {
    var m := Pruned(map[user := [c]], [node]);
    PrunedExactly(map[user := [c]], [node]);
    if user in m {
      OnlyRegisteredOf(map[user := [c]], [node], m, user, m[user][0]);
      assert false;
    }
  }

  lemma PrunedLists(m: SessionMap, regs: seq<Registration>)
    ensures forall u :: Of(Pruned(m, regs), u) == Keep(NodeUp(regs), Of(m, u))
  {
  }

  lemma TickedFrom(was: SessionMap, regs: seq<Registration>, now: int, m: SessionMap)
    requires forall u :: u in Pruned(was, regs) ==> Of(m, u) == Keep(BeatRecent(now), Pruned(was, regs)[u])
    requires m.Keys <= Pruned(was, regs).Keys
    requires forall u :: u in m ==> m[u] != []
    ensures m == Ticked(was, regs, now)
  {
    forall u | u in was ensures Of(m, u) == Survivors(was[u], regs, now) {
      if u !in Pruned(was, regs) { assert Keep(NodeUp(regs), was[u]) == []; }
    }
  }
}
