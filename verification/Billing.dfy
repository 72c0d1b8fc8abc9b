/**
Traffic accounting (node/server.go, node/proxy.go and the web side that adds it up). Counters are kept
per port; a report turns them into differences against a cache that outlives the connection.
*/
module Billing {
  datatype Stats = Stats(uploaded: nat, downloaded: nat)

  /** Connections by user id, live counters by port, and the counters as of the last report. */
  datatype Node = Node(conns: map<string, int>, store: map<int, Stats>, cache: map<int, Stats>)

  const FIRST_PORT: int := 10000
  const PORT_COUNT: int := 50000

  function Total(m: map<int, Stats>, port: int): nat {
    if port in m then m[port].uploaded + m[port].downloaded else 0
  }

  // ----- Steps of a node -----

  predicate PortFree(n: Node, port: int) {
    FIRST_PORT <= port < FIRST_PORT + PORT_COUNT && port !in n.conns.Values
  }

  function Connected(n: Node, user: string, port: int): Node {
    if user in n.conns then n else n.(conns := n.conns[user := port])
  }

  /** Bytes passing through a proxy; the first ones create the counters. */
  function Relayed(n: Node, port: int, up: nat, down: nat): Node {
    var was := if port in n.store then n.store[port] else Stats(0, 0);
    n.(store := n.store[port := Stats(was.uploaded + up, was.downloaded + down)])
  }

  function Diff(n: Node, port: int): int {
    Total(n.store, port) - Total(n.cache, port)
  }

  /** The report loop's body for one port. */
  function Reported(n: Node, port: int): Node {
    if port in n.store then n.(cache := n.cache[port := n.store[port]]) else n
  }

  /** An unknown user's port reads as 0. */
  function PortOf(conns: map<string, int>, user: string): int {
    if user in conns then conns[user] else 0
  }

  function Disconnected(n: Node, user: string): Node {
    n.(store := n.store - {PortOf(n.conns, user)}, conns := n.conns - {user})
  }

  function DisconnectedAll(n: Node, users: seq<string>): Node {
    if users == [] then n else Disconnected(DisconnectedAll(n, users[..|users| - 1]), users[|users| - 1])
  }

  /** Ports are in range and no two users share one. */
  ghost predicate PortsSound(n: Node) {
    && (forall u :: u in n.conns ==> FIRST_PORT <= n.conns[u])
    && (forall u, v :: u in n.conns && v in n.conns && n.conns[u] == n.conns[v] ==> u == v)
  }

  /** Listed users go; so do their ports' counters, and those of port 0 if a name is unknown by then. */
  ghost predicate GoneExactly(n: Node, users: seq<string>, n': Node) {
    && n'.conns == n.conns - (set u | u in users) && n'.cache == n.cache
    && (forall port :: port in n'.store <==> port in n.store && Spared(n, users, port))
    && (forall port :: port in n'.store ==> n'.store[port] == n.store[port])
  }

  /** No listed user has the port; port 0 also goes for names unknown when their turn comes. */
  ghost predicate Spared(n: Node, users: seq<string>, port: int) {
    if port != 0 then forall u :: u in users && u in n.conns ==> n.conns[u] != port
    else forall i :: 0 <= i < |users| ==> users[i] !in users[..i] && users[i] in n.conns && n.conns[users[i]] != 0
  }

  class NodeServer {
    var conns: map<string, int>
    var store: map<int, Stats>
    var cache: map<int, Stats>

    ghost function View(): Node
      reads this
    {
      Node(conns, store, cache)
    }

    constructor ()
      ensures View() == Node(map[], map[], map[])
    {
      conns, store, cache := map[], map[], map[];
    }

    /** `probed` is the free port the random search ends with; a connected user needs none. */
    method HandleConnect(user: string, probed: int) returns (port: int)
      requires PortsSound(View()) && (user in conns || (10000 <= probed < 60000 && probed !in conns.Values))
      modifies this
      ensures View() == Connected(old(View()), user, probed) && PortsSound(View())
      ensures user in conns && port == conns[user]
      ensures conns == (if user in old(conns) then old(conns) else old(conns)[user := probed])
      ensures store == old(store) && cache == old(cache)
    {
      if user in conns {
        return conns[user];
      }
      conns := conns[user := probed];
      return probed;
    }

    method HandleDisconnect(users: seq<string>) returns (status: nat)
      modifies this
      ensures status == if users == [] then 400 else 200
      ensures View() == DisconnectedAll(old(View()), users)
      ensures GoneExactly(old(View()), users, View())
    {
      DisconnectsExactly(View(), users);
      if |users| == 0 {
        return 400;
      }
      ghost var was := View();
      for i := 0 to |users|
        invariant View() == DisconnectedAll(was, users[..i])
      {
        assert users[..i + 1][..i] == users[..i];
        var port := if users[i] in conns then conns[users[i]] else 0;
        store := store - {port};
        conns := conns - {users[i]};
      }
      assert users[..|users|] == users;
      return 200;
    }

    /** The loop body: the difference for one connection, if its port has counters. */
    method ReportOne(user: string, port: int, report: seq<(string, int)>) returns (longer: seq<(string, int)>)
      modifies this
      ensures View() == Reported(old(View()), port)
      ensures longer == report + if port in store then [(user, Diff(old(View()), port))] else []
    {
      if port !in store {
        return report;
      }
      var stats, oldStats := store[port], if port in cache then cache[port] else Stats(0, 0);
      var diff := (stats.downloaded + stats.uploaded) - (oldStats.downloaded + oldStats.uploaded);
      cache := cache[port := stats];
      return report + [(user, diff)];
    }

    /**
    One round of the report loop over a copy of the connections, which may be older than the
    connections are by now; its entries come in some order, each once.
    */
    method TrafficReport(snapshot: map<string, int>) returns (report: seq<(string, int)>, ghost order: seq<string>)
      modifies this
      ensures EachOnce(order, snapshot.Keys)
      ensures View() == ReportedAll(old(View()), snapshot, order) && report == ReportOf(old(View()), snapshot, order)
    {
      var todo := snapshot.Keys;
      report, order := [], [];
      ghost var was, seen := View(), {};
      while todo != {}
        invariant todo !! seen && todo + seen == snapshot.Keys && EachOnce(order, seen)
        invariant View() == ReportedAll(was, snapshot, order) && report == ReportOf(was, snapshot, order)
        decreases |todo|
      {
        var user :| user in todo;
        ReportOneMore(was, snapshot, order, user);
        report := ReportOne(user, snapshot[user], report);
        EachOneMore(order, seen, user);
        order, seen := order + [user], seen + {user};
        todo := todo - {user};
      }
    }
  }

  lemma {:induction false} DisconnectsExactly(n: Node, users: seq<string>)
    ensures GoneExactly(n, users, DisconnectedAll(n, users))
  {
    if users != [] {
      var front, last := users[..|users| - 1], users[|users| - 1];
      assert users == front + [last];
      DisconnectsExactly(n, front);
      DisconnectOneMore(n, front, DisconnectedAll(n, front), last);
    }
  }

  lemma DisconnectOneMore(n: Node, front: seq<string>, n1: Node, last: string)
    requires GoneExactly(n, front, n1)
    ensures GoneExactly(n, front + [last], Disconnected(n1, last))
  {
    var users, n' := front + [last], Disconnected(n1, last);
    assert last in n1.conns <==> last in n.conns && last !in front;
    forall port ensures port in n'.store <==> port in n.store && Spared(n, users, port) {
      SparedOneMore(n, front, last, port);
    }
    assert n'.conns == n.conns - (set u | u in users) by { assert forall u :: u in users <==> u in front || u == last; }
  }

  lemma SparedOneMore(n: Node, front: seq<string>, last: string, port: int)
    ensures Spared(n, front + [last], port) <==>
            Spared(n, front, port)
            && (port != 0 ==> !(last in n.conns && n.conns[last] == port))
            && (port == 0 ==> last !in front && last in n.conns && n.conns[last] != 0)
  {
    var users := front + [last];
    assert forall u :: u in users <==> u in front || u == last;
    assert forall i :: 0 <= i < |front| ==> users[i] == front[i] && users[..i] == front[..i];
    assert users[|front|] == last && users[..|front|] == front;
  }

  ghost predicate EachOnce(order: seq<string>, users: set<string>) {
    && (forall u :: u in order <==> u in users)
    && (forall i, j :: 0 <= i < j < |order| ==> order[i] != order[j])
  }

  lemma EachOneMore(order: seq<string>, users: set<string>, user: string)
    requires EachOnce(order, users) && user !in users
    ensures EachOnce(order + [user], users + {user})
  {
  }

  /** The report loop over a copy's users in the given order. */
  function ReportedAll(n: Node, copy: map<string, int>, order: seq<string>): Node {
    if order == [] then n else Reported(ReportedAll(n, copy, order[..|order| - 1]), PortOf(copy, order[|order| - 1]))
  }

  function ReportOf(n: Node, copy: map<string, int>, order: seq<string>): seq<(string, int)> {
    if order == [] then [] else
    var port := PortOf(copy, order[|order| - 1]);
    var n' := ReportedAll(n, copy, order[..|order| - 1]);
    ReportOf(n, copy, order[..|order| - 1]) + if port in n'.store then [(order[|order| - 1], Diff(n', port))] else []
  }

  lemma ReportOneMore(n: Node, copy: map<string, int>, order: seq<string>, user: string)
    ensures ReportedAll(n, copy, order + [user]) == Reported(ReportedAll(n, copy, order), PortOf(copy, user))
    ensures var n', port := ReportedAll(n, copy, order), PortOf(copy, user);
            ReportOf(n, copy, order + [user]) ==
            ReportOf(n, copy, order) + if port in n'.store then [(user, Diff(n', port))] else []
  {
    assert (order + [user])[..|order|] == order;
  }

  /** What the reported users' ports look like afterwards. */
  lemma {:induction false} ReportedAllEffect(n: Node, copy: map<string, int>, order: seq<string>, port: int)
    ensures var n' := ReportedAll(n, copy, order);
            && n'.conns == n.conns && n'.store == n.store
            && Total(n'.cache, port) ==
               if port in n.store && exists i :: 0 <= i < |order| && PortOf(copy, order[i]) == port
               then Total(n.store, port) else Total(n.cache, port)
  {
    if order != [] {
      ReportedAllEffect(n, copy, order[..|order| - 1], port);
      assert order == order[..|order| - 1] + [order[|order| - 1]];
    }
  }

  ghost predicate NoSharedPorts(copy: map<string, int>) {
    forall u, v :: u in copy && v in copy && copy[u] == copy[v] ==> u == v
  }

  /** A user reported last still finds the port's cache as it was. */
  lemma NotYetReported(n: Node, copy: map<string, int>, order: seq<string>, user: string)
    requires NoSharedPorts(copy) && user in copy && user !in order && forall u :: u in order ==> u in copy
    ensures Diff(ReportedAll(n, copy, order), copy[user]) == Diff(n, copy[user])
    ensures ReportedAll(n, copy, order).store == n.store
  {
    ReportedAllEffect(n, copy, order, copy[user]);
    assert forall i :: 0 <= i < |order| ==> order[i] in order;
  }

  /** Nothing is pending on a port that has been reported. */
  lemma NothingPending(n: Node, copy: map<string, int>, order: seq<string>, user: string)
    requires user in copy && user in order && copy[user] in n.store
    ensures Diff(ReportedAll(n, copy, order), copy[user]) == 0
  {
    ReportedAllEffect(n, copy, order, copy[user]);
    var i :| 0 <= i < |order| && order[i] == user;
    assert PortOf(copy, order[i]) == copy[user];
  }

  lemma EachOnceFront(order: seq<string>, users: set<string>)
    requires EachOnce(order, users) && order != []
    ensures order[|order| - 1] in users && order[|order| - 1] !in order[..|order| - 1]
    ensures EachOnce(order[..|order| - 1], users - {order[|order| - 1]})
  {
    assert order == order[..|order| - 1] + [order[|order| - 1]];
  }

  /**
  Whatever the order, a report names exactly the copied users whose port has counters now, with the
  bytes since that port's last report, and not more often than they are connected.
  */
  lemma {:induction false} ReportExact(n: Node, copy: map<string, int>, order: seq<string>, users: set<string>)
    requires NoSharedPorts(copy) && users <= copy.Keys && EachOnce(order, users)
    ensures forall u, d :: (u, d) in ReportOf(n, copy, order) <==>
            u in users && copy[u] in n.store && d == Diff(n, copy[u])
    ensures |ReportOf(n, copy, order)| <= |order|
    decreases |order|
  {
    if order != [] {
      var front, user := order[..|order| - 1], order[|order| - 1];
      EachOnceFront(order, users);
      ReportExact(n, copy, front, users - {user});
      NotYetReported(n, copy, front, user);
    }
  }

  // ----- The web side -----

  function SumFor(reports: seq<(string, int)>, user: string): int {
    if reports == [] then 0
    else SumFor(reports[..|reports| - 1], user)
         + if reports[|reports| - 1].0 == user then reports[|reports| - 1].1 else 0
  }

  /** Adds every entry of a report to its user's total; unknown users are skipped. */
  method AddTraffic(used: map<string, int>, reports: seq<(string, int)>) returns (after: map<string, int>)
    ensures after.Keys == used.Keys
    ensures forall u :: u in used ==> after[u] == used[u] + SumFor(reports, u)
    ensures forall n, copy, order ::
              reports == ReportOf(n, copy, order) && NoSharedPorts(copy) && EachOnce(order, copy.Keys) ==>
              forall u :: u in used ==>
                after[u] == used[u] + if u in copy && copy[u] in n.store then Diff(n, copy[u]) else 0
  {
    after := used;
    for i := 0 to |reports|
      invariant after.Keys == used.Keys
      invariant forall u :: u in used ==> after[u] == used[u] + SumFor(reports[..i], u)
    {
      assert reports[..i + 1][..i] == reports[..i];
      if reports[i].0 in after {
        after := after[reports[i].0 := after[reports[i].0] + reports[i].1];
      }
    }
    assert reports[..|reports|] == reports;
    forall n, copy, order | reports == ReportOf(n, copy, order) && NoSharedPorts(copy) && EachOnce(order, copy.Keys)
      ensures forall u :: u in used ==>
                after[u] == used[u] + if u in copy && copy[u] in n.store then Diff(n, copy[u]) else 0
    {
      forall u { ReportSums(n, copy, order, copy.Keys, u); }
    }
  }

  /** The entries of a report for one user add up to what the user's port has to report. */
  lemma {:induction false} ReportSums(n: Node, copy: map<string, int>, order: seq<string>, users: set<string>,
                                      u: string)
    requires NoSharedPorts(copy) && users <= copy.Keys && EachOnce(order, users)
    ensures SumFor(ReportOf(n, copy, order), u) == if u in users && copy[u] in n.store then Diff(n, copy[u]) else 0
    decreases |order|
  {
    if order != [] {
      var front, user := order[..|order| - 1], order[|order| - 1];
      EachOnceFront(order, users);
      ReportSums(n, copy, front, users - {user}, u);
      NotYetReported(n, copy, front, user);
      SumForNext(ReportOf(n, copy, front), user, Diff(n, copy[user]), u);
      assert ReportOf(n, copy, front) + [] == ReportOf(n, copy, front);
    }
  }

  lemma SumForNext(reports: seq<(string, int)>, user: string, d: int, u: string)
    ensures SumFor(reports + [(user, d)], u) == SumFor(reports, u) + if user == u then d else 0
  {
    assert (reports + [(user, d)])[..|reports|] == reports;
  }

  // ----- Runs -----

  datatype Step =
    | Connect(user: string, port: int)
    | Relay(port: int, up: nat, down: nat)
    | ReportEntry(user: string, port: int, delivered: bool)
    | Disconnect(user: string)

  type Account = map<string, int>

  function Get(a: Account, user: string): int {
    if user in a then a[user] else 0
  }

  function Bump(a: Account, user: string, n: int): Account {
    a[user := Get(a, user) + n]
  }

  /**
  The node with its books: per user the bytes relayed while connected, credited on the web side, in
  reports that did not arrive, never reported before a disconnect, and taken over with a used port;
  per port the sum of all differences ever computed.
  */
  datatype Books = Books(
    node: Node, relayed: Account, credited: Account, undelivered: Account, lost: Account, inherited: Account,
    portSum: map<int, int>)

  function PortSum(b: Books, port: int): int {
    if port in b.portSum then b.portSum[port] else 0
  }

  /** The user the port belongs to at the moment, if any. */
  ghost predicate Owns(n: Node, user: string, port: int) {
    user in n.conns && n.conns[user] == port
  }

  ghost function Attributed(b: Books, port: int, n: nat): Account {
    if exists user :: Owns(b.node, user, port) then
      var user :| Owns(b.node, user, port); Bump(b.relayed, user, n)
    else b.relayed
  }

  function ReportNext(b: Books, user: string, port: int, delivered: bool): Books {
    var d := Diff(b.node, port);
    Books(Reported(b.node, port), b.relayed,
          if delivered then Bump(b.credited, user, d) else b.credited,
          if delivered then b.undelivered else Bump(b.undelivered, user, d),
          b.lost, b.inherited, b.portSum[port := PortSum(b, port) + d])
  }

  lemma ReportedTotals(n: Node, port: int, p: int)
    requires port in n.store
    ensures Total(Reported(n, port).cache, p) == if p == port then Total(n.store, p) else Total(n.cache, p)
    ensures Diff(Reported(n, port), p) == if p == port then 0 else Diff(n, p)
  {
  }

  ghost function Next(b: Books, step: Step): Books {
    match step
    case Connect(user, port) =>
      if user in b.node.conns then b
      else b.(node := Connected(b.node, user, port), inherited := Bump(b.inherited, user, -Diff(b.node, port)))
    case Relay(port, up, down) =>
      b.(node := Relayed(b.node, port, up, down), relayed := Attributed(b, port, up + down))
    case ReportEntry(user, port, delivered) =>
      if port in b.node.store then ReportNext(b, user, port, delivered) else b
    case Disconnect(user) =>
      b.(node := Disconnected(b.node, user), lost := Bump(b.lost, user, Pending(b.node, user)))
  }

  ghost function Run(steps: seq<Step>): Books {
    if steps == [] then Books(Node(map[], map[], map[]), map[], map[], map[], map[], map[], map[])
    else Next(Run(steps[..|steps| - 1]), steps[|steps| - 1])
  }

  /** All differences ever computed for a port add up to its cached total, in every run and across port reuse. */
  lemma {:induction false} DifferencesTelescope(steps: seq<Step>, port: int)
    ensures PortSum(Run(steps), port) == Total(Run(steps).node.cache, port)
  {
    if steps != [] {
      DifferencesTelescope(steps[..|steps| - 1], port);
      StepTelescopes(Run(steps[..|steps| - 1]), steps[|steps| - 1], port);
    }
  }

  lemma StepTelescopes(b: Books, step: Step, port: int)
    requires PortSum(b, port) == Total(b.node.cache, port)
    ensures PortSum(Next(b, step), port) == Total(Next(b, step).node.cache, port)
  {
    match step
    case Connect(_, _) =>
      assert Next(b, step).portSum == b.portSum && Next(b, step).node.cache == b.node.cache;
    case Relay(_, _, _) =>
      assert Next(b, step).portSum == b.portSum && Next(b, step).node.cache == b.node.cache;
    case Disconnect(_) =>
      assert Next(b, step).portSum == b.portSum && Next(b, step).node.cache == b.node.cache;
    case ReportEntry(user, p, delivered) =>
      if p in b.node.store { ReportTelescopes(b, user, p, delivered, port); }
  }

  lemma ReportTelescopes(b: Books, user: string, p: int, delivered: bool, port: int)
    requires PortSum(b, port) == Total(b.node.cache, port) && p in b.node.store
    ensures PortSum(ReportNext(b, user, p, delivered), port) ==
            Total(ReportNext(b, user, p, delivered).node.cache, port)
  {
    ReportedTotals(b.node, p, port);
  }

  /** The entry names the port's current user, or there is nothing to report for the port. */
  ghost predicate Fair(n: Node, user: string, port: int) {
    port !in n.store || Diff(n, port) == 0 || Owns(n, user, port)
  }

  /** Ports are probed free when taken, and report entries are fair. */
  ghost predicate Admissible(steps: seq<Step>) {
    steps != [] ==>
      var front, step := steps[..|steps| - 1], steps[|steps| - 1];
      && Admissible(front)
      && (step.Connect? ==> PortFree(Run(front).node, step.port))
      && (step.ReportEntry? ==> Fair(Run(front).node, step.user, step.port))
  }

  /** Bytes counted but not yet reported for a connected user. */
  ghost function Pending(n: Node, user: string): int {
    if user in n.conns then Diff(n, n.conns[user]) else 0
  }

  ghost predicate Balanced(b: Books, user: string) {
    Get(b.relayed, user) == Get(b.credited, user) + Get(b.undelivered, user) + Pending(b.node, user)
                            + Get(b.lost, user) + Get(b.inherited, user)
  }

  lemma {:induction false} PortsStaySound(steps: seq<Step>)
    requires Admissible(steps)
    ensures PortsSound(Run(steps).node)
  {
    if steps != [] {
      PortsStaySound(steps[..|steps| - 1]);
      StepKeepsPorts(Run(steps[..|steps| - 1]), steps[|steps| - 1]);
    }
  }

  lemma StepKeepsPorts(b: Books, step: Step)
    requires PortsSound(b.node) && (step.Connect? ==> PortFree(b.node, step.port))
    ensures PortsSound(Next(b, step).node)
  {
    match step
    case Connect(user, port) => ConnectedSound(b.node, user, port);
    case Relay(_, _, _) => FewerPortsSound(b.node, Next(b, step).node);
    case ReportEntry(_, _, _) => FewerPortsSound(b.node, Next(b, step).node);
    case Disconnect(_) => FewerPortsSound(b.node, Next(b, step).node);
  }

  lemma ConnectedSound(n: Node, user: string, port: int)
    requires PortsSound(n) && PortFree(n, port)
    ensures PortsSound(Connected(n, user, port))
  {
    assert forall u :: u in n.conns ==> n.conns[u] in n.conns.Values;
  }

  lemma FewerPortsSound(n: Node, n': Node)
    requires PortsSound(n) && forall u :: u in n'.conns ==> u in n.conns && n'.conns[u] == n.conns[u]
    ensures PortsSound(n')
  {
  }

  lemma AttributedTo(b: Books, port: int, n: nat, user: string)
    requires PortsSound(b.node)
    ensures Get(Attributed(b, port, n), user) == Get(b.relayed, user) + if Owns(b.node, user, port) then n else 0
  {
  }

  lemma ConnectBalances(b: Books, step: Step, user: string)
    requires step.Connect? && Balanced(b, user)
    ensures Balanced(Next(b, step), user)
  {
  }

  lemma RelayBalances(b: Books, step: Step, user: string)
    requires step.Relay? && PortsSound(b.node) && Balanced(b, user)
    ensures Balanced(Next(b, step), user)
  {
    AttributedTo(b, step.port, step.up + step.down, user);
    var n' := Relayed(b.node, step.port, step.up, step.down);
    assert Total(n'.store, step.port) == Total(b.node.store, step.port) + step.up + step.down;
    assert forall p :: p != step.port ==> Total(n'.store, p) == Total(b.node.store, p);
  }

  lemma ReportBalances(b: Books, step: Step, user: string)
    requires step.ReportEntry? && PortsSound(b.node) && Balanced(b, user)
    requires Fair(b.node, step.user, step.port)
    ensures Balanced(Next(b, step), user)
  {
    if step.port in b.node.store {
      ReportShifts(b, step, user);
      assert Owns(b.node, step.user, step.port) ==> (Owns(b.node, user, step.port) <==> user == step.user);
    }
  }

  /** An entry moves the port's difference from its owner's pending bytes to the named user. */
  lemma ReportShifts(b: Books, step: Step, user: string)
    requires step.ReportEntry? && step.port in b.node.store
    ensures var b', d := Next(b, step), Diff(b.node, step.port);
            && Get(b'.credited, user) + Get(b'.undelivered, user)
               == Get(b.credited, user) + Get(b.undelivered, user) + (if user == step.user then d else 0)
            && Pending(b'.node, user) == Pending(b.node, user) - (if Owns(b.node, user, step.port) then d else 0)
            && b'.relayed == b.relayed && b'.lost == b.lost && b'.inherited == b.inherited
  {
    ReportedTotals(b.node, step.port, PortOf(b.node.conns, user));
    assert Next(b, step) == ReportNext(b, step.user, step.port, step.delivered);
  }

  /** A report entry keeps every user's books balanced if and only if it is fair. */
  lemma FairExactly(b: Books, step: Step)
    requires step.ReportEntry? && PortsSound(b.node) && forall user :: Balanced(b, user)
    ensures (forall user :: Balanced(Next(b, step), user)) <==> Fair(b.node, step.user, step.port)
  {
    if Fair(b.node, step.user, step.port) {
      forall user ensures Balanced(Next(b, step), user) { ReportBalances(b, step, user); }
    } else {
      assert Balanced(b, step.user);
      ReportShifts(b, step, step.user);
      assert !Balanced(Next(b, step), step.user);
    }
  }

  lemma OthersKeepPending(n: Node, gone: string, user: string)
    requires PortsSound(n) && user != gone
    ensures Pending(Disconnected(n, gone), user) == Pending(n, user)
  {
    assert user in n.conns ==> PortOf(n.conns, gone) != n.conns[user];
  }

  /** A disconnect moves pending bytes to the lost ones. */
  lemma DisconnectShifts(b: Books, step: Step, user: string)
    requires step.Disconnect? && PortsSound(b.node)
    ensures var b' := Next(b, step);
            && Pending(b'.node, user) == (if user == step.user then 0 else Pending(b.node, user))
            && Get(b'.lost, user) == Get(b.lost, user) + (if user == step.user then Pending(b.node, user) else 0)
            && b'.relayed == b.relayed && b'.credited == b.credited
            && b'.undelivered == b.undelivered && b'.inherited == b.inherited
  {
    if user != step.user {
      OthersKeepPending(b.node, step.user, user);
    } else {
      OwnPendingEnds(b.node, user);
    }
  }

  lemma OwnPendingEnds(n: Node, user: string)
    ensures Pending(Disconnected(n, user), user) == 0
  {
  }

  lemma DisconnectBalances(b: Books, step: Step, user: string)
    requires step.Disconnect? && PortsSound(b.node) && Balanced(b, user)
    ensures Balanced(Next(b, step), user)
  {
    DisconnectShifts(b, step, user);
  }

  lemma StepBalances(b: Books, step: Step, user: string)
    requires PortsSound(b.node) && Balanced(b, user)
    requires step.ReportEntry? ==> Fair(b.node, step.user, step.port)
    ensures Balanced(Next(b, step), user)
  {
    match step
    case Connect(_, _) => ConnectBalances(b, step, user);
    case Relay(_, _, _) => RelayBalances(b, step, user);
    case ReportEntry(_, _, _) => ReportBalances(b, step, user);
    case Disconnect(_) => DisconnectBalances(b, step, user);
  }

  /**
  Conservation for every user and every admissible run: bytes relayed are credited, undelivered, pending,
  lost at a disconnect, or offset by what the port still carried when the user got it. Nothing else.
  */
  lemma {:induction false} BytesAreConserved(steps: seq<Step>, user: string)
    requires Admissible(steps)
    ensures Balanced(Run(steps), user)
  {
    if steps != [] {
      BytesAreConserved(steps[..|steps| - 1], user);
      PortsStaySound(steps[..|steps| - 1]);
      StepBalances(Run(steps[..|steps| - 1]), steps[|steps| - 1], user);
    }
  }

  /** One report, entry by entry. */
  function Entries(copy: map<string, int>, order: seq<string>, delivered: bool): seq<Step> {
    if order == [] then []
    else Entries(copy, order[..|order| - 1], delivered)
         + [ReportEntry(order[|order| - 1], PortOf(copy, order[|order| - 1]), delivered)]
  }

  /** A port reported in the meantime has nothing left to report. */
  lemma StaysFair(n: Node, copy: map<string, int>, order: seq<string>, user: string, port: int)
    requires Fair(n, user, port)
    ensures Fair(ReportedAll(n, copy, order), user, port)
  {
    ReportedAllEffect(n, copy, order, port);
  }

  /**
  A whole report from any copy of the connections, delivered or not, is an admissible continuation of a
  run if its entries are fair, and does to the node what the loop does.
  */
  lemma {:induction false} ReportContinuesRun(steps: seq<Step>, copy: map<string, int>, order: seq<string>,
                                              delivered: bool)
    requires Admissible(steps) && forall u :: u in order ==> Fair(Run(steps).node, u, PortOf(copy, u))
    ensures var more := steps + Entries(copy, order, delivered);
            Admissible(more) && Run(more).node == ReportedAll(Run(steps).node, copy, order)
    decreases |order|
  {
    if order == [] {
      assert steps + [] == steps;
    } else {
      var front, user := order[..|order| - 1], order[|order| - 1];
      assert user in order;
      ReportContinuesRun(steps, copy, front, delivered);
      StaysFair(Run(steps).node, copy, front, user, PortOf(copy, user));
      var more, last := steps + Entries(copy, front, delivered), ReportEntry(user, PortOf(copy, user), delivered);
      assert steps + Entries(copy, order, delivered) == more + [last];
      EntryContinuesRun(more, last);
    }
  }

  lemma {:induction false} EntriesReport(steps: seq<Step>, copy: map<string, int>, order: seq<string>, delivered: bool)
    ensures Run(steps + Entries(copy, order, delivered)).node == ReportedAll(Run(steps).node, copy, order)
    decreases |order|
  {
    if order == [] {
      assert steps + [] == steps;
    } else {
      var front, user := order[..|order| - 1], order[|order| - 1];
      var more, last := steps + Entries(copy, front, delivered), ReportEntry(user, PortOf(copy, user), delivered);
      EntriesReport(steps, copy, front, delivered);
      assert steps + Entries(copy, order, delivered) == more + [last];
      RunOneMore(more, last);
      NextReports(Run(more), last);
    }
  }

  /**
  In the books a delivered report credits every copied user with what the port has to report: by the
  contract of `AddTraffic`, the amount by which the web side raises the user's total.
  */
  lemma {:induction false} EntriesCredit(steps: seq<Step>, copy: map<string, int>, order: seq<string>,
                                         users: set<string>, u: string)
    requires NoSharedPorts(copy) && users <= copy.Keys && EachOnce(order, users)
    ensures var n := Run(steps).node;
            Get(Run(steps + Entries(copy, order, true)).credited, u) ==
            Get(Run(steps).credited, u) + if u in users && copy[u] in n.store then Diff(n, copy[u]) else 0
    decreases |order|
  {
    var n := Run(steps).node;
    if order == [] {
      assert steps + [] == steps;
    } else {
      var front, user := order[..|order| - 1], order[|order| - 1];
      var more, last := steps + Entries(copy, front, true), ReportEntry(user, PortOf(copy, user), true);
      EachOnceFront(order, users);
      EntriesCredit(steps, copy, front, users - {user}, u);
      EntriesReport(steps, copy, front, true);
      NotYetReported(n, copy, front, user);
      assert steps + Entries(copy, order, true) == more + [last];
      RunOneMore(more, last);
      EntryCredits(Run(more), last, u);
    }
  }

  lemma EntryCredits(b: Books, step: Step, u: string)
    requires step.ReportEntry? && step.delivered
    ensures Get(Next(b, step).credited, u) ==
            Get(b.credited, u) + if step.user == u && step.port in b.node.store then Diff(b.node, step.port) else 0
  {
  }

  /** A delivered report moves the web side's totals as its entries move the books. */
  method AddReport(used: map<string, int>, reports: seq<(string, int)>, ghost steps: seq<Step>,
                   ghost copy: map<string, int>, ghost order: seq<string>) returns (after: map<string, int>)
    requires reports == ReportOf(Run(steps).node, copy, order) && NoSharedPorts(copy) && EachOnce(order, copy.Keys)
    ensures after.Keys == used.Keys
    ensures forall u :: u in used ==>
              after[u] - used[u] ==
              Get(Run(steps + Entries(copy, order, true)).credited, u) - Get(Run(steps).credited, u)
  {
    after := AddTraffic(used, reports);
    forall u { EntriesCredit(steps, copy, order, copy.Keys, u); }
  }

  lemma EntryContinuesRun(steps: seq<Step>, step: Step)
    requires Admissible(steps) && step.ReportEntry? && Fair(Run(steps).node, step.user, step.port)
    ensures Admissible(steps + [step]) && Run(steps + [step]).node == Reported(Run(steps).node, step.port)
  {
    assert (steps + [step])[..|steps|] == steps;
    NextReports(Run(steps), step);
  }

  lemma NextReports(b: Books, step: Step)
    requires step.ReportEntry?
    ensures Next(b, step).node == Reported(b.node, step.port)
  {
  }

  // ----- Nobody pays too much -----

  /** The step hands a port to this user. */
  ghost predicate Takes(n: Node, step: Step, user: string) {
    step.Connect? && step.user == user && user !in n.conns
  }

  /** Every port this user took had no bytes waiting to be reported. */
  ghost predicate TookSettled(steps: seq<Step>, user: string) {
    steps != [] ==>
      var front, step := steps[..|steps| - 1], steps[|steps| - 1];
      TookSettled(front, user) && (Takes(Run(front).node, step, user) ==> Diff(Run(front).node, step.port) <= 0)
  }

  /** Every port this user took had counters that match the cache. */
  ghost predicate TookClean(steps: seq<Step>, user: string) {
    steps != [] ==>
      var front, step := steps[..|steps| - 1], steps[|steps| - 1];
      TookClean(front, user) && (Takes(Run(front).node, step, user) ==> Diff(Run(front).node, step.port) == 0)
  }

  /** What was relayed but not credited, except for what is pending. */
  ghost function Shortfall(b: Books, user: string): int {
    Get(b.undelivered, user) + Get(b.lost, user) + Get(b.inherited, user)
  }

  ghost predicate NoDebt(b: Books, user: string) {
    Shortfall(b, user) >= 0 && Shortfall(b, user) + Pending(b.node, user) >= 0
  }

  lemma ConnectKeepsNoDebt(b: Books, step: Step, user: string)
    requires NoDebt(b, user) && step.Connect? && (Takes(b.node, step, user) ==> Diff(b.node, step.port) <= 0)
    ensures NoDebt(Next(b, step), user)
  {
  }

  lemma RelayKeepsNoDebt(b: Books, step: Step, user: string)
    requires NoDebt(b, user) && step.Relay?
    ensures NoDebt(Next(b, step), user)
  {
    var n' := Relayed(b.node, step.port, step.up, step.down);
    assert Total(n'.store, step.port) == Total(b.node.store, step.port) + step.up + step.down;
    assert forall p :: p != step.port ==> Total(n'.store, p) == Total(b.node.store, p);
  }

  lemma ReportKeepsNoDebt(b: Books, step: Step, user: string)
    requires NoDebt(b, user) && PortsSound(b.node) && step.ReportEntry? && Fair(b.node, step.user, step.port)
    ensures NoDebt(Next(b, step), user)
  {
    if step.port in b.node.store {
      ReportShifts(b, step, user);
      var d := Diff(b.node, step.port);
      assert Get(Next(b, step).undelivered, user) ==
             Get(b.undelivered, user) + (if user == step.user && !step.delivered then d else 0) by {
        assert Next(b, step) == ReportNext(b, step.user, step.port, step.delivered);
      }
      assert Owns(b.node, user, step.port) ==> Pending(b.node, user) == d;
    }
  }

  lemma StepKeepsNoDebt(b: Books, step: Step, user: string)
    requires NoDebt(b, user) && PortsSound(b.node)
    requires Takes(b.node, step, user) ==> Diff(b.node, step.port) <= 0
    requires step.ReportEntry? ==> Fair(b.node, step.user, step.port)
    ensures NoDebt(Next(b, step), user)
  {
    match step
    case Connect(_, _) => ConnectKeepsNoDebt(b, step, user);
    case Relay(_, _, _) => RelayKeepsNoDebt(b, step, user);
    case ReportEntry(_, _, _) => ReportKeepsNoDebt(b, step, user);
    case Disconnect(_) => DisconnectShifts(b, step, user);
  }

  lemma {:induction false} NeverInDebt(steps: seq<Step>, user: string)
    requires Admissible(steps) && TookSettled(steps, user)
    ensures NoDebt(Run(steps), user)
  {
    if steps != [] {
      var front := steps[..|steps| - 1];
      NeverInDebt(front, user);
      PortsStaySound(front);
      StepKeepsNoDebt(Run(front), steps[|steps| - 1], user);
    }
  }

  lemma {:induction false} InheritedExact(steps: seq<Step>, user: string)
    requires TookSettled(steps, user)
    ensures Get(Run(steps).inherited, user) >= 0
    ensures Get(Run(steps).inherited, user) == 0 <==> TookClean(steps, user)
  {
    if steps != [] {
      InheritedExact(steps[..|steps| - 1], user);
      InheritedStep(Run(steps[..|steps| - 1]), steps[|steps| - 1], user);
    }
  }

  lemma InheritedStep(b: Books, step: Step, user: string)
    ensures Get(Next(b, step).inherited, user) ==
            Get(b.inherited, user) - if Takes(b.node, step, user) then Diff(b.node, step.port) else 0
  {
  }

  /**
  A user who never took a port with bytes waiting is never credited more than was relayed, reused ports
  and late bytes of others included. What is credited falls short by exactly the pending, lost and
  undelivered bytes if and only if the counters of every port taken matched the cache.
  */
  lemma NeverOverbilled(steps: seq<Step>, user: string)
    requires Admissible(steps) && TookSettled(steps, user)
    ensures var b := Run(steps);
            && Get(b.credited, user) <= Get(b.relayed, user)
            && (Get(b.credited, user) ==
                Get(b.relayed, user) - Pending(b.node, user) - Get(b.lost, user) - Get(b.undelivered, user)
                <==> TookClean(steps, user))
  {
    BytesAreConserved(steps, user);
    NeverInDebt(steps, user);
    InheritedExact(steps, user);
  }

  // ----- Bytes only on the ports of connected users -----

  ghost predicate OwnedRelays(steps: seq<Step>) {
    steps != [] ==>
      var front, step := steps[..|steps| - 1], steps[|steps| - 1];
      && OwnedRelays(front)
      && (step.Relay? ==> exists user :: Owns(Run(front).node, user, step.port))
  }

  ghost predicate CountersOwned(n: Node) {
    forall port :: port in n.store ==> exists user :: Owns(n, user, port)
  }

  lemma DisconnectKeepsOwned(n: Node, user: string)
    requires PortsSound(n) && CountersOwned(n)
    ensures CountersOwned(Disconnected(n, user))
  {
    var n' := Disconnected(n, user);
    forall port | port in n'.store ensures exists u :: Owns(n', u, port) {
      var u :| Owns(n, u, port);
      assert Owns(n', u, port);
    }
  }

  lemma ConnectKeepsOwned(n: Node, user: string, port: int)
    requires CountersOwned(n)
    ensures CountersOwned(Connected(n, user, port))
  {
    var n' := Connected(n, user, port);
    forall p | p in n'.store ensures exists u :: Owns(n', u, p) {
      var u :| Owns(n, u, p);
      assert Owns(n', u, p);
    }
  }

  lemma SameOwners(n: Node, n': Node, port: int)
    requires CountersOwned(n) && n'.conns == n.conns && n'.store.Keys <= n.store.Keys + {port}
    requires port in n'.store ==> exists user :: Owns(n, user, port)
    ensures CountersOwned(n')
  {
    forall p | p in n'.store ensures exists u :: Owns(n', u, p) {
      var u :| Owns(n, u, p);
      assert Owns(n', u, p);
    }
  }

  lemma {:induction false} CountersStayOwned(steps: seq<Step>)
    requires Admissible(steps) && OwnedRelays(steps)
    ensures CountersOwned(Run(steps).node)
  {
    if steps != [] {
      var front, step := steps[..|steps| - 1], steps[|steps| - 1];
      CountersStayOwned(front);
      PortsStaySound(front);
      var n := Run(front).node;
      match step
      case Connect(user, port) => ConnectKeepsOwned(n, user, port);
      case Relay(port, up, down) => SameOwners(n, Relayed(n, port, up, down), port);
      case ReportEntry(_, port, _) => SameOwners(n, Reported(n, port), port);
      case Disconnect(user) => DisconnectKeepsOwned(n, user);
    }
  }

  /** A free port has no counters; what it passes on is its cached total. */
  lemma FreshPort(n: Node, port: int)
    requires CountersOwned(n) && PortFree(n, port)
    ensures port !in n.store && Diff(n, port) == 0 - Total(n.cache, port)
  {
    assert forall u :: u in n.conns ==> n.conns[u] in n.conns.Values;
  }

  /** Then no port is ever handed out with bytes waiting: nobody can be overbilled. */
  lemma {:induction false} OwnedRelaysSettle(steps: seq<Step>, user: string)
    requires Admissible(steps) && OwnedRelays(steps)
    ensures TookSettled(steps, user)
  {
    if steps != [] {
      var front, step := steps[..|steps| - 1], steps[|steps| - 1];
      OwnedRelaysSettle(front, user);
      if step.Connect? {
        CountersStayOwned(front);
        FreshPort(Run(front).node, step.port);
      }
    }
  }

  // ----- One stay on a port -----

  /** Bytes relayed through a port. */
  function BytesOn(steps: seq<Step>, port: int): nat {
    if steps == [] then 0
    else BytesOn(steps[..|steps| - 1], port)
         + match steps[|steps| - 1]
           case Relay(p, up, down) => if p == port then up + down else 0
           case _ => 0
  }

  /** While a user stays on a port its counters only grow, by what passes through. */
  lemma StayStep(b: Books, step: Step, user: string, port: int)
    requires PortsSound(b.node) && Owns(b.node, user, port) && step != Disconnect(user)
    ensures Owns(Next(b, step).node, user, port)
    ensures Total(Next(b, step).node.store, port) == Total(b.node.store, port) + BytesOn([step], port)
  {
    assert [step][..0] == [];
    match step
    case Disconnect(other) => assert PortOf(b.node.conns, other) != port;
    case Relay(p, up, down) =>
      assert Total(Relayed(b.node, p, up, down).store, p) == Total(b.node.store, p) + up + down;
    case _ =>
  }

  lemma {:induction false} StayGrows(pre: seq<Step>, user: string, port: int, rest: seq<Step>)
    requires Admissible(pre + [Connect(user, port)] + rest) && user !in Run(pre).node.conns && Disconnect(user) !in rest
    ensures var n := Run(pre + [Connect(user, port)] + rest).node;
            Owns(n, user, port) && Total(n.store, port) == Total(Run(pre).node.store, port) + BytesOn(rest, port)
    decreases |rest|
  {
    var steps := pre + [Connect(user, port)] + rest;
    if rest == [] {
      assert steps == pre + [Connect(user, port)];
      RunOneMore(pre, Connect(user, port));
    } else {
      var front, last := rest[..|rest| - 1], rest[|rest| - 1];
      var before := pre + [Connect(user, port)] + front;
      assert steps == before + [last];
      AdmissibleFront(before, last);
      StayGrows(pre, user, port, front);
      PortsStaySound(before);
      RunOneMore(before, last);
      StayStep(Run(before), last, user, port);
      assert [last][..0] == [];
    }
  }

  lemma AdmissibleFront(steps: seq<Step>, step: Step)
    requires Admissible(steps + [step])
    ensures Admissible(steps)
  {
    assert (steps + [step])[..|steps|] == steps;
  }

  /**
  Over a whole stay on a port, whatever else happens, the differences billed add up to the bytes relayed
  plus what was waiting on the port when it was taken, less what is still pending. So once everything is
  reported the stay is billed at most what it relayed if and only if nothing was waiting: a guard the
  node could check before it hands out the port.
  */
  lemma StayBilledExactly(pre: seq<Step>, user: string, port: int, rest: seq<Step>)
    requires Admissible(pre + [Connect(user, port)] + rest) && user !in Run(pre).node.conns && Disconnect(user) !in rest
    ensures var b0, b := Run(pre), Run(pre + [Connect(user, port)] + rest);
            var billed := PortSum(b, port) - PortSum(b0, port);
            && billed == BytesOn(rest, port) + Diff(b0.node, port) - Pending(b.node, user)
            && (Pending(b.node, user) == 0 ==> (billed <= BytesOn(rest, port) <==> Diff(b0.node, port) <= 0))
  {
    StayGrows(pre, user, port, rest);
    DifferencesTelescope(pre, port);
    DifferencesTelescope(pre + [Connect(user, port)] + rest, port);
  }

  lemma RunOneMore(steps: seq<Step>, step: Step)
    ensures Run(steps + [step]) == Next(Run(steps), step)
  {
    assert (steps + [step])[..|steps|] == steps;
  }

  /**
  A reused port makes credit negative: the next user's first report is short by the whole
  total cached for the port.
  */
  lemma ReusedPortUndercredits(first: string, second: string, port: int, used: nat, more: nat)
    requires first != second && PortFree(Node(map[], map[], map[]), port)
    ensures var steps := [Connect(first, port)] + [Relay(port, used, 0)]
                         + [ReportEntry(first, port, true)] + [Disconnect(first)]
                         + [Connect(second, port)] + [Relay(port, more, 0)] + [ReportEntry(second, port, true)];
            Get(Run(steps).credited, second) == more - used && Get(Run(steps).relayed, second) == more
  {
    UsedPort(first, second, port, used);
    var s4 := [Connect(first, port)] + [Relay(port, used, 0)] + [ReportEntry(first, port, true)] + [Disconnect(first)];
    var s5 := s4 + [Connect(second, port)];
    var s6 := s5 + [Relay(port, more, 0)];
    RunOneMore(s4, Connect(second, port));
    RunOneMore(s5, Relay(port, more, 0));
    RunOneMore(s6, ReportEntry(second, port, true));
    var b5 := Run(s5);
    assert b5.node.conns == map[second := port];
    AttributedTo(b5, port, more, second);
  }

  /** What a port's user leaves behind: no counters, but a cached total. */
  lemma UsedPort(first: string, second: string, port: int, used: nat)
    requires first != second && PortFree(Node(map[], map[], map[]), port)
    ensures var b := Run([Connect(first, port)] + [Relay(port, used, 0)]
                         + [ReportEntry(first, port, true)] + [Disconnect(first)]);
            && b.node == Node(map[], map[], map[port := Stats(used, 0)])
            && Get(b.credited, second) == 0 && Get(b.relayed, second) == 0
  {
    var s1 := [Connect(first, port)];
    var s2 := s1 + [Relay(port, used, 0)];
    var s3 := s2 + [ReportEntry(first, port, true)];
    RunOneMore([], Connect(first, port));
    assert [] + s1 == s1;
    RunOneMore(s1, Relay(port, used, 0));
    RunOneMore(s2, ReportEntry(first, port, true));
    RunOneMore(s3, Disconnect(first));
    var b1 := Run(s1);
    assert b1.node.conns == map[first := port];
    AttributedTo(b1, port, used, second);
  }

  /** A report from an old copy of the connections bills the port's new user to the old one. */
  lemma StaleReportMiscredits(first: string, second: string, port: int, bytes: nat)
    requires first != second && PortFree(Node(map[], map[], map[]), port)
    ensures var steps := [Connect(first, port)] + [Disconnect(first)] + [Connect(second, port)]
                         + [Relay(port, bytes, 0)] + [ReportEntry(first, port, true)];
            Get(Run(steps).credited, first) == bytes && Get(Run(steps).relayed, first) == 0
  {
    var s1 := [Connect(first, port)];
    var s2 := s1 + [Disconnect(first)];
    var s3 := s2 + [Connect(second, port)];
    var s4 := s3 + [Relay(port, bytes, 0)];
    RunOneMore([], Connect(first, port));
    assert [] + s1 == s1;
    RunOneMore(s1, Disconnect(first));
    RunOneMore(s2, Connect(second, port));
    RunOneMore(s3, Relay(port, bytes, 0));
    RunOneMore(s4, ReportEntry(first, port, true));
    assert Run(s3).node.conns == map[second := port];
    AttributedTo(Run(s3), port, bytes, first);
  }

  /** Bytes counted on a port after its user left are billed to the next user of that port. */
  lemma LateRelayOverbills(first: string, second: string, port: int, bytes: nat)
    requires first != second && PortFree(Node(map[], map[], map[]), port)
    ensures var steps := [Connect(first, port)] + [Disconnect(first)] + [Relay(port, bytes, 0)]
                         + [Connect(second, port)] + [ReportEntry(second, port, true)];
            Get(Run(steps).credited, second) == bytes && Get(Run(steps).relayed, second) == 0
  {
    var s1 := [Connect(first, port)];
    var s2 := s1 + [Disconnect(first)];
    var s3 := s2 + [Relay(port, bytes, 0)];
    var s4 := s3 + [Connect(second, port)];
    RunOneMore([], Connect(first, port));
    assert [] + s1 == s1;
    RunOneMore(s1, Disconnect(first));
    RunOneMore(s2, Relay(port, bytes, 0));
    RunOneMore(s3, Connect(second, port));
    RunOneMore(s4, ReportEntry(second, port, true));
    assert Run(s2).node.conns == map[];
    AttributedTo(Run(s2), port, bytes, second);
  }
}
