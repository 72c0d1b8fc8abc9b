/**
Runs over the session map. First with every lock section a step of its own, the monitor working on an
old copy; then with whole ticks, for what heartbeats guarantee.
*/
module SessionRuns {
  import opened Registry
  import opened Sessions

  // ----- Every interleaving -----

  /** The monitor is between ticks, or holds a copy with users still to be written back. */
  datatype Phase = Resting | Writing(copied: SessionMap, todo: set<string>, now: int)

  /** `admitted` remembers every connection ever granted; it only serves the statements below. */
  datatype World = World(m: SessionMap, phase: Phase, admitted: set<(string, Conn)>)

  datatype Step =
    | Connect(user: string, conn: Conn)
    | ClientBeat(user: string, serviceID: string, now: int)
    | Prune(regs: seq<Registration>)
    | Copy(now: int)
    | WriteBack(user: string)
    | EvictUser(user: string)

  function Next(w: World, step: Step): World {
    match step
    case Connect(user, c) => w.(m := Admitted(w.m, user, c), admitted := w.admitted + {(user, c)})
    case ClientBeat(user, serviceID, now) => w.(m := Touched(w.m, user, serviceID, now))
    case Prune(regs) => w.(m := Pruned(w.m, regs))
    case Copy(now) => w.(phase := Writing(w.m, w.m.Keys, now))
    case WriteBack(user) =>
      if w.phase.Writing? && user in w.phase.todo then
        w.(m := WrittenBack(w.m, user, Of(w.phase.copied, user), w.phase.now),
          phase := w.phase.(todo := w.phase.todo - {user}))
      else w
    case EvictUser(user) => w.(m := w.m - {user})
  }

  function From(w: World, steps: seq<Step>): World {
    if steps == [] then w else Next(From(w, steps[..|steps| - 1]), steps[|steps| - 1])
  }

  function Run(steps: seq<Step>): World {
    From(World(map[], Resting, {}), steps)
  }

  ghost predicate Bounded(m: SessionMap) {
    forall user :: user in m ==> 1 <= |m[user]| <= MAX_CONNECTIONS_PER_USER
  }

  /** The connection was granted to the user; only its heartbeat time may have moved. */
  ghost predicate Granted(admitted: set<(string, Conn)>, user: string, c: Conn) {
    exists t :: (user, c.(lastBeat := t)) in admitted
  }

  ghost predicate AllGranted(admitted: set<(string, Conn)>, m: SessionMap) {
    forall user, c :: user in m && c in m[user] ==> Granted(admitted, user, c)
  }

  ghost predicate Invariant(w: World) {
    && Bounded(w.m) && AllGranted(w.admitted, w.m)
    && (w.phase.Writing? ==> Bounded(w.phase.copied) && AllGranted(w.admitted, w.phase.copied))
  }

  lemma {:induction false} KeepIsShorter(t: Test, l: seq<Conn>)
    ensures |Keep(t, l)| <= |l|
    ensures forall c :: c in Keep(t, l) ==> c in l
  {
    if l != [] {
      KeepIsShorter(t, l[..|l| - 1]);
    }
  }

  lemma GrantedMore(admitted: set<(string, Conn)>, more: set<(string, Conn)>, m: SessionMap)
    requires AllGranted(admitted, m) && admitted <= more
    ensures AllGranted(more, m)
  {
    forall user, c | user in m && c in m[user] ensures Granted(more, user, c) {
      var t :| (user, c.(lastBeat := t)) in admitted;
      assert (user, c.(lastBeat := t)) in more;
    }
  }

  lemma AdmitKeeps(admitted: set<(string, Conn)>, m: SessionMap, user: string, c: Conn)
    requires Bounded(m) && AllGranted(admitted, m)
    ensures Bounded(Admitted(m, user, c)) && AllGranted(admitted + {(user, c)}, Admitted(m, user, c))
  {
    var more, m' := admitted + {(user, c)}, Admitted(m, user, c);
    GrantedMore(admitted, more, m);
    assert Granted(more, user, c) by { assert c.(lastBeat := c.lastBeat) == c; }
    forall u, d | u in m' && d in m'[u] ensures Granted(more, u, d) {
      assert d == c || d in Of(m, u);
    }
  }

  lemma TouchKeeps(admitted: set<(string, Conn)>, m: SessionMap, user: string, serviceID: string, now: int)
    requires Bounded(m) && AllGranted(admitted, m)
    ensures Bounded(Touched(m, user, serviceID, now)) && AllGranted(admitted, Touched(m, user, serviceID, now))
  {
    var l, m' := Of(m, user), Touched(m, user, serviceID, now);
    var k := FirstTo(l, serviceID);
    if k < |l| {
      assert Granted(admitted, user, l[k]);
      var t :| (user, l[k].(lastBeat := t)) in admitted;
      assert l[k].(lastBeat := now).(lastBeat := t) == l[k].(lastBeat := t);
      assert Granted(admitted, user, l[k].(lastBeat := now));
      forall d | d in m'[user] ensures Granted(admitted, user, d) {
        assert d == l[k].(lastBeat := now) || d in l;
      }
    }
  }

  lemma PruneKeeps(admitted: set<(string, Conn)>, m: SessionMap, regs: seq<Registration>)
    requires Bounded(m) && AllGranted(admitted, m)
    ensures Bounded(Pruned(m, regs)) && AllGranted(admitted, Pruned(m, regs))
  {
    forall user | user in m ensures |Keep(NodeUp(regs), m[user])| <= |m[user]|
                                    && forall c :: c in Keep(NodeUp(regs), m[user]) ==> c in m[user] {
      KeepIsShorter(NodeUp(regs), m[user]);
    }
  }

  lemma WriteBackKeeps(admitted: set<(string, Conn)>, m: SessionMap, copied: SessionMap, user: string, now: int)
    requires Bounded(m) && AllGranted(admitted, m) && Bounded(copied) && AllGranted(admitted, copied)
    ensures Bounded(WrittenBack(m, user, Of(copied, user), now))
    ensures AllGranted(admitted, WrittenBack(m, user, Of(copied, user), now))
  {
    KeepIsShorter(BeatRecent(now), Of(copied, user));
  }

  lemma StepKeepsInvariant(w: World, step: Step)
    requires Invariant(w)
    ensures Invariant(Next(w, step))
  {
    match step
    case Connect(user, c) =>
      AdmitKeeps(w.admitted, w.m, user, c);
      if w.phase.Writing? { GrantedMore(w.admitted, w.admitted + {(user, c)}, w.phase.copied); }
    case ClientBeat(user, serviceID, now) => TouchKeeps(w.admitted, w.m, user, serviceID, now);
    case Prune(regs) => PruneKeeps(w.admitted, w.m, regs);
    case Copy(_) =>
    case WriteBack(user) =>
      if w.phase.Writing? { WriteBackKeeps(w.admitted, w.m, w.phase.copied, user, w.phase.now); }
    case EvictUser(_) =>
  }

  lemma {:induction false} RunKeepsInvariant(steps: seq<Step>)
    ensures Invariant(Run(steps))
  {
    if steps != [] {
      RunKeepsInvariant(steps[..|steps| - 1]);
      StepKeepsInvariant(Run(steps[..|steps| - 1]), steps[|steps| - 1]);
    }
  }

  /**
  Under every interleaving, although write-back uses an old copy, a user in the map has one or two
  connections, and each of them was granted to that user by a Connect.
  */
  lemma SessionsBoundedAndGranted(steps: seq<Step>, user: string)
    requires user in Run(steps).m
    ensures 1 <= |Run(steps).m[user]| <= MAX_CONNECTIONS_PER_USER
    ensures forall c :: c in Run(steps).m[user] ==> Granted(Run(steps).admitted, user, c)
  {
    RunKeepsInvariant(steps);
  }

  lemma RunOneMore(steps: seq<Step>, step: Step)
    ensures Run(steps + [step]) == Next(Run(steps), step)
  {
    assert (steps + [step])[..|steps|] == steps;
  }

  lemma KeepOne(t: Test, c: Conn)
    ensures Keep(t, [c]) == if Passes(t, c) then [c] else []
  {
    assert [c][..0] == [];
  }

  lemma KeepTwo(t: Test, c: Conn, d: Conn)
    ensures Keep(t, [c, d]) == (if Passes(t, c) then [c] else []) + (if Passes(t, d) then [d] else [])
  {
    KeepOne(t, c);
    assert [c, d][..1] == [c];
  }

  // ----- What a write-back from an old copy does -----

  /** Steps of others while the monitor is between its copy and its next tick. */
  ghost predicate WithinTick(steps: seq<Step>) {
    forall step :: step in steps ==> !step.Prune? && !step.Copy?
  }

  ghost predicate NoConnectOrEvict(steps: seq<Step>, user: string) {
    forall step :: step in steps ==> !(step.Connect? && step.user == user) && step != EvictUser(user)
  }

  /** Some copied connection of the user is recent enough for the tick's clock. */
  ghost predicate CopyAlive(phase: Phase, user: string)
    requires phase.Writing?
  {
    exists c :: c in Of(phase.copied, user) && phase.now - c.lastBeat <= HEARTBEAT_TIMEOUT
  }

  /** The copy is untouched; the user is still to be written back unless that has happened. */
  ghost predicate SameCopy(phase: Phase, later: Phase, user: string, written: bool)
    requires phase.Writing?
  {
    && later.Writing? && later.copied == phase.copied && later.now == phase.now
    && (user in later.todo <==> user in phase.todo && !written)
  }

  lemma FrontOf<T>(s: seq<T>)
    requires s != []
    ensures forall x :: x in s <==> x in s[..|s| - 1] || x == s[|s| - 1]
  {
    assert s == s[..|s| - 1] + [s[|s| - 1]];
  }

  lemma {:induction false} CopyStays(w: World, steps: seq<Step>, user: string)
    requires w.phase.Writing? && forall step :: step in steps ==> !step.Copy?
    ensures SameCopy(w.phase, From(w, steps).phase, user, WriteBack(user) in steps)
  {
    if steps != [] {
      FrontOf(steps);
      CopyStays(w, steps[..|steps| - 1], user);
    }
  }

  lemma FromOneMore(w: World, steps: seq<Step>, step: Step)
    ensures From(w, steps + [step]) == Next(From(w, steps), step)
  {
    assert (steps + [step])[..|steps|] == steps;
  }

  lemma KeepsAny(phase: Phase, user: string)
    requires phase.Writing?
    ensures Keep(BeatRecent(phase.now), Of(phase.copied, user)) != [] <==> CopyAlive(phase, user)
  {
    var l := Of(phase.copied, user);
    var kept := Keep(BeatRecent(phase.now), l);
    forall c ensures c in kept <==> c in l && Passes(BeatRecent(phase.now), c) {
      KeepPasses(BeatRecent(phase.now), l, c);
    }
    if kept != [] { assert kept[0] in kept; }
  }

  /**
  Whatever happened since the copy (eviction, new connections, heartbeats), the user's write-back leaves
  exactly the copied connections that are recent; the user is in the map if and only if there is one.
  */
  lemma WriteBackForgets(w: World, steps: seq<Step>, user: string)
    requires w.phase.Writing? && user in w.phase.todo
    requires forall step :: step in steps ==> !step.Copy? && step != WriteBack(user)
    ensures var m := From(w, steps + [WriteBack(user)]).m;
            && Of(m, user) == Keep(BeatRecent(w.phase.now), Of(w.phase.copied, user))
            && (user in m <==> CopyAlive(w.phase, user))
  {
    CopyStays(w, steps, user);
    FromOneMore(w, steps, WriteBack(user));
    KeepsAny(w.phase, user);
    PutOne(From(w, steps).m, user, Keep(BeatRecent(w.phase.now), Of(w.phase.copied, user)));
  }

  /** Only the user's own write-back decides anew whether the user is in the map. */
  lemma StepPresence(w: World, step: Step, user: string)
    requires w.phase.Writing? && !step.Prune? && !step.Copy? && NoConnectOrEvict([step], user)
    ensures user in Next(w, step).m <==>
            if step == WriteBack(user) && user in w.phase.todo then CopyAlive(w.phase, user) else user in w.m
  {
    assert step in [step];
    match step
    case WriteBack(u) => if u == user { KeepsAny(w.phase, user); }
    case _ =>
  }

  /**
  An eviction made while the monitor holds a copy is undone by the end of the tick if and only if the
  user was still to be written back, that has happened, and some copied connection is recent.
  */
  lemma {:induction false} EvictionIsUndone(w: World, rest: seq<Step>, user: string)
    requires w.phase.Writing? && WithinTick(rest) && NoConnectOrEvict(rest, user)
    ensures user in From(Next(w, EvictUser(user)), rest).m
            <==> user in w.phase.todo && WriteBack(user) in rest && CopyAlive(w.phase, user)
  {
    if rest != [] {
      var w' := Next(w, EvictUser(user));
      var front := rest[..|rest| - 1];
      FrontOf(rest);
      EvictionIsUndone(w, front, user);
      CopyStays(w', front, user);
      StepPresence(From(w', front), rest[|rest| - 1], user);
    }
  }

  ghost predicate NoStepOf(steps: seq<Step>, user: string) {
    NoConnectOrEvict(steps, user) && forall step :: step in steps ==> !(step.ClientBeat? && step.user == user)
  }

  /** Only the user's own steps and write-back touch the user's connections. */
  lemma StepLeavesList(w: World, step: Step, user: string)
    requires w.phase.Writing? && !step.Prune? && !step.Copy? && NoStepOf([step], user)
    ensures Of(Next(w, step).m, user) ==
            if step == WriteBack(user) && user in w.phase.todo
            then Keep(BeatRecent(w.phase.now), Of(w.phase.copied, user))
            else Of(w.m, user)
  {
    assert step in [step];
  }

  /**
  An entry made since the copy, by a first connection, a reconnection or a heartbeat, survives the rest of
  the tick if and only if its user was not among those still to be written back, or has not been yet.
  */
  lemma {:induction false} NewEntryIsLost(w: World, rest: seq<Step>, user: string, c: Conn)
    requires w.phase.Writing? && WithinTick(rest) && NoStepOf(rest, user)
    requires c in Of(w.m, user) && c !in Of(w.phase.copied, user)
    ensures c in Of(From(w, rest).m, user) <==> !(user in w.phase.todo && WriteBack(user) in rest)
  {
    if rest != [] {
      var front, last := rest[..|rest| - 1], rest[|rest| - 1];
      FrontOf(rest);
      NewEntryIsLost(w, front, user, c);
      CopyStays(w, front, user);
      StepLeavesList(From(w, front), last, user);
      KeepPasses(BeatRecent(w.phase.now), Of(w.phase.copied, user), c);
    }
  }

  /**
  A heartbeat in the middle of a tick counts after it if and only if its user is not written back in the rest of
  it.
  */
  lemma BeatIsForgotten(w: World, rest: seq<Step>, user: string, serviceID: string, now: int)
    requires w.phase.Writing? && WithinTick(rest) && NoStepOf(rest, user)
    requires FirstTo(Of(w.m, user), serviceID) < |Of(w.m, user)|
    requires Of(w.m, user)[FirstTo(Of(w.m, user), serviceID)].(lastBeat := now) !in Of(w.phase.copied, user)
    ensures Of(w.m, user)[FirstTo(Of(w.m, user), serviceID)].(lastBeat := now)
              in Of(From(Next(w, ClientBeat(user, serviceID, now)), rest).m, user)
            <==> !(user in w.phase.todo && WriteBack(user) in rest)
  {
    var w' := Next(w, ClientBeat(user, serviceID, now));
    var k := FirstTo(Of(w.m, user), serviceID);
    assert Of(w'.m, user)[k] == Of(w.m, user)[k].(lastBeat := now);
    NewEntryIsLost(w', rest, user, Of(w.m, user)[k].(lastBeat := now));
  }

  /** The list holds the connection, whenever it was last refreshed. */
  ghost predicate Present(l: seq<Conn>, c: Conn) {
    exists i :: 0 <= i < |l| && l[i].(lastBeat := c.lastBeat) == c
  }

  lemma TouchKeepsPresent(m: SessionMap, user: string, serviceID: string, now: int, c: Conn)
    ensures Present(Of(Touched(m, user, serviceID, now), user), c) <==> Present(Of(m, user), c)
  {
    var l, l' := Of(m, user), Of(Touched(m, user, serviceID, now), user);
    assert |l| == |l'| && forall i :: 0 <= i < |l| ==> l'[i].(lastBeat := c.lastBeat) == l[i].(lastBeat := c.lastBeat);
  }

  lemma KeepIsCopied(t: Test, l: seq<Conn>, c: Conn)
    requires Present(Keep(t, l), c)
    ensures Present(l, c)
  {
    KeepIsShorter(t, l);
    var i :| 0 <= i < |Keep(t, l)| && Keep(t, l)[i].(lastBeat := c.lastBeat) == c;
    assert Keep(t, l)[i] in l;
  }

  /** The same for a connection of which the copy holds no earlier entry, with heartbeats going on. */
  lemma {:induction false} NewConnectionIsLost(w: World, rest: seq<Step>, user: string, c: Conn)
    requires w.phase.Writing? && WithinTick(rest) && NoConnectOrEvict(rest, user)
    requires Present(Of(w.m, user), c) && !Present(Of(w.phase.copied, user), c)
    ensures Present(Of(From(w, rest).m, user), c) <==> !(user in w.phase.todo && WriteBack(user) in rest)
  {
    if rest != [] {
      var front, last := rest[..|rest| - 1], rest[|rest| - 1];
      FrontOf(rest);
      NewConnectionIsLost(w, front, user, c);
      CopyStays(w, front, user);
      var m := From(w, front).m;
      if last.ClientBeat? && last.user == user {
        TouchKeepsPresent(m, user, last.serviceID, last.now, c);
      }
      if last == WriteBack(user) && Present(Keep(BeatRecent(w.phase.now), Of(w.phase.copied, user)), c) {
        KeepIsCopied(BeatRecent(w.phase.now), Of(w.phase.copied, user), c);
      }
    }
  }

  /** The two failures as runs from the start: evicted yet present, admitted yet gone. */
  lemma OldCopyRuns(user: string, kept: Conn, lost: Conn)
    ensures user in Run([Connect(user, kept), Copy(kept.lastBeat), EvictUser(user), WriteBack(user)]).m
    ensures Run([Connect(user, kept), Copy(kept.lastBeat), Connect(user, lost), WriteBack(user)]).m ==
            map[user := [kept]]
  {
    var now := kept.lastBeat;
    var steps := [Connect(user, kept), Copy(now)];
    assert steps == [Connect(user, kept)] + [Copy(now)] && [] + [Connect(user, kept)] == [Connect(user, kept)];
    RunOneMore([], Connect(user, kept));
    RunOneMore([Connect(user, kept)], Copy(now));
    KeepOne(BeatRecent(now), kept);
    assert steps + [EvictUser(user)] + [WriteBack(user)] ==
           [Connect(user, kept), Copy(now), EvictUser(user), WriteBack(user)];
    RunOneMore(steps, EvictUser(user));
    RunOneMore(steps + [EvictUser(user)], WriteBack(user));
    assert steps + [Connect(user, lost)] + [WriteBack(user)]
        == [Connect(user, kept), Copy(now), Connect(user, lost), WriteBack(user)];
    RunOneMore(steps, Connect(user, lost));
    RunOneMore(steps + [Connect(user, lost)], WriteBack(user));
  }

  lemma ConnectedAndCopied(user: string, c: Conn)
    ensures var w := Run([Connect(user, c), Copy(c.lastBeat)]);
            w.m == map[user := [c]] && w.phase == Writing(map[user := [c]], {user}, c.lastBeat)
  {
    var s1, s2 := Connect(user, c), Copy(c.lastBeat);
    assert [] + [s1] == [s1] && [s1] + [s2] == [s1, s2];
    RunOneMore([], s1);
    RunOneMore([s1], s2);
    assert [] + [c] == [c];
  }

  lemma TouchOnly(user: string, c: Conn, beat: int)
    ensures Touched(map[user := [c]], user, c.serviceID, beat) == map[user := [c.(lastBeat := beat)]]
  {
    assert FirstTo([c], c.serviceID) == 0 && [c][0 := c.(lastBeat := beat)] == [c.(lastBeat := beat)];
  }

  /** A connection copied, refreshed, and written back with the copied time. */
  lemma WrittenBackOld(user: string, c: Conn, beat: int)
    ensures var steps := [Connect(user, c), Copy(c.lastBeat)] + [ClientBeat(user, c.serviceID, beat)];
            && Run(steps).m == map[user := [c.(lastBeat := beat)]]
            && Run(steps + [WriteBack(user)]).m == map[user := [c]]
  {
    var steps, step := [Connect(user, c), Copy(c.lastBeat)], ClientBeat(user, c.serviceID, beat);
    ConnectedAndCopied(user, c);
    TouchOnly(user, c, beat);
    RunOneMore(steps, step);
    RunOneMore(steps + [step], WriteBack(user));
    KeepOne(BeatRecent(c.lastBeat), c);
  }

  /**
  Between lock sections there are false timeouts: heartbeats at most 30 seconds apart, the node up, and
  still the second tick drops the connection, because the write-back of the first forgot the beat.
  */
  lemma ForgottenBeatRun(user: string, c: Conn, beat: int, node: Registration, now: int)
    requires c.serviceID == node.id && c.nodeIP == node.publicIP
    requires c.lastBeat <= beat <= now && beat - c.lastBeat <= HEARTBEAT_TIMEOUT && now - beat <= HEARTBEAT_TIMEOUT
    requires now - c.lastBeat > HEARTBEAT_TIMEOUT
    ensures var steps := [Connect(user, c), Copy(c.lastBeat)] + [ClientBeat(user, c.serviceID, beat)]
                         + [WriteBack(user)]
                         + [Prune([node])] + [Copy(now)] + [WriteBack(user)];
            user !in Run(steps).m
  {
    WrittenBackOld(user, c, beat);
    var steps := [Connect(user, c), Copy(c.lastBeat)] + [ClientBeat(user, c.serviceID, beat)] + [WriteBack(user)];
    RunOneMore(steps, Prune([node]));
    RunOneMore(steps + [Prune([node])], Copy(now));
    RunOneMore(steps + [Prune([node])] + [Copy(now)], WriteBack(user));
    OnlyOneDrops(user, c, node, now);
  }

  lemma OnlyOneDrops(user: string, c: Conn, node: Registration, now: int)
    requires c.serviceID == node.id && c.nodeIP == node.publicIP && now - c.lastBeat > HEARTBEAT_TIMEOUT
    ensures Pruned(map[user := [c]], [node]) == map[user := [c]]
    ensures user !in WrittenBack(map[user := [c]], user, [c], now)
  {
    assert [node][0] == node;
    KeepOne(NodeUp([node]), c);
    KeepOne(BeatRecent(now), c);
  }

  function WriteBacks(order: seq<string>): (steps: seq<Step>)
    ensures |steps| == |order| && forall i :: 0 <= i < |order| ==> steps[i] == WriteBack(order[i])
  {
    seq(|order|, i requires 0 <= i < |order| => WriteBack(order[i]))
  }

  /** After the copy, with the users in `order` written back and nothing else in between. */
  ghost predicate PartlyWritten(w: World, copied: SessionMap, order: seq<string>, now: int) {
    && w.phase.Writing? && w.phase.copied == copied && w.phase.now == now
    && (forall u :: u in copied && u !in order ==> u in w.phase.todo)
    && (forall u :: Of(w.m, u) == if u in order then Keep(BeatRecent(now), Of(copied, u)) else Of(copied, u))
    && (forall u :: u in w.m ==> w.m[u] != [])
  }

  lemma WriteOneMore(w: World, copied: SessionMap, order: seq<string>, user: string, now: int)
    requires PartlyWritten(w, copied, order, now) && user in copied && user !in order
    ensures PartlyWritten(Next(w, WriteBack(user)), copied, order + [user], now)
  {
    var w', kept := Next(w, WriteBack(user)), Keep(BeatRecent(now), copied[user]);
    assert w'.m == Put(w.m, user, kept) && w'.phase == w.phase.(todo := w.phase.todo - {user});
    PutOne(w.m, user, kept);
    forall u
      ensures Of(w'.m, u) == if u in order + [user] then Keep(BeatRecent(now), Of(copied, u)) else Of(copied, u)
    {
      assert u in order + [user] <==> u in order || u == user;
    }
  }

  lemma PutOne(m: SessionMap, user: string, l: seq<Conn>)
    ensures forall u :: Of(Put(m, user, l), u) == if u == user then l else Of(m, u)
    ensures (forall u :: u in m ==> m[u] != []) ==> forall u :: u in Put(m, user, l) ==> Put(m, user, l)[u] != []
  {
  }

  lemma {:induction false} WriteBacksWrite(steps: seq<Step>, copied: SessionMap, order: seq<string>, now: int)
    requires PartlyWritten(Run(steps), copied, [], now)
    requires (forall u :: u in order ==> u in copied) && forall i, j :: 0 <= i < j < |order| ==> order[i] != order[j]
    ensures PartlyWritten(Run(steps + WriteBacks(order)), copied, order, now)
    decreases |order|
  {
    if order == [] {
      assert steps + WriteBacks(order) == steps;
    } else {
      var front, user := order[..|order| - 1], order[|order| - 1];
      assert order == front + [user];
      WriteBacksWrite(steps, copied, front, now);
      assert steps + WriteBacks(order) == steps + WriteBacks(front) + [WriteBack(user)];
      RunOneMore(steps + WriteBacks(front), WriteBack(user));
      WriteOneMore(Run(steps + WriteBacks(front)), copied, front, user, now);
    }
  }

  /** The monitor's steps with nothing in between amount to one whole tick, whatever the order of users. */
  lemma UninterruptedTick(steps: seq<Step>, regs: seq<Registration>, now: int, order: seq<string>)
    requires forall u :: u in order <==> u in Pruned(Run(steps).m, regs)
    requires forall i, j :: 0 <= i < j < |order| ==> order[i] != order[j]
    ensures Run(steps + [Prune(regs)] + [Copy(now)] + WriteBacks(order)).m == Ticked(Run(steps).m, regs, now)
  {
    var m := Run(steps).m;
    var copied := Pruned(m, regs);
    RunOneMore(steps, Prune(regs));
    RunOneMore(steps + [Prune(regs)], Copy(now));
    WriteBacksWrite(steps + [Prune(regs)] + [Copy(now)], copied, order, now);
    var m' := Run(steps + [Prune(regs)] + [Copy(now)] + WriteBacks(order)).m;
    forall u | u in m' ensures u in copied {
      assert Of(m', u) == m'[u];
    }
    TickedFrom(m, regs, now, m');
  }

  // ----- Whole ticks: what heartbeats guarantee -----

  datatype Event =
    | Joins(user: string, conn: Conn)
    | Beats(user: string, serviceID: string, now: int)
    | Tick(regs: seq<Registration>, now: int)
    | Evicts(user: string)

  function After(m: SessionMap, e: Event): SessionMap {
    match e
    case Joins(user, c) => Admitted(m, user, c)
    case Beats(user, serviceID, now) => Touched(m, user, serviceID, now)
    case Tick(regs, now) => Ticked(m, regs, now)
    case Evicts(user) => m - {user}
  }

  function AfterAll(m: SessionMap, es: seq<Event>): SessionMap {
    if es == [] then m else After(AfterAll(m, es[..|es| - 1]), es[|es| - 1])
  }

  /** The lock sections an event consists of; a tick writes its users back in some order. */
  function StepsOf(e: Event, order: seq<string>): seq<Step> {
    match e
    case Joins(user, c) => [Connect(user, c)]
    case Beats(user, serviceID, now) => [ClientBeat(user, serviceID, now)]
    case Tick(regs, now) => [Prune(regs)] + [Copy(now)] + WriteBacks(order)
    case Evicts(user) => [EvictUser(user)]
  }

  /** Every event is a run of lock sections with nothing in between: these runs are among the ones above. */
  lemma EventIsSteps(steps: seq<Step>, e: Event, order: seq<string>)
    requires e.Tick? ==> forall u :: u in order <==> u in Pruned(Run(steps).m, e.regs)
    requires forall i, j :: 0 <= i < j < |order| ==> order[i] != order[j]
    ensures Run(steps + StepsOf(e, order)).m == After(Run(steps).m, e)
  {
    if e.Tick? {
      TickIsSteps(steps, e.regs, e.now, order);
    } else {
      SingleStep(Run(steps), e, order);
      RunOneMore(steps, StepsOf(e, order)[0]);
    }
  }

  lemma TickIsSteps(steps: seq<Step>, regs: seq<Registration>, now: int, order: seq<string>)
    requires forall u :: u in order <==> u in Pruned(Run(steps).m, regs)
    requires forall i, j :: 0 <= i < j < |order| ==> order[i] != order[j]
    ensures Run(steps + ([Prune(regs)] + [Copy(now)] + WriteBacks(order))).m == Ticked(Run(steps).m, regs, now)
  {
    UninterruptedTick(steps, regs, now, order);
    ConcatFour(steps, [Prune(regs)], [Copy(now)], WriteBacks(order));
  }

  lemma ConcatFour(a: seq<Step>, b: seq<Step>, c: seq<Step>, d: seq<Step>)
    ensures a + (b + c + d) == a + b + c + d
  {
  }

  lemma SingleStep(w: World, e: Event, order: seq<string>)
    requires !e.Tick?
    ensures |StepsOf(e, order)| == 1 && StepsOf(e, order) == [StepsOf(e, order)[0]]
    ensures Next(w, StepsOf(e, order)[0]).m == After(w.m, e)
  {
  }

  /** When the client last sent a heartbeat for this user and service. */
  function LastBeat(start: int, es: seq<Event>, user: string, serviceID: string): int {
    if es == [] then start
    else match es[|es| - 1]
      case Beats(u, s, now) =>
        if u == user && s == serviceID then now else LastBeat(start, es[..|es| - 1], user, serviceID)
      case _ => LastBeat(start, es[..|es| - 1], user, serviceID)
  }

  /** The user's first connection to the service is the given one, last refreshed at `t`. */
  ghost predicate Holds(m: SessionMap, user: string, c: Conn, t: int) {
    var k := FirstTo(Of(m, user), c.serviceID);
    k < |Of(m, user)| && Of(m, user)[k] == c.(lastBeat := t)
  }

  /** The event leaves the connection `c` in place, heartbeat timeouts aside. */
  ghost predicate Undisturbing(m: SessionMap, e: Event, user: string, c: Conn) {
    match e
    case Joins(u, _) =>
      u == user ==> |Of(m, user)| < MAX_CONNECTIONS_PER_USER || Of(m, user)[0].serviceID != c.serviceID
    case Beats(_, _, _) => true
    case Tick(regs, now) => Passes(NodeUp(regs), c)
    case Evicts(u) => u != user
  }

  /** Nothing in the event is meant to end the connection `c`, last refreshed at `t`. */
  ghost predicate Harmless(m: SessionMap, e: Event, user: string, c: Conn, t: int) {
    Undisturbing(m, e, user, c) && (e.Tick? ==> e.now - t <= HEARTBEAT_TIMEOUT)
  }

  ghost predicate HarmlessRun(m: SessionMap, es: seq<Event>, user: string, c: Conn, start: int) {
    es != [] ==>
      var front := es[..|es| - 1];
      && HarmlessRun(m, front, user, c, start)
      && Harmless(AfterAll(m, front), es[|es| - 1], user, c, LastBeat(start, front, user, c.serviceID))
  }

  /** Filtering keeps the first connection to a service if that one passes. */
  lemma {:induction false} KeepFirst(t: Test, l: seq<Conn>, serviceID: string)
    requires FirstTo(l, serviceID) < |l| && Passes(t, l[FirstTo(l, serviceID)])
    ensures var l', k := Keep(t, l), FirstTo(l, serviceID);
            FirstTo(l', serviceID) < |l'| && l'[FirstTo(l', serviceID)] == l[k]
  {
    var k, front, last := FirstTo(l, serviceID), l[..|l| - 1], l[|l| - 1];
    if k == |front| {
      KeepNone(t, front, serviceID);
      FirstAt(Keep(t, l), serviceID, |Keep(t, front)|);
    } else {
      FirstAt(front, serviceID, k);
      KeepFirst(t, front, serviceID);
      FirstAt(Keep(t, l), serviceID, FirstTo(Keep(t, front), serviceID));
    }
  }

  lemma FirstAt(l: seq<Conn>, serviceID: string, k: nat)
    requires k < |l| && l[k].serviceID == serviceID && forall i :: 0 <= i < k ==> l[i].serviceID != serviceID
    ensures FirstTo(l, serviceID) == k
  {
  }

  lemma KeepNone(t: Test, l: seq<Conn>, serviceID: string)
    requires forall i :: 0 <= i < |l| ==> l[i].serviceID != serviceID
    ensures forall i :: 0 <= i < |Keep(t, l)| ==> Keep(t, l)[i].serviceID != serviceID
  {
    KeepIsShorter(t, l);
    forall i | 0 <= i < |Keep(t, l)| ensures Keep(t, l)[i].serviceID != serviceID {
      assert Keep(t, l)[i] in l;
    }
  }

  lemma TickHolds(m: SessionMap, regs: seq<Registration>, now: int, user: string, c: Conn, t: int)
    requires Holds(m, user, c, t) && Passes(NodeUp(regs), c) && now - t <= HEARTBEAT_TIMEOUT
    ensures Holds(Ticked(m, regs, now), user, c, t)
  {
    var l := m[user];
    KeepFirst(NodeUp(regs), l, c.serviceID);
    KeepFirst(BeatRecent(now), Keep(NodeUp(regs), l), c.serviceID);
    assert Of(Ticked(m, regs, now), user) == Survivors(l, regs, now);
  }

  lemma JoinHolds(m: SessionMap, other: Conn, user: string, c: Conn, t: int)
    requires Holds(m, user, c, t)
    requires |Of(m, user)| < MAX_CONNECTIONS_PER_USER || Of(m, user)[0].serviceID != c.serviceID
    ensures Holds(Admitted(m, user, other), user, c, t)
  {
    var l, l' := Of(m, user), Of(Admitted(m, user, other), user);
    var k := FirstTo(l, c.serviceID);
    FirstAt(l', c.serviceID, if |l| >= MAX_CONNECTIONS_PER_USER then k - 1 else k);
  }

  lemma BeatHolds(m: SessionMap, u: string, serviceID: string, now: int, user: string, c: Conn, t: int)
    requires Holds(m, user, c, t)
    ensures Holds(Touched(m, u, serviceID, now), user, c, if u == user && serviceID == c.serviceID then now else t)
  {
    if u == user {
      var l, l' := Of(m, user), Of(Touched(m, u, serviceID, now), user);
      FirstAt(l', c.serviceID, FirstTo(l, c.serviceID));
    }
  }

  /**
  No false timeout: a connection that is its user's first to that service, whose node stays registered,
  that is not evicted and whose client beats at least every 30 seconds is still there after every run.
  */
  lemma {:induction false} BeatingConnectionSurvives(m: SessionMap, es: seq<Event>, user: string, c: Conn, start: int)
    requires Holds(m, user, c, start) && HarmlessRun(m, es, user, c, start)
    ensures Holds(AfterAll(m, es), user, c, LastBeat(start, es, user, c.serviceID))
  {
    if es != [] {
      var front, e := es[..|es| - 1], es[|es| - 1];
      BeatingConnectionSurvives(m, front, user, c, start);
      var m', t := AfterAll(m, front), LastBeat(start, front, user, c.serviceID);
      match e
      case Joins(u, other) => if u == user { JoinHolds(m', other, user, c, t); }
      case Beats(u, s, now) => BeatHolds(m', u, s, now, user, c, t);
      case Tick(regs, now) => TickHolds(m', regs, now, user, c, t);
      case Evicts(_) =>
    }
  }

  // ----- Punctual clients -----

  /** The clock of the last heartbeat or tick. */
  function Clock(start: int, es: seq<Event>): int {
    if es == [] then start
    else if es[|es| - 1].Beats? || es[|es| - 1].Tick? then es[|es| - 1].now
    else Clock(start, es[..|es| - 1])
  }

  /**
  Nothing but timeouts could end the connection, clocks never go back, and the client's heartbeats are at most
  30 s apart.
  */
  ghost predicate PunctualRun(m: SessionMap, es: seq<Event>, user: string, c: Conn, start: int) {
    es != [] ==>
      var front, e := es[..|es| - 1], es[|es| - 1];
      && PunctualRun(m, front, user, c, start)
      && Undisturbing(AfterAll(m, front), e, user, c)
      && Clock(start, front) <= Clock(start, es)
      && (e.Beats? && e.user == user && e.serviceID == c.serviceID ==>
            e.now - LastBeat(start, front, user, c.serviceID) <= HEARTBEAT_TIMEOUT)
  }

  lemma {:induction false} PunctualIsHarmless(m: SessionMap, es: seq<Event>, user: string, c: Conn, start: int)
    requires PunctualRun(m, es, user, c, start)
    requires Clock(start, es) - LastBeat(start, es, user, c.serviceID) <= HEARTBEAT_TIMEOUT
    ensures HarmlessRun(m, es, user, c, start)
  {
    if es != [] {
      PunctualIsHarmless(m, es[..|es| - 1], user, c, start);
    }
  }

  /**
  A client whose heartbeats are never more than 30 seconds apart, up to the present, keeps its first
  connection to the service over every time-ordered run.
  */
  lemma PunctualClientSurvives(m: SessionMap, es: seq<Event>, user: string, c: Conn, start: int)
    requires Holds(m, user, c, start) && PunctualRun(m, es, user, c, start)
    requires Clock(start, es) - LastBeat(start, es, user, c.serviceID) <= HEARTBEAT_TIMEOUT
    ensures Holds(AfterAll(m, es), user, c, LastBeat(start, es, user, c.serviceID))
  {
    PunctualIsHarmless(m, es, user, c, start);
    BeatingConnectionSurvives(m, es, user, c, start);
  }

  // ----- The same between lock sections -----

  /** When the client last sent a heartbeat for this user and service, lock section by lock section. */
  function LastBeatIn(start: int, steps: seq<Step>, user: string, serviceID: string): int {
    if steps == [] then start
    else match steps[|steps| - 1]
      case ClientBeat(u, s, now) =>
        if u == user && s == serviceID then now else LastBeatIn(start, steps[..|steps| - 1], user, serviceID)
      case _ => LastBeatIn(start, steps[..|steps| - 1], user, serviceID)
  }

  /** The monitor holds a copy and has not yet written this user back. */
  ghost predicate StillToWrite(phase: Phase, user: string) {
    phase.Writing? && user in phase.todo
  }

  /**
  The step is not meant to end the connection `c`, last refreshed at `t`; steps of the user do not fall
  between a copy and the user's write-back, and a copy comes within 30 seconds of the last heartbeat.
  */
  ghost predicate Gentle(w: World, step: Step, user: string, c: Conn, t: int) {
    match step
    case Connect(u, _) =>
      u == user ==>
        && !StillToWrite(w.phase, user)
        && (|Of(w.m, user)| < MAX_CONNECTIONS_PER_USER || Of(w.m, user)[0].serviceID != c.serviceID)
    case ClientBeat(u, _, _) => u == user ==> !StillToWrite(w.phase, user)
    case Prune(regs) => Passes(NodeUp(regs), c)
    case Copy(now) => now - t <= HEARTBEAT_TIMEOUT
    case WriteBack(_) => true
    case EvictUser(u) => u != user
  }

  ghost predicate GentleRun(w: World, steps: seq<Step>, user: string, c: Conn, start: int) {
    steps != [] ==>
      var front := steps[..|steps| - 1];
      && GentleRun(w, front, user, c, start)
      && Gentle(From(w, front), steps[|steps| - 1], user, c, LastBeatIn(start, front, user, c.serviceID))
  }

  /** The connection is held in the map, and in the copy as long as that is to be written back. */
  ghost predicate HoldsThrough(w: World, user: string, c: Conn, t: int) {
    && Holds(w.m, user, c, t)
    && (StillToWrite(w.phase, user) ==> Holds(w.phase.copied, user, c, t) && w.phase.now - t <= HEARTBEAT_TIMEOUT)
  }

  lemma PruneHolds(m: SessionMap, regs: seq<Registration>, user: string, c: Conn, t: int)
    requires Holds(m, user, c, t) && Passes(NodeUp(regs), c)
    ensures Holds(Pruned(m, regs), user, c, t)
  {
    KeepFirst(NodeUp(regs), m[user], c.serviceID);
  }

  lemma WriteBackHolds(m: SessionMap, copied: SessionMap, now: int, user: string, c: Conn, t: int)
    requires Holds(copied, user, c, t) && now - t <= HEARTBEAT_TIMEOUT
    ensures Holds(WrittenBack(m, user, Of(copied, user), now), user, c, t)
  {
    KeepFirst(BeatRecent(now), Of(copied, user), c.serviceID);
    PutOne(m, user, Keep(BeatRecent(now), Of(copied, user)));
  }

  lemma GentleStep(w: World, step: Step, user: string, c: Conn, t: int)
    requires HoldsThrough(w, user, c, t) && Gentle(w, step, user, c, t)
    ensures HoldsThrough(Next(w, step), user, c,
                         if step.ClientBeat? && step.user == user && step.serviceID == c.serviceID then step.now else t)
  {
    match step
    case Connect(u, other) => if u == user { JoinHolds(w.m, other, user, c, t); }
    case ClientBeat(u, s, now) => BeatHolds(w.m, u, s, now, user, c, t);
    case Prune(regs) => PruneHolds(w.m, regs, user, c, t);
    case Copy(_) =>
    case WriteBack(u) =>
      if u == user && StillToWrite(w.phase, user) {
        WriteBackHolds(w.m, w.phase.copied, w.phase.now, user, c, t);
      }
    case EvictUser(_) =>
  }

  /**
  No false timeout under any interleaving of lock sections: if no step of the user falls between a copy and
  the user's write-back, every copy comes within 30 seconds of the last heartbeat and the node is up at
  every prune, the user's first connection to the service survives, refreshed at its last heartbeat.
  */
  lemma {:induction false} GentleClientSurvives(w: World, steps: seq<Step>, user: string, c: Conn, start: int)
    requires Holds(w.m, user, c, start) && !StillToWrite(w.phase, user) && GentleRun(w, steps, user, c, start)
    ensures HoldsThrough(From(w, steps), user, c, LastBeatIn(start, steps, user, c.serviceID))
  {
    if steps != [] {
      var front, last := steps[..|steps| - 1], steps[|steps| - 1];
      GentleClientSurvives(w, front, user, c, start);
      GentleStep(From(w, front), last, user, c, LastBeatIn(start, front, user, c.serviceID));
    }
  }

  // ----- A second connection to the same service -----

  /** Every tick so far found the node up and the heartbeat recent. */
  ghost predicate PassesTicks(es: seq<Event>, d: Conn) {
    forall e :: e in es && e.Tick? ==> Passes(NodeUp(e.regs), d) && Passes(BeatRecent(e.now), d)
  }

  /** What is left of two connections to one service, the first refreshed at `t`. */
  function FirstAndMaybe(c: Conn, t: int, d: Conn, stays: bool): seq<Conn> {
    if stays then [c.(lastBeat := t), d] else [c.(lastBeat := t)]
  }

  lemma FilterSecond(test: Test, c: Conn, t: int, d: Conn, stays: bool)
    requires Passes(test, c.(lastBeat := t))
    ensures Keep(test, FirstAndMaybe(c, t, d, stays)) == FirstAndMaybe(c, t, d, stays && Passes(test, d))
  {
    KeepOne(test, c.(lastBeat := t));
    KeepTwo(test, c.(lastBeat := t), d);
    assert [c.(lastBeat := t)] + [d] == [c.(lastBeat := t), d];
  }

  lemma BeatsDoNotMoveNodes(regs: seq<Registration>, c: Conn, t: int)
    ensures Passes(NodeUp(regs), c.(lastBeat := t)) <==> Passes(NodeUp(regs), c)
  {
  }

  lemma TickedList(m: SessionMap, regs: seq<Registration>, now: int, user: string)
    ensures Of(Ticked(m, regs, now), user) == Survivors(Of(m, user), regs, now)
  {
  }

  lemma TickSecond(m: SessionMap, regs: seq<Registration>, now: int, user: string, c: Conn, t: int, d: Conn,
                   stays: bool)
    requires Of(m, user) == FirstAndMaybe(c, t, d, stays) && Passes(NodeUp(regs), c) && now - t <= HEARTBEAT_TIMEOUT
    ensures Of(Ticked(m, regs, now), user)
         == FirstAndMaybe(c, t, d, stays && Passes(NodeUp(regs), d) && Passes(BeatRecent(now), d))
  {
    var up := stays && Passes(NodeUp(regs), d);
    BeatsDoNotMoveNodes(regs, c, t);
    FilterSecond(NodeUp(regs), c, t, d, stays);
    FilterSecond(BeatRecent(now), c, t, d, up);
    TickedList(m, regs, now, user);
  }

  lemma BeatSecond(m: SessionMap, u: string, serviceID: string, now: int, user: string, c: Conn, t: int, d: Conn,
                   stays: bool)
    requires c.serviceID == d.serviceID && Of(m, user) == FirstAndMaybe(c, t, d, stays)
    ensures Of(Touched(m, u, serviceID, now), user)
         == FirstAndMaybe(c, if u == user && serviceID == c.serviceID then now else t, d, stays)
  {
    if u == user && serviceID == c.serviceID {
      FirstAt(Of(m, user), serviceID, 0);
      assert FirstAndMaybe(c, t, d, stays)[0 := c.(lastBeat := now)] == FirstAndMaybe(c, now, d, stays);
    }
  }

  /**
  Only the first connection to a service is refreshed. Over every run in which it stays ahead, whatever
  the client sends, the second one keeps the time it was made with, and it is still there if and only if
  every tick found its node up and came within 30 seconds of that time.
  */
  lemma {:induction false} SecondConnectionStarves(m: SessionMap, es: seq<Event>, user: string, c: Conn, d: Conn)
    requires Of(m, user) == [c, d] && c.serviceID == d.serviceID
    requires HarmlessRun(m, es, user, c, c.lastBeat) && forall e :: e in es ==> !(e.Joins? && e.user == user)
    ensures Of(AfterAll(m, es), user)
         == FirstAndMaybe(c, LastBeat(c.lastBeat, es, user, c.serviceID), d, PassesTicks(es, d))
  {
    if es != [] {
      var front, e := es[..|es| - 1], es[|es| - 1];
      FrontOf(es);
      SecondConnectionStarves(m, front, user, c, d);
      var m', t := AfterAll(m, front), LastBeat(c.lastBeat, front, user, c.serviceID);
      assert PassesTicks(es, d) <==>
             PassesTicks(front, d) && (e.Tick? ==> Passes(NodeUp(e.regs), d) && Passes(BeatRecent(e.now), d));
      match e
      case Joins(_, _) =>
      case Beats(u, s, now) => BeatSecond(m', u, s, now, user, c, t, d, PassesTicks(front, d));
      case Tick(regs, now) => TickSecond(m', regs, now, user, c, t, d, PassesTicks(front, d));
      case Evicts(_) =>
    } else {
      assert c.(lastBeat := c.lastBeat) == c;
    }
  }

  /** The client keeps beating for the service, yet the tick after 30 seconds drops the second connection. */
  lemma StarvingRun(user: string, c: Conn, d: Conn, node: Registration, now: int)
    requires c.serviceID == d.serviceID == node.id && c.nodeIP == d.nodeIP == node.publicIP
    requires now - d.lastBeat > HEARTBEAT_TIMEOUT
    ensures Of(AfterAll(map[user := [c, d]], [Beats(user, c.serviceID, now), Tick([node], now)]), user) ==
            [c.(lastBeat := now)]
  {
    var m, e1, e2 := map[user := [c, d]], Beats(user, c.serviceID, now), Tick([node], now);
    BeatThenTick(m, user, c, node, now);
    SecondConnectionStarves(m, [e1, e2], user, c, d);
    assert !PassesTicks([e1, e2], d) by { assert e2 in [e1, e2]; }
  }

  lemma BeatThenTick(m: SessionMap, user: string, c: Conn, node: Registration, now: int)
    requires c.serviceID == node.id && c.nodeIP == node.publicIP
    ensures var es := [Beats(user, c.serviceID, now), Tick([node], now)];
            HarmlessRun(m, es, user, c, c.lastBeat) && LastBeat(c.lastBeat, es, user, c.serviceID) == now
  {
    var e1, e2 := Beats(user, c.serviceID, now), Tick([node], now);
    assert [node][0] == node;
    assert [e1, e2][..1] == [e1] && [e1][..0] == [];
    assert HarmlessRun(m, [], user, c, c.lastBeat);
    assert HarmlessRun(m, [e1], user, c, c.lastBeat);
    assert LastBeat(c.lastBeat, [e1], user, c.serviceID) == now;
  }
}
