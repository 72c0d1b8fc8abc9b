/**
The service registry (registry/server.go): registrations per service name, the patches sent out on
every change, duplicate handling by URL and the expiry sweep.

An `Event` records one call of `notify` or `sendRequiredServices` together with the registrations
at that moment; from it follows what is sent to whom.
*/
module Registry {
  const SECOND: int := 1_000_000_000
  const EXPIRY: int := 20 * SECOND

  datatype Registration = Registration(
    name: string, url: string, id: string, publicIP: string, required: seq<string>, updateUrl: string)

  datatype Patch = Patch(added: seq<Registration>, removed: seq<Registration>)

  type Catalogue = map<string, seq<Registration>>

  datatype Event =
    | Notify(full: Patch, audience: Catalogue)
    | Welcome(newcomer: Registration, catalogue: Catalogue)

  datatype State = State(regs: Catalogue, log: seq<Event>)

  function Listed(m: Catalogue, name: string): seq<Registration> {
    if name in m then m[name] else []
  }

  predicate InMap(m: Catalogue, r: Registration) {
    r in Listed(m, r.name)
  }

  /** Position of the first registration with the URL, or the length. */
  function IndexOfUrl(l: seq<Registration>, url: string): (k: nat)
    ensures k <= |l|
    ensures k < |l| ==> l[k].url == url
    ensures forall i :: 0 <= i < k ==> l[i].url != url
  {
    if l == [] || l[0].url == url then 0 else 1 + IndexOfUrl(l[1..], url)
  }

  function Drop(l: seq<Registration>, k: nat): seq<Registration>
    requires k < |l|
  {
    l[..k] + l[k + 1..]
  }

  ghost predicate UrlsDistinct(l: seq<Registration>) {
    forall i, j :: 0 <= i < j < |l| ==> l[i].url != l[j].url
  }

  ghost predicate AllUrlsDistinct(m: Catalogue) {
    forall name :: name in m ==> UrlsDistinct(m[name])
  }

  // ----- One registration or removal -----

  /** Remove the first registration of that name and URL, after announcing it. */
  function Removed(s: State, name: string, url: string): State {
    var l := Listed(s.regs, name);
    var k := IndexOfUrl(l, url);
    if k == |l| then s
    else State(s.regs[name := Drop(l, k)], s.log + [Notify(Patch([], [l[k]]), s.regs)])
  }

  /** The scan for an older registration with the URL runs to its end: there is none, or it is the last one. */
  predicate Completes(s: State, r: Registration) {
    IndexOfUrl(Listed(s.regs, r.name), r.url) + 1 >= |Listed(s.regs, r.name)|
  }

  /** Drop the older registration; unless the scan breaks off, append the new one and announce it. */
  function Added(s: State, r: Registration): State {
    var s1 := Removed(s, r.name, r.url);
    if !Completes(s, r) then s1 else
    var regs := s1.regs[r.name := Listed(s1.regs, r.name) + [r]];
    State(regs, s1.log + [Welcome(r, regs), Notify(Patch([r], []), regs)])
  }

  lemma DropIsDistinct(l: seq<Registration>, k: nat)
    requires UrlsDistinct(l) && k < |l|
    ensures UrlsDistinct(Drop(l, k))
    ensures forall i :: 0 <= i < |l| - 1 ==> Drop(l, k)[i].url != l[k].url
    ensures IndexOfUrl(Drop(l, k), l[k].url) == |l| - 1
  {
    var d := Drop(l, k);
    assert forall i :: 0 <= i < |d| ==> d[i] == l[if i < k then i else i + 1];
  }

  /** A removal leaves distinct URLs, and none with the removed one. */
  lemma RemovedIsDistinct(s: State, name: string, url: string)
    requires AllUrlsDistinct(s.regs)
    ensures AllUrlsDistinct(Removed(s, name, url).regs)
    ensures var l := Listed(Removed(s, name, url).regs, name); IndexOfUrl(l, url) == |l|
  {
    var l := Listed(s.regs, name);
    var k := IndexOfUrl(l, url);
    if k < |l| { DropIsDistinct(l, k); }
  }

  /** Distinct URLs are kept whether or not the scan completes. */
  lemma AddedIsDistinct(s: State, r: Registration)
    requires AllUrlsDistinct(s.regs)
    ensures AllUrlsDistinct(Added(s, r).regs)
  {
    RemovedIsDistinct(s, r.name, r.url);
  }

  /** After a scan that broke off, registering the same URL again completes. */
  lemma RetryCompletes(s: State, r: Registration, again: Registration)
    requires AllUrlsDistinct(s.regs) && !Completes(s, r)
    requires again.name == r.name && again.url == r.url
    ensures Completes(Added(s, r), again)
    ensures InMap(Added(Added(s, r), again).regs, again)
  {
    RemovedIsDistinct(s, r.name, r.url);
    var s1 := Added(s, r);
    assert s1 == Removed(s, r.name, r.url);
    assert Removed(s1, r.name, r.url) == s1;
    var l := Listed(s1.regs, r.name) + [again];
    assert l[|l| - 1] == again;
  }

  /** Two nodes, then the first one again: the scan breaks off and only the second node is left. */
  lemma BrokenOffRun(a: Registration, b: Registration, again: Registration)
    requires a.name == b.name == again.name && a.url == again.url != b.url
    ensures var s := Added(Added(State(map[], []), a), b);
            && Listed(s.regs, a.name) == [a, b]
            && !Completes(s, again)
            && Listed(Added(s, again).regs, a.name) == [b]
  {
    var s1 := Added(State(map[], []), a);
    assert Listed(s1.regs, a.name) == [a];
    assert IndexOfUrl([a], b.url) == 1;
    assert [a] + [b] == [a, b];
    assert Drop([a, b], 0) == [b];
  }

  // ----- Expiry sweep -----

  /** No heartbeat within the last 20 seconds; a missing entry counts as none ever. */
  predicate Stale(lastBeat: map<string, int>, now: int, r: Registration) {
    r.id !in lastBeat || now - lastBeat[r.id] > EXPIRY
  }

  /** One verdict per registration of a list, each with its own reading of the clock. */
  function Verdicts(l: seq<Registration>, lastBeat: map<string, int>, readings: seq<int>): (v: seq<bool>)
    requires |readings| == |l|
    ensures |v| == |l| && forall i :: 0 <= i < |l| ==> v[i] == Stale(lastBeat, readings[i], l[i])
  {
    seq(|l|, i requires 0 <= i < |l| => Stale(lastBeat, readings[i], l[i]))
  }

  /** The registrations not found stale, in order. */
  function KeepFresh(l: seq<Registration>, v: seq<bool>): seq<Registration>
    requires |l| <= |v|
  {
    if l == [] then []
    else KeepFresh(l[..|l| - 1], v) + if v[|l| - 1] then [] else [l[|l| - 1]]
  }

  /** A run of removals. */
  function RemovedAll(s: State, gone: seq<(string, string)>): State {
    if gone == [] then s
    else Removed(RemovedAll(s, gone[..|gone| - 1]), gone[|gone| - 1].0, gone[|gone| - 1].1)
  }

  lemma {:induction false} KeepFreshFrom(l: seq<Registration>, v: seq<bool>, r: Registration)
    requires |l| <= |v|
    ensures r in KeepFresh(l, v) <==> exists i :: 0 <= i < |l| && l[i] == r && !v[i]
  {
    if l != [] {
      var front := l[..|l| - 1];
      KeepFreshFrom(front, v, r);
      assert forall i :: 0 <= i < |front| ==> front[i] == l[i];
    }
  }

  /** Where the sweep finds the next stale registration: right after the fresh ones before it. */
  lemma StalePosition(l: seq<Registration>, j: nat, v: seq<bool>)
    requires UrlsDistinct(l) && j < |l| <= |v|
    ensures var kept := KeepFresh(l[..j], v); IndexOfUrl(kept + l[j..], l[j].url) == |kept|
  {
    var kept := KeepFresh(l[..j], v);
    forall i | 0 <= i < |kept| ensures kept[i].url != l[j].url {
      KeepFreshFrom(l[..j], v, kept[i]);
    }
    assert (kept + l[j..])[|kept|] == l[j];
  }

  /** The list with its first `j` registrations swept. */
  function Partly(l: seq<Registration>, j: nat, v: seq<bool>): seq<Registration>
    requires j <= |l| <= |v|
  {
    KeepFresh(l[..j], v) + l[j..]
  }

  lemma PartlyEnds(l: seq<Registration>, v: seq<bool>)
    requires |l| <= |v|
    ensures Partly(l, 0, v) == l && Partly(l, |l|, v) == KeepFresh(l, v)
  {
    assert l[..|l|] == l;
  }

  lemma SweepStep(s: State, name: string, l: seq<Registration>, j: nat, v: seq<bool>)
    requires UrlsDistinct(l) && j < |l| <= |v|
    requires Listed(s.regs, name) == Partly(l, j, v)
    ensures if v[j] then Removed(s, name, l[j].url).regs == s.regs[name := Partly(l, j + 1, v)]
            else Partly(l, j, v) == Partly(l, j + 1, v)
  {
    var kept := KeepFresh(l[..j], v);
    assert l[..j + 1][..j] == l[..j];
    assert kept + l[j..] == kept + [l[j]] + l[j + 1..] && kept + [] == kept;
    StalePosition(l, j, v);
    assert Drop(kept + l[j..], |kept|) == kept + l[j + 1..];
  }

  lemma RemoveOneMore(s: State, gone: seq<(string, string)>, name: string, url: string)
    ensures RemovedAll(s, gone + [(name, url)]) == Removed(RemovedAll(s, gone), name, url)
  {
    var more := gone + [(name, url)];
    assert more[..|more| - 1] == gone;
  }

  /** The sweep of one name's snapshot `l`, after `j` registrations. */
  function SweptTo(s: State, name: string, l: seq<Registration>, j: nat, v: seq<bool>): State
    requires j <= |l| <= |v|
  {
    if j == 0 then s
    else if v[j - 1] then Removed(SweptTo(s, name, l, j - 1, v), name, l[j - 1].url)
    else SweptTo(s, name, l, j - 1, v)
  }

  /** The swept list of one name, the other lists untouched. */
  ghost predicate SweptOnly(m: Catalogue, name: string, rest: seq<Registration>, m': Catalogue) {
    name in m && m' == m[name := rest]
  }

  lemma {:induction false} SweptToRegs(s: State, name: string, l: seq<Registration>, j: nat, v: seq<bool>)
    requires j <= |l| <= |v| && UrlsDistinct(l) && name in s.regs && s.regs[name] == l
    ensures SweptOnly(s.regs, name, Partly(l, j, v), SweptTo(s, name, l, j, v).regs)
  {
    if j == 0 {
      PartlyEnds(l, v);
      assert s.regs == s.regs[name := l];
    } else {
      SweptToRegs(s, name, l, j - 1, v);
      SweptOneMore(s.regs, SweptTo(s, name, l, j - 1, v), name, l, j - 1, v);
    }
  }

  lemma SweptOneMore(m: Catalogue, s: State, name: string, l: seq<Registration>, j: nat, v: seq<bool>)
    requires j < |l| <= |v| && UrlsDistinct(l)
    requires SweptOnly(m, name, Partly(l, j, v), s.regs)
    ensures SweptOnly(m, name, Partly(l, j + 1, v), if v[j] then Removed(s, name, l[j].url).regs else s.regs)
  {
    UpdateTwice(m, name, Partly(l, j, v), Partly(l, j + 1, v));
    SweepStep(s, name, l, j, v);
  }

  lemma UpdateTwice(m: Catalogue, name: string, a: seq<Registration>, b: seq<Registration>)
    ensures m[name := a][name := b] == m[name := b]
    ensures Listed(m[name := a], name) == a
  {
  }

  // ----- A whole sweep -----

  /** For every name of the snapshot one verdict per registration. */
  ghost predicate Fits(snapshot: Catalogue, v: map<string, seq<bool>>) {
    forall name :: name in snapshot ==> name in v && |v[name]| == |snapshot[name]|
  }

  /** For every name of the snapshot one reading of the clock per registration. */
  ghost predicate ReadFor(snapshot: Catalogue, clock: map<string, seq<int>>) {
    forall name :: name in snapshot ==> name in clock && |clock[name]| == |snapshot[name]|
  }

  ghost function Judged(snapshot: Catalogue, lastBeat: map<string, int>, clock: map<string, seq<int>>)
    : (v: map<string, seq<bool>>)
    requires ReadFor(snapshot, clock)
    ensures Fits(snapshot, v)
  {
    map name | name in snapshot :: Verdicts(snapshot[name], lastBeat, clock[name])
  }

  /** The sweep of a snapshot, as old as may be, name after name. */
  ghost function SweptNames(s: State, snapshot: Catalogue, order: seq<string>, v: map<string, seq<bool>>): State
    requires Fits(snapshot, v) && forall name :: name in order ==> name in snapshot
  {
    if order == [] then s else
    var name := order[|order| - 1];
    SweptTo(SweptNames(s, snapshot, order[..|order| - 1], v), name, snapshot[name], |snapshot[name]|, v[name])
  }

  ghost predicate EachNameOnce(order: seq<string>, names: set<string>) {
    && (forall n :: n in order <==> n in names)
    && (forall i, j :: 0 <= i < j < |order| ==> order[i] != order[j])
  }

  lemma OneNameMore(order: seq<string>, names: set<string>, name: string)
    requires EachNameOnce(order, names) && name !in names
    ensures EachNameOnce(order + [name], names + {name})
  {
  }

  lemma LastNameNew(order: seq<string>, names: set<string>)
    requires EachNameOnce(order, names) && order != []
    ensures order[|order| - 1] in names && EachNameOnce(order[..|order| - 1], names - {order[|order| - 1]})
  {
    assert order == order[..|order| - 1] + [order[|order| - 1]];
  }

  /** The listed names have been swept, the others not. */
  ghost predicate SweptAt(m: Catalogue, names: set<string>, v: map<string, seq<bool>>, m': Catalogue)
    requires Fits(m, v)
  {
    && m'.Keys == m.Keys
    && forall name :: name in m ==> m'[name] == if name in names then KeepFresh(m[name], v[name]) else m[name]
  }

  lemma SweptOneName(m: Catalogue, names: set<string>, v: map<string, seq<bool>>, m': Catalogue, name: string)
    requires Fits(m, v) && SweptAt(m, names, v, m') && name in m
    ensures SweptAt(m, names + {name}, v, m'[name := Partly(m[name], |m[name]|, v[name])])
  {
    PartlyEnds(m[name], v[name]);
  }

  lemma {:induction false} SweptNamesRegs(s: State, order: seq<string>, names: set<string>, v: map<string, seq<bool>>)
    requires Fits(s.regs, v) && AllUrlsDistinct(s.regs) && EachNameOnce(order, names) && names <= s.regs.Keys
    ensures SweptAt(s.regs, names, v, SweptNames(s, s.regs, order, v).regs)
    decreases |order|
  {
    if order != [] {
      var front, name := order[..|order| - 1], order[|order| - 1];
      LastNameNew(order, names);
      SweptNamesRegs(s, front, names - {name}, v);
      var s1 := SweptNames(s, s.regs, front, v);
      SweptToRegs(s1, name, s.regs[name], |s.regs[name]|, v[name]);
      SweptOneName(s.regs, names - {name}, v, s1.regs, name);
      assert names - {name} + {name} == names;
    }
  }

  /** Listed afterwards are exactly the registrations found fresh. */
  ghost predicate FreshOnly(m: Catalogue, lastBeat: map<string, int>, clock: map<string, seq<int>>, m': Catalogue)
    requires ReadFor(m, clock)
  {
    && m'.Keys == m.Keys
    && forall name, r :: name in m ==>
         (r in m'[name] <==> FoundFresh(m[name], lastBeat, clock[name], r))
  }

  /** It is in the list, with a heartbeat at most 20 seconds old at the reading made for it. */
  ghost predicate FoundFresh(l: seq<Registration>, lastBeat: map<string, int>, readings: seq<int>, r: Registration)
    requires |readings| == |l|
  {
    exists j :: 0 <= j < |l| && l[j] == r && r.id in lastBeat && readings[j] - lastBeat[r.id] <= 20_000_000_000
  }

  lemma SweepIsFreshOnly(s: State, order: seq<string>, lastBeat: map<string, int>, clock: map<string, seq<int>>)
    requires ReadFor(s.regs, clock) && AllUrlsDistinct(s.regs) && EachNameOnce(order, s.regs.Keys)
    ensures FreshOnly(s.regs, lastBeat, clock, SweptNames(s, s.regs, order, Judged(s.regs, lastBeat, clock)).regs)
  {
    var m := SweptNames(s, s.regs, order, Judged(s.regs, lastBeat, clock)).regs;
    SweepExact(s, order, lastBeat, clock);
    forall name, r | name in s.regs ensures r in m[name] <==> FoundFresh(s.regs[name], lastBeat, clock[name], r) {
      FreshList(s.regs[name], lastBeat, clock[name], r);
    }
  }

  lemma FreshList(l: seq<Registration>, lastBeat: map<string, int>, readings: seq<int>, r: Registration)
    requires |readings| == |l|
    ensures r in KeepFresh(l, Verdicts(l, lastBeat, readings)) <==> FoundFresh(l, lastBeat, readings, r)
  {
    var v := Verdicts(l, lastBeat, readings);
    KeepFreshFrom(l, v, r);
    assert forall j :: 0 <= j < |l| ==> (v[j] <==> Stale(lastBeat, readings[j], l[j]));
  }

  /** With nothing in between, exactly the registrations found fresh at their own reading stay, in their order. */
  lemma SweepExact(s: State, order: seq<string>, lastBeat: map<string, int>, clock: map<string, seq<int>>)
    requires ReadFor(s.regs, clock) && AllUrlsDistinct(s.regs) && EachNameOnce(order, s.regs.Keys)
    ensures var m := SweptNames(s, s.regs, order, Judged(s.regs, lastBeat, clock)).regs;
            && m.Keys == s.regs.Keys
            && forall name :: name in m ==>
                 m[name] == KeepFresh(s.regs[name], Verdicts(s.regs[name], lastBeat, clock[name]))
  {
    SweptNamesRegs(s, order, s.regs.Keys, Judged(s.regs, lastBeat, clock));
  }

  lemma {:induction false} SweptToRemoves(was: State, earlier: seq<(string, string)>, name: string,
                                          l: seq<Registration>, j: nat, v: seq<bool>)
    returns (gone: seq<(string, string)>)
    requires j <= |l| <= |v|
    ensures SweptTo(RemovedAll(was, earlier), name, l, j, v) == RemovedAll(was, gone)
  {
    gone := earlier;
    if j > 0 {
      gone := SweptToRemoves(was, earlier, name, l, j - 1, v);
      if v[j - 1] {
        RemoveOneMore(was, gone, name, l[j - 1].url);
        gone := gone + [(name, l[j - 1].url)];
      }
    }
  }

  /** A sweep of any snapshot is a run of removals. */
  lemma {:induction false} SweepRemoves(s: State, snapshot: Catalogue, order: seq<string>, v: map<string, seq<bool>>)
    returns (gone: seq<(string, string)>)
    requires Fits(snapshot, v) && forall name :: name in order ==> name in snapshot
    ensures SweptNames(s, snapshot, order, v) == RemovedAll(s, gone)
    decreases |order|
  {
    gone := [];
    if order != [] {
      var name := order[|order| - 1];
      gone := SweepRemoves(s, snapshot, order[..|order| - 1], v);
      gone := SweptToRemoves(s, gone, name, snapshot[name], |snapshot[name]|, v[name]);
    }
  }

  /** With distinct URLs, a removal takes out exactly the registration with that name and URL. */
  lemma RemovedExact(s: State, name: string, url: string, at: string, r: Registration)
    requires AllUrlsDistinct(s.regs)
    ensures r in Listed(Removed(s, name, url).regs, at) <==> r in Listed(s.regs, at) && !(at == name && r.url == url)
  {
    var l := Listed(s.regs, name);
    if IndexOfUrl(l, url) < |l| {
      DropExact(l, IndexOfUrl(l, url), r);
    }
  }

  lemma DropExact(l: seq<Registration>, k: nat, r: Registration)
    requires UrlsDistinct(l) && k < |l|
    ensures r in Drop(l, k) <==> r in l && r.url != l[k].url
  {
    DropIsDistinct(l, k);
    assert l == l[..k] + [l[k]] + l[k + 1..];
  }

  /** Whoever has the URL in the list is found fresh. */
  ghost predicate NoStaleUrl(l: seq<Registration>, v: seq<bool>, j: nat, url: string)
    requires j <= |l| <= |v|
  {
    forall i :: 0 <= i < j && l[i].url == url ==> !v[i]
  }

  /** An old list `l` swept over whatever is registered under the name by then. */
  lemma {:induction false} OldListSweep(s: State, name: string, l: seq<Registration>, j: nat, v: seq<bool>,
                                        at: string, r: Registration)
    requires j <= |l| <= |v| && AllUrlsDistinct(s.regs)
    ensures AllUrlsDistinct(SweptTo(s, name, l, j, v).regs)
    ensures r in Listed(SweptTo(s, name, l, j, v).regs, at)
            <==> r in Listed(s.regs, at) && (at == name ==> NoStaleUrl(l, v, j, r.url))
  {
    if j > 0 {
      OldListSweep(s, name, l, j - 1, v, at, r);
      var s1 := SweptTo(s, name, l, j - 1, v);
      RemovedIsDistinct(s1, name, l[j - 1].url);
      RemovedExact(s1, name, l[j - 1].url, at, r);
      assert NoStaleUrl(l, v, j, r.url) <==> NoStaleUrl(l, v, j - 1, r.url) && (l[j - 1].url == r.url ==> !v[j - 1]);
    }
  }

  /**
  Sweeping an old snapshot over whatever the registry holds by then: a registration survives if and only
  if none of its name and URL in the snapshot was found stale when the sweep came to it.
  */
  lemma {:induction false} OldSnapshotSweep(s: State, snapshot: Catalogue, order: seq<string>,
                                            v: map<string, seq<bool>>, r: Registration)
    requires AllUrlsDistinct(s.regs) && Fits(snapshot, v) && forall name :: name in order ==> name in snapshot
    ensures AllUrlsDistinct(SweptNames(s, snapshot, order, v).regs)
    ensures InMap(SweptNames(s, snapshot, order, v).regs, r) <==>
            InMap(s.regs, r)
            && (r.name in order ==> NoStaleUrl(snapshot[r.name], v[r.name], |snapshot[r.name]|, r.url))
    decreases |order|
  {
    if order != [] {
      var front, name := order[..|order| - 1], order[|order| - 1];
      assert order == front + [name];
      OldSnapshotSweep(s, snapshot, front, v, r);
      OldListSweep(SweptNames(s, snapshot, front, v), name, snapshot[name], |snapshot[name]|, v[name], r.name, r);
    }
  }

  // ----- The registry server -----

  class RegistryServer {
    var regs: Catalogue
    var log: seq<Event>

    ghost function View(): State
      reads this
    {
      State(regs, log)
    }

    constructor ()
      ensures View() == State(map[], [])
    {
      regs, log := map[], [];
    }

    /**
    The range of the duplicate scan is fixed before the removal inside it, so the scan may index
    past the end of the shortened list. `completed` is false when it does; nothing is appended then.
    */
    method Add(r: Registration) returns (completed: bool)
      modifies this
      ensures completed <==> Completes(old(View()), r)
      ensures old(AllUrlsDistinct(regs)) ==> View() == Added(old(View()), r) && AllUrlsDistinct(regs)
    {
      ghost var was := View();
      ghost var l := Listed(regs, r.name);
      ghost var k := IndexOfUrl(l, r.url);
      var n := |Listed(regs, r.name)|;
      var i := 0;
      if AllUrlsDistinct(regs) {
        AddedIsDistinct(was, r);
        RemovedIsDistinct(was, r.name, r.url);
      }
      while i < n
        invariant 0 <= i <= n == |l|
        invariant i <= k ==> View() == was
        invariant i > k ==> |Listed(regs, r.name)| < n
        invariant i > k + 1 ==> i < n
        invariant i > k && AllUrlsDistinct(was.regs) ==> View() == Removed(was, r.name, r.url)
      {
        if i >= |Listed(regs, r.name)| {
          return false;
        }
        if Listed(regs, r.name)[i].url == r.url {
          log := log + [Notify(Patch([], [Listed(regs, r.name)[i]]), regs)];
          regs := regs[r.name := Drop(Listed(regs, r.name), i)];
        }
        i := i + 1;
      }
      assert k >= n - 1;
      regs := regs[r.name := Listed(regs, r.name) + [r]];
      log := log + [Welcome(r, regs)];
      log := log + [Notify(Patch([r], []), regs)];
      completed := true;
    }

    method Remove(name: string, url: string) returns (found: bool)
      modifies this
      ensures View() == Removed(old(View()), name, url)
      ensures found <==> exists i :: 0 <= i < |Listed(old(regs), name)| && Listed(old(regs), name)[i].url == url
    {
      var l := Listed(regs, name);
      for i := 0 to |l|
        invariant View() == old(View())
        invariant forall j :: 0 <= j < i ==> l[j].url != url
      {
        if l[i].url == url {
          assert IndexOfUrl(l, url) == i;
          log := log + [Notify(Patch([], [l[i]]), regs)];
          regs := regs[name := Drop(l, i)];
          return true;
        }
      }
      return false;
    }

    /** Visits the service names in any order. */
    method IsServiceRegistered(id: string) returns (registered: bool)
      ensures registered <==> exists name, i :: name in regs && 0 <= i < |regs[name]| && regs[name][i].id == id
    {
      var todo := regs.Keys;
      while todo != {}
        invariant todo <= regs.Keys
        invariant forall name, i :: name in regs && name !in todo && 0 <= i < |regs[name]| ==> regs[name][i].id != id
        decreases |todo|
      {
        var name :| name in todo;
        for i := 0 to |regs[name]|
          invariant forall j :: 0 <= j < i ==> regs[name][j].id != id
        {
          if regs[name][i].id == id {
            return true;
          }
        }
        todo := todo - {name};
      }
      return false;
    }

    /** The inner loop, over one service name's snapshot `l`; the clock is read for each registration. */
    method SweepName(name: string, l: seq<Registration>, lastBeat: map<string, int>, readings: seq<int>)
      requires |readings| == |l|
      modifies this
      ensures View() == SweptTo(old(View()), name, l, |l|, Verdicts(l, lastBeat, readings))
    {
      for j := 0 to |l|
        invariant View() == SweptTo(old(View()), name, l, j, Verdicts(l, lastBeat, readings))
      {
        if Stale(lastBeat, readings[j], l[j]) {
          var found := Remove(name, l[j].url);
        }
      }
    }

    /**
    The sweep over the two copies, each as old as may be, visiting the service names in any order:
    whatever is found stale is removed by name and URL.
    */
    method RemoveInactiveServices(snapshot: Catalogue, lastBeat: map<string, int>, clock: map<string, seq<int>>)
      returns (ghost order: seq<string>)
      requires ReadFor(snapshot, clock)
      modifies this
      ensures EachNameOnce(order, snapshot.Keys)
      ensures View() == SweptNames(old(View()), snapshot, order, Judged(snapshot, lastBeat, clock))
      ensures old(AllUrlsDistinct(regs)) && snapshot == old(regs) ==> FreshOnly(snapshot, lastBeat, clock, regs)
    {
      ghost var was, v := View(), Judged(snapshot, lastBeat, clock);
      var todo := snapshot.Keys;
      order := [];
      while todo != {}
        invariant SweptSoFar(was, snapshot, todo, order, v, View())
        decreases |todo|
      {
        var name :| name in todo;
        SweptOneFurther(was, snapshot, todo, order, v, View(), name);
        SweepName(name, snapshot[name], lastBeat, clock[name]);
        order := order + [name];
        todo := todo - {name};
      }
      assert snapshot.Keys - {} == snapshot.Keys;
      if AllUrlsDistinct(was.regs) && snapshot == was.regs {
        SweepIsFreshOnly(was, order, lastBeat, clock);
      }
    }
  }

  /** All names but those in `todo` have been swept, in the given order. */
  ghost predicate SweptSoFar(was: State, snapshot: Catalogue, todo: set<string>, order: seq<string>,
                             v: map<string, seq<bool>>, s: State) {
    && Fits(snapshot, v) && todo <= snapshot.Keys && EachNameOnce(order, snapshot.Keys - todo)
    && s == SweptNames(was, snapshot, order, v)
  }

  lemma SweptOneFurther(was: State, snapshot: Catalogue, todo: set<string>, order: seq<string>,
                        v: map<string, seq<bool>>, s: State, name: string)
    requires SweptSoFar(was, snapshot, todo, order, v, s) && name in todo
    ensures SweptSoFar(was, snapshot, todo - {name}, order + [name], v,
                       SweptTo(s, name, snapshot[name], |snapshot[name]|, v[name]))
  {
    assert snapshot.Keys - (todo - {name}) == snapshot.Keys - todo + {name};
    OneNameMore(order, snapshot.Keys - todo, name);
    SweepOneName(was, snapshot, order, v, name);
  }

  lemma SweepOneName(s: State, snapshot: Catalogue, order: seq<string>, v: map<string, seq<bool>>, name: string)
    requires Fits(snapshot, v) && name in snapshot && forall n :: n in order ==> n in snapshot
    ensures SweptNames(s, snapshot, order + [name], v) ==
            SweptTo(SweptNames(s, snapshot, order, v), name, snapshot[name], |snapshot[name]|, v[name])
  {
    assert (order + [name])[..|order|] == order;
  }
}
