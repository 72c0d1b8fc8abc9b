/**
The host's monthly traffic quota (node/traffic_check.go): two integers kept in files, where -1 stands
for a missing file, and a firewall that is closed near the limit.
*/
module HostQuota {
  import opened Int64

  const GIB: int := 0x4000_0000
  const MISSING: int := -1
  const BLOCK_PERCENT: int := 95

  /** The two files and whether the firewall is closed. */
  datatype Quota = Quota(usage: int, month: int, blocked: bool)

  datatype Limits = Limits(limitGB: int, resetDay: int)

  /** Day of month, year and month as one number, and the interface counters. */
  datatype Reading = Reading(day: int, month: int, traffic: int)

  predicate Resets(q: Quota, l: Limits, r: Reading) {
    r.day == l.resetDay && q.month != r.month
  }

  /** No baseline yet, or the counters went back. */
  predicate Rebases(q: Quota, r: Reading) {
    q.usage == MISSING || r.traffic < q.usage
  }

  function UsedBytes(q: Quota, r: Reading): int {
    if Rebases(q, r) then 0 else r.traffic - q.usage
  }

  function Percent(used: int, limitGB: int): int
    requires limitGB != 0
  {
    TruncDiv(TruncDiv(used, GIB) * 100, limitGB)
  }

  /** With a limit of 0 the division panics before the firewall is touched. */
  predicate Blocks(used: int, limitGB: int) {
    limitGB != 0 && Percent(used, limitGB) >= BLOCK_PERCENT
  }

  function Checked(q: Quota, l: Limits, r: Reading): Quota {
    if Resets(q, l, r) then Quota(0, r.month, false) else
    Quota(if Rebases(q, r) then r.traffic else q.usage,
          if Rebases(q, r) then r.month else q.month,
          q.blocked || Blocks(UsedBytes(q, r), l.limitGB))
  }

  class HostMonitor {
    var usageFile: int
    var monthFile: int
    var blocked: bool

    ghost function View(): Quota
      reads this
    {
      Quota(usageFile, monthFile, blocked)
    }

    constructor ()
      ensures View() == Quota(MISSING, MISSING, false)
    {
      usageFile, monthFile, blocked := MISSING, MISSING, false;
    }

    /** `crashed`: the division by a limit of 0 panics, with the files already written. */
    method CheckTraffic(l: Limits, r: Reading) returns (crashed: bool)
      modifies this
      ensures View() == Checked(old(View()), l, r)
      ensures crashed <==> l.limitGB == 0 && !Resets(old(View()), l, r)
      ensures r.day == l.resetDay && old(monthFile) != r.month ==>
                !crashed && !blocked && usageFile == 0 && monthFile == r.month
      ensures r.day != l.resetDay || old(monthFile) == r.month ==>
                && (crashed <==> l.limitGB == 0)
                && (if old(usageFile) == -1 || r.traffic < old(usageFile)
                    then usageFile == r.traffic && monthFile == r.month
                    else usageFile == old(usageFile) && monthFile == old(monthFile))
                && (blocked <==>
                      old(blocked)
                      || (l.limitGB > 0 && 100 * ((r.traffic - usageFile) / 1_073_741_824) >= 95 * l.limitGB))
    {
      BlocksInGigabytes(UsedBytes(View(), r), l.limitGB);
      var lastMonth := monthFile;
      if r.day == l.resetDay && lastMonth != r.month {
        blocked := false;
        usageFile := 0;
        monthFile := r.month;
        return false;
      }
      var startTraffic := usageFile;
      if startTraffic == MISSING || r.traffic < startTraffic {
        usageFile := r.traffic;
        monthFile := r.month;
        startTraffic := r.traffic;
      }
      var usedBytes := r.traffic - startTraffic;
      var usedGB := TruncDiv(usedBytes, GIB);
      if l.limitGB == 0 {
        return true;
      }
      var percent := TruncDiv(usedGB * 100, l.limitGB);
      if percent >= BLOCK_PERCENT {
        blocked := true;
      }
      return false;
    }
  }

  // ----- The threshold -----

  /** The least whole number of gigabytes that is at least 95% of the limit. */
  function ThresholdGB(limitGB: int): int {
    (95 * limitGB + 99) / 100
  }

  lemma DivAtLeast(a: int, b: int, n: int)
    requires b > 0 && a >= 0
    ensures a / b >= n <==> a >= n * b
  {
    var q := a / b;
    assert a == q * b + a % b;
    if q >= n {
      assert q * b >= n * b;
    } else {
      assert (q + 1) * b <= n * b;
    }
  }

  /** Integer gigabytes and percentages block exactly from the threshold on. */
  lemma BlocksExactlyFromThreshold(used: int, limitGB: int)
    requires limitGB > 0 && used >= 0
    ensures Percent(used, limitGB) >= BLOCK_PERCENT <==> used >= ThresholdGB(limitGB) * GIB
    ensures 95 * limitGB * GIB <= 100 * (ThresholdGB(limitGB) * GIB) < 95 * limitGB * GIB + 100 * GIB
  {
    var gb, t := used / GIB, ThresholdGB(limitGB);
    DivAtLeast(gb * 100, limitGB, 95);
    DivAtLeast(used, GIB, t);
    assert gb * 100 >= 95 * limitGB <==> gb >= t;
    assert 95 * limitGB <= 100 * t < 95 * limitGB + 100;
  }

  /** The test on whole GiB, written out. */
  lemma BlocksInGigabytes(used: int, limitGB: int)
    requires used >= 0
    ensures Blocks(used, limitGB) <==> limitGB > 0 && 100 * (used / 1_073_741_824) >= 95 * limitGB
  {
    var gb := used / GIB;
    if limitGB > 0 {
      DivAtLeast(gb * 100, limitGB, 95);
    } else if limitGB < 0 {
      assert (gb * 100) / limitGB == -((gb * 100) / -limitGB);
      DivAtLeast(gb * 100, -limitGB, 0);
    }
  }

  /** No 64-bit operation of the computation overflows. */
  lemma QuotaArithmeticFits(used: int, limitGB: int)
    requires 0 <= used <= MAX_INT && limitGB > 0
    ensures InRange(TruncDiv(used, GIB) * 100) && InRange(Percent(used, limitGB)) && Percent(used, limitGB) >= 0
  {
    var gb := used / GIB;
    assert 0 <= gb <= 0x2_0000_0000;
    DivShrinks(gb * 100, limitGB);
  }

  lemma DivShrinks(x: int, d: int)
    requires x >= 0 && d >= 1
    ensures 0 <= x / d <= x
  {
    DivAtLeast(x, d, 0);
    DivAtLeast(x, d, x + 1);
    ProductAtLeast(x + 1, d);
  }

  lemma ProductAtLeast(a: nat, d: int)
    requires d >= 1
    ensures a * d >= a
  {
    assert a * (d - 1) >= 0;
  }

  // ----- Runs -----

  datatype Trace = Trace(q: Quota, resets: seq<int>)

  function After(rs: seq<Reading>, l: Limits): Trace {
    if rs == [] then Trace(Quota(MISSING, MISSING, false), []) else
    var t, r := After(rs[..|rs| - 1], l), rs[|rs| - 1];
    Trace(Checked(t.q, l, r), if Resets(t.q, l, r) then t.resets + [r.month] else t.resets)
  }

  /** Counters are 64-bit and non-negative, and the calendar does not run backwards. */
  ghost predicate Plausible(rs: seq<Reading>) {
    && (forall i :: 0 <= i < |rs| ==> 0 <= rs[i].traffic <= MAX_INT && 0 <= rs[i].month)
    && (forall i, j :: 0 <= i < j < |rs| ==> rs[i].month <= rs[j].month)
  }

  ghost predicate Increasing(ms: seq<int>) {
    forall i, j :: 0 <= i < j < |ms| ==> ms[i] < ms[j]
  }

  lemma {:induction false} RunKeepsFilesSound(rs: seq<Reading>, l: Limits)
    requires Plausible(rs)
    ensures var t := After(rs, l);
            && Increasing(t.resets)
            && (forall i :: 0 <= i < |t.resets| ==> t.resets[i] <= t.q.month)
            && MISSING <= t.q.usage <= MAX_INT && MISSING <= t.q.month
            && (rs != [] ==> t.q.month <= rs[|rs| - 1].month)
  {
    if rs != [] {
      RunKeepsFilesSound(rs[..|rs| - 1], l);
      var t, r := After(rs[..|rs| - 1], l), rs[|rs| - 1];
      assert t.q.month <= r.month;
    }
  }

  /** At most one reset per calendar month, in every run. */
  lemma OneResetPerMonth(rs: seq<Reading>, l: Limits)
    requires Plausible(rs)
    ensures Increasing(After(rs, l).resets)
  {
    RunKeepsFilesSound(rs, l);
  }

  /** Whenever usage is evaluated in a run, it is not negative and no 64-bit operation on it overflows. */
  lemma EvaluationIsSafe(rs: seq<Reading>, l: Limits, r: Reading)
    requires l.limitGB > 0 && Plausible(rs) && 0 <= r.traffic <= MAX_INT
    ensures var used := UsedBytes(After(rs, l).q, r);
            && 0 <= used <= MAX_INT && InRange(TruncDiv(used, GIB) * 100)
            && 0 <= Percent(used, l.limitGB) <= MAX_INT
  {
    RunKeepsFilesSound(rs, l);
    QuotaArithmeticFits(UsedBytes(After(rs, l).q, r), l.limitGB);
  }

  // ----- After the first reset -----

  /** The first reset stores a baseline of 0 for good, and from then on only resets write the month. */
  lemma {:induction false} AfterFirstReset(rs: seq<Reading>, l: Limits)
    requires Plausible(rs) && After(rs, l).resets != []
    ensures var t := After(rs, l); t.q.usage == 0 && t.q.month == t.resets[|t.resets| - 1]
  {
    var front := rs[..|rs| - 1];
    if After(front, l).resets != [] {
      AfterFirstReset(front, l);
    }
  }

  /** Position of the reading that made the last reset, or -1. */
  function LastReset(rs: seq<Reading>, l: Limits): (k: int)
    ensures -1 <= k < |rs|
    ensures k == -1 <==> After(rs, l).resets == []
  {
    if rs == [] then -1
    else if Resets(After(rs[..|rs| - 1], l).q, l, rs[|rs| - 1]) then |rs| - 1
    else LastReset(rs[..|rs| - 1], l)
  }

  /**
  The reset stores 0 and not the counters' value: after the first one every check, in this cycle and in
  all later ones, takes the traffic since boot for the cycle's usage, and no reboot is ever noticed.
  */
  lemma CountsFromBoot(rs: seq<Reading>, l: Limits, r: Reading)
    requires Plausible(rs) && After(rs, l).resets != [] && r.traffic >= 0
    ensures !Rebases(After(rs, l).q, r) && UsedBytes(After(rs, l).q, r) == r.traffic
  {
    AfterFirstReset(rs, l);
  }

  /** The traffic after position `from`; a reading below the one before it counts in full, from the reboot on. */
  function Since(rs: seq<Reading>, from: int): int
    requires 0 <= from < |rs|
  {
    if from == |rs| - 1 then 0 else
    var last, before := rs[|rs| - 1].traffic, rs[|rs| - 2].traffic;
    Since(rs[..|rs| - 1], from) + if last < before then last else last - before
  }

  /** What the counters stood at when they went back, added up. */
  function Lost(rs: seq<Reading>, from: int): int
    requires 0 <= from < |rs|
  {
    if from == |rs| - 1 then 0 else
    var last, before := rs[|rs| - 1].traffic, rs[|rs| - 2].traffic;
    Lost(rs[..|rs| - 1], from) + if last < before then before else 0
  }

  lemma LostOneMore(rs: seq<Reading>, from: int, r: Reading)
    requires 0 <= from < |rs|
    ensures var before := rs[|rs| - 1].traffic;
            Lost(rs + [r], from) == Lost(rs, from) + if r.traffic < before then before else 0
  {
    assert (rs + [r])[..|rs|] == rs;
  }

  lemma {:induction false} SinceTelescopes(rs: seq<Reading>, from: int)
    requires 0 <= from < |rs|
    ensures Since(rs, from) == rs[|rs| - 1].traffic - rs[from].traffic + Lost(rs, from)
  {
    if from < |rs| - 1 {
      SinceTelescopes(rs[..|rs| - 1], from);
    }
  }

  /**
  After the first reset a check measures the traffic since the last reset if and only if the counters' value
  at that reset equals what they have lost since, by going back. Without a reboot in the cycle: if they stood at 0.
  */
  lemma CycleUsageExact(rs: seq<Reading>, l: Limits, r: Reading)
    requires Plausible(rs) && After(rs, l).resets != [] && r.traffic >= 0
    ensures var k := LastReset(rs, l);
            UsedBytes(After(rs, l).q, r) == Since(rs + [r], k) <==> rs[k].traffic == Lost(rs + [r], k)
  {
    CountsFromBoot(rs, l, r);
    SinceTelescopes(rs + [r], LastReset(rs, l));
  }

  /** A reset at 0, then 100 bytes, a reboot and 10 bytes more: 110 bytes since the reset, 10 measured. */
  lemma RebootInCycle(month: nat, day: int)
    requires day != 1
    ensures var l, rs, r := Limits(100, 1), [Reading(1, month, 0), Reading(day, month, 100)], Reading(day, month, 10);
            && Plausible(rs + [r]) && LastReset(rs, l) == 0
            && UsedBytes(After(rs, l).q, r) == 10 && Since(rs + [r], 0) == 110
  {
    var l, rs, r := Limits(100, 1), [Reading(1, month, 0), Reading(day, month, 100)], Reading(day, month, 10);
    assert rs[..1] == [rs[0]] && [rs[0]][..0] == [] && (rs + [r])[..2] == rs;
    assert Resets(After([], l).q, l, rs[0]);
    assert After([rs[0]], l).resets == [month];
    assert LastReset([rs[0]], l) == 0;
    assert rs == [rs[0]] + [rs[1]] && Lost([rs[0]], 0) == 0;
    LostOneMore([rs[0]], 0, rs[1]);
    LostOneMore(rs, 0, r);
    CountsFromBoot(rs, l, r);
    SinceTelescopes(rs + [r], 0);
  }

  /** Some reading after position `from` found the counters at the threshold. */
  ghost predicate ReachedSince(rs: seq<Reading>, l: Limits, from: int) {
    exists i :: from < i < |rs| && i >= 0 && rs[i].traffic >= ThresholdGB(l.limitGB) * GIB
  }

  lemma ReachedOneMore(rs: seq<Reading>, l: Limits, from: int)
    requires rs != [] && from < |rs| - 1
    ensures ReachedSince(rs, l, from) <==>
            ReachedSince(rs[..|rs| - 1], l, from) || rs[|rs| - 1].traffic >= ThresholdGB(l.limitGB) * GIB
  {
    var front := rs[..|rs| - 1];
    assert forall i :: 0 <= i < |front| ==> front[i] == rs[i];
  }

  /**
  So a reset reopens the host for exactly as long as the traffic since boot stays below the threshold:
  after the first reset of every plausible run the firewall is closed if and only if some check since the
  last reset read the threshold on the counters, whatever was used in the cycle.
  */
  lemma {:induction false} BlockedExactly(rs: seq<Reading>, l: Limits)
    requires Plausible(rs) && After(rs, l).resets != [] && l.limitGB > 0
    ensures After(rs, l).q.blocked <==> ReachedSince(rs, l, LastReset(rs, l))
  {
    var front, r := rs[..|rs| - 1], rs[|rs| - 1];
    if !Resets(After(front, l).q, l, r) {
      BlockedExactly(front, l);
      CountsFromBoot(front, l, r);
      BlocksExactlyFromThreshold(r.traffic, l.limitGB);
      ReachedOneMore(rs, l, LastReset(rs, l));
    }
  }

  /** A host past its threshold is closed again right after the reset, before any new traffic. */
  lemma ResetReblocks(q: Quota, l: Limits, r: Reading)
    requires l.limitGB > 0 && Resets(q, l, r) && r.traffic >= 0
    ensures Checked(Checked(q, l, r), l, r).blocked <==> r.traffic >= ThresholdGB(l.limitGB) * GIB
  {
    BlocksExactlyFromThreshold(r.traffic, l.limitGB);
  }

  // ----- When a month's reset happens -----

  /** Every reset was made by a reading of its month taken on the reset day. */
  lemma {:induction false} ResetsOnResetDay(rs: seq<Reading>, l: Limits, month: int)
    requires month in After(rs, l).resets
    ensures exists i :: 0 <= i < |rs| && rs[i].month == month && rs[i].day == l.resetDay
  {
    var front, last := rs[..|rs| - 1], rs[|rs| - 1];
    if month in After(front, l).resets {
      ResetsOnResetDay(front, l, month);
      var i :| 0 <= i < |front| && front[i].month == month && front[i].day == l.resetDay;
      assert rs[i] == front[i];
    } else {
      assert rs[|rs| - 1] == last;
    }
  }

  /** On every other day the firewall stays closed, and only a missing or overtaken baseline rewrites the files. */
  lemma OtherDaysLeaveTheCycle(q: Quota, l: Limits, r: Reading)
    requires r.day != l.resetDay
    ensures q.blocked ==> Checked(q, l, r).blocked
    ensures var q' := Checked(q, l, r);
            if q.usage == -1 || r.traffic < q.usage then q'.usage == r.traffic && q'.month == r.month
            else q'.usage == q.usage && q'.month == q.month
  {
  }

  /** The i-th reading wrote the month file, by a reset or by taking a new baseline. */
  ghost predicate WritesMonth(rs: seq<Reading>, l: Limits, i: nat)
    requires i < |rs|
  {
    var q := After(rs[..i], l).q;
    Resets(q, l, rs[i]) || Rebases(q, rs[i])
  }

  ghost predicate MonthWritten(rs: seq<Reading>, l: Limits, month: int) {
    exists i :: 0 <= i < |rs| && rs[i].month == month && WritesMonth(rs, l, i)
  }

  lemma MonthWrittenOneMore(rs: seq<Reading>, l: Limits, month: int)
    requires rs != []
    ensures MonthWritten(rs, l, month) <==>
            MonthWritten(rs[..|rs| - 1], l, month) || (rs[|rs| - 1].month == month && WritesMonth(rs, l, |rs| - 1))
  {
    var front := rs[..|rs| - 1];
    forall i | 0 <= i < |front| ensures front[i] == rs[i] && (WritesMonth(front, l, i) <==> WritesMonth(rs, l, i)) {
      assert front[..i] == rs[..i];
    }
  }

  /** For the current or a later month: the file holds it exactly if a reading of that month wrote it. */
  lemma {:induction false} MonthFileExact(rs: seq<Reading>, l: Limits, month: int)
    requires Plausible(rs) && 0 <= month && forall i :: 0 <= i < |rs| ==> rs[i].month <= month
    ensures After(rs, l).q.month == month <==> MonthWritten(rs, l, month)
  {
    if rs != [] {
      var front := rs[..|rs| - 1];
      MonthFileExact(front, l, month);
      MonthWrittenOneMore(rs, l, month);
      assert WritesMonth(rs, l, |rs| - 1) ==> After(rs, l).q.month == rs[|rs| - 1].month;
    }
  }

  /**
  Over every plausible run: on the reset day the reset happens if and only if no earlier reading of that
  month made a reset or took a new baseline.
  */
  lemma ResetHappensExactly(rs: seq<Reading>, l: Limits, r: Reading)
    requires Plausible(rs + [r]) && r.day == l.resetDay
    ensures Resets(After(rs, l).q, l, r) <==> !MonthWritten(rs, l, r.month)
  {
    var all := rs + [r];
    assert all[|rs|] == r;
    assert forall i :: 0 <= i < |rs| ==> all[i] == rs[i];
    assert Plausible(rs);
    MonthFileExact(rs, l, r.month);
  }

  lemma LastResetIsLatest(rs: seq<Reading>, l: Limits, month: int)
    requires Plausible(rs) && month in After(rs, l).resets
    ensures month <= After(rs, l).resets[|After(rs, l).resets| - 1]
  {
    RunKeepsFilesSound(rs, l);
  }

  /** After the first reset nothing can cancel one: it happens on the reset day of every month that had none yet. */
  lemma LaterResetsHappen(rs: seq<Reading>, l: Limits, r: Reading)
    requires Plausible(rs) && After(rs, l).resets != [] && r.day == l.resetDay
    requires forall i :: 0 <= i < |rs| ==> rs[i].month <= r.month
    ensures Resets(After(rs, l).q, l, r) <==> r.month !in After(rs, l).resets
  {
    var t := After(rs, l);
    AfterFirstReset(rs, l);
    RunKeepsFilesSound(rs, l);
    if r.month in t.resets { LastResetIsLatest(rs, l, r.month); }
  }

  /** Before the first reset: a baseline, a reboot early in the next month, and no reset on that month's reset day. */
  lemma RebaseCancelsReset(l: Limits, first: Reading, reboot: Reading, r: Reading)
    requires Plausible([first, reboot] + [r]) && r.day == l.resetDay
    requires first.day != l.resetDay && reboot.day != l.resetDay
    requires reboot.month == r.month && reboot.traffic < first.traffic
    ensures !Resets(After([first, reboot], l).q, l, r)
  {
    var rs := [first, reboot];
    assert rs[..1] == [first] && [first][..0] == [];
    assert After([first], l).q.usage == first.traffic;
    assert WritesMonth(rs, l, 1) && rs[1] == reboot;
    ResetHappensExactly(rs, l, r);
  }

  // ----- Losing the files or the firewall rules -----

  /** The files lie in the temporary directory; the rules do not outlive the kernel. */
  datatype Moment = Check(reading: Reading) | FilesLost | RulesLost

  function Happened(ms: seq<Moment>, l: Limits): Quota {
    if ms == [] then Quota(MISSING, MISSING, false) else
    var q := Happened(ms[..|ms| - 1], l);
    match ms[|ms| - 1]
    case Check(r) => Checked(q, l, r)
    case FilesLost => q.(usage := MISSING, month := MISSING)
    case RulesLost => q.(blocked := false)
  }

  function Checks(rs: seq<Reading>): (ms: seq<Moment>)
    ensures |ms| == |rs|
  {
    if rs == [] then [] else Checks(rs[..|rs| - 1]) + [Check(rs[|rs| - 1])]
  }

  lemma HappenedNext(ms: seq<Moment>, m: Moment, l: Limits)
    ensures Happened(ms + [m], l) == match m
                                     case Check(r) => Checked(Happened(ms, l), l, r)
                                     case FilesLost => Happened(ms, l).(usage := MISSING, month := MISSING)
                                     case RulesLost => Happened(ms, l).(blocked := false)
  {
    assert (ms + [m])[..|ms|] == ms;
  }

  lemma ChecksNext(ms: seq<Moment>, rs: seq<Reading>, l: Limits)
    requires rs != []
    ensures Happened(ms + Checks(rs), l) == Checked(Happened(ms + Checks(rs[..|rs| - 1]), l), l, rs[|rs| - 1])
  {
    var front, last := Checks(rs[..|rs| - 1]), Check(rs[|rs| - 1]);
    assert ms + Checks(rs) == ms + front + [last];
    HappenedNext(ms + front, last, l);
  }

  /** From any moment with nothing stored and the firewall open the host behaves as from the start. */
  lemma {:induction false} StartsAnew(ms: seq<Moment>, rs: seq<Reading>, l: Limits)
    requires Happened(ms, l) == Quota(MISSING, MISSING, false)
    ensures Happened(ms + Checks(rs), l) == After(rs, l).q
  {
    if rs == [] {
      assert ms + Checks(rs) == ms;
    } else {
      StartsAnew(ms, rs[..|rs| - 1], l);
      ChecksNext(ms, rs, l);
    }
  }

  /** What is proved of runs of checks holds of the checks since both were last lost together, or since the start. */
  lemma RebootStartsAnew(ms: seq<Moment>, rs: seq<Reading>, l: Limits)
    ensures Happened(Checks(rs), l) == After(rs, l).q
    ensures Happened(ms + [FilesLost] + [RulesLost] + Checks(rs), l) == After(rs, l).q
  {
    assert [] + Checks(rs) == Checks(rs);
    StartsAnew([], rs, l);
    HappenedNext(ms, FilesLost, l);
    HappenedNext(ms + [FilesLost], RulesLost, l);
    StartsAnew(ms + [FilesLost] + [RulesLost], rs, l);
  }

  /**
  The files as in the run of checks `rs`; the firewall closed if a check from position `n` on, since the last
  reset, asked for it.
  */
  ghost predicate ReopenedAt(rs: seq<Reading>, n: nat, l: Limits, q: Quota) {
    && q == After(rs, l).q.(blocked := q.blocked)
    && (q.blocked <==> ReachedSince(rs, l, Latest(n - 1, LastReset(rs, l))))
  }

  function Latest(a: int, b: int): int {
    if b < a then a else b
  }

  lemma AfterOneMore(rs: seq<Reading>, r: Reading, l: Limits)
    ensures After(rs + [r], l).q == Checked(After(rs, l).q, l, r)
    ensures After(rs, l).resets != [] ==> After(rs + [r], l).resets != []
    ensures LastReset(rs + [r], l) == if Resets(After(rs, l).q, l, r) then |rs| else LastReset(rs, l)
  {
    assert (rs + [r])[..|rs|] == rs;
  }

  lemma ReachedNext(rs: seq<Reading>, r: Reading, l: Limits, from: int)
    requires from < |rs|
    ensures ReachedSince(rs + [r], l, from) <==> ReachedSince(rs, l, from) || r.traffic >= ThresholdGB(l.limitGB) * GIB
    ensures !ReachedSince(rs + [r], l, |rs|)
  {
    assert (rs + [r])[..|rs|] == rs;
    ReachedOneMore(rs + [r], l, from);
  }

  /** The firewall's state has no influence on the files. */
  lemma FilesIgnoreRules(q: Quota, q': Quota, l: Limits, r: Reading)
    requires q' == q.(blocked := q'.blocked)
    ensures Checked(q', l, r) == Checked(q, l, r).(blocked := Checked(q', l, r).blocked)
    ensures Resets(q', l, r) <==> Resets(q, l, r)
    ensures Checked(q', l, r).blocked <==> !Resets(q, l, r) && (q'.blocked || Blocks(UsedBytes(q, r), l.limitGB))
  {
  }

  lemma ReopenedStep(rs: seq<Reading>, r: Reading, n: nat, l: Limits, q: Quota)
    requires Plausible(rs + [r]) && After(rs, l).resets != [] && l.limitGB > 0
    requires n <= |rs| && ReopenedAt(rs, n, l, q)
    ensures ReopenedAt(rs + [r], n, l, Checked(q, l, r)) && After(rs + [r], l).resets != []
  {
    assert (rs + [r])[|rs|] == r;
    var before := After(rs, l).q;
    FilesIgnoreRules(before, q, l, r);
    AfterOneMore(rs, r, l);
    ReachedNext(rs, r, l, Latest(n - 1, LastReset(rs, l)));
    assert Blocks(UsedBytes(before, r), l.limitGB) <==> r.traffic >= ThresholdGB(l.limitGB) * GIB by {
      PlausibleFront(rs, r);
      CountsFromBoot(rs, l, r);
      BlocksExactlyFromThreshold(r.traffic, l.limitGB);
    }
  }

  /**
  Losing the rules alone does not touch the files; the firewall is closed if and only if some later check
  since the last reset read the threshold.
  */
  lemma {:induction false} RulesLostReopens(rs: seq<Reading>, more: seq<Reading>, l: Limits)
    requires Plausible(rs + more) && After(rs, l).resets != [] && l.limitGB > 0
    ensures ReopenedAt(rs + more, |rs|, l, Happened(Checks(rs) + [RulesLost] + Checks(more), l))
    ensures After(rs + more, l).resets != []
    decreases |more|
  {
    var ms := Checks(rs) + [RulesLost];
    if more == [] {
      assert rs + more == rs && ms + Checks(more) == ms;
      RebootStartsAnew([], rs, l);
      HappenedNext(Checks(rs), RulesLost, l);
    } else {
      var front, r := more[..|more| - 1], more[|more| - 1];
      assert rs + more == rs + front + [r];
      PlausibleFront(rs + front, r);
      RulesLostReopens(rs, front, l);
      ChecksNext(ms, more, l);
      ReopenedStep(rs + front, r, |rs|, l, Happened(ms + Checks(front), l));
    }
  }

  lemma PlausibleFront(rs: seq<Reading>, r: Reading)
    requires Plausible(rs + [r])
    ensures Plausible(rs)
  {
    assert forall i :: 0 <= i < |rs| ==> (rs + [r])[i] == rs[i];
  }

  /** Lost files on the reset day: the month's reset happens a second time. */
  lemma LostFilesResetAgain(l: Limits, r: Reading)
    requires r.day == l.resetDay && r.month >= 0
    ensures Resets(Happened([], l), l, r) && Resets(Happened([Check(r)] + [FilesLost], l), l, r)
    ensures !Resets(Happened([Check(r)], l), l, r)
  {
    assert [Check(r)][..0] == [];
    HappenedNext([Check(r)], FilesLost, l);
  }
}
