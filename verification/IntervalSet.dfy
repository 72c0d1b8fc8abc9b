/**
The set of payment amounts already handed out, kept as a sorted list of merged
intervals and searched by binary search (payment/order/interval_set.go).

The list is shown to refine a plain set of integers: `Contains` is the set it
stands for, `Canonical` its normal form. `AddTo` and `NextFree` are simple
left-to-right reference versions; the methods of `IntervalSet` follow the
source, including its 64-bit arithmetic, and are proved equal to them.
*/
module IntervalSets {
  import opened Int64

  datatype Interval = Interval(start: int, end: int)

  /** Inside the 64-bit range, non-empty, sorted, disjoint and non-adjacent. */
  ghost predicate Canonical(s: seq<Interval>) {
    && (forall i :: 0 <= i < |s| ==> MIN_INT <= s[i].start <= s[i].end <= MAX_INT)
    && (forall i, j :: 0 <= i < j < |s| ==> s[i].end + 1 < s[j].start)
  }

  ghost predicate Holds(s: seq<Interval>, i: int, x: int) {
    0 <= i < |s| && s[i].start <= x <= s[i].end
  }

  ghost predicate Contains(s: seq<Interval>, x: int) {
    exists i :: Holds(s, i, x)
  }

  ghost predicate SameElements(s: seq<Interval>, t: seq<Interval>) {
    forall x :: Contains(s, x) <==> Contains(t, x)
  }

  /** No 64-bit amount from `x` upwards is left. */
  ghost predicate Exhausted(s: seq<Interval>, x: int) {
    forall y :: x <= y <= MAX_INT ==> Contains(s, y)
  }

  /** `t` stands for the elements of `s` and `x`. */
  ghost predicate Plus(s: seq<Interval>, x: int, t: seq<Interval>) {
    forall y :: Contains(t, y) <==> Contains(s, y) || y == x
  }

  // ----- Canonical form -----

  lemma TailContains(s: seq<Interval>, x: int)
    requires Canonical(s) && s != []
    ensures Contains(s[1..], x) <==> Contains(s, x) && s[0].end < x
    ensures Contains(s, x) <==> Holds(s, 0, x) || Contains(s[1..], x)
  {
    if Contains(s[1..], x) {
      var i :| Holds(s[1..], i, x);
      assert Holds(s, i + 1, x);
    }
    if Contains(s, x) {
      var i :| Holds(s, i, x);
      if i > 0 {
        assert Holds(s[1..], i - 1, x);
      }
    }
  }

  lemma HeadIsLeast(s: seq<Interval>, x: int)
    requires Canonical(s) && Contains(s, x)
    ensures s != [] && s[0].start <= x && Contains(s, s[0].start)
  {
    assert Holds(s, 0, s[0].start);
  }

  lemma HeadEndsWhereSetStops(s: seq<Interval>)
    requires Canonical(s) && s != []
    ensures !Contains(s, s[0].end + 1)
    ensures forall x :: s[0].start <= x <= s[0].end ==> Contains(s, x)
  {
    forall x | s[0].start <= x <= s[0].end ensures Contains(s, x) {
      assert Holds(s, 0, x);
    }
  }

  lemma SameHead(s: seq<Interval>, t: seq<Interval>)
    requires Canonical(s) && Canonical(t) && SameElements(s, t) && s != []
    ensures t != [] && s[0] == t[0]
  {
    HeadEndsWhereSetStops(s);
    HeadIsLeast(t, s[0].start);
    HeadEndsWhereSetStops(t);
    HeadIsLeast(s, t[0].start);
    assert Contains(s, s[0].end + 1) <==> Contains(t, s[0].end + 1);
    assert Contains(s, t[0].end + 1) <==> Contains(t, t[0].end + 1);
  }

  lemma SameTails(s: seq<Interval>, t: seq<Interval>)
    requires Canonical(s) && Canonical(t) && SameElements(s, t) && s != [] && t != [] && s[0] == t[0]
    ensures Canonical(s[1..]) && Canonical(t[1..]) && SameElements(s[1..], t[1..])
    ensures s[1..] == t[1..] ==> s == t
  {
    assert s == [s[0]] + s[1..] && t == [t[0]] + t[1..];
    forall x ensures Contains(s[1..], x) <==> Contains(t[1..], x) {
      TailContains(s, x);
      TailContains(t, x);
    }
  }

  lemma EmptyIsEmpty(t: seq<Interval>)
    requires Canonical(t) && SameElements([], t)
    ensures t == []
  {
    assert forall x :: Contains(t, x) <==> Contains([], x);
    assert |t| > 0 ==> Holds(t, 0, t[0].start) && Contains(t, t[0].start);
  }

  /** A set of integers has at most one canonical list. */
  lemma {:induction false} CanonicalUnique(s: seq<Interval>, t: seq<Interval>)
    requires Canonical(s) && Canonical(t) && SameElements(s, t)
    ensures s == t
    decreases |s|
  {
    if s == [] {
      EmptyIsEmpty(t);
    } else {
      SameHead(s, t);
      SameTails(s, t);
      CanonicalUnique(s[1..], t[1..]);
    }
  }

  // ----- Reference versions -----

  /** Add one amount, walking the list from the left. */
  function AddTo(s: seq<Interval>, x: int): seq<Interval> {
    if s == [] || x + 1 < s[0].start then [Interval(x, x)] + s
    else if x + 1 == s[0].start then [Interval(x, s[0].end)] + s[1..]
    else if x <= s[0].end then s
    else if x != s[0].end + 1 then [s[0]] + AddTo(s[1..], x)
    else if |s| > 1 && s[1].start == x + 1 then [Interval(s[0].start, s[1].end)] + s[2..]
    else [Interval(s[0].start, x)] + s[1..]
  }

  /** Positions lo..hi replaced by one interval. */
  function Spliced(s: seq<Interval>, lo: nat, hi: nat, v: Interval): seq<Interval>
    requires lo <= hi <= |s|
  {
    s[..lo] + [v] + s[hi..]
  }

  /** `v` may take the place of positions lo..hi, covering them and `x` and nothing else. */
  ghost predicate Fits(s: seq<Interval>, lo: nat, hi: nat, v: Interval, x: int) {
    && lo <= hi <= |s|
    && MIN_INT <= v.start <= x <= v.end <= MAX_INT
    && (lo > 0 ==> s[lo - 1].end + 1 < v.start)
    && (hi < |s| ==> v.end + 1 < s[hi].start)
    && (forall i :: lo <= i < hi ==> v.start <= s[i].start && s[i].end <= v.end)
    && (forall y :: Contains(s, y) || !(v.start <= y <= v.end) || y == x)
  }

  lemma ReplacedIsCanonical(s: seq<Interval>, lo: nat, hi: nat, v: Interval, x: int)
    requires Canonical(s) && Fits(s, lo, hi, v, x)
    ensures Canonical(s[..lo] + [v] + s[hi..])
  {
    var left, right := s[..lo], s[hi..];
    assert Canonical(left) && Canonical(right);
    assert forall i :: 0 <= i < lo ==> left[i].end + 1 < v.start;
    assert forall i :: 0 <= i < |right| ==> v.end + 1 < right[i].start;
    Joined(left, v, right);
  }

  lemma Joined(left: seq<Interval>, v: Interval, right: seq<Interval>)
    requires Canonical(left) && Canonical(right) && MIN_INT <= v.start <= v.end <= MAX_INT
    requires forall i :: 0 <= i < |left| ==> left[i].end + 1 < v.start
    requires forall i :: 0 <= i < |right| ==> v.end + 1 < right[i].start
    ensures Canonical(left + [v] + right)
  {
    var t := left + [v] + right;
    forall i, j | 0 <= i < j < |t| ensures t[i].end + 1 < t[j].start {
      if i < |left| < j {
        assert t[i] == left[i] && t[j] == right[j - |left| - 1];
      }
    }
  }

  lemma ReplacedHasOnly(s: seq<Interval>, lo: nat, hi: nat, v: Interval, x: int, y: int)
    requires Fits(s, lo, hi, v, x) && Contains(s[..lo] + [v] + s[hi..], y)
    ensures Contains(s, y) || y == x
  {
    var t := s[..lo] + [v] + s[hi..];
    var i :| Holds(t, i, y);
    if i < lo {
      assert Holds(s, i, y);
    } else if i > lo {
      assert t[i] == s[hi..][i - lo - 1];
      assert Holds(s, i - lo - 1 + hi, y);
    }
  }

  lemma ReplacedHasAll(s: seq<Interval>, lo: nat, hi: nat, v: Interval, x: int, y: int)
    requires Fits(s, lo, hi, v, x) && (Contains(s, y) || y == x)
    ensures Contains(s[..lo] + [v] + s[hi..], y)
  {
    var t := s[..lo] + [v] + s[hi..];
    if v.start <= y <= v.end {
      assert Holds(t, lo, y);
    } else {
      var i :| Holds(s, i, y);
      if i < lo {
        assert Holds(t, i, y);
      } else {
        assert t[i - hi + lo + 1] == s[hi..][i - hi];
        assert Holds(t, i - hi + lo + 1, y);
      }
    }
  }

  /** Replacing positions lo..hi by one interval that fits in the gap. */
  lemma Replaced(s: seq<Interval>, lo: nat, hi: nat, v: Interval, x: int)
    requires Canonical(s) && Fits(s, lo, hi, v, x)
    ensures Canonical(Spliced(s, lo, hi, v))
    ensures Plus(s, x, Spliced(s, lo, hi, v))
  {
    ReplacedIsCanonical(s, lo, hi, v, x);
    forall y ensures Contains(s[..lo] + [v] + s[hi..], y) <==> Contains(s, y) || y == x {
      if Contains(s, y) || y == x { ReplacedHasAll(s, lo, hi, v, x, y); }
      if Contains(s[..lo] + [v] + s[hi..], y) { ReplacedHasOnly(s, lo, hi, v, x, y); }
    }
  }

  lemma ConsCorrect(s: seq<Interval>, t: seq<Interval>, x: int)
    requires Canonical(s) && s != [] && s[0].end + 1 < x
    requires Canonical(t) && Plus(s[1..], x, t)
    ensures Canonical([s[0]] + t)
    ensures Plus(s, x, [s[0]] + t)
  {
    var u := [s[0]] + t;
    assert Contains(t, x);
    HeadIsLeast(t, x);
    TailContains(s, t[0].start);
    TailContains(s, s[0].end + 1);
    HeadEndsWhereSetStops(s);
    assert Canonical(u);
    forall y ensures Contains(u, y) <==> Contains(s, y) || y == x {
      TailContains(s, y);
      TailContains(u, y);
      assert u[1..] == t;
    }
  }

  /** The reference version adds exactly one element and keeps the normal form. */
  lemma {:induction false} AddToCorrect(s: seq<Interval>, x: int)
    requires Canonical(s) && InRange(x)
    ensures Canonical(AddTo(s, x))
    ensures Plus(s, x, AddTo(s, x))
    decreases |s|
  {
    if s == [] || x + 1 < s[0].start {
      Replaced(s, 0, 0, Interval(x, x), x);
      assert s[..0] + [Interval(x, x)] + s[0..] == AddTo(s, x);
    } else if x <= s[0].end && x + 1 != s[0].start {
      assert Holds(s, 0, x);
    } else if x + 1 != s[0].start && x != s[0].end + 1 {
      AddToCorrect(s[1..], x);
      ConsCorrect(s, AddTo(s[1..], x), x);
    } else {
      AddNextToHead(s, x);
    }
  }

  lemma AddNextToHead(s: seq<Interval>, x: int)
    requires Canonical(s) && InRange(x) && s != []
    requires x + 1 == s[0].start || x == s[0].end + 1
    ensures Canonical(AddTo(s, x))
    ensures Plus(s, x, AddTo(s, x))
  {
    if x + 1 == s[0].start {
      AddByReplacing(s, 1, Interval(x, s[0].end), x);
    } else if |s| > 1 && s[1].start == x + 1 {
      AddByReplacing(s, 2, Interval(s[0].start, s[1].end), x);
    } else {
      AddByReplacing(s, 1, Interval(s[0].start, x), x);
    }
  }

  lemma AddByReplacing(s: seq<Interval>, hi: nat, v: Interval, x: int)
    requires Canonical(s) && 1 <= hi <= 2 && hi <= |s| && MIN_INT <= v.start <= x <= v.end <= MAX_INT
    requires v.start <= s[0].start && s[hi - 1].end <= v.end && (hi < |s| ==> v.end + 1 < s[hi].start)
    requires forall y :: v.start <= y <= v.end && y != x ==> Holds(s, 0, y) || Holds(s, hi - 1, y)
    ensures Canonical([v] + s[hi..]) && Plus(s, x, [v] + s[hi..])
  {
    forall y | v.start <= y <= v.end && y != x ensures Contains(s, y) {
      assert Holds(s, 0, y) || Holds(s, hi - 1, y);
    }
    Replaced(s, 0, hi, v, x);
    assert s[..0] + [v] + s[hi..] == [v] + s[hi..];
  }

  lemma PlusUnique(s: seq<Interval>, x: int, t: seq<Interval>)
    requires Canonical(s) && InRange(x) && Canonical(t) && Plus(s, x, t)
    ensures t == AddTo(s, x)
  {
    AddToCorrect(s, x);
    CanonicalUnique(t, AddTo(s, x));
  }

  /** Add a whole list of amounts, first to last. */
  function AddAll(xs: seq<int>): seq<Interval> {
    if xs == [] then [] else AddTo(AddAll(xs[..|xs| - 1]), xs[|xs| - 1])
  }

  lemma {:induction false} AddAllCorrect(xs: seq<int>)
    requires forall x :: x in xs ==> InRange(x)
    ensures Canonical(AddAll(xs))
    ensures forall y :: Contains(AddAll(xs), y) <==> y in xs
  {
    if xs != [] {
      var front, last := xs[..|xs| - 1], xs[|xs| - 1];
      assert forall y :: y in xs <==> y in front || y == last by { assert xs == front + [last]; }
      AddAllCorrect(front);
      AddToCorrect(AddAll(front), last);
    }
  }

  /** Order and repetition of the reference's additions leave no trace in the list. */
  lemma AddOrderIrrelevant(xs: seq<int>, ys: seq<int>)
    requires forall x :: x in xs ==> InRange(x)
    requires forall x :: x in xs <==> x in ys
    ensures AddAll(xs) == AddAll(ys)
  {
    AddAllCorrect(xs);
    AddAllCorrect(ys);
    CanonicalUnique(AddAll(xs), AddAll(ys));
  }

  /** First amount from `x` on outside the list, wrapping past the 64-bit maximum. */
  function NextFree(s: seq<Interval>, x: int): int {
    if s == [] || x < s[0].start then x
    else if x <= s[0].end then Wrap(s[0].end + 1)
    else NextFree(s[1..], x)
  }

  /** `r` is the least 64-bit amount from `x` on that is not in the list. */
  ghost predicate IsLeastFree(s: seq<Interval>, x: int, r: int) {
    && x <= r <= MAX_INT
    && !Contains(s, r)
    && forall y :: x <= y < r ==> Contains(s, y)
  }

  /** The least free amount is returned exactly when there is one; otherwise the smallest integer is. */
  lemma {:induction false} NextFreeCorrect(s: seq<Interval>, x: int)
    requires Canonical(s) && InRange(x)
    ensures IsLeastFree(s, x, NextFree(s, x)) <==> !Exhausted(s, x)
    ensures Exhausted(s, x) ==> NextFree(s, x) == MIN_INT
    decreases |s|
  {
    if s == [] || x < s[0].start {
      if Contains(s, x) { HeadIsLeast(s, x); }
      assert !Contains(s, x);
    } else if x <= s[0].end {
      HeadEndsWhereSetStops(s);
      if s[0].end < MAX_INT {
        assert !Contains(s, s[0].end + 1);
      }
    } else {
      NextFreeCorrect(s[1..], x);
      forall y | x <= y ensures Contains(s, y) <==> Contains(s[1..], y) {
        TailContains(s, y);
      }
    }
  }

  /** Whatever is returned is unused, unless the amounts ran out and the smallest integer is taken too. */
  lemma NextFreeIsUnused(s: seq<Interval>, x: int)
    requires Canonical(s) && InRange(x)
    ensures InRange(NextFree(s, x))
    ensures Contains(s, NextFree(s, x)) <==> Exhausted(s, x) && Contains(s, MIN_INT)
  {
    NextFreeCorrect(s, x);
  }

  /** The integers lo..hi, without hi. */
  ghost function Range(lo: int, hi: int): (r: set<int>)
    requires lo <= hi
    ensures forall y :: y in r <==> lo <= y < hi
    ensures |r| == hi - lo
    decreases hi - lo
  {
    if lo == hi then {} else Range(lo, hi - 1) + {hi - 1}
  }

  lemma SubsetSize(a: set<int>, b: set<int>)
    requires a <= b
    ensures |a| <= |b|
  {
    assert b == (b - a) + a && (b - a) !! a;
  }

  /** An interval of used amounts is no longer than the number of used amounts. */
  lemma UsedRunIsShort(s: seq<Interval>, used: set<int>, lo: int, hi: int)
    requires lo <= hi
    requires forall y :: Contains(s, y) ==> y in used
    requires forall y :: lo <= y < hi ==> Contains(s, y)
    ensures hi - lo <= |used|
  {
    SubsetSize(Range(lo, hi), used);
  }

  /** Pigeonhole: the surcharge is at most the number of used amounts, and below that bound nothing wraps. */
  lemma SurchargeBound(s: seq<Interval>, used: set<int>, x: int)
    requires Canonical(s) && InRange(x)
    requires forall y :: Contains(s, y) ==> y in used
    ensures x + |used| <= MAX_INT ==> !Exhausted(s, x)
    ensures !Exhausted(s, x) ==> 0 <= NextFree(s, x) - x <= |used|
  {
    NextFreeCorrect(s, x);
    if Exhausted(s, x) {
      UsedRunIsShort(s, used, x, MAX_INT + 1);
    } else {
      UsedRunIsShort(s, used, x, NextFree(s, x));
    }
  }

  // ----- The source's algorithms -----

  ghost predicate StartsSorted(s: seq<Interval>) {
    forall i, j :: 0 <= i < j < |s| ==> s[i].start <= s[j].start
  }

  /** sort.Search for the first interval that starts after `x`. */
  method SearchStart(s: seq<Interval>, x: int) returns (pos: nat)
    requires StartsSorted(s)
    ensures pos <= |s|
    ensures forall i :: 0 <= i < pos ==> s[i].start <= x
    ensures forall i :: pos <= i < |s| ==> x < s[i].start
  {
    pos := 0;
    var j := |s|;
    while pos < j
      invariant pos <= j <= |s|
      invariant forall i :: 0 <= i < pos ==> s[i].start <= x
      invariant forall i :: j <= i < |s| ==> x < s[i].start
    {
      var h := (pos + j) / 2;
      if s[h].start <= x {
        pos := h + 1;
      } else {
        j := h;
      }
    }
  }

  /** Insert by start, walking the list from the left. */
  function InsertedByStart(s: seq<Interval>, v: Interval): seq<Interval> {
    if s == [] || v.start < s[0].start then [v] + s else [s[0]] + InsertedByStart(s[1..], v)
  }

  lemma {:induction false} InsertedAt(s: seq<Interval>, v: Interval, pos: nat)
    requires SearchedTo(s, pos, v.start)
    ensures InsertedByStart(s, v) == s[..pos] + [v] + s[pos..]
    decreases |s|
  {
    if pos > 0 {
      InsertedAt(s[1..], v, pos - 1);
      assert s[..pos] == [s[0]] + s[1..][..pos - 1] && s[pos..] == s[1..][pos - 1..];
    }
  }

  /** Extend by one slot, shift the tail right by one and write `val` into the gap. */
  method InsertInterval(arr: seq<Interval>, val: Interval) returns (res: seq<Interval>)
    requires StartsSorted(arr)
    ensures res == InsertedByStart(arr, val)
  {
    var pos := SearchStart(arr, val.start);
    res := arr + [Interval(0, 0)];
    res := res[..pos + 1] + res[pos..|arr|];
    res := res[pos := val];
    InsertedAt(arr, val, pos);
  }

  /** Cutting out lo..hi and re-inserting by start puts the new interval back at lo. */
  method Reinsert(s: seq<Interval>, lo: nat, hi: nat, val: Interval) returns (res: seq<Interval>)
    requires StartsSorted(s) && lo <= hi <= |s|
    requires lo > 0 ==> s[lo - 1].start <= val.start
    requires hi < |s| ==> val.start < s[hi].start
    ensures res == Spliced(s, lo, hi, val)
  {
    CutStaysSorted(s, lo, hi);
    CutSearch(s, lo, hi, val.start);
    InsertedAt(s[..lo] + s[hi..], val, lo);
    res := InsertInterval(s[..lo] + s[hi..], val);
    assert (s[..lo] + s[hi..])[..lo] == s[..lo] && (s[..lo] + s[hi..])[lo..] == s[hi..];
  }

  lemma CutSearch(s: seq<Interval>, lo: nat, hi: nat, x: int)
    requires StartsSorted(s) && lo <= hi <= |s|
    requires (lo > 0 ==> s[lo - 1].start <= x) && (hi < |s| ==> x < s[hi].start)
    ensures SearchedTo(s[..lo] + s[hi..], lo, x)
  {
    var rest := s[..lo] + s[hi..];
    forall i | 0 <= i < lo ensures rest[i].start <= x { assert rest[i] == s[i] && s[i].start <= s[lo - 1].start; }
    forall i | lo <= i < |rest| ensures x < rest[i].start {
      assert rest[i] == s[i - lo + hi] && s[hi].start <= s[i - lo + hi].start;
    }
  }

  lemma CutStaysSorted(s: seq<Interval>, lo: nat, hi: nat)
    requires StartsSorted(s) && lo <= hi <= |s|
    ensures StartsSorted(s[..lo] + s[hi..])
  {
    var rest := s[..lo] + s[hi..];
    forall i, j | 0 <= i < j < |rest| ensures rest[i].start <= rest[j].start {
      var i', j' := if i < lo then i else i - lo + hi, if j < lo then j else j - lo + hi;
      assert rest[i] == s[i'] && rest[j] == s[j'] && i' < j';
    }
  }

  /** `pos` is where sort.Search stops for `x`. */
  ghost predicate SearchedTo(s: seq<Interval>, pos: int, x: int) {
    && 0 <= pos <= |s|
    && (forall i :: 0 <= i < pos ==> s[i].start <= x)
    && (forall i :: pos <= i < |s| ==> x < s[i].start)
  }

  /** An interval covering `x` reaches the 64-bit maximum, so its `end+1` wraps. */
  ghost predicate WrapsAt(s: seq<Interval>, x: int) {
    exists i :: Holds(s, i, x) && s[i].end == MAX_INT && x != MIN_INT
  }

  lemma WrapsWhere(s: seq<Interval>, pos: nat, x: int)
    requires Canonical(s) && InRange(x) && SearchedTo(s, pos, x)
    ensures WrapsAt(s, x) <==> pos > 0 && s[pos - 1].end == MAX_INT && x != MIN_INT
  {
    if pos > 0 && s[pos - 1].end == MAX_INT && x != MIN_INT {
      assert Holds(s, pos - 1, x);
    }
    if i :| Holds(s, i, x) && s[i].end == MAX_INT && x != MIN_INT {
      assert i == pos - 1;
    }
  }

  /** The list is canonical and stands for `s` and `x`. */
  ghost predicate Extends(s: seq<Interval>, x: int, t: seq<Interval>) {
    Canonical(t) && Plus(s, x, t)
  }

  /** Both neighbours touch `x`. */
  lemma FillGap(s: seq<Interval>, pos: nat, x: int)
    requires Canonical(s) && InRange(x) && SearchedTo(s, pos, x) && 0 < pos < |s|
    requires s[pos - 1].end + 1 >= x && s[pos].start - 1 <= x
    ensures Extends(s, x, Spliced(s, pos - 1, pos + 1, Interval(s[pos - 1].start, s[pos].end)))
    ensures x < s[pos].end && !WrapsAt(s, x)
  {
    var v := Interval(s[pos - 1].start, s[pos].end);
    forall y | v.start <= y <= v.end && y != x ensures Contains(s, y) {
      assert Holds(s, pos - 1, y) || Holds(s, pos, y);
    }
    Replaced(s, pos - 1, pos + 1, v, x);
    WrapsWhere(s, pos, x);
    NotLastStopsEarly(s, pos - 1);
  }

  /** Only the left neighbour touches or covers `x`. */
  lemma ExtendLeft(s: seq<Interval>, pos: nat, x: int)
    requires Canonical(s) && InRange(x) && SearchedTo(s, pos, x) && 0 < pos
    requires s[pos - 1].end + 1 >= x && (s[pos - 1].end == MAX_INT ==> x == MIN_INT)
    requires pos < |s| ==> x + 1 < s[pos].start
    ensures var v := Interval(s[pos - 1].start, if s[pos - 1].end > x then s[pos - 1].end else x);
            Extends(s, x, Spliced(s, pos - 1, pos, v))
    ensures !WrapsAt(s, x)
  {
    var v := Interval(s[pos - 1].start, if s[pos - 1].end > x then s[pos - 1].end else x);
    forall y | v.start <= y <= v.end && y != x ensures Contains(s, y) { assert Holds(s, pos - 1, y); }
    Replaced(s, pos - 1, pos, v, x);
    WrapsWhere(s, pos, x);
  }

  /** Only the right neighbour touches `x`. */
  lemma ExtendRight(s: seq<Interval>, pos: nat, x: int)
    requires Canonical(s) && InRange(x) && SearchedTo(s, pos, x) && pos < |s|
    requires s[pos].start - 1 <= x
    requires pos > 0 ==> s[pos - 1].end + 1 < x
    ensures Extends(s, x, Spliced(s, pos, pos + 1, Interval(x, s[pos].end)))
    ensures !WrapsAt(s, x)
  {
    var v := Interval(x, s[pos].end);
    forall y | v.start <= y <= v.end && y != x ensures Contains(s, y) { assert Holds(s, pos, y); }
    Replaced(s, pos, pos + 1, v, x);
    WrapsWhere(s, pos, x);
  }

  lemma NotLastStopsEarly(s: seq<Interval>, k: nat)
    requires Canonical(s) && k + 1 < |s|
    ensures s[k].end < MAX_INT
  {
    assert s[k + 1].start <= MAX_INT;
  }

  /** After a wrapped comparison the amount is inserted a second time. */
  lemma Duplicated(s: seq<Interval>, pos: nat, x: int)
    requires Canonical(s) && InRange(x) && SearchedTo(s, pos, x) && 0 < pos
    requires s[pos - 1].end == MAX_INT
    ensures var t := Spliced(s, pos, pos, Interval(x, x));
            !Canonical(t) && Plus(s, x, t)
  {
    var t := s[..pos] + [Interval(x, x)] + s[pos..];
    if pos < |s| { NotLastStopsEarly(s, pos - 1); }
    assert t[pos - 1] == s[pos - 1] && t[pos] == Interval(x, x);
    forall y ensures Contains(t, y) <==> Contains(s, y) || y == x {
      if Contains(t, y) {
        var i :| Holds(t, i, y);
        assert Holds(s, if i < pos then i else pos - 1, y);
      }
      if Contains(s, y) {
        var i :| Holds(s, i, y);
        assert Holds(t, i, y);
      }
      if y == x { assert Holds(t, pos, y); }
    }
  }

  /** No neighbour seems to touch `x`: it stands alone, or the comparison wrapped. */
  lemma AddApart(s: seq<Interval>, pos: nat, x: int)
    requires Canonical(s) && InRange(x) && SearchedTo(s, pos, x)
    requires pos > 0 ==> (s[pos - 1].end == MAX_INT && x != MIN_INT) || s[pos - 1].end + 1 < x
    requires pos < |s| ==> x + 1 < s[pos].start
    ensures var t := Spliced(s, pos, pos, Interval(x, x)); Plus(s, x, t) && (Canonical(t) <==> !WrapsAt(s, x))
  {
    WrapsWhere(s, pos, x);
    if pos > 0 && s[pos - 1].end == MAX_INT {
      Duplicated(s, pos, x);
    } else {
      Replaced(s, pos, pos, Interval(x, x), x);
    }
  }

  /** The source's branches, as values. */
  function Merged(s: seq<Interval>, pos: nat, x: int): seq<Interval>
    requires pos <= |s|
  {
    var mergeLeft := pos > 0 && Wrap(s[pos - 1].end + 1) >= x;
    var mergeRight := pos < |s| && Wrap(s[pos].start - 1) <= x;
    if mergeLeft && mergeRight then
      Spliced(s, pos - 1, pos + 1, Interval(s[pos - 1].start, if s[pos].end > x then s[pos].end else x))
    else if mergeLeft then
      Spliced(s, pos - 1, pos, Interval(s[pos - 1].start, if s[pos - 1].end > x then s[pos - 1].end else x))
    else if mergeRight then
      Spliced(s, pos, pos + 1, Interval(if s[pos].start < x then s[pos].start else x, s[pos].end))
    else Spliced(s, pos, pos, Interval(x, x))
  }

  lemma MergedElements(s: seq<Interval>, pos: nat, x: int)
    requires Canonical(s) && InRange(x) && SearchedTo(s, pos, x)
    ensures Plus(s, x, Merged(s, pos, x)) && (Canonical(Merged(s, pos, x)) <==> !WrapsAt(s, x))
  {
    var mergeLeft := pos > 0 && Wrap(s[pos - 1].end + 1) >= x;
    var mergeRight := pos < |s| && Wrap(s[pos].start - 1) <= x;
    if mergeLeft && mergeRight {
      NotLastStopsEarly(s, pos - 1);
      FillGap(s, pos, x);
    } else if mergeLeft {
      ExtendLeft(s, pos, x);
    } else if mergeRight {
      if pos > 0 { NotLastStopsEarly(s, pos - 1); }
      ExtendRight(s, pos, x);
    } else {
      AddApart(s, pos, x);
    }
  }

  /** The branches and the reference version agree wherever nothing wraps. */
  lemma MergedCorrect(s: seq<Interval>, pos: nat, x: int)
    requires Canonical(s) && InRange(x) && SearchedTo(s, pos, x)
    ensures var t := Merged(s, pos, x);
            Plus(s, x, t) && (Canonical(t) <==> !WrapsAt(s, x)) && (Canonical(t) ==> t == AddTo(s, x))
  {
    MergedElements(s, pos, x);
    if Canonical(Merged(s, pos, x)) {
      PlusUnique(s, x, Merged(s, pos, x));
    }
  }

  /** The reference walk ends at the interval the binary search finds. */
  lemma {:induction false} NextFreeAt(s: seq<Interval>, pos: nat, x: int)
    requires Canonical(s) && SearchedTo(s, pos, x)
    ensures NextFree(s, x) == if pos > 0 && x <= s[pos - 1].end then Wrap(s[pos - 1].end + 1) else x
    decreases |s|
  {
    if pos > 1 {
      assert s[0].end + 1 < s[pos - 1].start;
      NextFreeAt(s[1..], pos - 1, x);
    } else if pos == 1 && x > s[0].end {
      NextFreeAt(s[1..], 0, x);
    }
  }

  lemma AroundSearched(s: seq<Interval>, pos: nat, x: int)
    requires StartsSorted(s) && SearchedTo(s, pos, x)
    ensures pos > 0 ==> s[pos - 1].start <= x
    ensures pos > 1 ==> s[pos - 2].start <= s[pos - 1].start
    ensures pos < |s| ==> x < s[pos].start
    ensures pos + 1 < |s| ==> x < s[pos + 1].start
  {
  }

  /** The four cases of an addition: cut out what `x` touches and re-insert the union. */
  method MergeAt(s: seq<Interval>, pos: nat, x: int) returns (res: seq<Interval>)
    requires StartsSorted(s) && SearchedTo(s, pos, x)
    ensures res == Merged(s, pos, x)
  {
    AroundSearched(s, pos, x);
    var mergeLeft := pos > 0 && Wrap(s[pos - 1].end + 1) >= x;
    var mergeRight := pos < |s| && Wrap(s[pos].start - 1) <= x;
    if mergeLeft && mergeRight {
      var left, right := s[pos - 1], s[pos];
      res := Reinsert(s, pos - 1, pos + 1, Interval(left.start, if right.end > x then right.end else x));
    } else if mergeLeft {
      var left := s[pos - 1];
      res := Reinsert(s, pos - 1, pos, Interval(left.start, if left.end > x then left.end else x));
    } else if mergeRight {
      var right := s[pos];
      res := Reinsert(s, pos, pos + 1, Interval(if right.start < x then right.start else x, right.end));
    } else {
      res := Reinsert(s, pos, pos, Interval(x, x));
    }
  }

  // ----- Lists of additions, with the wrap-around -----

  /** Where sort.Search stops, counted from the left. */
  function PosOf(s: seq<Interval>, x: int): (pos: nat)
    ensures pos <= |s|
  {
    if s == [] || x < s[0].start then 0 else 1 + PosOf(s[1..], x)
  }

  lemma {:induction false} PosOfUnique(s: seq<Interval>, pos: nat, x: int)
    requires SearchedTo(s, pos, x)
    ensures PosOf(s, x) == pos
    decreases |s|
  {
    if pos > 0 {
      PosOfUnique(s[1..], pos - 1, x);
    }
  }

  lemma {:induction false} PosOfSearched(s: seq<Interval>, x: int)
    requires StartsSorted(s)
    ensures SearchedTo(s, PosOf(s, x), x)
    decreases |s|
  {
    if s != [] && s[0].start <= x {
      PosOfSearched(s[1..], x);
      var pos := PosOf(s, x);
      forall i | 0 <= i < |s| ensures (i < pos ==> s[i].start <= x) && (pos <= i ==> x < s[i].start) {
        assert i > 0 ==> s[i] == s[1..][i - 1];
      }
    }
  }

  /** One addition as the source makes it, on any list. */
  function Stepped(s: seq<Interval>, x: int): seq<Interval> {
    Merged(s, PosOf(s, x), x)
  }

  lemma SplicedStaysSorted(s: seq<Interval>, lo: nat, hi: nat, v: Interval)
    requires StartsSorted(s) && lo <= hi <= |s|
    requires (lo > 0 ==> s[lo - 1].start <= v.start) && (hi < |s| ==> v.start <= s[hi].start)
    ensures StartsSorted(Spliced(s, lo, hi, v))
  {
    var t := Spliced(s, lo, hi, v);
    forall i, j | 0 <= i < j < |t| ensures t[i].start <= t[j].start {
      assert i < lo ==> t[i] == s[i] && s[i].start <= s[lo - 1].start;
      assert i > lo ==> t[i] == s[i - lo - 1 + hi];
      assert j < lo ==> t[j] == s[j];
      assert j > lo ==> t[j] == s[j - lo - 1 + hi] && s[hi].start <= t[j].start;
    }
  }

  /** Every addition keeps the list sorted by start, wrapped or not. */
  lemma SteppedStaysSorted(s: seq<Interval>, pos: nat, x: int)
    requires StartsSorted(s) && SearchedTo(s, pos, x)
    ensures StartsSorted(Merged(s, pos, x))
  {
    if pos > 0 {
      SplicedStaysSorted(s, pos - 1, pos, Interval(s[pos - 1].start, if s[pos - 1].end > x then s[pos - 1].end else x));
      if pos < |s| {
        SplicedStaysSorted(s, pos - 1, pos + 1, Interval(s[pos - 1].start, if s[pos].end > x then s[pos].end else x));
      }
    }
    if pos < |s| { SplicedStaysSorted(s, pos, pos + 1, Interval(x, s[pos].end)); }
    SplicedStaysSorted(s, pos, pos, Interval(x, x));
  }

  /** The source's additions, first to last. */
  function SourceAdds(xs: seq<int>): seq<Interval> {
    if xs == [] then [] else Stepped(SourceAdds(xs[..|xs| - 1]), xs[|xs| - 1])
  }

  /** Every amount from `xs[i]` to the 64-bit maximum, `xs[i]` included, was added before. */
  ghost predicate RepeatsTop(xs: seq<int>, i: nat)
    requires i < |xs|
  {
    xs[i] != MIN_INT && forall y :: xs[i] <= y <= MAX_INT ==> y in xs[..i]
  }

  lemma WrapsIfExhausted(s: seq<Interval>, x: int)
    requires Canonical(s) && InRange(x)
    ensures WrapsAt(s, x) <==> Exhausted(s, x) && x != MIN_INT
  {
    PosOfSearched(s, x);
    var pos := PosOf(s, x);
    WrapsWhere(s, pos, x);
    NextFreeAt(s, pos, x);
    NextFreeCorrect(s, x);
    if WrapsAt(s, x) {
      forall y | x <= y <= MAX_INT ensures Contains(s, y) { assert Holds(s, pos - 1, y); }
    }
  }

  lemma StepExact(xs: seq<int>, i: nat)
    requires i < |xs| && forall x :: x in xs ==> InRange(x)
    ensures Stepped(AddAll(xs[..i]), xs[i]) == AddAll(xs[..i + 1]) <==> !RepeatsTop(xs, i)
  {
    var s, x := AddAll(xs[..i]), xs[i];
    assert xs[..i + 1][..i] == xs[..i];
    AddAllCorrect(xs[..i]);
    AddAllCorrect(xs[..i + 1]);
    PosOfSearched(s, x);
    MergedCorrect(s, PosOf(s, x), x);
    WrapsIfExhausted(s, x);
  }

  ghost predicate AgreesAlong(xs: seq<int>) {
    forall k :: 0 <= k <= |xs| ==> SourceAdds(xs[..k]) == AddAll(xs[..k])
  }

  lemma SourceAddsStep(xs: seq<int>, i: nat)
    requires i < |xs|
    ensures SourceAdds(xs[..i + 1]) == Stepped(SourceAdds(xs[..i]), xs[i])
  {
    assert xs[..i + 1][..i] == xs[..i];
  }

  lemma {:induction false} AgreesUpTo(xs: seq<int>, k: nat)
    requires k <= |xs| && forall x :: x in xs ==> InRange(x)
    requires forall i :: 0 <= i < |xs| ==> !RepeatsTop(xs, i)
    ensures SourceAdds(xs[..k]) == AddAll(xs[..k])
  {
    if k > 0 {
      AgreesUpTo(xs, k - 1);
      SourceAddsStep(xs, k - 1);
      StepExact(xs, k - 1);
    }
  }

  /**
  The source's list is the canonical one after every addition if and only if no addition repeats
  an amount from which everything up to the 64-bit maximum is already there.
  */
  lemma SourceAddsExact(xs: seq<int>)
    requires forall x :: x in xs ==> InRange(x)
    ensures AgreesAlong(xs) <==> forall i :: 0 <= i < |xs| ==> !RepeatsTop(xs, i)
  {
    if AgreesAlong(xs) {
      forall i | 0 <= i < |xs| ensures !RepeatsTop(xs, i) {
        SourceAddsStep(xs, i);
        StepExact(xs, i);
      }
    } else {
      var k :| 0 <= k <= |xs| && SourceAdds(xs[..k]) != AddAll(xs[..k]);
      if forall i :: 0 <= i < |xs| ==> !RepeatsTop(xs, i) { AgreesUpTo(xs, k); }
    }
  }

  /** Order and repetition of the source's additions leave no trace in the list, where nothing repeats the top. */
  lemma SourceOrderIrrelevant(xs: seq<int>, ys: seq<int>)
    requires forall x :: x in xs ==> InRange(x)
    requires forall x :: x in xs <==> x in ys
    requires forall i :: 0 <= i < |xs| ==> !RepeatsTop(xs, i)
    requires forall i :: 0 <= i < |ys| ==> !RepeatsTop(ys, i)
    ensures SourceAdds(xs) == SourceAdds(ys)
  {
    SourceAddsExact(xs);
    SourceAddsExact(ys);
    AddOrderIrrelevant(xs, ys);
    assert xs[..|xs|] == xs && ys[..|ys|] == ys;
  }

  /** Adding the largest amount twice stores it twice: once and twice give different lists. */
  lemma LargestAddedTwice()
    ensures SourceAdds([MAX_INT]) == AddAll([MAX_INT]) == AddAll([MAX_INT, MAX_INT]) == [Interval(MAX_INT, MAX_INT)]
    ensures SourceAdds([MAX_INT, MAX_INT]) == [Interval(MAX_INT, MAX_INT), Interval(MAX_INT, MAX_INT)]
  {
    var once, top := [MAX_INT], [Interval(MAX_INT, MAX_INT)];
    assert once[..0] == [] && [MAX_INT, MAX_INT][..1] == once;
    assert SourceAdds(once) == Stepped([], MAX_INT) == top;
    assert AddAll(once) == AddTo([], MAX_INT) == top;
    PosOfUnique(top, 1, MAX_INT);
    assert Stepped(top, MAX_INT) == Spliced(top, 1, 1, Interval(MAX_INT, MAX_INT));
    assert AddAll([MAX_INT, MAX_INT]) == AddTo(top, MAX_INT);
  }

  /** The mutable set of the source. */
  class IntervalSet {
    var intervals: seq<Interval>

    constructor ()
      ensures intervals == []
    {
      intervals := [];
    }

    /**
    Needs no more than sorted starts and keeps them. From the normal form exactly `x` joins the
    represented set; the normal form is kept exactly when the left neighbour's `end+1` does not
    wrap, and then the list is the reference one.
    */
    method Add(x: int)
      requires StartsSorted(intervals) && InRange(x)
      modifies this
      ensures intervals == Stepped(old(intervals), x) && StartsSorted(intervals)
      ensures Canonical(old(intervals)) ==>
                && Plus(old(intervals), x, intervals)
                && (Canonical(intervals) <==> !WrapsAt(old(intervals), x))
                && (Canonical(intervals) ==> intervals == AddTo(old(intervals), x))
    {
      var pos := SearchStart(intervals, x);
      PosOfUnique(intervals, pos, x);
      SteppedStaysSorted(intervals, pos, x);
      if Canonical(intervals) {
        MergedCorrect(intervals, pos, x);
      }
      intervals := MergeAt(intervals, pos, x);
    }

    /** The least unused amount from `x` on; past the 64-bit maximum it wraps to the smallest integer. */
    method NextMissing(x: int) returns (r: int)
      requires Canonical(intervals) && InRange(x)
      ensures r == NextFree(intervals, x)
      ensures IsLeastFree(intervals, x, r) <==> !Exhausted(intervals, x)
    {
      NextFreeCorrect(intervals, x);
      var pos := SearchStart(intervals, x);
      NextFreeAt(intervals, pos, x);
      if pos > 0 {
        var prev := intervals[pos - 1];
        if x >= prev.start && x <= prev.end {
          return Wrap(prev.end + 1);
        }
      }
      return x;
    }
  }
}
