/** The hard-disk request queue of kernel/hd.c: sorted insertion behind the first two
    entries, one request served at a time.
 */
module Elevator {

  /** A request in slot `slot` of the request table: drive, cylinder, head, sector. */
  datatype Request = Request(slot: int, hd: int, cyl: int, head: int, sector: int)

  /** IN_ORDER */
  predicate InOrder(a: Request, b: Request) {
    a.hd < b.hd || (a.hd == b.hd &&
    (a.cyl < b.cyl || (a.cyl == b.cyl &&
    (a.head < b.head || (a.head == b.head &&
    a.sector < b.sector)))))
  }

  predicate SamePlace(a: Request, b: Request) {
    a.hd == b.hd && a.cyl == b.cyl && a.head == b.head && a.sector == b.sector
  }

  // ---------------------------------------------------------------- add_request on values

  /** The condition that stops add_request's loop between a and b. */
  predicate Fits(a: Request, r: Request, b: Request) {
    (InOrder(a, r) || !InOrder(a, b)) && InOrder(r, b)
  }

  /** Index of the entry after which r goes, searching from index i. */
  function Gap(q: seq<Request>, r: Request, i: nat): (g: nat)
    requires 1 <= i < |q|
    ensures i <= g < |q|
    ensures g + 1 < |q| ==> Fits(q[g], r, q[g + 1])
    ensures forall j :: i <= j < g ==> !Fits(q[j], r, q[j + 1])
    decreases |q| - i
  {
    if i + 1 == |q| || Fits(q[i], r, q[i + 1]) then i else Gap(q, r, i + 1)
  }

  function Insert(q: seq<Request>, i: nat, r: Request): seq<Request>
    requires i <= |q|
  {
    q[..i] + [r] + q[i..]
  }

  /** Where r ends up in the queue. */
  function Place(q: seq<Request>, r: Request): (p: nat)
    ensures p <= |q| && (p >= 2 || p == |q|)
  {
    if |q| <= 1 then |q| else Gap(q, r, 1) + 1
  }

  function Add(q: seq<Request>, r: Request): seq<Request> {
    Insert(q, Place(q, r), r)
  }

  /** Where the new request goes: the first place behind the second entry where it comes before the next one, and after the
      one before it unless the order turns there; otherwise the end. */
  lemma AddLaw(q: seq<Request>, r: Request) returns (p: nat)
    ensures p <= |q| && Add(q, r) == q[..p] + [r] + q[p..] && (p < |q| ==> p >= 2)
    ensures p < |q| ==> InOrder(r, q[p]) && (InOrder(q[p - 1], r) || !InOrder(q[p - 1], q[p]))
    ensures forall i :: 1 <= i < p - 1 ==> !(InOrder(r, q[i + 1]) && (InOrder(q[i], r) || !InOrder(q[i], q[i + 1])))
  {
    p := Place(q, r);
    if |q| > 1 {
      var g := Gap(q, r, 1);
      assert g + 1 < |q| ==> Fits(q[g], r, q[g + 1]);
      forall i | 1 <= i < g
        ensures !Fits(q[i], r, q[i + 1])
      {
      }
    }
  }

  /** Exactly the new request is added, and the first two entries are never touched. */
  lemma AddKeeps(q: seq<Request>, r: Request)
    ensures multiset(Add(q, r)) == multiset(q) + multiset{r}
    ensures |q| >= 1 ==> Add(q, r)[0] == q[0]
    ensures |q| >= 2 ==> Add(q, r)[1] == q[1]
    ensures |Add(q, r)| == |q| + 1 && Add(q, r)[..Place(q, r)] == q[..Place(q, r)] && Add(q, r)[Place(q, r) + 1..] == q[Place(q, r)..]
  {
    var p := Place(q, r);
    assert q == q[..p] + q[p..];
  }

  // ---------------------------------------------------------------- sweeps

  function Drop(a: Request, b: Request): nat {
    if InOrder(a, b) then 0 else 1
  }

  /** Number of places where the head of the disk has to turn back. */
  function Descents(t: seq<Request>): nat {
    if |t| < 2 then 0 else Drop(t[0], t[1]) + Descents(t[1..])
  }

  lemma {:induction false} DescentsConcat(a: seq<Request>, b: seq<Request>)
    requires a != [] && b != []
    ensures Descents(a + b) == Descents(a) + Drop(a[|a| - 1], b[0]) + Descents(b)
  {
    if |a| == 1 {
      assert (a + b)[1..] == b;
    } else {
      DescentsConcat(a[1..], b);
      assert (a + b)[1..] == a[1..] + b;
    }
  }

  /** Descents after an insertion strictly inside t. */
  lemma DescentsInsert(t: seq<Request>, i: nat, r: Request)
    requires 0 < i < |t|
    ensures Descents(Insert(t, i, r)) == Descents(t) - Drop(t[i - 1], t[i]) + Drop(t[i - 1], r) + Drop(r, t[i])
  {
    var a, b := t[..i], t[i..];
    assert t == a + b;
    DescentsConcat(a, b);
    DescentsConcat(a, [r]);
    DescentsConcat(a + [r], b);
    assert Insert(t, i, r) == (a + [r]) + b;
  }

  /** Without a descent, earlier means smaller. */
  lemma {:induction false} Ascending(t: seq<Request>, i: nat, j: nat)
    requires Descents(t) == 0 && i < j < |t|
    ensures InOrder(t[i], t[j])
  {
    if i > 0 {
      Ascending(t[1..], i - 1, j - 1);
    } else if j > 1 {
      Ascending(t[1..], 0, j - 1);
    }
  }

  lemma {:induction false} NoDescentAt(t: seq<Request>, i: nat)
    requires i + 1 < |t|
    ensures Descents(t) >= Drop(t[i], t[i + 1])
    ensures Descents(t) == Drop(t[i], t[i + 1]) + Descents(t[..i + 1]) + Descents(t[i + 1..])
  {
    assert t == t[..i + 1] + t[i + 1..];
    DescentsConcat(t[..i + 1], t[i + 1..]);
  }

  /** If r fits nowhere in t but is above t's first entry and t has no descent, r is above all of t. */
  lemma {:induction false} AboveAll(t: seq<Request>, r: Request, j: nat)
    requires j < |t| && InOrder(t[0], r)
    requires Descents(t) == 0 && forall i :: 0 <= i < |t| - 1 ==> !Fits(t[i], r, t[i + 1])
    requires forall i :: 0 <= i < |t| ==> !SamePlace(t[i], r)
    ensures InOrder(t[j], r)
  {
    if j > 0 {
      AboveAll(t, r, j - 1);
      assert !Fits(t[j - 1], r, t[j - 1 + 1]);
    }
  }

  /** r is at the place of an entry behind a descent of t. */
  ghost predicate BehindDescent(t: seq<Request>, r: Request) {
    exists d, j :: 0 <= d < j < |t| && !InOrder(t[d], t[d + 1]) && SamePlace(t[j], r)
  }

  /** Appending a request that fits nowhere: a third sweep appears exactly when r repeats a place of the second. */
  lemma AppendDescents(t: seq<Request>, r: Request)
    requires t != [] && Descents(t) <= 1
    requires forall i :: 0 <= i < |t| - 1 ==> !Fits(t[i], r, t[i + 1])
    ensures Descents(t + [r]) <= 1 <==> !BehindDescent(t, r)
  {
    DescentsConcat(t, [r]);
    if Descents(t) == 1 {
      var d := FindDescent(t);
      OnlyDescent(t, d);
      AppendBehind(t, r, d);
    } else {
      forall d | 0 <= d < |t| - 1
        ensures InOrder(t[d], t[d + 1])
      {
        NoDescentAt(t, d);
      }
    }
  }

  lemma AppendBehind(t: seq<Request>, r: Request, d: nat)
    requires d + 1 < |t| && Descents(t) == 1 && !InOrder(t[d], t[d + 1])
    requires forall i :: 0 <= i < |t| - 1 ==> !Fits(t[i], r, t[i + 1])
    ensures InOrder(t[|t| - 1], r) <==> forall j :: d < j < |t| ==> !SamePlace(t[j], r)
  {
    NoDescentAt(t, d);
    var b := t[d + 1..];
    assert !Fits(t[d], r, t[d + 1]);
    forall i | 0 <= i < |b| - 1
      ensures !Fits(b[i], r, b[i + 1])
    {
      assert !Fits(t[d + 1 + i], r, t[d + 1 + i + 1]);
    }
    LastSweep(b, r);
    assert forall j :: d < j < |t| ==> t[j] == b[j - d - 1];
    assert forall i :: 0 <= i < |b| ==> b[i] == t[d + 1 + i];
  }

  lemma LastSweep(b: seq<Request>, r: Request)
    requires b != [] && Descents(b) == 0 && !InOrder(r, b[0])
    requires forall i :: 0 <= i < |b| - 1 ==> !Fits(b[i], r, b[i + 1])
    ensures InOrder(b[|b| - 1], r) <==> forall j :: 0 <= j < |b| ==> !SamePlace(b[j], r)
  {
    if j :| 0 <= j < |b| && SamePlace(b[j], r) {
      if j < |b| - 1 {
        Ascending(b, j, |b| - 1);
      }
    } else {
      AboveAll(b, r, |b| - 1);
    }
  }

  lemma OnlyDescent(t: seq<Request>, d: nat)
    requires d + 1 < |t| && Descents(t) == 1 && !InOrder(t[d], t[d + 1])
    ensures forall d' :: 0 <= d' < |t| - 1 && d' != d ==> InOrder(t[d'], t[d' + 1])
  {
    NoDescentAt(t, d);
    var a, b := t[..d + 1], t[d + 1..];
    forall d' | 0 <= d' < |t| - 1 && d' != d
      ensures InOrder(t[d'], t[d' + 1])
    {
      if d' < d {
        NoDescentAt(a, d');
      } else {
        NoDescentAt(b, d' - d - 1);
      }
    }
  }

  lemma {:induction false} FindDescent(t: seq<Request>) returns (d: nat)
    requires Descents(t) >= 1
    ensures d + 1 < |t| && !InOrder(t[d], t[d + 1])
  {
    if !InOrder(t[0], t[1]) {
      d := 0;
    } else {
      d := FindDescent(t[1..]);
      d := d + 1;
    }
  }

  /** Everything behind the current request is at most two upward sweeps. */
  predicate TwoSweeps(q: seq<Request>) {
    q == [] || Descents(q[1..]) <= 1
  }

  /** The head of the disk turns back between entries i and i+1. */
  predicate TurnsAt(q: seq<Request>, i: nat) { i + 1 < |q| && !InOrder(q[i], q[i + 1]) }

  /** In other words: behind the current request there are no two turns. */
  lemma TwoSweepsLaw(q: seq<Request>)
    ensures TwoSweeps(q) <==> forall i: nat, j: nat :: 1 <= i < j && TurnsAt(q, i) ==> !TurnsAt(q, j)
  {
    if q != [] {
      var t := q[1..];
      if Descents(t) >= 2 {
        var i, j := TwoTurns(t);
        assert TurnsAt(q, i + 1) && TurnsAt(q, j + 1);
      }
      forall i: nat, j: nat | Descents(t) <= 1 && 1 <= i < j && TurnsAt(q, i)
        ensures !TurnsAt(q, j)
      {
        NoDescentAt(t, i - 1);
        OnlyDescent(t, i - 1);
        assert j + 1 < |q| ==> InOrder(t[j - 1], t[j - 1 + 1]);
      }
    }
  }

  lemma TwoTurns(t: seq<Request>) returns (i: nat, j: nat)
    requires Descents(t) >= 2
    ensures i < j && j + 1 < |t| && !InOrder(t[i], t[i + 1]) && !InOrder(t[j], t[j + 1])
  {
    var d := FindDescent(t);
    NoDescentAt(t, d);
    if Descents(t[..d + 1]) >= 1 {
      i := FindDescent(t[..d + 1]);
      j := d;
    } else {
      i := d;
      j := FindDescent(t[d + 1..]);
      j := j + d + 1;
    }
  }

  predicate DistinctFrom(q: seq<Request>, r: Request) {
    forall i :: 0 <= i < |q| ==> !SamePlace(q[i], r)
  }

  /** r fits nowhere behind the current request and repeats a place of the second sweep. */
  ghost predicate Clash(q: seq<Request>, r: Request) {
    |q| >= 2 && (forall i :: 1 <= i < |q| - 1 ==> !Fits(q[i], r, q[i + 1])) && BehindDescent(q[1..], r)
  }

  /** Insertion keeps the two sweeps exactly when there is no clash. */
  lemma AddTwoSweeps(q: seq<Request>, r: Request)
    requires TwoSweeps(q)
    ensures TwoSweeps(Add(q, r)) <==> !Clash(q, r)
    ensures DistinctFrom(q, r) ==> TwoSweeps(Add(q, r))
  {
    if |q| >= 2 {
      var t, g := q[1..], Gap(q, r, 1);
      assert Add(q, r)[1..] == Insert(t, g, r);
      if g + 1 < |q| {
        DescentsInsert(t, g, r);
        assert Fits(t[g - 1], r, t[g]) && Fits(q[g], r, q[g + 1]);
      } else {
        forall i | 0 <= i < |t| - 1
          ensures !Fits(t[i], r, t[i + 1])
        {
          assert !Fits(q[i + 1], r, q[i + 1 + 1]);
        }
        assert Insert(t, g, r) == t + [r];
        AppendDescents(t, r);
      }
    }
  }

  lemma DoneTwoSweeps(q: seq<Request>)
    requires TwoSweeps(q) && q != []
    ensures TwoSweeps(q[1..])
  {
  }

  /** A clash does happen: a second request for one sector can leave three sweeps. */
  lemma SamePlaceBreaksSweeps()
    ensures exists q: seq<Request>, r: Request :: TwoSweeps(q) && !TwoSweeps(Add(q, r))
  {
    var a, b, c, d := Request(0, 0, 5, 0, 1), Request(1, 0, 5, 0, 1), Request(2, 0, 3, 0, 1), Request(3, 0, 3, 0, 1);
    var q := [a, b, c];
    assert q[1..] == [b, c];
    assert Descents([b, c]) == 1 by { assert [b, c][1..] == [c]; }
    assert SamePlace([b, c][1], d) && !InOrder([b, c][0], [b, c][1]);
    assert !Fits(b, d, c);
    AddTwoSweeps(q, d);
  }

  // ---------------------------------------------------------------- no starvation

  /** What the controller code accepts: two drives, sixteen heads, an eight-bit sector register. */
  predicate InRange(r: Request, cyls: nat) {
    0 <= r.hd < 2 && 0 <= r.cyl < cyls && 0 <= r.head < 16 && 0 <= r.sector < 256
  }

  /** Position along both drives, in the order of IN_ORDER. */
  function Position(r: Request, cyls: nat): int {
    ((if r.hd == 0 then r.cyl else cyls + r.cyl) * 16 + r.head) * 256 + r.sector
  }

  function Positions(cyls: nat): nat { 2 * cyls * 16 * 256 }

  lemma PositionOrder(a: Request, b: Request, cyls: nat)
    requires InRange(a, cyls) && InRange(b, cyls)
    ensures InOrder(a, b) <==> Position(a, cyls) < Position(b, cyls)
    ensures 0 <= Position(a, cyls) < Positions(cyls)
  {
  }

  predicate AllInRange(q: seq<Request>, cyls: nat) {
    forall i :: 0 <= i < |q| ==> InRange(q[i], cyls)
  }

  /** Turns still ahead of entry k, then the distance from the first waiting request to the end of the disk. */
  function Wait(q: seq<Request>, k: nat, cyls: nat): int
    requires 1 <= k < |q|
  {
    Descents(q[1..k + 1]) * Positions(cyls) + (Positions(cyls) - 1 - Position(q[1], cyls))
  }

  /** A request that fits between two others brings no new turn. */
  lemma FitsAddsNoTurn(t: seq<Request>, i: nat, r: Request)
    requires 0 < i < |t| && Fits(t[i - 1], r, t[i])
    ensures Descents(Insert(t, i, r)) <= Descents(t)
  {
    DescentsInsert(t, i, r);
  }

  lemma InsertSlice(q: seq<Request>, p: nat, r: Request, k: nat)
    requires 2 <= p <= k < |q|
    ensures Insert(q, p, r)[1..k + 2] == Insert(q[1..k + 1], p - 1, r)
  {
  }

  /** Whatever arrives, the wait of a queued request does not grow. */
  lemma ArrivalKeepsWait(q: seq<Request>, k: nat, r: Request, cyls: nat) returns (k': nat)
    requires 1 <= k < |q|
    ensures 1 <= k' < |Add(q, r)| && Add(q, r)[k'] == q[k]
    ensures Wait(Add(q, r), k', cyls) <= Wait(q, k, cyls)
  {
    var p := Place(q, r);
    if k < p {
      k' := k;
      assert Add(q, r)[1..k + 1] == q[1..k + 1];
    } else {
      k' := k + 1;
      FitsAddsNoTurn(q[1..k + 1], p - 1, r);
      InsertSlice(q, p, r, k);
      Scale(Descents(Add(q, r)[1..k' + 1]), Descents(q[1..k + 1]), Positions(cyls));
    }
  }

  lemma Scale(a: nat, b: nat, m: nat)
    requires a <= b
    ensures a * m <= b * m
  {
  }

  lemma OneMore(d: nat, m: nat)
    ensures (d + 1) * m == d * m + m
  {
  }

  /** Every completion shortens the wait. */
  lemma CompletionShortensWait(q: seq<Request>, k: nat, cyls: nat)
    requires 2 <= k < |q| && AllInRange(q, cyls)
    ensures Wait(q[1..], k - 1, cyls) < Wait(q, k, cyls)
  {
    var t := q[1..k + 1];
    assert q[1..][1..k] == t[1..];
    assert Descents(t) == Drop(t[0], t[1]) + Descents(t[1..]);
    PositionOrder(q[1], q[2], cyls);
    PositionOrder(q[2], q[1], cyls);
    if !InOrder(t[0], t[1]) {
      OneMore(Descents(t[1..]), Positions(cyls));
      assert Descents(t) == Descents(t[1..]) + 1;
    }
  }

  datatype Event = Arrival(r: Request) | Completion

  function Step(q: seq<Request>, ev: Event): seq<Request> {
    match ev
    case Arrival(r) => Add(q, r)
    case Completion => if q == [] then q else q[1..]
  }

  function Run(q: seq<Request>, evs: seq<Event>): seq<Request>
    decreases |evs|
  {
    if evs == [] then q else Run(Step(q, evs[0]), evs[1..])
  }

  /** The property at every moment of a run. */
  predicate AlwaysTwoSweeps(q: seq<Request>, evs: seq<Event>)
    decreases |evs|
  {
    TwoSweeps(q) && (evs == [] || AlwaysTwoSweeps(Step(q, evs[0]), evs[1..]))
  }

  /** No arrival of the run clashes with the queue it meets. */
  ghost predicate NoClashes(q: seq<Request>, evs: seq<Event>)
    decreases |evs|
  {
    evs == [] || ((evs[0].Arrival? ==> !Clash(q, evs[0].r)) && NoClashes(Step(q, evs[0]), evs[1..]))
  }

  /** Every arrival of the run is for a place that is not queued when it comes. */
  predicate DistinctArrivals(q: seq<Request>, evs: seq<Event>)
    decreases |evs|
  {
    evs == [] || ((evs[0].Arrival? ==> DistinctFrom(q, evs[0].r)) && DistinctArrivals(Step(q, evs[0]), evs[1..]))
  }

  /** Over every run, behind the current request there is at most one descent all the time exactly when no arrival clashes;
      arrivals for places that are not queued never do. */
  lemma {:induction false} SweepsOverRuns(q: seq<Request>, evs: seq<Event>)
    requires TwoSweeps(q)
    ensures AlwaysTwoSweeps(q, evs) <==> NoClashes(q, evs)
    ensures DistinctArrivals(q, evs) ==> AlwaysTwoSweeps(q, evs) && TwoSweeps(Run(q, evs))
    decreases |evs|
  {
    if evs != [] {
      var q' := Step(q, evs[0]);
      match evs[0] {
        case Arrival(r) => AddTwoSweeps(q, r);
        case Completion => if q != [] { DoneTwoSweeps(q); }
      }
      if TwoSweeps(q') {
        SweepsOverRuns(q', evs[1..]);
      }
    }
  }

  function Completions(evs: seq<Event>): nat {
    if evs == [] then 0 else (if evs[0].Completion? then 1 else 0) + Completions(evs[1..])
  }

  predicate ArrivalsInRange(evs: seq<Event>, cyls: nat) {
    forall i :: 0 <= i < |evs| && evs[i].Arrival? ==> InRange(evs[i].r, cyls)
  }

  lemma WaitIsNatural(q: seq<Request>, k: nat, cyls: nat)
    requires 1 <= k < |q| && AllInRange(q, cyls)
    ensures Wait(q, k, cyls) >= 0
  {
    PositionOrder(q[1], q[1], cyls);
    Scale(0, Descents(q[1..k + 1]), Positions(cyls));
  }

  /** One event of either kind, for a request that does not become current with it. */
  lemma Onward(q: seq<Request>, k: nat, ev: Event, cyls: nat) returns (k': nat)
    requires 1 <= k < |q| && AllInRange(q, cyls) && (ev.Arrival? ==> InRange(ev.r, cyls)) && (ev.Completion? ==> k > 1)
    ensures 1 <= k' < |Step(q, ev)| && Step(q, ev)[k'] == q[k] && AllInRange(Step(q, ev), cyls)
    ensures Wait(Step(q, ev), k', cyls) <= Wait(q, k, cyls) - if ev.Completion? then 1 else 0
  {
    match ev
    case Arrival(r) => k' := ArrivalKeepsWait(q, k, r, cyls);
    case Completion =>
      CompletionShortensWait(q, k, cyls);
      k' := k - 1;
  }

  /** No request starves: after Wait + 1 completions it has been the current one, whatever arrived meanwhile. */
  lemma {:induction false} NoStarvation(q: seq<Request>, k: nat, evs: seq<Event>, cyls: nat) returns (n: nat)
    requires 1 <= k < |q| && AllInRange(q, cyls) && ArrivalsInRange(evs, cyls)
    requires Completions(evs) > Wait(q, k, cyls)
    ensures n <= |evs| && Run(q, evs[..n]) != [] && Run(q, evs[..n])[0] == q[k]
    decreases |evs|
  {
    WaitIsNatural(q, k, cyls);
    assert evs != [];
    if evs[0].Completion? && k == 1 {
      n := 1;
      assert evs[..1][1..] == [];
    } else {
      var k' := Onward(q, k, evs[0], cyls);
      n := NoStarvation(Step(q, evs[0]), k', evs[1..], cyls);
      n := n + 1;
    }
    assert n >= 1 && evs[..n][0] == evs[0] && evs[..n][1..] == evs[1..][..n - 1];
  }

  lemma {:induction false} FewDescents(t: seq<Request>)
    ensures Descents(t) <= if |t| == 0 then 0 else |t| - 1
  {
    if |t| >= 2 {
      FewDescents(t[1..]);
    }
  }

  /** In numbers: entry k is current after k passes over two drives of cyls cylinders, 16 heads and 256 sectors. */
  lemma NoStarvationBound(q: seq<Request>, k: nat, evs: seq<Event>, cyls: nat) returns (n: nat)
    requires 1 <= k < |q| && AllInRange(q, cyls) && ArrivalsInRange(evs, cyls)
    requires Completions(evs) >= k * (2 * cyls * 16 * 256)
    ensures n <= |evs| && Run(q, evs[..n]) != [] && Run(q, evs[..n])[0] == q[k]
  {
    FewDescents(q[1..k + 1]);
    PositionOrder(q[1], q[1], cyls);
    Scale(Descents(q[1..k + 1]), k - 1, Positions(cyls));
    OneMore(k - 1, Positions(cyls));
    n := NoStarvation(q, k, evs, cyls);
  }

  /** With two sweeps the bound is two passes over the disk, independent of the queue's length. */
  lemma TwoSweepBound(q: seq<Request>, k: nat, evs: seq<Event>, cyls: nat) returns (n: nat)
    requires TwoSweeps(q) && 1 <= k < |q| && AllInRange(q, cyls) && ArrivalsInRange(evs, cyls)
    requires Completions(evs) >= 2 * Positions(cyls)
    ensures n <= |evs| && Run(q, evs[..n]) != [] && Run(q, evs[..n])[0] == q[k]
  {
    var t := q[1..];
    if k + 1 < |q| {
      NoDescentAt(t, k - 1);
      assert t[..k] == q[1..k + 1];
    } else {
      assert t == q[1..k + 1];
    }
    PositionOrder(q[1], q[1], cyls);
    Scale(Descents(q[1..k + 1]), 1, Positions(cyls));
    n := NoStarvation(q, k, evs, cyls);
  }

  // ---------------------------------------------------------------- rw_hd

  /** Sector r of a track: cylinder and head. */
  function OnTrack(slot: int, hd: int, track: nat, r: nat, heads: nat): Request
    requires heads > 0
  {
    Request(slot, hd, track / heads, track % heads, r + 1)
  }

  /** The split of an absolute sector number into cylinder, head and sector. */
  function Chs(slot: int, hd: int, block: nat, sects: nat, heads: nat): Request
    requires sects > 0 && heads > 0
  {
    OnTrack(slot, hd, block / sects, block % sects, heads)
  }

  lemma DivOrder(a: nat, b: nat, m: nat)
    requires m > 0
    ensures a < b <==> a / m < b / m || (a / m == b / m && a % m < b % m)
  {
    QuotientOrder(a / m, a % m, b / m, b % m, m);
  }

  lemma QuotientOrder(q1: nat, r1: nat, q2: nat, r2: nat, m: nat)
    requires r1 < m && r2 < m
    ensures m * q1 + r1 < m * q2 + r2 <==> q1 < q2 || (q1 == q2 && r1 < r2)
  {
    if q1 < q2 {
      Scale(q1 + 1, q2, m);
    } else if q2 < q1 {
      Scale(q2 + 1, q1, m);
    }
  }

  lemma Trichotomy(x: Request, y: Request)
    ensures SamePlace(x, y) <==> !InOrder(x, y) && !InOrder(y, x)
  {
  }

  lemma TracksInOrder(s1: int, s2: int, hd: int, t1: nat, r1: nat, t2: nat, r2: nat, heads: nat)
    requires heads > 0
    ensures InOrder(OnTrack(s1, hd, t1, r1, heads), OnTrack(s2, hd, t2, r2, heads)) <==> t1 < t2 || (t1 == t2 && r1 < r2)
  {
    DivOrder(t1, t2, heads);
    DivOrder(t2, t1, heads);
  }

  lemma ChsInOrder(s1: int, s2: int, hd: int, a: nat, b: nat, sects: nat, heads: nat)
    requires sects > 0 && heads > 0
    ensures InOrder(Chs(s1, hd, a, sects, heads), Chs(s2, hd, b, sects, heads)) <==> a < b
  {
    DivOrder(a, b, sects);
    TracksInOrder(s1, s2, hd, a / sects, a % sects, b / sects, b % sects, heads);
  }

  /** On one drive, IN_ORDER is the order of absolute sector numbers. */
  lemma ChsOrder(s1: int, s2: int, hd: int, a: nat, b: nat, sects: nat, heads: nat)
    requires sects > 0 && heads > 0
    ensures InOrder(Chs(s1, hd, a, sects, heads), Chs(s2, hd, b, sects, heads)) <==> a < b
    ensures SamePlace(Chs(s1, hd, a, sects, heads), Chs(s2, hd, b, sects, heads)) <==> a == b
  {
    ChsInOrder(s1, s2, hd, a, b, sects, heads);
    ChsInOrder(s2, s1, hd, b, a, sects, heads);
    Trichotomy(Chs(s1, hd, a, sects, heads), Chs(s2, hd, b, sects, heads));
  }
}
