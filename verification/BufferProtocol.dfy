/** The retry protocol of fs/buffer.c between its sleep points.

    Tasks run one at a time and change at sleep points only.  A task asleep in wait_on_buffer may
    wake at any moment, and the scan of the free list may settle on any buffer whose count is 0:
    every interleaving of the source is one of these.
 */
module BufferProtocol {
  import opened Sets

  /** hashed: on a hash chain; free: on the free list (buffers in use stay on it, too). */
  datatype Buffer = Buffer(dev: int, block: int, count: int, hashed: bool, free: bool)

  /** Where a task is.  Each but Ready is a sleep point. */
  datatype Where =
    | Ready
    | Found(dev: int, block: int, b: int)      // get_hash_table, count already raised
    | Candidate(dev: int, block: int, b: int)  // getblk, waiting for a buffer with count 0
    | Evicting(dev: int, block: int, b: int)   // getblk, buffer off both lists, in sync_dev
    | Starved(dev: int, block: int)            // getblk, asleep on buffer_wait
    | Again(dev: int, block: int)              // getblk, at its label repeat
    | Releasing(b: int)                        // brelse
    | Mismatch                                 // the recheck of get_hash_table has failed

  /** held: references handed out and not yet being given back. */
  datatype Cache = Cache(bufs: seq<Buffer>, tasks: seq<Where>, held: multiset<int>)

  predicate Uses(w: Where, b: int) {
    match w
    case Found(_, _, b') => b' == b
    case Evicting(_, _, b') => b' == b
    case Releasing(b') => b' == b
    case _ => false
  }

  predicate UsesAt(c: Cache, t: int, b: int) {
    0 <= t < |c.tasks| && Uses(c.tasks[t], b)
  }

  ghost function Users(c: Cache, b: int): set<int> {
    set t | 0 <= t < |c.tasks| && UsesAt(c, t, b)
  }

  predicate IsBuf(c: Cache, b: int) { 0 <= b < |c.bufs| }

  predicate Labelled(c: Cache, b: int, dev: int, block: int) {
    IsBuf(c, b) && c.bufs[b].hashed && c.bufs[b].dev == dev && c.bufs[b].block == block
  }

  // ---------------------------------------------------------------- the invariant

  /** At most one hashed buffer per device and block. */
  ghost predicate Unique(c: Cache) {
    forall b, b', dev, block :: Labelled(c, b, dev, block) && Labelled(c, b', dev, block) ==> b == b'
  }

  ghost predicate Counted(c: Cache) {
    && (forall b :: IsBuf(c, b) ==> c.bufs[b].count == c.held[b] + |Users(c, b)|)
    && (forall b :: b in c.held ==> IsBuf(c, b))
    && (forall t, b :: UsesAt(c, t, b) ==> IsBuf(c, b))
  }

  /** What each task relies on while it sleeps. */
  ghost predicate Promised(c: Cache, t: int)
    requires 0 <= t < |c.tasks|
  {
    match c.tasks[t]
    case Found(dev, block, b) => Labelled(c, b, dev, block)
    case Candidate(_, _, b) => IsBuf(c, b)
    case Evicting(_, _, b) => IsBuf(c, b) && !c.bufs[b].hashed && !c.bufs[b].free && c.bufs[b].count == 1
    case Mismatch => false
    case _ => true
  }

  ghost predicate Evicted(c: Cache, t: int, b: int) {
    0 <= t < |c.tasks| && c.tasks[t].Evicting? && c.tasks[t].b == b
  }

  /** A buffer off the free list is being evicted; a hashed one is on it and has a device. */
  ghost predicate Listed(c: Cache) {
    && (forall b :: IsBuf(c, b) && !c.bufs[b].free ==> exists t :: Evicted(c, t, b))
    && (forall b :: IsBuf(c, b) && c.bufs[b].hashed ==> c.bufs[b].free && c.bufs[b].dev != 0)
  }

  ghost predicate Inv(c: Cache) {
    Unique(c) && Counted(c) && Listed(c) && forall t :: 0 <= t < |c.tasks| ==> Promised(c, t)
  }

  // ---------------------------------------------------------------- steps

  datatype Event =
    | Find(t: int, dev: int, block: int, b: int)      // find_buffer succeeds
    | Miss(t: int, dev: int, block: int)              // get_hash_table alone: find_buffer fails
    | Scan(t: int, dev: int, block: int, b: int)      // getblk: find_buffer fails, settle on b
    | NoneFree(t: int, dev: int, block: int)          // getblk: every buffer is in use
    | Recheck(t: int)                                 // get_hash_table after its wait
    | Take(t: int)                                    // getblk after its wait: count still 0
    | Rescan(t: int, b: int)                          // getblk after its wait: taken meanwhile, go on to b
    | GiveUp(t: int)                                  // getblk after its wait: taken, none left
    | Relabel(t: int)                                 // getblk after sync_dev
    | Retry(t: int)                                   // woken from buffer_wait
    | Put(t: int, b: int)                             // brelse is called
    | Drop(t: int)                                    // brelse after its wait

  predicate Asking(w: Where, dev: int, block: int) { w == Ready || w == Again(dev, block) }

  ghost predicate Absent(c: Cache, dev: int, block: int) { forall b :: !Labelled(c, b, dev, block) }

  predicate Unused(c: Cache, b: int) { IsBuf(c, b) && c.bufs[b].count == 0 && c.bufs[b].free }

  ghost predicate Legal(c: Cache, ev: Event) {
    0 <= ev.t < |c.tasks| &&
    var w := c.tasks[ev.t];
    match ev
    case Find(_, dev, block, b) => Asking(w, dev, block) && Labelled(c, b, dev, block)
    case Miss(_, dev, block) => w == Ready && Absent(c, dev, block)
    case Scan(_, dev, block, b) => Asking(w, dev, block) && Absent(c, dev, block) && Unused(c, b)
    case NoneFree(_, dev, block) => Asking(w, dev, block) && Absent(c, dev, block) && (forall b :: !Unused(c, b))
    case Recheck(_) => w.Found?
    case Take(_) => w.Candidate? && IsBuf(c, w.b) && c.bufs[w.b].count == 0
    case Rescan(_, b) => w.Candidate? && IsBuf(c, w.b) && c.bufs[w.b].count != 0 && Unused(c, b)
    case GiveUp(_) => w.Candidate? && IsBuf(c, w.b) && c.bufs[w.b].count != 0
    case Relabel(_) => w.Evicting? && IsBuf(c, w.b)
    case Retry(_) => w.Starved?
    case Put(_, b) => w == Ready && b in c.held
    case Drop(_) => w.Releasing? && IsBuf(c, w.b)
  }

  function Move(c: Cache, t: int, w: Where): Cache
    requires 0 <= t < |c.tasks|
  {
    c.(tasks := c.tasks[t := w])
  }

  function SetBuf(c: Cache, b: int, x: Buffer): Cache
    requires IsBuf(c, b)
  {
    c.(bufs := c.bufs[b := x])
  }

  ghost function Next(c: Cache, ev: Event): Cache
    requires Legal(c, ev)
  {
    var t, w := ev.t, c.tasks[ev.t];
    match ev
    case Find(_, dev, block, b) => Move(SetBuf(c, b, c.bufs[b].(count := c.bufs[b].count + 1)), t, Found(dev, block, b))
    case Miss(_, _, _) => c
    case Scan(_, dev, block, b) => Move(c, t, Candidate(dev, block, b))
    case NoneFree(_, dev, block) => Move(c, t, Starved(dev, block))
    case Recheck(_) =>
      if IsBuf(c, w.b) && c.bufs[w.b].dev == w.dev && c.bufs[w.b].block == w.block
      then Move(c, t, Ready).(held := c.held + multiset{w.b})
      else Move(c, t, Mismatch)
    case Take(_) =>
      Move(SetBuf(c, w.b, c.bufs[w.b].(count := c.bufs[w.b].count + 1, hashed := false, free := false)), t, Evicting(w.dev, w.block, w.b))
    case Rescan(_, b) => Move(c, t, Candidate(w.dev, w.block, b))
    case GiveUp(_) => Move(c, t, Starved(w.dev, w.block))
    case Relabel(_) =>
      if exists b :: Labelled(c, b, w.dev, w.block)
      then Move(SetBuf(c, w.b, Buffer(0, 0, 0, false, true)), t, Again(w.dev, w.block))
      else Move(SetBuf(c, w.b, Buffer(w.dev, w.block, c.bufs[w.b].count, w.dev != 0, true)), t, Ready).(held := c.held + multiset{w.b})
    case Retry(_) => Move(c, t, Again(w.dev, w.block))
    case Put(_, b) => Move(c, t, Releasing(b)).(held := c.held - multiset{b})
    case Drop(_) => Move(SetBuf(c, w.b, c.bufs[w.b].(count := c.bufs[w.b].count - 1)), t, Ready)
  }

  /** What a step does to buffer b, field by field: find_buffer and brelse move its count, getblk takes it off the lists
      and puts it back with a new label, or unlabelled when somebody else was quicker; nothing else touches it. */
  lemma StepLaw(c: Cache, ev: Event, b: int)
    requires Legal(c, ev) && IsBuf(c, b)
    ensures var x, y, w := Next(c, ev).bufs[b], c.bufs[b], c.tasks[ev.t];
      if ev.Find? && ev.b == b then x.count == y.count + 1 && (x.dev, x.block, x.hashed, x.free) == (y.dev, y.block, y.hashed, y.free)
      else if ev.Drop? && w.b == b then x.count == y.count - 1 && (x.dev, x.block, x.hashed, x.free) == (y.dev, y.block, y.hashed, y.free)
      else if ev.Take? && w.b == b then x.count == y.count + 1 && !x.hashed && !x.free && (x.dev, x.block) == (y.dev, y.block)
      else if ev.Relabel? && w.b == b then
        x.free && if Absent(c, w.dev, w.block) then (x.dev, x.block, x.count) == (w.dev, w.block, y.count) && x.hashed == (w.dev != 0)
                  else (x.dev, x.block, x.count) == (0, 0, 0) && !x.hashed
      else x == y
  {
    if ev.Relabel? && c.tasks[ev.t].b == b {
      assert Absent(c, c.tasks[ev.t].dev, c.tasks[ev.t].block) || !Next(c, ev).bufs[b].hashed;
    }
  }

  /** A step moves its own task only. */
  lemma StepFrame(c: Cache, ev: Event)
    requires Legal(c, ev)
    ensures |Next(c, ev).bufs| == |c.bufs| && |Next(c, ev).tasks| == |c.tasks|
    ensures forall t :: 0 <= t < |c.tasks| && t != ev.t ==> Next(c, ev).tasks[t] == c.tasks[t]
  {
  }

  // ---------------------------------------------------------------- proofs

  function Hit(w: Where, b: int): int { if Uses(w, b) then 1 else 0 }

  lemma MoveUsers(c: Cache, c': Cache, t: int, b: int)
    requires 0 <= t < |c.tasks| && |c'.tasks| == |c.tasks| && c'.tasks == c.tasks[t := c'.tasks[t]]
    ensures |Users(c', b)| == |Users(c, b)| - Hit(c.tasks[t], b) + Hit(c'.tasks[t], b)
  {
    forall u | 0 <= u < |c.tasks| && u != t
      ensures UsesAt(c', u, b) == UsesAt(c, u, b)
    {
    }
    assert Users(c', b) - {t} == Users(c, b) - {t};
    CardinalityWithout(Users(c, b), t);
    CardinalityWithout(Users(c', b), t);
  }

  lemma InUse(c: Cache, t: int, b: int)
    requires Counted(c) && UsesAt(c, t, b)
    ensures c.bufs[b].count >= 1
    ensures c.bufs[b].count == 1 ==> b !in c.held && forall u :: UsesAt(c, u, b) ==> u == t
  {
    assert t in Users(c, b);
    CardinalityWithout(Users(c, b), t);
    if c.bufs[b].count == 1 {
      assert Users(c, b) - {t} == {};
      forall u | UsesAt(c, u, b)
        ensures u == t
      {
        assert u in Users(c, b);
      }
    }
  }

  /** A buffer with count 0 is on the free list. */
  lemma UnusedIsFree(c: Cache, b: int)
    requires Inv(c) && IsBuf(c, b) && c.bufs[b].count == 0
    ensures c.bufs[b].free && b !in c.held && forall t :: !UsesAt(c, t, b)
  {
    assert Users(c, b) == {};
    forall t
      ensures !UsesAt(c, t, b)
    {
      assert t in Users(c, b) <==> UsesAt(c, t, b);
    }
    if !c.bufs[b].free {
      var t :| Evicted(c, t, b);
      assert UsesAt(c, t, b);
    }
  }

  /** c' differs from c in task t, buffer b and the references only. */
  ghost predicate Local(c: Cache, c': Cache, t: int, b: int) {
    && 0 <= t < |c.tasks| && |c'.tasks| == |c.tasks| && c'.tasks == c.tasks[t := c'.tasks[t]]
    && |c'.bufs| == |c.bufs| && (forall x :: IsBuf(c, x) && x != b ==> c'.bufs[x] == c.bufs[x])
  }

  /** The references are counted after a local change if they are for the one buffer concerned. */
  lemma LocalCounts(c: Cache, c': Cache, t: int, b: int)
    requires Counted(c) && Local(c, c', t, b) && IsBuf(c, b)
    requires forall x :: x != b ==> c'.held[x] == c.held[x] && Hit(c'.tasks[t], x) == Hit(c.tasks[t], x)
    requires c'.bufs[b].count - c'.held[b] - Hit(c'.tasks[t], b) == c.bufs[b].count - c.held[b] - Hit(c.tasks[t], b)
    ensures Counted(c')
  {
    forall x | IsBuf(c', x)
      ensures c'.bufs[x].count == c'.held[x] + |Users(c', x)|
    {
      MoveUsers(c, c', t, x);
    }
    forall u, x | UsesAt(c', u, x)
      ensures IsBuf(c', x)
    {
      if u == t && x != b {
        assert Hit(c.tasks[t], x) == 1;
        assert UsesAt(c, t, x);
      } else if u != t {
        assert UsesAt(c, u, x);
      }
    }
  }

  /** A change that leaves labels and lists alone: only a count and a task's place. */
  lemma LocalInv(c: Cache, c': Cache, t: int, b: int)
    requires Inv(c) && Local(c, c', t, b) && IsBuf(c, b) && Counted(c') && Promised(c', t)
    requires c'.bufs[b] == c.bufs[b].(count := c'.bufs[b].count)
    requires !c.tasks[t].Evicting? && !c'.tasks[t].Evicting?
    requires c'.bufs[b].count == c.bufs[b].count || forall u :: !Evicted(c, u, b)
    ensures Inv(c')
  {
    forall x, dev, block
      ensures Labelled(c', x, dev, block) <==> Labelled(c, x, dev, block)
    {
    }
    forall u, x
      ensures Evicted(c', u, x) <==> Evicted(c, u, x)
    {
    }
    forall u | 0 <= u < |c'.tasks|
      ensures Promised(c', u)
    {
      assert Promised(c, u);
      if u != t && c.tasks[u].Evicting? {
        assert Evicted(c, u, c.tasks[u].b);
      }
    }
    assert Listed(c') by {
      forall x | IsBuf(c', x) && !c'.bufs[x].free
        ensures exists u :: Evicted(c', u, x)
      {
        assert IsBuf(c, x) && !c.bufs[x].free;
        var u :| Evicted(c, u, x);
        assert Evicted(c', u, x);
      }
    }
  }

  lemma HashedIsNotEvicted(c: Cache, b: int)
    requires Inv(c) && IsBuf(c, b) && c.bufs[b].free
    ensures forall u :: !Evicted(c, u, b)
  {
    forall u
      ensures !Evicted(c, u, b)
    {
      if 0 <= u < |c.tasks| && c.tasks[u].Evicting? {
        assert Promised(c, u);
      }
    }
  }

  lemma FindInv(c: Cache, ev: Event)
    requires Inv(c) && Legal(c, ev) && ev.Find?
    ensures Inv(Next(c, ev))
  {
    LocalCounts(c, Next(c, ev), ev.t, ev.b);
    HashedIsNotEvicted(c, ev.b);
    LocalInv(c, Next(c, ev), ev.t, ev.b);
  }

  /** The recheck of get_hash_table never fails. */
  lemma RecheckInv(c: Cache, ev: Event)
    requires Inv(c) && Legal(c, ev) && ev.Recheck?
    ensures Inv(Next(c, ev)) && Next(c, ev).tasks[ev.t] == Ready
  {
    assert Promised(c, ev.t);
    var b := c.tasks[ev.t].b;
    LocalCounts(c, Next(c, ev), ev.t, b);
    LocalInv(c, Next(c, ev), ev.t, b);
  }

  lemma PutInv(c: Cache, ev: Event)
    requires Inv(c) && Legal(c, ev) && ev.Put?
    ensures Inv(Next(c, ev))
  {
    LocalCounts(c, Next(c, ev), ev.t, ev.b);
    LocalInv(c, Next(c, ev), ev.t, ev.b);
  }

  /** The "trying to free free buffer" panic of brelse is never reached. */
  lemma DropInv(c: Cache, ev: Event)
    requires Inv(c) && Legal(c, ev) && ev.Drop?
    ensures Inv(Next(c, ev)) && c.bufs[c.tasks[ev.t].b].count >= 1
  {
    var b := c.tasks[ev.t].b;
    assert UsesAt(c, ev.t, b);
    InUse(c, ev.t, b);
    forall u
      ensures !Evicted(c, u, b)
    {
      if 0 <= u < |c.tasks| && c.tasks[u].Evicting? {
        assert Promised(c, u);
        assert UsesAt(c, u, c.tasks[u].b);
      }
    }
    LocalCounts(c, Next(c, ev), ev.t, b);
    LocalInv(c, Next(c, ev), ev.t, b);
  }

  /** Steps that only move a task between places that hold no reference. */
  lemma IdleInv(c: Cache, ev: Event)
    requires Inv(c) && Legal(c, ev)
    requires ev.Miss? || ev.Scan? || ev.NoneFree? || ev.Rescan? || ev.GiveUp? || ev.Retry?
    ensures Inv(Next(c, ev))
  {
    var c' := Next(c, ev);
    if |c.bufs| > 0 {
      LocalCounts(c, c', ev.t, 0);
      LocalInv(c, c', ev.t, 0);
    } else {
      assert forall t, b :: UsesAt(c', t, b) ==> t != ev.t && UsesAt(c, t, b);
      assert forall t :: 0 <= t < |c.tasks| && t != ev.t ==> Promised(c, t) && Promised(c', t);
    }
  }

  /** Taking a buffer off the lists. */
  lemma TakeInv(c: Cache, ev: Event)
    requires Inv(c) && Legal(c, ev) && ev.Take?
    ensures Inv(Next(c, ev))
  {
    var c', t, b := Next(c, ev), ev.t, c.tasks[ev.t].b;
    UnusedIsFree(c, b);
    LocalCounts(c, c', t, b);
    forall x, dev, block
      ensures Labelled(c', x, dev, block) <==> Labelled(c, x, dev, block) && x != b
    {
    }
    forall u | 0 <= u < |c'.tasks|
      ensures Promised(c', u)
    {
      assert Promised(c, u);
      if u != t {
        assert !UsesAt(c, u, b);
      }
    }
    forall x | IsBuf(c', x) && !c'.bufs[x].free
      ensures exists u :: Evicted(c', u, x)
    {
      if x == b {
        assert Evicted(c', t, b);
      } else {
        assert IsBuf(c, x) && !c.bufs[x].free;
        var u :| Evicted(c, u, x);
        assert Evicted(c', u, x);
      }
    }
  }

  /** Giving the evicted buffer its new label, or back if somebody else was quicker. */
  lemma RelabelInv(c: Cache, ev: Event)
    requires Inv(c) && Legal(c, ev) && ev.Relabel?
    ensures Inv(Next(c, ev))
  {
    var c', t, w := Next(c, ev), ev.t, c.tasks[ev.t];
    var b := w.b;
    assert Promised(c, t) && UsesAt(c, t, b);
    InUse(c, t, b);
    LocalCounts(c, c', t, b);
    forall x, dev, block
      ensures Labelled(c', x, dev, block) <==> if x == b then c'.bufs[b].hashed && dev == w.dev && block == w.block else Labelled(c, x, dev, block)
    {
    }
    forall u | 0 <= u < |c'.tasks|
      ensures Promised(c', u)
    {
      assert Promised(c, u);
      if u != t {
        assert !UsesAt(c, u, b);
      }
    }
    forall x | IsBuf(c', x) && !c'.bufs[x].free
      ensures exists u :: Evicted(c', u, x)
    {
      assert IsBuf(c, x) && !c.bufs[x].free;
      var u :| Evicted(c, u, x);
      assert Evicted(c', u, x);
    }
  }

  lemma NextInv(c: Cache, ev: Event)
    requires Inv(c) && Legal(c, ev)
    ensures Inv(Next(c, ev))
  {
    match ev {
      case Find(_, _, _, _) => FindInv(c, ev);
      case Recheck(_) => RecheckInv(c, ev);
      case Take(_) => TakeInv(c, ev);
      case Relabel(_) => RelabelInv(c, ev);
      case Put(_, _) => PutInv(c, ev);
      case Drop(_) => DropInv(c, ev);
      case _ => IdleInv(c, ev);
    }
  }

  /** A hashed buffer in use keeps its device and block through every step of every task. */
  lemma IdentityKept(c: Cache, ev: Event, b: int)
    requires Inv(c) && Legal(c, ev) && IsBuf(c, b) && c.bufs[b].hashed && c.bufs[b].count > 0
    ensures var x := Next(c, ev).bufs[b]; x.hashed && x.dev == c.bufs[b].dev && x.block == c.bufs[b].block
  {
    if ev.Relabel? {
      assert Promised(c, ev.t);
    }
  }

  // ---------------------------------------------------------------- runs

  ghost predicate Steps(c: Cache, c': Cache, ev: Event) {
    Legal(c, ev) && c' == Next(c, ev)
  }

  /** buffer_init: every buffer free, unlabelled and unused, no task in the cache. */
  predicate Initial(c: Cache) {
    && (forall b :: 0 <= b < |c.bufs| ==> c.bufs[b] == Buffer(0, 0, 0, false, true))
    && (forall t :: 0 <= t < |c.tasks| ==> c.tasks[t] == Ready) && c.held == multiset{}
  }

  ghost predicate IsRun(cs: seq<Cache>, evs: seq<Event>) {
    |cs| == |evs| + 1 && Initial(cs[0]) && forall k {:trigger evs[k]} :: 0 <= k < |evs| ==> Steps(cs[k], cs[k + 1], evs[k])
  }

  lemma {:induction false} AlwaysInv(cs: seq<Cache>, evs: seq<Event>, k: nat)
    requires IsRun(cs, evs) && k < |cs|
    ensures Inv(cs[k])
  {
    if k == 0 {
      var c := cs[0];
      assert forall t, b :: !UsesAt(c, t, b);
      forall b | IsBuf(c, b)
        ensures c.bufs[b].count == c.held[b] + |Users(c, b)|
      {
        assert Users(c, b) == {};
      }
    } else {
      AlwaysInv(cs, evs, k - 1);
      assert Steps(cs[k - 1], cs[k], evs[k - 1]);
      NextInv(cs[k - 1], evs[k - 1]);
    }
  }

  lemma {:induction false} SameBuffers(cs: seq<Cache>, evs: seq<Event>, j: nat, k: nat)
    requires IsRun(cs, evs) && j <= k < |cs|
    ensures |cs[k].bufs| == |cs[j].bufs|
  {
    if j < k {
      SameBuffers(cs, evs, j, k - 1);
      assert Steps(cs[k - 1], cs[k], evs[k - 1]);
    }
  }

  /** Over every interleaving, a buffer that is hashed at state j and in use from then on keeps its device and block. */
  lemma {:induction false} IdentityOverRuns(cs: seq<Cache>, evs: seq<Event>, j: nat, k: nat, b: int)
    requires IsRun(cs, evs) && j <= k < |cs| && IsBuf(cs[j], b) && cs[j].bufs[b].hashed
    requires forall n {:trigger cs[n]} :: j <= n < k ==> IsBuf(cs[n], b) && cs[n].bufs[b].count > 0
    ensures IsBuf(cs[k], b) && cs[k].bufs[b].hashed && cs[k].bufs[b].dev == cs[j].bufs[b].dev && cs[k].bufs[b].block == cs[j].bufs[b].block
  {
    if j < k {
      IdentityOverRuns(cs, evs, j, k - 1, b);
      AlwaysInv(cs, evs, k - 1);
      assert Steps(cs[k - 1], cs[k], evs[k - 1]);
      assert cs[k - 1].bufs[b].count > 0;
      IdentityKept(cs[k - 1], evs[k - 1], b);
      SameBuffers(cs, evs, k - 1, k);
    }
  }

  /** Over every interleaving: one buffer per block, unused means free, and no recheck has ever failed. */
  lemma EveryInterleaving(cs: seq<Cache>, evs: seq<Event>, k: nat, b: int, b': int)
    requires IsRun(cs, evs) && k < |cs| && IsBuf(cs[k], b) && IsBuf(cs[k], b')
    ensures var x, y := cs[k].bufs[b], cs[k].bufs[b'];
      && (x.hashed && y.hashed && x.dev == y.dev && x.block == y.block ==> b == b')
      && (x.count == 0 ==> x.free)
    ensures forall t :: 0 <= t < |cs[k].tasks| ==> cs[k].tasks[t] != Mismatch
  {
    AlwaysInv(cs, evs, k);
    var c := cs[k];
    var x, y := c.bufs[b], c.bufs[b'];
    if x.hashed && y.hashed && x.dev == y.dev && x.block == y.block {
      assert Labelled(c, b, x.dev, x.block) && Labelled(c, b', x.dev, x.block);
    }
    if x.count == 0 {
      UnusedIsFree(c, b);
    }
    forall t | 0 <= t < |c.tasks|
      ensures c.tasks[t] != Mismatch
    {
      assert Promised(c, t);
    }
  }
}
