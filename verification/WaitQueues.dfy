/** sleep_on and wake_up of kernel/sched.c.

    A wait queue is one pointer; the rest of the list exists only in the variable `tmp` of each
    sleeper's stack frame.  Here the lists are written out: one chain per queue, and one per task
    that has been made runnable but has not yet run, holding those that it will wake in turn.
    Chains are kept oldest sleeper first, so a queue head names the last entry.
 */
module WaitQueues {

  const NULL := -1

  datatype Key = Queue(q: int) | Leader(t: int)

  type Chains = map<Key, seq<int>>

  datatype Step = Sleep(t: int, q: int) | WakeUp(q: int) | Resume(t: int)

  ghost predicate Member(ch: Chains, k: Key, i: int, t: int) {
    k in ch && 0 <= i < |ch[k]| && ch[k][i] == t
  }

  /** Every sleeper has one place, and a task that was woken sleeps nowhere. */
  ghost predicate Inv(ch: Chains, queues: nat) {
    && (forall q :: 0 <= q < queues <==> Queue(q) in ch)
    && (forall k, i, k', i', t :: Member(ch, k, i, t) && Member(ch, k', i', t) ==> k == k' && i == i')
    && (forall k, i, t :: Member(ch, k, i, t) ==> Leader(t) !in ch)
  }

  ghost predicate Asleep(ch: Chains, t: int) { exists k, i :: Member(ch, k, i, t) }

  predicate Woken(ch: Chains, t: int) { Leader(t) in ch }

  /** A task sleeps when it is running, and resumes when it has been woken. */
  ghost predicate Legal(ch: Chains, queues: nat, s: Step) {
    match s
    case Sleep(t, q) => 0 <= q < queues && t != NULL && !Asleep(ch, t) && !Woken(ch, t)
    case WakeUp(q) => 0 <= q < queues
    case Resume(t) => Woken(ch, t)
  }

  /** The newest entry of chain k is made runnable and takes over those behind it. */
  ghost function Promote(ch: Chains, k: Key): Chains
    requires k in ch && ch[k] != []
  {
    var n := |ch[k]| - 1;
    ch[k := []][Leader(ch[k][n]) := ch[k][..n]]
  }

  ghost function Next(ch: Chains, queues: nat, s: Step): Chains
    requires Inv(ch, queues) && Legal(ch, queues, s)
  {
    match s
    case Sleep(t, q) => ch[Queue(q) := ch[Queue(q)] + [t]]
    case WakeUp(q) => if ch[Queue(q)] == [] then ch else Promote(ch, Queue(q))
    case Resume(t) => (if ch[Leader(t)] == [] then ch else Promote(ch, Leader(t))) - {Leader(t)}
  }

  lemma PromoteMembers(ch: Chains, queues: nat, k: Key)
    requires Inv(ch, queues) && k in ch && ch[k] != []
    ensures var n := |ch[k]| - 1; var u := ch[k][n]; forall k', i, t ::
      Member(Promote(ch, k), k', i, t) <==> if k' == Leader(u) then Member(ch, k, i, t) && i < n else k' != k && Member(ch, k', i, t)
  {
    var n := |ch[k]| - 1;
    assert Member(ch, k, n, ch[k][n]);
  }

  lemma NextInv(ch: Chains, queues: nat, s: Step)
    requires Inv(ch, queues) && Legal(ch, queues, s)
    ensures Inv(Next(ch, queues, s), queues)
  {
    var ch' := Next(ch, queues, s);
    match s {
      case Sleep(t, q) =>
        forall k, i, u
          ensures Member(ch', k, i, u) <==> Member(ch, k, i, u) || (k == Queue(q) && i == |ch[Queue(q)]| && u == t)
        {
        }
      case WakeUp(q) =>
        if ch[Queue(q)] != [] {
          PromoteMembers(ch, queues, Queue(q));
          assert Member(ch, Queue(q), |ch[Queue(q)]| - 1, ch[Queue(q)][|ch[Queue(q)]| - 1]);
        }
      case Resume(t) =>
        if ch[Leader(t)] != [] {
          PromoteMembers(ch, queues, Leader(t));
          assert Member(ch, Leader(t), |ch[Leader(t)]| - 1, ch[Leader(t)][|ch[Leader(t)]| - 1]);
        }
        var c1 := if ch[Leader(t)] == [] then ch else Promote(ch, Leader(t));
        assert forall k, i, u :: Member(ch', k, i, u) <==> Member(c1, k, i, u) && k != Leader(t);
    }
  }

  // ---------------------------------------------------------------- what each step does

  /** A task that goes to sleep becomes the last of its queue; nobody else moves. */
  lemma SleepLaw(ch: Chains, queues: nat, t: int, q: int)
    requires Inv(ch, queues) && Legal(ch, queues, Sleep(t, q))
    ensures var ch' := Next(ch, queues, Sleep(t, q)); var n := |ch[Queue(q)]|;
      && Queue(q) in ch' && |ch'[Queue(q)]| == n + 1 && ch'[Queue(q)][n] == t && (forall i :: 0 <= i < n ==> ch'[Queue(q)][i] == ch[Queue(q)][i])
      && (forall k :: k != Queue(q) ==> (k in ch' <==> k in ch) && (k in ch ==> ch'[k] == ch[k]))
      && Asleep(ch', t) && !Woken(ch', t)
  {
    var ch' := Next(ch, queues, Sleep(t, q));
    assert Member(ch', Queue(q), |ch[Queue(q)]|, t);
  }

  /** wake_up empties the queue: its last sleeper may run and has the others behind it; nobody else moves. */
  lemma WakeUpLaw(ch: Chains, queues: nat, q: int)
    requires Inv(ch, queues) && 0 <= q < queues
    ensures var ch' := Next(ch, queues, WakeUp(q)); var c := ch[Queue(q)]; var n := |c| - 1;
      && ch'[Queue(q)] == []
      && (c != [] ==> Leader(c[n]) in ch' && ch'[Leader(c[n])] == c[..n] && !Asleep(ch', c[n]))
      && (forall k :: k != Queue(q) && !(c != [] && k == Leader(c[n])) ==> (k in ch' <==> k in ch) && (k in ch ==> ch'[k] == ch[k]))
  {
    var c := ch[Queue(q)];
    if c != [] {
      PromoteMembers(ch, queues, Queue(q));
      NextInv(ch, queues, WakeUp(q));
      assert Member(ch, Queue(q), |c| - 1, c[|c| - 1]);
    }
  }

  /** A woken task that runs again lets the last of those behind it run, with the others behind that one; nobody else moves. */
  lemma ResumeLaw(ch: Chains, queues: nat, t: int)
    requires Inv(ch, queues) && Woken(ch, t)
    ensures var ch' := Next(ch, queues, Resume(t)); var c := ch[Leader(t)]; var n := |c| - 1;
      && !Woken(ch', t) && !Asleep(ch', t)
      && (c != [] ==> Leader(c[n]) in ch' && ch'[Leader(c[n])] == c[..n] && !Asleep(ch', c[n]))
      && (forall k :: k != Leader(t) && !(c != [] && k == Leader(c[n])) ==> (k in ch' <==> k in ch) && (k in ch ==> ch'[k] == ch[k]))
  {
    var c, ch' := ch[Leader(t)], Next(ch, queues, Resume(t));
    NextInv(ch, queues, Resume(t));
    if c != [] {
      PromoteMembers(ch, queues, Leader(t));
      assert Member(ch, Leader(t), |c| - 1, c[|c| - 1]);
      assert forall k, i, u :: Member(ch', k, i, u) ==> Member(Promote(ch, Leader(t)), k, i, u);
    } else {
      assert forall k, i, u :: Member(ch', k, i, u) ==> Member(ch, k, i, u);
    }
  }

  // ---------------------------------------------------------------- no sleeper is lost

  /** wake_up(q) reaches exactly those asleep on q: the newest at once, the others behind it. */
  lemma WakeUpReaches(ch: Chains, queues: nat, q: int)
    requires Inv(ch, queues) && 0 <= q < queues
    ensures var ch' := Next(ch, queues, WakeUp(q));
      && ch'[Queue(q)] == []
      && (forall i, t :: Member(ch, Queue(q), i, t) ==> Woken(ch', t) || exists l :: Woken(ch', l) && Member(ch', Leader(l), i, t))
      && (forall t :: Woken(ch', t) && !Woken(ch, t) ==> exists i :: Member(ch, Queue(q), i, t))
      && (forall k, i, t :: k != Queue(q) && Member(ch, k, i, t) ==> Member(ch', k, i, t))
  {
    if ch[Queue(q)] != [] {
      PromoteMembers(ch, queues, Queue(q));
      var n := |ch[Queue(q)]| - 1;
      var u := ch[Queue(q)][n];
      assert Member(ch, Queue(q), n, u);
      var ch' := Next(ch, queues, WakeUp(q));
      forall i, t | Member(ch, Queue(q), i, t)
        ensures Woken(ch', t) || exists l :: Woken(ch', l) && Member(ch', Leader(l), i, t)
      {
        if i < n {
          assert Woken(ch', u) && Member(ch', Leader(u), i, t);
        }
      }
    }
  }

  /** How many resumptions of its leader separate the task at place i behind l from being runnable. */
  function Distance(ch: Chains, l: int, i: int): int
    requires Leader(l) in ch
  {
    |ch[Leader(l)]| - i
  }

  /** No step moves a task away from being woken, and each resumption of its leader brings it one nearer. */
  lemma NeverFurther(ch: Chains, queues: nat, s: Step, l: int, i: int, t: int) returns (l': int)
    requires Inv(ch, queues) && Legal(ch, queues, s) && Member(ch, Leader(l), i, t)
    ensures var ch' := Next(ch, queues, s);
      && Inv(ch', queues)
      && (s != Resume(l) ==> l' == l && Member(ch', Leader(l), i, t) && ch'[Leader(l)] == ch[Leader(l)])
      && (s == Resume(l) && Distance(ch, l, i) == 1 ==> Woken(ch', t))
      && (s == Resume(l) && Distance(ch, l, i) > 1 ==> Member(ch', Leader(l'), i, t) && Distance(ch', l', i) == Distance(ch, l, i) - 1)
  {
    NextInv(ch, queues, s);
    l' := l;
    if s == Resume(l) {
      var n := |ch[Leader(l)]| - 1;
      l' := ch[Leader(l)][n];
      assert Member(ch, Leader(l), n, l');
      PromoteMembers(ch, queues, Leader(l));
    } else if s.WakeUp? && ch[Queue(s.q)] != [] {
      var m := |ch[Queue(s.q)]| - 1;
      assert Member(ch, Queue(s.q), m, ch[Queue(s.q)][m]);
    } else if s.Resume? && ch[Leader(s.t)] != [] {
      var m := |ch[Leader(s.t)]| - 1;
      assert Member(ch, Leader(s.t), m, ch[Leader(s.t)][m]);
    }
  }

  ghost predicate LegalRun(ch: Chains, queues: nat, steps: seq<Step>)
    requires Inv(ch, queues)
    decreases |steps|
  {
    steps == [] || (Legal(ch, queues, steps[0]) && (NextInv(ch, queues, steps[0]); LegalRun(Next(ch, queues, steps[0]), queues, steps[1..])))
  }

  ghost function Run(ch: Chains, queues: nat, steps: seq<Step>): (r: Chains)
    requires Inv(ch, queues) && LegalRun(ch, queues, steps)
    ensures Inv(r, queues)
    decreases |steps|
  {
    if steps == [] then ch else
      NextInv(ch, queues, steps[0]);
      Run(Next(ch, queues, steps[0]), queues, steps[1..])
  }

  /** Resumptions, along a run, of the task that t is waiting behind at the time. */
  ghost function LeaderResumptions(ch: Chains, queues: nat, steps: seq<Step>, t: int): nat
    requires Inv(ch, queues) && LegalRun(ch, queues, steps)
    decreases |steps|
  {
    if steps == [] then 0 else
      NextInv(ch, queues, steps[0]);
      (if steps[0].Resume? && t in ch[Leader(steps[0].t)] then 1 else 0)
      + LeaderResumptions(Next(ch, queues, steps[0]), queues, steps[1..], t)
  }

  lemma {:induction false} RunPrefix(ch: Chains, queues: nat, steps: seq<Step>, n: nat)
    requires Inv(ch, queues) && LegalRun(ch, queues, steps) && n <= |steps|
    ensures LegalRun(ch, queues, steps[..n])
    decreases |steps|
  {
    if n > 0 {
      NextInv(ch, queues, steps[0]);
      RunPrefix(Next(ch, queues, steps[0]), queues, steps[1..], n - 1);
      assert steps[..n][1..] == steps[1..][..n - 1];
    }
  }

  /** After its distance in leader resumptions a task has been made runnable, whatever else happened. */
  lemma {:induction false} EventuallyWoken(ch: Chains, queues: nat, steps: seq<Step>, l: int, i: int, t: int) returns (n: nat)
    requires Inv(ch, queues) && LegalRun(ch, queues, steps) && Member(ch, Leader(l), i, t)
    requires LeaderResumptions(ch, queues, steps, t) >= Distance(ch, l, i)
    ensures n <= |steps| && LegalRun(ch, queues, steps[..n]) && Woken(Run(ch, queues, steps[..n]), t)
    decreases |steps|
  {
    var s := steps[0];
    var ch' := Next(ch, queues, s);
    var l' := NeverFurther(ch, queues, s, l, i, t);
    if s.Resume? && t in ch[Leader(s.t)] {
      var j :| 0 <= j < |ch[Leader(s.t)]| && ch[Leader(s.t)][j] == t;
      assert Member(ch, Leader(s.t), j, t);
    }
    assert s == Resume(l) ==> t in ch[Leader(l)];
    if s == Resume(l) && Distance(ch, l, i) == 1 {
      n := 1;
      assert steps[..1][1..] == [];
    } else {
      n := EventuallyWoken(ch', queues, steps[1..], l', i, t);
      n := n + 1;
      assert steps[..n][1..] == steps[1..][..n - 1];
    }
    RunPrefix(ch, queues, steps, n);
  }

  /** One wake_up is enough for every sleeper of the queue. */
  lemma WakeUpSuffices(ch: Chains, queues: nat, q: int, i: int, t: int, steps: seq<Step>) returns (n: nat)
    requires Inv(ch, queues) && Member(ch, Queue(q), i, t)
    requires Inv(Next(ch, queues, WakeUp(q)), queues) && LegalRun(Next(ch, queues, WakeUp(q)), queues, steps)
    requires LeaderResumptions(Next(ch, queues, WakeUp(q)), queues, steps, t) >= |ch[Queue(q)]| - 1 - i
    ensures n <= |steps| && LegalRun(Next(ch, queues, WakeUp(q)), queues, steps[..n])
    ensures Woken(Run(Next(ch, queues, WakeUp(q)), queues, steps[..n]), t)
  {
    var ch' := Next(ch, queues, WakeUp(q));
    var u := ch[Queue(q)][|ch[Queue(q)]| - 1];
    if i == |ch[Queue(q)]| - 1 {
      n := 0;
    } else {
      assert Member(ch', Leader(u), i, t);
      n := EventuallyWoken(ch', queues, steps, u, i, t);
    }
  }

  // ---------------------------------------------------------------- the pointers

  const NR_TASKS: nat := 64
  const RUNNING := 0
  const UNINTERRUPTIBLE := 2

  /** The kernel's variables: task states, the local `tmp` of each sleeper, the queue pointers. */
  datatype Store = Store(state: seq<int>, tmp: seq<int>, head: seq<int>)

  predicate Sized(p: Store) { |p.state| == NR_TASKS && |p.tmp| == NR_TASKS }

  function Pointer(p: Store, k: Key): int {
    match k
    case Queue(q) => if 0 <= q < |p.head| then p.head[q] else NULL
    case Leader(t) => if 0 <= t < |p.tmp| then p.tmp[t] else NULL
  }

  /** The sleeper at place i of chain k has saved the one before it. */
  ghost predicate LinkAt(ch: Chains, p: Store, k: Key, i: int)
    requires Sized(p) && k in ch && 0 <= i < |ch[k]|
  {
    0 <= ch[k][i] < NR_TASKS && p.tmp[ch[k][i]] == if i == 0 then NULL else ch[k][i - 1]
  }

  /** Following the saved pointers from k runs through its chain from newest to oldest. */
  ghost predicate Linked(ch: Chains, p: Store, k: Key)
    requires Sized(p) && k in ch
  {
    && Pointer(p, k) == (if ch[k] == [] then NULL else ch[k][|ch[k]| - 1])
    && forall i {:trigger LinkAt(ch, p, k, i)} :: 0 <= i < |ch[k]| ==> LinkAt(ch, p, k, i)
  }

  /** The chains are what the pointers say, and exactly their members are not runnable. */
  ghost predicate Represents(p: Store, ch: Chains) {
    && Sized(p) && Inv(ch, |p.head|)
    && (forall k :: k in ch ==> Linked(ch, p, k))
    && (forall t :: Leader(t) in ch ==> 0 <= t < NR_TASKS)
    && (forall t :: 0 <= t < NR_TASKS ==> (p.state[t] == UNINTERRUPTIBLE <==> Asleep(ch, t)))
  }

  /** In other words: a queue points to its last sleeper, each sleeper has saved the one before it, a woken task the last of
      those behind it, and state 2 is sleep. */
  lemma RepresentsLaw(p: Store, ch: Chains)
    requires Represents(p, ch)
    ensures forall q :: 0 <= q < |p.head| ==> Queue(q) in ch && p.head[q] == if ch[Queue(q)] == [] then NULL else ch[Queue(q)][|ch[Queue(q)]| - 1]
    ensures forall t :: Leader(t) in ch ==> 0 <= t < 64 && p.tmp[t] == if ch[Leader(t)] == [] then NULL else ch[Leader(t)][|ch[Leader(t)]| - 1]
    ensures forall k, i :: k in ch && 0 <= i < |ch[k]| ==> 0 <= ch[k][i] < 64 && p.state[ch[k][i]] == 2 && p.tmp[ch[k][i]] == if i == 0 then NULL else ch[k][i - 1]
    ensures forall t :: 0 <= t < 64 && p.state[t] == 2 ==> exists k, i :: k in ch && 0 <= i < |ch[k]| && ch[k][i] == t
  {
    forall q | 0 <= q < |p.head|
      ensures Queue(q) in ch && p.head[q] == if ch[Queue(q)] == [] then NULL else ch[Queue(q)][|ch[Queue(q)]| - 1]
    {
      assert Linked(ch, p, Queue(q));
    }
    forall t | Leader(t) in ch
      ensures 0 <= t < 64 && p.tmp[t] == if ch[Leader(t)] == [] then NULL else ch[Leader(t)][|ch[Leader(t)]| - 1]
    {
      assert Linked(ch, p, Leader(t));
    }
    forall k, i | k in ch && 0 <= i < |ch[k]|
      ensures 0 <= ch[k][i] < 64 && p.state[ch[k][i]] == 2 && p.tmp[ch[k][i]] == if i == 0 then NULL else ch[k][i - 1]
    {
      assert Linked(ch, p, k) && LinkAt(ch, p, k, i) && Member(ch, k, i, ch[k][i]);
    }
    forall t | 0 <= t < 64 && p.state[t] == 2
      ensures exists k, i :: k in ch && 0 <= i < |ch[k]| && ch[k][i] == t
    {
      var k, i :| Member(ch, k, i, t);
      assert k in ch && 0 <= i < |ch[k]| && ch[k][i] == t;
    }
  }

  function AfterSleep(p: Store, t: int, q: int): Store
    requires Sized(p) && 0 <= t < NR_TASKS && 0 <= q < |p.head|
  {
    Store(p.state[t := UNINTERRUPTIBLE], p.tmp[t := p.head[q]], p.head[q := t])
  }

  function AfterWakeUp(p: Store, q: int): Store
    requires Sized(p) && 0 <= q < |p.head| && (p.head[q] != NULL ==> 0 <= p.head[q] < NR_TASKS)
  {
    if p.head[q] == NULL then p else Store(p.state[p.head[q] := RUNNING], p.tmp, p.head[q := NULL])
  }

  function AfterResume(p: Store, t: int): Store
    requires Sized(p) && 0 <= t < NR_TASKS && (p.tmp[t] != NULL ==> 0 <= p.tmp[t] < NR_TASKS)
  {
    if p.tmp[t] == NULL then p else p.(state := p.state[p.tmp[t] := RUNNING])
  }

  lemma SleepRepresents(p: Store, ch: Chains, t: int, q: int)
    requires Represents(p, ch) && 0 <= t < NR_TASKS && Legal(ch, |p.head|, Sleep(t, q))
    ensures Represents(AfterSleep(p, t, q), Next(ch, |p.head|, Sleep(t, q)))
  {
    var p', ch' := AfterSleep(p, t, q), Next(ch, |p.head|, Sleep(t, q));
    NextInv(ch, |p.head|, Sleep(t, q));
    var n := |ch[Queue(q)]|;
    forall k | k in ch'
      ensures Linked(ch', p', k)
    {
      assert Linked(ch, p, k);
      forall i | 0 <= i < |ch'[k]|
        ensures LinkAt(ch', p', k, i)
      {
        if k != Queue(q) || i < n {
          assert LinkAt(ch, p, k, i);
          assert Member(ch, k, i, ch[k][i]);
        }
      }
    }
    forall u | 0 <= u < NR_TASKS
      ensures p'.state[u] == UNINTERRUPTIBLE <==> Asleep(ch', u)
    {
      assert Member(ch', Queue(q), n, t);
      if k, i :| Member(ch, k, i, u) {
        assert Member(ch', k, i, u);
      }
      if u != t && Asleep(ch', u) {
        var k, i :| Member(ch', k, i, u);
        assert Member(ch, k, i, u);
      }
    }
  }

  /** Making the newest member of chain k runnable. */
  lemma PromoteRepresents(p: Store, ch: Chains, k: Key, p': Store, ch': Chains)
    requires Represents(p, ch) && k in ch && ch[k] != []
    requires var u := ch[k][|ch[k]| - 1]; 0 <= u < NR_TASKS && p' == p.(state := p.state[u := RUNNING], head := p'.head)
    requires |p'.head| == |p.head| && ch' == (if k.Leader? then Promote(ch, k) - {k} else Promote(ch, k)) && Inv(ch', |p.head|)
    requires forall q :: 0 <= q < |p.head| ==> p'.head[q] == if k == Queue(q) then NULL else p.head[q]
    ensures Represents(p', ch')
  {
    var n := |ch[k]| - 1;
    var u := ch[k][n];
    PromoteMembers(ch, |p.head|, k);
    assert Member(ch, k, n, u);
    assert Linked(ch, p, k) && LinkAt(ch, p, k, n);
    forall j | j in ch'
      ensures Linked(ch', p', j)
    {
      if j == Leader(u) {
        forall i | 0 <= i < |ch'[j]|
          ensures LinkAt(ch', p', j, i)
        {
          assert LinkAt(ch, p, k, i);
        }
      } else if j != k {
        assert Linked(ch, p, j);
        forall i | 0 <= i < |ch'[j]|
          ensures LinkAt(ch', p', j, i)
        {
          assert LinkAt(ch, p, j, i);
        }
      }
    }
    forall t | 0 <= t < NR_TASKS
      ensures p'.state[t] == UNINTERRUPTIBLE <==> Asleep(ch', t)
    {
      PromoteAsleep(ch, |p.head|, k, ch', t);
    }
  }

  /** The promoted task stops sleeping, all others sleep on. */
  lemma PromoteAsleep(ch: Chains, queues: nat, k: Key, ch': Chains, t: int)
    requires Inv(ch, queues) && k in ch && ch[k] != []
    requires ch' == if k.Leader? then Promote(ch, k) - {k} else Promote(ch, k)
    ensures Asleep(ch', t) <==> Asleep(ch, t) && t != ch[k][|ch[k]| - 1]
  {
    var n := |ch[k]| - 1;
    var u := ch[k][n];
    PromoteMembers(ch, queues, k);
    assert Member(ch, k, n, u);
    if Asleep(ch', t) {
      var j, i :| Member(ch', j, i, t);
      assert Member(Promote(ch, k), j, i, t);
      assert Member(ch, if j == Leader(u) then k else j, i, t);
    }
    if Asleep(ch, t) && t != u {
      var j, i :| Member(ch, j, i, t);
      assert Member(ch', if j == k then Leader(u) else j, i, t);
    }
  }

  lemma WakeUpRepresents(p: Store, ch: Chains, q: int)
    requires Represents(p, ch) && 0 <= q < |p.head|
    ensures p.head[q] != NULL ==> 0 <= p.head[q] < NR_TASKS
    ensures Represents(AfterWakeUp(p, q), Next(ch, |p.head|, WakeUp(q)))
  {
    NextInv(ch, |p.head|, WakeUp(q));
    assert Linked(ch, p, Queue(q));
    if ch[Queue(q)] != [] {
      assert LinkAt(ch, p, Queue(q), |ch[Queue(q)]| - 1);
      PromoteRepresents(p, ch, Queue(q), AfterWakeUp(p, q), Next(ch, |p.head|, WakeUp(q)));
    }
  }

  lemma ResumeRepresents(p: Store, ch: Chains, t: int)
    requires Represents(p, ch) && Woken(ch, t)
    ensures 0 <= t < NR_TASKS && (p.tmp[t] != NULL ==> 0 <= p.tmp[t] < NR_TASKS)
    ensures Represents(AfterResume(p, t), Next(ch, |p.head|, Resume(t)))
  {
    var ch' := Next(ch, |p.head|, Resume(t));
    NextInv(ch, |p.head|, Resume(t));
    assert Linked(ch, p, Leader(t));
    if ch[Leader(t)] != [] {
      assert LinkAt(ch, p, Leader(t), |ch[Leader(t)]| - 1);
      PromoteRepresents(p, ch, Leader(t), AfterResume(p, t), ch');
    } else {
      forall k | k in ch'
        ensures Linked(ch', p, k)
      {
        assert Linked(ch, p, k);
        forall i | 0 <= i < |ch'[k]|
          ensures LinkAt(ch', p, k, i)
        {
          assert LinkAt(ch, p, k, i);
        }
      }
      forall u | 0 <= u < NR_TASKS
        ensures Asleep(ch', u) <==> Asleep(ch, u)
      {
        if k, i :| Member(ch, k, i, u) {
          assert Member(ch', k, i, u);
        }
        if k, i :| Member(ch', k, i, u) {
          assert Member(ch, k, i, u);
        }
      }
    }
  }

  class WaitLists {
    const state: array<int>
    const tmp: array<int>
    const head: array<int>
    ghost var chains: Chains

    ghost function Variables(): Store
      reads state, tmp, head
    {
      Store(state[..], tmp[..], head[..])
    }

    ghost predicate Valid()
      reads this, state, tmp, head
    {
      state != tmp && state != head && tmp != head && Represents(Variables(), chains)
    }

    constructor (queues: nat)
      ensures Valid() && head.Length == queues && fresh(state) && fresh(tmp) && fresh(head)
      ensures forall t :: !Asleep(chains, t) && !Woken(chains, t)
    {
      state := new int[NR_TASKS](_ => RUNNING);
      tmp := new int[NR_TASKS](_ => NULL);
      head := new int[queues](_ => NULL);
      chains := map q | 0 <= q < queues :: Queue(q) := [];
      new;
      assert forall k, i, t :: !Member(chains, k, i, t);
    }

    /** sleep_on up to its call of schedule; task 0 must not come here. */
    method SleepOn(current: int, q: int)
      requires Valid() && 0 < current < NR_TASKS && 0 <= q < head.Length
      requires !Asleep(chains, current) && !Woken(chains, current)
      modifies this, state, tmp, head
      ensures Valid() && chains == Next(old(chains), head.Length, Sleep(current, q)) && Asleep(chains, current)
      ensures state[..] == old(state[..])[current := 2] && tmp[..] == old(tmp[..])[current := old(head[q])] && head[..] == old(head[..])[q := current]
    {
      ghost var p := Variables();
      SleepRepresents(p, chains, current, q);
      SleepLaw(chains, head.Length, current, q);
      tmp[current] := head[q];
      head[q] := current;
      state[current] := UNINTERRUPTIBLE;
      chains := Next(chains, head.Length, Sleep(current, q));
      assert Variables() == AfterSleep(p, current, q);
    }

    /** The rest of sleep_on, once the scheduler has come back to task t. */
    method FinishSleep(t: int)
      requires Valid() && Woken(chains, t)
      modifies this, state
      ensures Valid() && chains == Next(old(chains), head.Length, Resume(t))
      ensures tmp[t] == NULL ==> state[..] == old(state[..])
      ensures tmp[t] != NULL ==> 0 <= tmp[t] < NR_TASKS && state[..] == old(state[..])[tmp[t] := 0]
    {
      ghost var p := Variables();
      ResumeRepresents(p, chains, t);
      if tmp[t] != NULL {
        state[tmp[t]] := RUNNING;
      }
      chains := Next(chains, head.Length, Resume(t));
      assert Variables() == AfterResume(p, t);
    }

    /** wake_up */
    method WakeUpQueue(q: int)
      requires Valid() && 0 <= q < head.Length
      modifies this, state, head
      ensures Valid() && chains == Next(old(chains), head.Length, WakeUp(q))
      ensures old(head[q]) == NULL ==> state[..] == old(state[..]) && head[..] == old(head[..])
      ensures old(head[q]) != NULL ==> 0 <= old(head[q]) < NR_TASKS && state[..] == old(state[..])[old(head[q]) := 0] && head[..] == old(head[..])[q := NULL]
    {
      ghost var p := Variables();
      WakeUpRepresents(p, chains, q);
      if head[q] != NULL {
        state[head[q]] := RUNNING;
        head[q] := NULL;
      }
      chains := Next(chains, head.Length, WakeUp(q));
      assert Variables() == AfterWakeUp(p, q);
    }
  }
}
