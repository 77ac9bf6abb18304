/** schedule, do_timer and sys_nice of kernel/sched.c. */
module Schedulers {

  const NR_TASKS: nat := 64
  const RUNNING := 0
  const INTERRUPTIBLE := 1
  const SIGALRM_BIT: bv32 := 0x2000

  /** A slot of task[]: NULL, or the fields the scheduler looks at.  signal is the set of pending signals as a word. */
  datatype Slot = Empty | Task(state: int, counter: int, priority: int, signal: bv32, alarm: int)

  predicate Runnable(s: Slot) { s.Task? && s.state == RUNNING }

  /** Priorities are positive and counters are not negative. */
  predicate Healthy(s: Slot) { s.Task? ==> s.counter >= 0 && s.priority >= 1 }

  predicate Ok(ts: seq<Slot>) {
    |ts| == NR_TASKS && ts[0].Task? && forall i :: 0 <= i < NR_TASKS ==> Healthy(ts[i])
  }

  /** An alarm that is due becomes a signal, and a signal ends an interruptible sleep. */
  function Signalled(s: Slot, jiffies: int): Slot {
    if s.Empty? then s else
      var s1 := if s.alarm != 0 && s.alarm < jiffies then s.(signal := s.signal | SIGALRM_BIT, alarm := 0) else s;
      if s1.signal != 0 && s1.state == INTERRUPTIBLE then s1.(state := RUNNING) else s1
  }

  function Recharged(s: Slot): Slot {
    if s.Empty? then s else s.(counter := s.counter / 2 + s.priority)
  }

  /** Task 0 takes no part in either. */
  function SignalledAll(ts: seq<Slot>, jiffies: int): (r: seq<Slot>)
    ensures |r| == |ts| && forall i :: 0 <= i < |ts| ==> r[i] == if i == 0 then ts[i] else Signalled(ts[i], jiffies)
  {
    seq(|ts|, i requires 0 <= i < |ts| => if i == 0 then ts[i] else Signalled(ts[i], jiffies))
  }

  function RechargedAll(ts: seq<Slot>): (r: seq<Slot>)
    ensures |r| == |ts| && forall i :: 0 <= i < |ts| ==> r[i] == if i == 0 then ts[i] else Recharged(ts[i])
  {
    seq(|ts|, i requires 0 <= i < |ts| => if i == 0 then ts[i] else Recharged(ts[i]))
  }

  ghost predicate SomeRunnable(ts: seq<Slot>)
    requires |ts| == NR_TASKS
  {
    exists i :: 1 <= i < NR_TASKS && Runnable(ts[i])
  }

  /** next is a runnable task of greatest counter, the last such in the table; or 0 when there is none. */
  ghost predicate Best(ts: seq<Slot>, next: int)
    requires |ts| == NR_TASKS
  {
    if SomeRunnable(ts) then
      && 1 <= next < NR_TASKS && Runnable(ts[next])
      && (forall i :: 1 <= i < NR_TASKS && Runnable(ts[i]) ==> ts[i].counter <= ts[next].counter)
      && (forall i :: next < i < NR_TASKS && Runnable(ts[i]) ==> ts[i].counter < ts[next].counter)
    else next == 0
  }

  /** Every runnable task has used up its time. */
  ghost predicate Exhausted(ts: seq<Slot>)
    requires |ts| == NR_TASKS
  {
    SomeRunnable(ts) && forall i :: 1 <= i < NR_TASKS && Runnable(ts[i]) ==> ts[i].counter == 0
  }

  /** What schedule does: signals, then one recharge exactly when all runnable tasks are out of time, then the best task. */
  ghost predicate Scheduled(ts: seq<Slot>, ts': seq<Slot>, next: int, jiffies: int, recharged: bool)
    requires |ts| == NR_TASKS
  {
    var mid := SignalledAll(ts, jiffies);
    && (recharged <==> Exhausted(mid))
    && ts' == (if recharged then RechargedAll(mid) else mid)
    && Best(ts', next)
  }

  class Scheduler {
    const task: array<Slot>
    var current: int

    ghost predicate Valid()
      reads this, task
    {
      Ok(task[..]) && 0 <= current < NR_TASKS && task[current].Task?
    }

    /** The selection loop: c is the greatest counter, -1 when nothing is runnable. */
    method Select() returns (c: int, next: int)
      requires task.Length == NR_TASKS && Ok(task[..])
      ensures Best(task[..], next)
      ensures c == if next == 0 then -1 else task[next].counter
      ensures 0 <= next < NR_TASKS && task[next].Task?
    {
      c, next := -1, 0;
      var i := NR_TASKS;
      while i > 1
        invariant 1 <= i <= NR_TASKS
        invariant next == 0 ==> c == -1 && forall j :: i <= j < NR_TASKS ==> !Runnable(task[j])
        invariant next != 0 ==> i <= next < NR_TASKS && Runnable(task[next]) && c == task[next].counter
        invariant next != 0 ==> forall j :: i <= j < NR_TASKS && Runnable(task[j]) ==> task[j].counter <= c
        invariant next != 0 ==> forall j :: next < j < NR_TASKS && Runnable(task[j]) ==> task[j].counter < c
      {
        i := i - 1;
        if task[i].Task? && task[i].state == RUNNING && task[i].counter > c {
          c, next := task[i].counter, i;
        }
      }
      if next != 0 {
        assert Runnable(task[..][next]);
      }
    }

    method Recharge()
      requires task.Length == NR_TASKS && Ok(task[..])
      modifies task
      ensures task[..] == RechargedAll(old(task[..])) && Ok(task[..])
      ensures forall i :: 1 <= i < 64 && old(task[i]).Task? ==> task[i] == old(task[i]).(counter := old(task[i]).counter / 2 + old(task[i]).priority)
      ensures forall i :: 0 <= i < 64 && (i == 0 || old(task[i]).Empty?) ==> task[i] == old(task[i])
    {
      var p := NR_TASKS - 1;
      while p > 0
        invariant 0 <= p < NR_TASKS
        invariant forall i :: 0 <= i < NR_TASKS ==> task[i] == if i > p then Recharged(old(task[i])) else old(task[i])
      {
        if task[p].Task? {
          task[p] := task[p].(counter := task[p].counter / 2 + task[p].priority);
        }
        p := p - 1;
      }
    }

    method Signals(jiffies: int)
      requires task.Length == NR_TASKS && Ok(task[..])
      modifies task
      ensures task[..] == SignalledAll(old(task[..]), jiffies) && Ok(task[..])
    {
      var p := NR_TASKS - 1;
      while p > 0
        invariant 0 <= p < NR_TASKS
        invariant forall i :: 0 <= i < NR_TASKS ==> task[i] == if i > p then Signalled(old(task[i]), jiffies) else old(task[i])
      {
        if task[p].Task? {
          if task[p].alarm != 0 && task[p].alarm < jiffies {
            task[p] := task[p].(signal := task[p].signal | SIGALRM_BIT, alarm := 0);
          }
          if task[p].signal != 0 && task[p].state == INTERRUPTIBLE {
            task[p] := task[p].(state := RUNNING);
          }
        }
        p := p - 1;
      }
    }

    /** schedule: its outer loop runs at most twice. */
    method Schedule(jiffies: int) returns (recharged: bool)
      requires Valid()
      modifies this, task
      ensures Valid() && Scheduled(old(task[..]), task[..], current, jiffies, recharged)
    {
      Signals(jiffies);
      ghost var mid := task[..];
      var c, next := Select();
      recharged := false;
      while c == 0
        invariant Ok(task[..]) && Best(task[..], next) && 0 <= next < NR_TASKS && task[next].Task?
        invariant c == if next == 0 then -1 else task[next].counter
        invariant if recharged then Exhausted(mid) && task[..] == RechargedAll(mid) && c > 0 else task[..] == mid
        decreases if recharged then 0 else 1
      {
        Recharge();
        recharged := true;
        RechargedRuns(mid, next);
        c, next := Select();
      }
      current := next;
      assert recharged <==> Exhausted(mid);
    }

    /** do_timer, up to its call of schedule; true when it goes on to call it. */
    method DoTimer(cpl: int) returns (reschedule: bool)
      requires Valid()
      modifies task
      ensures Valid()
      ensures task[..] == old(task[..])[current := Ticked(old(task[current]))]
      ensures task[current] == old(task[current]).(counter := if old(task[current]).counter <= 1 then 0 else old(task[current]).counter - 1)
      ensures reschedule <==> task[current].counter == 0 && cpl != 0
    {
      task[current] := task[current].(counter := task[current].counter - 1);
      if task[current].counter > 0 {
        return false;
      }
      task[current] := task[current].(counter := 0);
      reschedule := cpl != 0;
    }

    /** sys_nice: a change that would make the priority less than one is ignored. */
    method Nice(increment: int)
      requires Valid()
      modifies task
      ensures Valid() && task[..] == old(task[..])[current := Niced(old(task[current]), increment)]
      ensures task[current].priority == if old(task[current]).priority > increment then old(task[current]).priority - increment else old(task[current]).priority
    {
      if task[current].priority - increment > 0 {
        task[current] := task[current].(priority := task[current].priority - increment);
      }
    }
  }

  function Ticked(s: Slot): Slot
    requires s.Task?
  {
    s.(counter := if s.counter > 1 then s.counter - 1 else 0)
  }

  function Niced(s: Slot, increment: int): Slot
    requires s.Task?
  {
    if s.priority - increment > 0 then s.(priority := s.priority - increment) else s
  }

  /** After a recharge somebody is runnable with time left, so the loop of schedule stops. */
  lemma RechargedRuns(ts: seq<Slot>, next: int)
    requires Ok(ts) && Best(ts, next) && 0 < next < NR_TASKS
    ensures SomeRunnable(RechargedAll(ts)) && forall n :: Best(RechargedAll(ts), n) ==> RechargedAll(ts)[n].counter > 0
  {
    assert Runnable(RechargedAll(ts)[next]) && RechargedAll(ts)[next].counter > 0;
  }

  /** One call of schedule in numbers: 0 is running, 1 interruptible, bit 13 the alarm signal. */
  lemma ScheduleLaw(ts: seq<Slot>, ts': seq<Slot>, next: int, jiffies: int, recharged: bool)
    requires Ok(ts) && Scheduled(ts, ts', next, jiffies, recharged)
    ensures |ts'| == 64 && ts'[0] == ts[0] && forall i :: 1 <= i < 64 ==> ts'[i].Task? == ts[i].Task?
    ensures forall i :: 1 <= i < 64 && ts[i].Task? ==> SlotAfter(ts[i], ts'[i], jiffies, recharged)
    ensures recharged <==> (exists i :: 1 <= i < 64 && ts[i].Task? && ts'[i].state == 0) && forall i :: 1 <= i < 64 && ts[i].Task? && ts'[i].state == 0 ==> ts[i].counter == 0
    ensures next == 0 <==> forall i :: 1 <= i < 64 && ts'[i].Task? ==> ts'[i].state != 0
    ensures next != 0 ==> 1 <= next < 64 && ts'[next].Task? && ts'[next].state == 0
    ensures next != 0 ==> forall i :: 1 <= i < 64 && ts'[i].Task? && ts'[i].state == 0 ==> ts'[i].counter < ts'[next].counter || (ts'[i].counter == ts'[next].counter && i <= next)
  {
    var mid := SignalledAll(ts, jiffies);
    forall i | 1 <= i < 64 && ts[i].Task?
      ensures SlotAfter(ts[i], ts'[i], jiffies, recharged) && (Runnable(mid[i]) <==> ts'[i].state == 0) && mid[i].counter == ts[i].counter
    {
      SlotLaw(ts[i], jiffies, recharged);
    }
    BestLaw(ts', next);
  }

  /** One slot: signals, and a recharge if there is one. */
  lemma SlotLaw(s: Slot, jiffies: int, recharged: bool)
    requires s.Task?
    ensures var mid := Signalled(s, jiffies); var s' := if recharged then Recharged(mid) else mid;
      SlotAfter(s, s', jiffies, recharged) && (Runnable(mid) <==> s'.state == 0) && mid.counter == s.counter
  {
    SignalLaw(s, jiffies);
  }

  lemma SignalLaw(s: Slot, jiffies: int)
    requires s.Task?
    ensures SlotAfter(s, Signalled(s, jiffies), jiffies, false)
  {
    if s.alarm != 0 && s.alarm < jiffies {
      assert s.signal | 0x2000 != 0;
    }
  }

  /** The best task in numbers: the last of the runnable ones with the greatest counter, 0 when none is runnable. */
  lemma BestLaw(ts: seq<Slot>, next: int)
    requires |ts| == 64 && Best(ts, next)
    ensures next == 0 <==> forall i :: 1 <= i < 64 && ts[i].Task? ==> ts[i].state != 0
    ensures next != 0 ==> 1 <= next < 64 && ts[next].Task? && ts[next].state == 0
    ensures next != 0 ==> forall i :: 1 <= i < 64 && ts[i].Task? && ts[i].state == 0 ==> ts[i].counter < ts[next].counter || (ts[i].counter == ts[next].counter && i <= next)
  {
    forall i | 1 <= i < 64 && ts[i].Task? && ts[i].state == 0
      ensures Runnable(ts[i])
    {
    }
  }

  /** The fields of a slot before and after. */
  predicate SlotAfter(s: Slot, s': Slot, jiffies: int, recharged: bool)
    requires s.Task?
  {
    var due := s.alarm != 0 && s.alarm < jiffies;
    && s'.Task? && s'.priority == s.priority
    && s'.alarm == (if due then 0 else s.alarm) && s'.signal == (if due then s.signal | 0x2000 else s.signal)
    && s'.state == (if s.state == 1 && (due || s.signal != 0) then 0 else s.state)
    && s'.counter == if recharged then s.counter / 2 + s.priority else s.counter
  }

  // ---------------------------------------------------------------- epochs

  /** The machine with its history: time granted to each task at the last recharge, and timer ticks charged to it since. */
  datatype Machine = Machine(ts: seq<Slot>, current: int, granted: seq<int>, used: seq<int>)

  datatype Event =
    | Tick
    | Resched(jiffies: int)
    | Nice(increment: int)
    | SetState(i: int, state: int)   // sleeping, waking, stopping
    | Fork(i: int)                   // copy_process: counter = priority
    | Exit(i: int)

  /** The tables have their sizes and somebody is running. */
  predicate Shaped(m: Machine) {
    |m.ts| == |m.granted| == |m.used| == NR_TASKS && 0 <= m.current < NR_TASKS && m.ts[m.current].Task?
  }

  /** Priorities are positive, and every task still has the time it was granted and has not used. */
  predicate Sound(m: Machine) {
    && Shaped(m) && Ok(m.ts)
    && (forall i :: 0 <= i < NR_TASKS ==> m.used[i] >= 0)
    && (forall i :: 1 <= i < NR_TASKS && m.ts[i].Task? ==> m.ts[i].counter >= m.granted[i] - m.used[i])
  }

  function Counters(ts: seq<Slot>): (c: seq<int>)
    ensures |c| == |ts| && forall i :: 0 <= i < |ts| ==> c[i] == if ts[i].Task? then ts[i].counter else 0
  {
    seq(|ts|, i requires 0 <= i < |ts| => if ts[i].Task? then ts[i].counter else 0)
  }

  function NoTicks(): (u: seq<int>)
    ensures |u| == NR_TASKS && forall i :: 0 <= i < NR_TASKS ==> u[i] == 0
  {
    seq(NR_TASKS, _ => 0)
  }

  /** One event; schedule may recharge. */
  ghost predicate Follows(m: Machine, m': Machine, ev: Event, recharged: bool)
    requires Shaped(m)
  {
    match ev
    case Tick => !recharged && m' == m.(ts := m.ts[m.current := Ticked(m.ts[m.current])], used := m.used[m.current := m.used[m.current] + 1])
    case Resched(jiffies) =>
      && Scheduled(m.ts, m'.ts, m'.current, jiffies, recharged)
      && m'.granted == (if recharged then Counters(m'.ts) else m.granted)
      && m'.used == (if recharged then NoTicks() else m.used)
    case Nice(increment) => !recharged && m' == m.(ts := m.ts[m.current := Niced(m.ts[m.current], increment)])
    case SetState(i, state) => !recharged && 1 <= i < NR_TASKS && m.ts[i].Task? && m' == m.(ts := m.ts[i := m.ts[i].(state := state)])
    case Fork(i) =>
      && !recharged && 1 <= i < NR_TASKS && m.ts[i].Empty?
      && var p := m.ts[m.current];
         m' == m.(ts := m.ts[i := Task(RUNNING, p.priority, p.priority, 0, 0)], granted := m.granted[i := p.priority], used := m.used[i := 0])
    case Exit(i) => !recharged && 1 <= i < NR_TASKS && i != m.current && m' == m.(ts := m.ts[i := Empty])
  }

  /** The accounts in numbers: a recharge grants each task its new counter and starts counting ticks anew, a tick is charged to
      the running task, a new task is granted its parent's priority. */
  lemma AccountsLaw(m: Machine, m': Machine, ev: Event, recharged: bool)
    requires Sound(m) && Follows(m, m', ev, recharged)
    ensures recharged ==> forall i :: 0 <= i < 64 && m'.ts[i].Task? ==> m'.granted[i] == m'.ts[i].counter && m'.used[i] == 0
    ensures !recharged && !ev.Fork? ==> m'.granted == m.granted
    ensures ev == Tick ==> m'.used[m.current] == m.used[m.current] + 1 && forall i :: 0 <= i < 64 && i != m.current ==> m'.used[i] == m.used[i]
    ensures !recharged && ev != Tick && !ev.Fork? ==> m'.used == m.used
    ensures ev.Fork? ==> m'.ts[ev.i].Task? && m'.ts[ev.i].counter == m.ts[m.current].priority == m'.granted[ev.i] && m'.used[ev.i] == 0
  {
  }

  /** A recharge starts the accounts afresh; otherwise schedule leaves counters alone. */
  lemma ReschedSound(m: Machine, m': Machine, jiffies: int, recharged: bool)
    requires Sound(m) && Follows(m, m', Resched(jiffies), recharged)
    ensures Sound(m')
  {
  }

  lemma OtherSound(m: Machine, m': Machine, ev: Event, recharged: bool)
    requires Sound(m) && Follows(m, m', ev, recharged) && !ev.Resched?
    ensures Sound(m')
  {
  }

  lemma FollowsSound(m: Machine, m': Machine, ev: Event, recharged: bool)
    requires Sound(m) && Follows(m, m', ev, recharged)
    ensures Sound(m')
  {
    match ev
    case Resched(jiffies) => ReschedSound(m, m', jiffies, recharged);
    case _ => OtherSound(m, m', ev, recharged);
  }

  /** At every recharge each runnable task has had, since the last one, at least the time it was granted. */
  lemma WholeQuantumUsed(m: Machine, m': Machine, jiffies: int)
    requires Sound(m) && Follows(m, m', Resched(jiffies), true)
    ensures forall i :: 1 <= i < NR_TASKS && Runnable(m.ts[i]) ==> m.used[i] >= m.granted[i]
  {
    var mid := SignalledAll(m.ts, jiffies);
    forall i | 1 <= i < NR_TASKS && Runnable(m.ts[i])
      ensures m.used[i] >= m.granted[i]
    {
      assert Runnable(mid[i]) && mid[i].counter == m.ts[i].counter;
    }
  }

  /** A run: states, events and recharges, from a sound state. */
  ghost predicate IsRun(ms: seq<Machine>, evs: seq<Event>, rs: seq<bool>) {
    |ms| == |evs| + 1 && |rs| == |evs| && Sound(ms[0]) && forall k :: 0 <= k < |evs| ==> StepAt(ms, evs, rs, k)
  }

  ghost predicate StepAt(ms: seq<Machine>, evs: seq<Event>, rs: seq<bool>, k: nat)
    requires |ms| == |evs| + 1 && |rs| == |evs| && k < |evs|
  {
    Shaped(ms[k]) && Follows(ms[k], ms[k + 1], evs[k], rs[k])
  }

  /** The accounts are right in every state of every run. */
  lemma {:induction false} AlwaysSound(ms: seq<Machine>, evs: seq<Event>, rs: seq<bool>, k: nat)
    requires IsRun(ms, evs, rs) && k <= |evs|
    ensures Sound(ms[k])
  {
    if k > 0 {
      AlwaysSound(ms, evs, rs, k - 1);
      assert StepAt(ms, evs, rs, k - 1);
      FollowsSound(ms[k - 1], ms[k], evs[k - 1], rs[k - 1]);
    }
  }

  /** At every recharge of every run, each runnable task has used the time that it was granted. */
  lemma EveryEpoch(ms: seq<Machine>, evs: seq<Event>, rs: seq<bool>, k: nat)
    requires IsRun(ms, evs, rs) && k < |evs| && rs[k]
    ensures evs[k].Resched? && Sound(ms[k]) && forall i :: 1 <= i < NR_TASKS && Runnable(ms[k].ts[i]) ==> ms[k].used[i] >= ms[k].granted[i]
  {
    AlwaysSound(ms, evs, rs, k);
    assert StepAt(ms, evs, rs, k);
    match evs[k]
    case Resched(jiffies) => WholeQuantumUsed(ms[k], ms[k + 1], jiffies);
  }

  /** The ticks charged to task i from state j to state k. */
  ghost function Ticks(ms: seq<Machine>, evs: seq<Event>, i: int, j: nat, k: nat): nat
    requires |ms| == |evs| + 1 && j <= k <= |evs|
  {
    if j == k then 0 else Ticks(ms, evs, i, j, k - 1) + if evs[k - 1] == Tick && ms[k - 1].current == i then 1 else 0
  }

  /** Between recharges a task that keeps its slot loses exactly the ticks in which it ran, and never time while others run. */
  lemma {:induction false} OnlyOwnTicks(ms: seq<Machine>, evs: seq<Event>, rs: seq<bool>, i: int, j: nat, k: nat)
    requires IsRun(ms, evs, rs) && j <= k <= |evs| && 1 <= i < NR_TASKS && forall n :: j <= n < k ==> !rs[n]
    requires forall n :: j <= n <= k ==> i < |ms[n].ts| && ms[n].ts[i].Task?
    ensures var left := ms[j].ts[i].counter - Ticks(ms, evs, i, j, k); ms[k].ts[i].counter == if left > 0 then left else 0
  {
    AlwaysSound(ms, evs, rs, k);
    if j < k {
      OnlyOwnTicks(ms, evs, rs, i, j, k - 1);
      AlwaysSound(ms, evs, rs, k - 1);
      assert StepAt(ms, evs, rs, k - 1);
      TimeOnlyByTicks(ms[k - 1], ms[k], evs[k - 1], i);
    }
  }

  predicate PrioritiesAtMost(ts: seq<Slot>, most: int) {
    forall i :: 0 <= i < |ts| && ts[i].Task? ==> ts[i].priority <= most
  }

  predicate CountersBelow(ts: seq<Slot>, bound: int) {
    forall i :: 0 <= i < |ts| && ts[i].Task? ==> ts[i].counter < bound
  }

  lemma CountersStayBelow(m: Machine, m': Machine, ev: Event, recharged: bool, most: int)
    requires Sound(m) && Follows(m, m', ev, recharged) && PrioritiesAtMost(m.ts, most) && CountersBelow(m.ts, 2 * most)
    ensures CountersBelow(m'.ts, 2 * most)
  {
  }

  /** Over every run, counters stay below twice the highest priority ever held. */
  lemma {:induction false} CountersBounded(ms: seq<Machine>, evs: seq<Event>, rs: seq<bool>, most: int, k: nat)
    requires IsRun(ms, evs, rs) && k <= |evs| && CountersBelow(ms[0].ts, 2 * most)
    requires forall j :: 0 <= j < |ms| ==> PrioritiesAtMost(ms[j].ts, most)
    ensures CountersBelow(ms[k].ts, 2 * most)
  {
    if k > 0 {
      CountersBounded(ms, evs, rs, most, k - 1);
      AlwaysSound(ms, evs, rs, k - 1);
      assert StepAt(ms, evs, rs, k - 1);
      CountersStayBelow(ms[k - 1], ms[k], evs[k - 1], rs[k - 1], most);
    }
  }

  /** One event without a recharge: only a tick of its own takes time from a task. */
  lemma TimeOnlyByTicks(m: Machine, m': Machine, ev: Event, i: int)
    requires Sound(m) && Follows(m, m', ev, false) && 1 <= i < NR_TASKS && m.ts[i].Task? && m'.ts[i].Task?
    ensures m'.ts[i].counter == if ev == Tick && i == m.current then Ticked(m.ts[i]).counter else m.ts[i].counter
  {
  }
}
