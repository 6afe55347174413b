/**
 Tasks, messages, wait queues and the scheduler as a transition system:
 kernel/task.c, thread.c, message.c, schedule.c, drivers/timer.c and
 lib/system/sleep.c. Each kernel call is one atomic step. The message and wait
 queues are bounded FIFOs, which lib/queue.c implements (module Queue).
 */
module Tasks {
  import opened Machine
  import Queue

  datatype Status = Ready | Blocked

  /**
   A task. Messages are named by their place in the log of all messages sent.
   `got` and `lost` record what the task has received and what was dropped for it.
   */
  datatype Task = Task(pid: u32, status: Status, priority: int, timeout: u32, queue: seq<nat>,
                       got: seq<nat>, lost: seq<nat>)

  datatype Message = Message(from: u32, to: u32, data: nat)

  /** The kernel's globals, with the log of messages. Task 0 is idle. */
  datatype Sys = Sys(tasks: seq<Task>, running: nat, pidN: u32, waits: seq<seq<nat>>, sent: seq<Message>)

  /** A kernel call; those without a target are made by the running task. `junk` is the timeout field malloc left. */
  datatype Event =
    | Spawn(priority: int, forced: Option<u32>, junk: u32)
    | Send(to: u32, data: nat)
    | Receive
    | SleepOn(q: nat)
    | WakeUp(q: nat)
    | Sleep(ms: u32)
    | Block
    | Tick

  // ---------------------------------------------------------------- schedule

  predicate IsReady(t: Task) { t.status == Ready }

  /** The first traversal of schedule: the greatest priority of a READY task among the first `n`, at least -127. */
  function MaxReady(tasks: seq<Task>, n: nat): (p: int)
    requires n <= |tasks|
    ensures p >= -127 && forall i :: 0 <= i < n && IsReady(tasks[i]) ==> tasks[i].priority <= p
    ensures p > -127 ==> exists i :: 0 <= i < n && IsReady(tasks[i]) && tasks[i].priority == p
  {
    if n == 0 then -127
    else
      var p := MaxReady(tasks, n - 1);
      if IsReady(tasks[n - 1]) && tasks[n - 1].priority > p then tasks[n - 1].priority else p
  }

  /** The second traversal: the first READY task of priority `p`; |tasks| when there is none. */
  function FirstAt(tasks: seq<Task>, p: int): (k: nat)
    ensures k <= |tasks| && (k < |tasks| ==> IsReady(tasks[k]) && tasks[k].priority == p)
    ensures forall j :: 0 <= j < k ==> !(IsReady(tasks[j]) && tasks[j].priority == p)
  {
    if tasks == [] || (IsReady(tasks[0]) && tasks[0].priority == p) then 0 else 1 + FirstAt(tasks[1..], p)
  }

  /** The task schedule switches to; None when task_foreach runs off the list. */
  function Pick(tasks: seq<Task>): Option<nat> {
    var k := FirstAt(tasks, MaxReady(tasks, |tasks|));
    if k < |tasks| then Some(k) else None
  }

  /** Task `k` is READY, no READY task has greater priority, and no earlier one as much. */
  ghost predicate Best(tasks: seq<Task>, k: nat) {
    && k < |tasks| && IsReady(tasks[k])
    && (forall j :: 0 <= j < |tasks| && IsReady(tasks[j]) ==> tasks[j].priority <= tasks[k].priority)
    && (forall j :: 0 <= j < k && IsReady(tasks[j]) ==> tasks[j].priority < tasks[k].priority)
  }

  /** schedule finds a task exactly when a READY one has priority -127 or more, and it is the best one. */
  lemma PickIff(tasks: seq<Task>)
    ensures Pick(tasks).Some? <==> exists i :: 0 <= i < |tasks| && IsReady(tasks[i]) && tasks[i].priority >= -127
    ensures Pick(tasks).Some? ==> Best(tasks, Pick(tasks).value)
  {
    var p := MaxReady(tasks, |tasks|);
    var k := FirstAt(tasks, p);
    if exists i :: 0 <= i < |tasks| && IsReady(tasks[i]) && tasks[i].priority >= -127 {
      var i :| 0 <= i < |tasks| && IsReady(tasks[i]) && tasks[i].priority >= -127;
      if p == -127 {
        assert tasks[i].priority == p;
      }
    }
  }

  // -------------------------------------------------------------------- steps

  /** task_from_pid: the first task with that PID; |tasks| when there is none. */
  function WithPid(tasks: seq<Task>, pid: u32): (k: nat)
    ensures k <= |tasks| && (k < |tasks| ==> tasks[k].pid == pid) && forall j :: 0 <= j < k ==> tasks[j].pid != pid
  {
    if tasks == [] || tasks[0].pid == pid then 0 else 1 + WithPid(tasks[1..], pid)
  }

  function Wake(t: Task): Task { t.(status := Ready) }

  /** update_timeout by 10 ms, in uint32_t arithmetic. */
  function TickTask(t: Task): Task {
    if t.timeout == 0 then t
    else if Sub32(t.timeout, 10) == 0 then Wake(t.(timeout := 0))
    else t.(timeout := Sub32(t.timeout, 10))
  }

  /** task_foreach with update_timeout. */
  function TickAll(tasks: seq<Task>): (r: seq<Task>)
    ensures |r| == |tasks| && forall i :: 0 <= i < |tasks| ==> r[i] == TickTask(tasks[i])
  {
    seq(|tasks|, i requires 0 <= i < |tasks| => TickTask(tasks[i]))
  }

  /** queue_add of message `id` to the task's 32 slots, and TS_READY. */
  function Deliver(t: Task, id: nat): Task {
    Wake(if |t.queue| < 32 then t.(queue := t.queue + [id]) else t.(lost := t.lost + [id]))
  }

  function Resched(s: Sys): Sys {
    match Pick(s.tasks)
    case Some(k) => s.(running := k)
    case None => s
  }

  /** When a call can happen: idle only halts, so it never blocks itself; a driver forces a PID once. */
  predicate Enabled(s: Sys, e: Event) {
    match e
    case Spawn(_, forced, _) =>
      s.pidN < 0xFFFF_FFFF && (forced.None? || (forced.value in {4, 8} && WithPid(s.tasks, forced.value) == |s.tasks|))
    case SleepOn(q) => q < |s.waits| && s.running != 0
    case WakeUp(q) => q < |s.waits|
    case Sleep(_) => s.running != 0
    case Block => s.running != 0
    case _ => true
  }

  function Step(s: Sys, e: Event): Sys
    requires Enabled(s, e) && s.running < |s.tasks| && InRange(s)
  {
    var me := s.tasks[s.running];
    match e
    case Spawn(priority, forced, junk) =>
      var pid := if forced.Some? then forced.value else s.pidN + 1;
      s.(pidN := s.pidN + 1, tasks := s.tasks + [Task(pid, Ready, priority, junk, [], [], [])])
    case Send(to, data) =>
      var k := WithPid(s.tasks, to);
      if k == |s.tasks| then s
      else s.(tasks := s.tasks[k := Deliver(s.tasks[k], |s.sent|)], sent := s.sent + [Message(me.pid, to, data)])
    case Receive =>
      if me.queue == [] then s
      else s.(tasks := s.tasks[s.running := me.(queue := me.queue[1..], got := me.got + [me.queue[0]])])
    case SleepOn(q) =>
      Resched(s.(tasks := s.tasks[s.running := me.(status := Blocked, timeout := 0)],
                 waits := s.waits[q := Queue.Push(s.waits[q], 8, s.running)]))
    case WakeUp(q) =>
      if s.waits[q] == [] then s
      else s.(tasks := s.tasks[s.waits[q][0] := Wake(s.tasks[s.waits[q][0]])], waits := s.waits[q := s.waits[q][1..]])
    case Sleep(ms) =>
      Resched(s.(tasks := s.tasks[s.running := me.(status := Blocked, timeout := ms)]))
    case Block =>
      Resched(s.(tasks := s.tasks[s.running := me.(status := Blocked)]))
    case Tick =>
      Resched(s.(tasks := TickAll(s.tasks)))
  }

  /** Wait queues hold tasks. */
  predicate InRange(s: Sys) {
    forall q, i :: 0 <= q < |s.waits| && 0 <= i < |s.waits[q]| ==> s.waits[q][i] < |s.tasks|
  }

  /** After tasking(): the idle task alone, and `nq` empty wait queues. */
  function Boot(nq: nat, junk: u32): Sys {
    Sys([Task(1001, Ready, -1, junk, [], [], [])], 0, 1001, seq(nq, _ => []), [])
  }

  // --------------------------------------------------------------- invariants

  /** The idle task stays READY, and whoever runs is READY. */
  ghost predicate SchedInv(s: Sys) {
    && s.running < |s.tasks| && IsReady(s.tasks[0]) && s.tasks[0].priority == -1
    && IsReady(s.tasks[s.running])
  }

  /** PIDs are distinct: 4 and 8 where forced, else 1001 for idle and one more for each task spawned after it. */
  ghost predicate PidInv(s: Sys) {
    && s.pidN == 1000 + |s.tasks|
    && (forall i :: 0 <= i < |s.tasks| ==> s.tasks[i].pid in {4, 8} || s.tasks[i].pid == 1001 + i)
    && (forall i, j :: 0 <= i < j < |s.tasks| ==> s.tasks[i].pid != s.tasks[j].pid)
  }

  ghost predicate Increasing(s: seq<nat>) {
    forall i, j :: 0 <= i < j < |s| ==> s[i] < s[j]
  }

  /** How many messages in the log went to `pid`. */
  function CountTo(sent: seq<Message>, pid: u32): nat {
    if sent == [] then 0 else CountTo(sent[..|sent| - 1], pid) + if sent[|sent| - 1].to == pid then 1 else 0
  }

  /**
   What task `t` received, and after it what is pending, is in sending order without repetition; with what was
   dropped it is exactly what was sent to its PID, each message once.
   */
  ghost predicate Conserved(sent: seq<Message>, t: Task) {
    && Increasing(t.got + t.queue) && Increasing(t.lost) && |t.queue| <= 32
    && (forall id: nat :: id in t.got || id in t.queue || id in t.lost <==> id < |sent| && sent[id].to == t.pid)
    && (forall id: nat :: id in t.lost ==> id !in t.got && id !in t.queue)
    && |t.got| + |t.queue| + |t.lost| == CountTo(sent, t.pid)
  }

  ghost predicate Known(tasks: seq<Task>, pid: u32) { WithPid(tasks, pid) < |tasks| }

  /** Messages go to PIDs that exist, and every task's messages are conserved. */
  ghost predicate MsgInv(s: Sys) {
    && (forall i :: 0 <= i < |s.sent| ==> Known(s.tasks, s.sent[i].to))
    && (forall k :: 0 <= k < |s.tasks| ==> Conserved(s.sent, s.tasks[k]))
  }

  /** Wait queues hold tasks, at most eight each. */
  ghost predicate WaitInv(s: Sys) {
    InRange(s) && forall q :: 0 <= q < |s.waits| ==> |s.waits[q]| <= 8
  }

  ghost predicate Inv(s: Sys) {
    SchedInv(s) && PidInv(s) && MsgInv(s) && WaitInv(s)
  }

  lemma BootInv(nq: nat, junk: u32)
    ensures Inv(Boot(nq, junk))
  {
    assert Boot(nq, junk).tasks[0].got + Boot(nq, junk).tasks[0].queue == [];
  }

  // --------------------------------------------------------- what steps keep

  /** With idle READY, schedule always finds a task, and it is READY. */
  lemma ReschedKeeps(s: Sys)
    requires |s.tasks| > 0 && IsReady(s.tasks[0]) && s.tasks[0].priority == -1
    ensures SchedInv(Resched(s)) && Best(s.tasks, Resched(s).running)
  {
    PickIff(s.tasks);
  }

  lemma StepSched(s: Sys, e: Event)
    requires Inv(s) && Enabled(s, e)
    ensures SchedInv(Step(s, e))
  {
    hide MsgInv, PidInv;
    var me := s.tasks[s.running];
    match e
    case SleepOn(q) =>
      ReschedKeeps(s.(tasks := s.tasks[s.running := me.(status := Blocked, timeout := 0)],
                      waits := s.waits[q := Queue.Push(s.waits[q], 8, s.running)]));
    case Sleep(ms) => ReschedKeeps(s.(tasks := s.tasks[s.running := me.(status := Blocked, timeout := ms)]));
    case Block => ReschedKeeps(s.(tasks := s.tasks[s.running := me.(status := Blocked)]));
    case Tick => ReschedKeeps(s.(tasks := TickAll(s.tasks)));
    case _ =>
  }

  /** What a step leaves of a task that was there before: its PID always, its mail except for its own messages. */
  lemma StepTask(s: Sys, e: Event, k: nat)
    requires s.running < |s.tasks| && InRange(s) && Enabled(s, e) && k < |s.tasks|
    ensures var t := Step(s, e);
            && |t.tasks| == |s.tasks| + (if e.Spawn? then 1 else 0)
            && t.tasks[k].pid == s.tasks[k].pid && t.tasks[k].priority == s.tasks[k].priority
            && (!e.Send? ==> t.sent == s.sent) && (!e.Spawn? ==> t.pidN == s.pidN)
            && (!e.Send? && !e.Receive? ==>
                  t.tasks[k].queue == s.tasks[k].queue && t.tasks[k].got == s.tasks[k].got && t.tasks[k].lost == s.tasks[k].lost)
  {
    hide Pick;
  }

  /** What a step does to a task's timeout: its own sleep and sleep_on set it, ticks count it down, nothing else touches it. */
  lemma StepTimeout(s: Sys, e: Event, k: nat)
    requires s.running < |s.tasks| && InRange(s) && Enabled(s, e) && k < |s.tasks|
    ensures k < |Step(s, e).tasks|
    ensures var t, u := s.tasks[k].timeout, Step(s, e).tasks[k].timeout;
            && (e.Tick? && t <= 10 ==> u == if t == 0 || t == 10 then 0 else t - 10 + 0x1_0000_0000)
            && (e.Tick? && t > 10 ==> u == t - 10)
            && (k == s.running && e.Sleep? ==> u == e.ms) && (k == s.running && e.SleepOn? ==> u == 0)
            && (!e.Tick? && !(k == s.running && (e.Sleep? || e.SleepOn?)) ==> u == t)
  {
    hide Pick;
  }

  /** A task spawned is READY, of the priority asked for, with nothing pending, received or dropped. */
  lemma StepSpawn(s: Sys, e: Event)
    requires Inv(s) && Enabled(s, e) && e.Spawn?
    ensures var t := Step(s, e);
            && |t.tasks| == |s.tasks| + 1 && t.tasks[..|s.tasks|] == s.tasks && t.running == s.running
            && var u := t.tasks[|s.tasks|];
               && IsReady(u) && u.priority == e.priority && u.timeout == e.junk && u.queue == u.got == u.lost == []
               && u.pid == if e.forced.Some? then e.forced.value else 1001 + |s.tasks|
  {
    hide MsgInv, WaitInv;
  }

  /** The log gains a message exactly by a send to a PID that exists: from the running task, to that PID, with that data. */
  lemma StepSent(s: Sys, e: Event)
    requires s.running < |s.tasks| && InRange(s) && Enabled(s, e)
    ensures var t := Step(s, e).sent;
            if e.Send? && exists k :: 0 <= k < |s.tasks| && s.tasks[k].pid == e.to
            then t[..|t| - 1] == s.sent && |t| == |s.sent| + 1 && t[|s.sent|].from == s.tasks[s.running].pid
                 && t[|s.sent|].to == e.to && t[|s.sent|].data == e.data
            else t == s.sent
  {
    hide Pick;
  }

  /** Task `t` has become `u`: it took its oldest message (`mine`), was sent message `id` (`to`), or neither. */
  ghost predicate Mail(t: Task, u: Task, id: nat, mine: bool, to: bool) {
    if mine && t.queue != []
    then |u.got| == |t.got| + 1 && t.got <= u.got && t.queue == [u.got[|t.got|]] + u.queue && u.lost == t.lost
    else && u.got == t.got
         && u.queue == (if to && |t.queue| < 32 then t.queue + [id] else t.queue)
         && u.lost == (if to && |t.queue| >= 32 then t.lost + [id] else t.lost)
  }

  /**
   What a step does to a task's mail: its own receive takes the oldest message, a send to its PID adds the newest one or drops
   it with 32 pending, and nothing else touches it.
   */
  lemma StepMail(s: Sys, e: Event, k: nat)
    requires Inv(s) && Enabled(s, e) && k < |s.tasks|
    ensures k < |Step(s, e).tasks|
    ensures Mail(s.tasks[k], Step(s, e).tasks[k], |s.sent|, e.Receive? && k == s.running, e.Send? && s.tasks[k].pid == e.to)
  {
    StepTask(s, e, k);
    if e.Send? {
      PidNames(s, k, e.to);
      SendMail(s, e, k);
    } else if e.Receive? {
      ReceiveMail(s, k);
    }
    hide Inv, Step, Enabled, InRange;
  }

  lemma SendMail(s: Sys, e: Event, k: nat)
    requires s.running < |s.tasks| && InRange(s) && Enabled(s, e) && k < |s.tasks| && e.Send?
    ensures k < |Step(s, e).tasks| && Mail(s.tasks[k], Step(s, e).tasks[k], |s.sent|, false, k == WithPid(s.tasks, e.to))
  {
    hide WithPid;
  }

  lemma ReceiveMail(s: Sys, k: nat)
    requires s.running < |s.tasks| && InRange(s) && k < |s.tasks|
    ensures k < |Step(s, Receive).tasks| && Mail(s.tasks[k], Step(s, Receive).tasks[k], |s.sent|, k == s.running, false)
  {
  }

  /** PIDs are distinct, so the search by PID finds the task that has it. */
  lemma PidNames(s: Sys, k: nat, pid: u32)
    requires PidInv(s) && k < |s.tasks|
    ensures s.tasks[k].pid == pid <==> WithPid(s.tasks, pid) == k
  {
  }

  /** What a step does to a wait queue: sleep_on puts the caller behind the others unless there are eight, wake_up takes the first. */
  lemma StepWaits(s: Sys, e: Event, q: nat)
    requires s.running < |s.tasks| && InRange(s) && Enabled(s, e) && q < |s.waits|
    ensures |Step(s, e).waits| == |s.waits|
    ensures var w, v := s.waits[q], Step(s, e).waits[q];
            if e == SleepOn(q) && |w| < 8 then v == w + [s.running]
            else if e == WakeUp(q) && w != [] then w == [w[0]] + v
            else v == w
  {
    hide Pick;
  }

  /** The calls that do not wait leave the caller running; the others, and a tick, end with the best READY task running. */
  lemma StepRunning(s: Sys, e: Event)
    requires Inv(s) && Enabled(s, e)
    ensures var t := Step(s, e);
            if e.Spawn? || e.Send? || e.Receive? || e.WakeUp? then t.running == s.running else Best(t.tasks, t.running)
  {
    hide MsgInv, PidInv, Pick, Best;
    var me := s.tasks[s.running];
    match e
    case SleepOn(q) =>
      ReschedKeeps(s.(tasks := s.tasks[s.running := me.(status := Blocked, timeout := 0)],
                      waits := s.waits[q := Queue.Push(s.waits[q], 8, s.running)]));
    case Sleep(ms) =>
      ReschedKeeps(s.(tasks := s.tasks[s.running := me.(status := Blocked, timeout := ms)]));
    case Block =>
      ReschedKeeps(s.(tasks := s.tasks[s.running := me.(status := Blocked)]));
    case Tick =>
      ReschedKeeps(s.(tasks := TickAll(s.tasks)));
    case _ =>
  }

  lemma StepPids(s: Sys, e: Event)
    requires s.running < |s.tasks| && InRange(s) && PidInv(s) && Enabled(s, e)
    ensures PidInv(Step(s, e))
  {
    var t := Step(s, e);
    forall k | 0 <= k < |s.tasks| ensures t.tasks[k].pid == s.tasks[k].pid && |t.tasks| == |s.tasks| + (if e.Spawn? then 1 else 0) {
      StepTask(s, e, k);
    }
    if !e.Spawn? {
      StepTask(s, e, 0);
    }
    hide Pick, InRange;
  }

  lemma CountToAppend(sent: seq<Message>, m: Message, pid: u32)
    ensures CountTo(sent + [m], pid) == CountTo(sent, pid) + if m.to == pid then 1 else 0
  {
    assert (sent + [m])[..|sent|] == sent;
  }

  /** A message logged for another PID is no concern of the task. */
  lemma ConservedOther(sent: seq<Message>, t: Task, m: Message)
    requires Conserved(sent, t) && m.to != t.pid
    ensures Conserved(sent + [m], t)
  {
    CountToAppend(sent, m, t.pid);
  }

  lemma ConservedPending(sent: seq<Message>, t: Task, m: Message)
    requires Conserved(sent, t) && m.to == t.pid && |t.queue| < 32
    ensures Conserved(sent + [m], t.(queue := t.queue + [|sent|]))
  {
    CountToAppend(sent, m, t.pid);
    hide CountTo;
    var id, all := |sent|, t.got + t.queue;
    assert t.got + (t.queue + [id]) == all + [id];
    forall i | 0 <= i < |all| ensures all[i] < id {
      assert all[i] in t.got || all[i] in t.queue;
    }
  }

  lemma ConservedDropped(sent: seq<Message>, t: Task, m: Message)
    requires Conserved(sent, t) && m.to == t.pid
    ensures Conserved(sent + [m], t.(lost := t.lost + [|sent|]))
  {
    CountToAppend(sent, m, t.pid);
    hide CountTo;
    forall i | 0 <= i < |t.lost| ensures t.lost[i] < |sent| {
      assert t.lost[i] in t.lost;
    }
  }

  /** A message to the task is pending or, with 32 pending, dropped. */
  lemma ConservedDeliver(sent: seq<Message>, t: Task, m: Message)
    requires Conserved(sent, t) && m.to == t.pid
    ensures Conserved(sent + [m], Deliver(t, |sent|))
    ensures Deliver(t, |sent|).lost != t.lost ==> |t.queue| == 32
  {
    if |t.queue| < 32 {
      ConservedPending(sent, t, m);
      ConservedSame(sent + [m], t.(queue := t.queue + [|sent|]), Deliver(t, |sent|));
    } else {
      ConservedDropped(sent, t, m);
      ConservedSame(sent + [m], t.(lost := t.lost + [|sent|]), Deliver(t, |sent|));
    }
  }

  lemma ConservedReceive(sent: seq<Message>, t: Task)
    requires Conserved(sent, t) && t.queue != []
    ensures Conserved(sent, t.(queue := t.queue[1..], got := t.got + [t.queue[0]]))
  {
    assert t.got + t.queue == (t.got + [t.queue[0]]) + t.queue[1..];
    assert t.queue == [t.queue[0]] + t.queue[1..];
  }

  lemma ConservedSame(sent: seq<Message>, t: Task, u: Task)
    requires Conserved(sent, t) && u.pid == t.pid && u.queue == t.queue && u.got == t.got && u.lost == t.lost
    ensures Conserved(sent, u)
  {
  }

  lemma {:induction false} CountToNone(sent: seq<Message>, pid: u32)
    requires forall i :: 0 <= i < |sent| ==> sent[i].to != pid
    ensures CountTo(sent, pid) == 0
  {
    if sent != [] {
      CountToNone(sent[..|sent| - 1], pid);
    }
  }

  lemma KnownKept(tasks: seq<Task>, tasks': seq<Task>, pid: u32)
    requires Known(tasks, pid) && |tasks| <= |tasks'| && forall k :: 0 <= k < |tasks| ==> tasks'[k].pid == tasks[k].pid
    ensures Known(tasks', pid)
  {
    var k := WithPid(tasks, pid);
    assert tasks'[k].pid == pid;
  }

  lemma StepKnown(s: Sys, e: Event, i: nat)
    requires s.running < |s.tasks| && InRange(s) && MsgInv(s) && Enabled(s, e) && i < |Step(s, e).sent|
    ensures Known(Step(s, e).tasks, Step(s, e).sent[i].to)
  {
    var t := Step(s, e);
    forall k | 0 <= k < |s.tasks| ensures t.tasks[k].pid == s.tasks[k].pid && |s.tasks| <= |t.tasks| {
      StepTask(s, e, k);
    }
    StepTask(s, e, 0);
    hide Pick, InRange, Conserved;
    KnownKept(s.tasks, t.tasks, if i < |s.sent| then s.sent[i].to else e.to);
  }

  /** A new task starts with no messages: nothing was ever sent to its PID. */
  lemma SpawnConserved(s: Sys, pid: u32, u: Task)
    requires MsgInv(s) && (forall k :: 0 <= k < |s.tasks| ==> s.tasks[k].pid != pid)
    requires u.pid == pid && u.queue == u.got == u.lost == []
    ensures Conserved(s.sent, u)
  {
    forall i | 0 <= i < |s.sent| ensures s.sent[i].to != pid {
      assert Known(s.tasks, s.sent[i].to);
    }
    CountToNone(s.sent, pid);
    assert u.got + u.queue == [];
  }

  lemma StepConserved(s: Sys, e: Event, k: nat)
    requires s.running < |s.tasks| && InRange(s) && PidInv(s) && MsgInv(s) && Enabled(s, e) && k < |Step(s, e).tasks|
    ensures Conserved(Step(s, e).sent, Step(s, e).tasks[k])
  {
    hide Pick, InRange, Conserved, Deliver;
    var t := Step(s, e);
    match e
    case Spawn(priority, forced, junk) =>
      if k == |s.tasks| {
        SpawnConserved(s, t.tasks[k].pid, t.tasks[k]);
      }
    case Send(to, data) =>
      var j := WithPid(s.tasks, to);
      if j < |s.tasks| {
        var m := Message(s.tasks[s.running].pid, to, data);
        if k == j {
          ConservedDeliver(s.sent, s.tasks[k], m);
        } else {
          ConservedOther(s.sent, s.tasks[k], m);
        }
      }
    case Receive =>
      if k == s.running && s.tasks[k].queue != [] {
        ConservedReceive(s.sent, s.tasks[k]);
      }
    case _ =>
      StepTask(s, e, 0);
      StepTask(s, e, k);
      ConservedSame(s.sent, s.tasks[k], t.tasks[k]);
  }

  lemma StepMsgs(s: Sys, e: Event)
    requires s.running < |s.tasks| && InRange(s) && PidInv(s) && MsgInv(s) && Enabled(s, e)
    ensures MsgInv(Step(s, e))
  {
    hide Step, PidInv, Conserved, Known, InRange;
    var t := Step(s, e);
    forall i | 0 <= i < |t.sent| ensures Known(t.tasks, t.sent[i].to) {
      StepKnown(s, e, i);
    }
    forall k | 0 <= k < |t.tasks| ensures Conserved(t.sent, t.tasks[k]) {
      StepConserved(s, e, k);
    }
  }

  lemma StepRange(s: Sys, e: Event)
    requires s.running < |s.tasks| && WaitInv(s) && Enabled(s, e)
    ensures InRange(Step(s, e)) && |Step(s, e).waits| == |s.waits|
    ensures forall q :: 0 <= q < |Step(s, e).waits| ==> |Step(s, e).waits[q]| <= 8
  {
    hide Pick;
  }

  /** Every step keeps every invariant. */
  lemma StepKeeps(s: Sys, e: Event)
    requires Inv(s) && Enabled(s, e)
    ensures Inv(Step(s, e))
  {
    StepSched(s, e);
    StepPids(s, e);
    StepMsgs(s, e);
    StepRange(s, e);
    hide Step, PidInv, MsgInv, InRange;
  }

  // ------------------------------------------------- who wakes, who blocks

  /** The call is a message to task `k`, its turn in a wait queue, or the end of its timeout. */
  predicate Wakes(s: Sys, e: Event, k: nat)
    requires Enabled(s, e) && k < |s.tasks|
  {
    || (e.Send? && WithPid(s.tasks, e.to) == k)
    || (e.WakeUp? && s.waits[e.q] != [] && s.waits[e.q][0] == k)
    || (e.Tick? && s.tasks[k].timeout == 10)
  }

  /** The call is task `k`'s own sleep_on, sleep or task_block. */
  predicate Blocks(s: Sys, e: Event, k: nat) {
    k == s.running && (e.SleepOn? || e.Sleep? || e.Block?)
  }

  /** A task's status changes by nothing else. */
  lemma StepStatus(s: Sys, e: Event, k: nat)
    requires s.running < |s.tasks| && InRange(s) && Enabled(s, e) && k < |s.tasks|
    ensures k < |Step(s, e).tasks|
    ensures Step(s, e).tasks[k].status ==
            if Blocks(s, e, k) then Blocked else if Wakes(s, e, k) then Ready else s.tasks[k].status
  {
    hide Pick;
    match e
    case Tick =>
    case Send(to, data) =>
    case _ =>
  }

  /** In every state, a BLOCKED task becomes READY by exactly those calls, and a READY one BLOCKED by exactly these. */
  lemma StatusIff(s: Sys, e: Event, k: nat)
    requires Inv(s) && Enabled(s, e) && k < |s.tasks|
    ensures k < |Step(s, e).tasks|
    ensures s.tasks[k].status == Blocked ==> (IsReady(Step(s, e).tasks[k]) <==> Wakes(s, e, k))
    ensures IsReady(s.tasks[k]) ==> (!IsReady(Step(s, e).tasks[k]) <==> Blocks(s, e, k))
  {
    StepStatus(s, e, k);
    assert s.tasks[k].status == Blocked ==> k != s.running;
    hide Step;
  }

  // ------------------------------------------------------------- whole runs

  /** `s'` follows from `s` by the events `es`, each one enabled where it happens. */
  ghost predicate Runs(s: Sys, es: seq<Event>, s': Sys)
    decreases |es|
  {
    if es == [] then s' == s
    else s.running < |s.tasks| && InRange(s) && Enabled(s, es[0]) && Runs(Step(s, es[0]), es[1..], s')
  }

  /** The invariants hold after every run from boot. */
  lemma {:induction false} RunKeeps(s: Sys, es: seq<Event>, s': Sys)
    requires Inv(s) && Runs(s, es, s')
    ensures Inv(s')
    decreases |es|
  {
    hide Inv, Step;
    if es != [] {
      StepKeeps(s, es[0]);
      RunKeeps(Step(s, es[0]), es[1..], s');
    }
  }

  /** What was sent stays in the log: a message that is received later is the one that was sent. */
  lemma {:induction false} LogGrows(s: Sys, es: seq<Event>, s': Sys)
    requires Runs(s, es, s')
    ensures s.sent <= s'.sent
    decreases |es|
  {
    hide Step, InRange, Enabled;
    if es != [] {
      StepSent(s, es[0]);
      LogGrows(Step(s, es[0]), es[1..], s');
    }
  }

  /** In every reachable state schedule finds a task, and it is the first of the READY tasks of greatest priority. */
  lemma ScheduleAlwaysFinds(nq: nat, junk: u32, es: seq<Event>, s: Sys)
    requires Runs(Boot(nq, junk), es, s)
    ensures Pick(s.tasks).Some? && Best(s.tasks, Pick(s.tasks).value) && IsReady(s.tasks[0])
  {
    BootInv(nq, junk);
    RunKeeps(Boot(nq, junk), es, s);
    ReschedKeeps(s);
    PickIff(s.tasks);
  }

  /** In every reachable state the messages of each task are conserved, and PIDs name tasks uniquely. */
  lemma MailConserved(nq: nat, junk: u32, es: seq<Event>, s: Sys, k: nat)
    requires Runs(Boot(nq, junk), es, s) && k < |s.tasks|
    ensures Conserved(s.sent, s.tasks[k]) && WithPid(s.tasks, s.tasks[k].pid) == k
  {
    BootInv(nq, junk);
    RunKeeps(Boot(nq, junk), es, s);
  }

  /** A message is dropped only by a send to a task with 32 pending. */
  lemma DropOnlyWhenFull(s: Sys, e: Event, k: nat)
    requires Inv(s) && Enabled(s, e) && k < |s.tasks| && Step(s, e).tasks[k].lost != s.tasks[k].lost
    ensures e.Send? && k == WithPid(s.tasks, e.to) && |s.tasks[k].queue| == 32
    ensures Step(s, e).tasks[k].lost == s.tasks[k].lost + [|s.sent|]
  {
    StepTask(s, e, k);
    assert Conserved(s.sent, s.tasks[k]);
    hide Conserved, PidInv, WaitInv;
  }

  /** `n` calls of wake_up on queue `q`. */
  function WakeUps(s: Sys, q: nat, n: nat): (t: Sys)
    requires q < |s.waits| && s.running < |s.tasks| && InRange(s)
    ensures |t.waits| == |s.waits| && t.running < |t.tasks| && InRange(t)
    decreases n
  {
    if n == 0 then s
    else
      var t := WakeUps(s, q, n - 1);
      var u := Step(t, WakeUp(q));
      u
  }

  /** `n` wake_ups take the first `n` tasks off the queue and make READY exactly those that stood there. */
  lemma {:induction false} WakeUpsDrain(s: Sys, q: nat, n: nat)
    requires s.running < |s.tasks| && InRange(s) && q < |s.waits| && n <= |s.waits[q]|
    ensures WakeUps(s, q, n).waits[q] == s.waits[q][n..] && |WakeUps(s, q, n).tasks| == |s.tasks|
    ensures forall k: nat :: k < |s.tasks| ==>
              (IsReady(WakeUps(s, q, n).tasks[k]) <==> IsReady(s.tasks[k]) || k in s.waits[q][..n])
    decreases n
  {
    hide Step, InRange;
    if n > 0 {
      WakeUpsDrain(s, q, n - 1);
      var t := WakeUps(s, q, n - 1);
      WakeStep(t, q);
      assert s.waits[q][..n] == s.waits[q][..n - 1] + [s.waits[q][n - 1]];
    }
  }

  lemma InvBasics(s: Sys)
    requires Inv(s)
    ensures s.running < |s.tasks| && InRange(s)
  {
  }

  lemma WakeStep(s: Sys, q: nat)
    requires s.running < |s.tasks| && InRange(s) && q < |s.waits| && s.waits[q] != []
    ensures Step(s, WakeUp(q)).waits == s.waits[q := s.waits[q][1..]] && |Step(s, WakeUp(q)).tasks| == |s.tasks|
    ensures forall k: nat :: k < |s.tasks| ==> (IsReady(Step(s, WakeUp(q)).tasks[k]) <==> IsReady(s.tasks[k]) || k == s.waits[q][0])
  {
  }

  /** wake_up on an empty queue does nothing, however often. */
  lemma {:induction false} WakeUpsEmpty(s: Sys, q: nat, n: nat)
    requires s.running < |s.tasks| && InRange(s) && q < |s.waits| && s.waits[q] == []
    ensures WakeUps(s, q, n) == s
    decreases n
  {
    if n > 0 {
      WakeUpsEmpty(s, q, n - 1);
    }
  }

  lemma {:induction false} WakeUpsAdd(s: Sys, q: nat, m: nat, n: nat)
    requires s.running < |s.tasks| && InRange(s) && q < |s.waits|
    ensures WakeUps(WakeUps(s, q, m), q, n) == WakeUps(s, q, m + n)
    decreases n
  {
    hide Step, InRange;
    if n > 0 {
      WakeUpsAdd(s, q, m, n - 1);
    }
  }

  /** Some number of wake_ups on the queue makes task `k` READY. */
  ghost predicate CanBeWoken(s: Sys, q: nat, k: nat)
    requires s.running < |s.tasks| && InRange(s) && q < |s.waits|
  {
    exists n: nat :: k < |WakeUps(s, q, n).tasks| && IsReady(WakeUps(s, q, n).tasks[k])
  }

  /** Wake_ups reach a BLOCKED task exactly when it stands in the queue. */
  lemma WokenIffQueued(s: Sys, q: nat, k: nat)
    requires s.running < |s.tasks| && InRange(s) && q < |s.waits| && k < |s.tasks| && !IsReady(s.tasks[k])
    ensures CanBeWoken(s, q, k) <==> k in s.waits[q]
  {
    hide Step, InRange, IsReady;
    var w := s.waits[q];
    WakeUpsDrain(s, q, |w|);
    assert w[..|w|] == w && w[|w|..] == [];
    var t := WakeUps(s, q, |w|);
    if k in w {
      assert IsReady(t.tasks[k]);
    }
    if CanBeWoken(s, q, k) {
      var n: nat :| k < |WakeUps(s, q, n).tasks| && IsReady(WakeUps(s, q, n).tasks[k]);
      if n <= |w| {
        WakeUpsDrain(s, q, n);
        assert k in w[..n] ==> k in w;
      } else {
        WakeUpsAdd(s, q, |w|, n - |w|);
        WakeUpsEmpty(t, q, n - |w|);
      }
    }
  }

  /**
   sleep_on blocks the caller first and drops it silently when the queue is full. So wake_ups on the queue can make
   the caller READY again exactly when fewer than eight stood in it, or the caller itself already did.
   */
  lemma SleeperWokenIff(s: Sys, q: nat)
    requires Inv(s) && Enabled(s, SleepOn(q))
    ensures var t := Step(s, SleepOn(q));
            && t.running < |t.tasks| && InRange(t) && q < |t.waits| && s.running < |t.tasks| && !IsReady(t.tasks[s.running])
            && (CanBeWoken(t, q, s.running) <==> |s.waits[q]| < 8 || s.running in s.waits[q])
  {
    var t := Step(s, SleepOn(q));
    StepKeeps(s, SleepOn(q));
    InvBasics(t);
    SleepOnLeaves(s, q);
    hide Inv, Step, InRange, CanBeWoken, Queue.Push;
    WokenIffQueued(t, q, s.running);
    PushHas(s.waits[q], 8, s.running);
  }

  lemma SleepOnLeaves(s: Sys, q: nat)
    requires Inv(s) && Enabled(s, SleepOn(q))
    ensures var t := Step(s, SleepOn(q));
            && |t.tasks| == |s.tasks| && t.tasks[s.running].status == Blocked
            && t.waits == s.waits[q := Queue.Push(s.waits[q], 8, s.running)]
  {
    hide MsgInv, PidInv, Pick, Queue.Push;
  }

  lemma PushHas(w: seq<nat>, cap: nat, x: nat)
    ensures x in Queue.Push(w, cap, x) <==> |w| < cap || x in w
  {
    if |w| < cap {
      assert (w + [x])[|w|] == x;
    }
  }

  // ------------------------------------------------------------ places in a queue

  /** How many of the calls are wake_ups on `q`. */
  function CountWakes(es: seq<Event>, q: nat): nat {
    if es == [] then 0 else (if es[0] == WakeUp(q) then 1 else 0) + CountWakes(es[1..], q)
  }

  /** Whatever else happens, a task in a wait queue moves up one place at each wake_up on it and at nothing else. */
  lemma {:induction false} PlaceInQueue(s: Sys, es: seq<Event>, s': Sys, q: nat, i: nat)
    requires Inv(s) && Runs(s, es, s') && q < |s.waits| && i < |s.waits[q]| && CountWakes(es, q) <= i
    ensures q < |s'.waits| && var j := i - CountWakes(es, q); j < |s'.waits[q]| && s'.waits[q][j] == s.waits[q][i]
    decreases |es|
  {
    hide Inv, Step;
    if es != [] {
      var t := Step(s, es[0]);
      StepKeeps(s, es[0]);
      PlaceStep(s, es[0], q, i);
      PlaceInQueue(t, es[1..], s', q, if es[0] == WakeUp(q) then i - 1 else i);
    }
  }

  lemma PlaceStep(s: Sys, e: Event, q: nat, i: nat)
    requires s.running < |s.tasks| && InRange(s) && Enabled(s, e) && q < |s.waits| && i < |s.waits[q]|
    requires e == WakeUp(q) ==> i > 0
    ensures q < |Step(s, e).waits|
    ensures var j := if e == WakeUp(q) then i - 1 else i; j < |Step(s, e).waits[q]| && Step(s, e).waits[q][j] == s.waits[q][i]
  {
    hide Pick, InRange;
  }

  /** In every run the wake_up after `i` others makes the task that stood at place `i` READY: first in, first out. */
  lemma NthWakeUpWakes(s: Sys, es: seq<Event>, s': Sys, q: nat, i: nat)
    requires Inv(s) && Runs(s, es, s') && q < |s.waits| && i < |s.waits[q]| && CountWakes(es, q) == i
    ensures s'.running < |s'.tasks| && InRange(s') && q < |s'.waits|
    ensures var k := s.waits[q][i]; k < |Step(s', WakeUp(q)).tasks| && IsReady(Step(s', WakeUp(q)).tasks[k])
  {
    hide Inv, Step, Runs, CountWakes, InRange;
    RunKeeps(s, es, s');
    InvBasics(s');
    PlaceInQueue(s, es, s', q, i);
    QueuedInRange(s', q, 0);
    WakeStep(s', q);
  }

  lemma QueuedInRange(s: Sys, q: nat, i: nat)
    requires InRange(s) && q < |s.waits| && i < |s.waits[q]|
    ensures s.waits[q][i] < |s.tasks|
  {
  }

  // -------------------------------------------------------- a sleeper that is lost

  /** Idle and `n` tasks of priority 1, of which the first `j` sleep on queue 0, in order. */
  ghost function Sleepers(n: nat, j: nat, running: nat): (s: Sys)
    requires n < 100
    ensures |s.tasks| == n + 1 && |s.waits| == 1 && |s.waits[0]| == j
    ensures forall i :: 0 <= i <= n ==> s.tasks[i] == Sleeper(i, j)
    ensures forall i :: 0 <= i < j ==> s.waits[0][i] == i + 1
  {
    Sys(seq(n + 1, i requires 0 <= i <= n => Sleeper(i, j)), running, 1001 + n, [seq(j, i requires 0 <= i < j => i + 1)], [])
  }

  ghost function Sleeper(i: nat, j: nat): Task
    requires i < 100
  {
    Task(1001 + i, if 1 <= i <= j then Blocked else Ready, if i == 0 then -1 else 1, 0, [], [], [])
  }

  lemma BestUnique(tasks: seq<Task>, a: nat, b: nat)
    requires Best(tasks, a) && Best(tasks, b)
    ensures a == b
  {
  }

  lemma SpawnOne(n: nat)
    requires n < 9
    ensures var s := Sleepers(n, 0, 0);
            InRange(s) && Enabled(s, Spawn(1, None, 0)) && Step(s, Spawn(1, None, 0)) == Sleepers(n + 1, 0, 0)
  {
    var t := Step(Sleepers(n, 0, 0), Spawn(1, None, 0));
    assert t.tasks == Sleepers(n + 1, 0, 0).tasks;
    assert t.waits == Sleepers(n + 1, 0, 0).waits;
  }

  /** schedule moves on to the first task that does not sleep. */
  lemma PickNext(n: nat, j: nat, running: nat)
    requires j < n < 100
    ensures Pick(Sleepers(n, j, running).tasks) == Some(j + 1)
  {
    var ts := Sleepers(n, j, running).tasks;
    assert IsReady(ts[0]) && Best(ts, j + 1);
    PickIff(ts);
    BestUnique(ts, j + 1, Pick(ts).value);
  }

  lemma FirstTick(n: nat)
    requires 0 < n < 100
    ensures var s := Sleepers(n, 0, 0); InRange(s) && Step(s, Tick) == Sleepers(n, 0, 1)
  {
    hide Pick;
    var s := Sleepers(n, 0, 0);
    assert TickAll(s.tasks) == s.tasks;
    PickNext(n, 0, 0);
  }

  lemma SleepOne(n: nat, j: nat)
    requires j < 8 && j + 1 < n < 100
    ensures var s := Sleepers(n, j, j + 1);
            InRange(s) && Enabled(s, SleepOn(0)) && Step(s, SleepOn(0)) == Sleepers(n, j + 1, j + 2)
  {
    hide Pick;
    var s, u := Sleepers(n, j, j + 1), Sleepers(n, j + 1, j + 2);
    var me := s.tasks[j + 1];
    assert s.tasks[j + 1 := me.(status := Blocked, timeout := 0)] == u.tasks;
    assert Queue.Push(s.waits[0], 8, j + 1) == u.waits[0];
    assert s.waits[0 := u.waits[0]] == u.waits;
    PickNext(n, j + 1, j + 2);
  }

  lemma {:induction false} RunsSnoc(s: Sys, es: seq<Event>, t: Sys, e: Event)
    requires Runs(s, es, t) && t.running < |t.tasks| && InRange(t) && Enabled(t, e)
    ensures Runs(s, es + [e], Step(t, e))
    decreases |es|
  {
    hide Step, InRange, Enabled;
    if es != [] {
      RunsSnoc(Step(s, es[0]), es[1..], t, e);
      assert (es + [e])[1..] == es[1..] + [e];
    }
  }

  lemma {:induction false} SpawnRun(n: nat) returns (es: seq<Event>)
    requires n <= 9
    ensures Runs(Boot(1, 0), es, Sleepers(n, 0, 0))
    decreases n
  {
    if n == 0 {
      es := [];
      assert Boot(1, 0).tasks == Sleepers(0, 0, 0).tasks && Boot(1, 0).waits == Sleepers(0, 0, 0).waits;
    } else {
      es := SpawnRun(n - 1);
      SpawnOne(n - 1);
      RunsSnoc(Boot(1, 0), es, Sleepers(n - 1, 0, 0), Spawn(1, None, 0));
      es := es + [Spawn(1, None, 0)];
    }
  }

  lemma {:induction false} SleepRun(j: nat) returns (es: seq<Event>)
    requires j <= 8
    ensures Runs(Boot(1, 0), es, Sleepers(9, j, j + 1))
    decreases j
  {
    if j == 0 {
      es := SpawnRun(9);
      FirstTick(9);
      RunsSnoc(Boot(1, 0), es, Sleepers(9, 0, 0), Tick);
      es := es + [Tick];
    } else {
      es := SleepRun(j - 1);
      SleepOne(9, j - 1);
      RunsSnoc(Boot(1, 0), es, Sleepers(9, j - 1, j), SleepOn(0));
      es := es + [SleepOn(0)];
    }
  }

  /** Nine tasks that sleep on one queue in turn: a run from boot after which no number of wake_ups makes the ninth READY. */
  lemma NinthSleeperLost() returns (es: seq<Event>, s: Sys)
    ensures Runs(Boot(1, 0), es, s) && Inv(s) && Enabled(s, SleepOn(0))
    ensures var t := Step(s, SleepOn(0));
            t.running < |t.tasks| && InRange(t) && |t.waits| == 1 && !CanBeWoken(t, 0, s.running)
  {
    s := Sleepers(9, 8, 9);
    es := SleepRun(8);
    BootInv(1, 0);
    RunKeeps(Boot(1, 0), es, s);
    assert 9 !in s.waits[0];
    SleeperWokenIff(s, 0);
    SleepOnLeaves(s, 0);
  }
}
