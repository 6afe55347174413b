/**
 The kernel calls on the globals of kernel/task.c, as the C code performs them: traversals of the task list,
 updates of task fields, and calls of lib/queue.c on the circular message and wait queues. Each call is proved
 to be the step of module Tasks with its name, on the contents of those queues.
 */
module Kernel {
  import opened Machine
  import opened Tasks
  import Queue

  /** Circular queues of one size: the message queues of all tasks, or the wait queues. */
  class Bank {
    const size: u16
    var qs: seq<Queue.Queue<nat>>
    ghost var all: seq<seq<nat>>
    ghost var repr: set<object>

    /** The queues are apart from each other, and `all` is what they hold. */
    ghost predicate Valid()
      reads this, repr
    {
      && this !in repr
      && (forall i :: 0 <= i < |qs| ==> qs[i] in repr && qs[i].data in repr)
      && (forall i :: 0 <= i < |qs| ==> qs[i].size == size && qs[i].Valid())
      && (forall i, j :: 0 <= i < j < |qs| ==> qs[i] != qs[j] && qs[i].data != qs[j].data)
      && |all| == |qs| && (forall i :: 0 <= i < |qs| ==> all[i] == qs[i].Contents())
    }

    constructor (size: u16)
      ensures Valid() && repr == {} && this.size == size && all == []
    {
      this.size := size;
      qs, all, repr := [], [], {};
    }

    /** queue_init of one more queue. */
    method Init()
      requires Valid()
      modifies this
      ensures Valid() && fresh(repr - old(repr)) && all == old(all) + [[]]
    {
      var q := new Queue.Queue<nat>(size);
      qs, all, repr := qs + [q], all + [[]], repr + {q, q.data};
    }

    method Add(i: nat, x: nat)
      requires Valid() && i < |all|
      modifies this`all, repr
      ensures Valid() && repr == old(repr) && all == old(all)[i := Queue.Push(old(all)[i], size, x)]
    {
      hide Queue.Push;
      qs[i].QueueAdd(x);
      all := all[i := Queue.Push(all[i], size, x)];
    }

    method Remove(i: nat) returns (r: Option<nat>)
      requires Valid() && i < |all|
      modifies this`all, repr
      ensures Valid() && repr == old(repr)
      ensures old(all)[i] == [] ==> r == None && all == old(all)
      ensures old(all)[i] != [] ==> r == Some(old(all)[i][0]) && all == old(all)[i := old(all)[i][1..]]
    {
      r := qs[i].QueueRemove();
      if all[i] != [] {
        all := all[i := all[i][1..]];
      }
    }
  }

  /** task_t without its message queue, which is the one in the bank with the task's place in the list. */
  datatype Tcb = Tcb(pid: u32, status: Status, priority: int, timeout: u32)

  /** `t` is the task with control block `c` and the messages `m` pending. */
  ghost predicate IsTask(t: Task, c: Tcb, m: seq<nat>) {
    t.pid == c.pid && t.status == c.status && t.priority == c.priority && t.timeout == c.timeout && t.queue == m
  }

  /** `ts` are the tasks with these control blocks and message queues. */
  ghost predicate AreTasks(ts: seq<Task>, cs: seq<Tcb>, mail: seq<seq<nat>>) {
    |ts| == |cs| == |mail| && forall i :: 0 <= i < |cs| ==> IsTask(ts[i], cs[i], mail[i])
  }

  /** Call `e` can happen in `s`, and leads to `t`. */
  ghost predicate Does(s: Sys, e: Event, t: Sys) {
    s.running < |s.tasks| && InRange(s) && Enabled(s, e) && t == Step(s, e)
  }

  class Kernel {
    const mail: Bank
    const waits: Bank
    var tasks: seq<Tcb>
    var running: nat
    var pidN: u32
    var sent: seq<Message>
    /** The state of module Tasks that the fields and queues stand for. */
    ghost var view: Sys

    /** The banks are apart. */
    ghost predicate Stored()
      reads this, mail, mail.repr, waits, waits.repr
    {
      && mail.Valid() && waits.Valid() && mail.size == 32 && waits.size == 8
      && mail != waits && mail !in waits.repr && waits !in mail.repr && mail.repr !! waits.repr
      && this !in mail.repr && this !in waits.repr
    }

    ghost predicate Valid()
      reads this, mail, mail.repr, waits, waits.repr
    {
      && Stored() && AreTasks(view.tasks, tasks, mail.all) && waits.all == view.waits
      && running == view.running && pidN == view.pidN && sent == view.sent
    }

    /** tasking(): the idle task, of priority -1, with PID 1001; and `nq` wait queues of eight. */
    constructor (nq: nat, junk: u32)
      ensures Valid() && view == Boot(nq, junk) && Inv(view)
      ensures fresh(mail) && fresh(mail.repr) && fresh(waits) && fresh(waits.repr)
    {
      hide Inv, Bank.Valid;
      var m := new Bank(32);
      m.Init();
      var w := new Bank(8);
      for i := 0 to nq
        invariant w.Valid() && fresh(w) && fresh(w.repr) && w.size == 8 && |w.all| == i
        invariant forall j :: 0 <= j < i ==> w.all[j] == []
        invariant m.Valid() && fresh(m) && fresh(m.repr) && m.size == 32 && m.all == [[]]
        invariant m != w && m.repr !! w.repr && m !in w.repr && w !in m.repr
      {
        w.Init();
      }
      mail, waits := m, w;
      pidN, running, sent := 1001, 0, [];
      tasks := [Tcb(1001, Ready, -1, junk)];
      view := Boot(nq, junk);
      new;
      BootInv(nq, junk);
      assert waits.all == view.waits;
    }

    /** The traversal with _find_higher_priority. */
    method FindHigherPriority() returns (p: int)
      requires AreTasks(view.tasks, tasks, mail.all)
      ensures p == MaxReady(view.tasks, |tasks|)
    {
      p := -127;
      var i := 0;
      while i < |tasks|
        invariant i <= |tasks| && p == MaxReady(view.tasks, i)
      {
        assert IsTask(view.tasks[i], tasks[i], mail.all[i]);
        if tasks[i].status == Ready && tasks[i].priority > p {
          p := tasks[i].priority;
        }
        i := i + 1;
      }
    }

    /** The traversal with _higher_task. */
    method HigherTask(p: int) returns (i: nat)
      requires AreTasks(view.tasks, tasks, mail.all)
      ensures i == FirstAt(view.tasks, p)
    {
      i := 0;
      while i < |tasks| && !(tasks[i].status == Ready && tasks[i].priority == p)
        invariant i <= |tasks| && forall j :: 0 <= j < i ==> !(IsReady(view.tasks[j]) && view.tasks[j].priority == p)
      {
        assert IsTask(view.tasks[i], tasks[i], mail.all[i]);
        i := i + 1;
      }
      assert i < |tasks| ==> IsTask(view.tasks[i], tasks[i], mail.all[i]);
    }

    /** schedule: find the greatest priority, then the first READY task of that priority, and switch to it. */
    method Schedule()
      requires Valid() && |view.tasks| > 0 && IsReady(view.tasks[0]) && view.tasks[0].priority == -1
      modifies this`running, this`view
      ensures Valid() && view == Resched(old(view)) && Best(view.tasks, running)
    {
      hide MaxReady, FirstAt, Best, Bank.Valid, AreTasks;
      ReschedKeeps(view);
      SameLength(view.tasks, tasks, mail.all);
      var p := FindHigherPriority();
      var i := HigherTask(p);
      running := i;
      view := Resched(view);
    }

    /** task_from_pid; |tasks| for NULL. */
    method TaskFromPid(pid: u32) returns (k: nat)
      requires AreTasks(view.tasks, tasks, mail.all)
      ensures k == WithPid(view.tasks, pid)
    {
      k := 0;
      while k < |tasks| && tasks[k].pid != pid
        invariant k <= |tasks| && forall j :: 0 <= j < k ==> view.tasks[j].pid != pid
      {
        assert IsTask(view.tasks[k], tasks[k], mail.all[k]);
        k := k + 1;
      }
      assert k < |tasks| ==> IsTask(view.tasks[k], tasks[k], mail.all[k]);
    }

    /** thread_create and task_add, with queue_init of 32 slots; a driver may force the PID in between. */
    method Spawn(priority: int, forced: Option<u32>, junk: u32)
      requires Valid() && Inv(view) && Enabled(view, Event.Spawn(priority, forced, junk))
      modifies this`tasks, this`pidN, this`view, mail
      ensures Valid() && Inv(view) && fresh(mail.repr - old(mail.repr))
      ensures Does(old(view), Event.Spawn(priority, forced, junk), view)
    {
      hide Inv, Bank.Valid, AreTasks, Does, WithPid;
      SpawnStep(view, priority, forced, junk);
      pidN := pidN + 1;
      var pid := pidN;
      if forced.Some? {
        pid := forced.value;
      }
      var c := Tcb(pid, Ready, priority, junk);
      ghost var t := Task(pid, Ready, priority, junk, [], [], []);
      TaskAdded(view.tasks, tasks, mail.all, t, c);
      mail.Init();
      tasks := tasks + [c];
      view := view.(pidN := pidN, tasks := view.tasks + [t]);
    }

    /** message_to by the running task. */
    method MessageTo(to: u32, data: nat)
      requires Valid() && Inv(view)
      modifies this`tasks, this`sent, this`view, mail`all, mail.repr
      ensures Valid() && Inv(view) && Does(old(view), Send(to, data), view)
    {
      hide Inv, Bank.Valid, AreTasks, Does, WithPid, Deliver;
      SameLength(view.tasks, tasks, mail.all);
      var k := TaskFromPid(to);
      SendStep(view, to, data, k);
      if k == |tasks| {
        return;
      }
      BlockOf(view.tasks, tasks, mail.all, running);
      BlockOf(view.tasks, tasks, mail.all, k);
      var id := |sent|;
      ghost var t := Deliver(view.tasks[k], id);
      Delivered(view.tasks[k], tasks[k], mail.all[k], id);
      TaskChanged(view.tasks, tasks, mail.all, k, t, tasks[k].(status := Ready), Queue.Push(mail.all[k], 32, id));
      sent := sent + [Message(tasks[running].pid, to, data)];
      mail.Add(k, id);
      tasks := tasks[k := tasks[k].(status := Ready)];
      view := view.(tasks := view.tasks[k := t], sent := sent);
    }

    /** message by the running task: the oldest pending message, by its place in the log; None for NULL. */
    method ReceiveMessage() returns (r: Option<nat>)
      requires Valid() && Inv(view)
      modifies this`view, mail`all, mail.repr
      ensures Valid() && Inv(view) && Does(old(view), Receive, view)
      ensures Oldest(old(view), r)
    {
      hide Inv, Bank.Valid, AreTasks, Does;
      ReceiveStep(view);
      SameLength(view.tasks, tasks, mail.all);
      BlockOf(view.tasks, tasks, mail.all, running);
      if mail.all[running] != [] {
        ghost var m := view.tasks[running];
        ghost var t := m.(queue := m.queue[1..], got := m.got + [m.queue[0]]);
        TaskChanged(view.tasks, tasks, mail.all, running, t, tasks[running], m.queue[1..]);
        Unchanged(tasks, running);
        view := view.(tasks := view.tasks[running := t]);
      }
      r := mail.Remove(running);
    }

    /** The running task's status and timeout, set. */
    method SetRunning(status: Status, timeout: u32)
      requires Valid() && running < |tasks|
      modifies this`tasks, this`view
      ensures running < |old(view).tasks| && Valid()
      ensures view == old(view).(tasks := old(view).tasks[running := old(view).tasks[running].(status := status, timeout := timeout)])
    {
      hide Bank.Valid, AreTasks;
      SameLength(view.tasks, tasks, mail.all);
      BlockOf(view.tasks, tasks, mail.all, running);
      ghost var t := view.tasks[running].(status := status, timeout := timeout);
      TaskChanged(view.tasks, tasks, mail.all, running, t, tasks[running].(status := status, timeout := timeout), mail.all[running]);
      Unchanged(mail.all, running);
      tasks := tasks[running := tasks[running].(status := status, timeout := timeout)];
      view := view.(tasks := view.tasks[running := t]);
    }

    /** sleep_on without a timeout: the task is BLOCKED, and queued if there is room. */
    method SleepOnQueue(q: nat)
      requires Valid() && Inv(view) && Enabled(view, SleepOn(q))
      modifies this`tasks, this`running, this`view, waits`all, waits.repr
      ensures Valid() && Inv(view) && Does(old(view), SleepOn(q), view) && Best(view.tasks, running)
    {
      hide Inv, Does, Resched, Best, Bank.Valid, AreTasks, Queue.Push;
      IdleReady(view);
      SleepOnStep(view, q);
      SameLength(view.tasks, tasks, mail.all);
      SetRunning(Blocked, 0);
      waits.Add(q, running);
      view := view.(waits := waits.all);
      Schedule();
    }

    /** wake_up. */
    method WakeUpQueue(q: nat)
      requires Valid() && Inv(view) && q < |view.waits|
      modifies this`tasks, this`view, waits`all, waits.repr
      ensures Valid() && Inv(view) && Does(old(view), WakeUp(q), view)
    {
      hide Inv, Does, Bank.Valid, AreTasks;
      WakeUpStep(view, q);
      SameLength(view.tasks, tasks, mail.all);
      var k := waits.Remove(q);
      if k.None? {
        return;
      }
      BlockOf(view.tasks, tasks, mail.all, k.value);
      ghost var t := Wake(view.tasks[k.value]);
      TaskChanged(view.tasks, tasks, mail.all, k.value, t, tasks[k.value].(status := Ready), mail.all[k.value]);
      Unchanged(mail.all, k.value);
      tasks := tasks[k.value := tasks[k.value].(status := Ready)];
      view := view.(tasks := view.tasks[k.value := t], waits := waits.all);
    }

    /** sleep for `ms` milliseconds. */
    method SleepFor(ms: u32)
      requires Valid() && Inv(view) && running != 0
      modifies this`tasks, this`running, this`view
      ensures Valid() && Inv(view) && Does(old(view), Sleep(ms), view) && Best(view.tasks, running)
    {
      hide Inv, Does, Resched, Best, Bank.Valid, AreTasks;
      IdleReady(view);
      SleepStep(view, ms);
      SameLength(view.tasks, tasks, mail.all);
      SetRunning(Blocked, ms);
      Schedule();
    }

    /** task_block. */
    method TaskBlock()
      requires Valid() && Inv(view) && running != 0
      modifies this`tasks, this`running, this`view
      ensures Valid() && Inv(view) && Does(old(view), Block, view) && Best(view.tasks, running)
    {
      hide Inv, Does, Resched, Best, Bank.Valid, AreTasks;
      IdleReady(view);
      BlockStep(view);
      SameLength(view.tasks, tasks, mail.all);
      BlockOf(view.tasks, tasks, mail.all, running);
      SetRunning(Blocked, tasks[running].timeout);
      Schedule();
    }

    /** update_timeout on every task of the list. */
    method UpdateTimeouts()
      requires Valid()
      modifies this`tasks, this`view
      ensures Valid() && view == old(view).(tasks := TickAll(old(view).tasks))
    {
      hide Bank.Valid;
      ghost var was := tasks;
      var i := 0;
      while i < |tasks|
        invariant i <= |tasks| == |was| && view == old(view) && Stored()
        invariant forall j :: 0 <= j < i ==> tasks[j] == TickTcb(was[j])
        invariant forall j :: i <= j < |tasks| ==> tasks[j] == was[j]
      {
        var t := tasks[i];
        if t.timeout > 0 {
          t := t.(timeout := Sub32(t.timeout, 10));
          if t.timeout <= 0 {
            t := t.(status := Ready, timeout := 0);
          }
        }
        tasks := tasks[i := t];
        i := i + 1;
      }
      TickedTasks(view.tasks, was, tasks, mail.all);
      view := view.(tasks := TickAll(view.tasks));
    }

    /** timer_handler: one tick, then schedule. */
    method TimerHandler()
      requires Valid() && Inv(view)
      modifies this`tasks, this`running, this`view
      ensures Valid() && Inv(view) && Does(old(view), Tick, view) && Best(view.tasks, running)
    {
      hide Inv, Does, Resched, Best, TickAll, Bank.Valid, AreTasks;
      IdleReady(view);
      TickStep(view);
      UpdateTimeouts();
      Schedule();
    }
  }

  function TickTcb(t: Tcb): Tcb {
    if t.timeout == 0 then t
    else if Sub32(t.timeout, 10) == 0 then t.(timeout := 0, status := Ready)
    else t.(timeout := Sub32(t.timeout, 10))
  }

  lemma SameLength(ts: seq<Task>, cs: seq<Tcb>, mail: seq<seq<nat>>)
    requires AreTasks(ts, cs, mail)
    ensures |ts| == |cs| == |mail|
  {
  }

  lemma BlockOf(ts: seq<Task>, cs: seq<Tcb>, mail: seq<seq<nat>>, k: nat)
    requires AreTasks(ts, cs, mail) && k < |cs|
    ensures IsTask(ts[k], cs[k], mail[k])
  {
  }

  lemma Unchanged<T>(s: seq<T>, k: nat)
    requires k < |s|
    ensures s[k := s[k]] == s
  {
  }

  /** Changing one control block and one queue changes one task. */
  lemma TaskChanged(ts: seq<Task>, cs: seq<Tcb>, mail: seq<seq<nat>>, k: nat, t: Task, c: Tcb, m: seq<nat>)
    requires AreTasks(ts, cs, mail) && k < |cs| && IsTask(t, c, m)
    ensures AreTasks(ts[k := t], cs[k := c], mail[k := m])
  {
  }

  lemma TaskAdded(ts: seq<Task>, cs: seq<Tcb>, mail: seq<seq<nat>>, t: Task, c: Tcb)
    requires AreTasks(ts, cs, mail) && IsTask(t, c, [])
    ensures AreTasks(ts + [t], cs + [c], mail + [[]])
  {
  }

  /** Ticking every control block is ticking every task. */
  lemma TickedTasks(ts: seq<Task>, was: seq<Tcb>, cs: seq<Tcb>, mail: seq<seq<nat>>)
    requires AreTasks(ts, was, mail) && |cs| == |was| && forall i :: 0 <= i < |cs| ==> cs[i] == TickTcb(was[i])
    ensures AreTasks(TickAll(ts), cs, mail)
  {
    forall i | 0 <= i < |cs| ensures IsTask(TickAll(ts)[i], cs[i], mail[i]) {
      assert IsTask(ts[i], was[i], mail[i]);
    }
  }

  /** queue_add of a message and TS_READY are what Deliver does. */
  lemma Delivered(t: Task, c: Tcb, m: seq<nat>, id: nat)
    requires IsTask(t, c, m)
    ensures IsTask(Deliver(t, id), c.(status := Ready), Queue.Push(m, 32, id))
  {
  }

  /** The message returned is the oldest one pending for the running task. */
  ghost predicate Oldest(s: Sys, r: Option<nat>) {
    && s.running < |s.tasks|
    && var queue := s.tasks[s.running].queue; r == if queue == [] then None else Some(queue[0])
  }

  // ------------------------------------------------ the steps, written out

  lemma SpawnStep(s: Sys, priority: int, forced: Option<u32>, junk: u32)
    requires Inv(s) && Enabled(s, Event.Spawn(priority, forced, junk))
    ensures var pid := if forced.Some? then forced.value else s.pidN + 1;
            var t := s.(pidN := s.pidN + 1, tasks := s.tasks + [Task(pid, Ready, priority, junk, [], [], [])]);
            Does(s, Event.Spawn(priority, forced, junk), t) && Inv(t)
  {
    StepKeeps(s, Event.Spawn(priority, forced, junk));
    hide Inv, WithPid, Enabled;
    InvBasics(s);
  }

  lemma SendStep(s: Sys, to: u32, data: nat, k: nat)
    requires Inv(s) && k == WithPid(s.tasks, to)
    ensures s.running < |s.tasks|
    ensures var t := if k == |s.tasks| then s
                     else s.(tasks := s.tasks[k := Deliver(s.tasks[k], |s.sent|)],
                             sent := s.sent + [Message(s.tasks[s.running].pid, to, data)]);
            Does(s, Send(to, data), t) && Inv(t)
  {
    StepKeeps(s, Send(to, data));
    hide Inv, Deliver, WithPid;
    InvBasics(s);
  }

  lemma ReceiveStep(s: Sys)
    requires Inv(s)
    ensures s.running < |s.tasks|
    ensures var me := s.tasks[s.running];
            var t := if me.queue == [] then s
                     else s.(tasks := s.tasks[s.running := me.(queue := me.queue[1..], got := me.got + [me.queue[0]])]);
            Does(s, Receive, t) && Inv(t)
  {
    StepKeeps(s, Receive);
    hide Inv;
    InvBasics(s);
  }

  lemma WakeUpStep(s: Sys, q: nat)
    requires Inv(s) && q < |s.waits|
    ensures s.waits[q] != [] ==> s.waits[q][0] < |s.tasks|
    ensures var t := if s.waits[q] == [] then s
                     else s.(tasks := s.tasks[s.waits[q][0] := Wake(s.tasks[s.waits[q][0]])], waits := s.waits[q := s.waits[q][1..]]);
            Does(s, WakeUp(q), t) && Inv(t)
  {
    StepKeeps(s, WakeUp(q));
    hide Inv, Wake;
    InvBasics(s);
  }

  lemma SleepOnStep(s: Sys, q: nat)
    requires Inv(s) && Enabled(s, SleepOn(q))
    ensures s.running < |s.tasks|
    ensures var t := Resched(s.(tasks := s.tasks[s.running := s.tasks[s.running].(status := Blocked, timeout := 0)],
                                waits := s.waits[q := Queue.Push(s.waits[q], 8, s.running)]));
            Does(s, SleepOn(q), t) && Inv(t)
  {
    StepKeeps(s, SleepOn(q));
    hide Inv, Resched, Queue.Push;
    InvBasics(s);
  }

  lemma SleepStep(s: Sys, ms: u32)
    requires Inv(s) && s.running != 0
    ensures s.running < |s.tasks|
    ensures var t := Resched(s.(tasks := s.tasks[s.running := s.tasks[s.running].(status := Blocked, timeout := ms)]));
            Does(s, Sleep(ms), t) && Inv(t)
  {
    StepKeeps(s, Sleep(ms));
    hide Inv, Resched;
    InvBasics(s);
  }

  lemma BlockStep(s: Sys)
    requires Inv(s) && s.running != 0
    ensures s.running < |s.tasks|
    ensures var me := s.tasks[s.running];
            var t := Resched(s.(tasks := s.tasks[s.running := me.(status := Blocked, timeout := me.timeout)]));
            Does(s, Block, t) && Inv(t)
  {
    StepKeeps(s, Block);
    hide Inv, Resched;
    InvBasics(s);
  }

  lemma TickStep(s: Sys)
    requires Inv(s)
    ensures var t := Resched(s.(tasks := TickAll(s.tasks))); Does(s, Tick, t) && Inv(t)
  {
    hide Inv, Resched, InRange, TickTask, Pick;
    StepKeeps(s, Tick);
    InvBasics(s);
  }

  lemma IdleReady(s: Sys)
    requires Inv(s)
    ensures s.running < |s.tasks| && InRange(s) && IsReady(s.tasks[0]) && s.tasks[0].priority == -1
    ensures IsReady(TickAll(s.tasks)[0]) && TickAll(s.tasks)[0].priority == -1
  {
  }
}
