/** The scheduler of `kernel/kernel/scheduler.c`, working in place on linked process objects. */
module Scheduler {
  import opened RoundRobin

  datatype Status = READY | RUNNING | IDLE | DEAD

  class Process {
    const pid: nat
    const vmm: nat
    var status: Status
    var context: Context
    var next: Process?

    constructor (pid: nat, vmm: nat, context: Context)
      ensures this.pid == pid && this.vmm == vmm && this.context == context && status == READY && next == null
    {
      this.pid := pid;
      this.vmm := vmm;
      this.context := context;
      status := READY;
      next := null;
    }
  }

  /** What the link of the process at position `i` has to be. */
  function Successor(list: seq<Process>, i: nat): Process? {
    if i + 1 < |list| then list[i + 1] else null
  }

  lemma SuccessorWithout(l: seq<Process>, j: nat, i: nat)
    requires j < |l| && i < |l| - 1
    ensures var r := l[..j] + l[j + 1..];
            && r[i] == (if i < j then l[i] else l[i + 1])
            && Successor(r, i) == if i + 1 < j then l[i + 1] else if i + 2 < |l| then l[i + 2] else null
  {
  }

  class Scheduler {
    var head: Process?
    var current: Process?
    const idle: Process
    var currentVmm: nat

    /** The processes on the linked list, and where the current one is. */
    ghost var list: seq<Process>
    ghost var at: Current

    /** Every process that was ever known. */
    ghost var known: set<Process>

    constructor (idle: Process)
      requires idle.status == READY && idle.next == null
      ensures Valid() && this.idle == idle && list == [] && at == Nobody && head == null && current == null
    {
      this.idle := idle;
      head, current, currentVmm := null, null, 0;
      list, at, known := [], Nobody, {idle};
    }

    ghost predicate Linked()
      reads this, known
    {
      && head == (if list == [] then null else list[0])
      && (forall i :: 0 <= i < |list| ==> list[i] in known)
      && (forall i :: 0 <= i < |list| ==> list[i].next == Successor(list, i))
      && (forall i, j :: 0 <= i < j < |list| ==> list[i] != list[j])
      && idle !in list && idle in known && idle.next == null
    }

    /** Everything a tick relies on: all listed processes but the current one are ready. */
    ghost predicate Valid()
      reads this, known
    {
      && Linked()
      && (match at
          case Nobody => current == null && idle.status == READY
          case Idle => current == idle && (idle.status == RUNNING || idle.status == IDLE)
          case Listed(i) => i < |list| && current == list[i] && list[i].status != READY && idle.status == READY)
      && (forall i :: 0 <= i < |list| && list[i] != current ==> list[i].status == READY)
      && (at.Listed? && list[at.index].status == DEAD ==> at.index == |list| - 1)
    }

    /** The abstract state. */
    ghost function View(): State<Process>
      reads this, known
      requires Valid()
    {
      State(list, at, at.Listed? && list[at.index].status == DEAD, idle,
            map p: Process | p in known :: p.context)
    }

    /** What an edit of the list leaves alone. */
    twostate predicate SameProcesses()
      reads this, known
    {
      && at == old(at) && current == old(current) && currentVmm == old(currentVmm) && old(known) <= known
      && forall p :: p in old(known) ==> p.context == old(p.context)
    }

    /** The writes of `add_process`: the last link is redirected. */
    method Append(process: Process)
      requires Valid() && process !in known && process.status == READY && process.next == null && !View().dead
      modifies this`head, this`list, this`known, list
      ensures Valid() && SameProcesses() && !View().dead
      ensures list == old(list) + [process] && known == old(known) + {process}
    {
      if head == null {
        head := process;
      } else {
        var node: Process := head;
        ghost var i := 0;
        while node.next != null
          invariant 0 <= i < |list| && node == list[i]
          decreases |list| - i
        {
          assert node.next == Successor(list, i);
          node := node.next;
          i := i + 1;
        }
        assert i == |list| - 1;
        node.next := process;
      }
      list := list + [process];
      known := known + {process};
    }

    /** `add_process`. */
    method AddProcess(process: Process)
      requires Valid() && process !in known && process.status == READY && process.next == null && !View().dead
      modifies this`head, this`list, this`known, list
      ensures Valid() && Ok(old(View())) && Enabled(old(View()), Add(process, process.context))
      ensures View() == Step(old(View()), Add(process, process.context))
      ensures list == old(list) + [process] && at == old(at) && current == old(current)
    {
      ghost var s := View();
      Append(process);
      assert View().saved == s.saved[process := process.context];
    }

    /** The writes of `kill_current_process`. */
    method Cut()
      requires Valid() && at.Listed? && !View().dead
      modifies this`list, current
      ensures Valid() && SameProcesses() && known == old(known) && View().dead
      ensures list == old(list)[..at.index + 1]
    {
      current.status := DEAD;
      current.next := null;
      list := list[..at.index + 1];
    }

    /** `kill_current_process`, up to its endless wait: what is behind the process falls off the list. */
    method KillCurrentProcess()
      requires Valid() && at.Listed? && !View().dead
      modifies this`list, current
      ensures Valid() && Ok(old(View())) && Enabled(old(View()), Kill)
      ensures View() == Step(old(View()), Kill)
      ensures list == old(list)[..at.index + 1] && current == old(current) && current.status == DEAD
    {
      ghost var s := View();
      Cut();
      assert View().saved == s.saved;
    }

    /** `set_current_process_idle`. */
    method SetCurrentProcessIdle()
      requires Valid() && at != Nobody && !View().dead
      modifies current`status
      ensures Valid() && View() == old(View()) && current.status == IDLE
    {
      current.status := IDLE;
    }

    /** `delete_process`, where the process is on the list. Freeing its memory is not modelled. */
    method DeleteProcess(process: Process, ghost j: nat)
      requires Linked() && j < |list| && list[j] == process
      modifies this`head, this`list, list
      ensures Linked() && list == old(list)[..j] + old(list)[j + 1..]
      ensures forall p :: p in known ==> p.status == old(p.status) && p.context == old(p.context)
      ensures process.next == old(process.next)
    {
      if head == process {
        head := process.next;
        assert j == 0;
      } else {
        var prev := FindBefore(process, j);
        prev.next := process.next;
      }
      ghost var l := list;
      list := l[..j] + l[j + 1..];
      forall i | 0 <= i < |list| ensures list[i].next == Successor(list, i) && list[i] in known {
        SuccessorWithout(l, j, i);
      }
    }

    /** Its loop: the process in front of this one. */
    method FindBefore(process: Process, ghost j: nat) returns (prev: Process)
      requires Linked() && 0 < j < |list| && list[j] == process
      ensures prev == list[j - 1]
    {
      prev := head;
      ghost var i := 0;
      while prev.next != null
        invariant 0 <= i < j && prev == list[i]
        decreases |list| - i
      {
        if prev.next == process {
          break;
        }
        assert prev.next == Successor(list, i) == list[i + 1];
        prev := prev.next;
        i := i + 1;
      }
    }

    /** What the loop of `schedule` does: the current process becomes ready, or leaves the list if it is
        dead, and the one behind it is next. */
    twostate predicate Moved()
      requires old(Valid())
      reads this, known
    {
      && Linked() && list == Remaining(old(View())) && known == old(known) && currentVmm == old(currentVmm)
      && idle.status == READY && (forall i :: 0 <= i < |list| ==> list[i].status == READY)
      && current == (match old(Next(View()))
                     case Listed(i) => if i > 0 && i < |list| then list[i] else null
                     case _ => null)
      && forall p :: p in old(known) ==> p.context == old(p.context)
    }

    /** A dead process leaves the list, and nothing is behind it. */
    method LeaveDead()
      requires Valid() && current != null && current.status == DEAD
      modifies this`head, this`list, this`current, list, idle
      ensures Moved()
    {
      ghost var s := View();
      DeleteProcess(current, at.index);
      assert list == Remaining(s);
      current := current.next;
    }

    method LeaveReady()
      requires Valid() && current != null && current.status != DEAD
      modifies this`current, list, idle
      ensures Moved()
    {
      current.status := READY;
      current := current.next;
    }

    /** One round of the loop, for a current process that is not ready. */
    method Leave()
      requires Valid() && current != null
      modifies this`head, this`list, this`current, list, idle
      ensures Moved()
    {
      if current.status == DEAD {
        LeaveDead();
      } else {
        LeaveReady();
      }
    }

    /** The loop of `schedule`. */
    method Advance()
      requires Valid()
      modifies this`head, this`list, this`current, list, idle
      ensures Moved()
    {
      ghost var round := 0;
      while current != null
        invariant 0 <= round <= 1
        invariant round == 0 ==> unchanged(this) && unchanged(known)
        invariant round == 1 ==> Moved()
        decreases 1 - round
      {
        if current.status == READY {
          break;
        }
        Leave();
        round := round + 1;
      }
    }

    lemma ViewOk()
      requires Valid()
      ensures Ok(View())
    {
    }

    /** The interrupted process' context is copied into its own. */
    method Save(context: Context)
      requires Valid()
      modifies list, idle
      ensures Valid() && unchanged(this) && Ok(old(View()))
      ensures View() == old(View()).(saved := Step(old(View()), Tick(context)).saved)
    {
      ghost var s := View();
      ViewOk();
      if current != null {
        current.context := context;
      }
      assert View().saved == Step(s, Tick(context)).saved;
    }

    /** The next process becomes the running one. */
    method Pick()
      requires Valid()
      modifies this, list, idle
      ensures Valid() && !View().dead && list == Remaining(old(View())) && at == Next(old(View())) &&
              known == old(known)
      ensures forall p :: p in known ==> p.context == old(p.context)
      ensures current != null && current.status == RUNNING && currentVmm == current.vmm
    {
      ghost var s := View();
      Advance();
      if current == null {
        if head != null {
          current := head;
        } else {
          current := idle;
        }
      }
      Dispatch(Next(s));
    }

    /** The current process starts to run. */
    method Dispatch(ghost next: Current)
      requires Linked() && idle.status == READY && (forall i :: 0 <= i < |list| ==> list[i].status == READY)
      requires current == match next
                          case Nobody => null
                          case Idle => idle
                          case Listed(i) => if i < |list| then list[i] else null
      requires current != null
      modifies this`at, this`currentVmm, current`status
      ensures Valid() && !View().dead && at == next
      ensures current.status == RUNNING && currentVmm == current.vmm
      ensures forall p :: p in known ==> p.context == old(p.context)
    {
      at := next;
      current.status := RUNNING;
      currentVmm := current.vmm;
    }

    /** The state after a tick, and the context that it returns. */
    lemma Resumed(s: State<Process>, context: Context)
      requires Valid() && current != null && Ok(s) && View() == Step(s, Tick(context))
      ensures Dispatched(s, context) == current.context
    {
      assert CurrentProcess(View()).Some? && CurrentProcess(View()).value == current;
    }

    /** `schedule`: it saves the interrupted context and returns that of the process whose turn it is. */
    method Schedule(context: Context) returns (r: Context)
      requires Valid()
      modifies this, list, idle
      ensures Valid() && Ok(old(View()))
      ensures View() == Step(old(View()), Tick(context))
      ensures r == Dispatched(old(View()), context)
      ensures r == current.context && (old(current) != null ==> old(current).context == context)
      ensures current != null && current.status == RUNNING && currentVmm == current.vmm
    {
      ghost var s := View();
      Save(context);
      ghost var s1 := View();
      Pick();
      assert View().saved == s1.saved;
      Resumed(s, context);
      r := current.context;
    }
  }
}
