/** The scheduling policy of `kernel/kernel/scheduler.c`, as steps on values. */
module RoundRobin {
  import opened Common

  /** A saved processor context. */
  datatype Context = Context(eip: nat, esp: nat, eflags: nat, registers: seq<nat>)

  /** Who is current: nobody before the first tick, the idle process, or a listed process. */
  datatype Current = Nobody | Idle | Listed(index: nat)

  /** The process list, the current process, whether it has killed itself, and every process' saved context. */
  datatype State<P> = State(list: seq<P>, current: Current, dead: bool, idle: P, saved: map<P, Context>)

  datatype Event<P> = Tick(context: Context) | Add(process: P, initial: Context) | Kill | Sleep

  function CurrentProcess<P>(s: State<P>): Option<P> {
    match s.current
    case Nobody => None
    case Idle => Some(s.idle)
    case Listed(i) => if i < |s.list| then Some(s.list[i]) else None
  }

  /** The list holds no process twice and not the idle one; the current position is in it. */
  predicate Ok<P(==)>(s: State<P>) {
    && (forall i, j :: 0 <= i < j < |s.list| ==> s.list[i] != s.list[j])
    && s.idle !in s.list && s.idle in s.saved
    && (forall i :: 0 <= i < |s.list| ==> s.list[i] in s.saved)
    && (s.current.Listed? ==> s.current.index < |s.list|)
    && (s.dead ==> s.current.Listed? && s.current.index == |s.list| - 1)
  }

  /** The list and the position after a tick. A dead process takes everything behind it off the list. */
  function Remaining<P>(s: State<P>): seq<P> {
    if s.dead && s.current.Listed? && s.current.index <= |s.list| then s.list[..s.current.index] else s.list
  }

  function Next<P>(s: State<P>): Current {
    if s.current.Listed? && !s.dead && s.current.index + 1 < |s.list| then Listed(s.current.index + 1)
    else if Remaining(s) != [] then Listed(0)
    else Idle
  }

  predicate Enabled<P(==)>(s: State<P>, e: Event<P>) {
    match e
    case Tick(_) => true
    case Add(p, _) => !s.dead && p !in s.list && p != s.idle
    case Kill => !s.dead && s.current.Listed?
    case Sleep => !s.dead && !s.current.Nobody?
  }

  function Step<P(==)>(s: State<P>, e: Event<P>): State<P>
    requires Ok(s) && Enabled(s, e)
  {
    match e
    case Tick(context) =>
      var saved := if s.current.Nobody? then s.saved else s.saved[CurrentProcess(s).value := context];
      State(Remaining(s), Next(s), false, s.idle, saved)
    case Add(p, initial) => s.(list := s.list + [p], saved := s.saved[p := initial])
    case Kill => s.(list := s.list[..s.current.index + 1], dead := true)
    case Sleep => s
  }

  /** What a tick returns: the context saved for the process it picks. */
  function Dispatched<P(==)>(s: State<P>, context: Context): (c: Context)
    requires Ok(s)
  {
    StepOk(s, Tick(context));
    var s' := Step(s, Tick(context));
    s'.saved[CurrentProcess(s').value]
  }

  lemma StepOk<P>(s: State<P>, e: Event<P>)
    requires Ok(s) && Enabled(s, e)
    ensures Ok(Step(s, e))
    ensures e.Tick? ==> CurrentProcess(Step(s, e)).Some? && CurrentProcess(Step(s, e)).value in Step(s, e).saved
  {
    if e.Add? {
      var l := s.list + [e.process];
      forall i, j | 0 <= i < j < |l| ensures l[i] != l[j] { assert l[i] == s.list[i]; }
    }
  }

  // ------------------------------------------------------------------------------------------
  // Runs
  // ------------------------------------------------------------------------------------------

  predicate IsRun<P(==)>(s: State<P>, es: seq<Event<P>>)
    requires Ok(s)
    decreases |es|
  {
    es == [] || (Enabled(s, es[0]) && (StepOk(s, es[0]); IsRun(Step(s, es[0]), es[1..])))
  }

  function After<P(==)>(s: State<P>, es: seq<Event<P>>): (s': State<P>)
    requires Ok(s) && IsRun(s, es)
    ensures Ok(s')
    decreases |es|
  {
    if es == [] then s else (StepOk(s, es[0]); After(Step(s, es[0]), es[1..]))
  }

  /** The context that `p` last had to give up in a run, or got when it was added. */
  function LastContext<P(==)>(s: State<P>, es: seq<Event<P>>, p: P): Option<Context>
    requires Ok(s) && IsRun(s, es)
    decreases |es|
  {
    if es == [] then None
    else
      StepOk(s, es[0]);
      var later := LastContext(Step(s, es[0]), es[1..], p);
      if later.Some? then later
      else match es[0]
           case Tick(c) => if CurrentProcess(s) == Some(p) then Some(c) else None
           case Add(q, c) => if q == p then Some(c) else None
           case Kill => None
           case Sleep => None
  }

  /** After any run, what is saved for a process is the context of its last preemption, or its initial one. */
  lemma {:induction false} SavedIsLast<P>(s: State<P>, es: seq<Event<P>>, p: P)
    requires Ok(s) && IsRun(s, es)
    ensures var last := LastContext(s, es, p);
            && (p in s.saved || last.Some? ==> p in After(s, es).saved)
            && (last.Some? ==> After(s, es).saved[p] == last.value)
            && (last.None? && p in s.saved ==> After(s, es).saved[p] == s.saved[p])
    decreases |es|
  {
    if es != [] {
      StepOk(s, es[0]);
      SavedIsLast(Step(s, es[0]), es[1..], p);
    }
  }

  /** One more event. */
  lemma {:induction false} RunOn<P>(s: State<P>, es: seq<Event<P>>, e: Event<P>)
    requires Ok(s) && IsRun(s, es) && Enabled(After(s, es), e)
    ensures IsRun(s, es + [e]) && After(s, es + [e]) == Step(After(s, es), e)
    decreases |es|
  {
    var all := es + [e];
    if es == [] {
      assert all == [e] && all[1..] == [];
      StepOk(s, e);
    } else {
      StepOk(s, es[0]);
      RunOn(Step(s, es[0]), es[1..], e);
      assert all[0] == es[0] && all[1..] == es[1..] + [e];
    }
  }

  /** So after any run, a tick returns to the process it picks the context that this one last had to give up, be it in
      that very tick, or the one it was added with; if it did neither in the run, the one it had before. */
  lemma DispatchesLast<P>(s: State<P>, es: seq<Event<P>>, context: Context)
    requires Ok(s) && IsRun(s, es)
    ensures var run := es + [Tick(context)];
            && IsRun(s, run) && CurrentProcess(After(s, run)).Some?
            && var p := CurrentProcess(After(s, run)).value;
            Some(Dispatched(After(s, es), context))
            == match LastContext(s, run, p)
               case Some(c) => Some(c)
               case None => if p in s.saved then Some(s.saved[p]) else None
  {
    var run := es + [Tick(context)];
    RunOn(s, es, Tick(context));
    StepOk(After(s, es), Tick(context));
    SavedFrom(s, run, CurrentProcess(After(s, run)).value);
    SavedIsLast(s, run, CurrentProcess(After(s, run)).value);
  }

  /** A context is saved only for processes that had one before, were added, or gave one up. */
  lemma {:induction false} SavedFrom<P>(s: State<P>, es: seq<Event<P>>, p: P)
    requires Ok(s) && IsRun(s, es) && p in After(s, es).saved
    ensures p in s.saved || LastContext(s, es, p).Some?
    decreases |es|
  {
    if es != [] {
      StepOk(s, es[0]);
      SavedFrom(Step(s, es[0]), es[1..], p);
    }
  }

  /** A kill and the next tick leave exactly the processes in front of the dead one. When it was the last
      one, this is its plain removal. */
  lemma KillLeavesPrefix<P>(s: State<P>, context: Context)
    requires Ok(s) && Enabled(s, Kill)
    ensures Ok(Step(s, Kill))
    ensures Step(Step(s, Kill), Tick(context)).list == s.list[..s.current.index]
    ensures s.current.index == |s.list| - 1 <==>
            Step(Step(s, Kill), Tick(context)).list == s.list[..s.current.index] + s.list[s.current.index + 1..]
  {
    StepOk(s, Kill);
    var j := s.current.index;
    assert s.list[..j + 1][..j] == s.list[..j];
    if j < |s.list| - 1 {
      assert |s.list[j + 1..]| > 0;
    }
  }

  // ------------------------------------------------------------------------------------------
  // Bounded waiting
  // ------------------------------------------------------------------------------------------

  function Ticks<P>(es: seq<Event<P>>): nat {
    if es == [] then 0 else (if es[0].Tick? then 1 else 0) + Ticks(es[1..])
  }

  function Adds<P>(es: seq<Event<P>>): nat {
    if es == [] then 0 else (if es[0].Add? then 1 else 0) + Adds(es[1..])
  }

  predicate KillFree<P(==)>(es: seq<Event<P>>) { Kill !in es }

  /** Between `es` and the current process at position `j`, position `k` has its turn after this many ticks,
      not counting processes added meanwhile. */
  function Turn(n: nat, j: nat, k: nat): nat
    requires j < n && k < n
  {
    if k > j then k - j else n - j + k
  }

  /** While no process is killed, positions behind the current one run in order: after t ticks, with any
      additions in between, it is the turn of position j + t. */
  lemma {:induction false} ForwardExact<P>(s: State<P>, es: seq<Event<P>>)
    requires Ok(s) && IsRun(s, es) && KillFree(es) && s.current.Listed? && !s.dead
    requires s.current.index + Ticks(es) < |s.list|
    ensures After(s, es).current == Listed(s.current.index + Ticks(es)) && s.list <= After(s, es).list
    decreases |es|
  {
    if es != [] {
      StepOk(s, es[0]);
      assert es[0] in es && forall e :: e in es[1..] ==> e in es;
      ForwardExact(Step(s, es[0]), es[1..]);
    }
  }

  /** How many ticks it takes until position `k` has its turn: from a listed process on, its distance around the list;
      from a dead one, from the idle process and at the very start, the list is run from its beginning. */
  function Distance<P>(s: State<P>, k: nat): nat
    requires s.current.Listed? && !s.dead ==> s.current.index < |s.list| && k < |s.list|
  {
    if s.current.Listed? && !s.dead then Turn(|s.list|, s.current.index, k) else k + 1
  }

  /** Whether the list is started over before that, so that processes added meanwhile come first. */
  predicate Wraps<P>(s: State<P>, k: nat) { s.current.Listed? && !s.dead && k <= s.current.index }

  /** In any kill-free run with enough ticks, every process that is still on the list gets its turn: within its
      distance, plus, if the list has to be started over, one tick for each process added meanwhile. */
  lemma {:induction false} BoundedWaiting<P>(s: State<P>, es: seq<Event<P>>, k: nat) returns (i: nat)
    requires Ok(s) && IsRun(s, es) && KillFree(es) && k < |Remaining(s)|
    requires Ticks(es) >= Distance(s, k) + (if Wraps(s, k) then Adds(es) else 0)
    ensures 0 < i <= |es| && IsRun(s, es[..i])
    ensures After(s, es[..i]).current == Listed(k) && Remaining(s) <= After(s, es[..i]).list
    ensures 0 < Ticks(es[..i])
    ensures Ticks(es[..i]) <= Distance(s, k) + (if Wraps(s, k) then Adds(es[..i]) else 0)
    decreases |es|
  {
    StepOk(s, es[0]);
    var s' := Step(s, es[0]);
    assert es[0] in es && forall e :: e in es[1..] ==> e in es;
    if es[0].Tick? && s'.current == Listed(k) {
      i := 1;
      PrefixRun(s, es, 0);
    } else {
      i := BoundedWaiting(s', es[1..], k);
      PrefixRun(s, es, i);
      i := i + 1;
    }
  }

  /** A tick after a kill, from the idle process or from nobody makes the first process on the list the current one;
      only if there is none does the idle process run. */
  lemma StartsOver<P>(s: State<P>, context: Context)
    requires Ok(s) && (!s.current.Listed? || s.dead)
    ensures var s' := Step(s, Tick(context));
            && s'.list == (if s.dead then s.list[..s.current.index] else s.list)
            && s'.current == (if s'.list == [] then Idle else Listed(0)) && !s'.dead
            && CurrentProcess(s') == Some(if s'.list == [] then s.idle else s'.list[0])
  {
  }

  /** An added process is at the end of the list, with its initial context, and gets its turn like any other. */
  lemma AddedWaits<P>(s: State<P>, p: P, initial: Context, es: seq<Event<P>>) returns (i: nat)
    requires Ok(s) && Enabled(s, Add(p, initial)) && Ok(Step(s, Add(p, initial)))
    requires IsRun(Step(s, Add(p, initial)), es) && KillFree(es)
    requires Ticks(es) > if s.current.Listed? then |s.list| - 1 - s.current.index else |s.list|
    ensures 0 < i <= |es| && IsRun(Step(s, Add(p, initial)), es[..i])
    ensures var s' := After(Step(s, Add(p, initial)), es[..i]);
            && s'.current == Listed(|s.list|) && s.list + [p] <= s'.list && CurrentProcess(s') == Some(p)
    ensures 0 < Ticks(es[..i]) <= if s.current.Listed? then |s.list| - s.current.index else |s.list| + 1
  {
    i := BoundedWaiting(Step(s, Add(p, initial)), es, |s.list|);
  }

  /** A run's prefix, from its first event on. */
  lemma PrefixRun<P>(s: State<P>, es: seq<Event<P>>, i: nat)
    requires Ok(s) && IsRun(s, es) && i < |es| && es != []
    requires Ok(Step(s, es[0])) && IsRun(Step(s, es[0]), es[1..][..i])
    ensures IsRun(s, es[..i + 1]) && After(s, es[..i + 1]) == After(Step(s, es[0]), es[1..][..i])
    ensures Ticks(es[..i + 1]) == (if es[0].Tick? then 1 else 0) + Ticks(es[1..][..i])
    ensures Adds(es[..i + 1]) == (if es[0].Add? then 1 else 0) + Adds(es[1..][..i])
  {
    assert es[..i + 1][0] == es[0] && es[..i + 1][1..] == es[1..][..i];
  }

  /** The position after `t` turns of a list of `n`. */
  function Around(n: nat, j: nat, t: nat): nat
    requires j < n
    decreases t
  {
    if t == 0 then j else Around(n, if j + 1 < n then j + 1 else 0, t - 1)
  }

  /** Without additions, each tick moves the turn one position around the list. */
  lemma {:induction false} Rotation<P>(s: State<P>, es: seq<Event<P>>)
    requires Ok(s) && IsRun(s, es) && KillFree(es) && Adds(es) == 0 && s.current.Listed? && !s.dead
    ensures After(s, es).current == Listed(Around(|s.list|, s.current.index, Ticks(es))) && After(s, es).list == s.list
    decreases |es|
  {
    if es != [] {
      StepOk(s, es[0]);
      assert es[0] in es && forall e :: e in es[1..] ==> e in es;
      Rotation(Step(s, es[0]), es[1..]);
    }
  }

  lemma {:induction false} AroundClosed(n: nat, j: nat, t: nat)
    requires j < n && t <= n
    ensures Around(n, j, t) == if j + t < n then j + t else j + t - n
    decreases t
  {
    if t > 0 { AroundClosed(n, if j + 1 < n then j + 1 else 0, t - 1); }
  }

  lemma AroundOnce(n: nat, j: nat, k: nat, t: nat)
    requires j < n && k < n && 1 <= t <= n
    ensures Around(n, j, t) == k <==> t == Turn(n, j, k)
  {
    AroundClosed(n, j, t);
  }

  /** A prefix of a run without kills and additions is such a run. */
  lemma {:induction false} QuietPrefix<P>(s: State<P>, es: seq<Event<P>>, i: nat)
    requires Ok(s) && IsRun(s, es) && KillFree(es) && Adds(es) == 0 && i <= |es|
    ensures IsRun(s, es[..i]) && KillFree(es[..i]) && Adds(es[..i]) == 0 && Ticks(es[..i]) <= Ticks(es)
    decreases |es|
  {
    if i > 0 {
      StepOk(s, es[0]);
      assert es[0] in es && forall e :: e in es[1..] ==> e in es;
      QuietPrefix(Step(s, es[0]), es[1..], i - 1);
      assert es[..i] == [es[0]] + es[1..][..i - 1] && es[..i][1..] == es[1..][..i - 1];
    }
  }

  /** So among n consecutive ticks without additions, exactly one makes the process at position `k` the current one,
      and it is the tick of its turn. */
  lemma OncePerRound<P>(s: State<P>, es: seq<Event<P>>, k: nat, i: nat)
    requires Ok(s) && IsRun(s, es) && KillFree(es) && Adds(es) == 0 && s.current.Listed? && !s.dead && k < |s.list|
    requires Ticks(es) == |s.list| && i <= |es| && Ticks(es[..i]) > 0
    ensures IsRun(s, es[..i]) && After(s, es[..i]).list == s.list && After(s, es[..i]).current.Listed?
    ensures After(s, es[..i]).current == Listed(k) <==> Ticks(es[..i]) == Turn(|s.list|, s.current.index, k)
    ensures 1 <= Turn(|s.list|, s.current.index, k) <= |s.list|
  {
    QuietPrefix(s, es, i);
    Rotation(s, es[..i]);
    AroundOnce(|s.list|, s.current.index, k, Ticks(es[..i]));
  }
}
