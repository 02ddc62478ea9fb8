/** Plugin processes: starting, stopping, and the health check that reaps and restarts them. */
module Supervision {
  import opened Bytes
  import opened Wrappers

  datatype Signal = SigTerm | SigKill

  /** What was asked of the system, in order, and what it answered: whether a file is executable, the id of a new
      process or -1, a signal, whether a process had ended, and waiting until it has. */
  datatype Call =
    | Accessed(ok: bool)
    | Forked(pid: int)
    | Signalled(pid: int, signal: Signal)
    | Asked(pid: int, ended: bool)
    | Awaited(pid: int)

  /** What the system knows of our processes. It decides which starts fail, which process ids it gives out
      and when a process has ended; until a process is waited for, its id stays taken. */
  class Kernel {
    /** Processes started and not yet waited for. */
    var children: set<int>
    ghost var calls: seq<Call>

    constructor ()
      ensures children == {} && calls == []
    {
      children, calls := {}, [];
    }

    /** Is the file executable? */
    method Access() returns (ok: bool)
      modifies this`calls
      ensures calls == old(calls) + [Accessed(ok)]
    {
      ok := *;
      calls := calls + [Accessed(ok)];
    }

    method Fork() returns (pid: int)
      modifies this`children, this`calls
      ensures calls == old(calls) + [Forked(pid)]
      ensures if pid == -1 then children == old(children)
              else pid > 0 && pid !in old(children) && children == old(children) + {pid}
    {
      pid := *;
      if pid <= 0 || pid in children {
        pid := -1;
      } else {
        children := children + {pid};
      }
      calls := calls + [Forked(pid)];
    }

    /** A signal reaches any process that was not waited for, an ended one included. */
    method Kill(pid: int, signal: Signal) returns (r: int)
      modifies this`calls
      ensures r == (if pid in children then 0 else -1) && calls == old(calls) + [Signalled(pid, signal)]
    {
      calls := calls + [Signalled(pid, signal)];
      r := if pid in children then 0 else -1;
    }

    /** `waitpid` for one process, without blocking. */
    method WaitNoHang(pid: int) returns (r: int)
      requires pid > 0
      modifies this`children, this`calls
      ensures r > 0 ==> pid in old(children) && children == old(children) - {pid}
      ensures r <= 0 ==> children == old(children)
      ensures r < 0 <==> pid !in old(children)
      ensures calls == old(calls) + [Asked(pid, r > 0)]
    {
      var ended: bool := *;
      ended := ended && pid in children;
      calls := calls + [Asked(pid, ended)];
      if pid !in children {
        return -1;
      }
      if !ended {
        return 0;
      }
      children := children - {pid};
      r := pid;
    }

    /** `waitpid` for one process, until it has ended. */
    method Wait(pid: int)
      requires pid > 0
      modifies this`children, this`calls
      ensures children == old(children) - {pid} && calls == old(calls) + [Awaited(pid)]
    {
      children, calls := children - {pid}, calls + [Awaited(pid)];
    }
  }

  datatype State = Stopped | Starting | Running | Stopping | Restarting | Failed

  datatype Handle = Handle(id: bytes, state: State, pid: int)

  predicate HasProcess(h: Handle) {
    h.state.Running? || h.state.Stopping? || h.state.Restarting?
  }

  predicate Holds(hs: seq<Handle>, i: int, pid: int) {
    0 <= i < |hs| && HasProcess(hs[i]) && hs[i].pid == pid
  }

  /** What is so in every state whatever commands are given: the process ids in handles are those of unreaped children,
      each in one handle; only a handle that failed to start may still have one without a process of its own. */
  ghost predicate Tracked(hs: seq<Handle>, children: set<int>) {
    && (forall pid :: pid in children ==> pid > 0)
    && (forall i :: 0 <= i < |hs| ==> IsTracked(hs[i], children))
    && (forall i, j :: 0 <= i < j < |hs| && hs[i].pid > 0 && hs[j].pid > 0 ==> hs[i].pid != hs[j].pid)
  }

  ghost predicate IsTracked(h: Handle, children: set<int>) {
    && h.pid >= 0 && (h.pid > 0 ==> h.pid in children)
    && (HasProcess(h) ==> h.pid > 0) && (h.state.Stopped? ==> h.pid == 0) && !h.state.Starting?
  }

  ghost predicate Held(hs: seq<Handle>, pid: int) {
    exists i :: Holds(hs, i, pid)
  }

  /** The children that no RUNNING, STOPPING or RESTARTING handle has. */
  ghost function Unheld(hs: seq<Handle>, children: set<int>): set<int> {
    set pid | pid in children && !Held(hs, pid)
  }

  ghost predicate Named(hs: seq<Handle>, pid: int) {
    exists i :: 0 <= i < |hs| && hs[i].pid == pid
  }

  /** The children of which no handle has the id. */
  ghost function Unnamed(hs: seq<Handle>, children: set<int>): set<int> {
    set pid | pid in children && !Named(hs, pid)
  }

  /** The unreaped children are exactly the processes of RUNNING, STOPPING and RESTARTING handles, each of one
      handle; no other handle keeps a process id. */
  ghost predicate Supervised(hs: seq<Handle>, children: set<int>) {
    && (forall i :: 0 <= i < |hs| ==>
          if HasProcess(hs[i]) then hs[i].pid > 0 && hs[i].pid in children
          else hs[i].pid == 0 && !hs[i].state.Starting?)
    && (forall i, j :: 0 <= i < j < |hs| && HasProcess(hs[i]) && HasProcess(hs[j]) ==> hs[i].pid != hs[j].pid)
    && (forall pid :: pid in children ==> Held(hs, pid))
  }

  /** No two tracked handles have one process. */
  lemma TrackedOnce(hs: seq<Handle>, children: set<int>, i: nat, j: nat)
    requires Tracked(hs, children) && i < |hs| && j < |hs| && hs[i].pid == hs[j].pid > 0
    ensures i == j
  {
  }

  /** A tracked state is a supervised one when every child is held. */
  lemma SupervisedIsHeld(hs: seq<Handle>, children: set<int>)
    ensures Supervised(hs, children) <==> Tracked(hs, children) && Unheld(hs, children) == {}
  {
    if Supervised(hs, children) {
      assert forall pid :: pid !in Unheld(hs, children);
    }
    if Tracked(hs, children) && Unheld(hs, children) == {} {
      assert forall pid :: pid in children ==> pid !in Unheld(hs, children);
      forall i | 0 <= i < |hs|
        ensures HasProcess(hs[i]) || hs[i].pid == 0
      {
        if hs[i].pid > 0 {
          assert Held(hs, hs[i].pid);
          var j :| Holds(hs, j, hs[i].pid);
          TrackedOnce(hs, children, i, j);
        }
      }
    }
  }

  /** A start is safe when the handle has no process that is on its way out. */
  predicate MayStart(h: Handle) {
    !h.state.Stopping? && !h.state.Restarting?
  }

  /** The process a start of this handle would lose sight of. */
  function LostBy(h: Handle): set<int> {
    if MayStart(h) then {} else {h.pid}
  }

  // ----- one handle changes -----

  lemma HeldAfter(hs: seq<Handle>, children: set<int>, i: nat, h: Handle, pid: int)
    requires Tracked(hs, children) && i < |hs|
    ensures Held(hs[i := h], pid) <==>
            (HasProcess(h) && h.pid == pid) || (Held(hs, pid) && !Holds(hs, i, pid))
  {
    var now := hs[i := h];
    if HasProcess(h) && h.pid == pid {
      assert Holds(now, i, pid);
    }
    if Held(hs, pid) && !Holds(hs, i, pid) {
      var k :| Holds(hs, k, pid);
      assert Holds(now, k, pid);
    }
    if k :| Holds(now, k, pid) && k != i {
      assert Holds(hs, k, pid);
    }
  }

  lemma NamedAfter(hs: seq<Handle>, children: set<int>, i: nat, h: Handle, pid: int)
    requires Tracked(hs, children) && i < |hs| && pid > 0
    ensures Named(hs[i := h], pid) <==> h.pid == pid || (Named(hs, pid) && hs[i].pid != pid)
  {
    var now := hs[i := h];
    if h.pid == pid {
      assert now[i].pid == pid;
    }
    if Named(hs, pid) && hs[i].pid != pid {
      var k :| 0 <= k < |hs| && hs[k].pid == pid;
      assert now[k].pid == pid;
    }
    if k :| 0 <= k < |now| && now[k].pid == pid && k != i {
      assert hs[k].pid == pid;
    }
  }

  /** A start that works. */
  lemma AfterStart(hs: seq<Handle>, children: set<int>, i: nat, pid: int)
    requires Tracked(hs, children) && i < |hs| && !hs[i].state.Running? && pid > 0 && pid !in children
    ensures var now := hs[i := hs[i].(state := Running, pid := pid)];
            && Tracked(now, children + {pid})
            && Unheld(now, children + {pid}) == Unheld(hs, children) + LostBy(hs[i])
  {
    hide Held;
    var h := hs[i].(state := Running, pid := pid);
    forall p
      ensures p in Unheld(hs[i := h], children + {pid}) <==> p in Unheld(hs, children) + LostBy(hs[i])
    {
      HeldAfter(hs, children, i, h, p);
      HoldingIsHeld(hs, i, p);
    }
  }

  lemma HoldingIsHeld(hs: seq<Handle>, i: nat, pid: int)
    ensures Holds(hs, i, pid) ==> Held(hs, pid)
  {
  }

  lemma AfterFailure(hs: seq<Handle>, children: set<int>, i: nat)
    requires Tracked(hs, children) && i < |hs| && !hs[i].state.Running?
    ensures var now := hs[i := hs[i].(state := Failed)];
            && Tracked(now, children)
            && Unheld(now, children) == Unheld(hs, children) + LostBy(hs[i])
  {
    hide Held;
    var h := hs[i].(state := Failed);
    forall p
      ensures p in Unheld(hs[i := h], children) <==> p in Unheld(hs, children) + LostBy(hs[i])
    {
      HeldAfter(hs, children, i, h, p);
      HoldingIsHeld(hs, i, p);
    }
  }

  lemma AfterReaping(hs: seq<Handle>, children: set<int>, i: nat)
    requires Tracked(hs, children) && i < |hs| && hs[i].pid > 0
    ensures var now, left := hs[i := hs[i].(state := Stopped, pid := 0)], children - {hs[i].pid};
            && Tracked(now, left) && Unnamed(now, left) == Unnamed(hs, children)
            && (HasProcess(hs[i]) ==> Unheld(now, left) == Unheld(hs, children))
  {
    hide Held, Named;
    var h := hs[i].(state := Stopped, pid := 0);
    forall p
      ensures HasProcess(hs[i]) ==>
                (p in Unheld(hs[i := h], children - {hs[i].pid}) <==> p in Unheld(hs, children))
    {
      HeldAfter(hs, children, i, h, p);
      HoldingIsHeld(hs, i, p);
    }
    ReapedUnnamed(hs, children, i);
    StillTracked(hs, children, i);
  }

  lemma ReapedUnnamed(hs: seq<Handle>, children: set<int>, i: nat)
    requires Tracked(hs, children) && i < |hs| && hs[i].pid > 0 && forall p :: p in children ==> p > 0
    ensures Unnamed(hs[i := hs[i].(state := Stopped, pid := 0)], children - {hs[i].pid}) == Unnamed(hs, children)
  {
    var h := hs[i].(state := Stopped, pid := 0);
    forall p | p in children
      ensures p in Unnamed(hs[i := h], children - {hs[i].pid}) <==> p in Unnamed(hs, children)
    {
      NamedAfter(hs, children, i, h, p);
    }
  }

  lemma StillTracked(hs: seq<Handle>, children: set<int>, i: nat)
    requires Tracked(hs, children) && i < |hs| && hs[i].pid > 0
    ensures Tracked(hs[i := hs[i].(state := Stopped, pid := 0)], children - {hs[i].pid})
  {
    forall k: nat | k < |hs| && hs[k].pid == hs[i].pid
      ensures k == i
    {
      TrackedOnce(hs, children, i, k);
    }
  }

  lemma AfterMarking(hs: seq<Handle>, children: set<int>, i: nat, state: State)
    requires Tracked(hs, children) && i < |hs| && HasProcess(hs[i])
    requires state.Running? || state.Stopping? || state.Restarting?
    ensures var now := hs[i := hs[i].(state := state)];
            && Tracked(now, children)
            && Unheld(now, children) == Unheld(hs, children) && Unnamed(now, children) == Unnamed(hs, children)
  {
    hide Held, Named;
    var h := hs[i].(state := state);
    forall p
      ensures p in Unheld(hs[i := h], children) <==> p in Unheld(hs, children)
    {
      HeldAfter(hs, children, i, h, p);
      HoldingIsHeld(hs, i, p);
    }
    forall p | p in children
      ensures p in Unnamed(hs[i := h], children) <==> p in Unnamed(hs, children)
    {
      NamedAfter(hs, children, i, h, p);
      NamedAt(hs, i);
    }
  }

  lemma NamedAt(hs: seq<Handle>, i: nat)
    requires i < |hs|
    ensures Named(hs, hs[i].pid)
  {
  }

  /** A handle that drops the id of a process nobody waited for loses it. */
  lemma Lost(hs: seq<Handle>, children: set<int>, i: nat, h: Handle, more: set<int>)
    requires Supervised(hs, children) && i < |hs| && HasProcess(hs[i])
    requires !HasProcess(h) || h.pid != hs[i].pid
    ensures !Supervised(hs[i := h], children + more)
  {
    SupervisedIsHeld(hs, children);
    HeldAfter(hs, children, i, h, hs[i].pid);
  }

  // ----- what the operations do -----

  /** The processes that came of what was asked. */
  ghost function Gained(said: seq<Call>): set<int> {
    set c | c in said && c.Forked? && c.pid != -1 :: c.pid
  }

  /** How many there were. */
  ghost function Forks(said: seq<Call>): nat {
    if said == [] then 0
    else Forks(said[..|said| - 1]) + if said[|said| - 1].Forked? && said[|said| - 1].pid != -1 then 1 else 0
  }

  lemma {:induction false} ForksAppend(a: seq<Call>, b: seq<Call>)
    ensures Forks(a + b) == Forks(a) + Forks(b)
  {
    if b == [] {
      assert a + b == a;
    } else {
      var n := |b| - 1;
      ForksAppend(a, b[..n]);
      assert (a + b)[..|a| + n] == a + b[..n];
    }
  }

  /** Starting a plugin: what is asked, and what then becomes of its handle. */
  ghost predicate Starts(h: Handle, after: Handle, said: seq<Call>) {
    if h.state.Running? then after == h && said == []
    else
      || (said == [Accessed(false)] && after == h.(state := Failed))
      || (said == [Accessed(true), Forked(-1)] && after == h.(state := Failed))
      || (said == [Accessed(true), Forked(after.pid)] && after.pid > 0 &&
          after == h.(state := Running, pid := after.pid))
  }

  /** A start of what does not run asks once whether the file is executable, and for a process once exactly if it is;
      the plugin runs exactly if it got one, and then with its id. */
  lemma StartsMeans(h: Handle, after: Handle, said: seq<Call>)
    requires Starts(h, after, said)
    ensures h.state.Running? ==> said == [] && after == h
    ensures !h.state.Running? ==>
              && |said| > 0 && said[0].Accessed? && |said| == (if said[0].ok then 2 else 1)
              && (said[0].ok ==> said[1].Forked?)
              && (if said[0].ok && said[1].pid != -1 then after.state.Running? && after.pid == said[1].pid
                  else after.state.Failed? && after.pid == h.pid)
    ensures after.id == h.id
    ensures Forks(said) == if after.state.Running? && !h.state.Running? then 1 else 0
    ensures Gained(said) == if after.state.Running? && !h.state.Running? then {after.pid} else {}
  {
    if said != [] {
      assert said[..1] == [said[0]] && [said[0]][..0] == [];
      assert Forks([said[0]]) == 0;
    }
  }

  /** What starting a plugin may do to its handle and to the children. */
  ghost predicate Started(h: Handle, after: Handle, children: set<int>, left: set<int>, said: seq<Call>) {
    Starts(h, after, said) && Gained(said) !! children && left == children + Gained(said)
  }

  function StoppedHandle(h: Handle): Handle {
    if h.state.Running? then h.(state := Stopping) else h
  }

  /** What runs is told to end. */
  function Term(h: Handle): seq<Call> {
    if h.state.Running? then [Signalled(h.pid, SigTerm)] else []
  }

  ghost predicate Restarted(h: Handle, after: Handle, children: set<int>, left: set<int>, said: seq<Call>) {
    if h.state.Running? then after == h.(state := Restarting) && left == children && said == Term(h)
    else Started(h, after, children, left, said)
  }

  /** What a health check does to a handle: nothing, unless it has a process; that is asked after, and if it has ended,
      what was stopping is stopped, and what was running or restarting is started again. */
  ghost predicate HealthStep(before: Handle, after: Handle, said: seq<Call>) {
    if !HasProcess(before) then after == before && said == []
    else
      && |said| > 0
      && if said[0] == Asked(before.pid, true) then
           if before.state.Stopping? then after == before.(state := Stopped, pid := 0) && |said| == 1
           else Starts(before.(state := Stopped, pid := 0), after, said[1..])
         else said == [Asked(before.pid, false)] && after == before
  }

  /** A handle without a process is left alone. Any other is asked after once: if its process has not ended, nothing
      changes; if it has, what was stopping is stopped and never started again, and what was running or restarting is
      started: it runs exactly if its file is executable and it got a process, and is failed if not. */
  lemma HealthStepMeans(before: Handle, after: Handle, said: seq<Call>)
    requires HealthStep(before, after, said)
    ensures before.state.Stopped? || before.state.Starting? || before.state.Failed? ==> after == before && said == []
    ensures before.state.Running? || before.state.Stopping? || before.state.Restarting? ==>
              && |said| > 0 && said[0].Asked? && said[0].pid == before.pid
              && (!said[0].ended ==> |said| == 1 && after == before)
              && (said[0].ended && before.state.Stopping? ==>
                    |said| == 1 && after.state.Stopped? && after.pid == 0)
              && (said[0].ended && !before.state.Stopping? ==>
                    && |said| > 1 && said[1].Accessed? && |said| == (if said[1].ok then 3 else 2)
                    && (said[1].ok ==> said[2].Forked?)
                    && if said[1].ok && said[2].pid != -1 then after.state.Running? && after.pid == said[2].pid
                       else after.state.Failed? && after.pid == 0)
    ensures after.id == before.id
  {
    if HasProcess(before) && said[0] == Asked(before.pid, true) && !before.state.Stopping? {
      StartsMeans(before.(state := Stopped, pid := 0), after, said[1..]);
    }
  }

  /** All that was said to one handle after another. */
  ghost function Joined(said: seq<seq<Call>>): seq<Call> {
    if said == [] then [] else Joined(said[..|said| - 1]) + said[|said| - 1]
  }

  lemma JoinedMore(said: seq<seq<Call>>, one: seq<Call>)
    ensures Joined(said + [one]) == Joined(said) + one
    ensures Forks(Joined(said + [one])) == Forks(Joined(said)) + Forks(one)
  {
    assert (said + [one])[..|said|] == said;
    ForksAppend(Joined(said), one);
  }

  /** Everything that runs, told to end. */
  ghost function Terms(hs: seq<Handle>): seq<Call> {
    if hs == [] then [] else Terms(hs[..|hs| - 1]) + Term(hs[|hs| - 1])
  }

  lemma TermsMore(hs: seq<Handle>, i: nat)
    requires i <= |hs|
    ensures i == 0 ==> Terms(hs[..i]) == []
    ensures i < |hs| ==> Terms(hs[..i + 1]) == Terms(hs[..i]) + Term(hs[i])
  {
    if i < |hs| {
      assert hs[..i + 1][..i] == hs[..i];
    }
  }

  /** The processes that starting all these plugins would lose sight of. */
  ghost function LostByAll(hs: seq<Handle>): set<int> {
    if hs == [] then {} else LostByAll(hs[..|hs| - 1]) + LostBy(hs[|hs| - 1])
  }

  lemma {:induction false} NothingLost(hs: seq<Handle>)
    ensures LostByAll(hs) == {} <==> forall i :: 0 <= i < |hs| ==> MayStart(hs[i])
  {
    if hs != [] {
      var n := |hs| - 1;
      NothingLost(hs[..n]);
      assert LostBy(hs[n]) == {} <==> MayStart(hs[n]);
      assert forall i :: 0 <= i < n ==> hs[..n][i] == hs[i];
    }
  }

  lemma OneMoreStarted(hs: seq<Handle>, h: Handle, all: seq<Handle>, i: nat)
    requires i < |all|
    ensures CountRunning(hs + [h]) == CountRunning(hs) + if h.state.Running? then 1 else 0
    ensures LostByAll(all[..i + 1]) == LostByAll(all[..i]) + LostBy(all[i])
  {
    assert (hs + [h])[..|hs|] == hs && all[..i + 1][..i] == all[..i];
  }

  lemma NothingStarted(all: seq<Handle>)
    ensures CountRunning(all[..0]) == 0 && LostByAll(all[..0]) == {}
  {
  }

  /** How many handles are running. */
  function CountRunning(hs: seq<Handle>): nat {
    if hs == [] then 0 else CountRunning(hs[..|hs| - 1]) + if hs[|hs| - 1].state.Running? then 1 else 0
  }

  // ----- waiting for the end -----

  /** A handle is still waited for. */
  predicate IsLeft(h: Handle) {
    !h.state.Stopped? && h.pid > 0
  }

  predicate AnyLeft(hs: seq<Handle>) {
    exists i :: 0 <= i < |hs| && IsLeft(hs[i])
  }

  function Reaped(h: Handle, gone: bool): Handle {
    if IsLeft(h) && gone then h.(state := Stopped, pid := 0) else h
  }

  /** One round: everything that is left is asked after. */
  ghost function AskAll(hs: seq<Handle>, gone: seq<bool>): seq<Call>
    requires |gone| == |hs|
  {
    if hs == [] then []
    else
      var n := |hs| - 1;
      AskAll(hs[..n], gone[..n]) + if IsLeft(hs[n]) then [Asked(hs[n].pid, gone[n])] else []
  }

  ghost function AfterRound(hs: seq<Handle>, gone: seq<bool>): (r: seq<Handle>)
    requires |gone| == |hs|
    ensures |r| == |hs|
  {
    seq(|hs|, i requires 0 <= i < |hs| => Reaped(hs[i], gone[i]))
  }

  /** The answers of several rounds, one for each handle in each. */
  ghost predicate AreRounds(rounds: seq<seq<bool>>, n: nat) {
    forall k :: 0 <= k < |rounds| ==> |rounds[k]| == n
  }

  ghost function AfterRounds(hs: seq<Handle>, rounds: seq<seq<bool>>): (r: seq<Handle>)
    requires AreRounds(rounds, |hs|)
    ensures |r| == |hs|
  {
    if rounds == [] then hs else AfterRound(AfterRounds(hs, rounds[..|rounds| - 1]), rounds[|rounds| - 1])
  }

  ghost function AskRounds(hs: seq<Handle>, rounds: seq<seq<bool>>): seq<Call>
    requires AreRounds(rounds, |hs|)
  {
    if rounds == [] then []
    else
      var n := |rounds| - 1;
      AskRounds(hs, rounds[..n]) + AskAll(AfterRounds(hs, rounds[..n]), rounds[n])
  }

  /** What is left in the end is killed and waited for. */
  ghost function Kills(hs: seq<Handle>): seq<Call> {
    if hs == [] then []
    else
      var h := hs[|hs| - 1];
      Kills(hs[..|hs| - 1]) + if IsLeft(h) then [Signalled(h.pid, SigKill), Awaited(h.pid)] else []
  }

  function AllStopped(hs: seq<Handle>): (r: seq<Handle>)
    ensures |r| == |hs|
  {
    seq(|hs|, i requires 0 <= i < |hs| => StoppedHandle(hs[i]))
  }

  /** Stopping everything: all is told to end, asked after in up to 30 rounds, as long as something is left, and what is
      then left is killed. */
  ghost predicate Stops(hs: seq<Handle>, rounds: seq<seq<bool>>, said: seq<Call>) {
    && AreRounds(rounds, |hs|) && 1 <= |rounds| <= 30
    && (forall n :: 0 < n < |rounds| ==> AnyLeft(AfterRounds(AllStopped(hs), rounds[..n])))
    && (|rounds| < 30 ==> !AnyLeft(AfterRounds(AllStopped(hs), rounds)))
    && said == Terms(hs) + AskRounds(AllStopped(hs), rounds) + Kills(AfterRounds(AllStopped(hs), rounds))
  }

  /** What runs is told to end, once. A process is killed, once, exactly if it was asked after 30 times and had never
      ended; only a killed one is waited for without end; and any other was found to have ended, once. */
  ghost predicate KilledIfDeaf(hs: seq<Handle>, said: seq<Call>) {
    forall i :: 0 <= i < |hs| && hs[i].pid > 0 ==> IsKilledIfDeaf(hs[i], said)
  }

  ghost predicate IsKilledIfDeaf(h: Handle, said: seq<Call>) {
    var pid := h.pid;
    var killed := multiset(said)[Signalled(pid, SigKill)];
    && multiset(said)[Signalled(pid, SigTerm)] == (if h.state.Running? then 1 else 0)
    && killed == (if multiset(said)[Asked(pid, false)] == 30 then 1 else 0)
    && multiset(said)[Asked(pid, true)] == 1 - killed && multiset(said)[Awaited(pid)] == killed
  }

  lemma NoForks()
    ensures Forks([]) == 0
  {
  }

  lemma OneCall(c: Call)
    ensures Forks([c]) == if c.Forked? && c.pid != -1 then 1 else 0
  {
    assert [c][..0] == [];
  }

  lemma NothingJoined()
    ensures Joined([]) == [] && Forks([]) == 0
  {
  }

  lemma NobodyAsked()
    ensures forall hs: seq<Handle> :: AskAll(hs[..0], []) == [] && Kills(hs[..0]) == []
  {
    assert forall hs: seq<Handle> :: hs[..0] == [];
  }

  lemma AskMore(hs: seq<Handle>, gone: seq<bool>, i: nat, ended: bool)
    requires i == |gone| && i < |hs|
    ensures AskAll(hs[..i + 1], gone + [ended]) ==
            AskAll(hs[..i], gone) + if IsLeft(hs[i]) then [Asked(hs[i].pid, ended)] else []
  {
    assert hs[..i + 1][..i] == hs[..i] && (gone + [ended])[..i] == gone;
  }

  lemma KillMore(hs: seq<Handle>, i: nat)
    requires i < |hs|
    ensures Kills(hs[..i + 1]) ==
            Kills(hs[..i]) + if IsLeft(hs[i]) then [Signalled(hs[i].pid, SigKill), Awaited(hs[i].pid)] else []
  {
    assert hs[..i + 1][..i] == hs[..i];
  }

  lemma NoRounds(hs: seq<Handle>)
    ensures AfterRounds(hs, []) == hs && AskRounds(hs, []) == []
  {
  }

  lemma PrefixesMore<T>(s: seq<T>, x: T)
    ensures forall n :: 0 <= n <= |s| ==> (s + [x])[..n] == s[..n]
    ensures (s + [x])[..|s| + 1] == s + [x]
  {
  }

  lemma RoundsMore(hs: seq<Handle>, rounds: seq<seq<bool>>, gone: seq<bool>)
    requires AreRounds(rounds, |hs|) && |gone| == |hs|
    ensures AreRounds(rounds + [gone], |hs|)
    ensures AfterRounds(hs, rounds + [gone]) == AfterRound(AfterRounds(hs, rounds), gone)
    ensures AskRounds(hs, rounds + [gone]) == AskRounds(hs, rounds) + AskAll(AfterRounds(hs, rounds), gone)
  {
    assert (rounds + [gone])[..|rounds|] == rounds;
  }

  /** What is stopping is not started by a health check. */
  lemma StoppingIsLeft(hs: seq<Handle>, after: seq<Handle>, said: seq<seq<Call>>)
    requires |hs| == |after| == |said| && forall i :: 0 <= i < |hs| ==> HealthStep(hs[i], after[i], said[i])
    ensures forall i :: 0 <= i < |hs| && hs[i].state.Stopping? ==>
              (after[i].state.Stopping? || after[i].state.Stopped?) && |said[i]| == 1 && said[i][0].Asked?
  {
  }

  // ----- who is killed -----

  /** No other handle than the `i`-th has this process. */
  predicate Alone(hs: seq<Handle>, i: nat, pid: int) {
    pid > 0 && forall k :: 0 <= k < |hs| && k != i ==> hs[k].pid != pid
  }

  lemma {:induction false} AskedOnce(hs: seq<Handle>, gone: seq<bool>, i: nat, pid: int, b: bool)
    requires |gone| == |hs| && Alone(hs, i, pid)
    ensures multiset(AskAll(hs, gone))[Asked(pid, b)] ==
            if i < |hs| && hs[i].pid == pid && IsLeft(hs[i]) && gone[i] == b then 1 else 0
    ensures forall c :: c in AskAll(hs, gone) ==> c.Asked?
  {
    if hs != [] {
      var n := |hs| - 1;
      AskedOnce(hs[..n], gone[..n], i, pid, b);
    }
  }

  /** After some rounds, a process that was there has answered each time that it had not ended, or it was found to have
      ended, once, and was not asked again. */
  lemma {:induction false} AskedInRounds(hs: seq<Handle>, rounds: seq<seq<bool>>, i: nat, pid: int)
    requires AreRounds(rounds, |hs|) && i < |hs| && Alone(hs, i, pid) && hs[i].pid == pid && IsLeft(hs[i])
    ensures var now, said := AfterRounds(hs, rounds), multiset(AskRounds(hs, rounds));
            && Alone(now, i, pid)
            && (if IsLeft(now[i]) then
                  now[i].pid == pid && said[Asked(pid, false)] == |rounds| && said[Asked(pid, true)] == 0
                else
                  now[i].pid == 0 && said[Asked(pid, false)] < |rounds| && said[Asked(pid, true)] == 1)
    ensures forall c :: c in AskRounds(hs, rounds) ==> c.Asked?
  {
    hide AskAll;
    if rounds != [] {
      var n := |rounds| - 1;
      var was := AfterRounds(hs, rounds[..n]);
      AskedInRounds(hs, rounds[..n], i, pid);
      AskedOnce(was, rounds[n], i, pid, true);
      AskedOnce(was, rounds[n], i, pid, false);
    }
  }

  lemma {:induction false} KilledOnce(hs: seq<Handle>, i: nat, pid: int)
    requires Alone(hs, i, pid)
    ensures var killed := multiset(Kills(hs))[Signalled(pid, SigKill)];
            && killed == (if i < |hs| && hs[i].pid == pid && IsLeft(hs[i]) then 1 else 0)
            && multiset(Kills(hs))[Awaited(pid)] == killed
    ensures forall c :: c in Kills(hs) ==> !c.Asked? && (c.Signalled? ==> c.signal == SigKill)
  {
    if hs != [] {
      KilledOnce(hs[..|hs| - 1], i, pid);
    }
  }

  lemma {:induction false} ToldOnce(hs: seq<Handle>, i: nat, pid: int)
    requires Alone(hs, i, pid)
    ensures multiset(Terms(hs))[Signalled(pid, SigTerm)] ==
            if i < |hs| && hs[i].pid == pid && hs[i].state.Running? then 1 else 0
    ensures forall c :: c in Terms(hs) ==> c.Signalled? && c.signal == SigTerm
  {
    if hs != [] {
      ToldOnce(hs[..|hs| - 1], i, pid);
    }
  }

  lemma DeafAreKilled(hs: seq<Handle>, children: set<int>, rounds: seq<seq<bool>>, said: seq<Call>)
    requires Tracked(hs, children) && Stops(hs, rounds, said)
    ensures KilledIfDeaf(hs, said)
  {
    hide Tracked, AskRounds, Kills, Terms, AfterRounds;
    forall i | 0 <= i < |hs| && hs[i].pid > 0
      ensures IsKilledIfDeaf(hs[i], said)
    {
      IsAlone(hs, children, i);
      OneIsKilled(hs, rounds, said, i);
    }
  }

  lemma IsAlone(hs: seq<Handle>, children: set<int>, i: nat)
    requires Tracked(hs, children) && i < |hs| && hs[i].pid > 0
    ensures Alone(hs, i, hs[i].pid) && Alone(AllStopped(hs), i, hs[i].pid) && IsLeft(AllStopped(hs)[i])
  {
    assert forall k :: 0 <= k < |hs| && k != i ==> hs[k].pid != hs[i].pid;
  }

  lemma OneIsKilled(hs: seq<Handle>, rounds: seq<seq<bool>>, said: seq<Call>, i: nat)
    requires i < |hs| && Stops(hs, rounds, said)
    requires Alone(hs, i, hs[i].pid) && Alone(AllStopped(hs), i, hs[i].pid) && IsLeft(AllStopped(hs)[i])
    ensures IsKilledIfDeaf(hs[i], said)
  {
    hide AskRounds, Kills, Terms, AfterRounds, Alone, AnyLeft;
    var pid, last := hs[i].pid, AfterRounds(AllStopped(hs), rounds);
    ToldOnce(hs, i, pid);
    AskedInRounds(AllStopped(hs), rounds, i, pid);
    KilledOnce(last, i, pid);
    LeftIsAny(last, i);
    Counted(hs[i], Terms(hs), AskRounds(AllStopped(hs), rounds), Kills(last), IsLeft(last[i]), |rounds|);
  }

  lemma Counted(h: Handle, told: seq<Call>, asked: seq<Call>, kills: seq<Call>, left: bool, rounds: nat)
    requires rounds <= 30 && (rounds < 30 ==> !left)
    requires multiset(told)[Signalled(h.pid, SigTerm)] == if h.state.Running? then 1 else 0
    requires forall c :: c in told ==> c.Signalled? && c.signal == SigTerm
    requires var n := multiset(asked)[Asked(h.pid, false)]; if left then n == rounds else n < rounds
    requires multiset(asked)[Asked(h.pid, true)] == if left then 0 else 1
    requires forall c :: c in asked ==> c.Asked?
    requires multiset(kills)[Signalled(h.pid, SigKill)] == if left then 1 else 0
    requires multiset(kills)[Awaited(h.pid)] == if left then 1 else 0
    requires forall c :: c in kills ==> !c.Asked? && (c.Signalled? ==> c.signal == SigKill)
    ensures IsKilledIfDeaf(h, told + asked + kills)
  {
    CountIn(told, asked, kills, Signalled(h.pid, SigTerm));
    CountIn(told, asked, kills, Signalled(h.pid, SigKill));
    CountIn(told, asked, kills, Asked(h.pid, true));
    CountIn(told, asked, kills, Asked(h.pid, false));
    CountIn(told, asked, kills, Awaited(h.pid));
  }

  lemma LeftIsAny(hs: seq<Handle>, i: nat)
    requires i < |hs|
    ensures IsLeft(hs[i]) ==> AnyLeft(hs)
  {
  }

  lemma CountIn(a: seq<Call>, b: seq<Call>, c: seq<Call>, x: Call)
    ensures multiset(a + b + c)[x] == multiset(a)[x] + multiset(b)[x] + multiset(c)[x]
    ensures (x !in a ==> multiset(a)[x] == 0) && (x !in b ==> multiset(b)[x] == 0) && (x !in c ==> multiset(c)[x] == 0)
  {
    assert multiset(a + b + c) == multiset(a) + multiset(b) + multiset(c);
    assert x in multiset(a) ==> x in a;
    assert x in multiset(b) ==> x in b;
    assert x in multiset(c) ==> x in c;
  }

  lemma {:induction false} CountIsSize(hs: seq<Handle>)
    ensures CountRunning(hs) == |set i | 0 <= i < |hs| && hs[i].state.Running?|
  {
    if hs != [] {
      var n := |hs| - 1;
      var rest := set i | 0 <= i < n && hs[..n][i].state.Running?;
      CountIsSize(hs[..n]);
      assert (set i | 0 <= i < |hs| && hs[i].state.Running?) == rest + if hs[n].state.Running? then {n} else {};
    }
  }

  /** Where the first handle of this id is, if any. */
  ghost predicate FirstOf(hs: seq<Handle>, at: Option<nat>, id: bytes) {
    if at.None? then forall k :: 0 <= k < |hs| ==> hs[k].id != id
    else at.value < |hs| && hs[at.value].id == id && forall k :: 0 <= k < at.value ==> hs[k].id != id
  }

  /** Of two handles with that id it is the one in front. */
  lemma FirstOfTwo(h: Handle, k: Handle, at: Option<nat>)
    requires h.id == k.id
    ensures FirstOf([h, k], at, h.id) <==> at == Some(0)
  {
    assert [h, k][0] == h && [h, k][1] == k;
  }

  class PluginMgr {
    const plugins: array<Handle>
    const kernel: Kernel

    constructor (found: seq<Handle>, kernel: Kernel)
      requires forall h :: h in found ==> h.state == Stopped && h.pid == 0
      requires kernel.children == {}
      ensures this.kernel == kernel && fresh(plugins) && plugins[..] == found
      ensures Valid() && Ok()
    {
      this.kernel := kernel;
      plugins := new Handle[|found|](i requires 0 <= i < |found| => found[i]);
      new;
      assert plugins[..] == found;
    }

    ghost predicate Valid()
      reads plugins, kernel`children
    {
      Tracked(plugins[..], kernel.children)
    }

    /** Our processes are accounted for. */
    ghost predicate Ok()
      reads plugins, kernel`children
    {
      Supervised(plugins[..], kernel.children)
    }

    ghost function Lost(): set<int>
      reads plugins, kernel`children
    {
      Unheld(plugins[..], kernel.children)
    }

    ghost function Now(): Moment
      reads plugins, kernel
    {
      Moment(plugins[..], kernel.children, kernel.calls)
    }

    lemma OkIsNothingLost()
      ensures Ok() <==> Valid() && Lost() == {}
    {
      SupervisedIsHeld(plugins[..], kernel.children);
    }

    /** `start_plugin`. Unless the plugin runs, it is asked once whether the file is executable, and for a process once
        exactly if it is; the plugin then runs exactly if it got one. Our processes stay accounted for exactly when the
        handle had none on its way out; otherwise that process is lost. */
    method StartPlugin(i: nat) returns (r: int, ghost said: seq<Call>)
      requires Valid() && i < plugins.Length
      modifies plugins, kernel`children, kernel`calls
      ensures Valid() && plugins[..] == old(plugins[..])[i := plugins[i]]
      ensures kernel.calls == old(kernel.calls) + said
      ensures old(plugins[i].state.Running?) ==> said == [] && plugins[i] == old(plugins[i])
      ensures !old(plugins[i].state.Running?) ==>
                && |said| > 0 && said[0].Accessed? && |said| == (if said[0].ok then 2 else 1)
                && (said[0].ok ==> said[1].Forked?)
                && (if said[0].ok && said[1].pid != -1 then plugins[i].state.Running? && plugins[i].pid == said[1].pid
                    else plugins[i].state.Failed? && plugins[i].pid == old(plugins[i].pid))
      ensures Started(old(plugins[i]), plugins[i], old(kernel.children), kernel.children, said)
      ensures r == if plugins[i].state.Running? then 0 else -1
      ensures Lost() == old(Lost()) + LostBy(old(plugins[i]))
      ensures old(Ok()) ==> (Ok() <==> MayStart(old(plugins[i])))
    {
      ghost var before, children := plugins[..], kernel.children;
      OkIsNothingLost();
      assert before[i] == plugins[i];
      if plugins[i].state.Running? {
        assert plugins[..] == before[i := plugins[i]];
        return 0, [];
      }
      hide Tracked, Unheld, Supervised;
      var executable := kernel.Access();
      said := [Accessed(executable)];
      var pid := -1;
      if executable {
        plugins[i] := plugins[i].(state := Starting);
        pid := kernel.Fork();
        said := said + [Forked(pid)];
      }
      if pid < 0 {
        plugins[i] := plugins[i].(state := Failed);
        assert plugins[..] == before[i := before[i].(state := Failed)];
        AfterFailure(before, children, i);
        r := -1;
      } else {
        plugins[i] := plugins[i].(pid := pid);
        plugins[i] := plugins[i].(state := Running);
        assert plugins[..] == before[i := before[i].(state := Running, pid := pid)];
        AfterStart(before, children, i, pid);
        r := 0;
      }
      StartsMeans(before[i], plugins[i], said);
      OkIsNothingLost();
    }

    /** `stop_plugin`. What runs is told to end; if there is no such process, the handle is stopped. No process is
        lost by it. */
    method StopPlugin(i: nat)
      requires i < plugins.Length
      modifies plugins, kernel`calls
      ensures plugins[..] == old(plugins[..])[i := plugins[i]]
      ensures plugins[i] ==
                if !old(plugins[i].state.Running?) || old(plugins[i].pid) <= 0 then old(plugins[i])
                else if old(plugins[i].pid) in kernel.children then old(plugins[i]).(state := Stopping)
                else old(plugins[i]).(state := Stopped, pid := 0)
      ensures kernel.calls == old(kernel.calls) +
                if old(plugins[i].state.Running?) && old(plugins[i].pid) > 0
                then [Signalled(old(plugins[i].pid), SigTerm)] else []
      ensures old(Valid()) ==> Valid() && plugins[i] == StoppedHandle(old(plugins[i]))
      ensures old(Valid()) && old(plugins[i].state.Running?) ==> plugins[i].pid > 0
      ensures old(Valid()) ==> Lost() == old(Lost()) && Unseen() == old(Unseen())
    {
      ghost var before := plugins[..];
      assert before[i] == plugins[i];
      if plugins[i].state.Running? && plugins[i].pid > 0 {
        plugins[i] := plugins[i].(state := Stopping);
        var killed := kernel.Kill(plugins[i].pid, SigTerm);
        if killed != 0 {
          plugins[i] := plugins[i].(state := Stopped, pid := 0);
        }
        if Tracked(before, kernel.children) {
          AfterMarking(before, kernel.children, i, Stopping);
        }
      }
      assert plugins[..] == before[i := plugins[i]];
    }

    /** `plugin_mgr_get`: the first handle of that id. */
    method Get(id: bytes) returns (at: Option<nat>)
      ensures FirstOf(plugins[..], at, id)
    {
      for i := 0 to plugins.Length
        invariant forall k :: 0 <= k < i ==> plugins[k].id != id
      {
        if plugins[i].id == id {
          return Some(i);
        }
      }
      return None;
    }

    /** A command may change only the handle it names. */
    ghost predicate OneChanged(before: seq<Handle>, at: Option<nat>)
      reads plugins
    {
      if at.None? then plugins[..] == before
      else at.value < |before| == plugins.Length && plugins[..] == before[at.value := plugins[at.value]]
    }

    method Start(id: bytes) returns (r: int, ghost at: Option<nat>, ghost said: seq<Call>)
      requires Valid()
      modifies plugins, kernel`children, kernel`calls
      ensures Valid() && FirstOf(old(plugins[..]), at, id) && OneChanged(old(plugins[..]), at)
      ensures kernel.calls == old(kernel.calls) + said
      ensures at.None? ==> r == -1 && said == [] && kernel.children == old(kernel.children) && Lost() == old(Lost())
      ensures at.Some? ==>
                && Started(old(plugins[at.value]), plugins[at.value], old(kernel.children), kernel.children, said)
                && r == (if plugins[at.value].state.Running? then 0 else -1)
                && Lost() == old(Lost()) + LostBy(old(plugins[at.value]))
      ensures old(Ok()) ==> (Ok() <==> at.None? || MayStart(old(plugins[at.value])))
    {
      hide Tracked, Supervised, Unheld, Started;
      var h := Get(id);
      at := h;
      if h.None? {
        return -1, at, [];
      }
      r, said := StartPlugin(h.value);
    }

    method Stop(id: bytes) returns (r: int, ghost at: Option<nat>)
      requires Valid()
      modifies plugins, kernel`calls
      ensures Valid() && FirstOf(old(plugins[..]), at, id) && OneChanged(old(plugins[..]), at)
      ensures at.None? ==> kernel.calls == old(kernel.calls)
      ensures r == (if at.None? then -1 else 0) && Lost() == old(Lost())
      ensures at.Some? ==>
                && plugins[at.value] == StoppedHandle(old(plugins[at.value]))
                && kernel.calls == old(kernel.calls) +
                     if old(plugins[at.value].state.Running?) then [Signalled(old(plugins[at.value].pid), SigTerm)]
                     else []
      ensures old(Ok()) ==> Ok()
    {
      hide Tracked, Supervised, Unheld, Unnamed;
      OkIsNothingLost();
      var h := Get(id);
      at := h;
      if h.None? {
        return -1, at;
      }
      StopPlugin(h.value);
      OkIsNothingLost();
      r := 0;
    }

    /** A running plugin is told to stop and marked for restarting; any other is started. */
    method Restart(id: bytes) returns (r: int, ghost at: Option<nat>, ghost said: seq<Call>)
      requires Valid()
      modifies plugins, kernel`children, kernel`calls
      ensures Valid() && FirstOf(old(plugins[..]), at, id) && OneChanged(old(plugins[..]), at)
      ensures kernel.calls == old(kernel.calls) + said
      ensures at.None? ==> r == -1 && said == [] && kernel.children == old(kernel.children) && Lost() == old(Lost())
      ensures at.Some? ==>
                && Restarted(old(plugins[at.value]), plugins[at.value], old(kernel.children), kernel.children, said)
                && r == (if plugins[at.value].state.Failed? then -1 else 0)
                && Lost() == old(Lost()) + LostBy(old(plugins[at.value]))
      ensures at.Some? && !old(plugins[at.value].state.Running?) ==>
                Started(old(plugins[at.value]), plugins[at.value], old(kernel.children), kernel.children, said)
      ensures at.Some? && old(plugins[at.value].state.Running?) ==>
                && plugins[at.value] == old(plugins[at.value]).(state := Restarting)
                && said == [Signalled(old(plugins[at.value].pid), SigTerm)]
      ensures old(Ok()) ==> (Ok() <==> at.None? || MayStart(old(plugins[at.value])))
    {
      hide Tracked, Supervised, Unheld, Unnamed, Started;
      OkIsNothingLost();
      var h := Get(id);
      at := h;
      if h.None? {
        return -1, at, [];
      }
      if plugins[h.value].state.Running? {
        said := Term(plugins[h.value]);
        StopPlugin(h.value);
        ghost var stopped := plugins[..];
        AfterMarking(stopped, kernel.children, h.value, Restarting);
        plugins[h.value] := plugins[h.value].(state := Restarting);
        assert plugins[..] == stopped[h.value := stopped[h.value].(state := Restarting)];
        OkIsNothingLost();
        return 0, at, said;
      }
      r, said := StartPlugin(h.value);
    }

    /** One handle in the loop of the health check. */
    method CheckOne(i: nat) returns (restarted: nat, ghost said: seq<Call>)
      requires Valid() && i < plugins.Length
      modifies plugins, kernel`children, kernel`calls
      ensures Valid() && plugins[..] == old(plugins[..])[i := plugins[i]] && Lost() == old(Lost())
      ensures kernel.calls == old(kernel.calls) + said
      ensures HealthStep(old(plugins[i]), plugins[i], said)
      ensures restarted == Forks(said)
      ensures old(plugins[i].state.Stopping?) ==>
                said == (if plugins[i].pid > 0 then [Asked(old(plugins[i].pid), false)]
                         else [Asked(old(plugins[i].pid), true)])
    {
      ghost var before := plugins[..];
      PidIsChild(i);
      hide Tracked, Unheld, Unnamed;
      NoForks();
      restarted, said := 0, [];
      assert before[i] == plugins[i];
      if plugins[i].state.Stopped? || plugins[i].state.Failed? {
        assert plugins[..] == before[i := plugins[i]];
        return;
      }
      ghost var children := kernel.children;
      var ret := kernel.WaitNoHang(plugins[i].pid);
      said := [Asked(plugins[i].pid, ret > 0)];
      OneCall(said[0]);
      if ret > 0 {
        AfterReaping(before, children, i);
        if plugins[i].state.Stopping? {
          plugins[i] := plugins[i].(state := Stopped, pid := 0);
          assert plugins[..] == before[i := before[i].(state := Stopped, pid := 0)];
        } else {
          plugins[i] := plugins[i].(state := Stopped, pid := 0);
          assert plugins[..] == before[i := before[i].(state := Stopped, pid := 0)];
          ghost var reaped := plugins[i];
          var started, more := StartPlugin(i);
          StartsMeans(reaped, plugins[i], more);
          ForksAppend(said, more);
          assert (said + more)[1..] == more;
          said := said + more;
          if started == 0 {
            restarted := 1;
          }
        }
      }
      assert plugins[..] == before[i := plugins[i]];
    }

    lemma PidIsChild(i: nat)
      requires Valid() && i < plugins.Length
      ensures plugins[i].pid >= 0 && (plugins[i].pid > 0 ==> plugins[i].pid in kernel.children)
      ensures HasProcess(plugins[i]) ==> plugins[i].pid > 0
      ensures HasProcess(plugins[i]) || plugins[i].state.Stopped? || plugins[i].state.Failed?
      ensures plugins[i].state.Stopped? ==> plugins[i].pid == 0
    {
      assert plugins[..][i] == plugins[i];
    }

    /** `plugin_mgr_check_health`: every process is asked after, in order; exactly those handles change whose
        process has ended; what is stopping is never started again; no process is lost; the result counts the
        processes started. */
    method CheckHealth() returns (restarted: nat, ghost said: seq<seq<Call>>)
      requires Valid()
      modifies plugins, kernel`children, kernel`calls
      ensures Valid() && |said| == plugins.Length && Lost() == old(Lost())
      ensures old(Ok()) ==> Ok()
      ensures forall i :: 0 <= i < plugins.Length ==> HealthStep(old(plugins[i]), plugins[i], said[i])
      ensures forall i :: 0 <= i < plugins.Length && old(plugins[i].state.Stopping?) ==>
                (plugins[i].state.Stopping? || plugins[i].state.Stopped?) && |said[i]| == 1 && said[i][0].Asked?
      ensures kernel.calls == old(kernel.calls) + Joined(said) && restarted == Forks(Joined(said))
    {
      hide Tracked, Supervised, Unheld, HealthStep, HasProcess, Joined, Forks;
      OkIsNothingLost();
      restarted, said := 0, [];
      ghost var all := plugins[..];
      NothingJoined();
      for i := 0 to plugins.Length
        invariant Valid() && |said| == i && Lost() == old(Lost())
        invariant forall k :: 0 <= k < i ==> HealthStep(all[k], plugins[k], said[k])
        invariant forall k :: i <= k < plugins.Length ==> plugins[k] == all[k]
        invariant kernel.calls == old(kernel.calls) + Joined(said) && restarted == Forks(Joined(said))
      {
        ghost var before := plugins[..];
        var one, more := CheckOne(i);
        assert forall k :: 0 <= k < plugins.Length && k != i ==> plugins[..][k] == before[k];
        JoinedMore(said, more);
        restarted, said := restarted + one, said + [more];
      }
      StoppingIsLeft(all, plugins[..], said);
      OkIsNothingLost();
    }

    /** One handle in the loops that wait for processes to end. */
    method ReapOne(i: nat) returns (running: nat, ghost gone: bool)
      requires Valid() && i < plugins.Length
      modifies plugins, kernel`children, kernel`calls
      ensures Valid() && plugins[..] == old(plugins[..])[i := plugins[i]] && Unseen() == old(Unseen())
      ensures plugins[i] == Reaped(old(plugins[i]), gone)
      ensures kernel.calls == old(kernel.calls) +
                if IsLeft(old(plugins[i])) then [Asked(old(plugins[i].pid), gone)] else []
      ensures running == if IsLeft(plugins[i]) then 1 else 0
    {
      ghost var before, children := plugins[..], kernel.children;
      PidIsChild(i);
      hide Tracked, Unheld, Unnamed;
      assert before[i] == plugins[i];
      running, gone := 0, false;
      if !plugins[i].state.Stopped? && plugins[i].pid > 0 {
        var ret := kernel.WaitNoHang(plugins[i].pid);
        gone := ret > 0;
        if ret > 0 {
          AfterReaping(before, children, i);
          plugins[i] := plugins[i].(state := Stopped, pid := 0);
          assert plugins[..] == before[i := before[i].(state := Stopped, pid := 0)];
        } else {
          running := 1;
        }
      }
      assert plugins[..] == before[i := plugins[i]];
    }

    method KillOne(i: nat)
      requires Valid() && i < plugins.Length
      modifies plugins, kernel`children, kernel`calls
      ensures Valid() && plugins[..] == old(plugins[..])[i := plugins[i]] && Unseen() == old(Unseen())
      ensures plugins[i] == Reaped(old(plugins[i]), true) && plugins[i].pid == 0
      ensures kernel.calls == old(kernel.calls) +
                if IsLeft(old(plugins[i])) then [Signalled(old(plugins[i].pid), SigKill), Awaited(old(plugins[i].pid))]
                else []
    {
      ghost var before, children := plugins[..], kernel.children;
      PidIsChild(i);
      hide Tracked, Unheld, Unnamed;
      assert before[i] == plugins[i];
      if !plugins[i].state.Stopped? && plugins[i].pid > 0 {
        var _ := kernel.Kill(plugins[i].pid, SigKill);
        kernel.Wait(plugins[i].pid);
        AfterReaping(before, children, i);
        plugins[i] := plugins[i].(state := Stopped, pid := 0);
        assert plugins[..] == before[i := before[i].(state := Stopped, pid := 0)];
      }
      assert plugins[..] == before[i := plugins[i]];
    }

    method StopEach()
      requires Valid()
      modifies plugins, kernel`calls
      ensures Valid() && Unseen() == old(Unseen())
      ensures plugins[..] == AllStopped(old(plugins[..]))
      ensures kernel.calls == old(kernel.calls) + Terms(old(plugins[..]))
    {
      hide Tracked, Unheld, Unnamed, Terms;
      ghost var all := plugins[..];
      TermsMore(all, 0);
      for i := 0 to plugins.Length
        invariant Valid() && Unseen() == old(Unseen())
        invariant forall k :: 0 <= k < i ==> plugins[k] == StoppedHandle(all[k])
        invariant forall k :: i <= k < plugins.Length ==> plugins[k] == all[k]
        invariant kernel.calls == old(kernel.calls) + Terms(all[..i])
      {
        ghost var before := plugins[..];
        PidIsChild(i);
        TermsMore(all, i);
        StopPlugin(i);
        assert forall k :: 0 <= k < plugins.Length && k != i ==> plugins[..][k] == before[k];
      }
      assert all[..plugins.Length] == all;
    }

    /** One round of waiting. */
    method ReapEach() returns (running: nat, ghost gone: seq<bool>)
      requires Valid()
      modifies plugins, kernel`children, kernel`calls
      ensures Valid() && Unseen() == old(Unseen()) && |gone| == plugins.Length
      ensures plugins[..] == AfterRound(old(plugins[..]), gone)
      ensures kernel.calls == old(kernel.calls) + AskAll(old(plugins[..]), gone)
      ensures running > 0 <==> AnyLeft(plugins[..])
    {
      hide Tracked, Unheld, Unnamed, AskAll, IsLeft;
      running, gone := 0, [];
      ghost var all := plugins[..];
      NobodyAsked();
      for i := 0 to plugins.Length
        invariant Valid() && Unseen() == old(Unseen()) && |gone| == i
        invariant forall k :: 0 <= k < i ==> plugins[k] == Reaped(all[k], gone[k])
        invariant forall k :: i <= k < plugins.Length ==> plugins[k] == all[k]
        invariant kernel.calls == old(kernel.calls) + AskAll(all[..i], gone)
        invariant running > 0 <==> exists k :: 0 <= k < i && IsLeft(plugins[k])
      {
        ghost var before := plugins[..];
        var one, ended := ReapOne(i);
        assert forall k :: 0 <= k < plugins.Length && k != i ==> plugins[..][k] == before[k];
        AskMore(all, gone, i, ended);
        running, gone := running + one, gone + [ended];
      }
      assert all[..plugins.Length] == all;
    }

    method KillEach()
      requires Valid()
      modifies plugins, kernel`children, kernel`calls
      ensures Valid() && Unseen() == old(Unseen())
      ensures kernel.calls == old(kernel.calls) + Kills(old(plugins[..]))
      ensures forall k :: 0 <= k < plugins.Length ==> plugins[k].pid == 0
    {
      hide Tracked, Unheld, Unnamed, Kills, IsLeft;
      ghost var all := plugins[..];
      NobodyAsked();
      for i := 0 to plugins.Length
        invariant Valid() && Unseen() == old(Unseen())
        invariant forall k :: 0 <= k < i ==> plugins[k].pid == 0
        invariant forall k :: i <= k < plugins.Length ==> plugins[k] == all[k]
        invariant kernel.calls == old(kernel.calls) + Kills(all[..i])
      {
        ghost var before := plugins[..];
        KillOne(i);
        KillMore(all, i);
        assert forall k :: 0 <= k < plugins.Length && k != i ==> plugins[..][k] == before[k];
      }
      assert all[..plugins.Length] == all;
    }

    /** The loop that waits: up to 30 rounds of 100 milliseconds, as long as something is left. */
    method AwaitAll() returns (ghost rounds: seq<seq<bool>>)
      requires Valid()
      modifies plugins, kernel`children, kernel`calls
      ensures Valid() && Unseen() == old(Unseen()) && AreRounds(rounds, plugins.Length) && 1 <= |rounds| <= 30
      ensures plugins[..] == AfterRounds(old(plugins[..]), rounds)
      ensures kernel.calls == old(kernel.calls) + AskRounds(old(plugins[..]), rounds)
      ensures forall n :: 0 < n < |rounds| ==> AnyLeft(AfterRounds(old(plugins[..]), rounds[..n]))
      ensures |rounds| < 30 ==> !AnyLeft(plugins[..])
    {
      hide Tracked, Unheld, Unnamed, AskAll, IsLeft, AnyLeft, AfterRound, AfterRounds, AskRounds;
      ghost var all := plugins[..];
      rounds := [];
      NoRounds(all);
      var timeoutMs := 3000;
      while timeoutMs > 0
        invariant Valid() && Unseen() == old(Unseen()) && AreRounds(rounds, |all|) && |all| == plugins.Length
        invariant timeoutMs == 3000 - 100 * |rounds| >= 0
        invariant plugins[..] == AfterRounds(all, rounds)
        invariant kernel.calls == old(kernel.calls) + AskRounds(all, rounds)
        invariant forall n :: 0 < n <= |rounds| ==> AnyLeft(AfterRounds(all, rounds[..n]))
      {
        var running, gone := ReapEach();
        RoundsMore(all, rounds, gone);
        PrefixesMore(rounds, gone);
        rounds := rounds + [gone];
        if running == 0 {
          break;
        }
        timeoutMs := timeoutMs - 100;
      }
    }

    /** `plugin_mgr_stop_all`: everything that runs is told to end first, and then waited for; a process is killed
        exactly if it was asked after 30 times and had not ended. Afterwards no handle keeps a process id, and what is
        left are exactly the processes that no handle had the id of: none, if all were accounted for. */
    method StopAll() returns (ghost rounds: seq<seq<bool>>, ghost said: seq<Call>)
      requires Valid()
      modifies plugins, kernel`children, kernel`calls
      ensures Valid() && kernel.children == old(Unseen()) && (old(Ok()) ==> Ok() && kernel.children == {})
      ensures kernel.calls == old(kernel.calls) + said
      ensures Stops(old(plugins[..]), rounds, said) && KilledIfDeaf(old(plugins[..]), said)
      ensures forall k :: 0 <= k < plugins.Length ==>
                plugins[k].pid == 0 && (plugins[k].state.Stopped? || plugins[k].state.Failed?)
    {
      hide Tracked, Unheld, Unnamed, Supervised, KilledIfDeaf, AnyLeft, AskRounds, Kills, Terms;
      UnseenIsLost();
      ghost var all := plugins[..];
      StopEach();
      rounds := AwaitAll();
      ghost var rest := plugins[..];
      KillEach();
      said := Terms(all) + AskRounds(AllStopped(all), rounds) + Kills(rest);
      DeafAreKilled(all, old(kernel.children), rounds, said);
      NobodyLeft();
      OkIsNothingLost();
    }

    /** The processes no handle has the id of. */
    ghost function Unseen(): set<int>
      reads plugins, kernel`children
    {
      Unnamed(plugins[..], kernel.children)
    }

    lemma UnseenIsLost()
      ensures Ok() ==> Unseen() == {}
    {
      var hs := plugins[..];
      if Ok() {
        forall pid | pid in kernel.children
          ensures Named(hs, pid)
        {
          assert Held(hs, pid);
          var i :| Holds(hs, i, pid);
          assert hs[i].pid == pid;
        }
      }
    }

    lemma NobodyLeft()
      requires Valid() && forall k :: 0 <= k < plugins.Length ==> plugins[k].pid == 0
      ensures Unseen() == kernel.children && (kernel.children == {} ==> Lost() == {})
      ensures forall k :: 0 <= k < plugins.Length ==> plugins[k].state.Stopped? || plugins[k].state.Failed?
    {
      var hs := plugins[..];
      forall k | 0 <= k < plugins.Length
        ensures plugins[k].state.Stopped? || plugins[k].state.Failed?
      {
        PidIsChild(k);
      }
      forall pid | pid in kernel.children
        ensures !Named(hs, pid)
      {
      }
    }

    /** `plugin_mgr_start_all`: every plugin that does not run is started, in order, and the result counts what runs.
        Lost are exactly the processes that were on their way out. */
    method StartAll() returns (started: nat, ghost said: seq<seq<Call>>)
      requires Valid()
      modifies plugins, kernel`children, kernel`calls
      ensures Valid() && started == |set i | 0 <= i < plugins.Length && plugins[i].state.Running?|
      ensures |said| == plugins.Length && kernel.calls == old(kernel.calls) + Joined(said)
      ensures forall i :: 0 <= i < plugins.Length ==> Starts(old(plugins[i]), plugins[i], said[i])
      ensures forall i :: 0 <= i < plugins.Length ==> plugins[i].state.Running? || plugins[i].state.Failed?
      ensures Lost() == old(Lost()) + LostByAll(old(plugins[..]))
      ensures old(Ok()) ==> (Ok() <==> forall i :: 0 <= i < plugins.Length ==> MayStart(old(plugins[i])))
    {
      hide Tracked, Unheld, Supervised, LostBy, MayStart, Starts, Joined, Gained, LostByAll, CountRunning;
      OkIsNothingLost();
      started, said := 0, [];
      ghost var all := plugins[..];
      NothingJoined();
      NothingStarted(all);
      for i := 0 to plugins.Length
        invariant Valid() && started == CountRunning(plugins[..i])
        invariant |said| == i && kernel.calls == old(kernel.calls) + Joined(said)
        invariant forall k :: 0 <= k < i ==> Starts(all[k], plugins[k], said[k])
        invariant forall k :: 0 <= k < i ==> plugins[k].state.Running? || plugins[k].state.Failed?
        invariant forall k :: i <= k < plugins.Length ==> plugins[k] == all[k]
        invariant Lost() == old(Lost()) + LostByAll(all[..i])
      {
        ghost var before := plugins[..];
        var r, more := StartPlugin(i);
        assert forall k :: 0 <= k < plugins.Length && k != i ==> plugins[..][k] == before[k];
        assert plugins[..i] == before[..i] && plugins[..i + 1] == plugins[..i] + [plugins[i]];
        OneMoreStarted(plugins[..i], plugins[i], all, i);
        JoinedMore(said, more);
        said := said + [more];
        if r == 0 {
          started := started + 1;
        }
      }
      assert plugins[..plugins.Length] == plugins[..] && all[..plugins.Length] == all;
      NothingLost(all);
      OkIsNothingLost();
      CountIsSize(plugins[..]);
      assert (set i | 0 <= i < plugins.Length && plugins[i].state.Running?) ==
             set i | 0 <= i < |plugins[..]| && plugins[..][i].state.Running?;
    }
  }

  // ----- runs -----

  datatype Command = StartCommand(id: bytes) | StopCommand(id: bytes) | RestartCommand(id: bytes) | HealthCheck

  /** What is so between two commands: the handles, the children, and all that was asked so far. */
  datatype Moment = Moment(handles: seq<Handle>, children: set<int>, calls: seq<Call>)

  /** What was asked in between. */
  ghost function Since(before: Moment, after: Moment): seq<Call> {
    if before.calls <= after.calls then after.calls[|before.calls|..] else []
  }

  /** The processes of RUNNING, STOPPING and RESTARTING handles. */
  ghost function HeldPids(hs: seq<Handle>): set<int> {
    set i | 0 <= i < |hs| && HasProcess(hs[i]) :: hs[i].pid
  }

  /** The command did to the first handle of its id, or the health check to all of them, what it is for; and it asked
      the system for nothing else. */
  ghost predicate Did(c: Command, before: Moment, after: Moment) {
    && before.calls <= after.calls
    && if c.HealthCheck? then exists said: seq<seq<Call>> :: Checked(before, after, said)
       else exists at: Option<nat> :: FirstOf(before.handles, at, c.id) && DidTo(c, before, after, at)
  }

  ghost predicate DidTo(c: Command, before: Moment, after: Moment, at: Option<nat>)
    requires !c.HealthCheck?
  {
    if at.None? then after == before
    else
      && at.value < |before.handles| == |after.handles|
      && after.handles == before.handles[at.value := after.handles[at.value]]
      && var h, now, said := before.handles[at.value], after.handles[at.value], Since(before, after);
         if c.StartCommand? then Started(h, now, before.children, after.children, said)
         else if c.StopCommand? then now == StoppedHandle(h) && after.children == before.children && said == Term(h)
         else Restarted(h, now, before.children, after.children, said)
  }

  /** Every process was asked after, handles changed as the answers say, and of the children exactly those of handles
      were exchanged. */
  ghost predicate Checked(before: Moment, after: Moment, said: seq<seq<Call>>) {
    && |said| == |before.handles| == |after.handles| && Since(before, after) == Joined(said)
    && (forall i :: 0 <= i < |said| ==> HealthStep(before.handles[i], after.handles[i], said[i]))
    && after.children == HeldPids(after.handles) + (before.children - HeldPids(before.handles))
  }

  /** A start or restart names no plugin that is on its way out. */
  ghost predicate IsSafe(c: Command, hs: seq<Handle>) {
    c.StartCommand? || c.RestartCommand? ==>
      forall at: Option<nat> :: FirstOf(hs, at, c.id) && at.Some? ==> MayStart(hs[at.value])
  }

  lemma FirstIsOne(hs: seq<Handle>, at: Option<nat>, to: Option<nat>, id: bytes)
    requires FirstOf(hs, at, id) && FirstOf(hs, to, id)
    ensures at == to
  {
  }

  /** One command. */
  method Obey(m: PluginMgr, c: Command)
    requires m.Valid()
    modifies m.plugins, m.kernel
    ensures m.Valid() && Did(c, old(m.Now()), m.Now())
    ensures m.Ok() <==> old(m.Ok()) && IsSafe(c, old(m.plugins[..]))
  {
    hide Tracked, Supervised, Unheld, Started, Restarted, HealthStep, Joined, HeldPids;
    m.OkIsNothingLost();
    ghost var before := m.Now();
    HeldOrNot(before.handles, before.children);
    match c {
      case StartCommand(id) =>
        var _, at, said := m.Start(id);
        assert Since(before, m.Now()) == said;
        assert DidTo(c, before, m.Now(), at);
        SafeAt(c, before.handles, at, id);
      case StopCommand(id) =>
        var _, at := m.Stop(id);
        assert at.Some? ==> Since(before, m.Now()) == Term(before.handles[at.value]);
        assert DidTo(c, before, m.Now(), at);
      case RestartCommand(id) =>
        var _, at, said := m.Restart(id);
        assert Since(before, m.Now()) == said;
        assert DidTo(c, before, m.Now(), at);
        SafeAt(c, before.handles, at, id);
      case HealthCheck =>
        var _, said := m.CheckHealth();
        HeldOrNot(m.Now().handles, m.Now().children);
        assert Since(before, m.Now()) == Joined(said);
        assert Checked(before, m.Now(), said);
    }
    m.OkIsNothingLost();
  }

  /** The children are those that handles have and those that none has. */
  lemma HeldOrNot(hs: seq<Handle>, children: set<int>)
    requires Tracked(hs, children)
    ensures Unheld(hs, children) == children - HeldPids(hs) && children == HeldPids(hs) + Unheld(hs, children)
  {
    forall pid
      ensures Held(hs, pid) <==> pid in HeldPids(hs)
    {
      if pid in HeldPids(hs) {
        var i :| 0 <= i < |hs| && HasProcess(hs[i]) && hs[i].pid == pid;
        assert Holds(hs, i, pid);
      }
    }
  }

  lemma SafeAt(c: Command, hs: seq<Handle>, at: Option<nat>, id: bytes)
    requires (c.StartCommand? || c.RestartCommand?) && c.id == id && FirstOf(hs, at, id)
    ensures IsSafe(c, hs) <==> at.None? || MayStart(hs[at.value])
    ensures at.Some? ==> (LostBy(hs[at.value]) == {} <==> MayStart(hs[at.value]))
  {
    forall to | FirstOf(hs, to, id)
      ensures to == at
    {
      FirstIsOne(hs, at, to, id);
    }
  }

  /** Any run of commands and health checks, with all moments from the first to the last: each command did what it is
      for, process ids stay tracked, and our processes are accounted for after a command exactly if they were before
      and it was safe. */
  method Supervise(m: PluginMgr, commands: seq<Command>) returns (ghost moments: seq<Moment>)
    requires m.Valid()
    modifies m.plugins, m.kernel
    ensures m.Valid() && |moments| == |commands| + 1
    ensures moments[0] == old(m.Now()) && moments[|commands|] == m.Now()
    ensures forall n :: 0 <= n < |commands| ==>
              && Did(commands[n], moments[n], moments[n + 1])
              && (AccountedFor(moments[n + 1]) <==> AccountedFor(moments[n]) && IsSafe(commands[n], moments[n].handles))
    ensures forall n :: 0 <= n < |moments| ==> Tracked(moments[n].handles, moments[n].children)
  {
    hide Tracked, Supervised, Did, IsSafe;
    moments := [m.Now()];
    for n := 0 to |commands|
      invariant m.Valid() && |moments| == n + 1 && moments[n] == m.Now() && moments[0] == old(m.Now())
      invariant forall k :: 0 <= k < n ==>
                  && Did(commands[k], moments[k], moments[k + 1])
                  && (AccountedFor(moments[k + 1]) <==>
                      AccountedFor(moments[k]) && IsSafe(commands[k], moments[k].handles))
      invariant forall k :: 0 <= k <= n ==> Tracked(moments[k].handles, moments[k].children)
    {
      Obey(m, commands[n]);
      moments := moments + [m.Now()];
    }
  }

  /** Such a run and the end of it: what is left are the processes that no handle had the id of; killed are exactly
      those that were asked after 30 times and had not ended. */
  method SuperviseToEnd(m: PluginMgr, commands: seq<Command>)
    returns (ghost moments: seq<Moment>, ghost rounds: seq<seq<bool>>, ghost said: seq<Call>)
    requires m.Valid()
    modifies m.plugins, m.kernel
    ensures |moments| == |commands| + 1 && moments[0] == old(m.Now())
    ensures forall n :: 0 <= n < |commands| ==> Did(commands[n], moments[n], moments[n + 1])
    ensures var last := moments[|commands|];
            && m.kernel.children == Unnamed(last.handles, last.children) && m.kernel.calls == last.calls + said
            && Stops(last.handles, rounds, said) && KilledIfDeaf(last.handles, said)
    ensures AccountedFor(moments[0]) &&
            (forall n :: 0 <= n < |commands| ==> IsSafe(commands[n], moments[n].handles)) ==>
              m.kernel.children == {}
  {
    hide Tracked, Supervised, Unnamed, Did, IsSafe, Stops, KilledIfDeaf;
    moments := Supervise(m, commands);
    StaysAccountedFor(commands, moments, |commands|);
    rounds, said := m.StopAll();
  }

  lemma {:induction false} StaysAccountedFor(commands: seq<Command>, moments: seq<Moment>, n: nat)
    requires n <= |commands| < |moments|
    requires forall k :: 0 <= k < |commands| ==>
               (AccountedFor(moments[k + 1]) <==> AccountedFor(moments[k]) && IsSafe(commands[k], moments[k].handles))
    ensures AccountedFor(moments[0]) && (forall k :: 0 <= k < n ==> IsSafe(commands[k], moments[k].handles)) ==>
              AccountedFor(moments[n])
  {
    hide IsSafe, AccountedFor;
    if n > 0 {
      StaysAccountedFor(commands, moments, n - 1);
    }
  }

  ghost predicate AccountedFor(m: Moment) {
    Supervised(m.handles, m.children)
  }

  /** Starting a plugin that is STOPPING, with process 7: whatever comes of it, that process is lost. */
  lemma StartWhileStopping()
    ensures var h := Handle([97], Stopping, 7);
            && Supervised([h], {7})
            && forall after, left, said :: Started(h, after, {7}, left, said) ==> !Supervised([after], left)
  {
    var h := Handle([97], Stopping, 7);
    assert Holds([h], 0, 7);
    forall after, left, said | Started(h, after, {7}, left, said)
      ensures !Supervised([after], left)
    {
      StartsMeans(h, after, said);
      assert 7 in left && !Held([after], 7);
    }
  }

  /** A plugin that does not run, whose file is executable and whose process is given the id 7, runs with that id. */
  lemma StartOfStopped(after: Handle, left: set<int>)
    ensures Started(Handle([97], Stopped, 0), after, {}, left, [Accessed(true), Forked(7)]) <==>
            after == Handle([97], Running, 7) && left == {7}
  {
    var h, said := Handle([97], Stopped, 0), [Accessed(true), Forked(7)];
    assert said[1] == Forked(7) && said != [Accessed(true), Forked(-1)] && said != [Accessed(false)];
    if Started(h, after, {}, left, said) {
      StartsMeans(h, after, said);
    }
    if after == Handle([97], Running, 7) && left == {7} {
      StartsMeans(h, after, said);
    }
  }
}
