/** The lock of `ScopeRunner` in `utility.hpp`, as the interleaving of its atomic steps: the load of the counter, each
    weak compare-and-exchange (which may fail though the values agree), and the decrement when a lock is destroyed. */
module ScopeRunner {

  type Thread = nat
  type Lock = nat

  /** Where a thread is: outside, before a compare-and-exchange of `continue_lock`, or before one of `stop`. */
  datatype Phase = Outside | Continuing(expected: int) | Stopping

  datatype Event = Granted(lock: Lock) | Refused | Released(lock: Lock) | Stopped

  /** `locks` are the locks not yet destroyed; `log` is the history of what the calls returned. */
  datatype State = State(count: int, threads: map<Thread, Phase>, issued: nat, locks: set<Lock>, log: seq<Event>) {

    function PhaseOf(t: Thread): Phase {
      if t in threads then threads[t] else Outside
    }

    function Moved(t: Thread, phase: Phase): State {
      this.(threads := threads[t := phase])
    }

    function Returned(t: Thread, e: Event): State {
      this.(threads := threads[t := Outside], log := log + [e])
    }
  }

  datatype Action =
    | LoadCount(thread: Thread)
    | TryContinue(thread: Thread, spurious: bool)
    | Release(lock: Lock)
    | EnterStop(thread: Thread)
    | TryStop(thread: Thread, spurious: bool)

  const INITIAL := State(0, map[], 0, {}, [])

  /** One atomic step; an action that is not possible in `s` changes nothing. */
  function Apply(s: State, a: Action): State {
    match a
    case LoadCount(t) => if s.PhaseOf(t).Outside? then s.Moved(t, Continuing(s.count)) else s
    case TryContinue(t, spurious) =>
      (match s.PhaseOf(t)
       case Continuing(expected) =>
         if expected < 0 then s.Returned(t, Refused)
         else if expected == s.count && !spurious then
           s.Returned(t, Granted(s.issued)).(count := s.count + 1, issued := s.issued + 1,
                                             locks := s.locks + {s.issued})
         else s.Moved(t, Continuing(s.count))
       case _ => s)
    case Release(l) =>
      if l in s.locks then s.(count := s.count - 1, locks := s.locks - {l}, log := s.log + [Released(l)]) else s
    case EnterStop(t) => if s.PhaseOf(t).Outside? then s.Moved(t, Stopping) else s
    case TryStop(t, spurious) =>
      if !s.PhaseOf(t).Stopping? then s
      else if s.count == 0 && !spurious then s.Returned(t, Stopped).(count := -1)
      else if s.count < 0 then s.Returned(t, Stopped)
      else s
  }

  function Run(s: State, actions: seq<Action>): State {
    if actions == [] then s else Apply(Run(s, actions[..|actions| - 1]), actions[|actions| - 1])
  }

  // --- What every run keeps ---

  function Grants(log: seq<Event>): nat {
    if log == [] then 0 else Grants(log[..|log| - 1]) + if log[|log| - 1].Granted? then 1 else 0
  }

  function Releases(log: seq<Event>): nat {
    if log == [] then 0 else Releases(log[..|log| - 1]) + if log[|log| - 1].Released? then 1 else 0
  }

  lemma LogGrows(log: seq<Event>, e: Event)
    ensures Grants(log + [e]) == Grants(log) + if e.Granted? then 1 else 0
    ensures Releases(log + [e]) == Releases(log) + if e.Released? then 1 else 0
  {
    assert (log + [e])[..|log|] == log;
  }

  /** The counter is the number of outstanding locks, or -1 without any. */
  ghost predicate Inv(s: State) {
    && (s.count == |s.locks| || (s.count == -1 && s.locks == {}))
    && (forall l | l in s.locks :: l < s.issued)
    && Grants(s.log) == s.issued
    && Grants(s.log) == Releases(s.log) + |s.locks|
  }

  /** The scope is closed exactly when a `stop` has returned; only then does a call find a negative counter. */
  ghost predicate ClosedInv(s: State) {
    && s.count >= -1
    && (Stopped in s.log <==> s.count == -1)
    && (Refused in s.log ==> s.count == -1)
    && (forall t | t in s.threads && s.threads[t].Continuing? && s.threads[t].expected < 0 :: s.count == -1)
  }

  lemma StepKeepsClosedInv(s: State, a: Action)
    requires Inv(s) && ClosedInv(s)
    ensures ClosedInv(Apply(s, a))
  {
    if a.Release? && a.lock in s.locks {
      assert |s.locks| > 0;
    }
  }

  lemma StepKeepsInv(s: State, a: Action)
    requires Inv(s)
    ensures Inv(Apply(s, a))
  {
    var s' := Apply(s, a);
    if s'.log != s.log {
      var e := s'.log[|s.log|];
      assert s'.log == s.log + [e];
      LogGrows(s.log, e);
    }
  }

  lemma {:induction false} RunKeepsInv(actions: seq<Action>)
    ensures Inv(Run(INITIAL, actions)) && ClosedInv(Run(INITIAL, actions))
  {
    if actions != [] {
      RunKeepsInv(actions[..|actions| - 1]);
      StepKeepsClosedInv(Run(INITIAL, actions[..|actions| - 1]), actions[|actions| - 1]);
      StepKeepsInv(Run(INITIAL, actions[..|actions| - 1]), actions[|actions| - 1]);
    }
  }

  /** Until a `stop` returns, the counter is the number of locks granted and not destroyed; from then on it is -1 and
      every granted lock has been destroyed. */
  lemma CountIsOutstanding(actions: seq<Action>)
    ensures var s := Run(INITIAL, actions);
            if Stopped in s.log then s.count == -1 && s.locks == {} && Grants(s.log) == Releases(s.log)
            else s.count == |s.locks| == Grants(s.log) - Releases(s.log)
  {
    RunKeepsInv(actions);
  }

  /** A step closes the scope only as an unfailing compare-and-exchange of `stop` that finds no lock outstanding. */
  lemma ClosesWithoutLocks(s: State, a: Action)
    requires Inv(s)
    ensures s.count >= 0 && Apply(s, a).count < 0
       <==> a.TryStop? && s.PhaseOf(a.thread).Stopping? && !a.spurious && s.count == 0
    ensures s.count >= 0 && Apply(s, a).count < 0 ==> s.locks == {}
  {
    if a.Release? && a.lock in s.locks {
      assert |s.locks| > 0;
    }
  }

  /** What has happened between two states of a run. */
  predicate OnlyRefusals(before: seq<Event>, after: seq<Event>) {
    |before| <= |after| && before == after[..|before|]
    && forall i | |before| <= i < |after| :: after[i] == Refused || after[i] == Stopped
  }

  lemma StepStaysClosed(s: State, a: Action)
    requires s.count == -1 && s.locks == {}
    ensures var s' := Apply(s, a);
            s'.count == -1 && s'.locks == {} && s'.issued == s.issued && OnlyRefusals(s.log, s'.log)
  {
  }

  /** Once closed, always closed: whatever follows, no call gets a lock, even one that had read the counter before. */
  lemma {:induction false} ClosedForever(s: State, actions: seq<Action>)
    requires s.count == -1 && s.locks == {}
    ensures var s' := Run(s, actions);
            s'.count == -1 && s'.locks == {} && s'.issued == s.issued && OnlyRefusals(s.log, s'.log)
  {
    if actions != [] {
      var init := Run(s, actions[..|actions| - 1]);
      ClosedForever(s, actions[..|actions| - 1]);
      StepStaysClosed(init, actions[|actions| - 1]);
      var s' := Apply(init, actions[|actions| - 1]);
      assert s'.log[..|s.log|] == init.log[..|s.log|];
    }
  }

  // --- Both calls can always finish ---

  lemma RunAppend(s: State, xs: seq<Action>, ys: seq<Action>)
    ensures Run(s, xs + ys) == Run(Run(s, xs), ys)
    decreases |ys|
  {
    if ys == [] {
      assert xs + ys == xs;
    } else {
      assert (xs + ys)[..|xs + ys| - 1] == xs + ys[..|ys| - 1];
      RunAppend(s, xs, ys[..|ys| - 1]);
    }
  }

  lemma RunOne(s: State, a: Action)
    ensures Run(s, [a]) == Apply(s, a)
  {
    assert [a][..0] == [];
  }

  /** The locks can be destroyed one after the other. */
  lemma {:induction false} ReleaseAll(s: State) returns (actions: seq<Action>)
    requires Inv(s) && s.count >= 0
    ensures var s' := Run(s, actions);
            s'.count == 0 && s'.threads == s.threads && forall i | 0 <= i < |actions| :: actions[i].Release?
    decreases |s.locks|
  {
    if s.locks == {} {
      actions := [];
    } else {
      var l :| l in s.locks;
      StepKeepsInv(s, Release(l));
      var rest := ReleaseAll(Apply(s, Release(l)));
      RunOne(s, Release(l));
      RunAppend(s, [Release(l)], rest);
      actions := [Release(l)] + rest;
    }
  }

  /** `stop` waits for nothing but the locks: once they are destroyed its next unfailing attempt returns. */
  lemma StopCanFinish(s: State, t: Thread) returns (releases: seq<Action>)
    requires Inv(s) && s.PhaseOf(t).Stopping?
    ensures forall i | 0 <= i < |releases| :: releases[i].Release?
    ensures var s' := Run(s, releases + [TryStop(t, false)]);
            s'.count == -1 && s'.PhaseOf(t).Outside? && Stopped in s'.log
  {
    releases := [];
    if s.count >= 0 {
      releases := ReleaseAll(s);
    }
    RunAppend(s, releases, [TryStop(t, false)]);
    RunOne(Run(s, releases), TryStop(t, false));
  }

  /** A call of `continue_lock` that is not disturbed returns in two attempts, with a lock exactly when the scope is
      open. */
  lemma ContinueCanFinish(actions: seq<Action>, t: Thread)
    requires Run(INITIAL, actions).PhaseOf(t).Continuing?
    ensures var s := Run(INITIAL, actions);
            var s' := Apply(Apply(s, TryContinue(t, false)), TryContinue(t, false));
            && s'.PhaseOf(t).Outside?
            && s'.log == s.log + [if Stopped in s.log then Refused else Granted(s.issued)]
            && (Stopped !in s.log ==> s'.locks == s.locks + {s.issued} && s.issued !in s.locks)
  {
    RunKeepsInv(actions);
  }

  /** So a whole call that is not disturbed returns in one attempt, from any state in which the thread is in no call. */
  lemma ContinueReturns(actions: seq<Action>, t: Thread)
    requires Run(INITIAL, actions).PhaseOf(t).Outside?
    ensures var s := Run(INITIAL, actions);
            var s' := Run(s, [LoadCount(t), TryContinue(t, false)]);
            && s'.PhaseOf(t).Outside?
            && s'.log == s.log + [if Stopped in s.log then Refused else Granted(s.issued)]
            && (Stopped !in s.log ==> s'.locks == s.locks + {s.issued} && s.issued !in s.locks)
  {
    var s := Run(INITIAL, actions);
    RunKeepsInv(actions);
    RunOne(s, LoadCount(t));
    RunOne(Run(s, [LoadCount(t)]), TryContinue(t, false));
    RunAppend(s, [LoadCount(t)], [TryContinue(t, false)]);
    assert [LoadCount(t)] + [TryContinue(t, false)] == [LoadCount(t), TryContinue(t, false)];
  }

  /** And a whole call of `stop` returns once the locks are destroyed. */
  lemma StopReturns(actions: seq<Action>, t: Thread) returns (releases: seq<Action>)
    requires Run(INITIAL, actions).PhaseOf(t).Outside?
    ensures forall i | 0 <= i < |releases| :: releases[i].Release?
    ensures var s' := Run(Run(INITIAL, actions), [EnterStop(t)] + (releases + [TryStop(t, false)]));
            s'.count == -1 && s'.PhaseOf(t).Outside? && Stopped in s'.log
  {
    var s := Run(INITIAL, actions);
    RunKeepsInv(actions);
    StepKeepsInv(s, EnterStop(t));
    releases := StopCanFinish(Apply(s, EnterStop(t)), t);
    RunOne(s, EnterStop(t));
    RunAppend(s, [EnterStop(t)], releases + [TryStop(t, false)]);
  }

  /** `continue_lock` refuses only when a `stop` has returned. */
  lemma RefusedOnlyWhenClosed(actions: seq<Action>)
    ensures Refused in Run(INITIAL, actions).log ==> Stopped in Run(INITIAL, actions).log
  {
    RunKeepsInv(actions);
  }
}
