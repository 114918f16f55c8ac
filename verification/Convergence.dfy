/** Chains reach equal length when the membership is fixed and complete and no message is lost. */
module Convergence {
  import opened Hashing
  import opened BlockChain
  import opened Network

  /** Nobody is joining, and every node knows every other node. */
  ghost predicate FullMembership(s: State) {
    && s.joiners == map[]
    && forall p, q | p in s.nodes && q in s.nodes && p != q :: q in s.nodes[p].peers
  }

  /** Nothing is lost and nobody joins or leaves. */
  predicate Reliable(a: Action) {
    a.Local? || a.Deliver?
  }

  predicate AllReliable(actions: seq<Action>) {
    forall i | 0 <= i < |actions| :: Reliable(actions[i])
  }

  /** The node is committed to sending `m` a chain of at least the given length. */
  ghost predicate Promises(n: Node, m: Port, length: nat) {
    || (n.phase.Tried? && |n.chain| >= length && m in n.peers)
    || (n.phase.Sending? && |n.phase.sent| >= length && exists i | n.phase.next <= i < |n.peers| :: n.peers[i] == m)
  }

  ghost predicate OnItsWay(s: State, m: Port, length: nat) {
    exists c | c in s.inFlight :: c.to == m && |c.chain| >= length
  }

  ghost predicate Promised(s: State, m: Port, length: nat) {
    exists k | k in s.nodes :: Promises(s.nodes[k], m, length)
  }

  /** Node `m` has a chain of this length, or will be offered one. */
  ghost predicate Covered(s: State, m: Port, length: nat)
    requires m in s.nodes
  {
    |s.nodes[m].chain| >= length || OnItsWay(s, m, length) || Promised(s, m, length)
  }

  ghost predicate Held(s: State, length: nat) {
    exists p | p in s.nodes ::
      |s.nodes[p].chain| == length || (s.nodes[p].phase.Sending? && |s.nodes[p].phase.sent| == length)
  }

  ghost predicate Travels(s: State, length: nat) {
    exists c | c in s.inFlight :: |c.chain| == length
  }

  /** Whatever length occurs anywhere, every node has it or will be offered it. */
  ghost predicate AllCovered(s: State) {
    forall length: nat, m | m in s.nodes && (Held(s, length) || Travels(s, length)) :: Covered(s, m, length)
  }

  /** Between trying to add a block and finishing its broadcast. */
  ghost predicate Busy(n: Node) {
    n.phase.Tried? || n.phase.Sending?
  }

  /** No message in flight, and nobody between adding a block and finishing its broadcast. */
  ghost predicate Quiet(s: State) {
    s.inFlight == multiset{} && forall p | p in s.nodes :: !Busy(s.nodes[p])
  }

  ghost predicate EqualLengths(s: State) {
    forall p, q | p in s.nodes && q in s.nodes :: |s.nodes[p].chain| == |s.nodes[q].chain|
  }

  lemma QuietLengths(s: State)
    requires AllCovered(s) && Quiet(s)
    ensures EqualLengths(s)
  {
    forall p, q | p in s.nodes && q in s.nodes ensures |s.nodes[q].chain| >= |s.nodes[p].chain| {
      assert Held(s, |s.nodes[p].chain|);
      assert Covered(s, q, |s.nodes[p].chain|);
    }
  }

  // --- A step of the command loop of `p` ---

  /** A promise is kept, or turned into a message. */
  lemma PromiseKept(h: Hasher, n: Node, step: LocalStep, m: Port, length: nat)
    requires |n.chain| > 0 && Promises(n, m, length)
    ensures var e := NodeStep(h, n, step);
            Promises(e.node, m, length) || (exists c | c in e.sent :: c.to == m && |c.chain| >= length)
  {
    var e := NodeStep(h, n, step);
    if n.phase.Sending? {
      var i :| n.phase.next <= i < |n.peers| && n.peers[i] == m;
      if step == SendNext {
        if i == n.phase.next {
          assert Message(m, n.phase.sent) in e.sent;
        } else {
          assert e.node.peers[i] == m;
        }
      } else {
        assert e.node == n;
      }
    } else if step == TakeSnapshot {
      var i :| 0 <= i < |n.peers| && n.peers[i] == m;
      assert e.node.peers[i] == m;
    }
  }

  lemma LocalKeepsCovered(h: Hasher, s: State, p: Port, step: LocalStep, m: Port, length: nat)
    requires Inv(h, s) && p in s.nodes && m in s.nodes && Covered(s, m, length)
    ensures var s' := Apply(h, s, Local(p, step));
            m in s'.nodes && Covered(s', m, length)
  {
    var s' := Apply(h, s, Local(p, step));
    NodeStepOk(h, s.hashed, s.nodes[p], step);
    if |s.nodes[m].chain| >= length {
      assert |s'.nodes[m].chain| >= |s.nodes[m].chain|;
    } else if OnItsWay(s, m, length) {
      var c :| c in s.inFlight && c.to == m && |c.chain| >= length;
      assert c in s'.inFlight;
    } else {
      var k :| k in s.nodes && Promises(s.nodes[k], m, length);
      if k == p {
        PromiseKept(h, s.nodes[p], step, m, length);
        if Promises(s'.nodes[p], m, length) {
        } else {
          var c :| c in NodeStep(h, s.nodes[p], step).sent && c.to == m && |c.chain| >= length;
          assert c in s'.inFlight;
        }
      } else {
        assert Promises(s'.nodes[k], m, length);
      }
    }
  }

  lemma HeldOrigin(h: Hasher, s: State, p: Port, step: LocalStep, k: Port, length: nat)
    requires Inv(h, s) && p in s.nodes && k in s.nodes
    requires var n' := Apply(h, s, Local(p, step)).nodes[k];
             |n'.chain| == length || (n'.phase.Sending? && |n'.phase.sent| == length)
    ensures var n' := Apply(h, s, Local(p, step)).nodes[p];
            Held(s, length) || (n'.phase.Tried? && |n'.chain| == length)
  {
    var n := s.nodes[p];
    var e := NodeStep(h, n, step);
    if k == p && !e.node.phase.Tried? {
      assert e.node.chain == n.chain;
      assert e.node.phase.Sending? ==> e.node.phase.sent == if n.phase.Sending? then n.phase.sent else n.chain;
    }
  }

  /** A length that a local step brings up was there before, or is that of a chain the node is about to send round. */
  lemma LocalOrigin(h: Hasher, s: State, p: Port, step: LocalStep, length: nat)
    requires Inv(h, s) && p in s.nodes
    requires var s' := Apply(h, s, Local(p, step)); Held(s', length) || Travels(s', length)
    ensures var n' := Apply(h, s, Local(p, step)).nodes[p];
            Held(s, length) || Travels(s, length) || (n'.phase.Tried? && |n'.chain| == length)
  {
    var s' := Apply(h, s, Local(p, step));
    if Held(s', length) {
      var k :| k in s'.nodes
        && (|s'.nodes[k].chain| == length || (s'.nodes[k].phase.Sending? && |s'.nodes[k].phase.sent| == length));
      HeldOrigin(h, s, p, step, k, length);
    } else {
      var c :| c in s'.inFlight && |c.chain| == length;
      assert c in s.inFlight ==> Travels(s, length);
      assert Held(s, length) || c in s.inFlight;
    }
  }

  lemma LocalKeepsAllCovered(h: Hasher, s: State, p: Port, step: LocalStep)
    requires Inv(h, s) && FullMembership(s) && AllCovered(s)
    ensures AllCovered(Apply(h, s, Local(p, step))) && FullMembership(Apply(h, s, Local(p, step)))
  {
    if p in s.nodes {
      var s' := Apply(h, s, Local(p, step));
      NodeStepOk(h, s.hashed, s.nodes[p], step);
      forall length: nat, m | m in s'.nodes && (Held(s', length) || Travels(s', length))
        ensures Covered(s', m, length)
      {
        LocalOrigin(h, s, p, step, length);
        if Held(s, length) || Travels(s, length) {
          LocalKeepsCovered(h, s, p, step, m, length);
        } else if m != p {
          assert Promises(s'.nodes[p], m, length);
        }
      }
    }
  }

  // --- A delivery ---

  lemma DeliverKeepsCovered(h: Hasher, s: State, c: Message, m: Port, length: nat)
    requires Inv(h, s) && c in s.inFlight && m in s.nodes && Covered(s, m, length)
    ensures var s' := Apply(h, s, Deliver(c));
            m in s'.nodes && Covered(s', m, length)
  {
    var s' := Apply(h, s, Deliver(c));
    DeliverMoves(h, s, c, m);
    if |s.nodes[m].chain| >= length {
    } else if OnItsWay(s, m, length) {
      var d :| d in s.inFlight && d.to == m && |d.chain| >= length;
      if d == c {
        assert NodeOk(h, s.hashed, s.nodes[m]);
        DeliveryAdopts(h, s.hashed, s.nodes[m].chain, c.chain);
      } else {
        assert d in s'.inFlight;
      }
    } else {
      var k :| k in s.nodes && Promises(s.nodes[k], m, length);
      DeliverMoves(h, s, c, k);
      assert Promises(s'.nodes[k], m, length);
    }
  }

  lemma DeliverKeepsAllCovered(h: Hasher, s: State, c: Message)
    requires Inv(h, s) && FullMembership(s) && AllCovered(s)
    ensures AllCovered(Apply(h, s, Deliver(c))) && FullMembership(Apply(h, s, Deliver(c)))
  {
    if c in s.inFlight {
      var s' := Apply(h, s, Deliver(c));
      forall length: nat, m | m in s'.nodes && (Held(s', length) || Travels(s', length))
        ensures Covered(s', m, length)
      {
        assert Held(s, length) || Travels(s, length) by {
          if Held(s', length) {
            var k :| k in s'.nodes
              && (|s'.nodes[k].chain| == length || (s'.nodes[k].phase.Sending? && |s'.nodes[k].phase.sent| == length));
            DeliverMoves(h, s, c, k);
            if s'.nodes[k].chain != s.nodes[k].chain && |s'.nodes[k].chain| == length {
              assert Travels(s, length);
            } else {
              assert Held(s, length);
            }
          } else {
            var d :| d in s'.inFlight && |d.chain| == length;
            assert d in s.inFlight;
          }
        }
        DeliverKeepsCovered(h, s, c, m, length);
      }
    }
  }

  // --- Whole runs ---

  lemma {:induction false} RunKeepsAllCovered(h: Hasher, s: State, actions: seq<Action>)
    requires Inv(h, s) && FullMembership(s) && AllCovered(s)
    requires AllReliable(actions)
    ensures var s' := Run(h, s, actions);
            Inv(h, s') && FullMembership(s') && AllCovered(s')
    decreases |actions|
  {
    if actions != [] {
      StepKeepsInv(h, s, actions[0]);
      match actions[0] {
        case Local(p, step) => LocalKeepsAllCovered(h, s, p, step);
        case Deliver(c) => DeliverKeepsAllCovered(h, s, c);
      }
      RunKeepsAllCovered(h, Apply(h, s, actions[0]), actions[1..]);
    }
  }

  /** A network at rest with equal lengths is where such runs start. */
  lemma RestIsCovered(s: State)
    requires Quiet(s) && EqualLengths(s)
    ensures AllCovered(s)
  {
  }

  /** Starting at rest with equal lengths and complete membership, after any reliable run in which every broadcast
      was finished and every message delivered, all nodes have chains of equal length again. */
  lemma QuietNodesHaveEqualLength(h: Hasher, s: State, actions: seq<Action>)
    requires Inv(h, s) && FullMembership(s) && Quiet(s) && EqualLengths(s)
    requires AllReliable(actions)
    requires Quiet(Run(h, s, actions))
    ensures EqualLengths(Run(h, s, actions))
  {
    RestIsCovered(s);
    RunKeepsAllCovered(h, s, actions);
    QuietLengths(Run(h, s, actions));
  }

  /** At any moment of such a run, a node that is behind another is about to be sent, or is being sent, a chain at
      least as long. */
  lemma LaggingNodeIsOffered(h: Hasher, s: State, actions: seq<Action>, p: Port, q: Port)
    requires Inv(h, s) && FullMembership(s) && Quiet(s) && EqualLengths(s)
    requires AllReliable(actions)
    requires var s' := Run(h, s, actions);
             p in s'.nodes && q in s'.nodes && |s'.nodes[q].chain| < |s'.nodes[p].chain|
    ensures var s' := Run(h, s, actions);
            OnItsWay(s', q, |s'.nodes[p].chain|) || Promised(s', q, |s'.nodes[p].chain|)
  {
    RestIsCovered(s);
    RunKeepsAllCovered(h, s, actions);
    var s' := Run(h, s, actions);
    assert Held(s', |s'.nodes[p].chain|);
    assert Covered(s', q, |s'.nodes[p].chain|);
  }

  // --- A quiet state can always be reached ---

  predicate AddsNothing(a: Action) {
    Reliable(a) && (a.Local? ==> a.step != AddMined)
  }

  predicate AllAddNothing(actions: seq<Action>) {
    forall i | 0 <= i < |actions| :: AddsNothing(actions[i])
  }

  ghost function BusyPorts(s: State): set<Port> {
    set p | p in s.nodes && Busy(s.nodes[p])
  }

  lemma Prepend(h: Hasher, s: State, a: Action, rest: seq<Action>)
    ensures Run(h, s, [a] + rest) == Run(h, Apply(h, s, a), rest)
  {
    assert ([a] + rest)[1..] == rest;
  }

  /** Steps left until the node has finished its broadcast. */
  function StepsLeft(n: Node): nat {
    match n.phase
    case Tried => |n.peers| + 2
    case Sending(_, next) => if next < |n.peers| then |n.peers| - next + 1 else 1
    case _ => 0
  }

  function NextStep(n: Node): LocalStep {
    if n.phase.Tried? then TakeSnapshot else if StepsLeft(n) == 1 then FinishSending else SendNext
  }

  /** No node takes a step while a message is in flight: a client call returns only with the answer. */
  ghost predicate Answered(h: Hasher, s: State, actions: seq<Action>)
    decreases |actions|
  {
    actions == []
    || ((actions[0].Local? ==> s.inFlight == multiset{}) && Answered(h, Apply(h, s, actions[0]), actions[1..]))
  }

  lemma {:induction false} AnsweredAppend(h: Hasher, s: State, xs: seq<Action>, ys: seq<Action>)
    requires Answered(h, s, xs) && Answered(h, Run(h, s, xs), ys)
    ensures Answered(h, s, xs + ys)
    decreases |xs|
  {
    if xs == [] {
      assert xs + ys == ys;
    } else {
      assert (xs + ys)[1..] == xs[1..] + ys;
      AnsweredAppend(h, Apply(h, s, xs[0]), xs[1..], ys);
    }
  }

  lemma DeliverProgress(h: Hasher, s: State, c: Message)
    requires Inv(h, s) && c in s.inFlight
    ensures var s' := Apply(h, s, Deliver(c));
            && Inv(h, s') && s'.inFlight == s.inFlight - multiset{c} && s'.nodes.Keys == s.nodes.Keys
            && forall p | p in s.nodes :: s'.nodes[p].phase == s.nodes[p].phase && s'.nodes[p].peers == s.nodes[p].peers
  {
    StepKeepsInv(h, s, Deliver(c));
  }

  lemma SamePhases(s: State, t: State)
    requires t.nodes.Keys == s.nodes.Keys && forall p | p in s.nodes :: t.nodes[p].phase == s.nodes[p].phase
    ensures BusyPorts(t) == BusyPorts(s)
  {
    assert forall p: Port :: p in t.nodes <==> p in s.nodes;
    assert forall p: Port :: p in BusyPorts(t) <==> p in BusyPorts(s);
  }

  /** Everything in flight can be answered. */
  lemma {:induction false} DeliverAll(h: Hasher, s: State) returns (actions: seq<Action>)
    requires Inv(h, s)
    ensures AllAddNothing(actions) && Answered(h, s, actions)
    ensures var s' := Run(h, s, actions);
            Inv(h, s') && s'.inFlight == multiset{} && BusyPorts(s') == BusyPorts(s)
    decreases |s.inFlight|
  {
    actions := [];
    if s.inFlight != multiset{} {
      var c :| c in s.inFlight;
      DeliverProgress(h, s, c);
      SamePhases(s, Apply(h, s, Deliver(c)));
      assert |s.inFlight - multiset{c}| < |s.inFlight|;
      var rest := DeliverAll(h, Apply(h, s, Deliver(c)));
      actions := [Deliver(c)] + rest;
      Prepend(h, s, Deliver(c), rest);
      assert actions[1..] == rest;
    }
  }

  lemma NextStepProgress(h: Hasher, s: State, p: Port)
    requires Inv(h, s) && p in s.nodes && Busy(s.nodes[p]) && s.inFlight == multiset{}
    ensures var s' := Apply(h, s, Local(p, NextStep(s.nodes[p])));
            && Inv(h, s') && s'.nodes.Keys == s.nodes.Keys && |s'.inFlight| <= 1
            && StepsLeft(s'.nodes[p]) == StepsLeft(s.nodes[p]) - 1
            && BusyPorts(s') == if StepsLeft(s'.nodes[p]) == 0 then BusyPorts(s) - {p} else BusyPorts(s)
  {
    StepKeepsInv(h, s, Local(p, NextStep(s.nodes[p])));
  }

  lemma AnswerOne(h: Hasher, s: State) returns (actions: seq<Action>)
    requires Inv(h, s) && |s.inFlight| <= 1
    ensures AllAddNothing(actions) && Answered(h, s, actions)
    ensures var s' := Run(h, s, actions);
            && Inv(h, s') && s'.inFlight == multiset{} && BusyPorts(s') == BusyPorts(s) && s'.nodes.Keys == s.nodes.Keys
            && forall p | p in s.nodes :: s'.nodes[p].phase == s.nodes[p].phase && s'.nodes[p].peers == s.nodes[p].peers
  {
    actions := [];
    if s.inFlight != multiset{} {
      var c :| c in s.inFlight;
      assert s.inFlight == multiset{c} + (s.inFlight - multiset{c});
      DeliverProgress(h, s, c);
      SamePhases(s, Apply(h, s, Deliver(c)));
      actions := [Deliver(c)];
      Prepend(h, s, Deliver(c), []);
      assert [Deliver(c)] + [] == [Deliver(c)];
    }
  }

  /** The next step of a broadcast, with the answer to the message it sends, if it sends one. */
  lemma BroadcastRound(h: Hasher, s: State, p: Port) returns (actions: seq<Action>)
    requires Inv(h, s) && p in s.nodes && Busy(s.nodes[p]) && s.inFlight == multiset{}
    ensures AllAddNothing(actions) && Answered(h, s, actions)
    ensures var s' := Run(h, s, actions);
            && Inv(h, s') && s'.inFlight == multiset{} && p in s'.nodes
            && StepsLeft(s'.nodes[p]) == StepsLeft(s.nodes[p]) - 1
            && BusyPorts(s') == if StepsLeft(s'.nodes[p]) == 0 then BusyPorts(s) - {p} else BusyPorts(s)
  {
    var a := Local(p, NextStep(s.nodes[p]));
    var s1 := Apply(h, s, a);
    NextStepProgress(h, s, p);
    var answer := AnswerOne(h, s1);
    actions := [a] + answer;
    Prepend(h, s, a, answer);
    assert actions[1..] == answer;
    assert StepsLeft(Run(h, s1, answer).nodes[p]) == StepsLeft(s1.nodes[p]);
  }

  /** A node in the middle of a broadcast can finish it; no other node becomes busy. */
  lemma {:induction false} FinishBroadcast(h: Hasher, s: State, p: Port) returns (actions: seq<Action>)
    requires Inv(h, s) && p in s.nodes && Busy(s.nodes[p]) && s.inFlight == multiset{}
    ensures AllAddNothing(actions) && Answered(h, s, actions)
    ensures var s' := Run(h, s, actions);
            Inv(h, s') && s'.inFlight == multiset{} && BusyPorts(s') == BusyPorts(s) - {p}
    decreases StepsLeft(s.nodes[p])
  {
    var round := BroadcastRound(h, s, p);
    var s1 := Run(h, s, round);
    var rest := [];
    if StepsLeft(s1.nodes[p]) > 0 {
      rest := FinishBroadcast(h, s1, p);
    }
    actions := round + rest;
    RunAppend(h, s, round, rest);
    AnsweredAppend(h, s, round, rest);
  }

  lemma {:induction false} FinishBroadcasts(h: Hasher, s: State) returns (actions: seq<Action>)
    requires Inv(h, s) && s.inFlight == multiset{}
    ensures AllAddNothing(actions) && Answered(h, s, actions)
    ensures Quiet(Run(h, s, actions))
    decreases |BusyPorts(s)|
  {
    if !exists p :: p in s.nodes && Busy(s.nodes[p]) {
      return [];
    }
    var p :| p in s.nodes && Busy(s.nodes[p]);
    assert p in BusyPorts(s);
    var some := FinishBroadcast(h, s, p);
    var rest := FinishBroadcasts(h, Run(h, s, some));
    actions := some + rest;
    RunAppend(h, s, some, rest);
    AnsweredAppend(h, s, some, rest);
  }

  /** Every reliable run can be completed, without adding a block, to one that ends quiet, and then all chains have
      equal length. The messages in flight are answered first, and then each before the next is sent, as in the
      program. */
  lemma EveryRunCanSettle(h: Hasher, s: State, actions: seq<Action>) returns (more: seq<Action>)
    requires Inv(h, s) && FullMembership(s) && Quiet(s) && EqualLengths(s)
    requires AllReliable(actions)
    ensures AllAddNothing(more) && Answered(h, Run(h, s, actions), more)
    ensures var s' := Run(h, s, actions + more);
            Quiet(s') && EqualLengths(s')
  {
    RunKeepsInv(h, s, actions);
    var s1 := Run(h, s, actions);
    var some := DeliverAll(h, s1);
    var rest := FinishBroadcasts(h, Run(h, s1, some));
    more := some + rest;
    RunAppend(h, s1, some, rest);
    AnsweredAppend(h, s1, some, rest);
    RunAppend(h, s, actions, more);
    QuietNodesHaveEqualLength(h, s, actions + more);
  }

  // --- Communication alone does not settle a tie ---

  ghost predicate LengthsAtMost(s: State, length: nat) {
    && (forall p | p in s.nodes ::
          |s.nodes[p].chain| <= length && (s.nodes[p].phase.Sending? ==> |s.nodes[p].phase.sent| <= length))
    && (forall c | c in s.inFlight :: |c.chain| <= length)
  }

  lemma NodeStepAddsNothing(h: Hasher, n: Node, step: LocalStep)
    requires |n.chain| > 0 && step != AddMined
    ensures var e := NodeStep(h, n, step);
            && e.node.chain == n.chain
            && (e.node.phase.Sending? ==> e.node.phase.sent == if n.phase.Sending? then n.phase.sent else n.chain)
            && (forall c | c in e.sent :: n.phase.Sending? && c.chain == n.phase.sent)
  {
  }

  lemma LocalKeepsLengthsAtMost(h: Hasher, s: State, p: Port, step: LocalStep, length: nat)
    requires Inv(h, s) && LengthsAtMost(s, length) && AddsNothing(Local(p, step)) && p in s.nodes
    ensures LengthsAtMost(Apply(h, s, Local(p, step)), length)
  {
    var s' := Apply(h, s, Local(p, step));
    NodeStepAddsNothing(h, s.nodes[p], step);
    assert forall c | c in s'.inFlight :: c in s.inFlight || c in NodeStep(h, s.nodes[p], step).sent;
  }

  lemma StepKeepsLengthsAtMost(h: Hasher, s: State, a: Action, length: nat)
    requires Inv(h, s) && LengthsAtMost(s, length) && AddsNothing(a)
    ensures LengthsAtMost(Apply(h, s, a), length)
  {
    if a.Local? {
      if a.port in s.nodes {
        LocalKeepsLengthsAtMost(h, s, a.port, a.step, length);
      }
    } else if a.message in s.inFlight && a.message.to in s.nodes {
      DeliverMoves(h, s, a.message, a.message.to);
      assert forall c | c in Apply(h, s, a).inFlight :: c in s.inFlight;
    }
  }

  /** A node with a longest chain keeps it as long as nobody adds a block, whatever is delivered to it. So two nodes
      that hold different longest chains stay apart until a block is added. */
  lemma {:induction false} LongestChainStays(h: Hasher, s: State, actions: seq<Action>, p: Port)
    requires Inv(h, s) && p in s.nodes && LengthsAtMost(s, |s.nodes[p].chain|)
    requires AllAddNothing(actions)
    ensures var s' := Run(h, s, actions);
            p in s'.nodes && s'.nodes[p].chain == s.nodes[p].chain
    decreases |actions|
  {
    if actions != [] {
      var a := actions[0];
      StepKeepsInv(h, s, a);
      ChainSteps(h, s, a, p);
      StepKeepsLengthsAtMost(h, s, a, |s.nodes[p].chain|);
      LongestChainStays(h, Apply(h, s, a), actions[1..], p);
    }
  }
}
