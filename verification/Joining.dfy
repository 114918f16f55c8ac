/** Joining leads a network at rest to a larger one at rest, so what holds from rest on holds of runs from the start. */
module Joining {
  import opened Hashing
  import opened BlockChain
  import opened Network
  import opened Convergence
  import opened Agreement
  import opened Fork

  ghost predicate AtRest(s: State) {
    FullMembership(s) && Quiet(s) && EqualLengths(s)
  }

  function Announces(p: Port, n: nat): (r: seq<Action>)
    ensures |r| == n && forall i | 0 <= i < n :: r[i] == Announce(p, true)
  {
    seq(n, _ => Announce(p, true))
  }

  function Asks(p: Port, n: nat): (r: seq<Action>)
    ensures |r| == n && forall i | 0 <= i < n :: r[i] == AskChain(p, true)
  {
    seq(n, _ => AskChain(p, true))
  }

  /** A node that gives some ports and reaches each of them. */
  function JoinActions(p: Port, ports: seq<Port>): seq<Action> {
    [StartJoin(p, ports)] + Announces(p, |ports|) + Asks(p, |ports|) + [FinishJoin(p)]
  }

  predicate Named(ports: seq<Port>, k: nat, q: Port) {
    exists i :: 0 <= i < k && i < |ports| && ports[i] == q
  }

  /** The first `k` ports have been told of `p`; nothing else has changed. */
  ghost predicate Told(s: State, t: State, p: Port, ports: seq<Port>, k: nat) {
    && t.nodes.Keys == s.nodes.Keys && t.inFlight == s.inFlight
    && t.joiners == map[p := Joiner(ports, k, 0, [])]
    && forall q | q in s.nodes ::
         && t.nodes[q].chain == s.nodes[q].chain && t.nodes[q].phase == s.nodes[q].phase
         && s.nodes[q].peers <= t.nodes[q].peers
         && (Named(ports, k, q) ==> p in t.nodes[q].peers)
  }

  lemma AnnounceTells(h: Hasher, t: State, p: Port, ports: seq<Port>, k: nat)
    requires k < |ports| && t.joiners == map[p := Joiner(ports, k, 0, [])]
    ensures Apply(h, t, Announce(p, true))
         == t.(joiners := map[p := Joiner(ports, k + 1, 0, [])],
               nodes := if ports[k] !in t.nodes then t.nodes
                        else t.nodes[ports[k] := t.nodes[ports[k]].(peers := t.nodes[ports[k]].peers + [p])])
  {
    assert t.joiners[p := Joiner(ports, k + 1, 0, [])] == map[p := Joiner(ports, k + 1, 0, [])];
  }

  lemma TellOne(s: State, t: State, t': State, p: Port, ports: seq<Port>, k: nat)
    requires k < |ports| && Told(s, t, p, ports, k) && t'.inFlight == t.inFlight
    requires t'.joiners == map[p := Joiner(ports, k + 1, 0, [])]
    requires var q := ports[k];
             t'.nodes == if q !in t.nodes then t.nodes
                         else t.nodes[q := t.nodes[q].(peers := t.nodes[q].peers + [p])]
    ensures Told(s, t', p, ports, k + 1)
  {
    forall q | q in s.nodes && Named(ports, k + 1, q) ensures p in t'.nodes[q].peers {
      var i :| 0 <= i < k + 1 && ports[i] == q;
      assert i < k ==> Named(ports, k, q);
    }
  }

  lemma {:induction false} TellRest(h: Hasher, s: State, t: State, p: Port, ports: seq<Port>, k: nat)
    requires k <= |ports| && Told(s, t, p, ports, k)
    ensures Told(s, Run(h, t, Announces(p, |ports| - k)), p, ports, |ports|)
    decreases |ports| - k
  {
    if k < |ports| {
      AnnounceTells(h, t, p, ports, k);
      TellOne(s, t, Apply(h, t, Announce(p, true)), p, ports, k);
      assert Announces(p, |ports| - k)[1..] == Announces(p, |ports| - k - 1);
      TellRest(h, s, Apply(h, t, Announce(p, true)), p, ports, k + 1);
    }
  }

  /** The first `k` ports have been asked; nothing else has changed. */
  ghost predicate Asked(s: State, t: State, p: Port, ports: seq<Port>, k: nat) {
    && t.nodes == s.nodes && t.inFlight == s.inFlight
    && t.joiners.Keys == {p}
    && var j := t.joiners[p];
       && j.ports == ports && j.announced == |ports| && j.asked == k
       && (forall i | 0 <= i < |j.replies| :: j.replies[i] in Chains(s))
       && forall q | q in s.nodes && Named(ports, k, q) :: j.replies != []
  }

  lemma {:induction false} AskRest(h: Hasher, s: State, t: State, p: Port, ports: seq<Port>, k: nat)
    requires k <= |ports| && Asked(s, t, p, ports, k)
    ensures Asked(s, Run(h, t, Asks(p, |ports| - k)), p, ports, |ports|)
    decreases |ports| - k
  {
    if k < |ports| {
      var t' := Apply(h, t, AskChain(p, true));
      assert Asked(s, t', p, ports, k + 1) by {
        forall q | q in s.nodes && Named(ports, k + 1, q) ensures t'.joiners[p].replies != [] {
          var i :| 0 <= i < k + 1 && ports[i] == q;
          assert i < k ==> Named(ports, k, q);
        }
      }
      assert Asks(p, |ports| - k)[1..] == Asks(p, |ports| - k - 1);
      AskRest(h, s, t', p, ports, k + 1);
    }
  }

  /** The nodes of `s` go on as they were, and `p` has joined with one of their chains. */
  ghost predicate Joined(s: State, t: State, p: Port) {
    && t.nodes.Keys == s.nodes.Keys + {p}
    && (forall q | q in s.nodes :: t.nodes[q].chain == s.nodes[q].chain && t.nodes[q].phase == s.nodes[q].phase)
    && t.nodes[p].chain in Chains(s) && t.nodes[p].phase.Idle?
  }

  lemma SomeNode(s: State) returns (p: Port)
    requires s.nodes != map[]
    ensures p in s.nodes
  {
    assert (forall q :: q !in s.nodes) ==> s.nodes == map[];
    p :| p in s.nodes;
  }

  lemma SameChains(s: State, t: State)
    requires t.nodes.Keys == s.nodes.Keys && forall q | q in s.nodes :: t.nodes[q].chain == s.nodes[q].chain
    ensures Chains(t) == Chains(s)
  {
  }

  /** The joining node finishes with one of the chains, told of everybody and known to everybody. */
  lemma FinishJoins(h: Hasher, s: State, t: State, u: State, p: Port, ports: seq<Port>)
    requires s.nodes != map[] && p !in s.nodes && forall q | q in s.nodes :: Named(ports, |ports|, q)
    requires Told(s, t, p, ports, |ports|) && Asked(t, u, p, ports, |ports|) && JoinerOk(h, u.hashed, u.joiners[p])
    ensures var v := Apply(h, u, FinishJoin(p));
            && Joined(s, v, p) && v.joiners == map[] && v.inFlight == s.inFlight
            && v.nodes[p].peers == ports
            && forall q | q in s.nodes :: v.nodes[q] == t.nodes[q]
  {
    var replies := u.joiners[p].replies;
    var q := SomeNode(s);
    assert Named(ports, |ports|, q) && q in t.nodes;
    JoinAdopts(h, u.hashed, replies);
    assert JoinedChain(h, replies) in Chains(t);
    SameChains(s, t);
  }

  lemma JoinedIsAtRest(s: State, t: State, v: State, p: Port, ports: seq<Port>)
    requires AtRest(s) && p !in s.nodes && forall q | q in s.nodes :: Named(ports, |ports|, q)
    requires Told(s, t, p, ports, |ports|) && Joined(s, v, p) && v.joiners == map[] && v.inFlight == s.inFlight
    requires v.nodes[p].peers == ports && forall q | q in s.nodes :: v.nodes[q] == t.nodes[q]
    ensures AtRest(v)
  {
    assert FullMembership(v) by {
      forall q, r | q in v.nodes && r in v.nodes && q != r ensures r in v.nodes[q].peers {
        if q == p {
          assert Named(ports, |ports|, r);
        } else if r == p {
          assert Named(ports, |ports|, q);
        }
      }
    }
    assert EqualLengths(v) by {
      var q :| q in s.nodes && s.nodes[q].chain == v.nodes[p].chain;
    }
  }

  /** The run of a join, part by part. */
  lemma JoinRuns(h: Hasher, s: State, p: Port, ports: seq<Port>)
    ensures var t := Run(h, Apply(h, s, StartJoin(p, ports)), Announces(p, |ports|));
            var u := Run(h, t, Asks(p, |ports|));
            && Run(h, s, [StartJoin(p, ports)] + Announces(p, |ports|) + Asks(p, |ports|)) == u
            && Run(h, s, JoinActions(p, ports)) == Apply(h, u, FinishJoin(p))
  {
    var first, tell, ask, last := [StartJoin(p, ports)], Announces(p, |ports|), Asks(p, |ports|), [FinishJoin(p)];
    Prepend(h, s, StartJoin(p, ports), []);
    assert first + [] == first;
    RunAppend(h, s, first, tell);
    RunAppend(h, s, first + tell, ask);
    RunAppend(h, s, first + tell + ask, last);
    var u := Run(h, s, first + tell + ask);
    Prepend(h, u, FinishJoin(p), []);
    assert last + [] == last;
  }

  lemma TellAndAsk(h: Hasher, s: State, p: Port, ports: seq<Port>)
    requires AtRest(s) && p !in s.nodes
    ensures var t := Run(h, Apply(h, s, StartJoin(p, ports)), Announces(p, |ports|));
            Told(s, t, p, ports, |ports|) && Asked(t, Run(h, t, Asks(p, |ports|)), p, ports, |ports|)
  {
    var s1 := Apply(h, s, StartJoin(p, ports));
    var t := Run(h, s1, Announces(p, |ports|));
    TellRest(h, s, s1, p, ports, 0);
    AskRest(h, t, t, p, ports, 0);
  }

  /** A node that joins a network at rest, names every node of it and reaches them all leaves it at rest, with complete
      membership and equal lengths, holding one of the chains that were there. */
  lemma JoinKeepsRest(h: Hasher, s: State, p: Port, ports: seq<Port>)
    requires Inv(h, s) && AtRest(s) && s.nodes != map[] && p !in s.nodes
    requires forall q | q in s.nodes :: Named(ports, |ports|, q)
    ensures var s' := Run(h, s, JoinActions(p, ports));
            Inv(h, s') && AtRest(s') && Joined(s, s', p)
  {
    var s1 := Apply(h, s, StartJoin(p, ports));
    var t := Run(h, s1, Announces(p, |ports|));
    var u := Run(h, t, Asks(p, |ports|));
    TellAndAsk(h, s, p, ports);
    JoinRuns(h, s, p, ports);
    assert Inv(h, u) && Inv(h, Run(h, s, JoinActions(p, ports))) by {
      RunKeepsInv(h, s, [StartJoin(p, ports)] + Announces(p, |ports|) + Asks(p, |ports|));
      RunKeepsInv(h, s, JoinActions(p, ports));
    }
    FinishJoins(h, s, t, u, p, ports);
    JoinedIsAtRest(s, t, Apply(h, u, FinishJoin(p)), p, ports);
  }

  // --- Runs from the start ---

  function Set(ports: seq<Port>): set<Port> {
    set i | 0 <= i < |ports| :: ports[i]
  }

  /** The given nodes, idle and at rest, each with the first block alone. */
  ghost predicate Fresh(h: Hasher, s: State, ports: seq<Port>) {
    && Inv(h, s) && AtRest(s)
    && s.nodes.Keys == Set(ports)
    && (forall p | p in s.nodes :: s.nodes[p].chain == [Genesis(h)] && s.nodes[p].phase.Idle?)
  }

  /** A network of any nodes can be built: the first starts, and each other one joins by naming those before it. */
  function BuildActions(ports: seq<Port>): seq<Action>
    requires ports != []
  {
    if |ports| == 1 then [StartFirst(ports[0])]
    else BuildActions(ports[..|ports| - 1]) + JoinActions(ports[|ports| - 1], ports[..|ports| - 1])
  }

  lemma SetPush(ports: seq<Port>, p: Port)
    ensures Set(ports + [p]) == Set(ports) + {p}
  {
    var longer := ports + [p];
    assert forall i | 0 <= i < |ports| :: longer[i] == ports[i];
    assert longer[|ports|] == p;
  }

  lemma FirstIsFresh(h: Hasher, p: Port)
    ensures Fresh(h, Run(h, EMPTY, [StartFirst(p)]), [p])
  {
    RunKeepsInv(h, EMPTY, [StartFirst(p)]);
    Prepend(h, EMPTY, StartFirst(p), []);
    assert [StartFirst(p)] + [] == [StartFirst(p)];
    SetPush([], p);
    assert [] + [p] == [p] && Set([]) == {};
  }

  lemma JoinIsFresh(h: Hasher, s: State, p: Port, ports: seq<Port>)
    requires Fresh(h, s, ports) && ports != [] && p !in Set(ports)
    ensures Fresh(h, Run(h, s, JoinActions(p, ports)), ports + [p])
  {
    assert ports[0] in Set(ports);
    JoinKeepsRest(h, s, p, ports);
    SetPush(ports, p);
  }

  predicate Distinct(ports: seq<Port>) {
    forall i, j | 0 <= i < j < |ports| :: ports[i] != ports[j]
  }

  lemma BuildSplits(h: Hasher, before: seq<Port>, p: Port)
    requires before != []
    ensures Run(h, EMPTY, BuildActions(before + [p]))
         == Run(h, Run(h, EMPTY, BuildActions(before)), JoinActions(p, before))
  {
    assert (before + [p])[..|before|] == before;
    RunAppend(h, EMPTY, BuildActions(before), JoinActions(p, before));
  }

  lemma NewPort(ports: seq<Port>)
    requires ports != [] && Distinct(ports)
    ensures ports[|ports| - 1] !in Set(ports[..|ports| - 1])
  {
  }

  lemma OneMoreIsFresh(h: Hasher, before: seq<Port>, p: Port)
    requires before != [] && p !in Set(before) && Fresh(h, Run(h, EMPTY, BuildActions(before)), before)
    ensures Fresh(h, Run(h, EMPTY, BuildActions(before + [p])), before + [p])
  {
    JoinIsFresh(h, Run(h, EMPTY, BuildActions(before)), p, before);
    BuildSplits(h, before, p);
  }

  lemma {:induction false} BuildIsFresh(h: Hasher, ports: seq<Port>)
    requires ports != [] && Distinct(ports)
    ensures Fresh(h, Run(h, EMPTY, BuildActions(ports)), ports)
  {
    if |ports| == 1 {
      FirstIsFresh(h, ports[0]);
      assert ports == [ports[0]];
    } else {
      var before, p := ports[..|ports| - 1], ports[|ports| - 1];
      BuildIsFresh(h, before);
      NewPort(ports);
      assert ports == before + [p];
      OneMoreIsFresh(h, before, p);
    }
  }

  /** So whatever is reliably done in a network that was built like this, once all is quiet its nodes hold one chain
      if and only if the longest chains mined are one. */
  lemma BuiltNetworkAgreesIff(h: Hasher, ports: seq<Port>, actions: seq<Action>)
    requires ports != [] && Distinct(ports)
    requires AllReliable(actions) && Quiet(Run(h, EMPTY, BuildActions(ports) + actions))
    ensures var s := Run(h, EMPTY, BuildActions(ports));
            var s' := Run(h, EMPTY, BuildActions(ports) + actions);
            && EqualLengths(s')
            && (OneChain(s') <==> AllSame(LongestOf(Minted(h, s, actions))))
  {
    var s := Run(h, EMPTY, BuildActions(ports));
    BuildIsFresh(h, ports);
    RunAppend(h, EMPTY, BuildActions(ports), actions);
    QuietNodesHaveEqualLength(h, s, actions);
    OneChainIff(h, s, actions);
  }

  lemma FreshCanFork(h: Hasher, s: State, p: Port, q: Port, textP: string, textQ: string)
    requires Fresh(h, s, [p, q]) && p != q && textP != textQ
    requires MinedBlock(h, [Genesis(h)], textP).hash != "fail" && MinedBlock(h, [Genesis(h)], textQ).hash != "fail"
    ensures s.nodes.Keys == {p, q} && FullMembership(s) && ReadyToFork(h, s, p, q, textP, textQ)
  {
    SetPush([p], q);
    SetPush([], p);
    assert [] + [p] == [p] && [p] + [q] == [p, q] && Set([]) == {};
    assert p in s.nodes.Keys && q in s.nodes.Keys;
  }

  /** A run that ends with two chains: in a network of two nodes, built from nothing, both mine before either sends. The
      broadcasts and deliveries that follow, each message answered before the next step of any node, change nothing. */
  lemma TwoNodesFork(h: Hasher, p: Port, q: Port, textP: string, textQ: string) returns (actions: seq<Action>)
    requires p != q && textP != textQ
    requires MinedBlock(h, [Genesis(h)], textP).hash != "fail" && MinedBlock(h, [Genesis(h)], textQ).hash != "fail"
    ensures AllReliable(actions) && Answered(h, Run(h, EMPTY, BuildActions([p, q])), actions)
    ensures var s' := Run(h, EMPTY, BuildActions([p, q]) + actions);
            Quiet(s') && EqualLengths(s') && s'.nodes.Keys == {p, q} && s'.nodes[p].chain != s'.nodes[q].chain
  {
    var s := Run(h, EMPTY, BuildActions([p, q]));
    BuildIsFresh(h, [p, q]);
    FreshCanFork(h, s, p, q, textP, textQ);
    actions := ForkCanSettle(h, s, p, q, textP, textQ);
    RunAppend(h, EMPTY, BuildActions([p, q]), actions);
    RunKeepsNodes(h, s, actions);
  }
}
