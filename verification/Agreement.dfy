/** When the nodes of a network that has come to rest hold one chain: the chains that were mined decide it. */
module Agreement {
  import opened Hashing
  import opened BlockChain
  import opened Network
  import opened Convergence

  ghost function Chains(s: State): set<seq<Block>> {
    set p | p in s.nodes :: s.nodes[p].chain
  }

  /** Every node holds the same chain. */
  ghost predicate OneChain(s: State) {
    forall p, q | p in s.nodes && q in s.nodes :: s.nodes[p].chain == s.nodes[q].chain
  }

  /** The chain that a step produces by adding a mined block, if it does. */
  ghost function MintedBy(h: Hasher, s: State, a: Action): set<seq<Block>> {
    var s' := Apply(h, s, a);
    if a.Local? && a.step == AddMined && a.port in s.nodes && a.port in s'.nodes
       && s'.nodes[a.port].chain != s.nodes[a.port].chain
    then {s'.nodes[a.port].chain} else {}
  }

  /** The chains produced by mining in a run. */
  ghost function Minted(h: Hasher, s: State, actions: seq<Action>): set<seq<Block>>
    decreases |actions|
  {
    if actions == [] then {} else MintedBy(h, s, actions[0]) + Minted(h, Apply(h, s, actions[0]), actions[1..])
  }

  // --- Every chain was there or was mined ---

  ghost predicate AllFrom(s: State, known: set<seq<Block>>) {
    && (forall p | p in s.nodes ::
          s.nodes[p].chain in known && (s.nodes[p].phase.Sending? ==> s.nodes[p].phase.sent in known))
    && (forall m | m in s.inFlight :: m.chain in known)
  }

  lemma LocalOrigins(h: Hasher, s: State, p: Port, step: LocalStep, known: set<seq<Block>>)
    requires Inv(h, s) && AllFrom(s, known)
    ensures AllFrom(Apply(h, s, Local(p, step)), known + MintedBy(h, s, Local(p, step)))
  {
    if p in s.nodes {
      var s' := Apply(h, s, Local(p, step));
      LocalMoves(h, s, p, step, p);
      assert forall c | c in s'.inFlight :: c in s.inFlight || c in NodeStep(h, s.nodes[p], step).sent;
    }
  }

  lemma StepOrigins(h: Hasher, s: State, a: Action, known: set<seq<Block>>)
    requires Inv(h, s) && Reliable(a) && AllFrom(s, known)
    ensures AllFrom(Apply(h, s, a), known + MintedBy(h, s, a))
  {
    if a.Local? {
      LocalOrigins(h, s, a.port, a.step, known);
    } else if a.message in s.inFlight && a.message.to in s.nodes {
      DeliverMoves(h, s, a.message, a.message.to);
      assert forall c | c in Apply(h, s, a).inFlight :: c in s.inFlight;
    }
  }

  lemma {:induction false} RunOrigins(h: Hasher, s: State, actions: seq<Action>, known: set<seq<Block>>)
    requires Inv(h, s) && AllReliable(actions) && AllFrom(s, known)
    ensures AllFrom(Run(h, s, actions), known + Minted(h, s, actions))
    decreases |actions|
  {
    if actions != [] {
      var a := actions[0];
      StepKeepsInv(h, s, a);
      StepOrigins(h, s, a, known);
      RunOrigins(h, Apply(h, s, a), actions[1..], known + MintedBy(h, s, a));
      assert known + MintedBy(h, s, a) + Minted(h, Apply(h, s, a), actions[1..]) == known + Minted(h, s, actions);
    }
  }

  // --- A mined chain is kept or outgrown by the node that mined it ---

  lemma {:induction false} RunKeepsNodes(h: Hasher, s: State, actions: seq<Action>)
    requires AllReliable(actions)
    ensures Run(h, s, actions).nodes.Keys == s.nodes.Keys
    decreases |actions|
  {
    if actions != [] {
      RunKeepsNodes(h, Apply(h, s, actions[0]), actions[1..]);
    }
  }

  lemma {:induction false} MintedStays(h: Hasher, s: State, actions: seq<Action>, c: seq<Block>) returns (p: Port)
    requires Inv(h, s) && AllReliable(actions) && c in Minted(h, s, actions)
    ensures p in s.nodes && |s.nodes[p].chain| < |c|
    ensures var s' := Run(h, s, actions);
            p in s'.nodes && |c| <= |s'.nodes[p].chain| && (|c| == |s'.nodes[p].chain| ==> s'.nodes[p].chain == c)
    decreases |actions|
  {
    var a := actions[0];
    var s1 := Apply(h, s, a);
    StepKeepsInv(h, s, a);
    if c in MintedBy(h, s, a) {
      p := a.port;
      ChainSteps(h, s, a, p);
      ChainNeverShrinks(h, s1, actions[1..], p);
    } else {
      p := MintedStays(h, s1, actions[1..], c);
      RunKeepsNodes(h, s, [a]);
      ChainSteps(h, s, a, p);
    }
  }

  // --- What a quiet network holds ---

  /** Without a mined chain every node keeps the chain it had. */
  lemma NothingMinted(h: Hasher, s: State, actions: seq<Action>)
    requires Inv(h, s) && Quiet(s) && EqualLengths(s) && AllReliable(actions) && Minted(h, s, actions) == {}
    ensures var s' := Run(h, s, actions);
            s'.nodes.Keys == s.nodes.Keys && forall p | p in s.nodes :: s'.nodes[p].chain == s.nodes[p].chain
  {
    var s' := Run(h, s, actions);
    RunKeepsNodes(h, s, actions);
    RunOrigins(h, s, actions, Chains(s));
    forall p | p in s.nodes ensures s'.nodes[p].chain == s.nodes[p].chain {
      ChainNeverShrinks(h, s, actions, p);
      assert s'.nodes[p].chain in Chains(s);
    }
  }

  /** With one, every node ends with a mined chain, of a length no mined chain exceeds. */
  lemma EndsWithMinted(h: Hasher, s: State, actions: seq<Action>, p: Port)
    requires Inv(h, s) && Quiet(s) && EqualLengths(s) && AllReliable(actions) && Minted(h, s, actions) != {}
    requires EqualLengths(Run(h, s, actions)) && p in Run(h, s, actions).nodes
    ensures var c := Run(h, s, actions).nodes[p].chain;
            c in Minted(h, s, actions) && forall d | d in Minted(h, s, actions) :: |d| <= |c|
  {
    var s' := Run(h, s, actions);
    RunKeepsNodes(h, s, actions);
    RunOrigins(h, s, actions, Chains(s));
    forall d | d in Minted(h, s, actions) ensures |s.nodes[p].chain| < |d| <= |s'.nodes[p].chain| {
      var q := MintedStays(h, s, actions, d);
    }
    assert s'.nodes[p].chain !in Chains(s);
  }

  /** The chains of greatest length. */
  ghost function LongestOf(chains: set<seq<Block>>): set<seq<Block>> {
    set c | c in chains && forall d | d in chains :: |d| <= |c|
  }

  /** And every mined chain that no mined chain exceeds is held at the end. */
  lemma LongestIsHeld(h: Hasher, s: State, actions: seq<Action>, c: seq<Block>)
    requires Inv(h, s) && Quiet(s) && EqualLengths(s) && AllReliable(actions)
    requires EqualLengths(Run(h, s, actions)) && c in LongestOf(Minted(h, s, actions))
    ensures c in Chains(Run(h, s, actions))
  {
    var p := MintedStays(h, s, actions, c);
    EndsWithMinted(h, s, actions, p);
  }

  /** From rest with equal lengths to the next time all is quiet: if no block was added the nodes hold what they held,
      and otherwise the chains held are exactly the longest of those mined. */
  lemma QuietNodesHoldLongest(h: Hasher, s: State, actions: seq<Action>)
    requires Inv(h, s) && FullMembership(s) && Quiet(s) && EqualLengths(s)
    requires AllReliable(actions) && Quiet(Run(h, s, actions))
    ensures Chains(Run(h, s, actions))
         == if Minted(h, s, actions) == {} then Chains(s) else LongestOf(Minted(h, s, actions))
  {
    var (s', minted) := (Run(h, s, actions), Minted(h, s, actions));
    if minted == {} {
      NothingMinted(h, s, actions);
    } else {
      QuietNodesHaveEqualLength(h, s, actions);
      forall p | p in s'.nodes ensures s'.nodes[p].chain in LongestOf(minted) {
        EndsWithMinted(h, s, actions, p);
      }
      forall c | c in LongestOf(minted) ensures c in Chains(s') {
        LongestIsHeld(h, s, actions, c);
      }
    }
  }

  ghost predicate AllSame(chains: set<seq<Block>>) {
    forall c, d | c in chains && d in chains :: c == d
  }

  lemma OneChainHeld(s: State)
    ensures OneChain(s) <==> AllSame(Chains(s))
  {
    assert forall p | p in s.nodes :: s.nodes[p].chain in Chains(s);
  }

  /** A network that holds one chain at rest holds one chain the next time all is quiet if and only if the longest of
      the chains mined on the way are one chain. */
  lemma OneChainIff(h: Hasher, s: State, actions: seq<Action>)
    requires Inv(h, s) && FullMembership(s) && Quiet(s) && OneChain(s)
    requires AllReliable(actions) && Quiet(Run(h, s, actions))
    ensures OneChain(Run(h, s, actions)) <==> AllSame(LongestOf(Minted(h, s, actions)))
  {
    QuietNodesHoldLongest(h, s, actions);
    OneChainHeld(s);
    OneChainHeld(Run(h, s, actions));
  }
}
