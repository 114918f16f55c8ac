/** The repository's README says that only one explicit set of blocks exists at a time. Two nodes that mine before they
    hear of each other end up with different chains of equal length, and no amount of communication changes that. */
module Fork {
  import opened Text
  import opened Hashing
  import opened BlockChain
  import opened NodeServer
  import opened Network
  import opened Convergence

  const ADDING_STEPS: seq<LocalStep> := [ReadCount, ReadTip, AddMined]
  const MINING_STEPS: seq<LocalStep> := [ReadCount, ReadTip, FindNonce] + ADDING_STEPS

  function LocalActions(p: Port, steps: seq<LocalStep>): (r: seq<Action>)
    ensures |r| == |steps|
  {
    seq(|steps|, i requires 0 <= i < |steps| => Local(p, steps[i]))
  }

  /** What a node has after mining a message without interference: the mined block if the search succeeds. */
  function MinedBlock(h: Hasher, chain: seq<Block>, text: string): Block
    requires |chain| > 0
  {
    var (hash, nonce) := Mined(h, |chain|, chain[|chain| - 1].hash, [text]);
    Block(|chain|, chain[|chain| - 1].hash, hash, nonce, [text])
  }

  ghost function AfterMining(h: Hasher, n: Node, text: string): Node
    requires |n.chain| > 0
  {
    Node(Added(h, n.chain, MinedBlock(h, n.chain, text)), n.peers, Tried)
  }

  /** Steps of one node alone, none of which sends anything. */
  ghost predicate Leads(h: Hasher, n: Node, steps: seq<LocalStep>, n': Node)
    decreases |steps|
  {
    if steps == [] then n' == n
    else
      && |n.chain| > 0
      && var e := NodeStep(h, n, steps[0]);
         e.sent == multiset{} && Leads(h, e.node, steps[1..], n')
  }

  lemma {:induction false} LeadsInNetwork(h: Hasher, s: State, p: Port, steps: seq<LocalStep>, n': Node)
    requires p in s.nodes && Leads(h, s.nodes[p], steps, n')
    ensures var s' := Run(h, s, LocalActions(p, steps));
            s'.nodes == s.nodes[p := n'] && s'.inFlight == s.inFlight && s'.joiners == s.joiners
    ensures s.inFlight == multiset{} ==> Answered(h, s, LocalActions(p, steps))
    decreases |steps|
  {
    if steps != [] {
      var actions := LocalActions(p, steps);
      var s1 := Apply(h, s, actions[0]);
      assert actions[1..] == LocalActions(p, steps[1..]);
      LeadsInNetwork(h, s1, p, steps[1..], n');
      assert s.nodes[p := s1.nodes[p]][p := n'] == s.nodes[p := n'];
    } else {
      assert s.nodes[p := n'] == s.nodes;
    }
  }

  lemma LeadsOn(h: Hasher, n: Node, step: LocalStep, steps: seq<LocalStep>, n': Node)
    requires |n.chain| > 0 && NodeStep(h, n, step).sent == multiset{}
    requires Leads(h, NodeStep(h, n, step).node, steps, n')
    ensures Leads(h, n, [step] + steps, n')
  {
    assert ([step] + steps)[1..] == steps;
  }

  lemma AddingLeads(h: Hasher, n: Node, text: string)
    requires |n.chain| > 0
    ensures var (hash, nonce) := Mined(h, |n.chain|, CurrentTip(n.chain).hash, [text]);
            Leads(h, n.(phase := Adding([text], hash, nonce, |n.chain|, CurrentTip(n.chain), NOT_READ)),
                  ADDING_STEPS, AfterMining(h, n, text))
  {
    var count, tip := |n.chain|, CurrentTip(n.chain);
    var (hash, nonce) := Mined(h, count, tip.hash, [text]);
    var read, both := Args(Some(count), None), Args(Some(count), Some(tip));
    LeadsOn(h, n.(phase := Adding([text], hash, nonce, count, tip, both)), AddMined, [], AfterMining(h, n, text));
    LeadsOn(h, n.(phase := Adding([text], hash, nonce, count, tip, read)), ReadTip, [AddMined],
            AfterMining(h, n, text));
    LeadsOn(h, n.(phase := Adding([text], hash, nonce, count, tip, NOT_READ)), ReadCount, [ReadTip] + [AddMined],
            AfterMining(h, n, text));
    assert [ReadCount] + ([ReadTip] + [AddMined]) == ADDING_STEPS;
  }

  lemma FindingLeads(h: Hasher, n: Node, text: string)
    requires |n.chain| > 0
    ensures Leads(h, n.(phase := Mining([text], Args(Some(|n.chain|), Some(CurrentTip(n.chain))))),
                  [FindNonce] + ADDING_STEPS, AfterMining(h, n, text))
  {
    var both := Args(Some(|n.chain|), Some(CurrentTip(n.chain)));
    AddingLeads(h, n, text);
    LeadsOn(h, n.(phase := Mining([text], both)), FindNonce, ADDING_STEPS, AfterMining(h, n, text));
  }

  lemma SearchingLeads(h: Hasher, n: Node, text: string)
    requires |n.chain| > 0
    ensures Leads(h, n.(phase := Mining([text], NOT_READ)), MINING_STEPS, AfterMining(h, n, text))
  {
    var rest, read := [FindNonce] + ADDING_STEPS, Args(Some(|n.chain|), None);
    FindingLeads(h, n, text);
    LeadsOn(h, n.(phase := Mining([text], read)), ReadTip, rest, AfterMining(h, n, text));
    LeadsOn(h, n.(phase := Mining([text], NOT_READ)), ReadCount, [ReadTip] + rest, AfterMining(h, n, text));
    assert [ReadCount] + ([ReadTip] + rest) == MINING_STEPS;
  }

  lemma MiningLeads(h: Hasher, n: Node, text: string)
    requires |n.chain| > 0 && n.phase.Idle?
    ensures Leads(h, n, [StartMining(text)] + MINING_STEPS, AfterMining(h, n, text))
  {
    SearchingLeads(h, n, text);
    LeadsOn(h, n, StartMining(text), MINING_STEPS, AfterMining(h, n, text));
  }

  lemma MiningRun(h: Hasher, s: State, p: Port, text: string)
    requires p in s.nodes && |s.nodes[p].chain| > 0 && s.nodes[p].phase.Idle?
    ensures var s' := Run(h, s, LocalActions(p, [StartMining(text)] + MINING_STEPS));
            && s'.nodes == s.nodes[p := AfterMining(h, s.nodes[p], text)]
            && s'.inFlight == s.inFlight && s'.joiners == s.joiners
    ensures s.inFlight == multiset{} ==> Answered(h, s, LocalActions(p, [StartMining(text)] + MINING_STEPS))
  {
    MiningLeads(h, s.nodes[p], text);
    LeadsInNetwork(h, s, p, [StartMining(text)] + MINING_STEPS, AfterMining(h, s.nodes[p], text));
  }

  function MiningActions(p: Port, text: string): seq<Action> {
    LocalActions(p, [StartMining(text)] + MINING_STEPS)
  }

  /** Mining of two nodes, one after the other, with no delivery in between. */
  function BothMine(p: Port, q: Port, textP: string, textQ: string): seq<Action> {
    MiningActions(p, textP) + MiningActions(q, textQ)
  }

  lemma BothMineRun(h: Hasher, s: State, p: Port, q: Port, textP: string, textQ: string)
    requires p in s.nodes && |s.nodes[p].chain| > 0 && s.nodes[p].phase.Idle?
    requires q in s.nodes && |s.nodes[q].chain| > 0 && s.nodes[q].phase.Idle? && p != q
    ensures var s' := Run(h, s, BothMine(p, q, textP, textQ));
            && s'.nodes == s.nodes[p := AfterMining(h, s.nodes[p], textP)][q := AfterMining(h, s.nodes[q], textQ)]
            && s'.inFlight == s.inFlight
    ensures s.inFlight == multiset{} ==> Answered(h, s, BothMine(p, q, textP, textQ))
  {
    var first, second := MiningActions(p, textP), MiningActions(q, textQ);
    var s1 := Run(h, s, first);
    MiningRun(h, s, p, textP);
    MiningRun(h, s1, q, textQ);
    RunAppend(h, s, first, second);
    if s.inFlight == multiset{} {
      AnsweredAppend(h, s, first, second);
    }
  }

  lemma MinedChainGrows(h: Hasher, n: Node, text: string)
    requires |n.chain| > 0 && MinedBlock(h, n.chain, text).hash != "fail"
    ensures AfterMining(h, n, text).chain == n.chain + [MinedBlock(h, n.chain, text)]
  {
    MinedIsAccepted(h, |n.chain|, n.chain[|n.chain| - 1].hash, [text]);
  }

  /** Two idle nodes of a network at rest that are about to mine different messages, both with success. */
  ghost predicate ReadyToFork(h: Hasher, s: State, p: Port, q: Port, textP: string, textQ: string) {
    && Inv(h, s) && Quiet(s) && EqualLengths(s)
    && p in s.nodes && q in s.nodes && p != q && textP != textQ
    && s.nodes[p].phase.Idle? && s.nodes[q].phase.Idle?
    && |s.nodes[p].chain| > 0 && MinedBlock(h, s.nodes[p].chain, textP).hash != "fail"
    && |s.nodes[q].chain| > 0 && MinedBlock(h, s.nodes[q].chain, textQ).hash != "fail"
  }

  lemma MinedAreLongest(h: Hasher, s: State, p: Port, q: Port, textP: string, textQ: string)
    requires ReadyToFork(h, s, p, q, textP, textQ)
    ensures var s' := Run(h, s, BothMine(p, q, textP, textQ));
            && Inv(h, s') && p in s'.nodes && q in s'.nodes
            && s'.nodes[p].chain == s.nodes[p].chain + [MinedBlock(h, s.nodes[p].chain, textP)]
            && s'.nodes[q].chain == s.nodes[q].chain + [MinedBlock(h, s.nodes[q].chain, textQ)]
            && LengthsAtMost(s', |s.nodes[p].chain| + 1)
  {
    BothMineRun(h, s, p, q, textP, textQ);
    MinedChainGrows(h, s.nodes[p], textP);
    MinedChainGrows(h, s.nodes[q], textQ);
    RunKeepsInv(h, s, BothMine(p, q, textP, textQ));
  }

  lemma DifferentMessages(h: Hasher, a: seq<Block>, b: seq<Block>, textP: string, textQ: string)
    requires |a| == |b| > 0 && textP != textQ
    ensures a + [MinedBlock(h, a, textP)] != b + [MinedBlock(h, b, textQ)]
  {
    assert (a + [MinedBlock(h, a, textP)])[|a|].data[0] == textP;
    assert (b + [MinedBlock(h, b, textQ)])[|a|].data[0] == textQ;
  }

  /** From any state at rest, two idle nodes that mine different messages one after the other, with no delivery in
      between and both searches successful, hold chains of equal length that differ; and they still hold exactly those
      after any steps of any nodes and any deliveries in which nobody adds a further block. */
  lemma MiningTogetherForks(h: Hasher, s: State, p: Port, q: Port, textP: string, textQ: string, more: seq<Action>)
    requires ReadyToFork(h, s, p, q, textP, textQ) && AllAddNothing(more)
    ensures var s' := Run(h, s, BothMine(p, q, textP, textQ) + more);
            && p in s'.nodes && q in s'.nodes
            && s'.nodes[p].chain == s.nodes[p].chain + [MinedBlock(h, s.nodes[p].chain, textP)]
            && s'.nodes[q].chain == s.nodes[q].chain + [MinedBlock(h, s.nodes[q].chain, textQ)]
            && |s'.nodes[p].chain| == |s'.nodes[q].chain|
            && s'.nodes[p].chain != s'.nodes[q].chain
  {
    var both := BothMine(p, q, textP, textQ);
    MinedAreLongest(h, s, p, q, textP, textQ);
    RunAppend(h, s, both, more);
    LongestChainStays(h, Run(h, s, both), more, p);
    LongestChainStays(h, Run(h, s, both), more, q);
    DifferentMessages(h, s.nodes[p].chain, s.nodes[q].chain, textP, textQ);
  }

  /** Such a fork can come to rest, in an order of sends and answers that the program has: with every broadcast finished
      and every message delivered the two chains are still there. */
  lemma ForkCanSettle(h: Hasher, s: State, p: Port, q: Port, textP: string, textQ: string)
      returns (actions: seq<Action>)
    requires ReadyToFork(h, s, p, q, textP, textQ) && FullMembership(s)
    ensures AllReliable(actions) && Answered(h, s, actions)
    ensures var s' := Run(h, s, actions);
            && Quiet(s') && EqualLengths(s')
            && p in s'.nodes && q in s'.nodes && s'.nodes[p].chain != s'.nodes[q].chain
  {
    var both := BothMine(p, q, textP, textQ);
    var more := EveryRunCanSettle(h, s, both);
    MiningTogetherForks(h, s, p, q, textP, textQ, more);
    actions := both + more;
    BothMineRun(h, s, p, q, textP, textQ);
    AnsweredAppend(h, s, both, more);
  }
}
