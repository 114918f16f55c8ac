/** The network of `main.cpp` as a transition system. The server thread of a node runs beside its command loop,
    so every argument of `findHash` and `addBlock` is read in a step of its own, and a delivery may come between
    any two steps. Messages are delivered in any order, or lost. */
module Network {
  import opened Text
  import opened Hashing
  import opened BlockChain
  import opened TamperEvidence
  import opened NodeServer

  type Port = int

  /** The hash of a last block, with the length of the chain it was read from (history only). */
  datatype Tip = Tip(hash: string, length: nat)

  /** Arguments read so far for the next call. */
  datatype Args = Args(count: Option<nat>, tip: Option<Tip>) {
    predicate Complete() {
      count.Some? && tip.Some?
    }
  }

  const NOT_READ := Args(None, None)

  /** Where the command loop of a node is. */
  datatype Phase =
    | Idle
    | Mining(data: seq<string>, args: Args)
    | Adding(data: seq<string>, hash: string, nonce: string, minedCount: nat, minedTip: Tip, args: Args)
    | Tried
    | Sending(sent: seq<Block>, next: nat)

  /** `peers` is `listOfNodes`. */
  datatype Node = Node(chain: seq<Block>, peers: seq<Port>, phase: Phase)

  /** A node that has not started its server: it announces itself to each port, then asks each for its chain. */
  datatype Joiner = Joiner(ports: seq<Port>, announced: nat, asked: nat, replies: seq<seq<Block>>)

  /** A `/newchain` request carrying `Encoded(chain)`. */
  datatype Message = Message(to: Port, chain: seq<Block>)

  /** `hashed` is history: strings that were given to `sha256`, namely the headers found by mining and everything hashed
      when `addBlock` tried a mined block. */
  datatype State = State(nodes: map<Port, Node>, joiners: map<Port, Joiner>, inFlight: multiset<Message>,
                         hashed: set<string>)

  datatype LocalStep =
    | StartMining(text: string)
    | ReadCount
    | ReadTip
    | FindNonce
    | AddMined
    | TakeSnapshot
    | SendNext
    | FinishSending

  /** `reached` tells whether a request got through. */
  datatype Action =
    | Local(port: Port, step: LocalStep)
    | Deliver(message: Message)
    | Lose(message: Message)
    | StartFirst(port: Port)
    | StartJoin(port: Port, ports: seq<Port>)
    | Announce(port: Port, reached: bool)
    | AskChain(port: Port, reached: bool)
    | FinishJoin(port: Port)
    | Stop(port: Port)

  const EMPTY := State(map[], map[], multiset{}, {})

  function CurrentTip(chain: seq<Block>): Tip
    requires |chain| > 0
  {
    Tip(chain[|chain| - 1].hash, |chain|)
  }

  /** Reads one of the two arguments, if that was not done yet. */
  function Read(args: Args, chain: seq<Block>, step: LocalStep): Args
    requires |chain| > 0
  {
    if step == ReadCount && args.count.None? then args.(count := Some(|chain|))
    else if step == ReadTip && args.tip.None? then args.(tip := Some(CurrentTip(chain)))
    else args
  }

  datatype Effect = Effect(node: Node, hashed: set<string>, sent: multiset<Message>)

  /** One step of the command loop: the node afterwards, strings hashed, and a message sent. A step that is not
      next in the program leaves the node as it is. */
  ghost function NodeStep(h: Hasher, n: Node, step: LocalStep): Effect
    requires |n.chain| > 0
  {
    match n.phase
    case Idle => Effect(if step.StartMining? then n.(phase := Mining([step.text], NOT_READ)) else n, {}, multiset{})
    case Mining(data, args) =>
      if step == FindNonce && args.Complete() then
        var (count, tip) := (args.count.value, args.tip.value);
        var (hash, nonce) := Mined(h, count, tip.hash, data);
        Effect(n.(phase := Adding(data, hash, nonce, count, tip, NOT_READ)),
               if hash == "fail" then {} else {Stem(h, count, tip.hash, data) + nonce}, multiset{})
      else Effect(n.(phase := Mining(data, Read(args, n.chain, step))), {}, multiset{})
    case Adding(data, hash, nonce, minedCount, minedTip, args) =>
      if step == AddMined && args.Complete() then
        var b := Block(args.count.value, args.tip.value.hash, hash, nonce, data);
        Effect(n.(phase := Tried, chain := Added(h, n.chain, b)), BlockInputs(h, b), multiset{})
      else
        Effect(n.(phase := Adding(data, hash, nonce, minedCount, minedTip, Read(args, n.chain, step))), {}, multiset{})
    case Tried => Effect(if step == TakeSnapshot then n.(phase := Sending(n.chain, 0)) else n, {}, multiset{})
    case Sending(chain, next) =>
      if step == SendNext && next < |n.peers| then
        Effect(n.(phase := Sending(chain, next + 1)), {}, multiset{Message(n.peers[next], chain)})
      else Effect(if step == FinishSending && next >= |n.peers| then n.(phase := Idle) else n, {}, multiset{})
  }

  function EncodedAll(replies: seq<seq<Block>>): (r: seq<ChainJson>)
    ensures |r| == |replies|
  {
    seq(|replies|, i requires 0 <= i < |replies| => Encoded(replies[i]))
  }

  /** The chain a joining node starts its server with. */
  function JoinedChain(h: Hasher, replies: seq<seq<Block>>): seq<Block>
    requires |replies| > 0
  {
    var vect := EncodedAll(replies);
    AddEntries(h, [Genesis(h)], vect[Longest(Lengths(vect), |vect|)], 1).0
  }

  /** One step of the network. An action that is not possible in `s` changes nothing. */
  ghost function Apply(h: Hasher, s: State, a: Action): State {
    match a
    case Local(p, step) =>
      if p in s.nodes && |s.nodes[p].chain| > 0 then
        var e := NodeStep(h, s.nodes[p], step);
        s.(nodes := s.nodes[p := e.node], hashed := s.hashed + e.hashed, inFlight := s.inFlight + e.sent)
      else s
    case Deliver(m) =>
      if m !in s.inFlight then s
      else
        var s' := s.(inFlight := s.inFlight - multiset{m});
        if m.to !in s.nodes then s' else
          var n := s.nodes[m.to];
          s'.(nodes := s.nodes[m.to := n.(chain := OnNewChain(h, n.chain, Encoded(m.chain)))])
    case Lose(m) => s.(inFlight := s.inFlight - multiset{m})
    case StartFirst(p) =>
      if p in s.nodes || p in s.joiners then s
      else s.(nodes := s.nodes[p := Node([Genesis(h)], [], Idle)])
    case StartJoin(p, ports) =>
      if p in s.nodes || p in s.joiners then s else s.(joiners := s.joiners[p := Joiner(ports, 0, 0, [])])
    case Announce(p, reached) =>
      if p !in s.joiners || s.joiners[p].announced >= |s.joiners[p].ports| then s
      else
        var j := s.joiners[p];
        var target := j.ports[j.announced];
        var s' := s.(joiners := s.joiners[p := j.(announced := j.announced + 1)]);
        if reached && target in s.nodes then
          s'.(nodes := s.nodes[target := s.nodes[target].(peers := s.nodes[target].peers + [p])])
        else s'
    case AskChain(p, reached) =>
      if p !in s.joiners || s.joiners[p].announced < |s.joiners[p].ports|
        || s.joiners[p].asked >= |s.joiners[p].ports| then s
      else
        var j := s.joiners[p];
        var target := j.ports[j.asked];
        var replies := if reached && target in s.nodes then j.replies + [s.nodes[target].chain] else j.replies;
        s.(joiners := s.joiners[p := j.(asked := j.asked + 1, replies := replies)])
    case FinishJoin(p) =>
      if p !in s.joiners || s.joiners[p].asked < |s.joiners[p].ports| then s
      else
        var j := s.joiners[p];
        var s' := s.(joiners := s.joiners - {p});
        if j.replies == [] then s'
        else s'.(nodes := s.nodes[p := Node(JoinedChain(h, j.replies), j.ports, Idle)])
    case Stop(p) => s.(nodes := s.nodes - {p})
  }

  ghost function Run(h: Hasher, s: State, actions: seq<Action>): State
    decreases |actions|
  {
    if actions == [] then s else Run(h, Apply(h, s, actions[0]), actions[1..])
  }

  lemma {:induction false} RunAppend(h: Hasher, s: State, xs: seq<Action>, ys: seq<Action>)
    ensures Run(h, s, xs + ys) == Run(h, Run(h, s, xs), ys)
    decreases |xs|
  {
    if xs == [] {
      assert xs + ys == ys;
    } else {
      assert (xs + ys)[1..] == xs[1..] + ys;
      RunAppend(h, Apply(h, s, xs[0]), xs[1..], ys);
    }
  }

  /** What holds of every chain anywhere in the network. Its links depend on the digests of hashed strings not
      clashing. */
  ghost predicate Sound(h: Hasher, hashed: set<string>, chain: seq<Block>) {
    && |chain| > 0 && chain[0] == Genesis(h)
    && SelfConsistent(h, chain)
    && (forall b | b in chain :: |b.data| == 1)
    && ShortNonces(chain)
    && ChainInputs(h, chain) <= hashed
    && (ClashFree(h, hashed) ==> Linked(chain))
  }

  /** The length of the hash of a block at a given height; a failed search for the first block leaves "fail" there. */
  function HashLength(h: Hasher, height: nat): nat {
    if height == 1 then |Genesis(h).hash| else DIGEST_LENGTH
  }

  ghost predicate TipOk(h: Hasher, chain: seq<Block>, tip: Tip) {
    && 1 <= tip.length <= |chain|
    && |tip.hash| == HashLength(h, tip.length)
    && (tip.length == |chain| ==> tip.hash == chain[|chain| - 1].hash)
  }

  ghost predicate ArgsOk(h: Hasher, chain: seq<Block>, args: Args) {
    && (args.count.Some? ==> args.count.value <= |chain|)
    && (args.tip.Some? ==> TipOk(h, chain, args.tip.value))
  }

  ghost predicate PhaseOk(h: Hasher, hashed: set<string>, n: Node) {
    match n.phase
    case Idle => true
    case Mining(data, args) => |data| == 1 && ArgsOk(h, n.chain, args)
    case Adding(data, hash, nonce, minedCount, minedTip, args) =>
      && |data| == 1 && |nonce| < DIGEST_LENGTH && ArgsOk(h, n.chain, args)
      && minedCount <= |n.chain| && TipOk(h, n.chain, minedTip)
      && (hash == "fail"
          || (hash == h(Stem(h, minedCount, minedTip.hash, data) + nonce)
              && Stem(h, minedCount, minedTip.hash, data) + nonce in hashed))
      && (args.tip.Some? ==> minedCount <= args.tip.value.length && minedTip.length <= args.tip.value.length)
    case Tried => true
    case Sending(chain, _) => Sound(h, hashed, chain) && |chain| <= |n.chain|
  }

  ghost predicate NodeOk(h: Hasher, hashed: set<string>, n: Node) {
    Sound(h, hashed, n.chain) && PhaseOk(h, hashed, n)
  }

  ghost predicate JoinerOk(h: Hasher, hashed: set<string>, j: Joiner) {
    forall i | 0 <= i < |j.replies| :: Sound(h, hashed, j.replies[i])
  }

  ghost predicate Inv(h: Hasher, s: State) {
    && s.nodes.Keys !! s.joiners.Keys
    && (forall p | p in s.nodes :: NodeOk(h, s.hashed, s.nodes[p]))
    && (forall p | p in s.joiners :: JoinerOk(h, s.hashed, s.joiners[p]))
    && (forall m | m in s.inFlight :: Sound(h, s.hashed, m.chain))
  }

  // --- Growing the history keeps what holds ---

  lemma SoundGrows(h: Hasher, xs: set<string>, ys: set<string>, chain: seq<Block>)
    requires xs <= ys && Sound(h, xs, chain)
    ensures Sound(h, ys, chain)
  {
  }

  lemma NodeOkGrows(h: Hasher, xs: set<string>, ys: set<string>, n: Node)
    requires xs <= ys && NodeOk(h, xs, n)
    ensures NodeOk(h, ys, n)
  {
    SoundGrows(h, xs, ys, n.chain);
    if n.phase.Sending? {
      SoundGrows(h, xs, ys, n.phase.sent);
    }
  }

  /** Replacing nodes by good ones, adding good messages and enlarging the history keeps the invariant. */
  lemma InvGrows(h: Hasher, s: State, s': State)
    requires Inv(h, s) && s.hashed <= s'.hashed && s'.nodes.Keys !! s'.joiners.Keys
    requires forall p | p in s'.nodes ::
               (p in s.nodes && s'.nodes[p] == s.nodes[p]) || NodeOk(h, s'.hashed, s'.nodes[p])
    requires forall p | p in s'.joiners ::
               (p in s.joiners && s'.joiners[p] == s.joiners[p]) || JoinerOk(h, s'.hashed, s'.joiners[p])
    requires forall m | m in s'.inFlight :: m in s.inFlight || Sound(h, s'.hashed, m.chain)
    ensures Inv(h, s')
  {
    forall p | p in s'.nodes ensures NodeOk(h, s'.hashed, s'.nodes[p]) {
      if p in s.nodes && s'.nodes[p] == s.nodes[p] {
        NodeOkGrows(h, s.hashed, s'.hashed, s.nodes[p]);
      }
    }
    forall p | p in s'.joiners ensures JoinerOk(h, s'.hashed, s'.joiners[p]) {
      if p in s.joiners && s'.joiners[p] == s.joiners[p] {
        forall i | 0 <= i < |s.joiners[p].replies| {
          SoundGrows(h, s.hashed, s'.hashed, s.joiners[p].replies[i]);
        }
      }
    }
    forall m | m in s'.inFlight ensures Sound(h, s'.hashed, m.chain) {
      if m in s.inFlight {
        SoundGrows(h, s.hashed, s'.hashed, m.chain);
      }
    }
  }

  // --- The steps ---

  lemma GenesisSound(h: Hasher)
    ensures Sound(h, {}, [Genesis(h)])
  {
    assert forall b | b in [Genesis(h)] :: b == Genesis(h);
  }

  lemma SoundTip(h: Hasher, hashed: set<string>, chain: seq<Block>)
    requires Sound(h, hashed, chain)
    ensures TipOk(h, chain, CurrentTip(chain))
  {
    if |chain| > 1 {
      DigestShape(h, Header(h, chain[|chain| - 1]));
    }
  }

  lemma {:induction false} DecimalNatLength(m: nat, n: nat)
    requires m <= n
    ensures |DecimalNat(m)| <= |DecimalNat(n)|
  {
    if m >= 10 {
      DecimalNatLength(m / 10, n / 10);
    }
  }

  /** The one race that matters: the tip given to `addBlock` was read before a replacement and the count after it.
      Then the header that was mined and the header that is checked are different strings. */
  lemma StaleHeaderDiffers(h: Hasher, data: seq<string>, nonce: string, minedCount: nat, minedTip: Tip,
                           count: nat, tip: Tip)
    requires minedCount <= tip.length < count && 1 <= minedTip.length <= tip.length
    requires |minedTip.hash| == HashLength(h, minedTip.length) && |tip.hash| == HashLength(h, tip.length)
    ensures Stem(h, minedCount, minedTip.hash, data) + nonce != Stem(h, count, tip.hash, data) + nonce
  {
    var x, y := Stem(h, minedCount, minedTip.hash, data) + nonce, Stem(h, count, tip.hash, data) + nonce;
    var dx, dy := Decimal(minedCount), Decimal(count);
    DecimalNatLength(minedCount, count);
    if x == y {
      assert |Genesis(h).hash| <= DIGEST_LENGTH by {
        MinedHashes(h, 0, GENESIS_PREVIOUS_HASH, GENESIS_DATA);
        DigestShape(h, Header(h, Genesis(h)));
      }
      assert |dx| == |dy|;
      assert x[..|dx|] == dx && y[..|dy|] == dy;
      DecimalInjective(minedCount, count);
    }
  }

  /** Appending an accepted, linked block with one datum to a sound chain. */
  lemma SoundAppend(h: Hasher, xs: set<string>, ys: set<string>, chain: seq<Block>, b: Block)
    requires Sound(h, xs, chain) && xs + BlockInputs(h, b) <= ys
    requires Accepted(h, |chain|, b) && |b.data| == 1 && |b.nonce| < DIGEST_LENGTH
    requires ClashFree(h, ys) ==> b.previousHash == chain[|chain| - 1].hash
    ensures Sound(h, ys, chain + [b])
  {
    SoundGrows(h, xs, ys, chain);
    var longer := chain + [b];
    forall x | x in ChainInputs(h, longer) ensures x in ys {
      var i :| 1 <= i < |longer| && x in BlockInputs(h, longer[i]);
      if i < |chain| {
        assert x in BlockInputs(h, chain[i]) && x in ChainInputs(h, chain);
      }
    }
  }

  lemma AddMinedOk(h: Hasher, hashed: set<string>, n: Node)
    requires NodeOk(h, hashed, n) && n.phase.Adding? && n.phase.args.Complete()
    ensures var e := NodeStep(h, n, AddMined);
            NodeOk(h, hashed + e.hashed, e.node)
  {
    var Adding(data, hash, nonce, minedCount, minedTip, args) := n.phase;
    var count, tip := args.count.value, args.tip.value;
    var b := Block(count, tip.hash, hash, nonce, data);
    var ys := hashed + BlockInputs(h, b);
    if Accepted(h, |n.chain|, b) {
      if tip.length < |n.chain| {
        StaleHeaderDiffers(h, data, nonce, minedCount, minedTip, count, tip);
        ClashWitness(h, Stem(h, minedCount, minedTip.hash, data) + nonce, Header(h, b), ys, ys);
      }
      SoundAppend(h, hashed, ys, n.chain, b);
    } else {
      SoundGrows(h, hashed, ys, n.chain);
    }
  }

  lemma FindNonceOk(h: Hasher, hashed: set<string>, n: Node)
    requires NodeOk(h, hashed, n) && n.phase.Mining? && n.phase.args.Complete()
    ensures var e := NodeStep(h, n, FindNonce);
            NodeOk(h, hashed + e.hashed, e.node)
  {
    NodeOkGrows(h, hashed, hashed + NodeStep(h, n, FindNonce).hashed, n);
    MinedHashes(h, n.phase.args.count.value, n.phase.args.tip.value.hash, n.phase.data);
    MinedNonceIsShort(h, n.phase.args.count.value, n.phase.args.tip.value.hash, n.phase.data);
  }

  lemma NodeStepKeepsOk(h: Hasher, hashed: set<string>, n: Node, step: LocalStep)
    requires NodeOk(h, hashed, n)
    ensures var e := NodeStep(h, n, step);
            NodeOk(h, hashed + e.hashed, e.node)
  {
    if n.phase.Adding? && step == AddMined && n.phase.args.Complete() {
      AddMinedOk(h, hashed, n);
    } else if n.phase.Mining? && step == FindNonce && n.phase.args.Complete() {
      FindNonceOk(h, hashed, n);
    } else {
      NodeOkGrows(h, hashed, hashed + NodeStep(h, n, step).hashed, n);
      SoundTip(h, hashed, n.chain);
    }
  }

  lemma NodeStepOk(h: Hasher, hashed: set<string>, n: Node, step: LocalStep)
    requires NodeOk(h, hashed, n)
    ensures var e := NodeStep(h, n, step);
            && NodeOk(h, hashed + e.hashed, e.node)
            && (forall m | m in e.sent :: Sound(h, hashed, m.chain))
            && n.chain <= e.node.chain && e.node.peers == n.peers
  {
    NodeStepKeepsOk(h, hashed, n, step);
  }

  /** Delivery of a sound chain: it is adopted block for block when longer, and ignored otherwise. */
  lemma DeliveryAdopts(h: Hasher, hashed: set<string>, own: seq<Block>, sent: seq<Block>)
    requires Sound(h, hashed, own) && Sound(h, hashed, sent)
    ensures OnNewChain(h, own, Encoded(sent)) == if |sent| > |own| then sent else own
  {
    ReplacedByConsistent(h, own, sent);
  }

  lemma DeliverNodeOk(h: Hasher, hashed: set<string>, n: Node, sent: seq<Block>)
    requires NodeOk(h, hashed, n) && Sound(h, hashed, sent)
    ensures NodeOk(h, hashed, n.(chain := OnNewChain(h, n.chain, Encoded(sent))))
  {
    DeliveryAdopts(h, hashed, n.chain, sent);
  }

  /** A joining node starts with the first of the longest chains it was given. */
  lemma JoinAdopts(h: Hasher, hashed: set<string>, replies: seq<seq<Block>>)
    requires |replies| > 0 && forall i | 0 <= i < |replies| :: Sound(h, hashed, replies[i])
    ensures var chain := JoinedChain(h, replies);
            chain in replies && forall i | 0 <= i < |replies| :: |replies[i]| <= |chain|
  {
    var vect := EncodedAll(replies);
    var lengths := Lengths(vect);
    LongestIsFirstMaximum(lengths, |vect|);
    assert lengths[0] > 0;
    var i := Longest(lengths, |vect|);
    assert forall k | 0 <= k < |vect| :: lengths[k] == |replies[k]|;
    ReplacedByConsistent(h, [Genesis(h)], replies[i]);
  }

  lemma LocalKeepsInv(h: Hasher, s: State, p: Port, step: LocalStep)
    requires Inv(h, s)
    ensures Inv(h, Apply(h, s, Local(p, step))) && s.hashed <= Apply(h, s, Local(p, step)).hashed
  {
    if p in s.nodes {
      var s' := Apply(h, s, Local(p, step));
      NodeStepOk(h, s.hashed, s.nodes[p], step);
      forall m | m in NodeStep(h, s.nodes[p], step).sent ensures Sound(h, s'.hashed, m.chain) {
        SoundGrows(h, s.hashed, s'.hashed, m.chain);
      }
      InvGrows(h, s, s');
    }
  }

  lemma DeliverKeepsInv(h: Hasher, s: State, m: Message)
    requires Inv(h, s)
    ensures Inv(h, Apply(h, s, Deliver(m))) && s.hashed <= Apply(h, s, Deliver(m)).hashed
  {
    if m in s.inFlight {
      if m.to in s.nodes {
        DeliverNodeOk(h, s.hashed, s.nodes[m.to], m.chain);
      }
      InvGrows(h, s, Apply(h, s, Deliver(m)));
    }
  }

  lemma StartKeepsInv(h: Hasher, s: State, p: Port)
    requires Inv(h, s)
    ensures Inv(h, Apply(h, s, StartFirst(p))) && s.hashed <= Apply(h, s, StartFirst(p)).hashed
  {
    GenesisSound(h);
    SoundGrows(h, {}, s.hashed, [Genesis(h)]);
    InvGrows(h, s, Apply(h, s, StartFirst(p)));
  }

  lemma FinishJoinKeepsInv(h: Hasher, s: State, p: Port)
    requires Inv(h, s)
    ensures Inv(h, Apply(h, s, FinishJoin(p))) && s.hashed <= Apply(h, s, FinishJoin(p)).hashed
  {
    if p in s.joiners && s.joiners[p].replies != [] {
      JoinAdopts(h, s.hashed, s.joiners[p].replies);
    }
    InvGrows(h, s, Apply(h, s, FinishJoin(p)));
  }

  lemma AnnounceKeepsInv(h: Hasher, s: State, p: Port, reached: bool)
    requires Inv(h, s)
    ensures Inv(h, Apply(h, s, Announce(p, reached))) && s.hashed <= Apply(h, s, Announce(p, reached)).hashed
  {
    InvGrows(h, s, Apply(h, s, Announce(p, reached)));
  }

  lemma AskChainKeepsInv(h: Hasher, s: State, p: Port, reached: bool)
    requires Inv(h, s)
    ensures Inv(h, Apply(h, s, AskChain(p, reached))) && s.hashed <= Apply(h, s, AskChain(p, reached)).hashed
  {
    InvGrows(h, s, Apply(h, s, AskChain(p, reached)));
  }

  lemma LoseKeepsInv(h: Hasher, s: State, m: Message)
    requires Inv(h, s)
    ensures Inv(h, Apply(h, s, Lose(m))) && s.hashed <= Apply(h, s, Lose(m)).hashed
  {
    InvGrows(h, s, Apply(h, s, Lose(m)));
  }

  lemma StartJoinKeepsInv(h: Hasher, s: State, p: Port, ports: seq<Port>)
    requires Inv(h, s)
    ensures Inv(h, Apply(h, s, StartJoin(p, ports))) && s.hashed <= Apply(h, s, StartJoin(p, ports)).hashed
  {
    InvGrows(h, s, Apply(h, s, StartJoin(p, ports)));
  }

  lemma StopKeepsInv(h: Hasher, s: State, p: Port)
    requires Inv(h, s)
    ensures Inv(h, Apply(h, s, Stop(p))) && s.hashed <= Apply(h, s, Stop(p)).hashed
  {
    InvGrows(h, s, Apply(h, s, Stop(p)));
  }

  lemma StepKeepsInv(h: Hasher, s: State, a: Action)
    requires Inv(h, s)
    ensures Inv(h, Apply(h, s, a)) && s.hashed <= Apply(h, s, a).hashed
  {
    match a
    case Lose(m) => LoseKeepsInv(h, s, m);
    case StartJoin(p, ports) => StartJoinKeepsInv(h, s, p, ports);
    case Stop(p) => StopKeepsInv(h, s, p);
    case Local(p, step) => LocalKeepsInv(h, s, p, step);
    case Deliver(m) => DeliverKeepsInv(h, s, m);
    case StartFirst(p) => StartKeepsInv(h, s, p);
    case FinishJoin(p) => FinishJoinKeepsInv(h, s, p);
    case Announce(p, reached) => AnnounceKeepsInv(h, s, p, reached);
    case AskChain(p, reached) => AskChainKeepsInv(h, s, p, reached);
  }

  lemma {:induction false} RunKeepsInv(h: Hasher, s: State, actions: seq<Action>)
    requires Inv(h, s)
    ensures Inv(h, Run(h, s, actions)) && s.hashed <= Run(h, s, actions).hashed
    decreases |actions|
  {
    if actions != [] {
      StepKeepsInv(h, s, actions[0]);
      RunKeepsInv(h, Apply(h, s, actions[0]), actions[1..]);
    }
  }

  // --- Results over whole runs ---

  /** After any sequence of steps, every chain held by a node, in flight, or given to a joining node starts with the
      common first block, has each block at its index and accepted, and is linked unless digests of hashed
      strings clash. */
  lemma ChainsAreSound(h: Hasher, actions: seq<Action>)
    ensures var s := Run(h, EMPTY, actions);
            && (forall p | p in s.nodes :: Sound(h, s.hashed, s.nodes[p].chain))
            && (forall m | m in s.inFlight :: Sound(h, s.hashed, m.chain))
            && (forall p, i | p in s.joiners && 0 <= i < |s.joiners[p].replies| ::
                  Sound(h, s.hashed, s.joiners[p].replies[i]))
            && (ClashFree(h, s.hashed) ==> forall p | p in s.nodes :: Grown(h, s.nodes[p].chain))
  {
    RunKeepsInv(h, EMPTY, actions);
    var s := Run(h, EMPTY, actions);
    assert forall p | p in s.nodes :: NodeOk(h, s.hashed, s.nodes[p]);
    assert forall p | p in s.joiners :: JoinerOk(h, s.hashed, s.joiners[p]);
  }

  /** Two chains of equal length anywhere in the network with the same last hash are the same chain. */
  lemma SoundTipsDetermine(h: Hasher, hashed: set<string>, a: seq<Block>, b: seq<Block>)
    requires ClashFree(h, hashed) && Sound(h, hashed, a) && Sound(h, hashed, b)
    requires |a| == |b| && a[|a| - 1].hash == b[|b| - 1].hash
    ensures a == b
  {
    assert SameCounts(a, b) by {
      forall i | 0 <= i < |a| ensures |a[i].data| == |b[i].data| {
        assert a[i] in a && b[i] in b;
      }
    }
    TipDeterminesChain(h, a, b);
    assert ClashBetween(h, ChainInputs(h, a), ChainInputs(h, b)) ==> ClashBetween(h, hashed, hashed);
  }

  /** Two nodes with chains of equal length agree on every block exactly when they agree on the last hash,
      as long as no digests of hashed strings clash. */
  lemma AgreementIff(h: Hasher, actions: seq<Action>, p: Port, q: Port)
    requires var s := Run(h, EMPTY, actions);
             p in s.nodes && q in s.nodes && ClashFree(h, s.hashed)
    requires var s := Run(h, EMPTY, actions);
             |s.nodes[p].chain| == |s.nodes[q].chain|
    ensures var s := Run(h, EMPTY, actions);
            var (a, b) := (s.nodes[p].chain, s.nodes[q].chain);
            && |a| > 0 && |b| > 0
            && (a == b <==> a[|a| - 1].hash == b[|b| - 1].hash)
  {
    ChainsAreSound(h, actions);
    var s := Run(h, EMPTY, actions);
    var (a, b) := (s.nodes[p].chain, s.nodes[q].chain);
    if a[|a| - 1].hash == b[|b| - 1].hash {
      SoundTipsDetermine(h, s.hashed, a, b);
    }
  }

  /** In every run without a clash the last hash of a node determines its chain, among all accepted and linked chains of
      its length and up to clashes, if and only if it has nothing but the first block: the data of every mined block can
      be moved into its nonce. */
  lemma TipAloneIff(h: Hasher, actions: seq<Action>, p: Port)
    requires var s := Run(h, EMPTY, actions); p in s.nodes && ClashFree(h, s.hashed)
    ensures var a := Run(h, EMPTY, actions).nodes[p].chain; TipDetermines(h, a) <==> |a| == 1
  {
    ChainsAreSound(h, actions);
    var s := Run(h, EMPTY, actions);
    var a := s.nodes[p].chain;
    assert ClashFree(h, ChainInputs(h, a));
    TipAloneDeterminesIff(h, a);
    assert |a| > 1 ==> a[1] in a && a[1].data != [];
  }

  /** How a step may change the chain of one node: one block more, or a strictly longer chain that was in flight,
      taken over block for block. */
  ghost predicate ChainMoves(s: State, a: Action, p: Port, before: seq<Block>, after: seq<Block>) {
    || after == before
    || (a == Local(p, AddMined) && |after| == |before| + 1 && before < after)
    || (a.Deliver? && a.message in s.inFlight && a.message.to == p && |after| > |before| && after == a.message.chain)
  }

  lemma LocalMoves(h: Hasher, s: State, q: Port, step: LocalStep, p: Port)
    requires Inv(h, s) && p in s.nodes
    ensures p in Apply(h, s, Local(q, step)).nodes
    ensures ChainMoves(s, Local(q, step), p, s.nodes[p].chain, Apply(h, s, Local(q, step)).nodes[p].chain)
  {
    if q == p {
      var e := NodeStep(h, s.nodes[p], step);
      assert e.node.chain != s.nodes[p].chain ==> step == AddMined && |e.node.chain| == |s.nodes[p].chain| + 1;
      NodeStepOk(h, s.hashed, s.nodes[p], step);
    }
  }

  lemma DeliverMoves(h: Hasher, s: State, m: Message, p: Port)
    requires Inv(h, s) && p in s.nodes
    ensures p in Apply(h, s, Deliver(m)).nodes
    ensures ChainMoves(s, Deliver(m), p, s.nodes[p].chain, Apply(h, s, Deliver(m)).nodes[p].chain)
  {
    if m in s.inFlight && m.to == p {
      assert NodeOk(h, s.hashed, s.nodes[p]);
      DeliveryAdopts(h, s.hashed, s.nodes[p].chain, m.chain);
    }
  }

  /** Every step that does not stop the node moves its chain in one of these ways. */
  lemma ChainSteps(h: Hasher, s: State, a: Action, p: Port)
    requires Inv(h, s) && p in s.nodes && a != Stop(p)
    ensures p in Apply(h, s, a).nodes
    ensures ChainMoves(s, a, p, s.nodes[p].chain, Apply(h, s, a).nodes[p].chain)
  {
    match a
    case Local(q, step) => LocalMoves(h, s, q, step, p);
    case Deliver(m) => DeliverMoves(h, s, m, p);
    case _ =>
  }

  /** The chain of a running node never gets shorter, and is never exchanged for another of the same length. */
  lemma {:induction false} ChainNeverShrinks(h: Hasher, s: State, actions: seq<Action>, p: Port)
    requires Inv(h, s) && p in s.nodes && Stop(p) !in actions
    ensures var s' := Run(h, s, actions);
            && p in s'.nodes
            && |s.nodes[p].chain| <= |s'.nodes[p].chain|
            && (|s.nodes[p].chain| == |s'.nodes[p].chain| ==> s.nodes[p].chain == s'.nodes[p].chain)
    decreases |actions|
  {
    if actions != [] {
      var s1 := Apply(h, s, actions[0]);
      StepKeepsInv(h, s, actions[0]);
      ChainSteps(h, s, actions[0], p);
      ChainNeverShrinks(h, s1, actions[1..], p);
    }
  }
}
