/** One node run without interference: the handlers and the command loop of `main.cpp`, and the client calls
    of `requests.hpp`. `Network` runs the same operations split into atomic steps. */
module NodeServer {
  import opened Hashing
  import opened BlockChain

  /** The chain after the `/newchain` handler: only a longer chain replaces the own one. */
  function OnNewChain(h: Hasher, chain: seq<Block>, json: ChainJson): seq<Block> {
    if json.length > |chain| then Replaced(h, chain, json).0 else chain
  }

  function Max(lengths: seq<int>, n: nat): int
    requires n <= |lengths|
  {
    if n == 0 then 0 else if Max(lengths, n - 1) < lengths[n - 1] then lengths[n - 1] else Max(lengths, n - 1)
  }

  /** Which of the first `n` replies `getChainFromNodes` holds on to. */
  function Longest(lengths: seq<int>, n: nat): (i: nat)
    requires n <= |lengths|
    ensures i < n || i == 0
  {
    if n == 0 then 0 else if Max(lengths, n - 1) < lengths[n - 1] then n - 1 else Longest(lengths, n - 1)
  }

  /** It is the first of the longest, when any reply has a positive length. */
  lemma {:induction false} LongestIsFirstMaximum(lengths: seq<int>, n: nat)
    requires 0 < n <= |lengths|
    ensures var i := Longest(lengths, n);
            && (forall j | 0 <= j < n :: lengths[j] <= Max(lengths, n))
            && (Max(lengths, n) > 0 ==>
                  lengths[i] == Max(lengths, n) && forall j | 0 <= j < i :: lengths[j] < lengths[i])
            && (Max(lengths, n) == 0 ==> i == 0)
            && Max(lengths, n) >= 0
  {
    if n > 1 {
      LongestIsFirstMaximum(lengths, n - 1);
    }
  }

  function Lengths(replies: seq<ChainJson>): (r: seq<int>)
    ensures |r| == |replies|
  {
    seq(|replies|, i requires 0 <= i < |replies| => replies[i].length)
  }

  /** The selection loop of `getChainFromNodes`; without any reply the source reads past the end of its vector. */
  method PickLongest(vect: seq<ChainJson>) returns (biggest: ChainJson)
    requires |vect| > 0
    ensures biggest == vect[Longest(Lengths(vect), |vect|)]
  {
    biggest := vect[0];
    var max := 0;
    var i := 0;
    while i < |vect|
      invariant 0 <= i <= |vect|
      invariant max == Max(Lengths(vect), i)
      invariant biggest == vect[Longest(Lengths(vect), i)]
    {
      if max < vect[i].length {
        max := vect[i].length;
        biggest := vect[i];
      }
      i := i + 1;
    }
  }

  datatype Post = Post(port: int, json: ChainJson)

  /** `sendNewChain`: one post to each known node, in order. */
  method SendNewChain(listOfNodes: seq<int>, json: ChainJson) returns (posts: seq<Post>)
    ensures |posts| == |listOfNodes|
    ensures forall i | 0 <= i < |posts| :: posts[i] == Post(listOfNodes[i], json)
  {
    posts := [];
    var a := 0;
    while a < |listOfNodes|
      invariant 0 <= a <= |listOfNodes| && |posts| == a
      invariant forall i | 0 <= i < a :: posts[i] == Post(listOfNodes[i], json)
    {
      posts := posts + [Post(listOfNodes[a], json)];
      a := a + 1;
    }
  }

  /** Without interference a mined block is always accepted, and a failed search never is. */
  lemma MinedIsAccepted(h: Hasher, count: nat, tip: string, data: seq<string>)
    ensures var (hash, nonce) := Mined(h, count, tip, data);
            Accepted(h, count, Block(count, tip, hash, nonce, data)) <==> hash != "fail"
  {
    var _ := SearchFindsLeast(h, Stem(h, count, tip, data), 0);
    var (hash, nonce) := Mined(h, count, tip, data);
    DigestShape(h, Header(h, Block(count, tip, hash, nonce, data)));
  }

  class NodeServer {
    const h: Hasher
    const bc: BlockChain
    var listOfNodes: seq<int>

    ghost predicate Valid()
      reads this, bc
    {
      bc.h == h && bc.Valid() && |bc.blockchain| > 0 && bc.blockchain[0] == Genesis(h)
    }

    /** A node that starts the network. */
    constructor First(h: Hasher)
      ensures Valid() && fresh(bc) && this.h == h
      ensures bc.blockchain == [Genesis(h)] && listOfNodes == []
    {
      this.h := h;
      this.bc := new BlockChain(h, 0);
      this.listOfNodes := [];
    }

    /** A node that goes on from what it has loaded. */
    constructor Loaded(h: Hasher, bc: BlockChain, ports: seq<int>)
      requires bc.Valid() && bc.h == h && |bc.blockchain| > 0 && bc.blockchain[0] == Genesis(h)
      ensures Valid() && this.h == h && this.bc == bc && listOfNodes == ports
    {
      this.h, this.bc, listOfNodes := h, bc, ports;
    }

    /** A node that joins with the given ports and the replies they gave to `/latestchain`. Nothing catches the
        exception of an entry that cannot be read: it ends the program, and there is no node. */
    static method Join(h: Hasher, ports: seq<int>, replies: seq<ChainJson>) returns (node: NodeServer?)
      requires |replies| > 0
      ensures var (chain, complete) := AddEntries(h, [Genesis(h)], replies[Longest(Lengths(replies), |replies|)], 1);
              && (node != null <==> complete)
              && (complete ==> fresh(node) && fresh(node.bc) && node.Valid() && node.h == h
                               && node.listOfNodes == ports && node.bc.blockchain == chain)
    {
      var chain := PickLongest(replies);
      var bc := new BlockChain(h, 0);
      var a := 1;
      while a < chain.length
        invariant 1 <= a && bc.Valid() && bc.h == h && |bc.blockchain| > 0 && bc.blockchain[0] == Genesis(h)
        invariant AddEntries(h, bc.blockchain, chain, a) == AddEntries(h, [Genesis(h)], chain, 1)
        decreases chain.length - a
      {
        var entry := chain.Entry(a);
        if entry.None? {
          return null;
        }
        var block := entry.value;
        var _ := bc.AddBlock(block.index, block.previousHash, block.hash, block.nonce, block.data);
        a := a + 1;
      }
      node := new NodeServer.Loaded(h, bc, ports);
    }

    method HandleAddNode(port: int)
      modifies this
      ensures listOfNodes == old(listOfNodes) + [port]
    {
      listOfNodes := listOfNodes + [port];
    }

    method HandleNewChain(content: ChainJson) returns (replaced: bool)
      requires Valid()
      modifies bc
      ensures Valid()
      ensures bc.blockchain == OnNewChain(h, old(bc.blockchain), content)
      ensures replaced == (content.length > |old(bc.blockchain)| && Replaced(h, old(bc.blockchain), content).1)
    {
      if content.length > bc.GetNumOfBlocks() {
        AddEntriesConsistent(h, FirstOnly(bc.blockchain), content, 1);
        replaced := bc.ReplaceChain(content);
      } else {
        replaced := false;
      }
    }

    /** Command 2: mine one message onto the own chain, then send the chain to every known node. */
    method MineAndBroadcast(text: string) returns (posts: seq<Post>)
      requires Valid()
      modifies bc
      ensures Valid()
      ensures var chain := old(bc.blockchain);
              var (hash, nonce) := Mined(h, |chain|, chain[|chain| - 1].hash, [text]);
              bc.blockchain == if hash == "fail" then chain
                               else chain + [Block(|chain|, chain[|chain| - 1].hash, hash, nonce, [text])]
      ensures |posts| == |listOfNodes|
      ensures forall i | 0 <= i < |posts| :: posts[i] == Post(listOfNodes[i], Encoded(bc.blockchain))
    {
      var v := [text];
      var count := bc.GetNumOfBlocks();
      var tip := bc.GetLatestBlockHash();
      MinedIsAccepted(h, count, tip, v);
      var hash, nonce := FindHash(h, count, tip, v);
      var _ := bc.AddBlock(count, tip, hash, nonce, v);
      var json := bc.ToJson();
      posts := SendNewChain(listOfNodes, json);
    }
  }
}
