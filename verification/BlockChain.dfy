/** Blocks, mining, and the chain object a node keeps (`Block.hpp`, `BlockChain.hpp`, `findHash`). */
module BlockChain {
  import opened Text
  import opened Hashing
  import opened Merkle

  datatype Block = Block(index: int, previousHash: string, hash: string, nonce: string, data: seq<string>)

  /** A chain as sent in JSON. An entry is `None` when it is absent, or when a field of it cannot be read. */
  datatype ChainJson = ChainJson(length: int, data: seq<Option<Block>>) {
    function Entry(a: nat): Option<Block> {
      if a < |data| then data[a] else None
    }
  }

  const NONCE_LIMIT: nat := 100000
  const GENESIS_PREVIOUS_HASH := "00000000000000"
  const GENESIS_DATA := ["Genesis Block!"]

  /** What a nonce is appended to. */
  function Stem(h: Hasher, index: int, previousHash: string, data: seq<string>): string {
    Decimal(index) + previousHash + MerkleRoot(h, data)
  }

  function Header(h: Hasher, b: Block): string {
    Stem(h, b.index, b.previousHash, b.data) + b.nonce
  }

  predicate MeetsTarget(hash: string) {
    |hash| >= 2 && hash[..2] == "00"
  }

  /** The search of `findHash` from a given nonce on. */
  function Search(h: Hasher, stem: string, nonce: nat): (string, string)
    decreases NONCE_LIMIT - nonce
  {
    if nonce >= NONCE_LIMIT then ("fail", "fail")
    else
      var hash := h(stem + Decimal(nonce));
      if MeetsTarget(hash) then (hash, Decimal(nonce)) else Search(h, stem, nonce + 1)
  }

  function Mined(h: Hasher, index: int, previousHash: string, data: seq<string>): (string, string) {
    Search(h, Stem(h, index, previousHash, data), 0)
  }

  method FindHash(h: Hasher, index: int, previousHash: string, merkle: seq<string>)
      returns (hash: string, nonce: string)
    ensures (hash, nonce) == Mined(h, index, previousHash, merkle)
  {
    var root := GetMerkleRoot(h, merkle);
    var header := Decimal(index) + previousHash + root;
    var n := 0;
    while n < NONCE_LIMIT
      invariant 0 <= n <= NONCE_LIMIT
      invariant Search(h, header, n) == Search(h, header, 0)
    {
      var blockHash := h(header + Decimal(n));
      if MeetsTarget(blockHash) {
        return blockHash, Decimal(n);
      }
      n := n + 1;
    }
    return "fail", "fail";
  }

  predicate Hit(h: Hasher, stem: string, nonce: nat) {
    MeetsTarget(h(stem + Decimal(nonce)))
  }

  predicate NoHit(h: Hasher, stem: string, from: nat, to: nat) {
    forall m | from <= m < to :: !Hit(h, stem, m)
  }

  lemma MissedOne(h: Hasher, stem: string, from: nat, to: nat)
    requires !Hit(h, stem, from) && NoHit(h, stem, from + 1, to)
    ensures NoHit(h, stem, from, to)
  {
  }

  /** Mining reports the smallest nonce below the limit that meets the target, and failure only if there is none. */
  lemma {:induction false} SearchFindsLeast(h: Hasher, stem: string, from: nat) returns (nonce: nat)
    ensures from <= nonce && NoHit(h, stem, from, nonce)
    ensures if nonce < NONCE_LIMIT then
              Hit(h, stem, nonce) && Search(h, stem, from) == (h(stem + Decimal(nonce)), Decimal(nonce))
            else Search(h, stem, from) == ("fail", "fail")
    decreases NONCE_LIMIT - from
  {
    nonce := from;
    if from < NONCE_LIMIT && !Hit(h, stem, from) {
      nonce := SearchFindsLeast(h, stem, from + 1);
      MissedOne(h, stem, from, nonce);
    }
  }

  /** A successful search really is a hash of the stem followed by the reported nonce, and meets the target. */
  lemma MinedHashes(h: Hasher, index: int, previousHash: string, data: seq<string>)
    ensures var (hash, nonce) := Mined(h, index, previousHash, data);
            hash == "fail"
            || (hash == h(Decimal(index) + previousHash + MerkleRoot(h, data) + nonce)
                && hash[..2] == "00" && IsDigest(hash))
  {
    var stem := Stem(h, index, previousHash, data);
    var n := SearchFindsLeast(h, stem, 0);
    DigestShape(h, stem + Decimal(n));
  }

  /** The nonces of mining, "fail" among them, have at most five characters. */
  lemma MinedNonceIsShort(h: Hasher, index: int, previousHash: string, data: seq<string>)
    ensures |Mined(h, index, previousHash, data).1| <= 5
  {
    var n := SearchFindsLeast(h, Stem(h, index, previousHash, data), 0);
    if n < NONCE_LIMIT {
      assert PowerOfTen(5) == NONCE_LIMIT;
      DigitCount(n, 5);
    }
  }

  /** The block that every first-block-creating constructor call makes; mining it is not checked for success. */
  function Genesis(h: Hasher): Block {
    var (hash, nonce) := Mined(h, 0, GENESIS_PREVIOUS_HASH, GENESIS_DATA);
    Block(0, GENESIS_PREVIOUS_HASH, hash, nonce, GENESIS_DATA)
  }

  /** The test made by `addBlock` on a chain of `position` blocks. */
  predicate Accepted(h: Hasher, position: nat, b: Block) {
    h(Header(h, b)) == b.hash && MeetsTarget(b.hash) && b.index == position
  }

  function Added(h: Hasher, chain: seq<Block>, b: Block): seq<Block> {
    if Accepted(h, |chain|, b) then chain + [b] else chain
  }

  /** The loop of `replaceChain` from entry `a` on; an unreadable entry raises an exception that ends it. */
  function AddEntries(h: Hasher, chain: seq<Block>, json: ChainJson, a: nat): (r: (seq<Block>, bool))
    decreases json.length - a
  {
    if a >= json.length then (chain, true)
    else
      match json.Entry(a)
      case None => (chain, false)
      case Some(b) => AddEntries(h, Added(h, chain, b), json, a + 1)
  }

  function FirstOnly(chain: seq<Block>): seq<Block> {
    if |chain| > 1 then chain[..1] else chain
  }

  /** The chain after `replaceChain`, and whether it returned normally. */
  function Replaced(h: Hasher, chain: seq<Block>, json: ChainJson): (seq<Block>, bool) {
    AddEntries(h, FirstOnly(chain), json, 1)
  }

  /** Every block sits at its own index, and every block after the first passed the test of `addBlock`. */
  ghost predicate SelfConsistent(h: Hasher, chain: seq<Block>) {
    && (forall i | 0 <= i < |chain| :: chain[i].index == i)
    && (forall i | 1 <= i < |chain| :: Accepted(h, i, chain[i]))
  }

  function Encoded(chain: seq<Block>): ChainJson {
    ChainJson(|chain|, seq(|chain|, i requires 0 <= i < |chain| => Some(chain[i])))
  }

  class BlockChain {
    const h: Hasher
    var blockchain: seq<Block>

    ghost predicate Valid()
      reads this
    {
      SelfConsistent(h, blockchain)
    }

    constructor (h: Hasher, genesis: int := 1)
      ensures this.h == h && Valid()
      ensures blockchain == if genesis == 0 then [Genesis(h)] else []
    {
      this.h := h;
      blockchain := [];
      new;
      if genesis == 0 {
        var v := ["Genesis Block!"];
        var hash, nonce := FindHash(h, 0, "00000000000000", v);
        blockchain := blockchain + [Block(0, "00000000000000", hash, nonce, v)];
      }
    }

    function GetNumOfBlocks(): nat
      reads this
    {
      |blockchain|
    }

    method AddBlock(index: int, prevHash: string, hash: string, nonce: string, merkle: seq<string>)
        returns (status: int)
      requires Valid()
      modifies this
      ensures Valid()
      ensures blockchain == Added(h, old(blockchain), Block(index, prevHash, hash, nonce, merkle))
      ensures status == |blockchain| - |old(blockchain)|
      ensures status == (if h(Decimal(index) + prevHash + MerkleRoot(h, merkle) + nonce) == hash
                            && |hash| >= 2 && hash[0] == hash[1] == '0' && index == |old(blockchain)| then 1 else 0)
    {
      var root := GetMerkleRoot(h, merkle);
      var header := Decimal(index) + prevHash + root + nonce;
      if h(header) == hash && MeetsTarget(hash) && index == |blockchain| {
        blockchain := blockchain + [Block(index, prevHash, hash, nonce, merkle)];
        return 1;
      }
      return 0;
    }

    method GetLatestBlockHash() returns (hash: string)
      requires |blockchain| > 0
      ensures hash == blockchain[|blockchain| - 1].hash
    {
      return blockchain[|blockchain| - 1].hash;
    }

    method ToJson() returns (json: ChainJson)
      requires Valid()
      ensures json == Encoded(blockchain)
    {
      var data := [];
      var i := 0;
      while i < |blockchain|
        invariant 0 <= i <= |blockchain|
        invariant data == Encoded(blockchain).data[..i]
      {
        // The entry goes to the position its index names, which is the end of the array.
        assert blockchain[i].index == |data|;
        data := data + [Some(blockchain[i])];
        i := i + 1;
      }
      return ChainJson(|blockchain|, data);
    }

    method ReplaceChain(chain: ChainJson) returns (completed: bool)
      requires Valid()
      modifies this
      ensures Valid()
      ensures (blockchain, completed) == Replaced(h, old(blockchain), chain)
    {
      while |blockchain| > 1
        invariant Valid()
        invariant FirstOnly(blockchain) == FirstOnly(old(blockchain))
      {
        blockchain := blockchain[..|blockchain| - 1];
      }
      var a := 1;
      while a < chain.length
        invariant 1 <= a && Valid()
        invariant AddEntries(h, blockchain, chain, a) == Replaced(h, old(blockchain), chain)
        decreases chain.length - a
      {
        var entry := chain.Entry(a);
        if entry.None? {
          return false;
        }
        var block := entry.value;
        var _ := AddBlock(block.index, block.previousHash, block.hash, block.nonce, block.data);
        a := a + 1;
      }
      return true;
    }
  }

  /** Whatever is sent, the result keeps the first block and is self-consistent. */
  lemma {:induction false} AddEntriesConsistent(h: Hasher, chain: seq<Block>, json: ChainJson, a: nat)
    requires SelfConsistent(h, chain)
    ensures var after := AddEntries(h, chain, json, a).0;
            SelfConsistent(h, after) && chain <= after
    decreases json.length - a
  {
    if a < json.length && json.Entry(a).Some? {
      AddEntriesConsistent(h, Added(h, chain, json.Entry(a).value), json, a + 1);
    }
  }

  /** The entries of a message from position `a` on would each be accepted at its own position. */
  predicate AcceptableFrom(h: Hasher, json: ChainJson, a: nat) {
    forall i | a <= i < json.length :: json.Entry(i).Some? && Accepted(h, i, json.Entry(i).value)
  }

  /** Reading entries adds at most one block each. */
  lemma {:induction false} AddEntriesBound(h: Hasher, chain: seq<Block>, json: ChainJson, a: nat)
    requires a <= json.length
    ensures |AddEntries(h, chain, json, a).0| <= |chain| + json.length - a
    decreases json.length - a
  {
    if a < json.length && json.Entry(a).Some? {
      AddEntriesBound(h, Added(h, chain, json.Entry(a).value), json, a + 1);
    }
  }

  /** With one entry that is not acceptable in place, fewer blocks are added than entries read. */
  lemma {:induction false} AddEntriesShort(h: Hasher, chain: seq<Block>, json: ChainJson, a: nat)
    requires |chain| == a <= json.length && !AcceptableFrom(h, json, a)
    ensures |AddEntries(h, chain, json, a).0| < json.length
    decreases json.length - a
  {
    if a < json.length && json.Entry(a).Some? {
      var chain' := Added(h, chain, json.Entry(a).value);
      if |chain'| == a {
        AddEntriesBound(h, chain', json, a + 1);
      } else {
        AddEntriesShort(h, chain', json, a + 1);
      }
    }
  }

  /** When all entries are acceptable in place, they are appended in order. */
  lemma {:induction false} AddEntriesWhole(h: Hasher, chain: seq<Block>, json: ChainJson, a: nat)
    requires |chain| == a <= json.length && AcceptableFrom(h, json, a)
    ensures var after := AddEntries(h, chain, json, a).0;
            && |after| == json.length && after[..a] == chain
            && forall i | a <= i < json.length :: Some(after[i]) == json.Entry(i)
    decreases json.length - a
  {
    if a < json.length {
      var b := json.Entry(a).value;
      assert Accepted(h, a, b);
      AddEntriesWhole(h, chain + [b], json, a + 1);
      var after := AddEntries(h, chain + [b], json, a + 1).0;
      assert after[..a] == after[..a + 1][..a] == chain;
      assert after[a] == after[..a + 1][a] == b;
    }
  }

  /** A message of length `n` is taken over whole exactly when each of its entries after the first would be
      accepted at its own position; otherwise the node ends up with fewer than `n` blocks. */
  lemma ReplacedWholeIff(h: Hasher, chain: seq<Block>, json: ChainJson)
    requires |chain| > 0 && json.length >= 1
    ensures var after := Replaced(h, chain, json).0;
            && |after| <= json.length
            && (|after| == json.length <==> AcceptableFrom(h, json, 1))
            && (|after| == json.length ==>
                  && after[0] == chain[0]
                  && forall i | 1 <= i < json.length :: Some(after[i]) == json.Entry(i))
  {
    var first := FirstOnly(chain);
    AddEntriesBound(h, first, json, 1);
    if AcceptableFrom(h, json, 1) {
      AddEntriesWhole(h, first, json, 1);
      var after := Replaced(h, chain, json).0;
      assert after[..1][0] == first[0];
    } else {
      AddEntriesShort(h, first, json, 1);
    }
  }

  /** A self-consistent chain with the same first block is adopted block for block. */
  lemma ReplacedByConsistent(h: Hasher, own: seq<Block>, sent: seq<Block>)
    requires |own| > 0 && |sent| > 0 && own[0] == sent[0]
    requires SelfConsistent(h, sent)
    ensures Replaced(h, own, Encoded(sent)).0 == sent
  {
    var json := Encoded(sent);
    assert forall i | 1 <= i < |sent| :: json.Entry(i) == Some(sent[i]);
    ReplacedWholeIff(h, own, json);
  }
}
