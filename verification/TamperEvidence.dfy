/** What the hash of the last block says about the whole chain. */
module TamperEvidence {
  import opened Text
  import opened Hashing
  import opened Merkle
  import opened BlockChain

  /** Each block names the hash of the one before it. */
  predicate Linked(chain: seq<Block>) {
    forall i | 1 <= i < |chain| :: chain[i].previousHash == chain[i - 1].hash
  }

  /** A chain that a node can have built by mining: the common first block, then accepted and linked blocks. */
  ghost predicate Grown(h: Hasher, chain: seq<Block>) {
    |chain| > 0 && chain[0] == Genesis(h) && SelfConsistent(h, chain) && Linked(chain)
  }

  predicate SameCounts(a: seq<Block>, b: seq<Block>) {
    |a| == |b| && forall i | 0 <= i < |a| :: |a[i].data| == |b[i].data|
  }

  ghost function BlockInputs(h: Hasher, b: Block): set<string> {
    {Header(h, b)} + RootInputs(h, b.data)
  }

  /** Every string hashed to check the blocks of a chain; the first block is never checked. */
  ghost function ChainInputs(h: Hasher, chain: seq<Block>): set<string> {
    set i, x | 1 <= i < |chain| && x in BlockInputs(h, chain[i]) :: x
  }

  lemma ClashOfBlocks(h: Hasher, a: seq<Block>, b: seq<Block>, i: nat, xs: set<string>, ys: set<string>)
    requires 1 <= i < |a| && i < |b| && ClashBetween(h, xs, ys)
    requires xs <= BlockInputs(h, a[i]) && ys <= BlockInputs(h, b[i])
    ensures ClashBetween(h, ChainInputs(h, a), ChainInputs(h, b))
  {
    var x, y :| x in xs && y in ys && Clash(h, x, y);
    assert x in BlockInputs(h, a[i]) && y in BlockInputs(h, b[i]);
    ClashWitness(h, x, y, ChainInputs(h, a), ChainInputs(h, b));
  }

  lemma {:induction false} ClimbLength(h: Hasher, last: string, level: seq<string>)
    requires |level| > 1
    ensures |Climb(h, last, level)| == DIGEST_LENGTH
    decreases |level|
  {
    var up := NextLevel(h, Padded(last, level));
    if |up| == 1 {
      DigestShape(h, Joined(h, Padded(last, level)[0], Padded(last, level)[1]));
    } else {
      ClimbLength(h, last, up);
    }
  }

  lemma RootLength(h: Hasher, data: seq<string>)
    ensures |MerkleRoot(h, data)| == if data == [] then 0 else DIGEST_LENGTH
  {
    if |data| == 1 {
      DigestShape(h, data[0]);
    } else if |data| > 1 {
      ClimbLength(h, data[|data| - 1], data);
    }
  }

  /** For a given index and given lengths of its parts, a header determines its parts. */
  lemma HeaderSplits(h: Hasher, a: Block, b: Block)
    requires a.index == b.index && |a.previousHash| == |b.previousHash| && |a.data| == |b.data|
    requires Header(h, a) == Header(h, b)
    ensures a.previousHash == b.previousHash && a.nonce == b.nonce
    ensures MerkleRoot(h, a.data) == MerkleRoot(h, b.data)
  {
    RootLength(h, a.data);
    RootLength(h, b.data);
    var s := Header(h, a);
    var i := |Decimal(a.index)|;
    var j := i + |a.previousHash|;
    var k := j + |MerkleRoot(h, a.data)|;
    assert s[i..j] == a.previousHash && s[j..k] == MerkleRoot(h, a.data) && s[k..] == a.nonce;
    var t := Header(h, b);
    assert t[i..j] == b.previousHash && t[j..k] == MerkleRoot(h, b.data) && t[k..] == b.nonce;
  }

  /** Two accepted blocks with the same hash at the same position are the same block. */
  lemma BlockBinding(h: Hasher, i: nat, a: Block, b: Block)
    requires Accepted(h, i, a) && Accepted(h, i, b) && a.hash == b.hash
    requires |a.previousHash| == |b.previousHash| && |a.data| == |b.data|
    ensures a == b || ClashBetween(h, BlockInputs(h, a), BlockInputs(h, b))
  {
    if Header(h, a) != Header(h, b) {
      ClashWitness(h, Header(h, a), Header(h, b), BlockInputs(h, a), BlockInputs(h, b));
    } else {
      HeaderSplits(h, a, b);
      MerkleBinding(h, a.data, b.data);
      if a.data != b.data {
        var x, y :| x in RootInputs(h, a.data) && y in RootInputs(h, b.data) && Clash(h, x, y);
        ClashWitness(h, x, y, BlockInputs(h, a), BlockInputs(h, b));
      }
    }
  }

  /** Whether mined or common, hashes of the same height have the same length. */
  lemma SameHashLength(h: Hasher, a: seq<Block>, b: seq<Block>, k: nat)
    requires Grown(h, a) && Grown(h, b) && k < |a| && k < |b|
    ensures |a[k].hash| == |b[k].hash|
  {
    if k > 0 {
      DigestShape(h, Header(h, a[k]));
      DigestShape(h, Header(h, b[k]));
    }
  }

  lemma PrefixGrows(a: seq<Block>, b: seq<Block>, k: nat)
    requires k < |a| && k < |b| && a[..k] == b[..k] && a[k] == b[k]
    ensures a[..k + 1] == b[..k + 1]
  {
    assert a[..k + 1] == a[..k] + [a[k]] && b[..k + 1] == b[..k] + [b[k]];
  }

  lemma {:induction false} PrefixBinding(h: Hasher, a: seq<Block>, b: seq<Block>, k: nat)
    requires Grown(h, a) && Grown(h, b) && SameCounts(a, b)
    requires k < |a| && a[k].hash == b[k].hash
    ensures a[..k + 1] == b[..k + 1] || ClashBetween(h, ChainInputs(h, a), ChainInputs(h, b))
  {
    if k > 0 {
      SameHashLength(h, a, b, k - 1);
      BlockBinding(h, k, a[k], b[k]);
      if a[k] == b[k] {
        PrefixBinding(h, a, b, k - 1);
        if a[..k] == b[..k] {
          PrefixGrows(a, b, k);
        }
      } else {
        ClashOfBlocks(h, a, b, k, BlockInputs(h, a[k]), BlockInputs(h, b[k]));
      }
    }
  }

  /** Two mined chains of the same length and the same data counts that end in the same hash are equal in every
      field of every block, or two of the strings hashed to check them have the same digest. */
  lemma TipDeterminesChain(h: Hasher, a: seq<Block>, b: seq<Block>)
    requires Grown(h, a) && Grown(h, b) && SameCounts(a, b)
    requires a[|a| - 1].hash == b[|b| - 1].hash
    ensures a == b || ClashBetween(h, ChainInputs(h, a), ChainInputs(h, b))
  {
    PrefixBinding(h, a, b, |a| - 1);
    assert a == a[..|a|] && b == b[..|b|];
  }

  /** Changing any stored field below the last block of a mined chain, keeping lengths and the last hash,
      leaves a chain that is no longer accepted and linked, or exhibits a clash of digests. */
  lemma ChangeIsDetected(h: Hasher, chain: seq<Block>, i: nat, b: Block)
    requires Grown(h, chain) && i < |chain| && b != chain[i] && |b.data| == |chain[i].data|
    requires i == |chain| - 1 ==> b.hash == chain[i].hash
    ensures !Grown(h, chain[i := b]) || ClashBetween(h, ChainInputs(h, chain), ChainInputs(h, chain[i := b]))
  {
    var changed := chain[i := b];
    if Grown(h, changed) {
      TipDeterminesChain(h, chain, changed);
      assert changed[i] != chain[i];
    }
  }

  /** A block with its last datum repeated. */
  function Repeated(b: Block): Block
    requires b.data != []
  {
    b.(data := b.data + [b.data[|b.data| - 1]])
  }

  /** A block with an odd number of data above one also keeps its header, so it stays accepted, under the
      same hash, with its last datum repeated. */
  lemma RepeatedStaysAccepted(h: Hasher, i: nat, b: Block)
    requires |b.data| % 2 == 1 && |b.data| > 1
    ensures Header(h, Repeated(b)) == Header(h, b)
    ensures Accepted(h, i, Repeated(b)) <==> Accepted(h, i, b)
  {
    RootIgnoresRepeatedLast(h, b.data);
  }

  // --- What the last hash does not determine ---

  /** The block whose nonce starts with the root of its data, and whose data is gone. */
  function Emptied(h: Hasher, b: Block): Block {
    b.(data := [], nonce := MerkleRoot(h, b.data) + b.nonce)
  }

  /** Root and nonce are joined without anything between them, so the header stays the same string. */
  lemma EmptiedStaysAccepted(h: Hasher, i: nat, b: Block)
    ensures Header(h, Emptied(h, b)) == Header(h, b)
    ensures Accepted(h, i, Emptied(h, b)) <==> Accepted(h, i, b)
    ensures BlockInputs(h, Emptied(h, b)) <= BlockInputs(h, b)
  {
  }

  /** Equal data counts are needed, for every block that holds data: emptied it leaves a different chain that is
      accepted and linked, of the same length and with the same last hash. */
  lemma CountsAreNeeded(h: Hasher, chain: seq<Block>, i: nat)
    requires Grown(h, chain) && 0 < i < |chain| && chain[i].data != []
    ensures var other := chain[i := Emptied(h, chain[i])];
            && Grown(h, other) && other != chain
            && |other| == |chain| && other[|chain| - 1].hash == chain[|chain| - 1].hash
            && ChainInputs(h, other) <= ChainInputs(h, chain)
  {
    var other := chain[i := Emptied(h, chain[i])];
    EmptiedStaysAccepted(h, i, chain[i]);
    assert other[i].data != chain[i].data;
    forall x | x in ChainInputs(h, other) ensures x in ChainInputs(h, chain) {
      var j :| 1 <= j < |other| && x in BlockInputs(h, other[j]);
      assert x in BlockInputs(h, chain[j]);
    }
  }

  /** Chains of the same length that end in the same hash. */
  ghost predicate SameTip(h: Hasher, a: seq<Block>, b: seq<Block>) {
    Grown(h, a) && Grown(h, b) && |a| == |b| && a[|a| - 1].hash == b[|b| - 1].hash
  }

  ghost predicate NoData(chain: seq<Block>) {
    forall i | 1 <= i < |chain| :: chain[i].data == []
  }

  /** Nonces that are shorter than a root, as mined ones are. */
  predicate ShortNonces(chain: seq<Block>) {
    forall i | 1 <= i < |chain| :: |chain[i].nonce| < DIGEST_LENGTH
  }

  lemma EmptyHeaderSplits(h: Hasher, a: Block, b: Block)
    requires Header(h, a) == Header(h, b) && a.index == b.index && |a.previousHash| == |b.previousHash|
    requires a.data == [] && |a.nonce| < DIGEST_LENGTH
    ensures b.data == []
  {
    RootLength(h, b.data);
    assert |Header(h, a)| == |Decimal(a.index)| + |a.previousHash| + |a.nonce|;
  }

  lemma {:induction false} NoDataBinds(h: Hasher, a: seq<Block>, b: seq<Block>, k: nat)
    requires Grown(h, a) && Grown(h, b) && |a| == |b| && NoData(a) && ShortNonces(a)
    requires k < |a| && a[k].hash == b[k].hash
    ensures a[..k + 1] == b[..k + 1] || ClashBetween(h, ChainInputs(h, a), ChainInputs(h, b))
  {
    if k > 0 {
      SameHashLength(h, a, b, k - 1);
      if Header(h, a[k]) == Header(h, b[k]) {
        EmptyHeaderSplits(h, a[k], b[k]);
        HeaderSplits(h, a[k], b[k]);
        NoDataBinds(h, a, b, k - 1);
        if a[..k] == b[..k] {
          PrefixGrows(a, b, k);
        }
      } else {
        ClashWitness(h, Header(h, a[k]), Header(h, b[k]), BlockInputs(h, a[k]), BlockInputs(h, b[k]));
        ClashOfBlocks(h, a, b, k, BlockInputs(h, a[k]), BlockInputs(h, b[k]));
      }
    }
  }

  /** The last hash determines the chain, up to clashes of digests, among all chains of its length. */
  ghost predicate TipDetermines(h: Hasher, a: seq<Block>) {
    forall b | SameTip(h, a, b) :: b == a || ClashBetween(h, ChainInputs(h, a), ChainInputs(h, b))
  }

  /** That is so if and only if no block after the first holds data. */
  lemma TipAloneDeterminesIff(h: Hasher, a: seq<Block>)
    requires Grown(h, a) && ShortNonces(a) && ClashFree(h, ChainInputs(h, a))
    ensures TipDetermines(h, a) <==> NoData(a)
  {
    if NoData(a) {
      forall b | SameTip(h, a, b) ensures b == a || ClashBetween(h, ChainInputs(h, a), ChainInputs(h, b)) {
        NoDataBinds(h, a, b, |a| - 1);
        assert a == a[..|a|] && b == b[..|b|];
      }
    } else {
      var i :| 1 <= i < |a| && a[i].data != [];
      CountsAreNeeded(h, a, i);
      var b := a[i := Emptied(h, a[i])];
      assert SameTip(h, a, b) && b != a && !ClashBetween(h, ChainInputs(h, a), ChainInputs(h, b));
    }
  }
}
