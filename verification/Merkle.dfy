/** The Merkle root of a block's data (`getMerkleRoot`) and what an equal root says about the data. */
module Merkle {
  import opened Hashing

  /** A level of odd size is padded with the last leaf of the whole list, not of the level. */
  function Padded(last: string, level: seq<string>): (p: seq<string>)
    ensures |p| % 2 == 0
  {
    if |level| % 2 == 1 then level + [last] else level
  }

  function Joined(h: Hasher, x: string, y: string): string {
    h(x) + h(y)
  }

  function NextLevel(h: Hasher, p: seq<string>): (up: seq<string>)
    requires |p| % 2 == 0
    ensures |up| == |p| / 2
  {
    seq(|p| / 2, i requires 0 <= i < |p| / 2 => h(Joined(h, p[2 * i], p[2 * i + 1])))
  }

  function Climb(h: Hasher, last: string, level: seq<string>): string
    requires |level| > 0
    decreases |level|
  {
    if |level| == 1 then level[0] else Climb(h, last, NextLevel(h, Padded(last, level)))
  }

  /** `getMerkleRoot`. */
  function MerkleRoot(h: Hasher, data: seq<string>): string {
    if data == [] then ""
    else if |data| == 1 then h(data[0])
    else Climb(h, data[|data| - 1], data)
  }

  /** The inner loop of `getMerkleRoot`: one level, from neighbouring pairs of an even level. */
  method HashPairs(h: Hasher, p: seq<string>) returns (result: seq<string>)
    requires |p| % 2 == 0
    ensures result == NextLevel(h, p)
  {
    ghost var up := NextLevel(h, p);
    result := [];
    var i := 0;
    while i < |p|
      invariant i % 2 == 0 && 0 <= i <= |p|
      invariant result == up[..i / 2]
    {
      var var1 := h(p[i]);
      var var2 := h(p[i + 1]);
      assert up[i / 2] == h(var1 + var2);
      result := result + [h(var1 + var2)];
      i := i + 2;
    }
  }

  method GetMerkleRoot(h: Hasher, merkle: seq<string>) returns (root: string)
    ensures root == MerkleRoot(h, merkle)
  {
    if merkle == [] {
      return "";
    } else if |merkle| == 1 {
      return h(merkle[0]);
    }
    var newMerkle := merkle;
    while |newMerkle| > 1
      invariant |newMerkle| > 0
      invariant Climb(h, merkle[|merkle| - 1], newMerkle) == MerkleRoot(h, merkle)
      decreases |newMerkle|
    {
      if |newMerkle| % 2 == 1 {
        newMerkle := newMerkle + [merkle[|merkle| - 1]];
      }
      newMerkle := HashPairs(h, newMerkle);
    }
    return newMerkle[0];
  }

  // --- The tree, from its top ---

  /** How many nodes there are `j` levels above the data. */
  function LevelSize(n: nat, j: nat): nat {
    if j == 0 then n else (LevelSize(n, j - 1) + 1) / 2
  }

  /** The node at place `i`, `j` levels above the data: the digest of the digests of the two nodes below it, joined.
      Where a level has no such node the last element stands in. */
  function Node(h: Hasher, data: seq<string>, j: nat, i: nat): string
    requires data != []
  {
    if i >= LevelSize(|data|, j) then data[|data| - 1]
    else if j == 0 then data[i]
    else h(h(Node(h, data, j - 1, 2 * i)) + h(Node(h, data, j - 1, 2 * i + 1)))
  }

  /** A level holds the nodes at its height. */
  ghost predicate IsLevel(h: Hasher, data: seq<string>, j: nat, level: seq<string>)
    requires data != []
  {
    |level| == LevelSize(|data|, j) && forall i | 0 <= i < |level| :: level[i] == Node(h, data, j, i)
  }

  lemma NodeAbove(h: Hasher, data: seq<string>, j: nat, i: nat)
    requires data != [] && i < (LevelSize(|data|, j) + 1) / 2
    ensures Node(h, data, j + 1, i) == h(Joined(h, Node(h, data, j, 2 * i), Node(h, data, j, 2 * i + 1)))
  {
  }

  lemma PaddedHoldsNodes(h: Hasher, data: seq<string>, j: nat, level: seq<string>)
    requires data != [] && IsLevel(h, data, j, level)
    ensures var p := Padded(data[|data| - 1], level);
            |p| / 2 == (|level| + 1) / 2 && forall i | 0 <= i < |p| :: p[i] == Node(h, data, j, i)
  {
  }

  lemma NextIsLevel(h: Hasher, data: seq<string>, j: nat, level: seq<string>)
    requires data != [] && IsLevel(h, data, j, level)
    ensures IsLevel(h, data, j + 1, NextLevel(h, Padded(data[|data| - 1], level)))
  {
    PaddedHoldsNodes(h, data, j, level);
    var p := Padded(data[|data| - 1], level);
    var up := NextLevel(h, p);
    forall i | 0 <= i < |up| ensures up[i] == Node(h, data, j + 1, i) {
      assert up[i] == h(Joined(h, p[2 * i], p[2 * i + 1]));
      NodeAbove(h, data, j, i);
    }
  }

  /** The height of a tree over `n` elements: the first level, from `j` on, that has one node. */
  ghost predicate IsTop(n: nat, j: nat, top: nat) {
    top >= j && LevelSize(n, top) == 1 && forall k | j <= k < top :: LevelSize(n, k) > 1
  }

  lemma {:induction false} ClimbToNode(h: Hasher, data: seq<string>, j: nat, level: seq<string>) returns (top: nat)
    requires data != [] && level != [] && IsLevel(h, data, j, level)
    ensures IsTop(|data|, j, top) && Climb(h, data[|data| - 1], level) == Node(h, data, top, 0)
    decreases |level|
  {
    if |level| == 1 {
      top := j;
    } else {
      var up := NextLevel(h, Padded(data[|data| - 1], level));
      NextIsLevel(h, data, j, level);
      top := ClimbToNode(h, data, j + 1, up);
    }
  }

  /** The root of two or more elements is the node of the first level that has only one. The program does not hash a
      single element twice, and nothing at all for an empty list. */
  lemma RootIsNode(h: Hasher, data: seq<string>) returns (top: nat)
    ensures data == [] ==> MerkleRoot(h, data) == ""
    ensures |data| == 1 ==> MerkleRoot(h, data) == h(data[0])
    ensures |data| > 1 ==> IsTop(|data|, 0, top) && MerkleRoot(h, data) == Node(h, data, top, 0)
  {
    top := 0;
    if |data| > 1 {
      top := ClimbToNode(h, data, 0, data);
    }
  }

  // --- What an equal root says ---

  /** Every string hashed to climb from a padded level to the next one. */
  ghost function LevelInputs(h: Hasher, p: seq<string>): set<string>
    requires |p| % 2 == 0
  {
    (set x | x in p) + (set i | 0 <= i < |p| / 2 :: Joined(h, p[2 * i], p[2 * i + 1]))
  }

  ghost function ClimbInputs(h: Hasher, last: string, level: seq<string>): set<string>
    requires |level| > 0
    decreases |level|
  {
    if |level| == 1 then {} else
      var p := Padded(last, level);
      LevelInputs(h, p) + ClimbInputs(h, last, NextLevel(h, p))
  }

  /** Every string hashed while computing `MerkleRoot(h, data)`. */
  ghost function RootInputs(h: Hasher, data: seq<string>): set<string> {
    if data == [] then {}
    else if |data| == 1 then {data[0]}
    else ClimbInputs(h, data[|data| - 1], data)
  }

  lemma JoinedSplits(h: Hasher, x: string, y: string, x': string, y': string)
    requires Joined(h, x, y) == Joined(h, x', y')
    ensures h(x) == h(x') && h(y) == h(y')
  {
    DigestShape(h, x);
    DigestShape(h, x');
    var s := Joined(h, x, y);
    var s' := Joined(h, x', y');
    assert s[..DIGEST_LENGTH] == h(x) && s[DIGEST_LENGTH..] == h(y);
    assert s'[..DIGEST_LENGTH] == h(x') && s'[DIGEST_LENGTH..] == h(y');
  }

  /** One level: equal levels above mean equal levels below, unless two hashed strings clash. */
  lemma LevelBinding(h: Hasher, p: seq<string>, q: seq<string>)
    requires |p| == |q| && |p| % 2 == 0
    requires NextLevel(h, p) == NextLevel(h, q)
    ensures p == q || ClashBetween(h, LevelInputs(h, p), LevelInputs(h, q))
  {
    if p != q {
      var k :| 0 <= k < |p| && p[k] != q[k];
      var i := k / 2;
      var x, y := Joined(h, p[2 * i], p[2 * i + 1]), Joined(h, q[2 * i], q[2 * i + 1]);
      assert NextLevel(h, p)[i] == h(x) && NextLevel(h, q)[i] == h(y);
      if x != y {
        ClashWitness(h, x, y, LevelInputs(h, p), LevelInputs(h, q));
      } else {
        JoinedSplits(h, p[2 * i], p[2 * i + 1], q[2 * i], q[2 * i + 1]);
        ClashWitness(h, p[k], q[k], LevelInputs(h, p), LevelInputs(h, q));
      }
    }
  }

  lemma {:induction false} ClimbBinding(h: Hasher, lastA: string, a: seq<string>, lastB: string, b: seq<string>)
    requires |a| == |b| > 0 && Climb(h, lastA, a) == Climb(h, lastB, b)
    ensures a == b || ClashBetween(h, ClimbInputs(h, lastA, a), ClimbInputs(h, lastB, b))
    decreases |a|
  {
    if |a| > 1 {
      var p, q := Padded(lastA, a), Padded(lastB, b);
      ClimbBinding(h, lastA, NextLevel(h, p), lastB, NextLevel(h, q));
      if NextLevel(h, p) == NextLevel(h, q) {
        LevelBinding(h, p, q);
        assert a == p[..|a|] && b == q[..|b|];
      }
    }
  }

  /** Two lists of equal length with the same root are the same list, or two of the strings hashed
      for the two roots have the same digest. */
  lemma MerkleBinding(h: Hasher, a: seq<string>, b: seq<string>)
    requires |a| == |b| && MerkleRoot(h, a) == MerkleRoot(h, b)
    ensures a == b || ClashBetween(h, RootInputs(h, a), RootInputs(h, b))
  {
    if |a| == 1 {
      if a[0] != b[0] {
        ClashWitness(h, a[0], b[0], RootInputs(h, a), RootInputs(h, b));
      }
    } else if |a| > 1 {
      ClimbBinding(h, a[|a| - 1], a, b[|b| - 1], b);
    }
  }

  /** Equal length is needed: a list of odd length above one has the root of the list that repeats its last element. */
  lemma RootIgnoresRepeatedLast(h: Hasher, data: seq<string>)
    requires |data| % 2 == 1 && |data| > 1
    ensures MerkleRoot(h, data) == MerkleRoot(h, data + [data[|data| - 1]])
  {
    var last := data[|data| - 1];
    var longer := data + [last];
    assert Padded(last, data) == longer == Padded(last, longer);
    assert MerkleRoot(h, longer) == Climb(h, last, longer);
  }

  lemma {:induction false} ClimbFromTop(h: Hasher, last: string, level: seq<string>) returns (top: string)
    requires |level| > 1
    ensures Climb(h, last, level) == h(top)
    decreases |level|
  {
    var p := Padded(last, level);
    var up := NextLevel(h, p);
    if |up| == 1 {
      top := Joined(h, p[0], p[1]);
    } else {
      top := ClimbFromTop(h, last, up);
    }
  }

  /** Equal length is needed: the two digests at the top of the tree of two or more elements, joined, are a list of one
      element with the same root. */
  lemma RootIsOfOne(h: Hasher, data: seq<string>) returns (top: string)
    requires |data| > 1
    ensures MerkleRoot(h, data) == MerkleRoot(h, [top])
  {
    top := ClimbFromTop(h, data[|data| - 1], data);
  }
}
