/** The Blowfish cipher of WASTE (`blowfish.cpp`) and its modes. The round function and the round keys are arbitrary, so
    that what is proved holds for every key. A half of a block is the sequence of its 32 bits. */
module Blowfish {

  type Half = h: seq<bool> | |h| == 32 witness seq(32, _ => false)

  function NoBits(): Half {
    seq(32, _ => false)
  }

  /** `a ^ b`. */
  function Xor(a: Half, b: Half): Half {
    seq(32, i requires 0 <= i < 32 => a[i] != b[i])
  }

  lemma XorTwice(a: Half, b: Half)
    ensures Xor(Xor(a, b), b) == a
  {
  }

  /** The laws of an exclusive or: a group in which every element is its own inverse. */
  lemma XorLaws(a: Half, b: Half, c: Half)
    ensures Xor(a, b) == Xor(b, a) && Xor(Xor(a, b), c) == Xor(a, Xor(b, c))
    ensures Xor(a, NoBits()) == a && Xor(a, a) == NoBits()
  {
  }

  /** Changing one bit of an operand changes that bit of the result and no other. */
  lemma XorFlips(a: Half, b: Half, i: nat)
    requires i < 32
    ensures Xor(a[i := !a[i]], b) == Xor(a, b)[i := !Xor(a, b)[i]]
  {
  }

  type RoundFunction = Half -> Half

  datatype Block = Block(left: Half, right: Half) {
    function Swapped(): Block {
      Block(right, left)
    }

    function Plus(other: Block): Block {
      Block(Xor(left, other.left), Xor(right, other.right))
    }
  }

  const ROUNDS := 16

  const ZERO: Block := Block(NoBits(), NoBits())

  // --- One block ---

  /** One round of a Feistel network, with the exchange of the halves that the program saves by unrolling two rounds. */
  function Round(f: RoundFunction, key: Half, b: Block): Block {
    Block(Xor(b.right, Xor(f(b.left), key)), b.left)
  }

  /** The `P` table: a key for each round and one before and after them. */
  predicate Keys(p: seq<Half>) {
    |p| == ROUNDS + 2
  }

  /** Rounds 1 to `n`, each with its own key. */
  function RoundsUp(f: RoundFunction, p: seq<Half>, n: nat, b: Block): Block
    requires n < |p|
  {
    if n == 0 then b else Round(f, p[n], RoundsUp(f, p, n - 1, b))
  }

  /** Rounds `n` to 1. */
  function RoundsDown(f: RoundFunction, p: seq<Half>, n: nat, b: Block): Block
    requires n < |p|
  {
    if n == 0 then b else RoundsDown(f, p, n - 1, Round(f, p[n], b))
  }

  /** Round keys and, before and after the rounds, keys for the left half; the last swap is undone. */
  function Encrypted(f: RoundFunction, p: seq<Half>, b: Block): Block
    requires Keys(p)
  {
    var r := RoundsUp(f, p, |p| - 2, Block(Xor(b.left, p[0]), b.right));
    Block(Xor(r.right, p[|p| - 1]), r.left)
  }

  /** The same with the keys in reverse order. */
  function Decrypted(f: RoundFunction, p: seq<Half>, b: Block): Block
    requires Keys(p)
  {
    var r := RoundsDown(f, p, |p| - 2, Block(Xor(b.left, p[|p| - 1]), b.right));
    Block(Xor(r.right, p[0]), r.left)
  }

  /** A round on the swapped result of the same round gives back what it came from, swapped. */
  lemma RoundUndone(f: RoundFunction, key: Half, b: Block)
    ensures Round(f, key, Round(f, key, b).Swapped()) == b.Swapped()
  {
    XorTwice(b.right, Xor(f(b.left), key));
  }

  lemma {:induction false} RoundsUndone(f: RoundFunction, p: seq<Half>, n: nat, b: Block)
    requires n < |p|
    ensures RoundsDown(f, p, n, RoundsUp(f, p, n, b).Swapped()) == b.Swapped()
  {
    if n > 0 {
      RoundUndone(f, p[n], RoundsUp(f, p, n - 1, b));
      RoundsUndone(f, p, n - 1, b);
    }
  }

  /** Decryption undoes encryption, for every round function and all keys. */
  lemma DecryptEncrypt(f: RoundFunction, p: seq<Half>, b: Block)
    requires Keys(p)
    ensures Decrypted(f, p, Encrypted(f, p, b)) == b
  {
    var start := Block(Xor(b.left, p[0]), b.right);
    XorTwice(RoundsUp(f, p, |p| - 2, start).right, p[|p| - 1]);
    RoundsUndone(f, p, |p| - 2, start);
    XorTwice(b.left, p[0]);
  }

  /** The halves that come up when a block is encrypted, one more in every round: each is the one two before it, with
      the round function of the one before it and the key of the round mixed in. */
  predicate Halves(f: RoundFunction, p: seq<Half>, x: seq<Half>, n: nat)
    requires n < |p|
  {
    |x| == n + 2 && forall k | 1 <= k <= n :: x[k + 1] == Xor(x[k - 1], Xor(f(x[k]), p[k]))
  }

  lemma {:induction false} RoundsGiveHalves(f: RoundFunction, p: seq<Half>, n: nat, b: Block) returns (x: seq<Half>)
    requires n < |p|
    ensures Halves(f, p, x, n) && x[0] == b.right && x[1] == b.left
    ensures RoundsUp(f, p, n, b) == Block(x[n + 1], x[n])
  {
    if n == 0 {
      x := [b.right, b.left];
    } else {
      var before := RoundsGiveHalves(f, p, n - 1, b);
      x := before + [Xor(before[n - 1], Xor(f(before[n]), p[n]))];
    }
  }

  /** Encryption is a Feistel network of sixteen rounds: there is such a row of halves that starts with the block, its
      left half mixed with the first key, and ends with the result, its left half mixed with the last key. */
  lemma EncryptedIsFeistel(f: RoundFunction, p: seq<Half>, b: Block) returns (x: seq<Half>)
    requires Keys(p)
    ensures |x| == 18 && |p| == 18
    ensures x[0] == b.right && x[1] == Xor(b.left, p[0])
    ensures forall k | 1 <= k <= 16 :: x[k + 1] == Xor(x[k - 1], Xor(f(x[k]), p[k]))
    ensures Encrypted(f, p, b) == Block(Xor(x[16], p[17]), x[17])
  {
    x := RoundsGiveHalves(f, p, ROUNDS, Block(Xor(b.left, p[0]), b.right));
  }

  method BlowfishEncrypt(f: RoundFunction, p: seq<Half>, b: Block) returns (r: Block)
    requires Keys(p)
    ensures r == Encrypted(f, p, b)
  {
    var xl, xr := Xor(b.left, p[0]), b.right;
    ghost var start := Block(xl, xr);
    for i := 0 to (|p| - 2) / 2
      invariant Block(xl, xr) == RoundsUp(f, p, 2 * i, start)
    {
      assert RoundsUp(f, p, 2 * i + 1, start) == Round(f, p[2 * i + 1], Block(xl, xr));
      xr := Xor(xr, Xor(f(xl), p[2 * i + 1]));
      xl := Xor(xl, Xor(f(xr), p[2 * i + 2]));
    }
    r := Block(Xor(xr, p[|p| - 1]), xl);
  }

  method BlowfishDecrypt(f: RoundFunction, p: seq<Half>, b: Block) returns (r: Block)
    requires Keys(p)
    ensures r == Decrypted(f, p, b)
  {
    var xl, xr := Xor(b.left, p[|p| - 1]), b.right;
    ghost var start := Block(xl, xr);
    for i := 0 to (|p| - 2) / 2
      invariant RoundsDown(f, p, |p| - 2 - 2 * i, Block(xl, xr)) == RoundsDown(f, p, |p| - 2, start)
    {
      ghost var once := Round(f, p[|p| - 2 - 2 * i], Block(xl, xr));
      assert RoundsDown(f, p, |p| - 2 - 2 * i - 1, once) == RoundsDown(f, p, |p| - 2, start);
      xr := Xor(xr, Xor(f(xl), p[|p| - 2 - 2 * i]));
      xl := Xor(xl, Xor(f(xr), p[|p| - 2 - 2 * i - 1]));
    }
    r := Block(Xor(xr, p[0]), xl);
  }

  // --- Modes ---

  datatype Mode = Ecb | Cbc | Pcbc

  /** The vector for the next block after ciphertext `c`; what the program calls PCBC mixes in no plaintext. */
  function NextVector(mode: Mode, iv: Block, c: Block): Block {
    match mode
    case Ecb => iv
    case Cbc => c
    case Pcbc => iv.Plus(c)
  }

  function Masked(mode: Mode, iv: Block, b: Block): Block {
    if mode == Ecb then b else b.Plus(iv)
  }

  /** A vector and blocks, after all blocks have been encrypted in order. */
  function EncryptedAll(f: RoundFunction, p: seq<Half>, mode: Mode, iv: Block, data: seq<Block>)
      : (r: (Block, seq<Block>))
    requires Keys(p)
    ensures |r.1| == |data|
  {
    if data == [] then (iv, [])
    else
      var (v, cs) := EncryptedAll(f, p, mode, iv, data[..|data| - 1]);
      var c := Encrypted(f, p, Masked(mode, v, data[|data| - 1]));
      (NextVector(mode, v, c), cs + [c])
  }

  function DecryptedAll(f: RoundFunction, p: seq<Half>, mode: Mode, iv: Block, data: seq<Block>)
      : (r: (Block, seq<Block>))
    requires Keys(p)
    ensures |r.1| == |data|
  {
    if data == [] then (iv, [])
    else
      var (v, bs) := DecryptedAll(f, p, mode, iv, data[..|data| - 1]);
      var c := data[|data| - 1];
      (NextVector(mode, v, c), bs + [Masked(mode, v, Decrypted(f, p, c))])
  }

  lemma EncryptedNext(f: RoundFunction, p: seq<Half>, mode: Mode, iv: Block, data: seq<Block>, i: nat,
                      v: Block, cs: seq<Block>)
    requires Keys(p) && i < |data| && (v, cs) == EncryptedAll(f, p, mode, iv, data[..i])
    ensures var c := Encrypted(f, p, Masked(mode, v, data[i]));
            EncryptedAll(f, p, mode, iv, data[..i + 1]) == (NextVector(mode, v, c), cs + [c])
  {
    assert data[..i + 1][..i] == data[..i];
  }

  lemma DecryptedNext(f: RoundFunction, p: seq<Half>, mode: Mode, iv: Block, data: seq<Block>, i: nat,
                      v: Block, bs: seq<Block>)
    requires Keys(p) && i < |data| && (v, bs) == DecryptedAll(f, p, mode, iv, data[..i])
    ensures DecryptedAll(f, p, mode, iv, data[..i + 1])
         == (NextVector(mode, v, data[i]), bs + [Masked(mode, v, Decrypted(f, p, data[i]))])
  {
    assert data[..i + 1][..i] == data[..i];
  }

  lemma MaskedTwice(mode: Mode, iv: Block, b: Block)
    ensures Masked(mode, iv, Masked(mode, iv, b)) == b
  {
    XorTwice(b.left, iv.left);
    XorTwice(b.right, iv.right);
  }

  /** In every mode decrypting with the vector that encryption began with gives the data back and ends with the same
      vector, so that the next message can follow. */
  lemma {:induction false} DecryptEncryptAll(f: RoundFunction, p: seq<Half>, mode: Mode, iv: Block, data: seq<Block>)
    requires Keys(p)
    ensures var (v, cs) := EncryptedAll(f, p, mode, iv, data);
            DecryptedAll(f, p, mode, iv, cs) == (v, data)
    decreases |data|
  {
    if data != [] {
      var init, b := data[..|data| - 1], data[|data| - 1];
      var (v, cs) := EncryptedAll(f, p, mode, iv, init);
      var c := Encrypted(f, p, Masked(mode, v, b));
      DecryptEncryptAll(f, p, mode, iv, init);
      DecryptEncrypt(f, p, Masked(mode, v, b));
      MaskedTwice(mode, v, b);
      assert (cs + [c])[..|init|] == cs;
      assert data == init + [b];
    }
  }

  // --- What each mode does ---

  /** A vector with all ciphertexts so far mixed in. */
  function Together(iv: Block, cs: seq<Block>): Block {
    if cs == [] then iv else Together(iv, cs[..|cs| - 1]).Plus(cs[|cs| - 1])
  }

  /** The block before position `i`, with the vector before the first. */
  function Before(iv: Block, cs: seq<Block>, i: nat): Block
    requires i <= |cs|
  {
    if i == 0 then iv else cs[i - 1]
  }

  /** The vector that position `i` meets: none, the ciphertext before it, or the vector with all earlier ciphertexts. */
  function Met(mode: Mode, iv: Block, cs: seq<Block>, i: nat): Block
    requires i <= |cs|
  {
    match mode
    case Ecb => ZERO
    case Cbc => Before(iv, cs, i)
    case Pcbc => Together(iv, cs[..i])
  }

  lemma PlusZero(b: Block)
    ensures b.Plus(ZERO) == b
  {
    XorLaws(b.left, b.left, b.left);
    XorLaws(b.right, b.right, b.right);
  }

  lemma MetEarlier(mode: Mode, iv: Block, cs: seq<Block>, c: Block, i: nat)
    requires i <= |cs|
    ensures Met(mode, iv, cs + [c], i) == Met(mode, iv, cs, i)
  {
    assert (cs + [c])[..i] == cs[..i];
  }

  lemma VectorLeft(mode: Mode, iv: Block, cs: seq<Block>, c: Block, v: Block)
    requires v == if mode == Ecb then iv else Met(mode, iv, cs, |cs|)
    ensures NextVector(mode, v, c) == if mode == Ecb then iv else Met(mode, iv, cs + [c], |cs| + 1)
  {
    assert cs[..|cs|] == cs && (cs + [c])[..|cs| + 1] == cs + [c] && (cs + [c])[..|cs|] == cs;
  }

  /** Every ciphertext is the encryption of its block, with what its position meets mixed in. */
  predicate Chained(f: RoundFunction, p: seq<Half>, mode: Mode, iv: Block, data: seq<Block>, cs: seq<Block>)
    requires Keys(p) && |cs| == |data|
  {
    forall i | 0 <= i < |data| :: cs[i] == Encrypted(f, p, data[i].Plus(Met(mode, iv, cs, i)))
  }

  lemma ChainedNext(f: RoundFunction, p: seq<Half>, mode: Mode, iv: Block, data: seq<Block>, cs: seq<Block>, b: Block)
    requires Keys(p) && |cs| == |data| && Chained(f, p, mode, iv, data, cs)
    ensures Chained(f, p, mode, iv, data + [b], cs + [Encrypted(f, p, b.Plus(Met(mode, iv, cs, |cs|)))])
  {
    var c := Encrypted(f, p, b.Plus(Met(mode, iv, cs, |cs|)));
    forall i | 0 <= i <= |data|
      ensures (cs + [c])[i] == Encrypted(f, p, (data + [b])[i].Plus(Met(mode, iv, cs + [c], i)))
    {
      MetEarlier(mode, iv, cs, c, i);
    }
  }

  lemma MaskedIsMet(mode: Mode, iv: Block, cs: seq<Block>, v: Block, b: Block)
    requires v == if mode == Ecb then iv else Met(mode, iv, cs, |cs|)
    ensures Masked(mode, v, b) == b.Plus(Met(mode, iv, cs, |cs|))
  {
    PlusZero(b);
  }

  /** The law of the modes: mixed in is nothing in ECB, the ciphertext before the block in CBC, and in PCBC the vector
      with all ciphertexts before it. The vector is kept in ECB, and is otherwise what the next block would have met. */
  lemma {:induction false} ModesLaw(f: RoundFunction, p: seq<Half>, mode: Mode, iv: Block, data: seq<Block>)
    requires Keys(p)
    ensures var (v, cs) := EncryptedAll(f, p, mode, iv, data);
            && Chained(f, p, mode, iv, data, cs)
            && v == if mode == Ecb then iv else Met(mode, iv, cs, |cs|)
    decreases |data|
  {
    if data != [] {
      var init, b := data[..|data| - 1], data[|data| - 1];
      var (v, cs) := EncryptedAll(f, p, mode, iv, init);
      ModesLaw(f, p, mode, iv, init);
      MaskedIsMet(mode, iv, cs, v, b);
      ChainedNext(f, p, mode, iv, init, cs, b);
      VectorLeft(mode, iv, cs, Encrypted(f, p, Masked(mode, v, b)), v);
      assert data == init + [b];
    }
  }

  /** What one end sends in several calls, the other decrypts in as many: each message with the vectors left by the ones
      before it. */
  function EncryptedCalls(f: RoundFunction, p: seq<Half>, mode: Mode, iv: Block, messages: seq<seq<Block>>)
      : (r: (Block, seq<seq<Block>>))
    requires Keys(p)
  {
    if messages == [] then (iv, [])
    else
      var (v, done) := EncryptedCalls(f, p, mode, iv, messages[..|messages| - 1]);
      var (v', cs) := EncryptedAll(f, p, mode, v, messages[|messages| - 1]);
      (v', done + [cs])
  }

  function DecryptedCalls(f: RoundFunction, p: seq<Half>, mode: Mode, iv: Block, messages: seq<seq<Block>>)
      : (r: (Block, seq<seq<Block>>))
    requires Keys(p)
  {
    if messages == [] then (iv, [])
    else
      var (v, done) := DecryptedCalls(f, p, mode, iv, messages[..|messages| - 1]);
      var (v', bs) := DecryptedAll(f, p, mode, v, messages[|messages| - 1]);
      (v', done + [bs])
  }

  lemma {:induction false} CallsStayInStep(f: RoundFunction, p: seq<Half>, mode: Mode, iv: Block,
                                          messages: seq<seq<Block>>)
    requires Keys(p)
    ensures var (v, sent) := EncryptedCalls(f, p, mode, iv, messages);
            DecryptedCalls(f, p, mode, iv, sent) == (v, messages)
    decreases |messages|
  {
    if messages != [] {
      var init, last := messages[..|messages| - 1], messages[|messages| - 1];
      var (v, done) := EncryptedCalls(f, p, mode, iv, init);
      CallsStayInStep(f, p, mode, iv, init);
      DecryptEncryptAll(f, p, mode, v, last);
      var cs := EncryptedAll(f, p, mode, v, last).1;
      assert (done + [cs])[..|done|] == done;
      assert messages == init + [last];
    }
  }

  // --- The class ---

  class Cipher {
    const f: RoundFunction
    const p: seq<Half>
    var encVector: Block
    var decVector: Block

    ghost predicate Valid() {
      Keys(p)
    }

    /** `Init` with the tables it computed from the key. */
    constructor (f: RoundFunction, p: seq<Half>)
      requires Keys(p)
      ensures Valid() && this.f == f && this.p == p && encVector == decVector == ZERO
    {
      this.f, this.p := f, p;
      encVector, decVector := ZERO, ZERO;
    }

    /** `EncryptECB`, `EncryptCBC` and `EncryptPCBC`: the data is encrypted in place. */
    method Encrypt(mode: Mode, data: array<Block>)
      requires Valid()
      modifies this`encVector, data
      ensures (encVector, data[..]) == EncryptedAll(f, p, mode, old(encVector), old(data[..]))
    {
      var iv := encVector;
      ghost var was := data[..];
      for i := 0 to data.Length
        invariant encVector == old(encVector) && forall k | i <= k < data.Length :: data[k] == was[k]
        invariant (iv, data[..i]) == EncryptedAll(f, p, mode, encVector, was[..i])
      {
        ghost var cs := data[..i];
        EncryptedNext(f, p, mode, encVector, was, i, iv, cs);
        var c := BlowfishEncrypt(f, p, Masked(mode, iv, data[i]));
        data[i] := c;
        assert data[..i + 1] == cs + [c];
        iv := NextVector(mode, iv, c);
      }
      assert was[..data.Length] == was && data[..data.Length] == data[..];
      encVector := iv;
    }

    method Decrypt(mode: Mode, data: array<Block>)
      requires Valid()
      modifies this`decVector, data
      ensures (decVector, data[..]) == DecryptedAll(f, p, mode, old(decVector), old(data[..]))
    {
      var iv := decVector;
      ghost var was := data[..];
      for i := 0 to data.Length
        invariant decVector == old(decVector) && forall k | i <= k < data.Length :: data[k] == was[k]
        invariant (iv, data[..i]) == DecryptedAll(f, p, mode, decVector, was[..i])
      {
        ghost var bs := data[..i];
        DecryptedNext(f, p, mode, decVector, was, i, iv, bs);
        var c := data[i];
        var b := BlowfishDecrypt(f, p, c);
        data[i] := Masked(mode, iv, b);
        assert data[..i + 1] == bs + [Masked(mode, iv, b)];
        iv := NextVector(mode, iv, c);
      }
      assert was[..data.Length] == was && data[..data.Length] == data[..];
      decVector := iv;
    }
  }
}
