/** Echo request packets and their checksum (`PingPacket` in `ping.h`), on a host that stores the low byte of a word
    first. The checksum is the one of RFC 1071, section 1. */
module PingPacket {
  type Byte = b: int | 0 <= b < 256
  type Word = w: int | 0 <= w < 65536

  const ALL_ONES: Word := 65535
  const WRAP_32 := 0x1_0000_0000

  // --- Words ---

  function WordCount(b: seq<Byte>): nat {
    (|b| + 1) / 2
  }

  /** A 16-bit word of a buffer; the last byte of an odd number stands alone. */
  function WordAt(b: seq<Byte>, k: nat): Word
    requires k < WordCount(b)
  {
    if 2 * k + 1 < |b| then b[2 * k] as int + 256 * (b[2 * k + 1] as int) else b[2 * k]
  }

  /** The sum of the first `n` words. */
  function Sum(b: seq<Byte>, n: nat): nat
    requires n <= WordCount(b)
  {
    if n == 0 then 0 else Sum(b, n - 1) + WordAt(b, n - 1)
  }

  lemma {:induction false} SumBound(b: seq<Byte>, n: nat)
    requires n <= WordCount(b)
    ensures Sum(b, n) <= n * 65535
  {
    if n > 0 {
      SumBound(b, n - 1);
    }
  }

  /** The 32-bit sum cannot overflow in a buffer of at most 65537 words. */
  lemma SumFits(b: seq<Byte>)
    requires WordCount(b) <= 65537
    ensures Sum(b, WordCount(b)) < WRAP_32
  {
    SumBound(b, WordCount(b));
  }

  /** The sum of a buffer of all ones; an odd last byte counts 255. */
  lemma {:induction false} SumOfOnes(b: seq<Byte>, n: nat)
    requires n <= WordCount(b) && forall i | 0 <= i < |b| :: b[i] == 255
    ensures Sum(b, n) == if 2 * n <= |b| then n * 65535 else (n - 1) * 65535 + 255
  {
    if n > 0 {
      SumOfOnes(b, n - 1);
    }
  }

  /** Buffers of a given length can overflow the 32-bit sum exactly when they have more than 65537 words. */
  lemma SumOverflowsIff(length: nat)
    ensures (exists b: seq<Byte> :: |b| == length && Sum(b, WordCount(b)) >= WRAP_32) <==> (length + 1) / 2 > 65537
  {
    if (length + 1) / 2 > 65537 {
      var b: seq<Byte> := seq(length, _ => 255);
      SumOfOnes(b, WordCount(b));
    } else {
      forall b: seq<Byte> | |b| == length ensures Sum(b, WordCount(b)) < WRAP_32 {
        SumFits(b);
      }
    }
  }

  // --- Folding is one's complement addition ---

  /** Two folds of a 32-bit sum and the truncation to 16 bits. */
  function Folded(sum: nat): Word {
    var once := sum / 65536 + sum % 65536;
    (once + once / 65536) % 65536
  }

  /** One's complement addition: the carry comes back at the low end. */
  function OnesAdd(a: Word, b: Word): Word {
    if a + b > 65535 then a + b - 65535 else a + b
  }

  function OnesSum(b: seq<Byte>, n: nat): Word
    requires n <= WordCount(b)
  {
    if n == 0 then 0 else OnesAdd(OnesSum(b, n - 1), WordAt(b, n - 1))
  }

  /** The remainder modulo 65535, with 65535 itself for the positive multiples. */
  function Reduced(s: nat): Word {
    if s == 0 then 0 else (s - 1) % 65535 + 1
  }

  lemma ReducedBy(s: nat, r: nat, q: int)
    requires s == r + 65535 * q && 0 < r <= 65535 && s > 0
    ensures Reduced(s) == r
  {
    assert s - 1 == (r - 1) + 65535 * q;
  }

  lemma FoldedIsReduced(s: nat)
    requires s < WRAP_32
    ensures Folded(s) == Reduced(s)
  {
    var high, low := s / 65536, s % 65536;
    var once := high + low;
    if s > 0 {
      if once < 65536 {
        ReducedBy(s, once, high);
      } else {
        ReducedBy(s, once - 65535, high + 1);
      }
    }
  }

  lemma OnesAddReduced(s: nat, w: Word)
    ensures OnesAdd(Reduced(s), w) == Reduced(s + w)
  {
    if s > 0 {
      var q := (s - 1) / 65535;
      var r := Reduced(s) + w;
      assert s == Reduced(s) + 65535 * q;
      if r > 65535 {
        ReducedBy(s + w, r - 65535, q + 1);
      } else {
        ReducedBy(s + w, r, q);
      }
    } else if w > 0 {
      ReducedBy(w, w, 0);
    }
  }

  lemma {:induction false} OnesSumIsReduced(b: seq<Byte>, n: nat)
    requires n <= WordCount(b)
    ensures OnesSum(b, n) == Reduced(Sum(b, n))
  {
    if n > 0 {
      OnesSumIsReduced(b, n - 1);
      OnesAddReduced(Sum(b, n - 1), WordAt(b, n - 1));
    }
  }

  /** The value `checksum` returns, with the wrap-around of its 32-bit sum. */
  function Checksum(b: seq<Byte>): Word {
    65535 - Folded(Sum(b, WordCount(b)) % WRAP_32)
  }

  lemma WrappedIsReduced(s: nat)
    requires s < WRAP_32
    ensures Folded(s % WRAP_32) == Reduced(s)
  {
    FoldedIsReduced(s);
    assert s % WRAP_32 == s;
  }

  lemma ChecksumIsReduced(b: seq<Byte>)
    requires WordCount(b) <= 65537
    ensures Checksum(b) == 65535 - Reduced(Sum(b, WordCount(b)))
  {
    SumFits(b);
    WrappedIsReduced(Sum(b, WordCount(b)));
  }

  /** For buffers of at most 65537 words it is the complement of the one's complement sum of all words. */
  lemma ChecksumIsOnesComplement(b: seq<Byte>)
    requires WordCount(b) <= 65537
    ensures Checksum(b) == 65535 - OnesSum(b, WordCount(b)) == 65535 - Reduced(Sum(b, WordCount(b)))
  {
    ChecksumIsReduced(b);
    OnesSumIsReduced(b, WordCount(b));
  }

  // --- Packets ---

  const HEADER_SIZE := 8
  const ICMP_ECHO: Byte := 8

  /** A buffer with its checksum field set to zero. */
  function WithoutChecksum(b: seq<Byte>): (b': seq<Byte>)
    requires |b| >= HEADER_SIZE
    ensures |b'| == |b|
  {
    b[2 := 0][3 := 0]
  }

  predicate Accepted(b: seq<Byte>)
    requires |b| >= HEADER_SIZE
  {
    WordAt(b, 1) == Checksum(WithoutChecksum(b))
  }

  /** The payload: the alphabet, with one more `a` between rounds. */
  function FillByte(p: nat): Byte {
    if p % 27 == 26 then 'a' as int else 'a' as int + p % 27
  }

  const LETTERS := "abcdefghijklmnopqrstuvwxyza"

  lemma LetterAt(p: nat)
    ensures FillByte(p) == LETTERS[p % 27] as int
  {
  }

  /** A packet before its checksum is entered; `htons` puts the high byte first. */
  function Blank(id: Word, sequence: Word, size: nat): (b: seq<Byte>)
    requires size > HEADER_SIZE
    ensures |b| == size
  {
    [ICMP_ECHO, 0, 0, 0, id / 256, id % 256, sequence / 256, sequence % 256]
    + seq(size - HEADER_SIZE, p requires p >= 0 => FillByte(p))
  }

  function Created(id: Word, sequence: Word, size: nat): (b: seq<Byte>)
    requires size > HEADER_SIZE
    ensures |b| == size
  {
    var blank := Blank(id, sequence, size);
    blank[2 := Checksum(blank) % 256][3 := Checksum(blank) / 256]
  }

  /** A created packet is accepted. */
  lemma CreatedIsAccepted(id: Word, sequence: Word, size: nat)
    requires size > HEADER_SIZE
    ensures Accepted(Created(id, sequence, size))
  {
    var blank := Blank(id, sequence, size);
    assert WithoutChecksum(Created(id, sequence, size)) == blank;
  }

  /** A created packet, byte by byte: an echo request with code 0, identifier and sequence number in network order, and
      the letters from `a` to `z` followed by one more `a`, again and again. */
  lemma CreatedHolds(id: Word, sequence: Word, size: nat)
    requires size > HEADER_SIZE
    ensures var b := Created(id, sequence, size);
            && b[0] == 8 && b[1] == 0
            && b[4] as int * 256 + b[5] == id && b[6] as int * 256 + b[7] == sequence
            && forall p | 8 <= p < size :: b[p] == LETTERS[(p - 8) % 27] as int
  {
    var b := Created(id, sequence, size);
    forall p | 8 <= p < size ensures b[p] == LETTERS[(p - 8) % 27] as int {
      LetterAt(p - 8);
    }
  }

  // --- Changes of one word ---

  predicate DifferInWord(b: seq<Byte>, b': seq<Byte>, k: nat)
    requires k < WordCount(b)
  {
    |b'| == |b| && WordAt(b', k) != WordAt(b, k)
    && forall i | 0 <= i < |b| && i / 2 != k :: b'[i] == b[i]
  }

  lemma {:induction false} SumOfChanged(b: seq<Byte>, b': seq<Byte>, k: nat, n: nat)
    requires k < WordCount(b) && n <= WordCount(b) && |b'| == |b|
    requires forall i | 0 <= i < |b| && i / 2 != k :: b'[i] == b[i]
    ensures Sum(b', n) == Sum(b, n) + if k < n then WordAt(b', k) - WordAt(b, k) else 0
  {
    if n > 0 {
      SumOfChanged(b, b', k, n - 1);
    }
  }

  /** Two different words have the same remainder only as 0 and 65535, and then not if nothing else is summed. */
  lemma SameReduced(others: nat, w: Word, w': Word)
    requires w != w'
    ensures Reduced(others + w) == Reduced(others + w') <==> {w, w'} == {0, 65535} && others > 0
  {
    if others + w > 0 && others + w' > 0 {
      var (q, q') := ((others + w - 1) / 65535, (others + w' - 1) / 65535);
      if Reduced(others + w) == Reduced(others + w') {
        assert w - w' == 65535 * (q - q');
        assert w - w' == 65535 || w - w' == -65535;
      }
      if {w, w'} == {0, 65535} {
        ReducedBy(others + 65535, Reduced(others), (others - 1) / 65535 + 1);
        assert w in {w, w'} && w' in {w, w'};
      }
    }
  }

  lemma {:induction false} SumHasWord(b: seq<Byte>, k: nat, n: nat)
    requires k < n <= WordCount(b)
    ensures Sum(b, n) >= WordAt(b, k)
  {
    if k < n - 1 {
      SumHasWord(b, k, n - 1);
    }
  }

  /** The sum of a buffer without its checksum field and without word `k`. */
  function Others(b: seq<Byte>, k: nat): nat
    requires |b| >= HEADER_SIZE && k < WordCount(b) && k != 1
  {
    SumHasWord(WithoutChecksum(b), k, WordCount(b));
    Sum(WithoutChecksum(b), WordCount(b)) - WordAt(b, k)
  }

  lemma SameWithoutChecksum(b: seq<Byte>, b': seq<Byte>)
    requires |b| >= HEADER_SIZE && DifferInWord(b, b', 1)
    ensures WithoutChecksum(b') == WithoutChecksum(b)
  {
    assert forall i | 0 <= i < |b| && i != 2 && i != 3 :: i / 2 != 1;
  }

  lemma SameChecksumIff(z: seq<Byte>, z': seq<Byte>, others: nat, w: Word, w': Word)
    requires |z| == |z'| && WordCount(z) <= 65537 && w != w'
    requires Sum(z, WordCount(z)) == others + w && Sum(z', WordCount(z')) == others + w'
    ensures Checksum(z) == Checksum(z') <==> {w, w'} == {0, 65535} && others > 0
  {
    ChecksumIsOnesComplement(z);
    ChecksumIsOnesComplement(z');
    SameReduced(others, w, w');
  }

  /** Changing one aligned word of an accepted packet goes unnoticed exactly when zero and all ones are exchanged
      outside the checksum field and some other word is not zero. */
  lemma ChangedWordAcceptedIff(b: seq<Byte>, b': seq<Byte>, k: nat)
    requires |b| >= HEADER_SIZE && WordCount(b) <= 65537 && Accepted(b)
    requires k < WordCount(b) && DifferInWord(b, b', k)
    ensures Accepted(b')
       <==> k != 1 && {WordAt(b, k), WordAt(b', k)} == {0, 65535} && Others(b, k) > 0
  {
    var (z, z', n) := (WithoutChecksum(b), WithoutChecksum(b'), WordCount(b));
    if k == 1 {
      SameWithoutChecksum(b, b');
    } else {
      assert WordAt(z, k) == WordAt(b, k) && WordAt(z', k) == WordAt(b', k);
      assert WordAt(b', 1) == WordAt(b, 1);
      SumOfChanged(z, z', k, n);
      SameChecksumIff(z, z', Others(b, k), WordAt(b, k), WordAt(b', k));
    }
  }

  lemma {:induction false} SumHasTwoWords(b: seq<Byte>, j: nat, k: nat, n: nat)
    requires j < k < n <= WordCount(b)
    ensures Sum(b, n) >= WordAt(b, j) + WordAt(b, k)
  {
    if k < n - 1 {
      SumHasTwoWords(b, j, k, n - 1);
    } else {
      SumHasWord(b, j, k);
    }
  }

  /** A created packet that is changed in one word behind its first is accepted exactly when zero and all ones are
      exchanged there: its type keeps the other words from being all zero. */
  lemma ChangedCreatedAcceptedIff(id: Word, sequence: Word, size: nat, b': seq<Byte>, k: nat)
    requires HEADER_SIZE < size <= 2 * 65537 && 0 < k < (size + 1) / 2
    requires DifferInWord(Created(id, sequence, size), b', k)
    ensures Accepted(b') <==> k != 1 && {WordAt(Created(id, sequence, size), k), WordAt(b', k)} == {0, 65535}
  {
    var b := Created(id, sequence, size);
    CreatedIsAccepted(id, sequence, size);
    ChangedWordAcceptedIff(b, b', k);
    if k != 1 {
      var z := WithoutChecksum(b);
      assert WordAt(z, 0) == 8 && WordAt(z, k) == WordAt(b, k);
      SumHasTwoWords(z, 0, k, WordCount(z));
    }
  }

  // --- The check of RFC 1071 ---

  /** A buffer passes the check of the standard if all its words, with the checksum among them, sum to all ones. */
  predicate PassesStandardCheck(b: seq<Byte>) {
    OnesSum(b, WordCount(b)) == ALL_ONES
  }

  lemma ComplementSumsToOnes(s: nat, c: Word)
    ensures Reduced(s + c) == ALL_ONES <==> c == 65535 - Reduced(s) || (c == ALL_ONES && Reduced(s) == 65535)
  {
    if s > 0 {
      var q := (s - 1) / 65535;
      var r := Reduced(s);
      assert s == r + 65535 * q;
      if r + c > 65535 {
        ReducedBy(s + c, r + c - 65535, q + 1);
      } else {
        ReducedBy(s + c, r + c, q);
      }
    } else if c > 0 {
      ReducedBy(c, c, 0);
    }
  }

  /** The program compares the checksum with one value and so refuses one packet the standard accepts: all ones in the
      field where its own sum gives zero. */
  lemma StandardAcceptsIff(b: seq<Byte>)
    requires |b| >= HEADER_SIZE && WordCount(b) <= 65537
    ensures PassesStandardCheck(b)
       <==> Accepted(b) || (WordAt(b, 1) == ALL_ONES && Checksum(WithoutChecksum(b)) == 0)
  {
    var (z, n, c) := (WithoutChecksum(b), WordCount(b), WordAt(b, 1));
    SumOfChanged(z, b, 1, n);
    OnesSumIsReduced(b, n);
    ChecksumIsOnesComplement(z);
    ComplementSumsToOnes(Sum(z, n), c);
  }

  // --- The class ---

  class Packet {
    const data: array<Byte>

    ghost predicate Valid()
      reads this, data
    {
      data.Length >= HEADER_SIZE
    }

    /** A buffer as it was received. */
    constructor Received(bytes: seq<Byte>)
      requires |bytes| >= HEADER_SIZE
      ensures Valid() && fresh(data) && data[..] == bytes
    {
      data := new Byte[|bytes|](i requires 0 <= i < |bytes| => bytes[i]);
    }

    method ComputeChecksum() returns (result: Word)
      ensures result == Checksum(data[..])
    {
      ghost var b := data[..];
      var sum, i := 0, 0;
      ghost var n := 0;
      while data.Length - i > 1
        invariant i == 2 * n <= data.Length && data[..] == b
        invariant sum == Sum(b, n) % WRAP_32
        decreases data.Length - i
      {
        assert WordAt(b, n) == data[i] as int + 256 * (data[i + 1] as int);
        AddWraps(Sum(b, n), WordAt(b, n));
        sum := (sum + (data[i] as int + 256 * (data[i + 1] as int))) % WRAP_32;
        i, n := i + 2, n + 1;
      }
      if data.Length - i == 1 {
        AddWraps(Sum(b, n), WordAt(b, n));
        sum := (sum + data[i]) % WRAP_32;
        n := n + 1;
      }
      assert n == WordCount(b);
      ghost var whole := sum;
      sum := sum / 65536 + sum % 65536;
      FoldTwice(whole, sum);
      sum := sum + sum / 65536;
      result := 65535 - sum % 65536;
    }

    static lemma FoldTwice(whole: nat, once: nat)
      requires once == whole / 65536 + whole % 65536
      ensures Folded(whole) == (once + once / 65536) % 65536
    {
    }

    static lemma AddWraps(s: nat, w: Word)
      ensures (s % WRAP_32 + w) % WRAP_32 == (s + w) % WRAP_32
    {
    }

    /** `operator bool`: the field is zeroed for the computation and put back. */
    method Check() returns (ok: bool)
      requires Valid()
      modifies data
      ensures data[..] == old(data[..])
      ensures ok == Accepted(old(data[..]))
    {
      var low, high := data[2], data[3];
      data[2], data[3] := 0, 0;
      assert data[..] == WithoutChecksum(old(data[..]));
      var newChecksum := ComputeChecksum();
      data[2], data[3] := low, high;
      ok := newChecksum == low as int + 256 * (high as int);
    }

    /** `create_new_packet`. */
    constructor (id: Word, sequence: Word, size: nat)
      requires size > HEADER_SIZE
      ensures Valid() && fresh(data) && data[..] == Created(id, sequence, size)
    {
      data := new Byte[size];
      new;
      data[0], data[1], data[2], data[3] := ICMP_ECHO, 0, 0, 0;
      data[4], data[5] := id / 256, id % 256;
      data[6], data[7] := sequence / 256, sequence % 256;
      Fill();
      assert data[..] == Blank(id, sequence, size);
      var checksum := ComputeChecksum();
      data[2], data[3] := checksum % 256, checksum / 256;
    }

    /** The generator: it counts up to `z`, gives `a` once more, and starts again. */
    method Fill()
      requires data.Length >= HEADER_SIZE
      modifies data
      ensures data[..HEADER_SIZE] == old(data[..HEADER_SIZE])
      ensures forall p | 0 <= p < data.Length - HEADER_SIZE :: data[HEADER_SIZE + p] == FillByte(p)
    {
      var i: Byte := 'a' as int;
      for j := HEADER_SIZE to data.Length
        invariant i == 'a' as int + (j - HEADER_SIZE) % 27
        invariant data[..HEADER_SIZE] == old(data[..HEADER_SIZE])
        invariant forall p | 0 <= p < j - HEADER_SIZE :: data[HEADER_SIZE + p] == FillByte(p)
      {
        if i <= 'z' as int {
          data[j] := i;
          i := i + 1;
        } else {
          i := 'a' as int;
          data[j] := i;
        }
      }
    }
  }
}
