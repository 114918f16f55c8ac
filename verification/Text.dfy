/** Decimal text and searches in strings, as the C++ library functions used by the sources define them. */
module Text {
  datatype Option<+T> = None | Some(value: T)

  function DigitChar(d: nat): (c: char)
    requires d < 10
    ensures '0' <= c <= '9' && c as int - '0' as int == d
  {
    ('0' as int + d) as char
  }

  predicate IsDigit(c: char) {
    '0' <= c <= '9'
  }

  function DigitValue(c: char): nat
    requires IsDigit(c)
  {
    c as int - '0' as int
  }

  /** Decimal digits of `n`, most significant first and without leading zeros. */
  function DecimalNat(n: nat): (s: string)
    ensures s != "" && forall i | 0 <= i < |s| :: IsDigit(s[i])
  {
    if n < 10 then [DigitChar(n)] else DecimalNat(n / 10) + [DigitChar(n % 10)]
  }

  function PowerOfTen(k: nat): nat {
    if k == 0 then 1 else 10 * PowerOfTen(k - 1)
  }

  lemma {:induction false} DigitCount(n: nat, k: nat)
    requires k > 0 && n < PowerOfTen(k)
    ensures |DecimalNat(n)| <= k
  {
    if n >= 10 {
      DigitCount(n / 10, k - 1);
    }
  }

  /** `std::to_string` and `sprintf("%d")` of an integer. */
  function Decimal(n: int): string {
    if n < 0 then "-" + DecimalNat(-n) else DecimalNat(n)
  }

  /** Value of the longest run of digits at the front of `s`, added to `acc` shifted left. */
  function ReadDigits(s: string, acc: nat): nat {
    if s == "" || !IsDigit(s[0]) then acc else ReadDigits(s[1..], 10 * acc + DigitValue(s[0]))
  }

  predicate IsSpace(c: char) {
    c == ' ' || '\t' <= c <= '\r'
  }

  /** `atoi` without its range limit: blanks, an optional sign, then digits. */
  function Atoi(s: string): int {
    if s == "" then 0
    else if IsSpace(s[0]) then Atoi(s[1..])
    else if s[0] == '-' then -(ReadDigits(s[1..], 0) as int)
    else if s[0] == '+' then ReadDigits(s[1..], 0)
    else ReadDigits(s, 0)
  }

  lemma {:induction false} ReadDigitsAppend(s: string, c: char, acc: nat)
    requires forall i | 0 <= i < |s| :: IsDigit(s[i])
    requires IsDigit(c)
    ensures ReadDigits(s + [c], acc) == 10 * ReadDigits(s, acc) + DigitValue(c)
    decreases |s|
  {
    if s == "" {
      assert ([c])[1..] == "";
      assert s + [c] == [c];
    } else {
      assert (s + [c])[1..] == s[1..] + [c];
      ReadDigitsAppend(s[1..], c, 10 * acc + DigitValue(s[0]));
    }
  }

  lemma {:induction false} ReadDecimalNat(n: nat)
    ensures ReadDigits(DecimalNat(n), 0) == n
  {
    if n < 10 {
      assert DecimalNat(n)[1..] == "";
    } else {
      ReadDecimalNat(n / 10);
      ReadDigitsAppend(DecimalNat(n / 10), DigitChar(n % 10), 0);
    }
  }

  /** `atoi` undoes `sprintf("%d")`. */
  lemma AtoiDecimal(n: int)
    ensures Atoi(Decimal(n)) == n
  {
    if n < 0 {
      assert Decimal(n)[1..] == DecimalNat(-n);
      ReadDecimalNat(-n);
    } else {
      ReadDecimalNat(n);
    }
  }

  lemma DecimalInjective(m: int, n: int)
    requires Decimal(m) == Decimal(n)
    ensures m == n
  {
    AtoiDecimal(m);
    AtoiDecimal(n);
  }

  /** No `c` at positions `lo` to `hi - 1`. */
  predicate Free(s: string, c: char, lo: nat, hi: nat)
    requires lo <= hi <= |s|
  {
    forall k | lo <= k < hi :: s[k] != c
  }

  /** `s.find(c, from)`, with `|s|` for "not found". */
  function Find(s: string, c: char, from: nat): (i: nat)
    requires from <= |s|
    ensures from <= i <= |s| && Free(s, c, from, i)
    ensures i < |s| ==> s[i] == c
    decreases |s| - from
  {
    if from == |s| || s[from] == c then from else Find(s, c, from + 1)
  }

  function FindLastBefore(s: string, c: char, lo: nat, hi: nat, n: nat): (i: nat)
    requires lo <= n <= hi <= |s| && Free(s, c, n, hi)
    ensures lo <= i <= hi
    ensures i < hi ==> s[i] == c && Free(s, c, i + 1, hi)
    ensures i == hi ==> Free(s, c, lo, hi)
    decreases n
  {
    if n == lo then hi else if s[n - 1] == c then n - 1 else FindLastBefore(s, c, lo, hi, n - 1)
  }

  /** The last `c` at positions `lo` to `hi - 1`, or `hi`. */
  function FindLast(s: string, c: char, lo: nat, hi: nat): (i: nat)
    requires lo <= hi <= |s|
    ensures lo <= i <= hi
    ensures i < hi ==> s[i] == c && Free(s, c, i + 1, hi)
    ensures i == hi ==> Free(s, c, lo, hi)
  {
    FindLastBefore(s, c, lo, hi, hi)
  }

  /** No `c` in the whole of `s`. */
  predicate Clean(s: string, c: char) {
    Free(s, c, 0, |s|)
  }

  /** `s` from a position on, split at every `c`; empty parts are kept. */
  function SplitFrom(s: string, c: char, pos: nat): (parts: seq<string>)
    requires pos <= |s|
    ensures |parts| > 0
    decreases |s| - pos
  {
    var n := Find(s, c, pos);
    [s[pos..n]] + if n < |s| then SplitFrom(s, c, n + 1) else []
  }

  lemma SliceIsClean(s: string, lo: nat, hi: nat, c: char)
    requires lo <= hi <= |s| && Free(s, c, lo, hi)
    ensures Clean(s[lo..hi], c)
  {
  }

  /** The parts with `c` between them. */
  function Glued(parts: seq<string>, c: char): string {
    if parts == [] then ""
    else if |parts| == 1 then parts[0]
    else parts[0] + [c] + Glued(parts[1..], c)
  }

  predicate AllClean(parts: seq<string>, c: char) {
    forall i | 0 <= i < |parts| :: Clean(parts[i], c)
  }

  /** `parts` are what lies between the `c` of a text: none holds a `c`, and with `c` between them they are the text. */
  predicate CutAt(parts: seq<string>, s: string, c: char) {
    parts != [] && AllClean(parts, c) && Glued(parts, c) == s
  }

  lemma OnePiece(s: string, c: char)
    requires Clean(s, c)
    ensures CutAt([s], s, c)
  {
  }

  lemma CutGrows(first: string, rest: seq<string>, s: string, c: char)
    requires Clean(first, c) && CutAt(rest, s, c)
    ensures CutAt([first] + rest, first + [c] + s, c)
  {
    assert ([first] + rest)[1..] == rest;
  }

  lemma CutBefore(s: string, c: char, pos: nat, n: nat, rest: seq<string>, parts: seq<string>)
    requires pos <= n < |s| && s[n] == c && Free(s, c, pos, n) && CutAt(rest, s[n + 1..], c)
    requires parts == [s[pos..n]] + rest
    ensures CutAt(parts, s[pos..], c)
  {
    SliceIsClean(s, pos, n, c);
    CutGrows(s[pos..n], rest, s[n + 1..], c);
    assert s[pos..] == s[pos..n] + [c] + s[n + 1..];
  }

  lemma LastCut(s: string, c: char, pos: nat)
    requires pos <= |s| && Find(s, c, pos) == |s|
    ensures CutAt(SplitFrom(s, c, pos), s[pos..], c)
  {
    var last := s[pos..];
    assert s[pos..|s|] == last && [last] + [] == [last];
    SliceIsClean(s, pos, |s|, c);
    OnePiece(last, c);
  }

  lemma NextCut(s: string, c: char, pos: nat)
    requires pos <= |s| && Find(s, c, pos) < |s|
    requires var n := Find(s, c, pos); CutAt(SplitFrom(s, c, n + 1), s[n + 1..], c)
    ensures CutAt(SplitFrom(s, c, pos), s[pos..], c)
  {
    var n := Find(s, c, pos);
    CutBefore(s, c, pos, n, SplitFrom(s, c, n + 1), SplitFrom(s, c, pos));
  }

  lemma {:induction false} SplitIsCut(s: string, c: char, pos: nat)
    requires pos <= |s|
    ensures CutAt(SplitFrom(s, c, pos), s[pos..], c)
    decreases |s| - pos
  {
    var n := Find(s, c, pos);
    if n < |s| {
      SplitIsCut(s, c, n + 1);
      NextCut(s, c, pos);
    } else {
      LastCut(s, c, pos);
    }
  }

  lemma FirstPart(parts: seq<string>, s: string, c: char)
    requires CutAt(parts, s, c)
    ensures Find(s, c, 0) == |parts[0]| <= |s| && s[..|parts[0]|] == parts[0]
    ensures |parts| == 1 <==> |parts[0]| == |s|
    ensures |parts| > 1 ==> CutAt(parts[1..], s[|parts[0]| + 1..], c)
  {
    if |parts| > 1 {
      assert s == parts[0] + [c] + Glued(parts[1..], c);
      assert s[|parts[0]|] == c;
    } else {
      assert s == parts[0];
    }
    assert forall k | 0 <= k < |parts[0]| :: s[k] == parts[0][k];
  }

  /** There is only one way to cut a text. */
  lemma {:induction false} CutIsUnique(a: seq<string>, b: seq<string>, s: string, c: char)
    requires CutAt(a, s, c) && CutAt(b, s, c)
    ensures a == b
    decreases |a|
  {
    FirstPart(a, s, c);
    FirstPart(b, s, c);
    if |a| > 1 {
      CutIsUnique(a[1..], b[1..], s[|a[0]| + 1..], c);
      assert a == [a[0]] + a[1..] && b == [b[0]] + b[1..];
    }
  }

  /** Two characters are the same, or the same letter in different case. */
  predicate SameLetter(a: char, b: char) {
    || a == b
    || ('A' <= a <= 'Z' && 'a' <= b <= 'z' && a as int - 'A' as int == b as int - 'a' as int)
    || ('a' <= a <= 'z' && 'A' <= b <= 'Z' && a as int - 'a' as int == b as int - 'A' as int)
  }

  /** The same text, in whatever case. */
  predicate SameName(a: string, b: string) {
    |a| == |b| && forall i | 0 <= i < |a| :: SameLetter(a[i], b[i])
  }

  /** `tolower` on ASCII. */
  function LowerChar(c: char): char {
    if 'A' <= c <= 'Z' then (c as int + 32) as char else c
  }
}
