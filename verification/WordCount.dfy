/** The word counter of `qt-wordcount/main.cpp`: one thread over all files, or a map per file and a reduction in
    whatever order the maps get ready. What a file holds is a function from its name to its lines; counts are
    unbounded. */
module WordCount {
  import opened Text

  type Counts = map<string, nat>
  type Reader = string -> seq<string>

  // --- Words ---

  /** The words of all lines, each split at blanks. */
  function WordsOf(lines: seq<string>): seq<string> {
    if lines == [] then [] else WordsOf(lines[..|lines| - 1]) + SplitFrom(lines[|lines| - 1], ' ', 0)
  }

  function AllWords(read: Reader, files: seq<string>): seq<string> {
    if files == [] then [] else AllWords(read, files[..|files| - 1]) + WordsOf(read(files[|files| - 1]))
  }

  // --- Counting ---

  function Count(m: Counts, word: string): nat {
    if word in m then m[word] else 0
  }

  /** `wordCount[word] += 1`. */
  function Increment(m: Counts, word: string): Counts {
    m[word := Count(m, word) + 1]
  }

  function Counted(m: Counts, words: seq<string>): Counts {
    if words == [] then m else Increment(Counted(m, words[..|words| - 1]), words[|words| - 1])
  }

  /** The counts of two maps added up, as `reduce` does. */
  function Merged(a: Counts, b: Counts): Counts {
    map word | word in a.Keys + b.Keys :: Count(a, word) + Count(b, word)
  }

  /** The counts while the entries `done` of the second map have been added. */
  function MergedPart(a: Counts, b: Counts, done: set<string>): Counts {
    map word | word in a.Keys + done :: Count(a, word) + if word in done then Count(b, word) else 0
  }

  lemma MergedNext(a: Counts, b: Counts, done: set<string>, key: string, m: Counts)
    requires key !in done && key in b && m == MergedPart(a, b, done)
    ensures MergedPart(a, b, done + {key}) == m[key := Count(m, key) + b[key]]
  {
  }

  lemma TakeOut(keys: set<string>, done: set<string>, rest: set<string>, key: string)
    requires done + rest == keys && done !! rest && key in rest
    ensures key !in done && done + {key} + (rest - {key}) == keys && done + {key} !! rest - {key}
  {
  }

  lemma MergedStart(a: Counts, b: Counts)
    ensures MergedPart(a, b, {}) == a
  {
  }

  lemma MergedEnd(a: Counts, b: Counts, done: set<string>)
    requires done == b.Keys
    ensures MergedPart(a, b, done) == Merged(a, b)
  {
  }

  /** What remains of a file list after each of its maps has been reduced, in this order. */
  function Reduced(read: Reader, order: seq<string>): Counts {
    if order == [] then map[]
    else Merged(Reduced(read, order[..|order| - 1]), Counted(map[], WordsOf(read(order[|order| - 1]))))
  }

  // --- The program ---

  lemma CountedAppend(m: Counts, xs: seq<string>, ys: seq<string>)
    ensures Counted(m, xs + ys) == Counted(Counted(m, xs), ys)
    decreases |ys|
  {
    if ys == [] {
      assert xs + ys == xs;
    } else {
      assert (xs + ys)[..|xs + ys| - 1] == xs + ys[..|ys| - 1];
      CountedAppend(m, xs, ys[..|ys| - 1]);
    }
  }

  lemma Prefixes<T>(s: seq<T>, i: nat)
    requires i < |s|
    ensures s[..i + 1][..i] == s[..i] && s[..i + 1][i] == s[i]
  {
  }

  /** The loops over the lines of a file and the words of a line. */
  method AddLines(wordCount: Counts, lines: seq<string>) returns (result: Counts)
    ensures result == Counted(wordCount, WordsOf(lines))
  {
    result := wordCount;
    for i := 0 to |lines|
      invariant result == Counted(wordCount, WordsOf(lines[..i]))
    {
      var words := SplitFrom(lines[i], ' ', 0);
      ghost var before := result;
      for j := 0 to |words|
        invariant result == Counted(before, words[..j])
      {
        Prefixes(words, j);
        result := result[words[j] := Count(result, words[j]) + 1];
      }
      assert words[..|words|] == words;
      CountedAppend(wordCount, WordsOf(lines[..i]), words);
      Prefixes(lines, i);
    }
    assert lines[..|lines|] == lines;
  }

  method SingleThreadedWordCount(read: Reader, files: seq<string>) returns (wordCount: Counts)
    ensures wordCount == Counted(map[], AllWords(read, files))
  {
    wordCount := map[];
    for i := 0 to |files|
      invariant wordCount == Counted(map[], AllWords(read, files[..i]))
    {
      CountedAppend(map[], AllWords(read, files[..i]), WordsOf(read(files[i])));
      wordCount := AddLines(wordCount, read(files[i]));
      Prefixes(files, i);
    }
    assert files[..|files|] == files;
  }

  method CountWords(read: Reader, file: string) returns (wordCount: Counts)
    ensures wordCount == Counted(map[], WordsOf(read(file)))
  {
    wordCount := AddLines(map[], read(file));
  }

  /** `reduce`, over the entries of `w` in any order. */
  method Reduce(result: Counts, w: Counts) returns (result': Counts)
    ensures result' == Merged(result, w)
  {
    result' := result;
    var rest := w.Keys;
    ghost var done: set<string> := {};
    MergedStart(result, w);
    while rest != {}
      invariant done + rest == w.Keys && done !! rest
      invariant result' == MergedPart(result, w, done)
      decreases |rest|
    {
      var key :| key in rest;
      TakeOut(w.Keys, done, rest, key);
      MergedNext(result, w, done, key, result');
      result' := result'[key := Count(result', key) + w[key]];
      done := done + {key};
      assert result' == MergedPart(result, w, done);
      rest := rest - {key};
    }
    MergedEnd(result, w, done);
  }

  /** `mappedReduced`: the map of every file is reduced once, in the order given by `order`. */
  method MappedReduced(read: Reader, files: seq<string>, order: seq<string>) returns (total: Counts)
    requires multiset(order) == multiset(files)
    ensures total == Counted(map[], AllWords(read, files))
  {
    total := map[];
    for i := 0 to |order|
      invariant total == Reduced(read, order[..i])
    {
      var w := CountWords(read, order[i]);
      total := Reduce(total, w);
      Prefixes(order, i);
    }
    assert order[..|order|] == order;
    MapReduceIsSequential(read, files, order);
  }

  // --- Both count the same ---

  /** A map holds the multiplicities of a multiset of words. */
  ghost predicate Holds(m: Counts, words: multiset<string>) {
    (forall word | word in m :: word in words) && forall word | word in words :: word in m && m[word] == words[word]
  }

  lemma {:induction false} CountedHolds(m: Counts, words: seq<string>, before: multiset<string>)
    requires Holds(m, before)
    ensures Holds(Counted(m, words), before + multiset(words))
  {
    if words != [] {
      var (init, last) := (words[..|words| - 1], words[|words| - 1]);
      CountedHolds(m, init, before);
      assert words == init + [last];
      assert multiset(words) == multiset(init) + multiset{last};
    }
  }

  lemma HoldsUnique(a: Counts, b: Counts, words: multiset<string>)
    requires Holds(a, words) && Holds(b, words)
    ensures a == b
  {
  }

  lemma MergedHolds(a: Counts, b: Counts, x: multiset<string>, y: multiset<string>)
    requires Holds(a, x) && Holds(b, y)
    ensures Holds(Merged(a, b), x + y)
  {
  }

  lemma {:induction false} ReducedHolds(read: Reader, order: seq<string>)
    ensures Holds(Reduced(read, order), multiset(AllWords(read, order)))
  {
    if order != [] {
      var (init, words) := (order[..|order| - 1], WordsOf(read(order[|order| - 1])));
      ReducedHolds(read, init);
      CountedHolds(map[], words, multiset{});
      MergedHolds(Reduced(read, init), Counted(map[], words), multiset(AllWords(read, init)), multiset(words));
    }
  }

  ghost function Bag(read: Reader, files: seq<string>): multiset<string> {
    if files == [] then multiset{} else Bag(read, files[..|files| - 1]) + multiset(WordsOf(read(files[|files| - 1])))
  }

  lemma {:induction false} BagOfAllWords(read: Reader, files: seq<string>)
    ensures multiset(AllWords(read, files)) == Bag(read, files)
  {
    if files != [] {
      BagOfAllWords(read, files[..|files| - 1]);
    }
  }

  lemma WithoutFirst<T>(s: seq<T>, i: nat)
    requires i < |s| - 1
    ensures |s[..i] + s[i + 1..]| == |s| - 1 && (s[..i] + s[i + 1..])[|s| - 2] == s[|s| - 1]
    ensures (s[..i] + s[i + 1..])[..|s| - 2] == s[..|s| - 1][..i] + s[..|s| - 1][i + 1..]
  {
  }

  /** Taking one file out of a list takes its words out of the words of the list. */
  lemma {:induction false} BagWithout(read: Reader, files: seq<string>, i: nat)
    requires i < |files|
    ensures Bag(read, files) == Bag(read, files[..i] + files[i + 1..]) + multiset(WordsOf(read(files[i])))
    decreases |files|
  {
    if i == |files| - 1 {
      assert files[..i] + files[i + 1..] == files[..i];
    } else {
      BagWithout(read, files[..|files| - 1], i);
      WithoutFirst(files, i);
    }
  }

  /** A list that ends with one of the files, and what both are without it. */
  lemma TakeLast(files: seq<string>, order: seq<string>) returns (i: nat)
    requires multiset(order) == multiset(files) && order != []
    ensures i < |files| && files[i] == order[|order| - 1]
    ensures multiset(order[..|order| - 1]) == multiset(files[..i] + files[i + 1..])
  {
    var (init, last) := (order[..|order| - 1], order[|order| - 1]);
    assert order == init + [last];
    assert last in multiset(files);
    i :| 0 <= i < |files| && files[i] == last;
    MultisetWithout(files, i);
    assert multiset(init) == multiset(order) - multiset{last};
  }

  lemma MultisetWithout<T>(s: seq<T>, i: nat)
    requires i < |s|
    ensures multiset(s[..i] + s[i + 1..]) == multiset(s) - multiset{s[i]}
  {
    assert s == s[..i] + [s[i]] + s[i + 1..];
  }

  lemma {:induction false} BagOfPermutation(read: Reader, files: seq<string>, order: seq<string>)
    requires multiset(order) == multiset(files)
    ensures Bag(read, order) == Bag(read, files)
    decreases |order|
  {
    if order == [] {
      assert |multiset(files)| == 0;
    } else {
      var i := TakeLast(files, order);
      BagOfPermutation(read, files[..i] + files[i + 1..], order[..|order| - 1]);
      BagWithout(read, files, i);
    }
  }

  /** Every order of reduction gives the counts of the sequential program. */
  lemma MapReduceIsSequential(read: Reader, files: seq<string>, order: seq<string>)
    requires multiset(order) == multiset(files)
    ensures Reduced(read, order) == Counted(map[], AllWords(read, files))
  {
    var words := Bag(read, files);
    ReducedHolds(read, order);
    BagOfAllWords(read, order);
    BagOfPermutation(read, files, order);
    CountedHolds(map[], AllWords(read, files), multiset{});
    BagOfAllWords(read, files);
    assert multiset{} + words == words;
    HoldsUnique(Reduced(read, order), Counted(map[], AllWords(read, files)), words);
  }

  // --- What is counted ---

  /** Some way to cut a line at its blanks. */
  type Cut = string -> seq<string>

  /** The pieces of a line hold no blank, and with single blanks between them they are the line. */
  ghost predicate CutsAtBlanks(cut: Cut) {
    forall line :: CutAt(cut(line), line, ' ')
  }

  /** How often a word is among the pieces of the lines. */
  function InLines(cut: Cut, lines: seq<string>, word: string): nat {
    if lines == [] then 0
    else InLines(cut, lines[..|lines| - 1], word) + multiset(cut(lines[|lines| - 1]))[word]
  }

  function InFiles(cut: Cut, read: Reader, files: seq<string>, word: string): nat {
    if files == [] then 0
    else InFiles(cut, read, files[..|files| - 1], word) + InLines(cut, read(files[|files| - 1]), word)
  }

  lemma {:induction false} WordsInLines(cut: Cut, lines: seq<string>, word: string)
    requires CutsAtBlanks(cut)
    ensures multiset(WordsOf(lines))[word] == InLines(cut, lines, word)
  {
    if lines != [] {
      var line := lines[|lines| - 1];
      WordsInLines(cut, lines[..|lines| - 1], word);
      SplitIsCut(line, ' ', 0);
      assert line[0..] == line;
      CutIsUnique(cut(line), SplitFrom(line, ' ', 0), line, ' ');
    }
  }

  lemma {:induction false} WordsInFiles(cut: Cut, read: Reader, files: seq<string>, word: string)
    requires CutsAtBlanks(cut)
    ensures multiset(AllWords(read, files))[word] == InFiles(cut, read, files, word)
  {
    if files != [] {
      WordsInFiles(cut, read, files[..|files| - 1], word);
      WordsInLines(cut, read(files[|files| - 1]), word);
    }
  }

  lemma CountedOften(words: seq<string>, word: string)
    ensures Count(Counted(map[], words), word) == multiset(words)[word]
    ensures word in Counted(map[], words) <==> word in words
  {
    CountedHolds(map[], words, multiset{});
    assert multiset{} + multiset(words) == multiset(words);
  }

  /** The count of one file gives every word its number of occurrences, and holds no other word. */
  lemma FileCountIs(cut: Cut, read: Reader, file: string, word: string)
    requires CutsAtBlanks(cut)
    ensures var m := Counted(map[], WordsOf(read(file)));
            && Count(m, word) == InLines(cut, read(file), word)
            && (word in m <==> InLines(cut, read(file), word) > 0)
  {
    CountedOften(WordsOf(read(file)), word);
    WordsInLines(cut, read(file), word);
  }

  /** So do the sequential count of all files and every order of reduction: each word has its number of occurrences
      among the pieces of all lines, however they are cut, and words that do not occur are not there. */
  lemma CountsAreOccurrences(cut: Cut, read: Reader, files: seq<string>, order: seq<string>, word: string)
    requires CutsAtBlanks(cut) && multiset(order) == multiset(files)
    ensures var m := Counted(map[], AllWords(read, files));
            && Count(m, word) == InFiles(cut, read, files, word)
            && (word in m <==> InFiles(cut, read, files, word) > 0)
            && Reduced(read, order) == m
  {
    CountedOften(AllWords(read, files), word);
    WordsInFiles(cut, read, files, word);
    MapReduceIsSequential(read, files, order);
  }

  /** There is such a way, and one only. */
  lemma OneCut(cut: Cut, line: string)
    requires CutsAtBlanks(cut)
    ensures CutsAtBlanks((line: string) => SplitFrom(line, ' ', 0)) && cut(line) == SplitFrom(line, ' ', 0)
  {
    forall s: string ensures CutAt(SplitFrom(s, ' ', 0), s, ' ') {
      SplitIsCut(s, ' ', 0);
      assert s[0..] == s;
    }
    CutIsUnique(cut(line), SplitFrom(line, ' ', 0), line, ' ');
  }
}
