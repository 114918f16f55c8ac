/** The configuration store of WASTE (`C_Config` in `config.cpp`). Strings are C strings: they hold no zero character.
    */
module Config {
  import opened Text

  datatype Setting = Setting(name: string, value: string)

  /** `strType`, with the size of the block its value lies in. */
  datatype Entry = Entry(setting: Setting, alloc: nat)

  const NAME_SIZE := 16
  const LINE_SIZE := 4096

  /** The part of a name that `strncpy` and `strncmp` see. */
  function Key(name: string): (key: string)
    ensures |key| <= NAME_SIZE
  {
    if |name| <= NAME_SIZE then name else name[..NAME_SIZE]
  }

  /** Two names have the same character, or both have none, at position `i`. */
  predicate SameAt(a: string, b: string, i: nat) {
    (i < |a| <==> i < |b|) && (i < |a| && i < |b| ==> a[i] == b[i])
  }

  /** Names are told apart by their first 16 characters. */
  lemma SameKeyIff(a: string, b: string)
    ensures Key(a) == Key(b) <==> forall i | 0 <= i < 16 :: SameAt(a, b, i)
  {
    var s, t := Key(a), Key(b);
    assert forall i | 0 <= i < |s| :: s[i] == a[i];
    assert forall i | 0 <= i < |t| :: t[i] == b[i];
    if forall i | 0 <= i < 16 :: SameAt(a, b, i) {
      assert |a| < 16 ==> SameAt(a, b, |a|);
      assert |b| < 16 ==> SameAt(a, b, |b|);
      forall i | 0 <= i < |s| ensures s[i] == t[i] {
        assert SameAt(a, b, i);
      }
    }
  }

  // --- The table as a map ---

  /** Later settings do not replace an earlier one of the same name. */
  function AsMap(table: seq<Setting>): map<string, string> {
    if table == [] then map[] else AsMap(table[1..])[table[0].name := table[0].value]
  }

  function Stored(table: seq<Setting>, key: string, value: string): seq<Setting> {
    if table == [] then [Setting(key, value)]
    else if table[0].name == key then [Setting(key, value)] + table[1..]
    else [table[0]] + Stored(table[1..], key, value)
  }

  predicate NoneNamed(table: seq<Setting>, key: string, n: nat)
    requires n <= |table|
  {
    forall k | 0 <= k < n :: table[k].name != key
  }

  lemma {:induction false} StoredAt(table: seq<Setting>, key: string, value: string, i: nat)
    requires i <= |table| && NoneNamed(table, key, i) && (i < |table| ==> table[i].name == key)
    ensures Stored(table, key, value)
         == if i < |table| then table[i := Setting(key, value)] else table + [Setting(key, value)]
    decreases i
  {
    if i > 0 {
      StoredAt(table[1..], key, value, i - 1);
    }
  }

  lemma {:induction false} MapAt(table: seq<Setting>, key: string, i: nat)
    requires i <= |table| && NoneNamed(table, key, i) && (i < |table| ==> table[i].name == key)
    ensures if i < |table| then key in AsMap(table) && AsMap(table)[key] == table[i].value else key !in AsMap(table)
    decreases i
  {
    if i > 0 {
      MapAt(table[1..], key, i - 1);
    }
  }

  /** Storing updates the map and nothing else. */
  lemma {:induction false} StoredIsUpdate(table: seq<Setting>, key: string, value: string)
    ensures AsMap(Stored(table, key, value)) == AsMap(table)[key := value]
  {
    if table != [] && table[0].name != key {
      StoredIsUpdate(table[1..], key, value);
    }
  }

  predicate HasName(table: seq<Setting>, key: string) {
    exists i :: 0 <= i < |table| && table[i].name == key
  }

  lemma NameBehindFirst(table: seq<Setting>, key: string)
    requires table != [] && table[0].name != key
    ensures HasName(table, key) <==> HasName(table[1..], key)
  {
    var rest := table[1..];
    if i :| 0 <= i < |table| && table[i].name == key {
      assert rest[i - 1].name == key;
    }
    if i :| 0 <= i < |rest| && rest[i].name == key {
      assert table[i + 1].name == key;
    }
  }

  /** Storing keeps the order of the names; a new one goes to the end. */
  lemma {:induction false} StoredKeepsOrder(table: seq<Setting>, key: string, value: string)
    ensures var t := Stored(table, key, value);
            && |t| == (if HasName(table, key) then |table| else |table| + 1)
            && (forall i | 0 <= i < |table| :: t[i].name == table[i].name)
            && (!HasName(table, key) ==> t[|table|].name == key)
  {
    if table != [] && table[0].name != key {
      StoredKeepsOrder(table[1..], key, value);
      NameBehindFirst(table, key);
    }
  }

  /** Names fit their field and differ from each other. */
  predicate Keyed(table: seq<Setting>) {
    && (forall i | 0 <= i < |table| :: |table[i].name| <= NAME_SIZE)
    && (forall i, j | 0 <= i < j < |table| :: table[i].name != table[j].name)
  }

  lemma StoredIsKeyed(table: seq<Setting>, key: string, value: string, i: nat)
    requires Keyed(table) && |key| <= NAME_SIZE
    requires i <= |table| && NoneNamed(table, key, i) && (i < |table| ==> table[i].name == key)
    ensures Keyed(Stored(table, key, value))
    ensures Stored(table, key, value)
         == if i < |table| then table[i := Setting(key, value)] else table + [Setting(key, value)]
  {
    StoredAt(table, key, value, i);
  }

  // --- Blocks ---

  /** `(length + 16) & ~15`. */
  function BlockSize(length: nat): (size: nat)
    ensures length < size <= length + 16 && size % 16 == 0
  {
    (length + 16) / 16 * 16
  }

  lemma ShorterFitsBlock(length: nat, n: nat)
    requires n < BlockSize(length)
    ensures BlockSize(n) <= BlockSize(length)
  {
  }

  predicate Fits(e: Entry) {
    e.alloc >= BlockSize(|e.setting.value|)
  }

  function NewEntry(name: string, value: string): (e: Entry)
    ensures e.setting == Setting(name, value) && Fits(e)
  {
    Entry(Setting(name, value), BlockSize(|value|))
  }

  /** `strcpy` into the block of an entry. */
  function Copied(e: Entry, value: string): Entry
    requires |value| < e.alloc
  {
    Entry(Setting(e.setting.name, value), e.alloc)
  }

  /** An entry gets a new value: in place if the block it is known to have is large enough, else in a new block. */
  method Overwrite(e: Entry, value: string) returns (e': Entry)
    requires Fits(e)
    ensures Fits(e') && e'.setting == Setting(e.setting.name, value)
    ensures e'.alloc == if |value| < BlockSize(|e.setting.value|) then e.alloc else BlockSize(|value|)
  {
    var l := BlockSize(|e.setting.value|);
    if |value| < l {
      ShorterFitsBlock(|e.setting.value|, |value|);
      e' := Copied(e, value);
    } else {
      e' := NewEntry(e.setting.name, value);
    }
  }

  // --- The text of the file ---

  function Line(s: Setting): string {
    s.name + "=" + s.value + "\n"
  }

  function Lines(table: seq<Setting>): string {
    if table == [] then "" else Line(table[0]) + Lines(table[1..])
  }

  const HEADING := "[profile]\n"

  function FileText(table: seq<Setting>): string {
    HEADING + Lines(table)
  }

  /** Where a chunk read by `fgets` ends: behind a line feed, when the buffer is full, or at the end of the file. */
  function ChunkEnd(text: string, pos: nat): (end: nat)
    requires pos < |text|
    ensures pos < end <= |text|
  {
    var n := Find(text, '\n', pos);
    var lineEnd := if n < |text| then n + 1 else n;
    if lineEnd - pos < LINE_SIZE then lineEnd else pos + LINE_SIZE - 1
  }

  /** `fgets` has met the end of the file: it looked for more and found nothing. */
  predicate AtEof(text: string, pos: nat)
    requires pos < |text|
  {
    var end := ChunkEnd(text, pos);
    end == |text| && text[end - 1] != '\n' && end - pos < LINE_SIZE - 1
  }

  function Stripped(line: string): (s: string)
    ensures |s| <= |line| && s == line[..|s|]
    ensures s != "" ==> s[|s| - 1] != '\n' && s[|s| - 1] != '\r'
  {
    if line != "" && (line[|line| - 1] == '\n' || line[|line| - 1] == '\r') then Stripped(line[..|line| - 1]) else line
  }

  /** What one line of the file does to the table. */
  function ReadLine(table: seq<Setting>, line: string): seq<Setting> {
    var eq := Find(line, '=', 0);
    if eq == |line| || line[0] == '[' then table else Stored(table, Key(line[..eq]), line[eq + 1..])
  }

  /** The loop of the constructor from a position on. */
  function LoadLoop(text: string, pos: nat, table: seq<Setting>): seq<Setting>
    requires pos <= |text|
    decreases |text| - pos
  {
    if pos == |text| || AtEof(text, pos) then table
    else
      var end := ChunkEnd(text, pos);
      LoadLoop(text, end, ReadLine(table, Stripped(text[pos..end])))
  }

  // --- The store ---

  function Settings(strs: seq<Entry>): (table: seq<Setting>)
    ensures |table| == |strs| && forall i | 0 <= i < |strs| :: table[i] == strs[i].setting
  {
    seq(|strs|, i requires 0 <= i < |strs| => strs[i].setting)
  }

  /** What `ReadInt` gives. */
  function IntIn(m: map<string, string>, key: string, defValue: int): int {
    if key in m && m[key] != "" then Atoi(m[key]) else defValue
  }

  class Config {
    var strs: seq<Entry>
    var numAlloc: nat
    var dirty: bool

    ghost function Table(): seq<Setting>
      reads this
    {
      Settings(strs)
    }

    /** Every value lies in a block of at least its rounded size, and the array has room for the entries. */
    ghost predicate Valid()
      reads this
    {
      && |strs| <= numAlloc
      && (forall i | 0 <= i < |strs| :: Fits(strs[i]))
      && Keyed(Table())
    }

    /** The constructor on the text of the file, or nothing when it cannot be opened. */
    constructor (file: Option<string>)
      ensures Valid() && !dirty
      ensures Table() == if file.Some? then LoadLoop(file.value, 0, []) else []
    {
      strs, numAlloc, dirty := [], 0, false;
      new;
      if file.None? {
        return;
      }
      var text := file.value;
      var pos := 0;
      while pos < |text| && !AtEof(text, pos)
        invariant Valid() && pos <= |text|
        invariant LoadLoop(text, pos, Table()) == LoadLoop(text, 0, [])
        decreases |text| - pos
      {
        var end := ChunkEnd(text, pos);
        TakeLine(Stripped(text[pos..end]));
        pos := end;
      }
      dirty := false;
    }

    method TakeLine(buf: string)
      requires Valid()
      modifies this
      ensures Valid() && Table() == ReadLine(old(Table()), buf)
    {
      if buf == "" || buf[0] != '[' {
        var p := Find(buf, '=', 0);
        if p < |buf| {
          WriteString(buf[..p], buf[p + 1..]);
        }
      }
    }

    /** `Flush`: the new content of the file, unless nothing changed or it cannot be opened. */
    method Flush(writable: bool, file: Option<string>) returns (file': Option<string>)
      requires Valid()
      modifies this`dirty
      ensures Valid()
      ensures if old(dirty) && writable then file' == Some(FileText(Table())) && !dirty
              else file' == file && dirty == old(dirty)
    {
      if !dirty || !writable {
        return file;
      }
      var text := HEADING;
      for x := 0 to |strs|
        invariant text + Lines(Table()[x..]) == FileText(Table())
        invariant dirty
      {
        text := text + Line(strs[x].setting);
        assert Table()[x..][1..] == Table()[x + 1..];
      }
      dirty := false;
      assert text == text + Lines(Table()[|strs|..]);
      return Some(text);
    }

    method WriteInt(name: string, value: int)
      requires Valid()
      modifies this
      ensures Valid() && dirty && Table() == Stored(old(Table()), Key(name), Decimal(value))
    {
      WriteString(name, Decimal(value));
    }

    method ReadInt(name: string, defValue: int) returns (value: int)
      requires Valid()
      ensures value == IntIn(AsMap(Table()), Key(name), defValue)
      ensures var m := AsMap(Table());
              value == if Key(name) in m && m[Key(name)] != "" then Atoi(m[Key(name)]) else defValue
    {
      var t := ReadString(name, "");
      return if t != "" then Atoi(t) else defValue;
    }

    method ReadString(name: string, defstr: string) returns (value: string)
      requires Valid()
      ensures var m := AsMap(Table()); value == if Key(name) in m then m[Key(name)] else defstr
    {
      for x := 0 to |strs|
        invariant NoneNamed(Table(), Key(name), x)
      {
        if strs[x].setting.name == Key(name) {
          MapAt(Table(), Key(name), x);
          return strs[x].setting.value;
        }
      }
      MapAt(Table(), Key(name), |strs|);
      return defstr;
    }

    method WriteString(name: string, value: string)
      requires Valid()
      modifies this
      ensures Valid() && dirty && Table() == Stored(old(Table()), Key(name), value)
    {
      dirty := true;
      for x := 0 to |strs|
        invariant strs == old(strs) && numAlloc == old(numAlloc) && dirty
        invariant NoneNamed(Table(), Key(name), x)
      {
        if strs[x].setting.name == Key(name) {
          StoredIsKeyed(Table(), Key(name), value, x);
          var e := Overwrite(strs[x], value);
          strs := strs[x := e];
          return;
        }
      }
      StoredIsKeyed(Table(), Key(name), value, |strs|);
      Append(NewEntry(Key(name), value));
    }

    method Append(e: Entry)
      requires |strs| <= numAlloc
      modifies this`strs, this`numAlloc
      ensures strs == old(strs) + [e] && |strs| <= numAlloc
    {
      if |strs| >= numAlloc {
        numAlloc := |strs| * 3 / 2 + 8;
      }
      strs := strs + [e];
    }
  }
  // --- Reading back what was written ---

  /** `ReadInt` after `WriteInt` gives the number, and other names keep their values. */
  lemma IntReadsBack(table: seq<Setting>, name: string, value: int, other: string, defValue: int)
    ensures var m := AsMap(Stored(table, Key(name), Decimal(value)));
            && IntIn(m, Key(name), defValue) == value
            && (Key(other) != Key(name) ==> IntIn(m, Key(other), defValue) == IntIn(AsMap(table), Key(other), defValue))
  {
    StoredIsUpdate(table, Key(name), Decimal(value));
    AtoiDecimal(value);
  }

  /** A setting whose line the constructor takes apart as it was put together. The line feed need not fit the buffer. */
  predicate CleanSetting(s: Setting) {
    && Clean(s.name, '=') && Clean(s.name, '\n') && (s.name != "" ==> s.name[0] != '[')
    && Clean(s.value, '\n') && (s.value != "" ==> s.value[|s.value| - 1] != '\r')
    && |s.name| + 1 + |s.value| < LINE_SIZE
  }

  predicate AllClean(table: seq<Setting>) {
    forall i | 0 <= i < |table| :: CleanSetting(table[i])
  }

  function Content(s: Setting): string {
    s.name + "=" + s.value
  }

  lemma ContentIsClean(s: Setting)
    requires CleanSetting(s)
    ensures Clean(Content(s), '\n')
  {
  }

  lemma ContentReadsBack(table: seq<Setting>, s: Setting)
    requires CleanSetting(s) && |s.name| <= NAME_SIZE
    ensures Stripped(Content(s)) == Content(s) && Stripped(Content(s) + "\n") == Content(s)
    ensures ReadLine(table, Content(s)) == Stored(table, s.name, s.value)
  {
    var line := Content(s);
    assert (line + "\n")[..|line|] == line;
    assert line[|line| - 1] != '\n' && line[|line| - 1] != '\r';
    assert line[..|s.name|] == s.name && line[|s.name|] == '=' && line[|s.name| + 1..] == s.value;
    assert Find(line, '=', 0) == |s.name| by {
      assert forall k | 0 <= k < |s.name| :: line[k] == s.name[k];
    }
  }

  lemma FirstNewline(text: string, pos: nat, content: string, rest: string) returns (n: nat)
    requires pos <= |text| && text[pos..] == content + "\n" + rest && Clean(content, '\n')
    ensures pos <= n < |text| && Find(text, '\n', pos) == n && n == pos + |content|
    ensures text[pos..n] == content && text[pos..n + 1] == content + "\n" && text[n + 1..] == rest
  {
    n := pos + |content|;
    var t := text[pos..];
    assert t[..|content| + 1] == content + "\n";
    assert t[..|content|] == content && t[|content|] == '\n' && t[|content| + 1..] == rest;
    assert forall k | pos <= k < pos + |content| :: text[k] == content[k - pos];
  }

  lemma LoopStep(text: string, pos: nat, table: seq<Setting>)
    requires pos < |text| && !AtEof(text, pos)
    ensures LoadLoop(text, pos, table)
         == LoadLoop(text, ChunkEnd(text, pos), ReadLine(table, Stripped(text[pos..ChunkEnd(text, pos)])))
  {
  }

  lemma ShortChunk(text: string, pos: nat, n: nat)
    requires pos <= n < |text| && Find(text, '\n', pos) == n && n - pos + 1 < LINE_SIZE
    ensures ChunkEnd(text, pos) == n + 1 && !AtEof(text, pos)
  {
  }

  /** A line that fits the buffer with its line feed is one chunk. */
  lemma ShortLine(text: string, pos: nat, n: nat, table: seq<Setting>)
    requires pos <= n < |text| && Find(text, '\n', pos) == n && n - pos + 1 < LINE_SIZE
    ensures LoadLoop(text, pos, table) == LoadLoop(text, n + 1, ReadLine(table, Stripped(text[pos..n + 1])))
  {
    ShortChunk(text, pos, n);
    LoopStep(text, pos, table);
  }

  /** A line that just does not fit leaves its line feed for a chunk of its own, which changes nothing. */
  lemma LongLine(text: string, pos: nat, n: nat, table: seq<Setting>)
    requires pos <= n < |text| && Find(text, '\n', pos) == n && n - pos + 1 == LINE_SIZE
    ensures LoadLoop(text, pos, table) == LoadLoop(text, n + 1, ReadLine(table, Stripped(text[pos..n])))
  {
    var table' := ReadLine(table, Stripped(text[pos..n]));
    LoopStep(text, pos, table);
    assert Find(text, '\n', n) == n;
    ShortLine(text, n, n, table');
    assert text[n..n + 1] == "\n" && Stripped("\n") == "";
  }

  /** A last line without a line feed is lost, except that one which fills the buffer is taken. */
  lemma LastLineNeedsFeed(text: string, pos: nat, table: seq<Setting>)
    requires pos < |text| && Free(text, '\n', pos, |text|) && |text| - pos < LINE_SIZE
    ensures LoadLoop(text, pos, table)
         == if |text| - pos == LINE_SIZE - 1 then ReadLine(table, Stripped(text[pos..])) else table
  {
    assert Find(text, '\n', pos) == |text|;
    assert text[pos..|text|] == text[pos..];
    if |text| - pos == LINE_SIZE - 1 {
      LoopStep(text, pos, table);
    }
  }

  /** A line without a carriage return before its line feed. */
  lemma LoopReadsLine(text: string, pos: nat, n: nat, line: string, table: seq<Setting>)
    requires pos <= n < |text| && Find(text, '\n', pos) == n && n - pos < LINE_SIZE
    requires text[pos..n] == line && text[pos..n + 1] == line + "\n"
    requires Stripped(line) == line && Stripped(line + "\n") == line
    ensures LoadLoop(text, pos, table) == LoadLoop(text, n + 1, ReadLine(table, line))
  {
    if n - pos + 1 < LINE_SIZE {
      ShortLine(text, pos, n, table);
    } else {
      LongLine(text, pos, n, table);
    }
  }

  lemma LinesFront(rest: seq<Setting>)
    requires rest != []
    ensures Lines(rest) == Content(rest[0]) + "\n" + Lines(rest[1..])
  {
  }

  /** Storing the settings of a table one after the other makes up the table. */
  lemma StoredAppends(table: seq<Setting>, k: nat)
    requires Keyed(table) && k < |table|
    ensures Stored(table[..k], table[k].name, table[k].value) == table[..k + 1] && |table[k].name| <= NAME_SIZE
  {
    assert NoneNamed(table[..k], table[k].name, k);
    StoredAt(table[..k], table[k].name, table[k].value, k);
  }

  lemma FirstSetting(text: string, pos: nat, rest: seq<Setting>) returns (n: nat)
    requires pos <= |text| && text[pos..] == Lines(rest) && rest != [] && CleanSetting(rest[0])
    ensures pos <= n < |text| && Find(text, '\n', pos) == n && text[n + 1..] == Lines(rest[1..])
    ensures text[pos..n] == Content(rest[0]) && text[pos..n + 1] == Content(rest[0]) + "\n"
  {
    LinesFront(rest);
    ContentIsClean(rest[0]);
    n := FirstNewline(text, pos, Content(rest[0]), Lines(rest[1..]));
  }

  lemma LoopReadsSetting(text: string, pos: nat, n: nat, s: Setting, table: seq<Setting>)
    requires pos <= n < |text| && Find(text, '\n', pos) == n && CleanSetting(s) && |s.name| <= NAME_SIZE
    requires text[pos..n] == Content(s) && text[pos..n + 1] == Content(s) + "\n"
    ensures LoadLoop(text, pos, table) == LoadLoop(text, n + 1, Stored(table, s.name, s.value))
  {
    ContentReadsBack(table, s);
    LoopReadsLine(text, pos, n, Content(s), table);
  }

  lemma SettingAt(text: string, pos: nat, table: seq<Setting>, k: nat) returns (n: nat)
    requires k < |table| && CleanSetting(table[k]) && pos <= |text| && text[pos..] == Lines(table[k..])
    ensures pos <= n < |text| && Find(text, '\n', pos) == n && text[n + 1..] == Lines(table[k + 1..])
    ensures text[pos..n] == Content(table[k]) && text[pos..n + 1] == Content(table[k]) + "\n"
  {
    assert table[k..][0] == table[k] && table[k..][1..] == table[k + 1..];
    n := FirstSetting(text, pos, table[k..]);
  }

  /** One setting moves from the text to the table. */
  lemma LoopTakesNext(text: string, pos: nat, n: nat, table: seq<Setting>, k: nat)
    requires Keyed(table) && k < |table| && CleanSetting(table[k])
    requires pos <= n < |text| && Find(text, '\n', pos) == n
    requires text[pos..n] == Content(table[k]) && text[pos..n + 1] == Content(table[k]) + "\n"
    ensures LoadLoop(text, pos, table[..k]) == LoadLoop(text, n + 1, table[..k + 1])
  {
    StoredAppends(table, k);
    LoopReadsSetting(text, pos, n, table[k], table[..k]);
  }

  lemma {:induction false} LinesReadBack(text: string, pos: nat, table: seq<Setting>, k: nat)
    requires AllClean(table) && Keyed(table) && k <= |table|
    requires pos <= |text| && text[pos..] == Lines(table[k..])
    ensures LoadLoop(text, pos, table[..k]) == table
    decreases |table| - k
  {
    if k == |table| {
      assert table[..k] == table && table[k..] == [];
    } else {
      var n := SettingAt(text, pos, table, k);
      LoopTakesNext(text, pos, n, table, k);
      LinesReadBack(text, n + 1, table, k + 1);
    }
  }

  lemma HeadingIsSkipped(text: string, n: nat, heading: string)
    requires n < |text| && Find(text, '\n', 0) == n && text[0..n] == heading && text[0..n + 1] == heading + "\n"
    requires 0 < n < LINE_SIZE && heading[0] == '[' && heading[n - 1] != '\r' && heading[n - 1] != '\n'
    ensures LoadLoop(text, 0, []) == LoadLoop(text, n + 1, [])
  {
    assert (heading + "\n")[..|heading|] == heading;
    LoopReadsLine(text, 0, n, heading, []);
  }

  lemma ChunkIsOneLine(text: string, pos: nat)
    requires pos < |text|
    ensures var line := Stripped(text[pos..ChunkEnd(text, pos)]);
            |line| < LINE_SIZE && Clean(line, '\n')
  {
    var end := ChunkEnd(text, pos);
    var chunk := text[pos..end];
    var line := Stripped(chunk);
    assert Free(text, '\n', pos, end - 1);
    forall k | 0 <= k < |line| ensures line[k] != '\n' {
      if k < |chunk| - 1 {
        assert chunk[k] == text[pos + k];
      }
    }
  }

  lemma {:induction false} StoredIsClean(table: seq<Setting>, s: Setting)
    requires AllClean(table) && CleanSetting(s)
    ensures AllClean(Stored(table, s.name, s.value))
  {
    if table != [] && table[0].name != s.name {
      StoredIsClean(table[1..], s);
    }
  }

  lemma ReadLineIsClean(table: seq<Setting>, line: string)
    requires AllClean(table) && |line| < LINE_SIZE && Clean(line, '\n')
    requires line != "" ==> line[|line| - 1] != '\r'
    ensures AllClean(ReadLine(table, line))
  {
    var eq := Find(line, '=', 0);
    if eq < |line| && line[0] != '[' {
      var s := Setting(Key(line[..eq]), line[eq + 1..]);
      assert CleanSetting(s);
      StoredIsClean(table, s);
    }
  }

  lemma {:induction false} LoadedIsClean(text: string, pos: nat, table: seq<Setting>)
    requires pos <= |text| && AllClean(table)
    ensures AllClean(LoadLoop(text, pos, table))
    decreases |text| - pos
  {
    if pos < |text| && !AtEof(text, pos) {
      var line := Stripped(text[pos..ChunkEnd(text, pos)]);
      ChunkIsOneLine(text, pos);
      ReadLineIsClean(table, line);
      LoadedIsClean(text, ChunkEnd(text, pos), ReadLine(table, line));
    }
  }

  /** A table written by `Flush` is read back in order exactly when each of its settings is clean. */
  lemma FlushRoundTripIff(table: seq<Setting>)
    requires Keyed(table)
    ensures LoadLoop(FileText(table), 0, []) == table <==> AllClean(table)
  {
    var text := FileText(table);
    if AllClean(table) {
      assert text[0..] == "[profile]" + "\n" + Lines(table);
      var n := FirstNewline(text, 0, "[profile]", Lines(table));
      HeadingIsSkipped(text, n, "[profile]");
      assert table[..0] == [] && table[0..] == table;
      LinesReadBack(text, n + 1, table, 0);
    }
    LoadedIsClean(text, 0, []);
  }
}
