/** HTTP requests and responses as text: the printers of `client_http.hpp` and `server_http.hpp`, and the parsers of
    `utility.hpp`. */
module HttpMessage {
  import opened Text
  import opened QueryString

  // --- Reading lines ---

  function LineAt(text: string, pos: nat): string
    requires pos <= |text|
  {
    text[pos..Find(text, '\n', pos)]
  }

  function NextLine(text: string, pos: nat): (next: nat)
    requires pos <= |text|
    ensures pos <= next <= |text|
  {
    var n := Find(text, '\n', pos);
    if n < |text| then n + 1 else n
  }

  class InputStream {
    const text: string
    var pos: nat

    ghost predicate Valid()
      reads this
    {
      pos <= |text|
    }

    constructor (text: string)
      ensures Valid() && this.text == text && pos == 0
    {
      this.text := text;
      pos := 0;
    }

    method GetLine() returns (line: string)
      requires Valid()
      modifies this
      ensures Valid()
      ensures line == LineAt(text, old(pos)) && pos == NextLine(text, old(pos))
    {
      var n := pos;
      while n < |text| && text[n] != '\n'
        invariant pos <= n <= |text| && pos == old(pos)
        invariant Free(text, '\n', pos, n)
      {
        n := n + 1;
      }
      assert Find(text, '\n', pos) == n;
      line := text[pos..n];
      pos := if n < |text| then n + 1 else n;
    }
  }

  /** A line that holds nothing but a carriage return starts at `k`. */
  predicate BlankLineAt(text: string, pos: nat, k: nat) {
    pos <= k && k + 1 < |text| && text[k] == '\r' && text[k + 1] == '\n' && (k == pos || text[k - 1] == '\n')
  }

  /** Callers parse only after they have read up to an empty line. */
  ghost predicate HasBlankLine(text: string, pos: nat) {
    exists k :: BlankLineAt(text, pos, k)
  }

  lemma BlankLineStays(text: string, pos: nat)
    requires pos <= |text| && HasBlankLine(text, pos)
    ensures pos < NextLine(text, pos)
    ensures LineAt(text, pos) == "\r" || HasBlankLine(text, NextLine(text, pos))
  {
    var k :| BlankLineAt(text, pos, k);
    var n := Find(text, '\n', pos);
    if k == pos {
      assert n == k + 1;
      assert text[pos..n] == "\r";
    } else {
      assert n <= k - 1;
      assert BlankLineAt(text, n + 1, k);
    }
  }

  // --- Header fields ---

  /** The field of a line with a colon at `colon`; the last character of the line is a carriage return and dropped. */
  function HeaderField(line: string, colon: nat): seq<Field>
    requires colon < |line|
  {
    var start := if colon + 1 < |line| && line[colon + 1] == ' ' then colon + 2 else colon + 1;
    if start < |line| then [Field(line[..colon], line[start..|line| - 1])] else []
  }

  /** What a line with a colon gives: nothing if nothing follows, or only one blank; otherwise a field, whose value
      starts behind the colon or behind one blank after it and ends before the last character. */
  lemma HeaderFieldIs(name: string, rest: string)
    requires Clean(name, ':')
    ensures var line := name + ":" + rest;
            && Find(line, ':', 0) == |name|
            && HeaderField(line, |name|)
            == if rest == "" || rest == " " then []
               else if rest[0] == ' ' then [Field(name, rest[1..|rest| - 1])]
               else [Field(name, rest[..|rest| - 1])]
  {
    var line := name + ":" + rest;
    assert line[..|name|] == name && line[|name|] == ':' && line[|name| + 1..] == rest;
    assert Find(line, ':', 0) == |name| by {
      assert forall k | 0 <= k < |name| :: line[k] == name[k];
    }
    if rest != "" {
      assert line[|name| + 1] == rest[0] && line[|name| + 1..|line| - 1] == rest[..|rest| - 1];
    }
    if |rest| > 1 {
      assert line[|name| + 2..|line| - 1] == rest[1..|rest| - 1];
    }
  }

  datatype Header = Header(fields: seq<Field>, end: nat)

  /** `HttpHeader::parse` from a position on: lines are read up to the first one without a colon. */
  ghost function HeaderLoop(text: string, pos: nat, fields: seq<Field>): Header
    requires pos <= |text| && HasBlankLine(text, pos)
    decreases |text| - pos
  {
    var line, next := LineAt(text, pos), NextLine(text, pos);
    var colon := Find(line, ':', 0);
    if colon == |line| then Header(fields, next)
    else
      BlankLineStays(text, pos);
      HeaderLoop(text, next, fields + HeaderField(line, colon))
  }

  method ParseHeader(stream: InputStream) returns (result: seq<Field>)
    requires stream.Valid() && HasBlankLine(stream.text, stream.pos)
    modifies stream
    ensures stream.Valid()
    ensures Header(result, stream.pos) == HeaderLoop(stream.text, old(stream.pos), [])
  {
    result := [];
    ghost var start := stream.pos;
    BlankLineStays(stream.text, stream.pos);
    var line := stream.GetLine();
    var paramEnd := Find(line, ':', 0);
    while paramEnd != |line|
      invariant stream.Valid() && start <= |stream.text| && HasBlankLine(stream.text, start)
      invariant line == LineAt(stream.text, start) && stream.pos == NextLine(stream.text, start)
      invariant paramEnd == Find(line, ':', 0)
      invariant HeaderLoop(stream.text, start, result) == HeaderLoop(stream.text, old(stream.pos), [])
      decreases |stream.text| - start
    {
      BlankLineStays(stream.text, start);
      ghost var before := result;
      var valueStart := paramEnd + 1;
      if valueStart < |line| {
        if line[valueStart] == ' ' {
          valueStart := valueStart + 1;
        }
        if valueStart < |line| {
          result := result + [Field(line[..paramEnd], line[valueStart..|line| - 1])];
        }
      }
      assert result == before + HeaderField(line, paramEnd);
      start := stream.pos;
      line := stream.GetLine();
      paramEnd := Find(line, ':', 0);
    }
  }

  // --- Requests ---

  /** The parts of a request line; without a question mark the caller's query string is left alone. */
  datatype RequestLine = RequestLine(verb: string, path: string, query: Option<string>, version: string)

  function AfterSlash(line: string, slash: nat): string
    requires slash < |line|
  {
    if slash + 1 < |line| then line[slash + 1..|line| - 1] else ""
  }

  /** The request line: the target ends at the second space and is split at its last question mark. */
  function ReadRequestLine(line: string): Option<RequestLine> {
    var m := Find(line, ' ', 0);
    if m == |line| then None
    else
      var e := Find(line, ' ', m + 1);
      if e == |line| then None
      else
        var s := Find(line, '/', e + 1);
        if s == |line| || line[e + 1..s] != "HTTP" then None
        else
          var q := FindLast(line, '?', m + 1, e);
          Some(RequestLine(line[..m], line[m + 1..q], if q < e then Some(line[q + 1..e]) else None,
                           AfterSlash(line, s)))
  }

  /** The lines that are taken for a request line: a method and a target without blanks, each followed by one, then the
      protocol and the version, whose last character is the carriage return. */
  predicate IsRequestLine(line: string, verb: string, target: string, version: string) {
    Clean(verb, ' ') && Clean(target, ' ') && line == verb + " " + target + " HTTP/" + version
  }

  lemma ReadParts(line: string, verb: string, target: string, version: string)
    requires IsRequestLine(line, verb, target, version)
    ensures var m, e := |verb|, |verb| + 1 + |target|;
            && Find(line, ' ', 0) == m < |line| && Find(line, ' ', m + 1) == e < |line|
            && Find(line, '/', e + 1) == e + 5 < |line| && line[e + 1..e + 5] == "HTTP"
            && line[..m] == verb && line[m + 1..e] == target && line[e + 6..] == version
  {
    var m, e := |verb|, |verb| + 1 + |target|;
    assert line[..m] == verb && line[m] == ' ' && line[m + 1..e] == target && line[e] == ' ';
    assert line[e + 1..e + 6] == "HTTP/" && line[e + 6..] == version;
    assert line[e + 1] == 'H' && line[e + 2] == 'T' && line[e + 3] == 'T' && line[e + 4] == 'P' && line[e + 5] == '/';
    assert forall k | 0 <= k < m :: line[k] == verb[k];
    assert forall k | m + 1 <= k < e :: line[k] == target[k - m - 1];
  }

  lemma LineParts(line: string, m: nat, e: nat)
    requires m < e && e + 5 < |line| && line[m] == ' ' && line[e] == ' '
    requires line[e + 1..e + 5] == "HTTP" && line[e + 5] == '/'
    ensures line == line[..m] + " " + line[m + 1..e] + " HTTP/" + line[e + 6..]
  {
    assert line[e + 1..e + 6] == line[e + 1..e + 5] + [line[e + 5]];
    assert line[e..e + 6] == [line[e]] + line[e + 1..e + 6] == " HTTP/";
  }

  lemma ReadIsRequestLine(line: string) returns (target: string, version: string)
    requires ReadRequestLine(line).Some?
    ensures IsRequestLine(line, ReadRequestLine(line).value.verb, target, version)
  {
    var m := Find(line, ' ', 0);
    var e := Find(line, ' ', m + 1);
    assert |line[e + 1..Find(line, '/', e + 1)]| == 4;
    target, version := line[m + 1..e], line[e + 6..];
    SliceIsClean(line, 0, m, ' ');
    SliceIsClean(line, m + 1, e, ' ');
    assert line[0..m] == line[..m];
    LineParts(line, m, e);
  }

  lemma RequestLineIsRead(line: string, verb: string, target: string, version: string)
    requires IsRequestLine(line, verb, target, version)
    ensures var r := ReadRequestLine(line);
            r.Some? && r.value.verb == verb && r.value.version == if version == "" then "" else version[..|version| - 1]
  {
    ReadParts(line, verb, target, version);
    var e := |verb| + 1 + |target|;
    assert version != "" ==> line[e + 6..|line| - 1] == version[..|version| - 1];
  }

  /** A request line is read exactly if it is one. */
  lemma RequestLineIff(line: string)
    ensures ReadRequestLine(line).Some? <==> exists verb, target, version :: IsRequestLine(line, verb, target, version)
  {
    if ReadRequestLine(line).Some? {
      var target, version := ReadIsRequestLine(line);
    }
    if verb, target, version :| IsRequestLine(line, verb, target, version) {
      RequestLineIsRead(line, verb, target, version);
    }
  }

  /** The loop of `RequestMessage::parse` over the target: `queryStart` is behind the last question mark, `end` at the
      first space, and each may be unset. */
  method ScanTarget(line: string, start: nat) returns (queryStart: int, end: int)
    requires start <= |line|
    ensures end == (var e := Find(line, ' ', start); if e < |line| then e else -1)
    ensures end != -1 ==> queryStart == (var q := FindLast(line, '?', start, end); if q < end then q + 1 else -1)
  {
    queryStart, end := -1, -1;
    var i := start;
    while i < |line|
      invariant start <= i <= |line| && end == -1
      invariant Free(line, ' ', start, i)
      invariant if queryStart == -1 then Free(line, '?', start, if i < |line| then i else start)
                else start < queryStart <= i && line[queryStart - 1] == '?'
                     && (i < |line| ==> Free(line, '?', queryStart, i))
    {
      if line[i] == '?' && i + 1 < |line| {
        queryStart := i + 1;
      } else if line[i] == ' ' {
        end := i;
        break;
      }
      i := i + 1;
    }
    assert Find(line, ' ', start) == i;
    if end != -1 {
      assert FindLast(line, '?', start, end) == if queryStart == -1 then end else queryStart - 1;
    }
  }

  /** The end of a header, as callers look for it. */
  predicate HeaderEndAt(text: string, pos: nat, e: nat) {
    pos <= e && e + 3 < |text| && text[e] == '\r' && text[e + 1] == '\n' && text[e + 2] == '\r' && text[e + 3] == '\n'
  }

  ghost predicate HasHeaderEnd(text: string, pos: nat) {
    exists e :: HeaderEndAt(text, pos, e)
  }

  lemma HeaderEndGivesBlankLine(text: string, pos: nat)
    requires pos <= |text| && HasHeaderEnd(text, pos)
    ensures HasBlankLine(text, NextLine(text, pos))
  {
    var e :| HeaderEndAt(text, pos, e);
    var n := Find(text, '\n', pos);
    assert n <= e + 1;
    assert BlankLineAt(text, n + 1, e + 2);
  }

  method ParseRequest(stream: InputStream, oldQuery: string)
      returns (ok: bool, verb: string, path: string, query: string, version: string, header: seq<Field>)
    requires stream.Valid() && HasHeaderEnd(stream.text, stream.pos)
    modifies stream
    ensures stream.Valid()
    ensures var r := ReadRequestLine(LineAt(stream.text, old(stream.pos)));
            && ok == r.Some?
            && (ok ==> (verb, path, version) == (r.value.verb, r.value.path, r.value.version))
            && (ok ==> query == if r.value.query.Some? then r.value.query.value else oldQuery)
    ensures var next := NextLine(stream.text, old(stream.pos));
            && HasBlankLine(stream.text, next)
            && if ok then Header(header, stream.pos) == HeaderLoop(stream.text, next, [])
               else stream.pos == next
  {
    ok, verb, path, query, version, header := false, "", "", oldQuery, "", [];
    HeaderEndGivesBlankLine(stream.text, stream.pos);
    var line := stream.GetLine();
    var methodEnd := Find(line, ' ', 0);
    if methodEnd == |line| {
      return;
    }
    verb := line[..methodEnd];
    var queryStart, end := ScanTarget(line, methodEnd + 1);
    if end == -1 {
      return;
    }
    if queryStart != -1 {
      path := line[methodEnd + 1..queryStart - 1];
      query := line[queryStart..end];
    } else {
      path := line[methodEnd + 1..end];
    }
    var protocolEnd := Find(line, '/', end + 1);
    if protocolEnd == |line| || line[end + 1..protocolEnd] != "HTTP" {
      return;
    }
    version := AfterSlash(line, protocolEnd);
    header := ParseHeader(stream);
    ok := true;
  }

  // --- Responses ---

  datatype StatusLine = StatusLine(version: string, status: string)

  /** `substr(5, end - 5)` for a line longer than five characters; the count wraps round when `end` is smaller. */
  function VersionOf(line: string, end: nat): string
    requires 5 < |line| && end <= |line|
  {
    if end >= 5 then line[5..end] else line[5..]
  }

  function ReadStatusLine(line: string): Option<StatusLine> {
    var e := Find(line, ' ', 0);
    if e == |line| || |line| <= 5 || e + 1 >= |line| then None
    else Some(StatusLine(VersionOf(line, e), line[e + 1..|line| - 1]))
  }

  /** A status line is read exactly if it has a blank with something behind it and more than five characters. The text
      behind the blank, without its last character, is the status. */
  lemma StatusLineIs(word: string, rest: string)
    requires Clean(word, ' ')
    ensures ReadStatusLine(word) == None
    ensures var line := word + " " + rest;
            ReadStatusLine(line)
            == if rest == "" || |line| <= 5 then None
               else Some(StatusLine(if |word| >= 5 then word[5..] else line[5..], rest[..|rest| - 1]))
  {
    var line := word + " " + rest;
    assert Find(word, ' ', 0) == |word|;
    assert line[|word|] == ' ' && forall k | 0 <= k < |word| :: line[k] == word[k];
    assert Find(line, ' ', 0) == |word|;
    assert |word| >= 5 ==> line[5..|word|] == word[5..];
    assert rest != "" ==> line[|word| + 1..|line| - 1] == rest[..|rest| - 1];
  }

  method ParseResponse(stream: InputStream) returns (ok: bool, version: string, status: string, header: seq<Field>)
    requires stream.Valid() && HasHeaderEnd(stream.text, stream.pos)
    modifies stream
    ensures stream.Valid()
    ensures var r := ReadStatusLine(LineAt(stream.text, old(stream.pos)));
            ok == r.Some? && (ok ==> StatusLine(version, status) == r.value)
    ensures var next := NextLine(stream.text, old(stream.pos));
            && HasBlankLine(stream.text, next)
            && if ok then Header(header, stream.pos) == HeaderLoop(stream.text, next, [])
               else stream.pos == next
  {
    ok, version, status, header := false, "", "", [];
    HeaderEndGivesBlankLine(stream.text, stream.pos);
    var line := stream.GetLine();
    var versionEnd := Find(line, ' ', 0);
    if versionEnd == |line| {
      return;
    }
    if 5 < |line| {
      version := VersionOf(line, versionEnd);
    } else {
      return;
    }
    if versionEnd + 1 < |line| {
      status := line[versionEnd + 1..|line| - 1];
    } else {
      return;
    }
    header := ParseHeader(stream);
    ok := true;
  }
}
