/** The printers of `client_http.hpp` and `server_http.hpp`, and what the parsers read back from their text. */
module HttpRoundTrip {
  import opened Text
  import opened QueryString
  import opened HttpMessage

  // --- Printed messages ---

  function FieldText(f: Field): string {
    f.name + ": " + f.value + "\r\n"
  }

  function HeaderText(fields: seq<Field>): string {
    if fields == [] then "" else FieldText(fields[0]) + HeaderText(fields[1..])
  }

  /** A loop that appends the remaining fields to a text. */
  function HeaderAppended(text: string, fields: seq<Field>, i: nat): string
    requires i <= |fields|
    decreases |fields| - i
  {
    if i == |fields| then text else HeaderAppended(text + FieldText(fields[i]), fields, i + 1)
  }

  lemma {:induction false} HeaderAppendedIs(text: string, fields: seq<Field>, i: nat)
    requires i <= |fields|
    ensures HeaderAppended(text, fields, i) == text + HeaderText(fields[i..])
    decreases |fields| - i
  {
    if i < |fields| {
      HeaderAppendedIs(text + FieldText(fields[i]), fields, i + 1);
      assert fields[i..][1..] == fields[i + 1..];
    }
  }

  function MessageText(line: string, fields: seq<Field>, content: string): string {
    line + "\r\n" + HeaderText(fields) + "\r\n" + content
  }

  const CONTENT_LENGTH := "Content-Length"

  function LengthField(size: nat): Field {
    Field(CONTENT_LENGTH, DecimalNat(size))
  }

  lemma {:induction false} HeaderTextAppend(fields: seq<Field>, more: seq<Field>)
    ensures HeaderText(fields + more) == HeaderText(fields) + HeaderText(more)
  {
    if fields == [] {
      assert fields + more == more;
    } else {
      HeaderTextAppend(fields[1..], more);
      assert (fields + more)[1..] == fields[1..] + more;
    }
  }

  lemma OneField(f: Field)
    ensures HeaderText([f]) == FieldText(f)
  {
  }

  // --- Client ---

  /** Where requests of a client go; a proxied plain-socket client names the server in every target. */
  datatype Server = Server(host: string, port: nat, proxied: bool)

  /** `corrected_path`. */
  function Target(server: Server, path: string): string {
    var corrected := if path == "" then "/" else path;
    if server.proxied then "http://" + server.host + ":" + DecimalNat(server.port) + corrected else corrected
  }

  function RequestText(verb: string, target: string): string {
    verb + " " + target + " HTTP/1.1"
  }

  function RequestFields(server: Server, header: seq<Field>, content: string): seq<Field> {
    [Field("Host", server.host)] + header + if content == "" then [] else [LengthField(|content|)]
  }

  lemma FirstLines(server: Server, verb: string, path: string, header: seq<Field>, first: string)
    requires first == verb + " " + Target(server, path) + " HTTP/1.1\r\n" + "Host: " + server.host + "\r\n"
    ensures HeaderAppended(first, header, 0)
         == RequestText(verb, Target(server, path)) + "\r\n" + HeaderText([Field("Host", server.host)] + header)
  {
    var host := [Field("Host", server.host)];
    HeaderAppendedIs(first, header, 0);
    HeaderTextAppend(host, header);
    OneField(host[0]);
    assert first == RequestText(verb, Target(server, path)) + "\r\n" + FieldText(host[0]);
    assert header[0..] == header;
  }

  method CreateRequestHeader(server: Server, verb: string, path: string, header: seq<Field>) returns (text: string)
    ensures text == RequestText(verb, Target(server, path)) + "\r\n" + HeaderText([Field("Host", server.host)] + header)
  {
    var correctedPath := path;
    if correctedPath == "" {
      correctedPath := "/";
    }
    if server.proxied {
      correctedPath := "http://" + server.host + ":" + DecimalNat(server.port) + correctedPath;
    }
    text := verb + " " + correctedPath + " HTTP/1.1\r\n" + "Host: " + server.host + "\r\n";
    ghost var first := text;
    for i := 0 to |header|
      invariant HeaderAppended(text, header, i) == HeaderAppended(first, header, 0)
    {
      text := text + FieldText(header[i]);
    }
    FirstLines(server, verb, path, header, first);
  }

  function PrintedRequest(server: Server, verb: string, path: string, content: string, header: seq<Field>): string {
    MessageText(RequestText(verb, Target(server, path)), RequestFields(server, header, content), content)
  }

  method Request(server: Server, verb: string, path: string, content: string, header: seq<Field>) returns (text: string)
    ensures text == PrintedRequest(server, verb, path, content, header)
  {
    text := CreateRequestHeader(server, verb, path, header);
    ghost var line := RequestText(verb, Target(server, path)) + "\r\n";
    ghost var fields := [Field("Host", server.host)] + header;
    if |content| > 0 {
      HeaderTextAppend(fields, [LengthField(|content|)]);
      OneField(LengthField(|content|));
      text := text + ("Content-Length: " + DecimalNat(|content|) + "\r\n");
    } else {
      assert fields + [] == fields;
    }
    text := text + ("\r\n" + content);
  }

  // --- Server ---

  predicate SameIgnoringCase(a: string, b: string) {
    |a| == |b| && forall i | 0 <= i < |a| :: LowerChar(a[i]) == LowerChar(b[i])
  }

  predicate NamesLength(f: Field) {
    SameIgnoringCase(f.name, "content-length")
  }

  predicate NamesChunked(f: Field) {
    SameIgnoringCase(f.name, "transfer-encoding") && SameIgnoringCase(f.value, "chunked")
  }

  /** The server adds a length unless the caller's fields or the end of the connection delimit the content. */
  predicate AddsLength(header: seq<Field>, close: bool) {
    !close && forall i | 0 <= i < |header| :: !NamesLength(header[i]) && !NamesChunked(header[i])
  }

  function ResponseFields(header: seq<Field>, size: nat, close: bool): seq<Field> {
    header + if AddsLength(header, close) then [LengthField(size)] else []
  }

  function PrintedResponse(status: string, content: string, header: seq<Field>, close: bool): string {
    MessageText("HTTP/1.1 " + status, ResponseFields(header, |content|, close), content)
  }

  class Response {
    const closeConnectionAfterResponse: bool
    var buffer: string

    constructor (close: bool)
      ensures closeConnectionAfterResponse == close && buffer == ""
    {
      closeConnectionAfterResponse := close;
      buffer := "";
    }

    method WriteHeader(header: seq<Field>, size: nat)
      modifies this
      ensures buffer
           == old(buffer) + HeaderText(ResponseFields(header, size, closeConnectionAfterResponse)) + "\r\n"
    {
      var contentLengthWritten := false;
      var chunkedTransferEncoding := false;
      for i := 0 to |header|
        invariant HeaderAppended(buffer, header, i) == HeaderAppended(old(buffer), header, 0)
        invariant contentLengthWritten || chunkedTransferEncoding
             <==> exists k | 0 <= k < i :: NamesLength(header[k]) || NamesChunked(header[k])
      {
        if !contentLengthWritten && NamesLength(header[i]) {
          contentLengthWritten := true;
        } else if !chunkedTransferEncoding && NamesChunked(header[i]) {
          chunkedTransferEncoding := true;
        }
        buffer := buffer + FieldText(header[i]);
      }
      if !contentLengthWritten && !chunkedTransferEncoding && !closeConnectionAfterResponse {
        buffer := buffer + ("Content-Length: " + DecimalNat(size) + "\r\n\r\n");
      } else {
        buffer := buffer + "\r\n";
      }
      HeaderEnd(old(buffer), header, size, closeConnectionAfterResponse);
    }

    static lemma HeaderEnd(text: string, header: seq<Field>, size: nat, close: bool)
      ensures HeaderAppended(text, header, 0)
            + (if AddsLength(header, close) then "Content-Length: " + DecimalNat(size) + "\r\n\r\n" else "\r\n")
           == text + HeaderText(ResponseFields(header, size, close)) + "\r\n"
    {
      HeaderAppendedIs(text, header, 0);
      assert header[0..] == header;
      if AddsLength(header, close) {
        HeaderTextAppend(header, [LengthField(size)]);
        OneField(LengthField(size));
        LengthEnd(DecimalNat(size));
      } else {
        assert header + [] == header;
      }
    }

    static lemma LengthEnd(size: string)
      ensures FieldText(Field(CONTENT_LENGTH, size)) + "\r\n" == "Content-Length: " + size + "\r\n\r\n"
    {
    }

    static lemma Regroup(before: string, line: string, header: string, content: string)
      ensures before + line + header + "\r\n" + content == before + (line + header + "\r\n" + content)
    {
    }

    method Write(status: string, content: string, header: seq<Field>)
      modifies this
      ensures buffer == old(buffer) + PrintedResponse(status, content, header, closeConnectionAfterResponse)
    {
      buffer := buffer + ("HTTP/1.1 " + status + "\r\n");
      WriteHeader(header, |content|);
      if content != "" {
        buffer := buffer + content;
      }
      Regroup(old(buffer), "HTTP/1.1 " + status + "\r\n",
        HeaderText(ResponseFields(header, |content|, closeConnectionAfterResponse)), content);
    }
  }

  // --- Reading a printed message ---

  /** A name without colon or line feed and a value without line feed. */
  predicate CleanField(f: Field) {
    Clean(f.name, ':') && Clean(f.name, '\n') && Clean(f.value, '\n')
  }

  predicate CleanFields(fields: seq<Field>) {
    forall i | 0 <= i < |fields| :: CleanField(fields[i])
  }

  lemma {:induction false} HeaderEndsLine(fields: seq<Field>)
    requires fields != []
    ensures |HeaderText(fields)| >= 2 && HeaderText(fields)[|HeaderText(fields)| - 2..] == "\r\n"
  {
    if |fields| > 1 {
      HeaderEndsLine(fields[1..]);
    } else {
      assert fields[1..] == [];
    }
  }

  /** Whatever its parts are, the text of a message has the empty line that callers read up to. */
  lemma PrintedHasHeaderEnd(line: string, fields: seq<Field>, content: string)
    ensures HasHeaderEnd(MessageText(line, fields, content), 0)
  {
    var text := MessageText(line, fields, content);
    var head := line + "\r\n" + HeaderText(fields);
    if fields != [] {
      HeaderEndsLine(fields);
    }
    assert text == head + "\r\n" + content;
    assert HeaderEndAt(text, 0, |head| - 2);
  }

  /** The line at a position where the rest of the text starts with a line feed-free string and a line feed. */
  lemma FirstLine(text: string, pos: nat, line: string, rest: string)
    requires pos <= |text| && text[pos..] == line + "\n" + rest && Clean(line, '\n')
    ensures LineAt(text, pos) == line && NextLine(text, pos) == |text| - |rest| && text[|text| - |rest|..] == rest
  {
    var s := text[pos..];
    var n := pos + |line|;
    assert n < |text| && text[n] == '\n' && n + 1 == |text| - |rest|;
    assert forall k | pos <= k < n :: text[k] == line[k - pos];
    assert Find(text, '\n', pos) == n;
    assert s[|line| + 1..] == rest;
  }

  function FieldLine(f: Field): string {
    f.name + ": " + f.value + "\r"
  }

  lemma FieldLineReadsBack(f: Field)
    requires CleanField(f)
    ensures Clean(FieldLine(f), '\n') && Find(FieldLine(f), ':', 0) == |f.name| < |FieldLine(f)|
    ensures HeaderField(FieldLine(f), |f.name|) == [f]
  {
    var line := FieldLine(f);
    assert line[..|f.name|] == f.name && line[|f.name|] == ':' && line[|f.name| + 1] == ' ';
    assert Find(line, ':', 0) == |f.name| by {
      assert forall k | 0 <= k < |f.name| :: line[k] == f.name[k];
    }
    assert line[|f.name| + 2..|line| - 1] == f.value;
  }

  /** The blank behind the colon may be missing, unless the value starts with one: of two blanks one is kept. */
  lemma CompactFieldReadsBack(f: Field)
    requires CleanField(f)
    ensures var line := f.name + ":" + f.value + "\r";
            && Clean(line, '\n') && Find(line, ':', 0) == |f.name|
            && (HeaderField(line, |f.name|) == [f] <==> f.value == "" || f.value[0] != ' ')
  {
    assert f.name + ":" + f.value + "\r" == f.name + ":" + (f.value + "\r");
    HeaderFieldIs(f.name, f.value + "\r");
    assert f.value != "" ==> (f.value + "\r")[1..|f.value|] == f.value[1..];
  }

  lemma HeaderTextSplits(fields: seq<Field>, content: string)
    requires fields != []
    ensures HeaderText(fields) + "\r\n" + content
         == FieldLine(fields[0]) + "\n" + (HeaderText(fields[1..]) + "\r\n" + content)
  {
    assert FieldText(fields[0]) == FieldLine(fields[0]) + "\n";
  }

  lemma LoopReadsField(text: string, pos: nat, f: Field, rest: string, before: seq<Field>) returns (next: nat)
    requires pos <= |text| && text[pos..] == FieldLine(f) + "\n" + rest && HasBlankLine(text, pos)
    requires CleanField(f)
    ensures next <= |text| && text[next..] == rest && HasBlankLine(text, next)
    ensures HeaderLoop(text, pos, before) == HeaderLoop(text, next, before + [f])
  {
    FieldLineReadsBack(f);
    FirstLine(text, pos, FieldLine(f), rest);
    BlankLineStays(text, pos);
    next := NextLine(text, pos);
  }

  lemma LoopEnds(text: string, pos: nat, content: string, before: seq<Field>)
    requires pos <= |text| && text[pos..] == "\r\n" + content && HasBlankLine(text, pos)
    ensures HeaderLoop(text, pos, before) == Header(before, |text| - |content|)
  {
    assert text[pos..] == "\r" + "\n" + content;
    FirstLine(text, pos, "\r", content);
  }

  lemma MoveFirst(before: seq<Field>, fields: seq<Field>)
    requires fields != []
    ensures before + [fields[0]] + fields[1..] == before + fields
  {
  }

  /** One round of the loop over a printed header. */
  lemma LoopReadsFirst(text: string, pos: nat, fields: seq<Field>, content: string, before: seq<Field>)
      returns (next: nat, before': seq<Field>)
    requires pos <= |text| && text[pos..] == HeaderText(fields) + "\r\n" + content && HasBlankLine(text, pos)
    requires fields != [] && CleanField(fields[0])
    ensures next <= |text| && text[next..] == HeaderText(fields[1..]) + "\r\n" + content && HasBlankLine(text, next)
    ensures HeaderLoop(text, pos, before) == HeaderLoop(text, next, before')
    ensures before' + fields[1..] == before + fields
  {
    var f, rest := fields[0], HeaderText(fields[1..]) + "\r\n" + content;
    HeaderTextSplits(fields, content);
    next := LoopReadsField(text, pos, f, rest, before);
    before' := before + [f];
    MoveFirst(before, fields);
  }

  lemma {:induction false} HeaderReadsBack(text: string, pos: nat, fields: seq<Field>, content: string,
                                           before: seq<Field>)
    requires pos <= |text| && text[pos..] == HeaderText(fields) + "\r\n" + content && HasBlankLine(text, pos)
    requires CleanFields(fields)
    ensures HeaderLoop(text, pos, before) == Header(before + fields, |text| - |content|)
    decreases |fields|
  {
    if fields == [] {
      assert before + fields == before;
      LoopEnds(text, pos, content, before);
    } else {
      var next, before' := LoopReadsFirst(text, pos, fields, content, before);
      HeaderReadsBack(text, next, fields[1..], content, before');
    }
  }

  lemma LineIsClean(text: string, pos: nat)
    requires pos <= |text|
    ensures Clean(LineAt(text, pos), '\n')
  {
  }

  lemma ReadFieldIsClean(line: string)
    requires Clean(line, '\n') && Find(line, ':', 0) < |line|
    ensures CleanFields(HeaderField(line, Find(line, ':', 0)))
  {
    var colon := Find(line, ':', 0);
    SliceIsClean(line, 0, colon, ':');
    SliceIsClean(line, 0, colon, '\n');
    assert line[0..colon] == line[..colon];
    var start := if colon + 1 < |line| && line[colon + 1] == ' ' then colon + 2 else colon + 1;
    if start < |line| {
      SliceIsClean(line, start, |line| - 1, '\n');
    }
  }

  lemma {:induction false} ReadHeaderIsClean(text: string, pos: nat, before: seq<Field>)
    requires pos <= |text| && HasBlankLine(text, pos) && CleanFields(before)
    ensures CleanFields(HeaderLoop(text, pos, before).fields)
    decreases |text| - pos
  {
    var line := LineAt(text, pos);
    var colon := Find(line, ':', 0);
    if colon < |line| {
      LineIsClean(text, pos);
      ReadFieldIsClean(line);
      BlankLineStays(text, pos);
      ReadHeaderIsClean(text, NextLine(text, pos), before + HeaderField(line, colon));
    }
  }

  /** What the parser finds behind the first line. */
  ghost function HeaderOf(text: string): Header
    requires HasHeaderEnd(text, 0)
  {
    HeaderEndGivesBlankLine(text, 0);
    HeaderLoop(text, NextLine(text, 0), [])
  }

  /** Behind the first line the parser finds exactly these fields and then the content. */
  ghost predicate FieldsReadBack(text: string, fields: seq<Field>, content: string)
    requires HasHeaderEnd(text, 0)
  {
    HeaderOf(text).fields == fields && HeaderOf(text).end + |content| == |text|
  }

  /** The first line of a text and what follows it. */
  lemma BehindFirstLine(text: string, line: string, rest: string)
    requires text == line + "\r\n" + rest && Clean(line, '\n')
    ensures LineAt(text, 0) == line + "\r" && NextLine(text, 0) <= |text| && text[NextLine(text, 0)..] == rest
  {
    assert text[0..] == (line + "\r") + "\n" + rest;
    FirstLine(text, 0, line + "\r", rest);
  }

  lemma MessageParts(line: string, fields: seq<Field>, content: string)
    ensures MessageText(line, fields, content) == line + "\r\n" + (HeaderText(fields) + "\r\n" + content)
  {
  }

  lemma CleanFieldsReadBack(line: string, fields: seq<Field>, content: string, text: string)
    requires Clean(line, '\n') && CleanFields(fields) && text == MessageText(line, fields, content)
    ensures HasHeaderEnd(text, 0) && LineAt(text, 0) == line + "\r" && FieldsReadBack(text, fields, content)
  {
    PrintedHasHeaderEnd(line, fields, content);
    HeaderEndGivesBlankLine(text, 0);
    MessageParts(line, fields, content);
    BehindFirstLine(text, line, HeaderText(fields) + "\r\n" + content);
    HeaderReadsBack(text, NextLine(text, 0), fields, content, []);
  }

  lemma FieldsReadBackAreClean(text: string, fields: seq<Field>, content: string)
    requires HasHeaderEnd(text, 0) && FieldsReadBack(text, fields, content)
    ensures CleanFields(fields)
  {
    HeaderEndGivesBlankLine(text, 0);
    ReadHeaderIsClean(text, NextLine(text, 0), []);
  }

  // --- Requests ---

  /** The target of a request line, put together again. */
  function WholeTarget(r: RequestLine): string {
    if r.query.Some? then r.path + "?" + r.query.value else r.path
  }

  /** The target is split at its last question mark. */
  predicate SplitAtLast(r: RequestLine) {
    if r.query.Some? then Clean(r.query.value, '?') else Clean(r.path, '?')
  }

  lemma PrintedRequestLine(verb: string, target: string)
    requires Clean(verb, ' ') && Clean(target, ' ')
    ensures var line := RequestText(verb, target) + "\r";
            var e := |verb| + 1 + |target|;
            && Find(line, ' ', 0) == |verb| && Find(line, ' ', |verb| + 1) == e
            && Find(line, '/', e + 1) == e + 5 < |line|
            && line[..|verb|] == verb && line[|verb| + 1..e] == target
            && line[e + 1..e + 5] == "HTTP" && line[e + 6..|line| - 1] == "1.1"
  {
    var line := RequestText(verb, target) + "\r";
    assert IsRequestLine(line, verb, target, "1.1\r");
    ReadParts(line, verb, target, "1.1\r");
    assert line[|verb| + 1 + |target| + 6..] == "1.1\r";
  }

  lemma SplitIsWhole(r: RequestLine, s: string, lo: nat, hi: nat)
    requires lo <= hi <= |s|
    requires var q := FindLast(s, '?', lo, hi);
             r.path == s[lo..q] && r.query == if q < hi then Some(s[q + 1..hi]) else None
    ensures WholeTarget(r) == s[lo..hi] && SplitAtLast(r)
  {
    var q := FindLast(s, '?', lo, hi);
    assert q < hi ==> s[lo..hi] == s[lo..q] + "?" + s[q + 1..hi];
  }

  /** The path and the query string of a request line make up the target. */
  lemma TargetIsWhole(line: string)
    requires ReadRequestLine(line).Some?
    ensures var m := Find(line, ' ', 0);
            var r := ReadRequestLine(line).value;
            && WholeTarget(r) == line[m + 1..Find(line, ' ', m + 1)]
            && SplitAtLast(r)
  {
    var m := Find(line, ' ', 0);
    var e := Find(line, ' ', m + 1);
    SplitIsWhole(ReadRequestLine(line).value, line, m + 1, e);
  }

  lemma ReadRequestIsClean(line: string)
    requires Clean(line, '\n') && ReadRequestLine(line).Some?
    ensures var r := ReadRequestLine(line).value;
            && Clean(r.verb, ' ') && Clean(r.verb, '\n')
            && Clean(WholeTarget(r), ' ') && Clean(WholeTarget(r), '\n')
  {
    var m := Find(line, ' ', 0);
    var e := Find(line, ' ', m + 1);
    TargetIsWhole(line);
    SliceIsClean(line, 0, m, ' ');
    SliceIsClean(line, 0, m, '\n');
    assert line[0..m] == line[..m];
    SliceIsClean(line, m + 1, e, ' ');
    SliceIsClean(line, m + 1, e, '\n');
  }

  lemma ServerFieldsAreClean(server: Server, header: seq<Field>, content: string)
    ensures CleanFields(RequestFields(server, header, content)) <==> Clean(server.host, '\n') && CleanFields(header)
  {
    var fields := RequestFields(server, header, content);
    var host := Field("Host", server.host);
    assert CleanField(LengthField(|content|));
    assert CleanField(host) <==> Clean(server.host, '\n');
    assert fields[0] == host;
    assert forall i | 0 <= i < |header| :: fields[i + 1] == header[i];
    if CleanFields(fields) {
      forall i | 0 <= i < |header| ensures CleanField(header[i]) {
        assert CleanField(fields[i + 1]);
      }
    }
  }

  /** `RequestMessage::parse` of the text recovers every part, splits the target at its last question mark and leaves
      the content unread. */
  ghost predicate RequestReadsBack(text: string, verb: string, target: string, fields: seq<Field>, content: string)
    requires HasHeaderEnd(text, 0)
  {
    var r := ReadRequestLine(LineAt(text, 0));
    && r.Some?
    && r.value.verb == verb && WholeTarget(r.value) == target && SplitAtLast(r.value) && r.value.version == "1.1"
    && FieldsReadBack(text, fields, content)
  }

  predicate CleanRequest(verb: string, target: string) {
    Clean(verb, ' ') && Clean(verb, '\n') && Clean(target, ' ') && Clean(target, '\n')
  }

  lemma RequestLineReadsBack(verb: string, target: string)
    requires CleanRequest(verb, target)
    ensures var r := ReadRequestLine(RequestText(verb, target) + "\r");
            && r.Some?
            && r.value.verb == verb && WholeTarget(r.value) == target && SplitAtLast(r.value)
            && r.value.version == "1.1"
  {
    PrintedRequestLine(verb, target);
    TargetIsWhole(RequestText(verb, target) + "\r");
  }

  lemma CleanRequestReadsBack(text: string, verb: string, target: string, fields: seq<Field>, content: string)
    requires CleanRequest(verb, target) && CleanFields(fields)
    requires text == MessageText(RequestText(verb, target), fields, content)
    ensures HasHeaderEnd(text, 0) && RequestReadsBack(text, verb, target, fields, content)
  {
    CleanFieldsReadBack(RequestText(verb, target), fields, content, text);
    RequestLineReadsBack(verb, target);
  }

  lemma ReadRequestWasClean(text: string, verb: string, target: string, fields: seq<Field>, content: string)
    requires HasHeaderEnd(text, 0) && RequestReadsBack(text, verb, target, fields, content)
    ensures CleanRequest(verb, target) && CleanFields(fields)
  {
    LineIsClean(text, 0);
    ReadRequestIsClean(LineAt(text, 0));
    FieldsReadBackAreClean(text, fields, content);
  }

  /** The server reads back a client's request exactly when the method and the target have no space or line feed, the
      host no line feed, and the fields are clean. */
  lemma RequestRoundTripIff(server: Server, verb: string, path: string, content: string, header: seq<Field>)
    ensures HasHeaderEnd(PrintedRequest(server, verb, path, content, header), 0)
    ensures RequestReadsBack(PrintedRequest(server, verb, path, content, header), verb, Target(server, path),
              RequestFields(server, header, content), content)
       <==> CleanRequest(verb, Target(server, path)) && Clean(server.host, '\n') && CleanFields(header)
  {
    var target, fields := Target(server, path), RequestFields(server, header, content);
    var text := PrintedRequest(server, verb, path, content, header);
    PrintedHasHeaderEnd(RequestText(verb, target), fields, content);
    ServerFieldsAreClean(server, header, content);
    if RequestReadsBack(text, verb, target, fields, content) {
      ReadRequestWasClean(text, verb, target, fields, content);
    } else if CleanRequest(verb, target) && CleanFields(fields) {
      CleanRequestReadsBack(text, verb, target, fields, content);
    }
  }

  /** What follows the header of a message is its content. */
  lemma ContentIsBehind(line: string, fields: seq<Field>, content: string, end: nat)
    requires end + |content| == |MessageText(line, fields, content)|
    ensures MessageText(line, fields, content)[end..] == content
  {
  }

  /** A clean request arrives with its target, its host, the caller's fields in order and, exactly when it has content,
      one more field: a length that says how many characters there are behind the header. They are the content. */
  lemma RequestArrives(server: Server, verb: string, path: string, content: string, header: seq<Field>)
      returns (lengths: seq<Field>)
    requires CleanRequest(verb, Target(server, path)) && Clean(server.host, '\n') && CleanFields(header)
    ensures HasHeaderEnd(PrintedRequest(server, verb, path, content, header), 0)
    ensures var text := PrintedRequest(server, verb, path, content, header);
            var line := ReadRequestLine(LineAt(text, 0));
            && line.Some? && line.value.verb == verb && line.value.version == "1.1"
            && WholeTarget(line.value)
            == (if server.proxied then "http://" + server.host + ":" + DecimalNat(server.port) else "")
             + (if path == "" then "/" else path)
    ensures var text := PrintedRequest(server, verb, path, content, header);
            && HeaderOf(text).fields == [Field("Host", server.host)] + header + lengths
            && HeaderOf(text).end <= |text| && text[HeaderOf(text).end..] == content
    ensures |lengths| == if content == "" then 0 else 1
    ensures forall f | f in lengths :: f.name == "Content-Length" && ReadDigits(f.value, 0) == |content|
  {
    lengths := if content == "" then [] else [LengthField(|content|)];
    ReadDecimalNat(|content|);
    RequestRoundTripIff(server, verb, path, content, header);
    ContentIsBehind(RequestText(verb, Target(server, path)), RequestFields(server, header, content), content,
      HeaderOf(PrintedRequest(server, verb, path, content, header)).end);
    if server.proxied {
      assert Target(server, path) == "http://" + server.host + ":" + DecimalNat(server.port)
                                     + (if path == "" then "/" else path);
    }
  }

  // --- Responses ---

  ghost predicate ResponseReadsBack(text: string, status: string, fields: seq<Field>, content: string)
    requires HasHeaderEnd(text, 0)
  {
    ReadStatusLine(LineAt(text, 0)) == Some(StatusLine("1.1", status)) && FieldsReadBack(text, fields, content)
  }

  lemma PrintedStatusLine(status: string)
    ensures ReadStatusLine("HTTP/1.1 " + status + "\r") == Some(StatusLine("1.1", status))
  {
    var line := "HTTP/1.1 " + status + "\r";
    assert line[..9] == "HTTP/1.1 ";
    assert Find(line, ' ', 0) == 8 by {
      assert line[8] == ' ' && forall k | 0 <= k < 8 :: line[k] == "HTTP/1.1"[k];
    }
    assert line[5..8] == "1.1" && line[9..|line| - 1] == status;
  }

  lemma ReadStatusIsClean(line: string)
    requires Clean(line, '\n') && ReadStatusLine(line).Some?
    ensures Clean(ReadStatusLine(line).value.status, '\n')
  {
    SliceIsClean(line, Find(line, ' ', 0) + 1, |line| - 1, '\n');
  }

  lemma CleanResponseReadsBack(text: string, status: string, fields: seq<Field>, content: string)
    requires Clean(status, '\n') && CleanFields(fields)
    requires text == MessageText("HTTP/1.1 " + status, fields, content)
    ensures HasHeaderEnd(text, 0) && ResponseReadsBack(text, status, fields, content)
  {
    CleanFieldsReadBack("HTTP/1.1 " + status, fields, content, text);
    PrintedStatusLine(status);
  }

  lemma ReadResponseWasClean(text: string, status: string, fields: seq<Field>, content: string)
    requires HasHeaderEnd(text, 0) && ResponseReadsBack(text, status, fields, content)
    ensures Clean(status, '\n') && CleanFields(fields)
  {
    LineIsClean(text, 0);
    ReadStatusIsClean(LineAt(text, 0));
    FieldsReadBackAreClean(text, fields, content);
  }

  lemma ResponseFieldsAreClean(header: seq<Field>, size: nat, close: bool)
    ensures CleanFields(ResponseFields(header, size, close)) <==> CleanFields(header)
  {
    var fields := ResponseFields(header, size, close);
    assert CleanField(LengthField(size));
    assert forall i | 0 <= i < |header| :: fields[i] == header[i];
  }

  /** The client reads back a server's response exactly when the status text has no line feed and the fields are
      clean. */
  lemma ResponseRoundTripIff(status: string, content: string, header: seq<Field>, close: bool)
    ensures HasHeaderEnd(PrintedResponse(status, content, header, close), 0)
    ensures ResponseReadsBack(PrintedResponse(status, content, header, close), status,
              ResponseFields(header, |content|, close), content)
       <==> Clean(status, '\n') && CleanFields(header)
  {
    var fields := ResponseFields(header, |content|, close);
    var text := PrintedResponse(status, content, header, close);
    PrintedHasHeaderEnd("HTTP/1.1 " + status, fields, content);
    ResponseFieldsAreClean(header, |content|, close);
    if ResponseReadsBack(text, status, fields, content) {
      ReadResponseWasClean(text, status, fields, content);
    } else if Clean(status, '\n') && CleanFields(fields) {
      CleanResponseReadsBack(text, status, fields, content);
    }
  }

  /** A field that tells the reader where the content ends. */
  predicate DelimitsContent(f: Field) {
    SameName(f.name, "content-length") || (SameName(f.name, "transfer-encoding") && SameName(f.value, "chunked"))
  }

  lemma SameIgnoringCaseIff(a: string, b: string)
    ensures SameIgnoringCase(a, b) <==> SameName(a, b)
  {
  }

  lemma AddsLengthIff(header: seq<Field>, close: bool)
    ensures AddsLength(header, close) <==> !close && forall i | 0 <= i < |header| :: !DelimitsContent(header[i])
  {
    forall i | 0 <= i < |header|
      ensures DelimitsContent(header[i]) <==> NamesLength(header[i]) || NamesChunked(header[i])
    {
      SameIgnoringCaseIff(header[i].name, "content-length");
      SameIgnoringCaseIff(header[i].name, "transfer-encoding");
      SameIgnoringCaseIff(header[i].value, "chunked");
    }
  }

  /** A clean response arrives with its status, the caller's fields in order and, exactly when neither the caller's
      fields nor the end of the connection delimit the content, one more field: a length that says how many characters
      there are behind the header. They are the content. */
  lemma ResponseArrives(status: string, content: string, header: seq<Field>, close: bool)
      returns (lengths: seq<Field>)
    requires Clean(status, '\n') && CleanFields(header)
    ensures HasHeaderEnd(PrintedResponse(status, content, header, close), 0)
    ensures var text := PrintedResponse(status, content, header, close);
            && ReadStatusLine(LineAt(text, 0)) == Some(StatusLine("1.1", status))
            && HeaderOf(text).fields == header + lengths
            && HeaderOf(text).end <= |text| && text[HeaderOf(text).end..] == content
    ensures |lengths| == if close || exists i :: 0 <= i < |header| && DelimitsContent(header[i]) then 0 else 1
    ensures forall f | f in lengths :: f.name == "Content-Length" && ReadDigits(f.value, 0) == |content|
  {
    lengths := if AddsLength(header, close) then [LengthField(|content|)] else [];
    AddsLengthIff(header, close);
    ReadDecimalNat(|content|);
    ResponseRoundTripIff(status, content, header, close);
    ContentIsBehind("HTTP/1.1 " + status, ResponseFields(header, |content|, close), content,
      HeaderOf(PrintedResponse(status, content, header, close)).end);
  }

  /** The length a printer adds is read back as the length of the content. */
  lemma LengthReadsBack(content: string)
    ensures ReadDigits(LengthField(|content|).value, 0) == |content|
  {
    ReadDecimalNat(|content|);
  }
}
