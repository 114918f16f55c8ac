/** Percent encoding and query strings (`Percent` and `QueryString` of `utility.hpp`). A multimap is the sequence of its
    entries in iteration order. */
module QueryString {
  import opened Text

  datatype Field = Field(name: string, value: string)

  // --- Percent encoding ---

  predicate IsHex(c: char) {
    IsDigit(c) || 'A' <= c <= 'F' || 'a' <= c <= 'f'
  }

  function HexDigit(c: char): (d: nat)
    requires IsHex(c)
    ensures d < 16
  {
    if IsDigit(c) then DigitValue(c) else if c <= 'F' then c as int - 'A' as int + 10 else c as int - 'a' as int + 10
  }

  /** `hex_chars[d]`. */
  function HexChar(d: nat): (c: char)
    requires d < 16
    ensures IsHex(c) && HexDigit(c) == d && c != '&' && c != '='
  {
    if d < 10 then DigitChar(d) else ('A' as int + d - 10) as char
  }

  predicate Escaped(c: char) {
    || c == '!' || c == '#' || c == '$' || '&' <= c <= ',' || '/' <= c <= ';'
    || c == '=' || c == '?' || c == '@' || c == '[' || c == ']'
  }

  function EncodeChar(c: char): string {
    if c == ' ' then "+"
    else if Escaped(c) then "%" + [HexChar(c as int / 16), HexChar(c as int % 16)]
    else [c]
  }

  /** `Percent::encode`. */
  function Encode(value: string): string {
    if value == "" then "" else EncodeChar(value[0]) + Encode(value[1..])
  }

  /** The loop of `encode` from a position on. */
  function EncodeLoop(value: string, i: nat, result: string): string
    requires i <= |value|
    decreases |value| - i
  {
    if i == |value| then result else EncodeLoop(value, i + 1, result + EncodeChar(value[i]))
  }

  lemma {:induction false} EncodeLoopIs(value: string, i: nat, result: string)
    requires i <= |value|
    ensures EncodeLoop(value, i, result) == result + Encode(value[i..])
    decreases |value| - i
  {
    if i < |value| {
      EncodeLoopIs(value, i + 1, result + EncodeChar(value[i]));
      assert value[i..][1..] == value[i + 1..];
    }
  }

  method PercentEncode(value: string) returns (result: string)
    ensures result == Encode(value)
  {
    result := "";
    var i := 0;
    while i < |value|
      invariant 0 <= i <= |value|
      invariant EncodeLoop(value, i, result) == EncodeLoop(value, 0, "")
    {
      if value[i] == ' ' {
        result := result + "+";
      } else if Escaped(value[i]) {
        result := result + ("%" + [HexChar(value[i] as int / 16), HexChar(value[i] as int % 16)]);
      } else {
        result := result + [value[i]];
      }
      i := i + 1;
    }
    EncodeLoopIs(value, 0, "");
    assert value[0..] == value;
  }

  /** `strtol` on two characters: blanks, a sign and trailing garbage are all accepted. */
  function TwoHexDigits(a: char, b: char): int {
    if IsHex(a) then (if IsHex(b) then 16 * HexDigit(a) + HexDigit(b) else HexDigit(a))
    else if IsSpace(a) || a == '+' then (if IsHex(b) then HexDigit(b) else 0)
    else if a == '-' then (if IsHex(b) then -(HexDigit(b) as int) else 0)
    else 0
  }

  /** The value of the longest run of hexadecimal digits at the front of `s`, added to `acc` shifted left. */
  function ReadHex(s: string, acc: nat): nat {
    if s == "" || !IsHex(s[0]) then acc else ReadHex(s[1..], 16 * acc + HexDigit(s[0]))
  }

  /** `strtol` in base 16: blanks, an optional sign, then digits. (A prefix `0x` needs a third character.) */
  function Strtol(s: string): int {
    if s == "" then 0
    else if IsSpace(s[0]) then Strtol(s[1..])
    else if s[0] == '-' then -(ReadHex(s[1..], 0) as int)
    else if s[0] == '+' then ReadHex(s[1..], 0)
    else ReadHex(s, 0)
  }

  lemma OneHexDigit(b: char, acc: nat)
    ensures ReadHex([b], acc) == if IsHex(b) then 16 * acc + HexDigit(b) else acc
    ensures acc == 0 ==> Strtol([b]) == ReadHex([b], acc)
  {
    assert [b][1..] == "" && ReadHex("", 0) == 0;
  }

  /** The cast to an 8-bit character. */
  function DecodedChar(a: char, b: char): char {
    (TwoHexDigits(a, b) % 256) as char
  }

  /** Two characters are decoded to what `strtol` gives, as an 8-bit number. */
  lemma TwoHexDigitsAre(a: char, b: char)
    ensures TwoHexDigits(a, b) == Strtol([a, b])
    ensures DecodedChar(a, b) as int < 256 && (Strtol([a, b]) - DecodedChar(a, b) as int) % 256 == 0
  {
    assert [a, b][1..] == [b];
    OneHexDigit(b, 0);
    if IsHex(a) {
      OneHexDigit(b, HexDigit(a));
    }
  }

  /** `Percent::decode`. */
  function Decode(value: string): string {
    if value == "" then ""
    else if value[0] == '%' && |value| > 2 then [DecodedChar(value[1], value[2])] + Decode(value[3..])
    else [if value[0] == '+' then ' ' else value[0]] + Decode(value[1..])
  }

  /** The loop of `decode` from a position on. */
  function DecodeLoop(value: string, i: nat, result: string): string
    requires i <= |value|
    decreases |value| - i
  {
    if i == |value| then result
    else if value[i] == '%' && i + 2 < |value| then
      DecodeLoop(value, i + 3, result + [DecodedChar(value[i + 1], value[i + 2])])
    else DecodeLoop(value, i + 1, result + [if value[i] == '+' then ' ' else value[i]])
  }

  lemma {:induction false} DecodeLoopIs(value: string, i: nat, result: string)
    requires i <= |value|
    ensures DecodeLoop(value, i, result) == result + Decode(value[i..])
    decreases |value| - i
  {
    if i < |value| {
      var rest := value[i..];
      assert rest[1..] == value[i + 1..];
      if value[i] == '%' && i + 2 < |value| {
        assert rest[3..] == value[i + 3..];
        DecodeLoopIs(value, i + 3, result + [DecodedChar(value[i + 1], value[i + 2])]);
      } else {
        DecodeLoopIs(value, i + 1, result + [if value[i] == '+' then ' ' else value[i]]);
      }
    }
  }

  method PercentDecode(value: string) returns (result: string)
    ensures result == Decode(value)
  {
    result := "";
    var i := 0;
    while i < |value|
      invariant 0 <= i <= |value|
      invariant DecodeLoop(value, i, result) == DecodeLoop(value, 0, "")
    {
      if value[i] == '%' && i + 2 < |value| {
        result := result + [DecodedChar(value[i + 1], value[i + 2])];
        i := i + 2;
      } else if value[i] == '+' {
        result := result + [' '];
      } else {
        result := result + [value[i]];
      }
      i := i + 1;
    }
    DecodeLoopIs(value, 0, "");
    assert value[0..] == value;
  }

  const UPPER_HEX := "0123456789ABCDEF"
  const LOWER_HEX := "0123456789abcdef"
  const RESERVED := {'!', '#', '$', '&', '\'', '(', ')', '*', '+', ',', '/', ':', ';', '=', '?', '@', '[', ']',
                     '0', '1', '2', '3', '4', '5', '6', '7', '8', '9'}

  lemma DecodeEscape(a: char, b: char, rest: string)
    ensures Decode("%" + [a, b] + rest) == [DecodedChar(a, b)] + Decode(rest)
  {
    var s := "%" + [a, b] + rest;
    assert s[0] == '%' && s[1] == a && s[2] == b && s[3..] == rest;
  }

  lemma HexDigitIs(d: nat, c: char)
    requires d < 16 && c in {UPPER_HEX[d], LOWER_HEX[d]}
    ensures IsHex(c) && HexDigit(c) == d
  {
  }

  lemma EscapeIs(high: nat, low: nat, a: char, b: char)
    requires high < 16 && low < 16
    requires a in {UPPER_HEX[high], LOWER_HEX[high]} && b in {UPPER_HEX[low], LOWER_HEX[low]}
    ensures DecodedChar(a, b) == (16 * high + low) as char
  {
    HexDigitIs(high, a);
    HexDigitIs(low, b);
  }

  /** A percent sign and two hexadecimal digits, each in either case, stand for the character with this number. */
  lemma EscapeDecodesTo(high: nat, low: nat, a: char, b: char, rest: string)
    requires high < 16 && low < 16
    requires a in {UPPER_HEX[high], LOWER_HEX[high]} && b in {UPPER_HEX[low], LOWER_HEX[low]}
    ensures Decode("%" + [a, b] + rest) == [(16 * high + low) as char] + Decode(rest)
  {
    EscapeIs(high, low, a, b);
    DecodeEscape(a, b, rest);
  }

  lemma HexCharIs(d: nat)
    requires d < 16
    ensures HexChar(d) == UPPER_HEX[d]
  {
  }

  lemma EscapedIs(c: char)
    ensures Escaped(c) <==> c in RESERVED
  {
  }

  /** The characters that are escaped, digits among them; the two digits are those of the character's number. */
  lemma EncodedCharIs(c: char)
    requires c as int < 256
    ensures EncodeChar(c) == if c in RESERVED then "%" + [UPPER_HEX[c as int / 16], UPPER_HEX[c as int % 16]]
                             else if c == ' ' then "+" else [c]
  {
    assert c as int / 16 < 16 && c as int % 16 < 16;
    HexCharIs(c as int / 16);
    HexCharIs(c as int % 16);
    EscapedIs(c);
  }

  /** No percent sign of `v` is followed by two or more characters of encoded text. */
  predicate SurvivesEncoding(v: string) {
    forall i | 0 <= i < |v| && v[i] == '%' :: |Encode(v[i + 1..])| < 2
  }

  lemma EscapeDecodes(c: char)
    requires Escaped(c)
    ensures DecodedChar(HexChar(c as int / 16), HexChar(c as int % 16)) == c
  {
  }

  lemma SurvivesTail(v: string)
    requires v != ""
    ensures SurvivesEncoding(v) <==> SurvivesEncoding(v[1..]) && (v[0] == '%' ==> |Encode(v[1..])| < 2)
  {
    assert forall i | 0 <= i < |v| - 1 :: v[1..][i] == v[i + 1] && v[1..][i + 1..] == v[i + 1 + 1..];
    if SurvivesEncoding(v) {
      forall i | 0 <= i < |v| - 1 && v[1..][i] == '%' ensures |Encode(v[1..][i + 1..])| < 2 {
        assert v[i + 1] == '%';
      }
    }
    if SurvivesEncoding(v[1..]) && (v[0] == '%' ==> |Encode(v[1..])| < 2) {
      forall i | 0 <= i < |v| && v[i] == '%' ensures |Encode(v[i + 1..])| < 2 {
        if i > 0 {
          assert v[1..][i - 1] == '%';
        }
      }
    }
  }

  /** Encoded text is no shorter than what it encodes, so what follows late percent signs is short as well. */
  lemma {:induction false} ShortSurvives(v: string)
    requires |Encode(v)| < 2
    ensures SurvivesEncoding(v)
    decreases |v|
  {
    if v != "" {
      ShortSurvives(v[1..]);
      SurvivesTail(v);
    }
  }

  lemma PercentNeedsDigit(a: char, b: char)
    requires !IsDigit(a)
    ensures DecodedChar(a, b) != '%'
  {
  }

  /** What a raw percent sign followed by encoded text decodes to is never a percent sign: the digit needed for that
      is always escaped. */
  lemma EscapeOfEncoded(v: string)
    requires |Encode(v)| >= 2
    ensures DecodedChar(Encode(v)[0], Encode(v)[1]) != '%'
  {
    assert Encode(v)[0] == EncodeChar(v[0])[0];
    PercentNeedsDigit(Encode(v)[0], Encode(v)[1]);
  }

  lemma DecodeEncodedHead(c: char, e: string)
    requires c != '%' || |e| < 2
    ensures Decode(EncodeChar(c) + e) == [c] + Decode(e)
  {
    var s := EncodeChar(c) + e;
    if c != ' ' && Escaped(c) {
      EscapeDecodes(c);
      assert s[3..] == e;
    } else {
      assert s[1..] == e;
    }
  }

  /** Decoding undoes encoding exactly when every percent sign of the value stands so near its end that the decoder
      does not take it for an escape: `encode` leaves percent signs as they are. */
  lemma {:induction false} DecodeEncodeIff(v: string)
    ensures Decode(Encode(v)) == v <==> SurvivesEncoding(v)
    decreases |v|
  {
    if v != "" {
      var c, rest := v[0], v[1..];
      var e := Encode(rest);
      DecodeEncodeIff(rest);
      SurvivesTail(v);
      assert v == [c] + rest;
      if c != '%' || |e| < 2 {
        DecodeEncodedHead(c, e);
        assert ([c] + Decode(e))[1..] == Decode(e);
        if c == '%' {
          ShortSurvives(rest);
        }
      } else {
        EscapeOfEncoded(rest);
        assert Decode(Encode(v))[0] != '%';
      }
    }
  }

  // --- Query strings ---

  /** A named field, unless the name is empty. */
  function Kept(name: string, value: string): seq<Field> {
    if name == "" then [] else [Field(name, value)]
  }

  /** The field between two positions, not yet decoded: its name ends, and its value starts, at the last `=`. */
  function ReadRange(q: string, lo: nat, hi: nat): seq<Field>
    requires lo <= hi <= |q|
  {
    var i := FindLast(q, '=', lo, hi);
    Kept(q[lo..i], if i < hi then q[i + 1..hi] else "")
  }

  /** The loop of `parse`, a segment at a time, without decoding. */
  function ParseLoop(q: string, pos: nat, raw: seq<Field>): seq<Field>
    requires pos <= |q|
    decreases |q| - pos
  {
    var n := Find(q, '&', pos);
    var raw' := raw + ReadRange(q, pos, n);
    if n < |q| then ParseLoop(q, n + 1, raw') else raw'
  }

  function DecodeValues(raw: seq<Field>): (r: seq<Field>)
    ensures |r| == |raw|
  {
    seq(|raw|, i requires 0 <= i < |raw| => Field(raw[i].name, Decode(raw[i].value)))
  }

  /** What the kept position says: it is the last `=` since `lo`, or unset. */
  ghost predicate LastEquals(q: string, lo: nat, c: nat, nameEndPos: int)
    requires lo <= c <= |q|
  {
    if nameEndPos == -1 then Free(q, '=', lo, c)
    else lo <= nameEndPos < c && q[nameEndPos] == '=' && Free(q, '=', nameEndPos + 1, c)
  }

  lemma RangeEnds(q: string, lo: nat, c: nat, nameEndPos: int)
    requires lo <= c <= |q| && LastEquals(q, lo, c, nameEndPos)
    ensures var name := q[lo..if nameEndPos == -1 then c else nameEndPos];
            var value := if nameEndPos == -1 then "" else q[nameEndPos + 1..c];
            ReadRange(q, lo, c) == Kept(name, value)
  {
    assert FindLast(q, '=', lo, c) == if nameEndPos == -1 then c else nameEndPos;
  }

  lemma ParseLoopStep(q: string, lo: nat, c: nat, raw: seq<Field>)
    requires lo <= c <= |q| && Free(q, '&', lo, c) && (c < |q| ==> q[c] == '&')
    ensures var raw' := raw + ReadRange(q, lo, c);
            ParseLoop(q, lo, raw) == if c < |q| then ParseLoop(q, c + 1, raw') else raw'
  {
    assert Find(q, '&', lo) == c;
  }

  lemma KeptDecodes(raw: seq<Field>, name: string, value: string)
    ensures DecodeValues(raw + Kept(name, value))
         == DecodeValues(raw) + if name == "" then [] else [Field(name, Decode(value))]
  {
  }

  /** The code that runs at the end of a segment; `nameEndPos` and `valuePos` may be unset. */
  method EndSegment(q: string, namePos: nat, c: nat, nameEndPos: int, valuePos: int, fields: seq<Field>,
                    ghost raw: seq<Field>)
      returns (result: seq<Field>, ghost raw': seq<Field>)
    requires namePos <= c <= |q| && Free(q, '&', namePos, c) && (c < |q| ==> q[c] == '&')
    requires LastEquals(q, namePos, c, nameEndPos)
    requires valuePos == if nameEndPos == -1 then -1 else nameEndPos + 1
    requires fields == DecodeValues(raw)
    ensures result == DecodeValues(raw')
    ensures ParseLoop(q, namePos, raw) == if c < |q| then ParseLoop(q, c + 1, raw') else raw'
  {
    RangeEnds(q, namePos, c, nameEndPos);
    ParseLoopStep(q, namePos, c, raw);
    var name := q[namePos..if nameEndPos == -1 then c else nameEndPos];
    var value := if valuePos == -1 || valuePos >= |q| then "" else q[valuePos..c];
    raw' := raw + Kept(name, value);
    KeptDecodes(raw, name, value);
    result := fields;
    if name != "" {
      var decoded := PercentDecode(value);
      result := result + [Field(name, decoded)];
    }
  }

  function Parsed(q: string): seq<Field> {
    DecodeValues(ParseLoop(q, 0, []))
  }

  /** `QueryString::parse`: one pass over the characters that keeps three positions, of which the last two may be
      unset. */
  method Parse(queryString: string) returns (result: seq<Field>)
    ensures result == Parsed(queryString)
  {
    result := [];
    ghost var raw := [];
    var namePos := 0;
    var nameEndPos := -1;
    var valuePos := -1;
    var c := 0;
    while c < |queryString|
      invariant 0 <= namePos <= c <= |queryString| && Free(queryString, '&', namePos, c)
      invariant LastEquals(queryString, namePos, c, nameEndPos)
      invariant valuePos == if nameEndPos == -1 then -1 else nameEndPos + 1
      invariant ParseLoop(queryString, namePos, raw) == ParseLoop(queryString, 0, [])
      invariant result == DecodeValues(raw)
    {
      if queryString[c] == '&' {
        result, raw := EndSegment(queryString, namePos, c, nameEndPos, valuePos, result, raw);
        namePos := c + 1;
        nameEndPos := -1;
        valuePos := -1;
      } else if queryString[c] == '=' {
        nameEndPos := c;
        valuePos := c + 1;
      }
      c := c + 1;
    }
    // An empty last segment is not looked at in the source; it has no name.
    result, raw := EndSegment(queryString, namePos, c, nameEndPos, valuePos, result, raw);
  }

  // --- The simple form ---

  /** The segments between `&` signs. */
  function Split(q: string): seq<string> {
    SplitFrom(q, '&', 0)
  }

  /** A segment is split at its last `=`; one without a name is dropped. */
  function ReadSegment(segment: string): seq<Field> {
    var i := FindLast(segment, '=', 0, |segment|);
    Kept(segment[..i], if i < |segment| then segment[i + 1..] else "")
  }

  /** The fields of the segments, in order, after those in `fields`. */
  function ReadSegments(fields: seq<Field>, segments: seq<string>): seq<Field>
    decreases |segments|
  {
    if segments == [] then fields else ReadSegments(fields + ReadSegment(segments[0]), segments[1..])
  }

  lemma FindLastInRange(q: string, c: char, lo: nat, hi: nat)
    requires lo <= hi <= |q|
    ensures FindLast(q[lo..hi], c, 0, hi - lo) == FindLast(q, c, lo, hi) - lo
  {
    var segment := q[lo..hi];
    assert forall k | 0 <= k < |segment| :: segment[k] == q[lo + k];
  }

  lemma SliceOfSlice(q: string, lo: nat, hi: nat, i: nat)
    requires lo <= i <= hi <= |q|
    ensures q[lo..hi][..i - lo] == q[lo..i]
    ensures i < hi ==> q[lo..hi][i - lo + 1..] == q[i + 1..hi]
  {
  }

  lemma SameParts(q: string, lo: nat, hi: nat, segment: string, i: nat, j: nat)
    requires lo <= i <= hi <= |q| && segment == q[lo..hi] && i == FindLast(q, '=', lo, hi) && j == i - lo
    requires j == FindLast(segment, '=', 0, |segment|)
    ensures ReadRange(q, lo, hi) == ReadSegment(segment)
  {
    SliceOfSlice(q, lo, hi, i);
  }

  lemma RangeIsSegment(q: string, lo: nat, hi: nat)
    requires lo <= hi <= |q|
    ensures ReadRange(q, lo, hi) == ReadSegment(q[lo..hi])
  {
    var i := FindLast(q, '=', lo, hi);
    FindLastInRange(q, '=', lo, hi);
    SameParts(q, lo, hi, q[lo..hi], i, i - lo);
  }

  lemma ReadCons(fields: seq<Field>, segment: string, rest: seq<string>)
    ensures ReadSegments(fields, [segment] + rest) == ReadSegments(fields + ReadSegment(segment), rest)
  {
    assert ([segment] + rest)[1..] == rest;
  }

  /** The first segment adds the same on both sides. */
  lemma LoopReadsFirst(q: string, pos: nat, n: nat, raw: seq<Field>, rest: seq<string>) returns (raw': seq<Field>)
    requires pos <= |q| && n == Find(q, '&', pos)
    ensures ParseLoop(q, pos, raw) == if n < |q| then ParseLoop(q, n + 1, raw') else raw'
    ensures ReadSegments(raw, [q[pos..n]] + rest) == ReadSegments(raw', rest)
  {
    raw' := raw + ReadRange(q, pos, n);
    assert raw' == raw + ReadSegment(q[pos..n]) by {
      RangeIsSegment(q, pos, n);
    }
    ReadCons(raw, q[pos..n], rest);
  }

  lemma {:induction false} LoopReadsSegments(q: string, pos: nat, raw: seq<Field>)
    requires pos <= |q|
    ensures ParseLoop(q, pos, raw) == ReadSegments(raw, SplitFrom(q, '&', pos))
    decreases |q| - pos
  {
    var n := Find(q, '&', pos);
    var rest := if n < |q| then SplitFrom(q, '&', n + 1) else [];
    var raw' := LoopReadsFirst(q, pos, n, raw, rest);
    if n < |q| {
      LoopReadsSegments(q, n + 1, raw');
    }
  }

  /** On every input, the one-pass parser does what the simple form says: split at each `&`, split each segment at its
      last `=`, drop segments without a name, and decode the values. */
  lemma ParsedIsSimple(q: string)
    ensures Parsed(q) == DecodeValues(ReadSegments([], Split(q)))
  {
    LoopReadsSegments(q, 0, []);
  }

  // --- Creating ---

  function Segment(f: Field): string {
    f.name + "=" + Encode(f.value)
  }

  function Segments(fields: seq<Field>): (r: seq<string>)
    ensures |r| == |fields|
  {
    seq(|fields|, i requires 0 <= i < |fields| => Segment(fields[i]))
  }

  /** The segments, joined by `&`. */
  function Joined(segments: seq<string>): string {
    if segments == [] then ""
    else if |segments| == 1 then segments[0]
    else Joined(segments[..|segments| - 1]) + "&" + segments[|segments| - 1]
  }

  /** `QueryString::create`. */
  method Create(fields: seq<Field>) returns (result: string)
    ensures result == Joined(Segments(fields))
  {
    result := "";
    var first := true;
    var i := 0;
    while i < |fields|
      invariant 0 <= i <= |fields| && first == (i == 0)
      invariant result == Joined(Segments(fields)[..i])
    {
      var encoded := PercentEncode(fields[i].value);
      var segment := fields[i].name + "=" + encoded;
      assert Segments(fields)[..i + 1][..i] == Segments(fields)[..i];
      assert Segments(fields)[..i + 1][i] == segment;
      result := if first then segment else result + "&" + segment;
      first := false;
      i := i + 1;
    }
    assert Segments(fields)[..i] == Segments(fields);
  }

  lemma {:induction false} EncodedIsClean(v: string)
    ensures Free(Encode(v), '&', 0, |Encode(v)|) && Free(Encode(v), '=', 0, |Encode(v)|)
  {
    if v != "" {
      EncodedIsClean(v[1..]);
    }
  }

  /** A name the format can carry. A name may contain `=`, since encoded values never do. */
  predicate GoodName(name: string) {
    name != "" && Free(name, '&', 0, |name|)
  }

  lemma SegmentReadsBack(f: Field)
    requires GoodName(f.name)
    ensures Free(Segment(f), '&', 0, |Segment(f)|)
    ensures ReadSegment(Segment(f)) == [Field(f.name, Encode(f.value))]
  {
    var e, segment := Encode(f.value), Segment(f);
    EncodedIsClean(f.value);
    assert segment[|f.name|] == '=';
    assert forall k | |f.name| < k < |segment| :: segment[k] == e[k - |f.name| - 1];
    assert FindLast(segment, '=', 0, |segment|) == |f.name|;
    assert segment[|f.name| + 1..] == e && segment[..|f.name|] == f.name;
  }

  lemma {:induction false} JoinedFront(segments: seq<string>)
    requires |segments| > 1
    ensures Joined(segments) == segments[0] + "&" + Joined(segments[1..])
  {
    var n := |segments|;
    var init, last := segments[..n - 1], segments[n - 1];
    if n > 2 {
      JoinedFront(init);
      assert segments[1..][..n - 2] == init[1..];
      assert Joined(segments[1..]) == Joined(init[1..]) + "&" + last;
      assert (segments[0] + "&" + Joined(init[1..])) + "&" + last
          == segments[0] + "&" + (Joined(init[1..]) + "&" + last);
    }
  }

  lemma {:induction false} JoinedIsGlued(segments: seq<string>)
    ensures Joined(segments) == Glued(segments, '&')
  {
    if |segments| > 1 {
      JoinedFront(segments);
      JoinedIsGlued(segments[1..]);
    }
  }

  /** Splitting undoes joining, as there is only one way to cut a text. */
  lemma SplitJoined(segments: seq<string>)
    requires segments != [] && AllClean(segments, '&')
    ensures Split(Joined(segments)) == segments
  {
    var q := Joined(segments);
    JoinedIsGlued(segments);
    SplitIsCut(q, '&', 0);
    assert q[0..] == q;
    CutIsUnique(Split(q), segments, q, '&');
  }

  function EncodedFields(fields: seq<Field>): (r: seq<Field>)
    ensures |r| == |fields|
  {
    seq(|fields|, i requires 0 <= i < |fields| => Field(fields[i].name, Encode(fields[i].value)))
  }

  lemma SegmentsFront(fields: seq<Field>)
    requires fields != []
    ensures Segments(fields) == [Segment(fields[0])] + Segments(fields[1..])
    ensures EncodedFields(fields) == [Field(fields[0].name, Encode(fields[0].value))] + EncodedFields(fields[1..])
  {
  }

  lemma FirstReadsBack(before: seq<Field>, fields: seq<Field>) returns (before': seq<Field>)
    requires fields != [] && GoodName(fields[0].name)
    ensures ReadSegments(before, Segments(fields)) == ReadSegments(before', Segments(fields[1..]))
    ensures before + EncodedFields(fields) == before' + EncodedFields(fields[1..])
  {
    before' := before + [Field(fields[0].name, Encode(fields[0].value))];
    SegmentReadsBack(fields[0]);
    SegmentsFront(fields);
    ReadCons(before, Segment(fields[0]), Segments(fields[1..]));
  }

  lemma {:induction false} SegmentsReadBack(before: seq<Field>, fields: seq<Field>)
    requires forall i | 0 <= i < |fields| :: GoodName(fields[i].name)
    ensures ReadSegments(before, Segments(fields)) == before + EncodedFields(fields)
    decreases |fields|
  {
    if fields != [] {
      var before' := FirstReadsBack(before, fields);
      SegmentsReadBack(before', fields[1..]);
    }
  }

  lemma CreatedReadsBack(fields: seq<Field>)
    requires forall i | 0 <= i < |fields| :: GoodName(fields[i].name)
    ensures ReadSegments([], Split(Joined(Segments(fields)))) == EncodedFields(fields)
  {
    if fields == [] {
      assert Split("") == [""];
      assert ReadSegment("") == [];
    } else {
      forall i | 0 <= i < |fields| ensures Free(Segment(fields[i]), '&', 0, |Segment(fields[i])|) {
        SegmentReadsBack(fields[i]);
      }
      SplitJoined(Segments(fields));
      SegmentsReadBack([], fields);
    }
  }

  lemma {:induction false} ReadNamesAreGood(fields: seq<Field>, segments: seq<string>)
    requires forall i | 0 <= i < |segments| :: Free(segments[i], '&', 0, |segments[i]|)
    requires forall f | f in fields :: GoodName(f.name)
    ensures forall f | f in ReadSegments(fields, segments) :: GoodName(f.name)
    decreases |segments|
  {
    if segments != [] {
      assert forall f | f in ReadSegment(segments[0]) :: GoodName(f.name);
      ReadNamesAreGood(fields + ReadSegment(segments[0]), segments[1..]);
    }
  }

  /** Parsing a created query string gives back the fields in order exactly when every name is non-empty and has no `&`
      and every value survives encoding. */
  lemma QueryRoundTripIff(fields: seq<Field>)
    ensures Parsed(Joined(Segments(fields))) == fields
       <==> forall i | 0 <= i < |fields| :: GoodName(fields[i].name) && SurvivesEncoding(fields[i].value)
  {
    var q := Joined(Segments(fields));
    ParsedIsSimple(q);
    var read := ReadSegments([], Split(q));
    SplitIsCut(q, '&', 0);
    ReadNamesAreGood([], Split(q));
    assert forall i | 0 <= i < |read| :: read[i] in read;
    assert Parsed(q) == fields ==> forall i | 0 <= i < |fields| :: GoodName(Parsed(q)[i].name);
    if forall i | 0 <= i < |fields| :: GoodName(fields[i].name) {
      CreatedReadsBack(fields);
      forall i | 0 <= i < |fields| ensures Parsed(q)[i] == fields[i] <==> SurvivesEncoding(fields[i].value) {
        DecodeEncodeIff(fields[i].value);
      }
    }
  }
}
