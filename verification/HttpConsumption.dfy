/** How much of the buffer the head parser takes, and the heads it reads back whole. */
module HttpConsumption {
  import opened Wrappers
  import opened Strings
  import opened HttpHead

  // ---- Consumption ---------------------------------------------------------------------------------

  /** The lines in front of the delimiter. */
  function LinesBefore(buf: string): seq<string>
    requires DelimEnd(buf).Some?
  {
    Split(buf[..DelimEnd(buf).value - 4], '\n')
  }

  predicate HasColons(lines: seq<string>) { forall l <- lines :: ':' in l }

  lemma {:induction false} SplitNoBreak(s: string, c: char)
    requires forall i :: 0 <= i < |s| ==> s[i] != c
    ensures Split(s, c) == [s]
  {
    SplitSingle(s, c);
  }

  lemma SplitAtBreak(s: string, c: char)
    requires Find(s, c) < |s|
    ensures var k := Find(s, c); Split(s, c) == [s[..k]] + Split(s[k + 1..], c)
  {
    var k := Find(s, c);
    assert s == s[..k] + [c] + s[k + 1..];
    SplitFirst(s[..k], c, s[k + 1..]);
  }

  lemma LastLine(buf: string, k: nat)
    requires 0 < k == Find(buf, '\n') < |buf|
    ensures Split(buf[..k - 1], '\n') == [LineOf(buf)[..k - 1]]
  {
    assert buf[..k - 1] == LineOf(buf)[..k - 1];
    SplitNoBreak(buf[..k - 1], '\n');
  }

  lemma PrefixPieces(buf: string, k: nat, d: nat)
    requires k + 1 + d <= |buf|
    ensures var head := buf[..k + 1 + d];
            && head[..k] == buf[..k] && head[k] == buf[k] && head[k + 1..] == buf[k + 1..][..d]
            && forall i :: 0 <= i < k ==> head[i] == buf[i]
  {}

  lemma LinesSplit(buf: string, k: nat, d: nat)
    requires k == Find(buf, '\n') < |buf| && k + 1 + d <= |buf|
    ensures Split(buf[..k + 1 + d], '\n') == [LineOf(buf)] + Split(RestOf(buf)[..d], '\n')
  {
    var head := buf[..k + 1 + d];
    PrefixPieces(buf, k, d);
    FirstIs(head, '\n', k);
    SplitAtBreak(head, '\n');
  }

  /** The lines in front of the delimiter: this one, and those in front of it in the rest. */
  lemma LinesBeforeStep(buf: string)
    requires DelimEnd(buf).Some? && Find(buf, '\n') < |buf|
    ensures var line, rest := LineOf(buf), RestOf(buf);
            if DelimiterHere(line, rest) then LinesBefore(buf) == [line[..|line| - 1]]
            else DelimEnd(rest).Some? && LinesBefore(buf) == [line] + LinesBefore(rest)
  {
    DelimThroughLine(buf);
    if DelimiterHere(LineOf(buf), RestOf(buf)) {
      LastLine(buf, |LineOf(buf)|);
    } else {
      LinesSplit(buf, |LineOf(buf)|, DelimEnd(RestOf(buf)).value - 4);
    }
  }

  lemma {:induction false} BlankIsConsumed(rest: string)
    requires BlankAhead(rest) && |rest| >= 2 && rest[0] == '\r' && rest[1] == '\n'
    ensures HeaderFields(rest) == ([], rest[2..])
  {
    FirstIs(rest, '\n', 1);
    assert LineOf(rest) == [rest[0]];
  }

  lemma HasColonsFirst(line: string, more: seq<string>)
    ensures HasColons([line] + more) <==> ':' in line && HasColons(more)
  {
    assert ([line] + more)[0] == line && ([line] + more)[1..] == more;
    assert forall l :: l in more ==> l in [line] + more;
  }

  /** The header lines are taken exactly up to the delimiter. */
  predicate Exact(buf: string)
    requires DelimEnd(buf).Some? && BlankAhead(buf)
  {
    HeaderFields(buf).1 == buf[DelimEnd(buf).value..]
  }

  lemma ColonBeforeReturn(line: string)
    ensures line != "" && line[|line| - 1] == '\r' ==> (':' in line <==> ':' in line[..|line| - 1])
  {
    if line != "" && line[|line| - 1] == '\r' {
      assert line == line[..|line| - 1] + ['\r'];
    }
  }

  /** A line without a colon ends the headers in front of the delimiter. */
  lemma StopsEarly(buf: string)
    requires DelimEnd(buf).Some? && BlankAhead(buf) && ':' !in LineOf(buf)
    ensures |HeaderFields(buf).1| > |buf| - DelimEnd(buf).value && !Exact(buf) && !HasColons(LinesBefore(buf))
  {
    var line, rest := LineOf(buf), RestOf(buf);
    DelimThroughLine(buf);
    LinesBeforeStep(buf);
    ColonBeforeReturn(line);
    var first := LinesBefore(buf)[0];
    assert first in LinesBefore(buf);
    assert |HeaderFields(buf).1| == |buf| - |line| - 1;
  }

  /** The last header line. */
  lemma StopsHere(buf: string)
    requires DelimEnd(buf).Some? && BlankAhead(buf) && ':' in LineOf(buf) && DelimiterHere(LineOf(buf), RestOf(buf))
    ensures Exact(buf) && HasColons(LinesBefore(buf))
  {
    var line, rest := LineOf(buf), RestOf(buf);
    DelimThroughLine(buf);
    LinesBeforeStep(buf);
    ColonBeforeReturn(line);
    BlankIsConsumed(rest);
    assert rest[2..] == buf[DelimEnd(buf).value..];
  }

  lemma RestBehind(buf: string, d: nat)
    requires Find(buf, '\n') < |buf| && d <= |RestOf(buf)|
    ensures |LineOf(buf)| + 1 + d <= |buf| && RestOf(buf)[d..] == buf[|LineOf(buf)| + 1 + d..]
  {}

  /** What is behind the delimiter is behind it in the rest, too. */
  lemma SameBehind(buf: string)
    requires DelimEnd(buf).Some? && Find(buf, '\n') < |buf| && !DelimiterHere(LineOf(buf), RestOf(buf))
    ensures var rest := RestOf(buf); DelimEnd(rest).Some? && rest[DelimEnd(rest).value..] == buf[DelimEnd(buf).value..]
  {
    DelimLater(buf);
    RestBehind(buf, DelimEnd(RestOf(buf)).value);
  }

  lemma GoesOn(buf: string)
    requires DelimEnd(buf).Some? && BlankAhead(buf) && ':' in LineOf(buf) && !DelimiterHere(LineOf(buf), RestOf(buf))
    ensures var rest := RestOf(buf);
            && DelimEnd(rest).Some? && BlankAhead(rest) && |rest| < |buf|
            && HeaderFields(buf).1 == HeaderFields(rest).1
            && rest[DelimEnd(rest).value..] == buf[DelimEnd(buf).value..]
            && (HasColons(LinesBefore(buf)) <==> HasColons(LinesBefore(rest)))
  {
    LinesBeforeStep(buf);
    DelimiterMeansBlank(buf);
    SameBehind(buf);
    HasColonsFirst(LineOf(buf), LinesBefore(RestOf(buf)));
  }

  /**
   * The header lines are taken up to the delimiter exactly if each of them has a colon; a line without one
   * ends the headers early.
   */
  lemma {:induction false} FieldsConsume(buf: string)
    requires DelimEnd(buf).Some? && BlankAhead(buf)
    ensures |HeaderFields(buf).1| >= |buf| - DelimEnd(buf).value
    ensures Exact(buf) <==> HasColons(LinesBefore(buf))
    decreases |buf|
  {
    if ':' !in LineOf(buf) {
      StopsEarly(buf);
    } else if DelimiterHere(LineOf(buf), RestOf(buf)) {
      StopsHere(buf);
    } else {
      GoesOn(buf);
      FieldsConsume(RestOf(buf));
    }
  }

  /** The header lines of a request: everything in front of the delimiter but the request line. */
  function HeaderLines(buf: string): seq<string>
    requires DelimEnd(buf).Some?
  {
    LinesBefore(buf)[1..]
  }

  /**
   * A request that is accepted has been taken out of the buffer exactly up to its delimiter if and only if
   * every header line has a colon; never is more taken.
   */
  lemma ConsumesThroughDelimiter(buf: string)
    requires DelimEnd(buf).Some?
    ensures ParseHead(buf).Head? ==>
              && |ParseHead(buf).rest| >= |buf| - DelimEnd(buf).value
              && (ParseHead(buf).rest == buf[DelimEnd(buf).value..] <==> HasColons(HeaderLines(buf)))
  {
    DelimiterMeansBlank(buf);
    DelimThroughLine(buf);
    LinesBeforeStep(buf);
    var line, rest := LineOf(buf), RestOf(buf);
    if DelimiterHere(line, rest) {
      BlankIsConsumed(rest);
      assert rest[2..] == buf[DelimEnd(buf).value..];
    } else {
      FieldsConsume(rest);
      assert rest[DelimEnd(rest).value..] == buf[DelimEnd(buf).value..];
      assert LinesBefore(buf)[1..] == LinesBefore(rest);
    }
  }

  // ---- Printed heads -------------------------------------------------------------------------------

  function PrintField(h: Header): string { h.0 + ": " + h.1 + "\r" }

  function PrintFields(headers: seq<Header>): string {
    if headers == [] then "\r\n" else PrintField(headers[0]) + "\n" + PrintFields(headers[1..])
  }

  function PrintRequestLine(verb: string, path: string, version: string): string {
    verb + " " + (path + " " + ("HTTP/" + version + "\r"))
  }

  function PrintHead(verb: string, path: string, version: string, headers: seq<Header>): string {
    PrintRequestLine(verb, path, version) + "\n" + PrintFields(headers)
  }

  predicate NoChar(c: char, s: string) { forall i :: 0 <= i < |s| ==> s[i] != c }

  predicate GoodHeader(h: Header) { NoChar('\n', h.0) && NoChar(':', h.0) && NoChar('\n', h.1) }

  predicate GoodHeaders(hs: seq<Header>) { hs == [] || (GoodHeader(hs[0]) && GoodHeaders(hs[1..])) }

  lemma FirstOver(a: string, c: char, b: string)
    requires NoChar(c, a)
    ensures var s := a + [c] + b; Find(s, c) == |a| && s[..|a|] == a && s[|a| + 1..] == b
  {
    FirstIs(a + [c] + b, c, |a|);
  }

  lemma FieldReadBack(h: Header)
    requires GoodHeader(h)
    ensures |PrintField(h)| >= 2 && FieldOf(PrintField(h)) == [h] && NoChar('\n', PrintField(h)) && ':' in PrintField(h)
  {
    var line := PrintField(h);
    assert line == h.0 + [':'] + (" " + h.1 + "\r");
    FirstOver(h.0, ':', " " + h.1 + "\r");
    var p := |h.0|;
    assert line[p] == ':' && line[p + 1] == ' ' && line[p + 2..|line| - 1] == h.1;
  }

  /** A header line by what follows its colon: a value, behind one space or none, ends before the last character. */
  lemma FieldForms(name: string, rest: string)
    requires NoChar(':', name)
    ensures FieldOf(name + [':'] + rest) ==
            if rest == "" || rest == " " then []
            else if rest[0] == ' ' then [(name, rest[1..|rest| - 1])]
            else [(name, rest[..|rest| - 1])]
  {
    var line := name + [':'] + rest;
    FirstOver(name, ':', rest);
    var p := |name|;
    assert rest != "" ==> line[p + 1] == rest[0] && line[p + 1..|line| - 1] == rest[..|rest| - 1];
    assert |rest| > 1 ==> line[p + 2..|line| - 1] == rest[1..|rest| - 1];
  }

  lemma FieldsEnd(body: string)
    ensures LineOf("\r\n" + body) == "\r" && RestOf("\r\n" + body) == body && BlankAhead("\r\n" + body)
    ensures HeaderFields("\r\n" + body) == ([], body)
  {
    assert "\r\n" + body == "\r" + ['\n'] + body;
    FirstOver("\r", '\n', body);
  }

  lemma FieldsStep(line: string, more: string)
    requires NoChar('\n', line) && ':' in line && BlankAhead(more)
    ensures var buf := line + ['\n'] + more;
            && BlankAhead(buf)
            && HeaderFields(buf) == (FieldOf(line) + HeaderFields(more).0, HeaderFields(more).1)
  {
    FirstOver(line, '\n', more);
  }

  lemma Glue(field: string, more: string, body: string)
    ensures (field + "\n" + more) + body == field + ['\n'] + (more + body)
  {}

  lemma FieldsSplit(headers: seq<Header>, body: string)
    requires headers != []
    ensures PrintFields(headers) + body == PrintField(headers[0]) + ['\n'] + (PrintFields(headers[1..]) + body)
    ensures [headers[0]] + headers[1..] == headers
  {
    Glue(PrintField(headers[0]), PrintFields(headers[1..]), body);
  }

  lemma {:induction false} FieldsReadBack(headers: seq<Header>, body: string)
    requires GoodHeaders(headers)
    ensures BlankAhead(PrintFields(headers) + body)
    ensures HeaderFields(PrintFields(headers) + body) == (headers, body)
  {
    if headers == [] {
      FieldsEnd(body);
    } else {
      FieldReadBack(headers[0]);
      FieldsReadBack(headers[1..], body);
      FieldsStep(PrintField(headers[0]), PrintFields(headers[1..]) + body);
      FieldsSplit(headers, body);
    }
  }

  lemma VersionReadBack(version: string)
    ensures VersionOf("HTTP/" + version + "\r") == Some(version)
  {
    var protocol := "HTTP/" + version + "\r";
    assert protocol == "HTTP" + ['/'] + (version + "\r");
    FirstOver("HTTP", '/', version + "\r");
    assert protocol[5..|protocol| - 1] == version;
  }

  lemma ThreeParts(verb: string, path: string, protocol: string)
    requires NoChar(' ', verb) && NoChar(' ', path) && VersionOf(protocol).Some?
    ensures RequestLine(verb + " " + (path + " " + protocol)) == Some((verb, path, VersionOf(protocol).value))
  {
    FirstOver(verb, ' ', path + " " + protocol);
    FirstOver(path, ' ', protocol);
  }

  lemma RequestLineReadBack(verb: string, path: string, version: string)
    requires NoChar(' ', verb) && NoChar(' ', path)
    ensures RequestLine(PrintRequestLine(verb, path, version)) == Some((verb, path, version))
  {
    VersionReadBack(version);
    ThreeParts(verb, path, "HTTP/" + version + "\r");
  }

  lemma LineAndRest(line: string, rest: string)
    requires NoChar('\n', line)
    ensures var buf := line + ['\n'] + rest; LineOf(buf) == line && RestOf(buf) == rest && Find(buf, '\n') < |buf|
  {
    FirstOver(line, '\n', rest);
  }

  lemma DelimEnds(line: string, body: string)
    requires NoChar('\n', line) && line != "" && line[|line| - 1] == '\r'
    ensures DelimEnd(line + ['\n'] + ("\r\n" + body)) == Some(|line| + 3)
  {
    var rest := "\r\n" + body;
    FirstOver(line, '\n', rest);
    DelimThroughLine(line + ['\n'] + rest);
  }

  lemma BreakAt(s: string, c: char)
    requires Find(s, c) < |s|
    ensures s == s[..Find(s, c)] + [c] + s[Find(s, c) + 1..] && NoChar(c, s[..Find(s, c)])
  {}

  lemma ProtocolParts(protocol: string) returns (version: string)
    requires VersionOf(protocol).Some?
    ensures protocol == "HTTP/" + version
  {
    version := protocol[Find(protocol, '/') + 1..];
    BreakAt(protocol, '/');
    assert "HTTP" + ['/'] + version == "HTTP/" + version;
  }

  lemma LineParts(line: string) returns (verb: string, path: string, version: string)
    requires RequestLine(line).Some?
    ensures NoChar(' ', verb) && NoChar(' ', path) && line == verb + " " + (path + " " + ("HTTP/" + version))
  {
    verb := line[..Find(line, ' ')];
    var afterVerb := line[Find(line, ' ') + 1..];
    path := afterVerb[..Find(afterVerb, ' ')];
    var protocol := afterVerb[Find(afterVerb, ' ') + 1..];
    BreakAt(line, ' ');
    BreakAt(afterVerb, ' ');
    version := ProtocolParts(protocol);
  }

  lemma AcceptedLine(verb: string, path: string, version: string)
    requires NoChar(' ', verb) && NoChar(' ', path)
    ensures RequestLine(verb + " " + (path + " " + ("HTTP/" + version))).Some?
  {
    assert "HTTP/" + version == "HTTP" + ['/'] + version;
    FirstOver("HTTP", '/', version);
    ThreeParts(verb, path, "HTTP/" + version);
  }

  /** The request lines that are accepted are exactly those of three parts with an HTTP/ protocol. */
  lemma RequestLineExactly(line: string)
    ensures RequestLine(line).Some? <==>
            exists verb, path, version ::
              NoChar(' ', verb) && NoChar(' ', path) && line == verb + " " + (path + " " + ("HTTP/" + version))
  {
    if RequestLine(line).Some? {
      var verb, path, version := LineParts(line);
    }
    if verb, path, version :|
      NoChar(' ', verb) && NoChar(' ', path) && line == verb + " " + (path + " " + ("HTTP/" + version))
    {
      AcceptedLine(verb, path, version);
    }
  }

  /** A version and the character behind it, which may be missing only with the version. */
  predicate VersionText(text: string, version: string) {
    (text == "" && version == "") || (text != "" && text[..|text| - 1] == version)
  }

  lemma VersionBehind(text: string)
    ensures var v := VersionOf("HTTP/" + text); v.Some? && VersionText(text, v.value)
  {
    var protocol := "HTTP/" + text;
    assert protocol == "HTTP" + ['/'] + text;
    FirstOver("HTTP", '/', text);
    assert text != "" ==> protocol[5..|protocol| - 1] == text[..|text| - 1];
  }

  lemma LineGives(verb: string, path: string, text: string)
    requires NoChar(' ', verb) && NoChar(' ', path)
    ensures var r := RequestLine(verb + " " + (path + " " + ("HTTP/" + text)));
            r.Some? && r.value.0 == verb && r.value.1 == path && VersionText(text, r.value.2)
  {
    VersionBehind(text);
    ThreeParts(verb, path, "HTTP/" + text);
  }

  /** What is taken from a request line: the words in front of HTTP/, and behind it all but the last character. */
  lemma RequestLineGives(line: string, verb: string, path: string, version: string)
    ensures RequestLine(line) == Some((verb, path, version)) <==>
            && NoChar(' ', verb) && NoChar(' ', path)
            && exists text :: VersionText(text, version) && line == verb + " " + (path + " " + ("HTTP/" + text))
  {
    if RequestLine(line) == Some((verb, path, version)) {
      var verb', path', text := LineParts(line);
      LineGives(verb', path', text);
    }
    if text :| VersionText(text, version) && line == verb + " " + (path + " " + ("HTTP/" + text)) {
      if NoChar(' ', verb) && NoChar(' ', path) {
        LineGives(verb, path, text);
      }
    }
  }

  /** A line that is not the last one in front of the delimiter. */
  lemma DelimBehindLine(buf: string)
    requires Find(buf, '\n') < |buf| && |RestOf(buf)| >= 2 && RestOf(buf)[1] != '\n' && DelimEnd(RestOf(buf)).Some?
    ensures DelimEnd(buf) == Some(|LineOf(buf)| + 1 + DelimEnd(RestOf(buf)).value)
  {
    DelimLater(buf);
  }

  lemma DelimStep(line: string, rest: string)
    requires NoChar('\n', line) && |rest| >= 2 && rest[1] != '\n' && DelimEnd(rest).Some?
    ensures DelimEnd(line + ['\n'] + rest) == Some(|line| + 1 + DelimEnd(rest).value)
  {
    LineAndRest(line, rest);
    DelimBehindLine(line + ['\n'] + rest);
  }

  lemma FieldsSecondChar(headers: seq<Header>, body: string)
    requires headers != [] && GoodHeader(headers[0])
    ensures var rest := PrintFields(headers) + body; |rest| >= 2 && rest[1] != '\n'
  {
    FieldReadBack(headers[0]);
    FieldsSplit(headers, body);
    var field := PrintField(headers[0]);
    assert (field + ['\n'] + (PrintFields(headers[1..]) + body))[1] == field[1];
  }

  lemma FieldsLength(headers: seq<Header>)
    requires headers != []
    ensures |PrintFields(headers)| == |PrintField(headers[0])| + 1 + |PrintFields(headers[1..])|
  {}

  lemma {:induction false} DelimAfterFields(headers: seq<Header>, line: string, body: string)
    requires GoodHeaders(headers) && NoChar('\n', line) && line != "" && line[|line| - 1] == '\r'
    ensures DelimEnd(line + ['\n'] + (PrintFields(headers) + body)) == Some(|line| + 1 + |PrintFields(headers)|)
    decreases |headers|
  {
    if headers == [] {
      DelimEnds(line, body);
    } else {
      DelimAfterFields(headers[1..], PrintField(headers[0]), body);
      FieldReadBack(headers[0]);
      FieldsSplit(headers, body);
      FieldsLength(headers);
      FieldsSecondChar(headers, body);
      DelimStep(line, PrintFields(headers) + body);
    }
  }

  predicate GoodRequest(verb: string, path: string, version: string, headers: seq<Header>) {
    && NoChar('\n', verb) && NoChar(' ', verb) && NoChar('\n', path) && NoChar(' ', path)
    && NoChar('\n', version) && GoodHeaders(headers)
  }

  lemma HeadDelim(line: string, headers: seq<Header>, body: string)
    requires GoodHeaders(headers) && NoChar('\n', line) && line != "" && line[|line| - 1] == '\r'
    ensures DelimEnd(line + ['\n'] + (PrintFields(headers) + body)) == Some(|line + "\n" + PrintFields(headers)|)
  {
    DelimAfterFields(headers, line, body);
  }

  lemma HeadSplit(line: string, headers: seq<Header>, body: string)
    ensures (line + "\n" + PrintFields(headers)) + body == line + ['\n'] + (PrintFields(headers) + body)
  {}

  /** A head is parsed line by line. */
  lemma ParseLines(line: string, parts: (string, string, string), rest: string)
    requires NoChar('\n', line) && RequestLine(line) == Some(parts) && BlankAhead(rest)
    requires DelimEnd(line + ['\n'] + rest).Some?
    ensures ParseHead(line + ['\n'] + rest) ==
            Head(parts.0, parts.1, parts.2, HeaderFields(rest).0, HeaderFields(rest).1)
  {
    LineAndRest(line, rest);
  }

  lemma ParseInFront(line: string, parts: (string, string, string), rest: string, headers: seq<Header>, after: string)
    requires NoChar('\n', line) && RequestLine(line) == Some(parts) && DelimEnd(line + ['\n'] + rest).Some?
    requires BlankAhead(rest) && HeaderFields(rest) == (headers, after)
    ensures ParseHead(line + ['\n'] + rest) == Head(parts.0, parts.1, parts.2, headers, after)
  {
    ParseLines(line, parts, rest);
  }

  lemma ParseReadBack(line: string, parts: (string, string, string), headers: seq<Header>, body: string)
    requires NoChar('\n', line) && RequestLine(line) == Some(parts) && GoodHeaders(headers)
    requires DelimEnd(line + ['\n'] + (PrintFields(headers) + body)).Some?
    ensures ParseHead(line + ['\n'] + (PrintFields(headers) + body)) == Head(parts.0, parts.1, parts.2, headers, body)
  {
    FieldsReadBack(headers, body);
    ParseInFront(line, parts, PrintFields(headers) + body, headers, body);
  }

  lemma RequestLineEnds(verb: string, path: string, version: string)
    requires NoChar('\n', verb) && NoChar('\n', path) && NoChar('\n', version)
    ensures var line := PrintRequestLine(verb, path, version);
            NoChar('\n', line) && line != "" && line[|line| - 1] == '\r'
  {}

  /**
   * A printed head is read back with its method, path, version and headers, in order, and exactly its own
   * bytes, which end with the first delimiter, are taken out of the buffer.
   */
  lemma HeadReadBack(verb: string, path: string, version: string, headers: seq<Header>, body: string)
    requires GoodRequest(verb, path, version, headers)
    ensures var head := PrintHead(verb, path, version, headers);
            && DelimEnd(head + body) == Some(|head|)
            && ParseHead(head + body) == Head(verb, path, version, headers, body)
  {
    var line := PrintRequestLine(verb, path, version);
    HeadSplit(line, headers, body);
    RequestLineEnds(verb, path, version);
    HeadDelim(line, headers, body);
    RequestLineReadBack(verb, path, version);
    ParseReadBack(line, (verb, path, version), headers, body);
  }

  // ---- A header line without a colon ----------------------------------------------------------------

  /** A line without a colon. */
  predicate Stray(line: string) {
    NoChar('\n', line) && ':' !in line && line != "" && line[|line| - 1] == '\r'
  }

  /** Header fields, a last header line of any kind, the empty line and what is behind it. */
  function PrintStray(headers: seq<Header>, line: string, body: string): string {
    if headers == [] then line + ['\n'] + ("\r\n" + body)
    else PrintField(headers[0]) + ['\n'] + PrintStray(headers[1..], line, body)
  }

  lemma StrayAlone(line: string, body: string)
    requires Stray(line)
    ensures var buf := line + ['\n'] + ("\r\n" + body);
            BlankAhead(buf) && HeaderFields(buf) == ([], "\r\n" + body) && DelimEnd(buf) == Some(|line| + 3)
  {
    LineAndRest(line, "\r\n" + body);
    FieldsEnd(body);
    DelimEnds(line, body);
  }

  lemma {:induction false} StraySecondChar(headers: seq<Header>, line: string, body: string)
    requires Stray(line) && GoodHeaders(headers)
    ensures var rest := PrintStray(headers, line, body);
            |rest| >= 2 && (|line| > 1 || headers != [] ==> rest[1] != '\n')
  {
    if headers != [] {
      FieldReadBack(headers[0]);
    }
  }

  /** The fields are read, and the empty line, which the delimiter counts, is left in front of the body. */
  predicate LeavesTwo(buf: string, headers: seq<Header>, body: string) {
    BlankAhead(buf) && HeaderFields(buf) == (headers, "\r\n" + body) && DelimEnd(buf) == Some(|buf| - |body|)
  }

  lemma StrayFields(buf: string, h: Header, headers: seq<Header>, after: string)
    requires Find(buf, '\n') < |buf| && FieldOf(LineOf(buf)) == [h] && ':' in LineOf(buf)
    requires BlankAhead(RestOf(buf)) && HeaderFields(RestOf(buf)) == (headers, after)
    ensures BlankAhead(buf) && HeaderFields(buf) == ([h] + headers, after)
  {}

  lemma LineLength(buf: string)
    requires Find(buf, '\n') < |buf|
    ensures |buf| == |LineOf(buf)| + 1 + |RestOf(buf)|
  {}

  lemma StrayDelim(buf: string, body: string)
    requires Find(buf, '\n') < |buf| && |RestOf(buf)| >= 2 && RestOf(buf)[1] != '\n'
    requires DelimEnd(RestOf(buf)) == Some(|RestOf(buf)| - |body|)
    ensures DelimEnd(buf) == Some(|buf| - |body|)
  {
    DelimBehindLine(buf);
    LineLength(buf);
  }

  lemma StrayStep(buf: string, h: Header, headers: seq<Header>, body: string)
    requires Find(buf, '\n') < |buf| && FieldOf(LineOf(buf)) == [h] && ':' in LineOf(buf)
    requires LeavesTwo(RestOf(buf), headers, body) && |RestOf(buf)| >= 2 && RestOf(buf)[1] != '\n'
    ensures LeavesTwo(buf, [h] + headers, body)
  {
    StrayDelim(buf, body);
    StrayFields(buf, h, headers, "\r\n" + body);
  }

  /** The same, for a field in front of a text with these properties. */
  lemma StrayField(h: Header, more: string, headers: seq<Header>, body: string)
    requires GoodHeader(h) && LeavesTwo(more, headers, body) && |more| >= 2 && more[1] != '\n'
    ensures LeavesTwo(PrintField(h) + ['\n'] + more, [h] + headers, body)
  {
    FieldReadBack(h);
    LineAndRest(PrintField(h), more);
    StrayStep(PrintField(h) + ['\n'] + more, h, headers, body);
  }

  lemma StrayLast(line: string, body: string)
    requires Stray(line) && |line| > 1
    ensures LeavesTwo(PrintStray([], line, body), [], body)
  {
    StrayAlone(line, body);
  }

  lemma StrayCons(headers: seq<Header>, line: string, body: string)
    requires headers != [] && Stray(line) && |line| > 1 && GoodHeaders(headers)
    requires LeavesTwo(PrintStray(headers[1..], line, body), headers[1..], body)
    ensures LeavesTwo(PrintStray(headers, line, body), [headers[0]] + headers[1..], body)
  {
    StraySecondChar(headers[1..], line, body);
    StrayField(headers[0], PrintStray(headers[1..], line, body), headers[1..], body);
  }

  lemma {:induction false} StrayReadBack(headers: seq<Header>, line: string, body: string)
    requires Stray(line) && |line| > 1 && GoodHeaders(headers)
    ensures LeavesTwo(PrintStray(headers, line, body), headers, body)
  {
    if headers == [] {
      StrayLast(line, body);
    } else {
      StrayReadBack(headers[1..], line, body);
      StrayCons(headers, line, body);
      assert [headers[0]] + headers[1..] == headers;
    }
  }

  /** So does a whole head. */
  predicate HeadLeavesTwo(buf: string, parts: (string, string, string), headers: seq<Header>, body: string) {
    && DelimEnd(buf) == Some(|buf| - |body|)
    && ParseHead(buf) == Head(parts.0, parts.1, parts.2, headers, "\r\n" + body)
  }

  lemma DelimInFront(line: string, rest: string, body: string)
    requires NoChar('\n', line) && DelimEnd(rest) == Some(|rest| - |body|) && |rest| >= 2 && rest[1] != '\n'
    ensures DelimEnd(line + ['\n'] + rest) == Some(|line + ['\n'] + rest| - |body|)
  {
    DelimStep(line, rest);
  }

  lemma StrayHead(line: string, parts: (string, string, string), rest: string, headers: seq<Header>, body: string)
    requires NoChar('\n', line) && RequestLine(line) == Some(parts)
    requires LeavesTwo(rest, headers, body) && |rest| >= 2 && rest[1] != '\n'
    ensures HeadLeavesTwo(line + ['\n'] + rest, parts, headers, body)
  {
    DelimInFront(line, rest, body);
    ParseInFront(line, parts, rest, headers, "\r\n" + body);
  }

  /**
   * A last header line without a colon: the fields in front of it are read, and the empty line behind it, which the
   * delimiter counts, is left in the buffer.
   */
  lemma StrayLineLeavesTwo(verb: string, path: string, version: string, headers: seq<Header>, line: string,
                           body: string)
    requires GoodRequest(verb, path, version, headers) && Stray(line) && |line| > 1
    ensures HeadLeavesTwo(PrintRequestLine(verb, path, version) + ['\n'] + PrintStray(headers, line, body),
                          (verb, path, version), headers, body)
  {
    RequestLineEnds(verb, path, version);
    RequestLineReadBack(verb, path, version);
    StrayReadBack(headers, line, body);
    StraySecondChar(headers, line, body);
    var rest := PrintStray(headers, line, body);
    StrayHead(PrintRequestLine(verb, path, version), (verb, path, version), rest, headers, body);
  }

  lemma StrayRequest() returns (verb: string, path: string, version: string, line: string)
    ensures GoodRequest(verb, path, version, []) && Stray(line) && |line| > 1
    ensures PrintRequestLine(verb, path, version) + ['\n'] + PrintStray([], line, "") ==
            "GET / HTTP/1.1\r\nfoo\r\n\r\n"
  {
    verb, path, version, line := "GET", "/", "1.1", "foo\r";
    assert PrintRequestLine(verb, path, version) == "GET / HTTP/1.1\r";
  }

  /** A request whose only header line is "foo" ends with its delimiter, but two bytes are not taken. */
  lemma DelimiterIsLeft(buf: string)
    requires buf == "GET / HTTP/1.1\r\nfoo\r\n\r\n"
    ensures DelimEnd(buf) == Some(|buf|) && ParseHead(buf).Head? && ParseHead(buf).rest == "\r\n"
  {
    var verb, path, version, line := StrayRequest();
    StrayLineLeavesTwo(verb, path, version, [], line, "");
  }
}
