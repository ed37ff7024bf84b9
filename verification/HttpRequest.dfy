/** The request object the server fills by reading lines from its stream. */
module HttpRequest {
  import opened Wrappers
  import opened HttpHead

  /** An input stream over the request's buffer. */
  class InputStream {
    var buf: string
    var eof: bool

    constructor (buf: string)
      ensures this.buf == buf && !eof
    {
      this.buf, eof := buf, false;
    }

    /** getline: past the end of the stream it fails and leaves the line as it was. */
    method GetLine(line: string) returns (next: string)
      modifies this
      ensures old(eof) ==> next == line && buf == old(buf) && eof
      ensures !old(eof) ==> next == LineOf(old(buf)) && buf == RestOf(old(buf))
      ensures !old(eof) ==> (eof <==> Find(old(buf), '\n') == |old(buf)|)
    {
      if eof { return line; }
      var k := Find(buf, '\n');
      next := buf[..k];
      if k < |buf| {
        buf := buf[k + 1..];
      } else {
        buf := "";
        eof := true;
      }
    }
  }

  lemma HeaderFieldsAre(buf: string)
    requires BlankAhead(buf)
    ensures var line, rest := LineOf(buf), RestOf(buf);
            && Find(buf, '\n') < |buf|
            && if Find(line, ':') < |line| then
                 BlankAhead(rest) && |rest| < |buf| &&
                 HeaderFields(buf) == (FieldOf(line) + HeaderFields(rest).0, HeaderFields(rest).1)
               else HeaderFields(buf) == ([], rest)
  {
    FindIn(LineOf(buf), ':');
  }

  lemma RequestLineIs(line: string, m: nat, more: Option<(string, string)>)
    requires m == Find(line, ' ') < |line| && more == PathAndVersion(line[m + 1..])
    ensures RequestLine(line) == if more.None? then None else Some((line[..m], more.value.0, more.value.1))
  {}

  lemma Regroup<T>(a: seq<T>, b: seq<T>, c: seq<T>)
    ensures a + (b + c) == (a + b) + c && a + [] == a
  {}

  class Request {
    var verb: string
    var path: string
    var httpVersion: string
    var header: seq<Header>

    constructor ()
      ensures header == []
    {
      verb, path, httpVersion, header := "", "", "", [];
    }

    method ParseProtocol(protocol: string) returns (ok: bool)
      modifies this`httpVersion
      ensures ok == VersionOf(protocol).Some?
      ensures ok ==> VersionOf(protocol) == Some(httpVersion)
    {
      var protocolEnd := Find(protocol, '/');
      if protocolEnd == |protocol| || protocol[..protocolEnd] != "HTTP" { return false; }
      httpVersion := if protocolEnd + 1 < |protocol| then protocol[protocolEnd + 1..|protocol| - 1] else "";
      return true;
    }

    method ParsePathAndProtocol(text: string) returns (ok: bool)
      modifies this`path, this`httpVersion
      ensures ok == PathAndVersion(text).Some?
      ensures ok ==> PathAndVersion(text) == Some((path, httpVersion))
    {
      var pathEnd := Find(text, ' ');
      if pathEnd == |text| { return false; }
      path := text[..pathEnd];
      ok := ParseProtocol(text[pathEnd + 1..]);
    }

    /** The request line; what was found before an error stays in the fields. */
    method ParseRequestLine(line: string) returns (ok: bool)
      modifies this`verb, this`path, this`httpVersion
      ensures ok == RequestLine(line).Some?
      ensures ok ==> RequestLine(line) == Some((verb, path, httpVersion))
    {
      var verbEnd := Find(line, ' ');
      if verbEnd == |line| { return false; }
      verb := line[..verbEnd];
      RequestLineIs(line, verbEnd, PathAndVersion(line[verbEnd + 1..]));
      ok := ParsePathAndProtocol(line[verbEnd + 1..]);
    }

    /** One header line is put into the map, unless nothing follows its colon. */
    method InsertField(line: string)
      requires Find(line, ':') < |line|
      modifies this`header
      ensures header == old(header) + FieldOf(line)
    {
      var paramEnd := Find(line, ':');
      var valueStart := paramEnd + 1;
      if valueStart < |line| {
        if line[valueStart] == ' ' {
          valueStart := valueStart + 1;
        }
        if valueStart < |line| {
          header := header + [(line[..paramEnd], line[valueStart..|line| - 1])];
        }
      }
    }

    method ParseFields(stream: InputStream, previous: string)
      requires !stream.eof && BlankAhead(stream.buf) && header == []
      modifies this`header, stream
      ensures (header, stream.buf) == HeaderFields(old(stream.buf))
    {
      ghost var (fields, rest) := HeaderFields(stream.buf);
      HeaderFieldsAre(stream.buf);
      var line := stream.GetLine(previous);
      while Find(line, ':') < |line|
        invariant !stream.eof
        invariant Find(line, ':') < |line| ==> BlankAhead(stream.buf)
        invariant if Find(line, ':') < |line| then
                    var (more, after) := HeaderFields(stream.buf);
                    fields == header + (FieldOf(line) + more) && rest == after
                  else fields == header && rest == stream.buf
        decreases |stream.buf|
      {
        HeaderFieldsAre(stream.buf);
        Regroup(header, FieldOf(line), HeaderFields(stream.buf).0);
        InsertField(line);
        line := stream.GetLine(line);
      }
    }

    /** The head is taken from the stream line by line; the delimiter that read_until found ends the loop. */
    method ParseRequest(stream: InputStream) returns (ok: bool)
      requires !stream.eof && DelimEnd(stream.buf).Some? && header == []
      modifies this, stream
      ensures ok <==> ParseHead(old(stream.buf)).Head?
      ensures ok ==> ParseHead(old(stream.buf)) == Head(verb, path, httpVersion, header, stream.buf)
      ensures !ok ==> stream.buf == RestOf(old(stream.buf))
    {
      DelimiterMeansBlank(stream.buf);
      var line := stream.GetLine("");
      ok := ParseRequestLine(line);
      if ok {
        ParseFields(stream, line);
      }
    }
  }
}
