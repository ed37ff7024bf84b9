/**
 * Reading the head of an HTTP request out of a buffer, line by line, and how much of the buffer that takes.
 */
module HttpHead {
  import opened Wrappers

  // ---- The stream ----------------------------------------------------------------------------------

  /** The position of the first c from i on, or the length. */
  function FindFrom(s: string, c: char, i: nat): (k: nat)
    requires i <= |s|
    ensures i <= k <= |s| && (k < |s| ==> s[k] == c)
    ensures forall j :: i <= j < k ==> s[j] != c
    decreases |s| - i
  {
    if i == |s| || s[i] == c then i else FindFrom(s, c, i + 1)
  }

  function Find(s: string, c: char): (k: nat)
    ensures k <= |s| && (k < |s| ==> s[k] == c)
    ensures forall j :: 0 <= j < k ==> s[j] != c
  {
    FindFrom(s, c, 0)
  }

  /** The text up to the first newline. */
  function LineOf(buf: string): string { buf[..Find(buf, '\n')] }

  /** What getline leaves in the buffer. */
  function RestOf(buf: string): string {
    var k := Find(buf, '\n');
    if k < |buf| then buf[k + 1..] else ""
  }

  predicate FourAt(buf: string, i: nat) {
    i + 4 <= |buf| && buf[i] == '\r' && buf[i + 1] == '\n' && buf[i + 2] == '\r' && buf[i + 3] == '\n'
  }

  /** Where the first two line ends in a row stop, from i on. */
  function DelimFrom(buf: string, i: nat): (d: Option<nat>)
    requires i <= |buf|
    ensures d.Some? ==> i + 4 <= d.value <= |buf|
    decreases |buf| - i
  {
    if FourAt(buf, i) then Some(i + 4) else if i < |buf| then DelimFrom(buf, i + 1) else None
  }

  /** Where the first empty line after a line end stops: the number of bytes read_until reports. */
  function DelimEnd(buf: string): (d: Option<nat>)
    ensures d.Some? ==> 4 <= d.value <= |buf|
  {
    DelimFrom(buf, 0)
  }

  lemma {:induction false} DelimFromIs(buf: string, i: nat, d: nat)
    requires i + 4 <= d <= |buf| && FourAt(buf, d - 4) && forall j :: i <= j < d - 4 ==> !FourAt(buf, j)
    ensures DelimFrom(buf, i) == Some(d)
    decreases d - i
  {
    if i < d - 4 {
      DelimFromIs(buf, i + 1, d);
    }
  }

  lemma {:induction false} DelimFromFirst(buf: string, i: nat)
    requires i <= |buf|
    ensures match DelimFrom(buf, i)
            case None => forall j :: i <= j ==> !FourAt(buf, j)
            case Some(d) => FourAt(buf, d - 4) && forall j :: i <= j < d - 4 ==> !FourAt(buf, j)
    decreases |buf| - i
  {
    if !FourAt(buf, i) && i < |buf| {
      DelimFromFirst(buf, i + 1);
    }
  }

  predicate TwoLineEnds(buf: string, i: nat) { i + 4 <= |buf| && buf[i..i + 4] == "\r\n\r\n" }

  lemma FourChars(buf: string, i: nat)
    ensures FourAt(buf, i) <==> TwoLineEnds(buf, i)
  {
    if i + 4 <= |buf| {
      assert buf[i..i + 4] == [buf[i], buf[i + 1], buf[i + 2], buf[i + 3]];
    }
  }

  /** The delimiter stops at d exactly if two line ends stand in front of d, and nowhere before. */
  lemma DelimEndExactly(buf: string, d: nat)
    ensures DelimEnd(buf) == Some(d) <==>
            d >= 4 && TwoLineEnds(buf, d - 4) && forall i: nat :: i < d - 4 ==> !TwoLineEnds(buf, i)
  {
    forall i: nat ensures FourAt(buf, i) <==> TwoLineEnds(buf, i) {
      FourChars(buf, i);
    }
    DelimFromFirst(buf, 0);
    if d >= 4 && TwoLineEnds(buf, d - 4) && forall i: nat :: i < d - 4 ==> !TwoLineEnds(buf, i) {
      DelimFromIs(buf, 0, d);
    }
  }

  /** Some line of the buffer is empty but for its carriage return. */
  predicate BlankAhead(buf: string)
    decreases |buf|
  {
    Find(buf, '\n') < |buf| && (LineOf(buf) == "\r" || BlankAhead(RestOf(buf)))
  }

  // ---- The parser ----------------------------------------------------------------------------------

  type Header = (string, string)

  datatype Head = Rejected | Head(verb: string, path: string, version: string, headers: seq<Header>, rest: string)

  /** One header line: its name, and its value without one leading space and the last character. */
  function FieldOf(line: string): seq<Header> {
    var p := Find(line, ':');
    if p + 1 >= |line| then []
    else
      var v := if line[p + 1] == ' ' then p + 2 else p + 1;
      if v < |line| then [(line[..p], line[v..|line| - 1])] else []
  }

  /** The header lines up to the first one without a colon, and what follows that line. */
  function HeaderFields(buf: string): (r: (seq<Header>, string))
    requires BlankAhead(buf)
    ensures |r.1| < |buf|
    decreases |buf|
  {
    var line := LineOf(buf);
    if ':' !in line then ([], RestOf(buf))
    else
      var (fields, rest) := HeaderFields(RestOf(buf));
      (FieldOf(line) + fields, rest)
  }

  /** The version behind "HTTP/", without the last character. */
  function VersionOf(protocol: string): Option<string> {
    var slash := Find(protocol, '/');
    if slash == |protocol| || protocol[..slash] != "HTTP" then None
    else Some(if slash + 1 < |protocol| then protocol[slash + 1..|protocol| - 1] else "")
  }

  /** The path and version behind the method. */
  function PathAndVersion(text: string): Option<(string, string)> {
    var p := Find(text, ' ');
    if p == |text| then None
    else
      var version := VersionOf(text[p + 1..]);
      if version.None? then None else Some((text[..p], version.value))
  }

  /** Method, path and version of a request line. */
  function RequestLine(line: string): Option<(string, string, string)> {
    var m := Find(line, ' ');
    if m == |line| then None
    else
      var more := PathAndVersion(line[m + 1..]);
      if more.None? then None else Some((line[..m], more.value.0, more.value.1))
  }

  /** A line end whose line ends in a carriage return, with an empty line behind it. */
  predicate DelimiterHere(line: string, rest: string) {
    line != "" && line[|line| - 1] == '\r' && |rest| >= 2 && rest[0] == '\r' && rest[1] == '\n'
  }

  lemma FindIn(s: string, c: char)
    ensures Find(s, c) < |s| <==> c in s
  {}

  lemma FirstIs(s: string, c: char, k: nat)
    requires k < |s| && s[k] == c && forall i :: 0 <= i < k ==> s[i] != c
    ensures Find(s, c) == k
  {}

  /** A delimiter found in what follows n characters. */
  function Behind(d: Option<nat>, n: nat): Option<nat> {
    match d
    case None => None
    case Some(k) => Some(n + k)
  }

  lemma {:induction false} DelimShift(buf: string, k: nat, i: nat)
    requires k + i <= |buf|
    ensures DelimFrom(buf, k + i) == Behind(DelimFrom(buf[k..], i), k)
    decreases |buf| - i
  {
    assert FourAt(buf[k..], i) <==> FourAt(buf, k + i);
    if k + i < |buf| {
      DelimShift(buf, k, i + 1);
    }
  }

  /** Within a line only its last character can begin the delimiter. */
  lemma {:induction false} DelimInLine(buf: string, k: nat, i: nat)
    requires i <= k < |buf| && buf[k] == '\n' && forall j :: i <= j < k ==> buf[j] != '\n'
    ensures DelimFrom(buf, i) == if i < k && FourAt(buf, k - 1) then Some(k + 3) else DelimFrom(buf, k + 1)
    decreases k - i
  {
    if i < k && !FourAt(buf, i) {
      DelimInLine(buf, k, i + 1);
    }
  }

  /** The delimiter begins with the last character of this line. */
  lemma FourHere(buf: string, k: nat)
    requires k == Find(buf, '\n') < |buf|
    ensures 0 < k && FourAt(buf, k - 1) <==> DelimiterHere(LineOf(buf), RestOf(buf))
  {}

  /** The delimiter is found line by line: at the end of this one, or later. */
  lemma DelimThroughLine(buf: string)
    requires Find(buf, '\n') < |buf|
    ensures var line, rest := LineOf(buf), RestOf(buf);
            DelimEnd(buf) ==
            if DelimiterHere(line, rest) then Some(|line| + 3) else Behind(DelimEnd(rest), |line| + 1)
  {
    var k := Find(buf, '\n');
    DelimInLine(buf, k, 0);
    DelimShift(buf, k + 1, 0);
    FourHere(buf, k);
  }

  lemma {:induction false} NoNewlineNoDelimiter(buf: string, i: nat)
    requires i <= |buf| && '\n' !in buf
    ensures DelimFrom(buf, i) == None
    decreases |buf| - i
  {
    if i < |buf| {
      NoNewlineNoDelimiter(buf, i + 1);
      assert i + 1 < |buf| ==> buf[i + 1] in buf;
    }
  }

  lemma {:induction false} DelimiterMeansBlank(buf: string)
    requires DelimEnd(buf).Some?
    ensures Find(buf, '\n') < |buf| && BlankAhead(RestOf(buf))
    decreases |buf|
  {
    FindIn(buf, '\n');
    if '\n' !in buf { NoNewlineNoDelimiter(buf, 0); }
    DelimThroughLine(buf);
    var rest := RestOf(buf);
    if DelimiterHere(LineOf(buf), rest) {
      FirstIs(rest, '\n', 1);
      assert rest[..1] == "\r";
    } else {
      DelimiterMeansBlank(rest);
    }
  }

  function ParseHead(buf: string): Head
    requires DelimEnd(buf).Some?
  {
    match RequestLine(LineOf(buf))
    case None => Rejected
    case Some((verb, path, version)) =>
      DelimiterMeansBlank(buf);
      var (fields, rest) := HeaderFields(RestOf(buf));
      Head(verb, path, version, fields, rest)
  }

  // ---- Lines and the delimiter ----------------------------------------------------------------------

  lemma DelimLater(buf: string)
    requires Find(buf, '\n') < |buf| && !DelimiterHere(LineOf(buf), RestOf(buf))
    ensures DelimEnd(buf) == Behind(DelimEnd(RestOf(buf)), |LineOf(buf)| + 1)
  {
    DelimThroughLine(buf);
  }
}
