/** The declared content length, header lookup, and the content a request handler gets. */
module HttpContent {
  import opened Wrappers
  import opened HttpHead
  import opened HttpConsumption

  // ---- Case-insensitive header names ----------------------------------------------------------------

  function Lower(c: char): char { if 'A' <= c <= 'Z' then (c as int + 32) as char else c }

  function Upper(c: char): char { if 'a' <= c <= 'z' then (c as int - 32) as char else c }

  /** iequals: the names agree in upper case. */
  predicate SameName(a: string, b: string) {
    |a| == |b| && forall i :: 0 <= i < |a| ==> Upper(a[i]) == Upper(b[i])
  }

  /** The same character, or the other case of the same letter. */
  predicate SameLetter(a: char, b: char) {
    || a == b
    || ('a' <= a <= 'z' && b as int == a as int - 32)
    || ('a' <= b <= 'z' && a as int == b as int - 32)
  }

  /** The two differ in nothing but the case of letters. */
  predicate InAnyCase(a: string, b: string) {
    |a| == |b| && forall i :: 0 <= i < |a| ==> SameLetter(a[i], b[i])
  }

  /** Names are the same exactly if they differ in nothing but the case of letters. */
  lemma SameNameExactly(a: string, b: string)
    ensures SameName(a, b) <==> InAnyCase(a, b)
  {
    if |a| == |b| {
      forall i | 0 <= i < |a| ensures Upper(a[i]) == Upper(b[i]) <==> SameLetter(a[i], b[i]) {}
    }
  }

  /** The lower case of a letter is that letter, and no capital. */
  lemma LowerExactly(c: char)
    ensures SameLetter(c, Lower(c)) && !('A' <= Lower(c) <= 'Z')
  {}

  /** ihash: the lower-case characters folded into a seed, whatever the folding is. */
  function Hash(combine: (int, char) -> int, name: string): int {
    if name == "" then 0 else combine(Hash(combine, name[..|name| - 1]), Lower(name[|name| - 1]))
  }

  /** Names the container takes for equal have equal hashes, although one is by upper and one by lower case. */
  lemma {:induction false} EqualNamesHashAlike(combine: (int, char) -> int, a: string, b: string)
    requires SameName(a, b)
    ensures Hash(combine, a) == Hash(combine, b)
    decreases |a|
  {
    if a != "" {
      var n := |a| - 1;
      EqualNamesHashAlike(combine, a[..n], b[..n]);
      assert Upper(a[n]) == Upper(b[n]);
    }
  }

  /** The values `find` may return for a name; nothing is said about which of several comes first. */
  predicate MayFind(headers: seq<Header>, name: string, value: Option<string>) {
    match value
    case None => forall h <- headers :: !SameName(h.0, name)
    case Some(v) => exists h <- headers :: SameName(h.0, name) && h.1 == v
  }

  // ---- stoull --------------------------------------------------------------------------------------

  const TWO_64: nat := 0x1_0000_0000_0000_0000

  predicate IsDigit(c: char) { '0' <= c <= '9' }

  predicate IsSpace(c: char) { c == ' ' || 9 as char <= c <= 13 as char }

  function Digits(s: string): string {
    if s != "" && IsDigit(s[0]) then [s[0]] + Digits(s[1..]) else ""
  }

  function SkipSpace(s: string): string {
    if s != "" && IsSpace(s[0]) then SkipSpace(s[1..]) else s
  }

  function Value(digits: string): int {
    if digits == "" then 0
    else Value(digits[..|digits| - 1]) * 10 + (digits[|digits| - 1] as int - '0' as int)
  }

  /** The number at the start of the text; text without one and numbers of 2^64 and more are errors. */
  function Stoull(s: string): Option<int> {
    var t := SkipSpace(s);
    var negative := t != "" && t[0] == '-';
    var signed := negative || (t != "" && t[0] == '+');
    var digits := Digits(if signed then t[1..] else t);
    if digits == "" || Value(digits) >= TWO_64 then None
    else Some(if negative then (TWO_64 - Value(digits)) % TWO_64 else Value(digits))
  }

  function Decimal(n: nat): (s: string)
    ensures s != "" && forall c <- s :: IsDigit(c)
  {
    var last := [(n % 10 + '0' as int) as char];
    if n < 10 then last else Decimal(n / 10) + last
  }

  lemma {:induction false} DecimalValue(n: nat)
    ensures Value(Decimal(n)) == n
  {
    var s := Decimal(n);
    if n >= 10 {
      DecimalValue(n / 10);
      assert s[..|s| - 1] == Decimal(n / 10);
    } else {
      assert s[..0] == "";
    }
  }

  lemma {:induction false} AllDigits(s: string)
    requires forall c <- s :: IsDigit(c)
    ensures Digits(s) == s
  {
    if s != "" {
      assert s[0] in s && forall c <- s[1..] :: c in s;
      AllDigits(s[1..]);
      assert [s[0]] + s[1..] == s;
    }
  }

  /** A length printed in decimal is the length read back. */
  lemma StoullOfDecimal(n: nat)
    requires n < TWO_64
    ensures Stoull(Decimal(n)) == Some(n)
  {
    var s := Decimal(n);
    assert s[0] in s;
    AllDigits(s);
    DecimalValue(n);
  }

  lemma {:induction false} SpacesSkipped(spaces: string, t: string)
    requires (forall c <- spaces :: IsSpace(c)) && (t == "" || !IsSpace(t[0]))
    ensures SkipSpace(spaces + t) == t
  {
    if spaces == "" {
      assert spaces + t == t;
    } else {
      assert spaces[0] in spaces && forall c <- spaces[1..] :: c in spaces;
      assert (spaces + t)[1..] == spaces[1..] + t;
      SpacesSkipped(spaces[1..], t);
    }
  }

  lemma {:induction false} DigitsThen(digits: string, after: string)
    requires (forall c <- digits :: IsDigit(c)) && (after == "" || !IsDigit(after[0]))
    ensures Digits(digits + after) == digits
  {
    if digits == "" {
      assert digits + after == after;
    } else {
      assert digits[0] in digits && forall c <- digits[1..] :: c in digits;
      assert (digits + after)[1..] == digits[1..] + after;
      DigitsThen(digits[1..], after);
      assert [digits[0]] + digits[1..] == digits;
    }
  }

  /** A leading zero changes no value. */
  lemma {:induction false} ZeroInFront(digits: string)
    ensures Value("0" + digits) == Value(digits)
  {
    var longer := "0" + digits;
    if digits == "" {
      assert longer[..0] == "";
    } else {
      assert longer[..|longer| - 1] == "0" + digits[..|digits| - 1];
      ZeroInFront(digits[..|digits| - 1]);
    }
  }

  lemma Unsigned(t: string)
    requires t == "" || (t[0] != '-' && t[0] != '+' && !IsSpace(t[0]))
    ensures Stoull(t) == if Digits(t) == "" || Value(Digits(t)) >= TWO_64 then None else Some(Value(Digits(t)))
  {}

  lemma Signed(sign: char, t: string)
    requires sign == '-' || sign == '+'
    ensures Stoull([sign] + t) ==
            if Digits(t) == "" || Value(Digits(t)) >= TWO_64 then None
            else if sign == '-' then Some((TWO_64 - Value(Digits(t))) % TWO_64)
            else Some(Value(Digits(t)))
  {
    assert ([sign] + t)[1..] == t;
  }

  lemma StoullSkips(spaces: string, t: string)
    requires (forall c <- spaces :: c == ' ' || '\t' <= c <= '\r') && (t == "" || !IsSpace(t[0]))
    ensures Stoull(spaces + t) == Stoull(t)
  {
    SpacesSkipped(spaces, t);
    SpacesSkipped("", t);
    assert "" + t == t;
  }

  lemma SignedDigits(sign: string, digits: string, after: string)
    requires (sign == "" || sign == "+" || sign == "-") && (forall c <- digits :: '0' <= c <= '9')
    requires digits != "" && (after == "" || !('0' <= after[0] <= '9'))
    ensures Stoull(sign + (digits + after)) ==
            if Value(digits) >= TWO_64 then None
            else if sign == "-" then Some((TWO_64 - Value(digits)) % TWO_64)
            else Some(Value(digits))
  {
    DigitsThen(digits, after);
    assert digits[0] in digits;
    if sign == "" {
      assert sign + (digits + after) == digits + after;
      Unsigned(digits + after);
    } else {
      Signed(sign[0], digits + after);
    }
  }

  lemma FrontNotSpace(sign: string, t: string)
    requires sign == "+" || sign == "-" || (sign == "" && (t == "" || !IsSpace(t[0])))
    ensures sign + t == "" || !IsSpace((sign + t)[0])
  {}

  /**
   * Spaces and a sign may stand in front of a number and anything behind it. A number of 2^64 and more is an error, and
   * a minus sign gives the number's complement to 2^64.
   */
  lemma StoullOfNumber(spaces: string, sign: string, digits: string, after: string)
    requires (forall c <- spaces :: c == ' ' || '\t' <= c <= '\r') && (sign == "" || sign == "+" || sign == "-")
    requires digits != "" && (forall c <- digits :: '0' <= c <= '9')
    requires after == "" || !('0' <= after[0] <= '9')
    ensures Stoull(spaces + (sign + (digits + after))) ==
            if Value(digits) >= 0x1_0000_0000_0000_0000 then None
            else if sign == "-" then Some((0x1_0000_0000_0000_0000 - Value(digits)) % 0x1_0000_0000_0000_0000)
            else Some(Value(digits))
  {
    assert digits[0] in digits;
    FrontNotSpace(sign, digits + after);
    StoullSkips(spaces, sign + (digits + after));
    SignedDigits(sign, digits, after);
  }

  /** Without a digit behind the spaces and the sign there is no number. */
  lemma StoullOfText(spaces: string, sign: string, text: string)
    requires (forall c <- spaces :: c == ' ' || '\t' <= c <= '\r') && (sign == "" || sign == "+" || sign == "-")
    requires text == "" || !('0' <= text[0] <= '9')
    requires sign == "" && text != "" ==> text[0] != '+' && text[0] != '-' && !IsSpace(text[0])
    ensures Stoull(spaces + (sign + text)) == None
  {
    FrontNotSpace(sign, text);
    StoullSkips(spaces, sign + text);
    if sign == "" {
      assert sign + text == text;
      Unsigned(text);
    } else {
      Signed(sign[0], text);
    }
  }

  // ---- Content -------------------------------------------------------------------------------------

  datatype Outcome =
    | Dropped                                        // the head or the length is malformed
    | Waiting                                        // the declared content has not all arrived
    | Dispatched(head: Head, content: string)        // find_resource is called

  const CONTENT_LENGTH := "Content-Length"

  /** With `buffered` bytes behind the delimiter already there, and the length that was declared, if any. */
  function ReadContent(head: Head, buffered: nat, coming: string, declares: bool, length: Option<int>): Outcome {
    if head.Rejected? then Dropped
    else if !declares then Dispatched(head, head.rest)
    else if length.None? then Dropped
    else if length.value <= buffered then Dispatched(head, head.rest)
    else if length.value - buffered > |coming| then Waiting
    else Dispatched(head, head.rest + coming[..length.value - buffered])
  }

  /**
   * read_request_and_content once the delimiter has been found: the buffer holds `buf`, the connection will
   * still deliver `coming`, and `declared` is what looking up Content-Length gives.
   */
  function ReadRequest(buf: string, coming: string, declared: Option<string>): Outcome
    requires DelimEnd(buf).Some?
  {
    ReadContent(ParseHead(buf), |buf| - DelimEnd(buf).value, coming, declared.Some?,
                if declared.Some? then Stoull(declared.value) else None)
  }

  /**
   * A request is dropped exactly if its head is rejected or its declared length is no number, and waits exactly if the
   * declared content has not all arrived. Content is what is left of the buffer and then what comes, in order.
   */
  lemma OutcomeExactly(buf: string, coming: string, declared: Option<string>)
    requires DelimEnd(buf).Some?
    ensures var r, head := ReadRequest(buf, coming, declared), ParseHead(buf);
            && (r == Dropped <==> head.Rejected? || (declared.Some? && Stoull(declared.value).None?))
            && (r == Waiting <==> head.Head? && declared.Some? && Stoull(declared.value).Some? &&
                                  DelimEnd(buf).value + Stoull(declared.value).value > |buf| + |coming|)
            && (r.Dispatched? ==> r.head == head && head.Head? && head.rest <= r.content <= head.rest + coming &&
                                  (declared.None? ==> r.content == head.rest))
  {
    var head, buffered := ParseHead(buf), |buf| - DelimEnd(buf).value;
    if head.Head? && declared.Some? && Stoull(declared.value).Some? {
      var n := Stoull(declared.value).value;
      if buffered < n <= buffered + |coming| {
        assert coming[..n - buffered] <= coming;
      }
    }
  }

  /** The lookup result is one the container may give for the parsed head. */
  predicate Declares(buf: string, declared: Option<string>)
    requires DelimEnd(buf).Some?
  {
    ParseHead(buf).Head? ==> MayFind(ParseHead(buf).headers, CONTENT_LENGTH, declared)
  }

  function Max(a: int, b: int): int { if a > b then a else b }

  /**
   * The handler is called exactly if n bytes arrive, with at least as many as that and as were buffered, and with
   * exactly the larger of the two if and only if `exact`.
   */
  predicate SizedAs(r: Outcome, n: nat, buffered: nat, coming: string, exact: bool) {
    && (r.Dispatched? <==> n <= buffered + |coming|)
    && (r.Dispatched? ==> |r.content| >= Max(n, buffered) && (|r.content| == Max(n, buffered) <==> exact))
  }

  predicate IsSuffix(rest: string, buf: string) { |rest| <= |buf| && rest == buf[|buf| - |rest|..] }

  lemma SuffixByLength(buf: string, rest: string, d: nat)
    requires d <= |buf| && IsSuffix(rest, buf)
    ensures rest == buf[d..] <==> |rest| == |buf| - d
  {}

  lemma SuffixOfSuffix(a: string, b: string, c: string)
    requires IsSuffix(b, a) && IsSuffix(c, b)
    ensures IsSuffix(c, a)
  {}

  lemma RestOfIsSuffix(buf: string)
    ensures IsSuffix(RestOf(buf), buf)
  {}

  lemma {:induction false} FieldsRestIsSuffix(buf: string)
    requires BlankAhead(buf)
    ensures IsSuffix(HeaderFields(buf).1, buf)
    decreases |buf|
  {
    RestOfIsSuffix(buf);
    if ':' in LineOf(buf) {
      FieldsRestIsSuffix(RestOf(buf));
      SuffixOfSuffix(buf, RestOf(buf), HeaderFields(RestOf(buf)).1);
    }
  }

  lemma HeadRestIsSuffix(buf: string)
    requires DelimEnd(buf).Some? && ParseHead(buf).Head?
    ensures IsSuffix(ParseHead(buf).rest, buf)
  {
    DelimiterMeansBlank(buf);
    RestOfIsSuffix(buf);
    FieldsRestIsSuffix(RestOf(buf));
    SuffixOfSuffix(buf, RestOf(buf), HeaderFields(RestOf(buf)).1);
  }

  lemma RestLength(buf: string, head: Head, behind: nat)
    requires DelimEnd(buf).Some? && head == ParseHead(buf) && head.Head? && behind == |buf| - DelimEnd(buf).value
    ensures |head.rest| >= behind && (|head.rest| == behind <==> HasColons(HeaderLines(buf)))
  {
    ConsumesThroughDelimiter(buf);
    HeadRestIsSuffix(buf);
    SuffixByLength(buf, head.rest, DelimEnd(buf).value);
  }

  lemma SizeOfContent(head: Head, buffered: nat, coming: string, n: nat, exact: bool)
    requires head.Head? && |head.rest| >= buffered && (exact <==> |head.rest| == buffered)
    ensures SizedAs(ReadContent(head, buffered, coming, true, Some(n)), n, buffered, coming, exact)
  {}

  /**
   * The handler is called exactly if the declared content arrives. The content is then at least as large as
   * the declared length and what was buffered behind the delimiter, and exactly as large as the larger of
   * the two if and only if every header line has a colon.
   */
  lemma ContentSize(buf: string, coming: string, n: nat)
    requires DelimEnd(buf).Some? && ParseHead(buf).Head?
    ensures var buffered := |buf| - DelimEnd(buf).value;
            SizedAs(ReadContent(ParseHead(buf), buffered, coming, true, Some(n)), n, buffered, coming,
                    HasColons(HeaderLines(buf)))
  {
    var head, buffered := ParseHead(buf), |buf| - DelimEnd(buf).value;
    RestLength(buf, head, buffered);
    SizeOfContent(head, buffered, coming, n, HasColons(HeaderLines(buf)));
  }

  lemma ReadWhole(head: Head, body: string, got: nat, more: string)
    requires got <= |body| && head.Head? && head.rest == body[..got]
    ensures ReadContent(head, got, body[got..] + more, true, Some(|body|)) == Dispatched(head, body)
  {
    assert (body[got..] + more)[..|body| - got] == body[got..];
    assert body[..got] + body[got..] == body;
    assert got == |body| ==> body[..got] == body;
  }

  lemma DeclaredValue(headers: seq<Header>, declared: Option<string>, n: int)
    requires exists h <- headers :: SameName(h.0, CONTENT_LENGTH)
    requires forall h <- headers :: SameName(h.0, CONTENT_LENGTH) ==> Stoull(h.1) == Some(n)
    requires MayFind(headers, CONTENT_LENGTH, declared)
    ensures declared.Some? && Stoull(declared.value) == Some(n)
  {}

  /**
   * For every well-formed request that declares the size of its body the handler gets exactly that body, whatever
   * part of it had arrived with the head and whatever more the connection delivers behind it.
   */
  lemma ContentIsBody(verb: string, path: string, version: string, headers: seq<Header>, body: string,
                      got: nat, more: string, declared: Option<string>)
    requires GoodRequest(verb, path, version, headers) && got <= |body|
    requires exists h <- headers :: SameName(h.0, CONTENT_LENGTH)
    requires forall h <- headers :: SameName(h.0, CONTENT_LENGTH) ==> Stoull(h.1) == Some(|body|)
    requires MayFind(headers, CONTENT_LENGTH, declared)
    ensures var buf := PrintHead(verb, path, version, headers) + body[..got];
            && DelimEnd(buf).Some? && Declares(buf, declared)
            && ReadRequest(buf, body[got..] + more, declared) ==
               Dispatched(Head(verb, path, version, headers, body[..got]), body)
  {
    var head := PrintHead(verb, path, version, headers);
    HeadReadBack(verb, path, version, headers, body[..got]);
    DeclaredValue(headers, declared, |body|);
    ReadWhole(Head(verb, path, version, headers, body[..got]), body, got, more);
  }

  // ---- A header line without a colon ----------------------------------------------------------------

  lemma FirstLine(line: string, rest: string)
    requires line == "GET / HTTP/1.1\r" && rest == "Content-Length: 0\r\nfoo\r\n\r\n"
    ensures line + ['\n'] + rest == "GET / HTTP/1.1\r\nContent-Length: 0\r\nfoo\r\n\r\n"
  {}

  lemma LengthAndStray(h: Header, line: string)
    requires h == (CONTENT_LENGTH, "0") && line == "foo\r"
    ensures GoodHeader(h) && PrintStray([h], line, "") == "Content-Length: 0\r\nfoo\r\n\r\n"
  {
    assert PrintField(h) == "Content-Length: 0\r";
    assert PrintStray([], line, "") == "foo\r\n\r\n";
    assert [h][1..] == [];
  }

  lemma StrayRequestWithLength() returns (verb: string, path: string, version: string, h: Header, line: string)
    ensures GoodRequest(verb, path, version, [h]) && Stray(line) && |line| > 1 && h == (CONTENT_LENGTH, "0")
    ensures PrintRequestLine(verb, path, version) + ['\n'] + PrintStray([h], line, "") ==
            "GET / HTTP/1.1\r\nContent-Length: 0\r\nfoo\r\n\r\n"
  {
    h := (CONTENT_LENGTH, "0");
    verb, path, version, line := "GET", "/", "1.1", "foo\r";
    LengthAndStray(h, line);
    FirstLine(PrintRequestLine(verb, path, version), PrintStray([h], line, ""));
  }

  lemma ZeroIsRead()
    ensures Stoull("0") == Some(0)
  {
    StoullOfDecimal(0);
    assert Decimal(0) == "0";
  }

  lemma FoundAlone(h: Header)
    requires h == (CONTENT_LENGTH, "0")
    ensures MayFind([h], CONTENT_LENGTH, Some("0"))
  {
    assert h in [h] && SameName(h.0, CONTENT_LENGTH);
  }

  lemma HandedOver(buf: string, parts: (string, string, string), headers: seq<Header>)
    requires HeadLeavesTwo(buf, parts, headers, "") && Stoull("0") == Some(0)
    ensures var r := ReadRequest(buf, "", Some("0")); r.Dispatched? && r.content == "\r\n"
  {}

  /** A request that declares no content, and has none, is handed over with two bytes of content. */
  lemma ContentIsTooLong(buf: string)
    requires buf == "GET / HTTP/1.1\r\nContent-Length: 0\r\nfoo\r\n\r\n"
    ensures DelimEnd(buf).Some? && Declares(buf, Some("0"))
    ensures var r := ReadRequest(buf, "", Some("0")); r.Dispatched? && r.content == "\r\n"
  {
    var verb, path, version, h, line := StrayRequestWithLength();
    StrayLineLeavesTwo(verb, path, version, [h], line, "");
    FoundAlone(h);
    ZeroIsRead();
    HandedOver(buf, (verb, path, version), [h]);
  }
}
