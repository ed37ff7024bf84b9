/** Several requests on one kept-alive connection, each read into a buffer of its own. */
module HttpPipeline {
  import opened Wrappers
  import opened HttpHead
  import opened HttpConsumption
  import opened HttpContent
  import HttpResponses

  /** A request as a client sends it. */
  datatype Sent = Sent(verb: string, path: string, version: string, headers: seq<Header>, body: string)

  function HeadText(r: Sent): string { PrintHead(r.verb, r.path, r.version, r.headers) }

  function Text(r: Sent): string { HeadText(r) + r.body }

  function Texts(rs: seq<Sent>): string {
    if rs == [] then "" else Text(rs[0]) + Texts(rs[1..])
  }

  /**
   * How a request is read: the bytes in its buffer when read_until completes, what looking up Content-Length gives,
   * and the number stof gives for the version.
   */
  datatype Read = Read(taken: nat, declared: Option<string>, number: Option<real>)

  /** The bytes the content read takes beside those in the buffer. */
  function Missing(buf: string, declared: Option<string>): nat
    requires DelimEnd(buf).Some?
  {
    var buffered := |buf| - DelimEnd(buf).value;
    if declared.None? || Stoull(declared.value).None? || Stoull(declared.value).value <= buffered then 0
    else Stoull(declared.value).value - buffered
  }

  predicate KeepsAlive(o: Outcome, number: Option<real>) {
    && o.Dispatched? && o.head.Head?
    && HttpResponses.KeepsAlive(HttpResponses.Request(o.head.headers, number))
  }

  /** The outcome of reading a request, and the bytes taken from the connection. */
  datatype One = One(outcome: Outcome, used: nat)

  /** The first request of what the connection delivers, read into a new buffer. */
  function ReadOne(stream: string, read: Read): One {
    var n := read.taken;
    if n > |stream| || DelimEnd(stream[..n]).None? then One(Waiting, 0)
    else
      One(ReadRequest(stream[..n], stream[n..], read.declared), n + Missing(stream[..n], read.declared))
  }

  /**
   * The requests of a connection that delivers `stream`, read by `one` one after the other, as long as they arrive
   * whole and keep the connection.
   */
  function ServeWith(one: (string, Read) -> One, stream: string, how: seq<Read>): seq<Outcome>
    decreases |how|
  {
    if how == [] then []
    else
      var first := one(stream, how[0]);
      [first.outcome] +
      if KeepsAlive(first.outcome, how[0].number) && first.used <= |stream| then
        ServeWith(one, stream[first.used..], how[1..])
      else []
  }

  function Serve(stream: string, how: seq<Read>): seq<Outcome> { ServeWith(ReadOne, stream, how) }

  /** What the handler sees of a request. */
  function Handled(o: Outcome): Option<Sent> {
    if o.Dispatched? && o.head.Head? then
      Some(Sent(o.head.verb, o.head.path, o.head.version, o.head.headers, o.content))
    else None
  }

  function AllHandled(os: seq<Outcome>): seq<Option<Sent>> {
    if os == [] then [] else [Handled(os[0])] + AllHandled(os[1..])
  }

  function AsSent(rs: seq<Sent>): seq<Option<Sent>> {
    if rs == [] then [] else [Some(rs[0])] + AsSent(rs[1..])
  }

  /** The headers declare the size of the body; without a body they need not declare any. */
  predicate DeclaresBody(headers: seq<Header>, body: string) {
    if exists h <- headers :: SameName(h.0, CONTENT_LENGTH) then
      forall h <- headers :: SameName(h.0, CONTENT_LENGTH) ==> Stoull(h.1) == Some(|body|)
    else body == ""
  }

  /** A request that is printed well, and a read of it that finds what its headers hold. */
  predicate GoodRead(r: Sent, read: Read) {
    && GoodRequest(r.verb, r.path, r.version, r.headers) && DeclaresBody(r.headers, r.body)
    && MayFind(r.headers, CONTENT_LENGTH, read.declared)
  }

  /** Each request but the last keeps the connection. */
  predicate GoodReads(rs: seq<Sent>, how: seq<Read>) {
    if rs == [] then how == []
    else
      && how != [] && GoodRead(rs[0], how[0]) && GoodReads(rs[1..], how[1..])
      && (|rs| > 1 ==> HttpResponses.Persists(HttpResponses.Request(rs[0].headers, how[0].number)))
  }

  predicate Own(r: Sent, read: Read) { |HeadText(r)| <= read.taken <= |Text(r)| }

  /** No read of a head ends beyond its own request. */
  predicate ReadsOwn(rs: seq<Sent>, how: seq<Read>)
    requires |rs| == |how|
  {
    rs == [] || (Own(rs[0], how[0]) && ReadsOwn(rs[1..], how[1..]))
  }

  // ---- One request ---------------------------------------------------------------------------------

  lemma {:induction false} NoDelimFrom(buf: string, n: nat, i: nat)
    requires i <= n <= |buf| && (n < i + 4 || (DelimFrom(buf, i).Some? && n < DelimFrom(buf, i).value))
    ensures DelimFrom(buf[..n], i) == None
    decreases n - i
  {
    assert FourAt(buf[..n], i) ==> FourAt(buf, i);
    if i < n {
      NoDelimFrom(buf, n, i + 1);
    }
  }

  /** The delimiter is not found before all of it is there. */
  lemma NoDelimBefore(buf: string, n: nat)
    requires n <= |buf| && DelimEnd(buf).Some? && n < DelimEnd(buf).value
    ensures DelimEnd(buf[..n]) == None
  {
    NoDelimFrom(buf, n, 0);
  }

  lemma DeclaredOrEmpty(r: Sent, read: Read)
    requires GoodRead(r, read)
    ensures read.declared.None? ==> r.body == ""
    ensures read.declared.Some? ==> Stoull(read.declared.value) == Some(|r.body|)
  {
    if exists h <- r.headers :: SameName(h.0, CONTENT_LENGTH) {
      DeclaredValue(r.headers, read.declared, |r.body|);
    }
  }

  /** What of the body is not in a buffer that holds `after` behind the head. */
  function Lacking(r: Sent, after: string): nat { if |after| >= |r.body| then 0 else |r.body| - |after| }

  function HeadOf(r: Sent, after: string): Head { Head(r.verb, r.path, r.version, r.headers, after) }

  lemma BufferContent(head: Head, after: string, coming: string, declares: bool, size: nat, lacking: nat)
    requires head.Head? && head.rest == after && lacking == (if |after| >= size then 0 else size - |after|) <= |coming|
    requires !declares ==> size == 0
    ensures ReadContent(head, |after|, coming, declares, if declares then Some(size) else None) ==
            Dispatched(head, after + coming[..lacking])
  {
    assert after + coming[..0] == after;
  }

  /** A buffer that holds a whole head: the content is what is behind the head, and what of the body is lacking. */
  lemma BufferRead(r: Sent, read: Read, after: string, coming: string)
    requires GoodRead(r, read) && Lacking(r, after) <= |coming|
    ensures var buf := HeadText(r) + after;
            && DelimEnd(buf) == Some(|HeadText(r)|) && Missing(buf, read.declared) == Lacking(r, after)
            && ReadRequest(buf, coming, read.declared) ==
               Dispatched(HeadOf(r, after), after + coming[..Lacking(r, after)])
  {
    HeadReadBack(r.verb, r.path, r.version, r.headers, after);
    DeclaredOrEmpty(r, read);
    BufferContent(HeadOf(r, after), after, coming, read.declared.Some?, |r.body|, Lacking(r, after));
  }

  lemma OneIs(stream: string, read: Read, buf: string, coming: string, o: Outcome, missing: nat)
    requires read.taken <= |stream| && buf == stream[..read.taken] && coming == stream[read.taken..]
    requires DelimEnd(buf).Some? && o == ReadRequest(buf, coming, read.declared)
    requires missing == Missing(buf, read.declared)
    ensures ReadOne(stream, read) == One(o, read.taken + missing)
  {}

  lemma OneRead(stream: string, r: Sent, read: Read, after: string, coming: string)
    requires GoodRead(r, read) && Lacking(r, after) <= |coming| && read.taken <= |stream|
    requires stream[..read.taken] == HeadText(r) + after && stream[read.taken..] == coming
    ensures ReadOne(stream, read) ==
            One(Dispatched(HeadOf(r, after), after + coming[..Lacking(r, after)]), read.taken + Lacking(r, after))
  {
    BufferRead(r, read, after, coming);
    OneIs(stream, read, HeadText(r) + after, coming,
          Dispatched(HeadOf(r, after), after + coming[..Lacking(r, after)]), Lacking(r, after));
  }

  lemma OwnPieces(head: string, body: string, rest: string, n: nat)
    requires |head| <= n <= |head| + |body|
    ensures var stream, got := (head + body) + rest, n - |head|;
            stream[..n] == head + body[..got] && stream[n..] == body[got..] + rest
  {}

  lemma WholeBody(body: string, rest: string, got: nat)
    requires got <= |body|
    ensures body[..got] + (body[got..] + rest)[..|body| - got] == body
  {}

  /** A read that ends within its request gives the request. */
  lemma OwnRead(r: Sent, read: Read, rest: string)
    requires GoodRead(r, read) && |HeadText(r)| <= read.taken <= |Text(r)|
    ensures ReadOne(Text(r) + rest, read) ==
            One(Dispatched(HeadOf(r, r.body[..read.taken - |HeadText(r)|]), r.body), |Text(r)|)
  {
    var got := read.taken - |HeadText(r)|;
    OwnPieces(HeadText(r), r.body, rest, read.taken);
    WholeBody(r.body, rest, got);
    OneRead(Text(r) + rest, r, read, r.body[..got], r.body[got..] + rest);
  }

  lemma BeyondPieces(head: string, body: string, rest: string, k: nat)
    requires k <= |rest|
    ensures var stream, n := (head + body) + rest, |head + body| + k;
            stream[..n] == head + (body + rest[..k]) && stream[n..] == rest[k..]
  {}

  /** A read that ends k bytes beyond its request takes these for content, too. */
  lemma BeyondRead(r: Sent, read: Read, rest: string, k: nat)
    requires GoodRead(r, read) && k <= |rest| && read.taken == |Text(r)| + k
    ensures ReadOne(Text(r) + rest, read) ==
            One(Dispatched(HeadOf(r, r.body + rest[..k]), r.body + rest[..k]), read.taken)
  {
    var after := r.body + rest[..k];
    BeyondPieces(HeadText(r), r.body, rest, k);
    assert after + rest[k..][..0] == after;
    OneRead(Text(r) + rest, r, read, after, rest[k..]);
  }

  lemma TextThen(head: string, body: string, rest: string)
    ensures (head + body) + rest == head + (body + rest)
  {}

  /** A read that ends within the head is not one that read_until completes. */
  lemma ShortRead(r: Sent, read: Read, rest: string)
    requires GoodRead(r, read) && read.taken < |HeadText(r)|
    ensures ReadOne(Text(r) + rest, read) == One(Waiting, 0)
  {
    TextThen(HeadText(r), r.body, rest);
    HeadReadBack(r.verb, r.path, r.version, r.headers, r.body + rest);
    NoDelimBefore(Text(r) + rest, read.taken);
  }

  // ---- The connection ------------------------------------------------------------------------------

  /** A result that is the request r, taken as a whole, or anything else, as the read is r's own or not. */
  ghost predicate ReadsWell(one: (string, Read) -> One, r: Sent, read: Read, rest: string) {
    GoodRead(r, read) ==>
      var first := one(Text(r) + rest, read);
      if Own(r, read) then
        && Handled(first.outcome) == Some(r) && first.used == |Text(r)|
        && (KeepsAlive(first.outcome, read.number) <==>
            HttpResponses.KeepsAlive(HttpResponses.Request(r.headers, read.number)))
      else Handled(first.outcome) != Some(r)
  }

  lemma ReadOneWell(r: Sent, read: Read, rest: string)
    ensures ReadsWell(ReadOne, r, read, rest)
  {
    if GoodRead(r, read) {
      var n := read.taken;
      if n < |HeadText(r)| {
        ShortRead(r, read, rest);
      } else if n <= |Text(r)| {
        OwnRead(r, read, rest);
      } else if n <= |Text(r)| + |rest| {
        BeyondRead(r, read, rest, n - |Text(r)|);
        assert |r.body + rest[..n - |Text(r)|]| > |r.body|;
      } else {
        assert ReadOne(Text(r) + rest, read) == One(Waiting, 0);
      }
    }
  }

  lemma AllHandledFirst(o: Outcome, more: seq<Outcome>)
    ensures AllHandled([o] + more) == [Handled(o)] + AllHandled(more)
  {
    assert ([o] + more)[1..] == more;
  }

  lemma SameFirst<T>(x: T, y: T, a: seq<T>, b: seq<T>)
    ensures [x] + a == [y] + b <==> x == y && a == b
  {
    assert ([x] + a)[0] == x && ([y] + b)[0] == y && ([x] + a)[1..] == a && ([y] + b)[1..] == b;
  }

  /** What is served behind the first request. */
  function ServedNext(one: (string, Read) -> One, stream: string, how: seq<Read>): seq<Outcome>
    requires how != []
  {
    var first := one(stream, how[0]);
    if KeepsAlive(first.outcome, how[0].number) && first.used <= |stream| then
      ServeWith(one, stream[first.used..], how[1..])
    else []
  }

  lemma ServeFirst(one: (string, Read) -> One, stream: string, how: seq<Read>)
    requires how != []
    ensures AllHandled(ServeWith(one, stream, how)) ==
            [Handled(one(stream, how[0]).outcome)] + AllHandled(ServedNext(one, stream, how))
  {
    AllHandledFirst(one(stream, how[0]).outcome, ServedNext(one, stream, how));
  }

  /** Behind a request that was read as a whole, the next ones are served, if there are any. */
  lemma BehindOwn(one: (string, Read) -> One, rs: seq<Sent>, how: seq<Read>)
    requires |rs| == |how| && rs != [] && GoodReads(rs, how) && Own(rs[0], how[0])
    requires ReadsWell(one, rs[0], how[0], Texts(rs[1..]))
    ensures ServedNext(one, Texts(rs), how) == ServeWith(one, Texts(rs[1..]), how[1..])
  {
    HttpResponses.KeepsAliveIs(HttpResponses.Request(rs[0].headers, how[0].number));
    assert Texts(rs)[|Text(rs[0])|..] == Texts(rs[1..]);
  }

  lemma {:induction false} OwnWith(one: (string, Read) -> One, rs: seq<Sent>, how: seq<Read>)
    requires |rs| == |how| && GoodReads(rs, how)
    requires forall r, read, rest :: ReadsWell(one, r, read, rest)
    ensures AllHandled(ServeWith(one, Texts(rs), how)) == AsSent(rs) <==> ReadsOwn(rs, how)
    decreases |rs|
  {
    if rs != [] {
      assert ReadsWell(one, rs[0], how[0], Texts(rs[1..]));
      var seen := Handled(one(Texts(rs), how[0]).outcome);
      ServeFirst(one, Texts(rs), how);
      SameFirst(seen, Some(rs[0]), AllHandled(ServedNext(one, Texts(rs), how)), AsSent(rs[1..]));
      if Own(rs[0], how[0]) {
        BehindOwn(one, rs, how);
        OwnWith(one, rs[1..], how[1..]);
      }
    }
  }

  /**
   * Requests sent one behind the other on a connection they keep: each handler gets its own head and body exactly if
   * each read of a head ends within its own request. The buffer is new for each request, so what a read takes beyond
   * one request is content of that request, and missing from the next.
   */
  lemma OwnContentExactly(rs: seq<Sent>, how: seq<Read>)
    requires |rs| == |how| && GoodReads(rs, how)
    ensures AllHandled(Serve(Texts(rs), how)) == AsSent(rs) <==> ReadsOwn(rs, how)
  {
    forall r, read, rest ensures ReadsWell(ReadOne, r, read, rest) {
      ReadOneWell(r, read, rest);
    }
    OwnWith(ReadOne, rs, how);
  }

  lemma ServeTwo(one: (string, Read) -> One, stream: string, how: seq<Read>, o: Outcome)
    requires |how| == 2 && one(stream, how[0]) == One(o, |stream|) && KeepsAlive(o, how[0].number)
    requires one("", how[1]).outcome == Waiting
    ensures AllHandled(ServeWith(one, stream, how)) == [Handled(o), None]
  {
    assert stream[|stream|..] == "";
    AllHandledFirst(o, ServeWith(one, "", how[1..]));
    AllHandledFirst(Waiting, []);
    assert [Waiting] + [] == [Waiting];
  }

  lemma NothingLeft(read: Read)
    ensures ReadOne("", read).outcome == Waiting
  {
    if read.taken == 0 {
      assert DelimEnd("") == None;
    }
  }

  /** Two requests that arrive together: the first handler gets the second request for content, and that is all. */
  lemma SecondIsSwallowed(a: Sent, b: Sent, how: seq<Read>)
    requires |how| == 2 && GoodRead(a, how[0]) && how[0].taken == |Text(a)| + |Text(b)|
    requires HttpResponses.Persists(HttpResponses.Request(a.headers, how[0].number))
    ensures AllHandled(Serve(Text(a) + Text(b), how)) == [Some(a.(body := a.body + Text(b))), None]
  {
    HttpResponses.KeepsAliveIs(HttpResponses.Request(a.headers, how[0].number));
    BeyondRead(a, how[0], Text(b), |Text(b)|);
    assert Text(b)[..|Text(b)|] == Text(b);
    NothingLeft(how[1]);
    var content := a.body + Text(b);
    ServeTwo(ReadOne, Text(a) + Text(b), how, Dispatched(HeadOf(a, content), content));
  }
}
