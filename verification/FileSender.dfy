/** Sending a file in chunks, re-entered from each write's callback, and the final flush by the deleter. */
module FileSender {
  import opened Wrappers
  import opened HttpHead
  import opened HttpConsumption
  import opened HttpContent

  datatype Stage = Sending | Flushing | Finished | Dead

  datatype State = State(
    pos: nat,            // how much of the file has been read
    buffered: string,    // the response's stream buffer
    wire: string,        // everything written to the socket
    stage: Stage,
    failed: bool         // a write has failed
  )

  datatype Event = Write(count: nat) | Done(ok: bool)

  /** The bytes the next read of the file gives. */
  function Chunk(file: string, size: nat, pos: nat): string
    requires pos <= |file|
  {
    if pos + size <= |file| then file[pos..pos + size] else file[pos..]
  }

  /** default_resource_send: a full chunk is sent and asks for more, anything else is left to the deleter. */
  function SendChunk(file: string, size: nat, st: State): State
    requires st.pos <= |file|
  {
    var chunk := Chunk(file, size, st.pos);
    st.(pos := st.pos + |chunk|, buffered := st.buffered + chunk,
        stage := if |chunk| == size then Sending else Flushing)
  }

  function Begin(file: string, size: nat, head: string): State {
    SendChunk(file, size, State(0, head, "", Flushing, false))
  }

  predicate Writing(st: State) { st.stage.Sending? || st.stage.Flushing? }

  predicate Enabled(st: State, ev: Event) {
    match ev
    case Write(n) => Writing(st) && 0 < n <= |st.buffered|
    case Done(ok) => Writing(st) && (ok ==> st.buffered == "")
  }

  function Step(file: string, size: nat, st: State, ev: Event): State
    requires st.pos <= |file| && Enabled(st, ev)
  {
    match ev
    case Write(n) => st.(wire := st.wire + st.buffered[..n], buffered := st.buffered[n..])
    case Done(ok) =>
      if st.stage.Sending? then
        if ok then SendChunk(file, size, st) else st.(stage := Flushing, failed := true)
      else if ok then st.(stage := Finished)
      else st.(stage := Dead, failed := true)
  }

  predicate Inv(file: string, head: string, st: State) {
    && st.pos <= |file|
    && st.wire + st.buffered == head + file[..st.pos]
    && (!st.failed && !st.stage.Sending? ==> st.pos == |file|)
    && (st.stage.Finished? ==> st.buffered == "")
    && (st.stage.Dead? ==> st.failed)
  }

  predicate ValidRun(file: string, size: nat, st: State, evs: seq<Event>)
    decreases |evs|
  {
    evs == [] ||
    (st.pos <= |file| && Enabled(st, evs[0]) && ValidRun(file, size, Step(file, size, st, evs[0]), evs[1..]))
  }

  function Exec(file: string, size: nat, st: State, evs: seq<Event>): State
    requires ValidRun(file, size, st, evs)
    decreases |evs|
  {
    if evs == [] then st else Exec(file, size, Step(file, size, st, evs[0]), evs[1..])
  }

  lemma Extend(file: string, head: string, pos: nat, wire: string, buffered: string, chunk: string)
    requires pos + |chunk| <= |file| && chunk == file[pos..pos + |chunk|] && wire + buffered == head + file[..pos]
    ensures wire + (buffered + chunk) == head + file[..pos + |chunk|]
  {
    assert file[..pos + |chunk|] == file[..pos] + chunk;
    assert wire + (buffered + chunk) == (wire + buffered) + chunk;
  }

  lemma ChunkKeepsInv(file: string, size: nat, head: string, st: State)
    requires st.pos <= |file| && st.wire + st.buffered == head + file[..st.pos]
    requires !st.stage.Finished? && !st.stage.Dead?
    requires size > 0 && !st.failed
    ensures Inv(file, head, SendChunk(file, size, st))
  {
    var chunk := Chunk(file, size, st.pos);
    Extend(file, head, st.pos, st.wire, st.buffered, chunk);
  }

  lemma StepKeepsInv(file: string, size: nat, head: string, st: State, ev: Event)
    requires size > 0 && Inv(file, head, st) && Enabled(st, ev) && (st.failed ==> !st.stage.Sending?)
    ensures Inv(file, head, Step(file, size, st, ev))
    ensures var st' := Step(file, size, st, ev); st'.failed ==> !st'.stage.Sending?
  {
    match ev
    case Write(n) =>
      assert (st.wire + st.buffered[..n]) + st.buffered[n..] == st.wire + st.buffered;
    case Done(ok) =>
      if st.stage.Sending? && ok {
        ChunkKeepsInv(file, size, head, st);
      }
  }

  lemma {:induction false} RunKeepsInv(file: string, size: nat, head: string, st: State, evs: seq<Event>)
    requires size > 0 && Inv(file, head, st) && (st.failed ==> !st.stage.Sending?) && ValidRun(file, size, st, evs)
    ensures Inv(file, head, Exec(file, size, st, evs))
    decreases |evs|
  {
    if evs != [] {
      StepKeepsInv(file, size, head, st, evs[0]);
      RunKeepsInv(file, size, head, Step(file, size, st, evs[0]), evs[1..]);
    }
  }

  lemma FromBegin(file: string, size: nat, head: string, evs: seq<Event>)
    requires size > 0 && ValidRun(file, size, Begin(file, size, head), evs)
    ensures Inv(file, head, Exec(file, size, Begin(file, size, head), evs))
  {
    assert "" + head == head + file[..0];
    ChunkKeepsInv(file, size, head, State(0, head, "", Flushing, false));
    RunKeepsInv(file, size, head, Begin(file, size, head), evs);
  }

  lemma PrefixOfWhole(file: string, head: string, pos: nat, wire: string, buffered: string)
    requires pos <= |file| && wire + buffered == head + file[..pos]
    ensures wire <= head + file
  {
    assert head + file == (wire + buffered) + file[pos..];
  }

  /**
   * Over every run, whatever fails, the socket holds a prefix of the head followed by the file; when the
   * deleter's flush has completed on a run without failures it holds exactly that.
   */
  lemma FileIsSentWhole(file: string, size: nat, head: string, evs: seq<Event>)
    requires size > 0 && ValidRun(file, size, Begin(file, size, head), evs)
    ensures var st := Exec(file, size, Begin(file, size, head), evs);
            st.wire <= head + file && (st.stage.Finished? && !st.failed ==> st.wire == head + file)
  {
    FromBegin(file, size, head, evs);
    var st := Exec(file, size, Begin(file, size, head), evs);
    PrefixOfWhole(file, head, st.pos, st.wire, st.buffered);
    assert file[..|file|] == file && st.wire + "" == st.wire;
  }

  lemma {:induction false} NoMoreIsRead(file: string, size: nat, st: State, evs: seq<Event>)
    requires !st.stage.Sending? && ValidRun(file, size, st, evs)
    ensures Exec(file, size, st, evs).pos == st.pos
    decreases |evs|
  {
    if evs != [] {
      NoMoreIsRead(file, size, Step(file, size, st, evs[0]), evs[1..]);
    }
  }

  /**
   * After the failed write of a chunk no more of the file is ever read, and the deleter still tries to flush what
   * is buffered.
   */
  lemma FailedChunk(file: string, size: nat, st: State, evs: seq<Event>, n: nat)
    requires st.pos <= |file| && st.stage.Sending?
    requires ValidRun(file, size, Step(file, size, st, Done(false)), evs)
    ensures var failed := Step(file, size, st, Done(false));
            && Exec(file, size, failed, evs).pos == st.pos && failed.buffered == st.buffered
            && (Enabled(failed, Write(n)) <==> 0 < n <= |st.buffered|)
  {
    NoMoreIsRead(file, size, Step(file, size, st, Done(false)), evs);
  }

  // ---- The objects ---------------------------------------------------------------------------------

  /** The response, the open file and the buffer its chunks are read into, as the callbacks share them. */
  class FileResponse {
    const file: string
    const buffer: array<char>
    var pos: nat
    var streambuf: string
    var wire: string
    var stage: Stage
    var failed: bool

    ghost function Abs(): State
      reads this
    {
      State(pos, streambuf, wire, stage, failed)
    }

    constructor (file: string, buffer: array<char>, head: string)
      requires buffer.Length > 0
      modifies buffer
      ensures this.file == file && this.buffer == buffer
      ensures Abs() == Begin(file, buffer.Length, head)
    {
      this.file, this.buffer := file, buffer;
      pos, streambuf, wire, stage, failed := 0, head, "", Flushing, false;
      new;
      DefaultResourceSend();
    }

    /** Reads into the buffer as much as there is and fits. */
    method Read() returns (count: nat)
      requires pos <= |file|
      modifies this`pos, buffer
      ensures count <= buffer.Length && buffer[..count] == Chunk(file, buffer.Length, old(pos))
      ensures pos == old(pos) + count
    {
      count := if pos + buffer.Length <= |file| then buffer.Length else |file| - pos;
      var i := 0;
      while i < count
        invariant i <= count && buffer[..i] == file[pos..pos + i]
        modifies buffer
      {
        buffer[i] := file[pos + i];
        i := i + 1;
      }
      pos := pos + count;
    }

    method DefaultResourceSend()
      requires pos <= |file| && buffer.Length > 0
      modifies this, buffer
      ensures Abs() == SendChunk(file, buffer.Length, old(Abs()))
    {
      var readLength := Read();
      stage := Flushing;
      if readLength > 0 {
        streambuf := streambuf + buffer[..readLength];
        if readLength == buffer.Length {
          stage := Sending;
        }
      } else {
        assert buffer[..readLength] == "" && streambuf + "" == streambuf;
      }
    }

    method WriteSome(n: nat)
      requires Enabled(Abs(), Write(n))
      modifies this
      ensures Abs() == old(Abs()).(wire := old(wire) + old(streambuf)[..n], buffered := old(streambuf)[n..])
    {
      wire := wire + streambuf[..n];
      streambuf := streambuf[n..];
    }

    /** A write has ended: its callback, or after the deleter's flush nothing more. */
    method WriteDone(ok: bool)
      requires pos <= |file| && buffer.Length > 0 && Enabled(Abs(), Done(ok))
      modifies this, buffer
      ensures Abs() == Step(file, buffer.Length, old(Abs()), Done(ok))
    {
      if stage == Sending {
        if ok {
          DefaultResourceSend();
        } else {
          stage, failed := Flushing, true;
        }
      } else if ok {
        stage := Finished;
      } else {
        stage, failed := Dead, true;
      }
    }
  }

  // ---- Termination ---------------------------------------------------------------------------------

  function Left(file: string, st: State): int {
    3 * (|file| - st.pos) + |st.buffered| + if st.stage.Sending? then 2 else if st.stage.Flushing? then 1 else 0
  }

  /** Every step brings the response closer to its end: the recursion stops for every file. */
  lemma StepsAreFinite(file: string, size: nat, head: string, st: State, ev: Event)
    requires size > 0 && Inv(file, head, st) && Enabled(st, ev)
    ensures 0 <= Left(file, Step(file, size, st, ev)) < Left(file, st)
  {}

  /** Without failures the response always completes, with the whole file written, whatever its length. */
  lemma {:induction false} CompletesFrom(file: string, size: nat, head: string, st: State) returns (evs: seq<Event>)
    requires size > 0 && Inv(file, head, st) && !st.failed && !st.stage.Dead?
    ensures ValidRun(file, size, st, evs)
    ensures var st' := Exec(file, size, st, evs); st'.stage.Finished? && !st'.failed
    decreases Left(file, st)
  {
    if st.stage.Finished? {
      evs := [];
    } else {
      var ev := if st.buffered == "" then Done(true) else Write(|st.buffered|);
      StepKeepsInv(file, size, head, st, ev);
      StepsAreFinite(file, size, head, st, ev);
      var more := CompletesFrom(file, size, head, Step(file, size, st, ev));
      evs := [ev] + more;
      assert evs[1..] == more;
    }
  }

  lemma FileCompletes(file: string, size: nat, head: string) returns (evs: seq<Event>)
    requires size > 0
    ensures ValidRun(file, size, Begin(file, size, head), evs)
    ensures var st := Exec(file, size, Begin(file, size, head), evs); st.stage.Finished? && st.wire == head + file
  {
    FromBegin(file, size, head, []);
    evs := CompletesFrom(file, size, head, Begin(file, size, head));
    FileIsSentWhole(file, size, head, evs);
  }

  function FullChunks(n: nat, size: nat): nat
    requires size > 0
  {
    if n < size then 0 else 1 + FullChunks(n - size, size)
  }

  /** How many writes are yet to complete. */
  function WritesLeft(file: string, size: nat, st: State): nat
    requires size > 0 && st.pos <= |file|
  {
    if st.stage.Sending? then 2 + FullChunks(|file| - st.pos, size) else if st.stage.Flushing? then 1 else 0
  }

  lemma {:induction false} FullChunksIs(n: nat, size: nat)
    requires size > 0
    ensures FullChunks(n, size) * size <= n < (FullChunks(n, size) + 1) * size
  {
    if n >= size {
      FullChunksIs(n - size, size);
    }
  }

  function Completions(evs: seq<Event>): nat {
    if evs == [] then 0 else (if evs[0].Done? then 1 else 0) + Completions(evs[1..])
  }

  lemma {:induction false} FailureStays(file: string, size: nat, st: State, evs: seq<Event>)
    requires ValidRun(file, size, st, evs) && st.failed
    ensures Exec(file, size, st, evs).failed
    decreases |evs|
  {
    if evs != [] {
      FailureStays(file, size, Step(file, size, st, evs[0]), evs[1..]);
    }
  }

  lemma StepCompletes(file: string, size: nat, st: State, ev: Event)
    requires size > 0 && st.pos <= |file| && Enabled(st, ev) && !Step(file, size, st, ev).failed
    ensures Step(file, size, st, ev).pos <= |file|
    ensures WritesLeft(file, size, st) ==
            (if ev.Done? then 1 else 0) + WritesLeft(file, size, Step(file, size, st, ev))
  {}

  lemma {:induction false} RunCompletes(file: string, size: nat, st: State, evs: seq<Event>)
    requires size > 0 && st.pos <= |file| && ValidRun(file, size, st, evs)
    requires Exec(file, size, st, evs).stage.Finished? && !Exec(file, size, st, evs).failed
    ensures Completions(evs) == WritesLeft(file, size, st)
    decreases |evs|
  {
    if evs != [] {
      var next := Step(file, size, st, evs[0]);
      if next.failed {
        FailureStays(file, size, next, evs[1..]);
      }
      StepCompletes(file, size, st, evs[0]);
      RunCompletes(file, size, next, evs[1..]);
    }
  }

  /** A response that completes takes one write for each full chunk of the file, and the deleter's flush. */
  lemma OneWritePerChunk(file: string, size: nat, head: string, evs: seq<Event>) returns (chunks: nat)
    requires size > 0 && ValidRun(file, size, Begin(file, size, head), evs)
    requires var st := Exec(file, size, Begin(file, size, head), evs); st.stage.Finished? && !st.failed
    ensures Completions(evs) == chunks + 1 && chunks * size <= |file| < (chunks + 1) * size
  {
    chunks := FullChunks(|file|, size);
    FullChunksIs(|file|, size);
    RunCompletes(file, size, Begin(file, size, head), evs);
  }

  // ---- The head ------------------------------------------------------------------------------------

  /** What the file handler writes in front of a file of n bytes. */
  function FileHead(n: nat): string {
    "HTTP/1.1 200 OK\r\nContent-Length: " + Decimal(n) + "\r\n\r\n"
  }

  lemma {:induction false} DecimalIsPlain(s: string)
    requires forall c <- s :: IsDigit(c)
    ensures NoChar('\n', s)
  {
    forall i | 0 <= i < |s| ensures s[i] != '\n' {
      assert s[i] in s;
    }
  }

  /** A line that ends like every line of a head. */
  predicate HeadLine(line: string) { NoChar('\n', line) && line != "" && line[|line| - 1] == '\r' }

  lemma FileHeadShape(n: nat) returns (line: string, h: Header)
    ensures HeadLine(line) && h == (CONTENT_LENGTH, Decimal(n)) && GoodHeader(h)
    ensures line == "HTTP/1.1 200 OK\r" && FileHead(n) == line + "\n" + PrintFields([h])
  {
    h := (CONTENT_LENGTH, Decimal(n));
    line := "HTTP/1.1 200 OK\r";
    DecimalIsPlain(h.1);
    assert [h][1..] == [];
    assert PrintFields([h]) == PrintField(h) + "\n" + "\r\n";
    assert "HTTP/1.1 200 OK\r\nContent-Length: " == line + "\n" + "Content-Length" + ": ";
    assert "\r\n\r\n" == "\r" + "\n" + "\r\n";
  }

  /**
   * What a client makes of the bytes: a status line of success, a head that ends at the first delimiter, at k, one
   * field, which gives the size of what follows, and behind the head the file.
   */
  predicate Delivers(wire: string, k: nat, file: string) {
    && LineOf(wire) == "HTTP/1.1 200 OK\r" && DelimEnd(wire) == Some(k) && wire[k..] == file
    && BlankAhead(RestOf(wire))
    && HeaderFields(RestOf(wire)) == ([("Content-Length", Decimal(|file|))], file)
  }

  lemma OneHeader(h: Header)
    requires GoodHeader(h)
    ensures GoodHeaders([h])
  {
    assert [h][1..] == [];
  }

  lemma FieldBehindLine(line: string, headers: seq<Header>, head: string, file: string)
    requires HeadLine(line) && GoodHeaders(headers) && head == line + "\n" + PrintFields(headers)
    ensures DelimEnd(head + file) == Some(|head|) && (head + file)[|head|..] == file
    ensures LineOf(head + file) == line
    ensures BlankAhead(RestOf(head + file)) && HeaderFields(RestOf(head + file)) == (headers, file)
  {
    HeadSplit(line, headers, file);
    HeadDelim(line, headers, file);
    LineAndRest(line, PrintFields(headers) + file);
    FieldsReadBack(headers, file);
  }

  lemma HeadDelivers(head: string, file: string)
    requires head == FileHead(|file|)
    ensures Delivers(head + file, |head|, file)
  {
    var line, h := FileHeadShape(|file|);
    OneHeader(h);
    FieldBehindLine(line, [h], head, file);
  }

  /** A completed response delivers the file, and the length it declares is that of the bytes behind the head. */
  lemma ClientReadsFile(file: string, size: nat, evs: seq<Event>)
    requires size > 0 && |file| < TWO_64
    requires var st0 := Begin(file, size, FileHead(|file|));
             && ValidRun(file, size, st0, evs)
             && Exec(file, size, st0, evs).stage.Finished? && !Exec(file, size, st0, evs).failed
    ensures var wire := Exec(file, size, Begin(file, size, FileHead(|file|)), evs).wire;
            Delivers(wire, |FileHead(|file|)|, file) && Stoull(Decimal(|file|)) == Some(|wire| - |FileHead(|file|)|)
  {
    FileIsSentWhole(file, size, FileHead(|file|), evs);
    StoullOfDecimal(|file|);
    HeadDelivers(FileHead(|file|), file);
  }
}
