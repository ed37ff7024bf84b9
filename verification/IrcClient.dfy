/** The IRC client's printers and the dispatcher that reads such lines. */
module IrcClient {
  import opened Wrappers
  import opened Strings
  import opened IrcRegex
  import opened IrcMessage
  import opened IrcPrint
  import opened IrcGrammar

  /** send(cmd, params) without the line end. */
  function LineOf(command: string, params: seq<string>): string {
    command + " " + Join(params, " ")
  }

  function JoinLine(channels: seq<string>, keys: seq<string>): string {
    LineOf("JOIN", [Join(channels, ","), Join(keys, ",")])
  }

  function PrivmsgLine(target: string, text: string): string {
    LineOf("PRIVMSG", [target, ":" + text])
  }

  /** The answer to a PING with these names. */
  function PongFor(server: string, server2: string): string { "PONG " + server + " " + server2 + "\r\n" }

  /** What a received message makes the client do. */
  datatype Dispatch =
    | Privmsg(target: string, text: string)
    | Ping(server: string, server2: string)
    | Joined(channels: seq<string>, keys: seq<string>)
    | Ignored                                            // a PING without parameters
    | Unhandled
    | OutOfRange                                         // a parameter that is not there would be read

  /** std::string indexing at a position up to the length. */
  function CharOf(s: string, i: nat): char { if i < |s| then s[i] else '\0' }

  /** `message`: the first letters of the command decide. */
  function Handle(m: Data): Dispatch {
    var first, second := CharOf(m.command, 0), CharOf(m.command, 1);
    if first == 'P' then
      if second == 'R' then
        if |m.params| < 2 then OutOfRange else Privmsg(m.params[0], m.params[1])
      else if second == 'I' then
        if |m.params| == 1 then Ping(m.params[0], "")
        else if |m.params| > 1 then Ping(m.params[0], m.params[1])
        else Ignored
      else Unhandled
    else if first == 'J' then
      Joined(if |m.params| > 0 then Split(m.params[0], ',') else [],
             if |m.params| > 1 then Split(m.params[1], ',') else [])
    else Unhandled
  }

  // ---- Lines of two parameters ---------------------------------------------------------------------

  /** A first parameter that stays by itself. */
  predicate Plain(a: string) { a != "" && a[0] != ':' && ' ' !in a }

  /** A second parameter that comes back unchanged: nothing, a word, or something that starts with a space. */
  predicate Kept(b: string) { b == "" || b[0] == ' ' || Plain(b) }

  predicate GoodCommand(c: string) { c != "" && ' ' !in c && c[0] != ':' && c[0] != '@' }

  function TwoParts(command: string, a: string, b: string): string { command + (" " + (a + (" " + b))) }

  lemma LineIsTwoParts(command: string, a: string, b: string)
    ensures LineOf(command, [a, b]) == TwoParts(command, a, b)
  {
    assert [a, b][1..] == [b];
    assert Join([a, b], " ") == a + " " + b;
  }

  /** How the parameters of such a line begin, by what its first parameter starts with. */
  lemma ParamsFrom(command: string, ws: seq<string>, after: string)
    requires GoodCommand(command) && |ws| <= MAX_MIDDLES && GoodWords(ws) && EndsMiddles(after, |ws| == MAX_MIDDLES)
    ensures var d := Parse(command + (Words(ws) + after));
            d.command == command && d.params == ws + [TrailingText(after, 0)]
  {
    var s := command + (Words(ws) + after);
    assert s[0..] == s;
    TailReadBack(s, 0, command, ws, after, NO_FIELDS);
    SplitWords(ws);
    assert s[0] == command[0];
    ParseAtFront(s);
    assert ParseFrom(s, 0) == ParseTail(s, 0, NO_FIELDS);
  }

  lemma WordsOne(a: string)
    ensures Words([a]) == " " + a
  {
    assert [a][1..] == [];
  }

  /** The first word of a text and what follows it. */
  lemma FirstWord(b: string) returns (w: string, more: string)
    requires b != "" && b[0] != ':' && b[0] != ' '
    ensures b == w + more && GoodWord(w) && (more == "" || more[0] == ' ')
    ensures ' ' !in b ==> more == ""
  {
    var e := Span(NOT_SPACE, b, 0);
    SpanPieces(b, 0);
    w, more := b[..e], b[e..];
    assert b[0..e] == w;
    if more != "" {
      assert more[0] == b[e] && b[e] in b;
    }
  }

  /** The words at the start of a text that begins with a space, as many as a message may have. */
  lemma LeadingWords(n: nat, text: string) returns (ws: seq<string>, after: string)
    requires text == "" || text[0] == ' '
    ensures |ws| <= n && GoodWords(ws) && text == Words(ws) + after && EndsMiddles(after, |ws| == n)
  {
    ws := MiddlesAreWords(n, text, 0);
    var e := MiddlesEnd(n, text, 0);
    after := text[e..];
    assert text[0..e] == text[..e] && text == text[..e] + text[e..];
  }

  /** Dropping the leading colon and adding a space always changes a text. */
  lemma {:induction false} ShiftDiffers(a: string)
    requires a != "" && a[0] == ':'
    ensures a[1..] + " " != a
  {
    var shifted := a[1..] + " ";
    if |a| == 1 {
      assert shifted == " ";
    } else if shifted[0] == ':' {
      ShiftDiffers(a[1..]);
      assert shifted[1..] == a[1..][1..] + " ";
    }
  }

  lemma WholeTextIsTrailing(a: string, b: string)
    requires a == "" || a[0] == ':' || a[0] == ' '
    ensures TrailingText(" " + (a + (" " + b)), 0) != a
  {
    var text := " " + (a + (" " + b));
    if a != "" && a[0] == ':' {
      assert text[1] == ':' && text[2..] == a[1..] + (" " + b);
      ShiftDiffers(a);
      assert b == "" ==> " " + b == " ";
    } else {
      assert text[1] != ':' && text[1..] == a + (" " + b);
    }
  }

  lemma Shape(w: string, more: string, b: string, words: string, after: string)
    requires more + (" " + b) == words + after
    ensures " " + ((w + more) + (" " + b)) == (" " + w + words) + after
  {
    assert " " + ((w + more) + (" " + b)) == " " + w + (more + (" " + b));
  }

  lemma GoodMore(w: string, ws: seq<string>)
    requires GoodWord(w) && GoodWords(ws)
    ensures GoodWords([w] + ws)
  {
    assert ([w] + ws)[1..] == ws;
  }

  lemma InnerSpace(command: string, a: string, b: string)
    requires GoodCommand(command) && a != "" && a[0] != ':' && a[0] != ' ' && ' ' in a
    ensures var d := Parse(TwoParts(command, a, b)); d.command == command && d.params != [] && d.params[0] != a
  {
    var w, more := FirstWord(a);
    var text := more + (" " + b);
    var ws, after := LeadingWords(MAX_MIDDLES - 1, text);
    GoodMore(w, ws);
    ParamsFrom(command, [w] + ws, after);
    WordsPrepend(w, ws);
    assert " " + (a + (" " + b)) == Words([w] + ws) + after by { Shape(w, more, b, Words(ws), after); }
    assert w != a;
  }

  /** A first parameter that does not stay by itself is not found again. */
  lemma NotPlain(command: string, a: string, b: string)
    requires GoodCommand(command) && !Plain(a)
    ensures var d := Parse(TwoParts(command, a, b)); d.command == command && d.params != [] && d.params[0] != a
  {
    var text := " " + (a + (" " + b));
    if a != "" && a[0] != ':' && a[0] != ' ' {
      InnerSpace(command, a, b);
    } else {
      assert a == "" ==> text[1] == ' ';
      assert a != "" ==> text[1] == a[0];
      ParamsFrom(command, [], text);
      assert Words([]) + text == text;
      WholeTextIsTrailing(a, b);
    }
  }

  lemma OneWordLine(command: string, a: string, b: string)
    requires Plain(a)
    ensures GoodWords([a]) && TwoParts(command, a, b) == command + (Words([a]) + (" " + b))
  {
    GoodMore(a, []);
    assert [a] + [] == [a];
    WordsOne(a);
    assert " " + (a + (" " + b)) == (" " + a) + (" " + b);
  }

  lemma AfterSpace(b: string)
    ensures TrailingText(" " + b, 0) == if b != "" && b[0] == ':' then b[1..] else b
  {
    assert (" " + b)[1..] == b;
    assert b != "" ==> (" " + b)[1] == b[0] && (" " + b)[2..] == b[1..];
  }

  lemma LastPart(command: string, a: string, b: string)
    requires GoodCommand(command) && Plain(a) && (b == "" || b[0] == ' ' || b[0] == ':')
    ensures var d := Parse(TwoParts(command, a, b));
            d.command == command && d.params == [a, if b != "" && b[0] == ':' then b[1..] else b]
  {
    OneWordLine(command, a, b);
    AfterSpace(b);
    ParamsFrom(command, [a], " " + b);
  }

  lemma TwoShape(a: string, w: string, more: string, words: string, after: string)
    requires more == words + after
    ensures " " + (a + (" " + (w + more))) == (" " + a + (" " + w + words)) + after
  {}

  lemma SecondWord(command: string, a: string, b: string)
    requires GoodCommand(command) && Plain(a) && b != "" && b[0] != ':' && b[0] != ' '
    ensures var d := Parse(TwoParts(command, a, b));
            && d.command == command && |d.params| >= 2 && d.params[0] == a && (d.params[1] == b <==> ' ' !in b)
  {
    var w, more := FirstWord(b);
    var ws, after := LeadingWords(MAX_MIDDLES - 2, more);
    GoodMore(w, ws);
    GoodMore(a, [w] + ws);
    ParamsFrom(command, [a] + ([w] + ws), after);
    WordsPrepend(w, ws);
    WordsPrepend(a, [w] + ws);
    TwoShape(a, w, more, Words(ws), after);
  }

  /** A plain first parameter is found again; the second comes back exactly if it is kept. */
  lemma PlainFirst(command: string, a: string, b: string)
    requires GoodCommand(command) && Plain(a)
    ensures var d := Parse(TwoParts(command, a, b));
            && d.command == command && |d.params| >= 2 && d.params[0] == a
            && (d.params[1] == b <==> Kept(b)) && (b != "" && b[0] == ':' ==> d.params[1] == b[1..])
  {
    if b == "" || b[0] == ' ' || b[0] == ':' {
      LastPart(command, a, b);
    } else {
      SecondWord(command, a, b);
    }
  }

  // ---- The printers and the dispatcher -------------------------------------------------------------

  predicate CommaFree(items: seq<string>) { items != [] && forall x <- items :: ',' !in x }

  /** Splitting a parameter gives the items back exactly if it is their printed form. */
  lemma SplitGives(items: seq<string>, param: string)
    ensures Split(param, ',') == items <==> param == Join(items, ",") && CommaFree(items)
  {
    SplitUndoesJoin(items, ',');
    JoinUndoesSplit(param, ',');
  }

  lemma JoinDispatch(channels: seq<string>, keys: seq<string>, a: string, b: string)
    requires a == Join(channels, ",") && b == Join(keys, ",")
    ensures Handle(Parse(TwoParts("JOIN", a, b))) == Joined(channels, keys) <==>
            CommaFree(channels) && CommaFree(keys) && Plain(a) && Kept(b)
  {
    var d := Parse(TwoParts("JOIN", a, b));
    if Plain(a) {
      PlainFirst("JOIN", a, b);
      SplitGives(keys, d.params[1]);
    } else {
      NotPlain("JOIN", a, b);
    }
    SplitGives(channels, d.params[0]);
  }

  /**
   * A printed JOIN is dispatched with the channels and keys it was printed from exactly if no item holds a
   * comma, both lists have items, the printed channels form a plain parameter and the printed keys are kept.
   */
  lemma JoinRoundTrip(channels: seq<string>, keys: seq<string>)
    ensures Handle(Parse(JoinLine(channels, keys))) == Joined(channels, keys) <==>
            CommaFree(channels) && CommaFree(keys) && Plain(Join(channels, ",")) && Kept(Join(keys, ","))
  {
    var a, b := Join(channels, ","), Join(keys, ",");
    LineIsTwoParts("JOIN", a, b);
    JoinDispatch(channels, keys, a, b);
  }

  lemma {:induction false} JoinedIsPlain(items: seq<string>)
    requires items != [] && forall x <- items :: x != "" && ' ' !in x && ':' !in x
    ensures Plain(Join(items, ","))
  {
    assert items[0] in items && items[0][0] in items[0];
    if |items| > 1 {
      assert forall x <- items[1..] :: x in items;
      JoinedIsPlain(items[1..]);
    }
  }

  /** For channels and keys without spaces, colons or commas, none empty, that is always so. */
  lemma OrdinaryJoinRoundTrip(channels: seq<string>, keys: seq<string>)
    requires channels != [] && forall x <- channels :: x != "" && ' ' !in x && ':' !in x && ',' !in x
    requires keys != [] && forall x <- keys :: x != "" && ' ' !in x && ':' !in x && ',' !in x
    ensures Handle(Parse(JoinLine(channels, keys))) == Joined(channels, keys)
  {
    JoinRoundTrip(channels, keys);
    JoinedIsPlain(channels);
    JoinedIsPlain(keys);
  }

  lemma PrivmsgDispatch(target: string, text: string, b: string)
    requires b != "" && b[0] == ':' && b[1..] == text
    ensures Handle(Parse(TwoParts("PRIVMSG", target, b))) == Privmsg(target, text) <==> Plain(target)
  {
    if Plain(target) {
      PlainFirst("PRIVMSG", target, b);
    } else {
      NotPlain("PRIVMSG", target, b);
    }
  }

  /** A printed PRIVMSG is dispatched with its target and text exactly if the target is a plain parameter. */
  lemma PrivmsgRoundTrip(target: string, text: string)
    ensures Handle(Parse(PrivmsgLine(target, text))) == Privmsg(target, text) <==> Plain(target)
  {
    LineIsTwoParts("PRIVMSG", target, ":" + text);
    PrivmsgDispatch(target, text, ":" + text);
  }

  lemma PingDispatch(a: string, b: string)
    ensures Handle(Parse(TwoParts("PING", a, b))) == Ping(a, b) <==> Plain(a) && Kept(b)
  {
    if Plain(a) {
      PlainFirst("PING", a, b);
    } else {
      NotPlain("PING", a, b);
    }
  }

  /** A printed PING is dispatched with both its names exactly if the first is a plain parameter and the second kept. */
  lemma PingRoundTrip(a: string, b: string)
    ensures Handle(Parse(LineOf("PING", [a, b]))) == Ping(a, b) <==> Plain(a) && Kept(b)
  {
    LineIsTwoParts("PING", a, b);
    PingDispatch(a, b);
  }

  /** The PONG that then answers it names the same two. */
  lemma PongRoundTrip(a: string, b: string)
    requires Plain(a) && Kept(b)
    ensures var d := Parse(LineOf("PONG", [a, b]));
            d.command == "PONG" && |d.params| >= 2 && d.params[0] == a && d.params[1] == b
  {
    LineIsTwoParts("PONG", a, b);
    PlainFirst("PONG", a, b);
  }

  /** A PING as servers send it, with one name behind a colon: the whole text is the name. */
  lemma ServerPing(name: string)
    ensures Handle(Parse("PING :" + name)) == Ping(name, "")
  {
    var after := " :" + name;
    ParamsFrom("PING", [], after);
    assert "PING :" + name == "PING" + (Words([]) + after);
    assert after[2..] == name;
  }

  // ---- Inputs that are not given back --------------------------------------------------------------

  /** Without keys, the default of the printer, a JOIN comes back with one empty key. */
  lemma JoinWithoutKeys()
    ensures Handle(Parse(JoinLine(["#a"], []))) == Joined(["#a"], [""]) != Joined(["#a"], [])
  {
    var b := Join([], ",");
    assert Join(["#a"], ",") == "#a";
    LineIsTwoParts("JOIN", "#a", b);
    PlainFirst("JOIN", "#a", b);
    assert Split("", ',') == [""];
    SplitSingle("#a", ',');
  }

  /** A target that is empty or holds a space is lost. */
  lemma PrivmsgToNobody()
    ensures Handle(Parse(PrivmsgLine("", "hi"))) != Privmsg("", "hi")
    ensures Handle(Parse(PrivmsgLine("a b", "hi"))) != Privmsg("a b", "hi")
  {
    PrivmsgRoundTrip("", "hi");
    PrivmsgRoundTrip("a b", "hi");
    assert "a b"[1] == ' ';
  }

  /** A second name loses its colon. */
  lemma PingLosesColon()
    ensures Handle(Parse(LineOf("PING", ["a", ":b"]))) != Ping("a", ":b")
  {
    PingRoundTrip("a", ":b");
  }

  // ---- Reading past the parameters -----------------------------------------------------------------

  /** A message whose command starts with these letters is taken for a PRIVMSG. */
  predicate LooksPrivmsg(command: string) { |command| >= 2 && command[0] == 'P' && command[1] == 'R' }

  /**
   * A printed message makes the dispatcher read a parameter that is not there exactly if its command starts with
   * PR and it has no middle parameter: a trailing text alone is the first parameter, not the second.
   */
  lemma OutOfRangeWhenPrinted(m: Parts)
    requires WellFormed(m)
    ensures Handle(Parse(Print(m))) == OutOfRange <==> LooksPrivmsg(m.command) && m.middles == []
  {
    PrintedMessageIsReadBack(m);
  }

  lemma NoTargetParts() returns (m: Parts)
    ensures WellFormed(m) && LooksPrivmsg(m.command) && m.middles == [] && Print(m) == ":n!u@h PRIVMSG :hi"
  {
    m := Parts([], Some(Source("n", UserAtHost("u", "h"))), "PRIVMSG", [], Some("hi"));
    assert SourceText(m.source.value) == "n!u@h";
    assert PrintSource(m.source) == ":n!u@h ";
    assert PrintTail(m, " :hi") == "PRIVMSG :hi";
  }

  /** A PRIVMSG without a target is enough. */
  lemma OutOfRangeLine()
    ensures Handle(Parse(":n!u@h PRIVMSG :hi")) == OutOfRange
  {
    var m := NoTargetParts();
    OutOfRangeWhenPrinted(m);
  }

  /** No word follows position c of a line: it ends there, or goes on with a colon or a second space. */
  predicate NoWordFollows(s: string, c: nat) { c + 1 >= |s| || s[c + 1] == ':' || s[c + 1] == ' ' }

  lemma SameBehind(s: string, c: nat, text: string)
    requires c <= |s| && s[c..] == text
    ensures (c < |s| ==> s[c] == text[0]) && (NoWordFollows(s, c) <==> NoWordFollows(text, 0))
  {}

  /** Whether there are middle parameters shows in the second character behind the command. */
  lemma NoWordsWhen(ws: seq<string>, after: string)
    requires GoodWords(ws) && EndsMiddles(after, |ws| == MAX_MIDDLES)
    ensures ws == [] <==> NoWordFollows(Words(ws) + after, 0)
  {
    var text := Words(ws) + after;
    if ws == [] {
      assert text == after;
    } else {
      WordsSplit(ws, after);
      assert text[1] == ws[0][0] && ws[0][0] in ws[0];
    }
  }

  lemma CommandStands(s: string, k: nat, command: string, ws: seq<string>, after: string)
    requires k <= |s| && s[k..] == command + (Words(ws) + after) && command != "" && GoodWords(ws)
    requires EndsMiddles(after, |ws| == MAX_MIDDLES)
    ensures var c := k + |command|;
            && c <= |s| && s[k..c] == command && (c < |s| ==> s[c] == ' ') && (NoWordFollows(s, c) <==> ws == [])
  {
    var c, text := k + |command|, Words(ws) + after;
    Behind(s, k, command, text);
    WordsStart(ws, after);
    SameBehind(s, c, text);
    NoWordsWhen(ws, after);
  }

  /** A command that was found stands at the start of the text behind the head, before its words. */
  lemma CommandInLine(s: string, k: nat, f: Fields) returns (c: nat, ws: seq<string>)
    requires k <= |s| && TailText(s[k..], f)
    ensures k < c <= |s| && s[k..c] == f.command && ' ' !in f.command && (c < |s| ==> s[c] == ' ')
    ensures GoodWords(ws) && f.middles == Words(ws) && (NoWordFollows(s, c) <==> ws == [])
  {
    var after;
    ws, after := CommandAndWords(s[k..], f);
    c := k + |f.command|;
    CommandStands(s, k, f.command, ws, after);
  }

  lemma OutOfRangeByWords(d: Data, ws: seq<string>, trailing: string)
    requires d.params == ws + [trailing]
    ensures Handle(d) == OutOfRange <==> LooksPrivmsg(d.command) && ws == []
  {}

  lemma OutOfRangeByFields(s: string, f: Fields, ws: seq<string>)
    requires ParseLine(s) == Some(f) && GoodWords(ws) && f.middles == Words(ws)
    ensures Parse(s).command == f.command
    ensures Handle(Parse(s)) == OutOfRange <==> LooksPrivmsg(f.command) && ws == []
  {
    SplitWords(ws);
    OutOfRangeByWords(DataOf(s, f), ws, f.trailing);
  }

  /**
   * In any string with a message in it: behind its tags and prefix, from p to k, the command stands from k to c, and
   * a parameter that is not there is read exactly if the command starts with PR and no word follows it.
   */
  lemma OutOfRangeInLine(s: string) returns (p: nat, k: nat, c: nat)
    requires exists i :: MessageAt(s, i)
    ensures p <= k < c <= |s| && FirstMessage(s, 0) == Some(p) && HeadText(s[p..k], ParseLine(s).value)
    ensures s[k..c] == Parse(s).command && ' ' !in s[k..c] && (c < |s| ==> s[c] == ' ')
    ensures Handle(Parse(s)) == OutOfRange <==> LooksPrivmsg(s[k..c]) && NoWordFollows(s, c)
  {
    p, k := ParseIsSound(s);
    var f := ParseLine(s).value;
    var ws;
    c, ws := CommandInLine(s, k, f);
    OutOfRangeByFields(s, f, ws);
  }

  // ---- What is dispatched ---------------------------------------------------------------------------

  /** A message whose command starts with these letters is taken for a PING. */
  predicate LooksPing(command: string) { |command| >= 2 && command[0] == 'P' && command[1] == 'I' }

  function SecondOr(params: seq<string>): string { if |params| > 1 then params[1] else "" }

  /** Which of the messages a command is taken for, by its first letters. */
  predicate DispatchedBy(command: string, d: Dispatch) {
    && (d.Ping? || d.Ignored? <==> LooksPing(command))
    && (d.Privmsg? || d.OutOfRange? <==> LooksPrivmsg(command))
    && (d.Joined? <==> |command| >= 1 && command[0] == 'J')
  }

  /** What a message of that kind is handed on with: its parameters, in order. */
  predicate DispatchedWith(params: seq<string>, d: Dispatch) {
    match d
    case Privmsg(target, text) => |params| >= 2 && params[0] == target && params[1] == text
    case Ping(server, server2) => params != [] && params[0] == server && SecondOr(params) == server2
    case Joined(channels, keys) =>
      params != [] ==> channels == Split(params[0], ',') &&
                       keys == if |params| > 1 then Split(params[1], ',') else []
    case Ignored => params == []
    case OutOfRange => |params| < 2
    case Unhandled => true
  }

  lemma HandledBy(m: Data)
    ensures DispatchedBy(m.command, Handle(m)) && DispatchedWith(m.params, Handle(m))
  {}

  /**
   * A printed message is dispatched by the first two letters of its command, with its middle parameters and trailing
   * text: as a PING for PI, as a PRIVMSG for PR, as a JOIN for J, and as nothing otherwise.
   */
  lemma DispatchWhenPrinted(m: Parts)
    requires WellFormed(m)
    ensures var d := Handle(Parse(Print(m)));
            && (d.Ping? <==> LooksPing(m.command))
            && (d.Privmsg? <==> LooksPrivmsg(m.command) && m.middles != [])
            && (d.OutOfRange? <==> LooksPrivmsg(m.command) && m.middles == [])
            && (d.Joined? <==> m.command[0] == 'J')
            && (d == Unhandled <==> m.command[0] != 'J' && !LooksPing(m.command) && !LooksPrivmsg(m.command))
            && DispatchedWith(m.middles + [TextOr(m.trailing)], d)
  {
    PrintedMessageIsReadBack(m);
    HandledBy(Parse(Print(m)));
  }

  /** A message whose command starts with PI is answered by its parameters, any other makes the client write nothing. */
  predicate Answered(was: seq<string>, now: seq<string>, m: Data) {
    if LooksPing(m.command) then m.params != [] && now == was + [PongFor(m.params[0], SecondOr(m.params))]
    else now == was
  }

  /** What a line with a command has as a first parameter, at least an empty one. */
  lemma CommandHasParams(line: string)
    ensures Parse(line).command != "" ==> Parse(line).params != []
  {
    ParameterCount(line);
  }

  // ---- What is printed ------------------------------------------------------------------------------

  lemma TwoParams(command: string, a: string, b: string)
    ensures LineOf(command, [a, b]) == command + " " + a + " " + b
  {
    LineIsTwoParts(command, a, b);
  }

  lemma PongPrinted(server: string, server2: string)
    ensures LineOf("PONG", [server, server2]) + "\r\n" == PongFor(server, server2)
  {
    TwoParams("PONG", server, server2);
  }

  /** The lines of the printers, as sections 3.2.1, 3.3.1 and 3.7.3 of RFC 2812 write them. */
  lemma PrintedLines(channels: seq<string>, keys: seq<string>, target: string, text: string)
    ensures JoinLine(channels, keys) == "JOIN " + Join(channels, ",") + " " + Join(keys, ",")
    ensures PrivmsgLine(target, text) == "PRIVMSG " + target + " :" + text
    ensures LineOf("PONG", [target, text]) + "\r\n" == PongFor(target, text)
  {
    TwoParams("JOIN", Join(channels, ","), Join(keys, ","));
    TwoParams("PRIVMSG", target, ":" + text);
    PongPrinted(target, text);
  }

  /** Writing the answer to a PING, and nothing else, is what a line asks for. */
  lemma AnswerTo(line: string, was: seq<string>)
    ensures var d := Handle(Parse(line));
            && (d.Ping? ==> Answered(was, was + [PongFor(d.server, d.server2)], Parse(line)))
            && (!d.Ping? ==> Answered(was, was, Parse(line)))
  {
    CommandHasParams(line);
    HandledBy(Parse(line));
  }

  lemma PrintedPing(line: string)
    ensures forall a, b :: line == LineOf("PING", [a, b]) && Plain(a) && Kept(b) ==> Handle(Parse(line)) == Ping(a, b)
  {
    forall a, b | line == LineOf("PING", [a, b]) && Plain(a) && Kept(b) ensures Handle(Parse(line)) == Ping(a, b) {
      PingRoundTrip(a, b);
    }
  }

  // ---- The client ----------------------------------------------------------------------------------

  /** The client's side of the socket. */
  class Client {
    var written: seq<string>

    constructor ()
      ensures written == []
    {
      written := [];
    }

    method SendRaw(raw: string)
      modifies this
      ensures written == old(written) + [raw + "\r\n"]
    {
      written := written + [raw + "\r\n"];
    }

    method Send(command: string, params: seq<string>)
      modifies this
      ensures written == old(written) + [LineOf(command, params) + "\r\n"]
    {
      SendRaw(LineOf(command, params));
    }

    method SendJoin(channels: seq<string>, keys: seq<string>)
      modifies this
      ensures written == old(written) + [JoinLine(channels, keys) + "\r\n"]
    {
      Send("JOIN", [Join(channels, ","), Join(keys, ",")]);
    }

    method SendPrivmsg(target: string, text: string)
      modifies this
      ensures written == old(written) + [PrivmsgLine(target, text) + "\r\n"]
    {
      Send("PRIVMSG", [target, ":" + text]);
    }

    /**
     * A received message is dispatched. If its command starts with PI the client answers, with the first parameter
     * and the second, if there is one; any other message makes it write nothing. A PING with a plain first and a kept
     * second name is answered by a PONG with the same two names.
     */
    method Receive(line: string) returns (d: Dispatch)
      modifies this
      ensures DispatchedBy(Parse(line).command, d) && DispatchedWith(Parse(line).params, d)
      ensures d == Handle(Parse(line))
      ensures Answered(old(written), written, Parse(line))
      ensures forall a, b :: line == LineOf("PING", [a, b]) && Plain(a) && Kept(b) ==>
                d == Ping(a, b) && written == old(written) + [PongFor(a, b)]
    {
      var m := new Message(line);
      d := Handle(m.Contents());
      HandledBy(Parse(line));
      AnswerTo(line, written);
      PrintedPing(line);
      if d.Ping? {
        PongPrinted(d.server, d.server2);
        Send("PONG", [d.server, d.server2]);
      }
    }
  }
}
