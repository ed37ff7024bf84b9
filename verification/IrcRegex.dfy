/**
 * The regular expression that takes an IRC line apart, run by a backtracking matcher, and the direct parser
 * that gives the same answer on every line.
 */
module IrcRegex {
  import opened Wrappers

  datatype Class = Only(c: char) | NotIn(cs: set<char>) | Any

  predicate In(cl: Class, ch: char) {
    match cl
    case Only(c) => ch == c
    case NotIn(cs) => ch !in cs
    case Any => true
  }

  /** The characters that end a line: line feed, carriage return and form feed. */
  predicate IsSeparator(c: char) { c == '\n' || c == '\r' || c == 12 as char }

  /** Position i lies between a carriage return and its line feed, which end a line together. */
  predicate InsideLineEnd(s: string, i: nat) { 0 < i < |s| && s[i - 1] == '\r' && s[i] == '\n' }

  predicate LineBegins(s: string, i: nat) {
    i == 0 || (i <= |s| && IsSeparator(s[i - 1]) && !InsideLineEnd(s, i))
  }

  predicate LineEnds(s: string, i: nat) {
    i == |s| || (i < |s| && IsSeparator(s[i]) && !InsideLineEnd(s, i))
  }

  /** An expression together with what must follow it. Alternatives are tried in order. */
  datatype Re =
    | End                              // $
    | Start(next: Re)                  // ^
    | Chr(cl: Class, next: Re)
    | Star(cl: Class, next: Re)        // as many as possible first
    | Lazy(cl: Class, next: Re)        // as few as possible first
    | Open(group: nat, next: Re)
    | Shut(group: nat, next: Re)
    | Alt(first: Re, second: Re)

  /** Where groups began, and the text of those that are complete. */
  datatype Caps = Caps(starts: map<nat, nat>, texts: map<nat, string>)

  const NO_CAPS := Caps(map[], map[])

  /** The text of a group, empty if it took no part in the match. */
  function Text(c: Caps, g: nat): string {
    if g in c.texts then c.texts[g] else ""
  }

  function OrElse(a: Option<Caps>, b: Option<Caps>): Option<Caps> {
    if a.Some? then a else b
  }

  /** The first way, in backtracking order, to match s from position i. */
  function Match(re: Re, s: string, i: nat, caps: Caps): Option<Caps>
    requires i <= |s|
    decreases |s| - i, re
  {
    match re
    case End => if LineEnds(s, i) then Some(caps) else None
    case Start(next) => if LineBegins(s, i) then Match(next, s, i, caps) else None
    case Chr(cl, next) => if i < |s| && In(cl, s[i]) then Match(next, s, i + 1, caps) else None
    case Star(cl, next) =>
      OrElse(if i < |s| && In(cl, s[i]) then Match(re, s, i + 1, caps) else None, Match(next, s, i, caps))
    case Lazy(cl, next) =>
      OrElse(Match(next, s, i, caps), if i < |s| && In(cl, s[i]) then Match(re, s, i + 1, caps) else None)
    case Open(g, next) => Match(next, s, i, caps.(starts := caps.starts[g := i]))
    case Shut(g, next) =>
      if g in caps.starts && caps.starts[g] <= i then
        Match(next, s, i, caps.(texts := caps.texts[g := s[caps.starts[g]..i]]))
      else None
    case Alt(first, second) => OrElse(Match(first, s, i, caps), Match(second, s, i, caps))
  }

  /** The match that starts leftmost, from position i on. */
  function Search(re: Re, s: string, i: nat): Option<Caps>
    requires i <= |s|
    decreases |s| - i
  {
    OrElse(Match(re, s, i, NO_CAPS), if i < |s| then Search(re, s, i + 1) else None)
  }

  // ---- The expression, in the order of the source's lines, last part first --------------------------

  const MAX_MIDDLES: nat := 14

  const NOT_SPACE := NotIn({' '})

  const SPACE := Only(' ')

  function Rest(): Re { Open(8, Star(Any, Shut(8, End))) }

  /** (?:\ :?(.*))?$ */
  function Trailing(): Re { Alt(Chr(SPACE, Alt(Chr(Only(':'), Rest()), Rest())), End) }

  /** (?:\ [^:\ ][^\ ]*){0,n} */
  function Middles(n: nat, next: Re): Re {
    if n == 0 then next
    else Alt(Chr(SPACE, Chr(NotIn({':', ' '}), Star(NOT_SPACE, Middles(n - 1, next)))), next)
  }

  function Params(): Re { Open(7, Middles(MAX_MIDDLES, Shut(7, Trailing()))) }

  /** ([^\ ]+), then the parameters. */
  function Tail(): Re { Open(6, Chr(NOT_SPACE, Star(NOT_SPACE, Shut(6, Params())))) }

  /** The space that ends the prefix. */
  function PrefixEnd(): Re { Shut(2, Chr(SPACE, Tail())) }

  /** @([^\ ]*) */
  function Host(): Re { Chr(Only('@'), Open(5, Star(NOT_SPACE, Shut(5, PrefixEnd())))) }

  /** !([^@]*) */
  function User(): Re { Chr(Only('!'), Open(4, Star(NotIn({'@'}), Shut(4, Host())))) }

  /** (?:(?:!([^@]*))?@([^\ ]*))? */
  function UserHost(): Re { Alt(Alt(User(), Host()), PrefixEnd()) }

  const NICK := NotIn({'@', '!', ' '})

  /** (?::(([^@!\ ]*)...)\ )? */
  function Prefix(): Re { Chr(Only(':'), Open(2, Open(3, Star(NICK, Shut(3, UserHost()))))) }

  function AfterTags(): Re { Alt(Prefix(), Tail()) }

  function TagsOrNot(): Re {
    Alt(Chr(Only('@'), Open(1, Lazy(Any, Shut(1, Chr(SPACE, AfterTags()))))), AfterTags())
  }

  /** ^(?:@(.*?)\ )?... */
  function Line(): Re { Start(TagsOrNot()) }

  // ---- The direct parser ---------------------------------------------------------------------------

  datatype Fields = Fields(tags: string, prefix: string, nick: string, user: string, host: string,
                           command: string, middles: string, trailing: string)

  /** The first position from i on whose character is not in the class. */
  function Span(cl: Class, s: string, i: nat): (e: nat)
    requires i <= |s|
    ensures i <= e <= |s| && (e < |s| ==> !In(cl, s[e]))
    ensures forall j :: i <= j < e ==> In(cl, s[j])
    decreases |s| - i
  {
    if i < |s| && In(cl, s[i]) then Span(cl, s, i + 1) else i
  }

  /** A command can start here. */
  predicate Starts(s: string, i: nat) { i < |s| && s[i] != ' ' }

  /** Tags or a prefix can end at e. */
  predicate Ends(s: string, e: nat) { e < |s| && s[e] == ' ' && Starts(s, e + 1) }

  /** The end of the tags: the first space a command can follow. */
  function TagEnd(s: string, i: nat): (e: Option<nat>)
    requires i <= |s|
    ensures e.Some? ==> i <= e.value && Ends(s, e.value)
    ensures forall j :: i <= j < (if e.Some? then e.value else |s|) ==> !Ends(s, j)
    decreases |s| - i
  {
    if i == |s| then None else if Ends(s, i) then Some(i) else TagEnd(s, i + 1)
  }

  /** Where up to n further middle parameters end. */
  function MiddlesEnd(n: nat, s: string, i: nat): (e: nat)
    requires i <= |s|
    ensures i <= e <= |s|
  {
    if n == 0 || i + 1 >= |s| || s[i] != ' ' || s[i + 1] == ':' || s[i + 1] == ' ' then i
    else MiddlesEnd(n - 1, s, Span(NOT_SPACE, s, i + 2))
  }

  /** The text after the middle parameters: one space and one colon are not part of it. */
  function TrailingText(s: string, i: nat): string
    requires i <= |s|
  {
    if i == |s| then ""
    else if i + 1 < |s| && s[i + 1] == ':' then s[i + 2..]
    else s[i + 1..]
  }

  function ParseTail(s: string, i: nat, f: Fields): Fields
    requires Starts(s, i)
  {
    var c := Span(NOT_SPACE, s, i);
    var m := MiddlesEnd(MAX_MIDDLES, s, c);
    f.(command := s[i..c], middles := s[c..m], trailing := TrailingText(s, m))
  }

  function EndPrefix(s: string, i: nat, e: nat, f: Fields): (r: Option<(Fields, nat)>)
    requires i < e <= |s|
    ensures r.Some? ==> Starts(s, r.value.1)
  {
    if e < |s| && Starts(s, e + 1) then Some((f.(prefix := s[i + 1..e]), e + 1)) else None
  }

  /** The prefix from its '@' at n on. */
  function ParseHost(s: string, i: nat, n: nat, f: Fields): (r: Option<(Fields, nat)>)
    requires i < n < |s|
    ensures r.Some? ==> Starts(s, r.value.1)
  {
    var h := Span(NOT_SPACE, s, n + 1);
    EndPrefix(s, i, h, f.(host := s[n + 1..h]))
  }

  /** The prefix from the end n of its nickname on. */
  function ParseUserHost(s: string, i: nat, n: nat, f: Fields): (r: Option<(Fields, nat)>)
    requires i < n <= |s|
    ensures r.Some? ==> Starts(s, r.value.1)
  {
    if n == |s| then None
    else if s[n] == ' ' then EndPrefix(s, i, n, f)
    else if s[n] == '@' then ParseHost(s, i, n, f)
    else
      var u := Span(NotIn({'@'}), s, n + 1);
      if u == |s| then None else ParseHost(s, i, u, f.(user := s[n + 1..u]))
  }

  /** The prefix after its colon at i, and where it ends, if it is one and a command follows it. */
  function ParsePrefix(s: string, i: nat, f: Fields): (r: Option<(Fields, nat)>)
    requires i < |s|
    ensures r.Some? ==> Starts(s, r.value.1)
  {
    var n := Span(NICK, s, i + 1);
    ParseUserHost(s, i, n, f.(nick := s[i + 1..n]))
  }

  function ParseAfterTags(s: string, i: nat, f: Fields): Fields
    requires Starts(s, i)
  {
    if s[i] == ':' && ParsePrefix(s, i, f).Some? then
      var (f', j) := ParsePrefix(s, i, f).value;
      ParseTail(s, j, f')
    else ParseTail(s, i, f)
  }

  const NO_FIELDS := Fields("", "", "", "", "", "", "", "")

  /** A message can start here: at the start of a line, with no space. */
  predicate MessageAt(s: string, i: nat) { LineBegins(s, i) && Starts(s, i) }

  /** The first position from i on where a message can start. */
  function FirstMessage(s: string, i: nat): (e: Option<nat>)
    requires i <= |s|
    ensures e.Some? ==> i <= e.value < |s| && MessageAt(s, e.value)
    ensures forall j :: i <= j < (if e.Some? then e.value else |s|) ==> !MessageAt(s, j)
    decreases |s| - i
  {
    if MessageAt(s, i) then Some(i) else if i < |s| then FirstMessage(s, i + 1) else None
  }

  /** The fields of a message whose tags stand from b to e. */
  function ParseTagged(s: string, b: nat, e: nat): Fields
    requires b <= e && Ends(s, e)
  {
    ParseAfterTags(s, e + 1, NO_FIELDS.(tags := s[b..e]))
  }

  /** The message that starts at i. */
  function ParseFrom(s: string, i: nat): Fields
    requires Starts(s, i)
  {
    if s[i] == '@' && TagEnd(s, i + 1).Some? then ParseTagged(s, i + 1, TagEnd(s, i + 1).value)
    else ParseAfterTags(s, i, NO_FIELDS)
  }

  function ParseLine(s: string): Option<Fields> {
    match FirstMessage(s, 0)
    case None => None
    case Some(i) => Some(ParseFrom(s, i))
  }

  function FieldsOf(c: Caps): Fields {
    Fields(Text(c, 1), Text(c, 2), Text(c, 3), Text(c, 4), Text(c, 5), Text(c, 6), Text(c, 7), Text(c, 8))
  }

  // ---- The two agree -------------------------------------------------------------------------------

  /** A greedy run stops where the class does if that leads to a match. */
  lemma {:induction false} StarTakesAll(cl: Class, next: Re, s: string, i: nat, caps: Caps)
    requires i <= |s| && Match(next, s, Span(cl, s, i), caps).Some?
    ensures Match(Star(cl, next), s, i, caps) == Match(next, s, Span(cl, s, i), caps)
    decreases |s| - i
  {
    if i < |s| && In(cl, s[i]) {
      StarTakesAll(cl, next, s, i + 1, caps);
    }
  }

  /** It also stops there if nothing shorter can lead to a match. */
  lemma {:induction false} StarCannotGiveBack(cl: Class, next: Re, s: string, i: nat, caps: Caps)
    requires i <= |s| && forall j :: i <= j < Span(cl, s, i) ==> Match(next, s, j, caps) == None
    ensures Match(Star(cl, next), s, i, caps) == Match(next, s, Span(cl, s, i), caps)
    decreases |s| - i
  {
    if i < |s| && In(cl, s[i]) {
      StarCannotGiveBack(cl, next, s, i + 1, caps);
    }
  }

  predicate Boundary(s: string, i: nat) { i == |s| || (i < |s| && s[i] == ' ') }

  lemma {:induction false} SpanToEnd(s: string, i: nat)
    requires i <= |s|
    ensures Span(Any, s, i) == |s|
    decreases |s| - i
  {
    if i < |s| {
      SpanToEnd(s, i + 1);
    }
  }

  lemma RestMatches(s: string, i: nat, caps: Caps)
    requires i <= |s|
    ensures Match(Rest(), s, i, caps) == Some(Caps(caps.starts[8 := i], caps.texts[8 := s[i..]]))
  {
    var c := caps.(starts := caps.starts[8 := i]);
    SpanToEnd(s, i);
    var last := c.(texts := c.texts[8 := s[i..]]);
    assert s[i..|s|] == s[i..];
    assert Match(End, s, |s|, last) == Some(last);
    assert Match(Shut(8, End), s, |s|, c) == Some(last);
    StarTakesAll(Any, Shut(8, End), s, i, c);
  }

  /** Only texts of groups from g on may differ. */
  ghost predicate Keeps(c: Caps, d: Caps, g: nat) {
    forall h: nat :: h < g ==> Text(c, h) == Text(d, h)
  }

  lemma TrailingMatches(s: string, i: nat, caps: Caps)
    requires Boundary(s, i) && 8 !in caps.texts
    ensures var r := Match(Trailing(), s, i, caps);
            r.Some? && Text(r.value, 8) == TrailingText(s, i) && Keeps(r.value, caps, 8)
  {
    if i < |s| {
      var colon := Chr(Only(':'), Rest());
      RestMatches(s, i + 1, caps);
      if i + 1 < |s| && s[i + 1] == ':' {
        RestMatches(s, i + 2, caps);
        assert Match(colon, s, i + 1, caps) == Match(Rest(), s, i + 2, caps);
      } else {
        assert Match(colon, s, i + 1, caps) == None;
      }
      var text := Alt(colon, Rest());
      assert Match(text, s, i + 1, caps).Some?;
      assert Match(Chr(SPACE, text), s, i, caps) == Match(text, s, i + 1, caps);
    } else {
      assert Match(End, s, i, caps) == Some(caps);
    }
  }

  function AfterParams(): Re { Shut(7, Trailing()) }

  lemma ParamsShut(s: string, i: nat, caps: Caps)
    requires Boundary(s, i) && 8 !in caps.texts && 7 in caps.starts && caps.starts[7] <= i
    ensures var r := Match(AfterParams(), s, i, caps);
            && r.Some? && Text(r.value, 8) == TrailingText(s, i) && Text(r.value, 7) == s[caps.starts[7]..i]
            && Keeps(r.value, caps, 7)
  {
    TrailingMatches(s, i, caps.(texts := caps.texts[7 := s[caps.starts[7]..i]]));
  }

  lemma MatchTwo(a: Class, b: Class, next: Re, s: string, i: nat, caps: Caps)
    requires i + 1 < |s| && In(a, s[i]) && In(b, s[i + 1])
    ensures Match(Chr(a, Chr(b, next)), s, i, caps) == Match(next, s, i + 2, caps)
  {
    assert Match(Chr(b, next), s, i + 1, caps) == Match(next, s, i + 2, caps);
  }

  lemma NoMiddle(n: nat, s: string, i: nat, caps: Caps)
    requires n > 0 && i <= |s| && !(i + 1 < |s| && s[i] == ' ' && s[i + 1] != ':' && s[i + 1] != ' ')
    ensures Match(Middles(n, AfterParams()), s, i, caps) == Match(AfterParams(), s, i, caps)
  {
    var more := Star(NOT_SPACE, Middles(n - 1, AfterParams()));
    assert i < |s| && s[i] == ' ' ==> Match(Chr(NotIn({':', ' '}), more), s, i + 1, caps) == None;
    assert Match(Chr(SPACE, Chr(NotIn({':', ' '}), more)), s, i, caps) == None;
  }

  lemma {:induction false} MiddlesMatch(n: nat, s: string, i: nat, caps: Caps)
    requires Boundary(s, i) && 8 !in caps.texts && 7 in caps.starts && caps.starts[7] <= i
    ensures Boundary(s, MiddlesEnd(n, s, i))
    ensures Match(Middles(n, AfterParams()), s, i, caps) == Match(AfterParams(), s, MiddlesEnd(n, s, i), caps)
    decreases n
  {
    if n > 0 && i + 1 < |s| && s[i + 1] != ':' && s[i + 1] != ' ' {
      var e := Span(NOT_SPACE, s, i + 2);
      MiddlesMatch(n - 1, s, e, caps);
      ParamsShut(s, MiddlesEnd(n - 1, s, e), caps);
      var more := Middles(n - 1, AfterParams());
      StarTakesAll(NOT_SPACE, more, s, i + 2, caps);
      MatchTwo(SPACE, NotIn({':', ' '}), Star(NOT_SPACE, more), s, i, caps);
    } else if n > 0 {
      NoMiddle(n, s, i, caps);
    }
  }

  // ---- From the command on -------------------------------------------------------------------------

  /** What a match from the command on finds. */
  ghost predicate TailFound(r: Option<Caps>, s: string, i: nat, caps: Caps)
    requires i <= |s|
  {
    if Starts(s, i) then
      var f := ParseTail(s, i, NO_FIELDS);
      && r.Some? && Keeps(r.value, caps, 6)
      && Text(r.value, 6) == f.command && Text(r.value, 7) == f.middles && Text(r.value, 8) == f.trailing
    else r == None
  }

  lemma ParamsMatch(s: string, i: nat, caps: Caps)
    requires Boundary(s, i) && 8 !in caps.texts
    ensures var r, m := Match(Params(), s, i, caps), MiddlesEnd(MAX_MIDDLES, s, i);
            && r.Some? && Text(r.value, 7) == s[i..m] && Text(r.value, 8) == TrailingText(s, m)
            && Keeps(r.value, caps, 7)
  {
    var c := caps.(starts := caps.starts[7 := i]);
    MiddlesMatch(MAX_MIDDLES, s, i, c);
    ParamsShut(s, MiddlesEnd(MAX_MIDDLES, s, i), c);
    assert Match(Params(), s, i, caps) == Match(Middles(MAX_MIDDLES, AfterParams()), s, i, c);
  }

  lemma TailMatches(s: string, i: nat, caps: Caps)
    requires i <= |s| && 8 !in caps.texts
    ensures TailFound(Match(Tail(), s, i, caps), s, i, caps)
  {
    var c := caps.(starts := caps.starts[6 := i]);
    var run := Star(NOT_SPACE, Shut(6, Params()));
    assert Match(Tail(), s, i, caps) == Match(Chr(NOT_SPACE, run), s, i, c);
    if Starts(s, i) {
      var e := Span(NOT_SPACE, s, i);
      var d := c.(texts := c.texts[6 := s[i..e]]);
      ParamsMatch(s, e, d);
      assert Match(Shut(6, Params()), s, e, c) == Match(Params(), s, e, d);
      StarTakesAll(NOT_SPACE, Shut(6, Params()), s, i + 1, c);
      assert Match(Chr(NOT_SPACE, run), s, i, c) == Match(run, s, i + 1, c);
    }
  }

  // ---- The prefix ----------------------------------------------------------------------------------

  function Begin(c: Caps, g: nat, i: nat): Caps { c.(starts := c.starts[g := i]) }

  function Record(c: Caps, g: nat, text: string): Caps { c.(texts := c.texts[g := text]) }

  lemma PrefixEndAt(s: string, e: nat, caps: Caps)
    requires e <= |s| && 8 !in caps.texts && 2 in caps.starts && caps.starts[2] <= e
    ensures Match(PrefixEnd(), s, e, caps) ==
            if Ends(s, e) then Match(Tail(), s, e + 1, Record(caps, 2, s[caps.starts[2]..e])) else None
  {
    var c := Record(caps, 2, s[caps.starts[2]..e]);
    assert Match(PrefixEnd(), s, e, caps) == Match(Chr(SPACE, Tail()), s, e, c);
    if e < |s| {
      TailMatches(s, e + 1, c);
    }
  }

  lemma HostAt(s: string, n: nat, caps: Caps)
    requires n < |s| && s[n] == '@' && 8 !in caps.texts && 2 in caps.starts && caps.starts[2] <= n
    ensures var h := Span(NOT_SPACE, s, n + 1);
            Match(Host(), s, n, caps) == Match(PrefixEnd(), s, h, Record(Begin(caps, 5, n + 1), 5, s[n + 1..h]))
  {
    var h := Span(NOT_SPACE, s, n + 1);
    var c := Begin(caps, 5, n + 1);
    var next := Shut(5, PrefixEnd());
    forall j | n + 1 <= j < h ensures Match(next, s, j, c) == None {
      PrefixEndAt(s, j, Record(c, 5, s[n + 1..j]));
    }
    StarCannotGiveBack(NOT_SPACE, next, s, n + 1, c);
    assert Match(Host(), s, n, caps) == Match(Open(5, Star(NOT_SPACE, next)), s, n + 1, caps);
  }

  lemma NoHost(s: string, n: nat, caps: Caps)
    requires n <= |s| && (n < |s| ==> s[n] != '@')
    ensures Match(Host(), s, n, caps) == None
  {}

  lemma NoUser(s: string, n: nat, caps: Caps)
    requires n <= |s| && (n < |s| ==> s[n] != '!')
    ensures Match(User(), s, n, caps) == None
  {}

  lemma UserAt(s: string, n: nat, caps: Caps)
    requires n < |s| && s[n] == '!'
    ensures var u := Span(NotIn({'@'}), s, n + 1);
            Match(User(), s, n, caps) == Match(Host(), s, u, Record(Begin(caps, 4, n + 1), 4, s[n + 1..u]))
  {
    var cl := NotIn({'@'});
    var u := Span(cl, s, n + 1);
    var c := Begin(caps, 4, n + 1);
    var next := Shut(4, Host());
    forall j | n + 1 <= j < u ensures Match(next, s, j, c) == None {
      assert In(cl, s[j]);
      NoHost(s, j, Record(c, 4, s[n + 1..j]));
    }
    StarCannotGiveBack(cl, next, s, n + 1, c);
    assert Match(User(), s, n, caps) == Match(Open(4, Star(cl, next)), s, n + 1, caps);
  }

  /** Only a space can follow the nickname directly, apart from a user or a host. */
  lemma NoUserHost(s: string, n: nat, caps: Caps)
    requires n <= |s| && (n < |s| ==> s[n] != '!' && s[n] != '@' && s[n] != ' ')
    requires 8 !in caps.texts && 2 in caps.starts && caps.starts[2] <= n
    ensures Match(UserHost(), s, n, caps) == None
  {
    NoUser(s, n, caps);
    NoHost(s, n, caps);
    PrefixEndAt(s, n, caps);
  }

  lemma NickAt(s: string, i: nat, caps: Caps)
    requires i < |s| && s[i] == ':' && 8 !in caps.texts
    ensures var n, c := Span(NICK, s, i + 1), Begin(Begin(caps, 2, i + 1), 3, i + 1);
            Match(Prefix(), s, i, caps) == Match(UserHost(), s, n, Record(c, 3, s[i + 1..n]))
  {
    var n, c := Span(NICK, s, i + 1), Begin(Begin(caps, 2, i + 1), 3, i + 1);
    var next := Shut(3, UserHost());
    forall j | i + 1 <= j < n ensures Match(next, s, j, c) == None {
      assert In(NICK, s[j]);
      NoUserHost(s, j, Record(c, 3, s[i + 1..j]));
    }
    StarCannotGiveBack(NICK, next, s, i + 1, c);
    var open3 := Open(3, Star(NICK, next));
    assert Match(open3, s, i + 1, Begin(caps, 2, i + 1)) == Match(Star(NICK, next), s, i + 1, c);
    assert Match(Prefix(), s, i, caps) == Match(Open(2, open3), s, i + 1, caps);
  }

  /** The match found the fields of the direct parse, or neither found any. */
  ghost predicate Agrees(r: Option<Caps>, p: Option<(Fields, nat)>, s: string)
    requires p.Some? ==> Starts(s, p.value.1)
  {
    match p
    case None => r == None
    case Some((f, j)) => r.Some? && FieldsOf(r.value) == ParseTail(s, j, f)
  }

  /** The fields found up to here are those the captures hold. */
  predicate Holds(caps: Caps, f: Fields) {
    && 8 !in caps.texts && Text(caps, 1) == f.tags && Text(caps, 3) == f.nick
    && Text(caps, 4) == f.user && Text(caps, 5) == f.host
  }

  lemma TailFields(s: string, i: nat, caps: Caps, f: Fields)
    requires Starts(s, i) && Holds(caps, f) && Text(caps, 2) == f.prefix
    ensures var r := Match(Tail(), s, i, caps); r.Some? && FieldsOf(r.value) == ParseTail(s, i, f)
  {
    TailMatches(s, i, caps);
  }

  lemma EndAgrees(s: string, i: nat, e: nat, caps: Caps, f: Fields)
    requires i < e <= |s| && Holds(caps, f) && 2 in caps.starts && caps.starts[2] == i + 1
    requires e < |s| ==> s[e] == ' '
    ensures Agrees(Match(PrefixEnd(), s, e, caps), EndPrefix(s, i, e, f), s)
  {
    PrefixEndAt(s, e, caps);
    if Ends(s, e) {
      TailFields(s, e + 1, Record(caps, 2, s[i + 1..e]), f.(prefix := s[i + 1..e]));
    }
  }

  /** A host, then the end of the prefix. */
  lemma HostAgrees(s: string, i: nat, n: nat, caps: Caps, f: Fields)
    requires i < n < |s| && s[n] == '@' && Holds(caps, f) && 2 in caps.starts && caps.starts[2] == i + 1
    ensures Agrees(Match(Host(), s, n, caps), ParseHost(s, i, n, f), s)
  {
    var h := Span(NOT_SPACE, s, n + 1);
    HostAt(s, n, caps);
    EndAgrees(s, i, h, Record(Begin(caps, 5, n + 1), 5, s[n + 1..h]), f.(host := s[n + 1..h]));
  }

  /** After the nickname: a user and host, a host alone, or neither, then the end of the prefix. */
  lemma UserHostIs(s: string, n: nat, caps: Caps)
    requires n <= |s|
    ensures Match(UserHost(), s, n, caps) ==
            OrElse(OrElse(Match(User(), s, n, caps), Match(Host(), s, n, caps)), Match(PrefixEnd(), s, n, caps))
  {
    assert Match(Alt(User(), Host()), s, n, caps) == OrElse(Match(User(), s, n, caps), Match(Host(), s, n, caps));
  }

  /** The captures and fields once the nickname, from i + 1 to n, is known. */
  predicate NickRead(s: string, i: nat, n: nat, caps: Caps, f: Fields) {
    && i < n <= |s| && f.nick == s[i + 1..n] && f.user == f.host == ""
    && Holds(caps, f) && 2 in caps.starts && caps.starts[2] == i + 1
  }

  lemma BareNickAgrees(s: string, i: nat, n: nat, caps: Caps, f: Fields)
    requires NickRead(s, i, n, caps, f) && n < |s| && s[n] == ' '
    ensures Agrees(Match(UserHost(), s, n, caps), ParseUserHost(s, i, n, f), s)
  {
    UserHostIs(s, n, caps);
    NoUser(s, n, caps);
    NoHost(s, n, caps);
    EndAgrees(s, i, n, caps, f);
  }

  lemma NickHostAgrees(s: string, i: nat, n: nat, caps: Caps, f: Fields)
    requires NickRead(s, i, n, caps, f) && n < |s| && s[n] == '@'
    ensures Agrees(Match(UserHost(), s, n, caps), ParseUserHost(s, i, n, f), s)
  {
    UserHostIs(s, n, caps);
    NoUser(s, n, caps);
    HostAgrees(s, i, n, caps, f);
    PrefixEndAt(s, n, caps);
  }

  /** After an exclamation mark the user is the only way on. */
  lemma UserOnly(s: string, n: nat, caps: Caps)
    requires n < |s| && s[n] == '!' && 8 !in caps.texts && 2 in caps.starts && caps.starts[2] <= n
    ensures var u := Span(NotIn({'@'}), s, n + 1);
            Match(UserHost(), s, n, caps) == Match(Host(), s, u, Record(Begin(caps, 4, n + 1), 4, s[n + 1..u]))
  {
    UserHostIs(s, n, caps);
    UserAt(s, n, caps);
    NoHost(s, n, caps);
    PrefixEndAt(s, n, caps);
  }

  lemma AtSign(s: string, i: nat)
    requires i <= |s|
    ensures var u := Span(NotIn({'@'}), s, i); u < |s| ==> s[u] == '@'
  {}

  lemma NickUserHostAgrees(s: string, i: nat, n: nat, caps: Caps, f: Fields)
    requires NickRead(s, i, n, caps, f) && n < |s| && s[n] == '!'
    ensures Agrees(Match(UserHost(), s, n, caps), ParseUserHost(s, i, n, f), s)
  {
    var u := Span(NotIn({'@'}), s, n + 1);
    var c := Record(Begin(caps, 4, n + 1), 4, s[n + 1..u]);
    UserOnly(s, n, caps);
    if u == |s| {
      NoHost(s, u, c);
    } else {
      AtSign(s, n + 1);
      HostAgrees(s, i, u, c, f.(user := s[n + 1..u]));
    }
  }

  /** The rest of the prefix is read alike, whatever follows the nickname. */
  lemma UserHostAgrees(s: string, i: nat, n: nat, caps: Caps, f: Fields)
    requires NickRead(s, i, n, caps, f) && (n < |s| ==> !In(NICK, s[n]))
    ensures Agrees(Match(UserHost(), s, n, caps), ParseUserHost(s, i, n, f), s)
  {
    if n == |s| {
      NoUserHost(s, n, caps);
    } else if s[n] == ' ' {
      BareNickAgrees(s, i, n, caps, f);
    } else if s[n] == '@' {
      NickHostAgrees(s, i, n, caps, f);
    } else {
      NickUserHostAgrees(s, i, n, caps, f);
    }
  }

  lemma PrefixAgrees(s: string, i: nat, caps: Caps, f: Fields)
    requires i < |s| && s[i] == ':' && Holds(caps, f) && f.nick == f.user == f.host == ""
    ensures Agrees(Match(Prefix(), s, i, caps), ParsePrefix(s, i, f), s)
  {
    var n := Span(NICK, s, i + 1);
    NickAt(s, i, caps);
    UserHostAgrees(s, i, n, Record(Begin(Begin(caps, 2, i + 1), 3, i + 1), 3, s[i + 1..n]), f.(nick := s[i + 1..n]));
  }

  // ---- The whole line ------------------------------------------------------------------------------

  /** The match found the fields of a message. */
  ghost predicate Gives(r: Option<Caps>, f: Fields) { r.Some? && FieldsOf(r.value) == f }

  lemma NoPrefix(s: string, i: nat, caps: Caps)
    requires i <= |s| && (i < |s| ==> s[i] != ':')
    ensures Match(Prefix(), s, i, caps) == None
  {}

  lemma AfterTagsIs(s: string, i: nat, caps: Caps)
    requires i <= |s|
    ensures Match(AfterTags(), s, i, caps) == OrElse(Match(Prefix(), s, i, caps), Match(Tail(), s, i, caps))
  {}

  lemma AfterTagsAgrees(s: string, i: nat, caps: Caps, f: Fields)
    requires i <= |s| && Holds(caps, f) && f == NO_FIELDS.(tags := f.tags) && Text(caps, 2) == ""
    ensures var r := Match(AfterTags(), s, i, caps);
            if Starts(s, i) then Gives(r, ParseAfterTags(s, i, f)) else r == None
  {
    AfterTagsIs(s, i, caps);
    if Starts(s, i) {
      TailFields(s, i, caps, f);
      if s[i] == ':' {
        PrefixAgrees(s, i, caps, f);
      } else {
        NoPrefix(s, i, caps);
      }
    } else {
      NoPrefix(s, i, caps);
      TailMatches(s, i, caps);
    }
  }

  function TagsThenRest(): Re { Shut(1, Chr(SPACE, AfterTags())) }

  ghost predicate Fails(re: Re, s: string, i: nat, caps: Caps) { i <= |s| && Match(re, s, i, caps) == None }

  /** A lazy run stops at the first position from which the rest matches. */
  lemma {:induction false} LazyStopsAt(next: Re, s: string, i: nat, e: nat, caps: Caps)
    requires i <= e <= |s| && Match(next, s, e, caps).Some?
    requires forall j :: i <= j < e ==> Fails(next, s, j, caps)
    ensures Match(Lazy(Any, next), s, i, caps) == Match(next, s, e, caps)
    decreases e - i
  {
    if i < e {
      assert Fails(next, s, i, caps);
      LazyStopsAt(next, s, i + 1, e, caps);
    }
  }

  lemma {:induction false} LazyNowhere(next: Re, s: string, i: nat, caps: Caps)
    requires i <= |s| && forall j :: i <= j <= |s| ==> Fails(next, s, j, caps)
    ensures Match(Lazy(Any, next), s, i, caps) == None
    decreases |s| - i
  {
    assert Fails(next, s, i, caps);
    if i < |s| {
      LazyNowhere(next, s, i + 1, caps);
    }
  }

  lemma ShutTags(s: string, b: nat, i: nat)
    requires b <= i <= |s|
    ensures var c := Record(Begin(NO_CAPS, 1, b), 1, s[b..i]);
            Match(TagsThenRest(), s, i, Begin(NO_CAPS, 1, b)) ==
            if i < |s| && s[i] == ' ' then Match(AfterTags(), s, i + 1, c) else None
  {
    var c := Record(Begin(NO_CAPS, 1, b), 1, s[b..i]);
    assert Match(TagsThenRest(), s, i, Begin(NO_CAPS, 1, b)) == Match(Chr(SPACE, AfterTags()), s, i, c);
  }

  lemma TagsEndHere(s: string, b: nat, i: nat)
    requires b <= i && Ends(s, i)
    ensures Gives(Match(TagsThenRest(), s, i, Begin(NO_CAPS, 1, b)), ParseTagged(s, b, i))
  {
    ShutTags(s, b, i);
    AfterTagsAgrees(s, i + 1, Record(Begin(NO_CAPS, 1, b), 1, s[b..i]), NO_FIELDS.(tags := s[b..i]));
  }

  lemma TagsGoOn(s: string, b: nat, i: nat)
    requires b <= i <= |s| && !Ends(s, i)
    ensures Fails(TagsThenRest(), s, i, Begin(NO_CAPS, 1, b))
  {
    ShutTags(s, b, i);
    if i < |s| && s[i] == ' ' {
      AfterTagsAgrees(s, i + 1, Record(Begin(NO_CAPS, 1, b), 1, s[b..i]), NO_FIELDS.(tags := s[b..i]));
    }
  }

  /** The match of the tags that start at b, and of everything behind them. */
  function TagsMatch(s: string, b: nat): Option<Caps>
    requires b <= |s|
  {
    Match(Lazy(Any, TagsThenRest()), s, b, Begin(NO_CAPS, 1, b))
  }

  /** Whatever the rest of the message gives from the end of the tags on, it gives behind the tags. */
  lemma TagsGive(s: string, b: nat, e: nat, f: Fields)
    requires b <= e <= |s| && forall j :: b <= j < e ==> !Ends(s, j)
    requires Gives(Match(TagsThenRest(), s, e, Begin(NO_CAPS, 1, b)), f)
    ensures Gives(TagsMatch(s, b), f)
  {
    var c := Begin(NO_CAPS, 1, b);
    forall j | b <= j < e ensures Fails(TagsThenRest(), s, j, c) {
      TagsGoOn(s, b, j);
    }
    LazyStopsAt(TagsThenRest(), s, b, e, c);
  }

  lemma TaggedAgrees(s: string, b: nat, e: nat)
    requires b <= |s| && TagEnd(s, b) == Some(e)
    ensures Gives(TagsMatch(s, b), ParseTagged(s, b, e))
  {
    TagsEndHere(s, b, e);
    TagsGive(s, b, e, ParseTagged(s, b, e));
  }

  lemma NoTagsAgree(s: string, b: nat)
    requires b <= |s| && TagEnd(s, b).None?
    ensures TagsMatch(s, b) == None
  {
    forall j | b <= j <= |s| ensures Fails(TagsThenRest(), s, j, Begin(NO_CAPS, 1, b)) {
      TagsGoOn(s, b, j);
    }
    LazyNowhere(TagsThenRest(), s, b, Begin(NO_CAPS, 1, b));
  }

  lemma UntaggedAgrees(s: string, i: nat)
    requires i <= |s|
    ensures var r := Match(AfterTags(), s, i, NO_CAPS);
            if Starts(s, i) then Gives(r, ParseAfterTags(s, i, NO_FIELDS)) else r == None
  {
    AfterTagsAgrees(s, i, NO_CAPS, NO_FIELDS);
  }

  lemma TagsOrNotIs(s: string, i: nat)
    requires i <= |s|
    ensures Match(TagsOrNot(), s, i, NO_CAPS) ==
            OrElse(if i < |s| && s[i] == '@' then TagsMatch(s, i + 1) else None, Match(AfterTags(), s, i, NO_CAPS))
  {
    var run := Lazy(Any, TagsThenRest());
    var tagged := Chr(Only('@'), Open(1, run));
    if i < |s| && s[i] == '@' {
      assert Match(tagged, s, i, NO_CAPS) == Match(Open(1, run), s, i + 1, NO_CAPS);
      assert Match(Open(1, run), s, i + 1, NO_CAPS) == TagsMatch(s, i + 1);
    } else {
      assert Match(tagged, s, i, NO_CAPS) == None;
    }
  }

  /** From one position on, the match and the direct parse agree. */
  lemma MessageAgrees(s: string, i: nat)
    requires i <= |s|
    ensures var r := Match(TagsOrNot(), s, i, NO_CAPS);
            if Starts(s, i) then Gives(r, ParseFrom(s, i)) else r == None
  {
    UntaggedAgrees(s, i);
    TagsOrNotIs(s, i);
    if i < |s| && s[i] == '@' {
      if TagEnd(s, i + 1).Some? {
        TaggedAgrees(s, i + 1, TagEnd(s, i + 1).value);
      } else {
        NoTagsAgree(s, i + 1);
      }
    }
  }

  lemma SearchStep(re: Re, s: string, i: nat)
    requires i <= |s|
    ensures Search(Start(re), s, i) ==
            OrElse(if LineBegins(s, i) then Match(re, s, i, NO_CAPS) else None,
                   if i < |s| then Search(Start(re), s, i + 1) else None)
  {}

  /** The search and the direct parse agree from a position on. */
  ghost predicate SearchFinds(r: Option<Caps>, s: string, i: nat)
    requires i <= |s|
  {
    match FirstMessage(s, i)
    case None => r == None
    case Some(j) => Gives(r, ParseFrom(s, j))
  }

  lemma {:induction false} SearchAgrees(re: Re, s: string, i: nat)
    requires i <= |s| && re == TagsOrNot()
    ensures SearchFinds(Search(Start(re), s, i), s, i)
    decreases |s| - i
  {
    MessageAgrees(s, i);
    SearchStep(re, s, i);
    if !MessageAt(s, i) && i < |s| {
      SearchAgrees(re, s, i + 1);
    }
  }

  /**
   * On every string the leftmost match of the expression in backtracking order and the direct parse give the
   * same fields, and there is a match exactly if some line of the string starts with anything but a space.
   */
  lemma RegexIsParseLine(s: string)
    ensures var r := Search(Line(), s, 0);
            match ParseLine(s)
            case None => r == None && forall i :: !MessageAt(s, i)
            case Some(f) => r.Some? && FieldsOf(r.value) == f && exists i :: MessageAt(s, i)
  {
    SearchAgrees(TagsOrNot(), s, 0);
  }

  /** What starts at the front of a string is what is parsed. */
  lemma ParseAtFront(s: string)
    requires Starts(s, 0)
    ensures ParseLine(s) == Some(ParseFrom(s, 0))
  {
    assert MessageAt(s, 0);
  }

  /**
   * Where a message can start: at the front of a string or behind a line feed, a form feed or a carriage return that
   * is not followed by its line feed, with anything but a space.
   */
  lemma MessageAtExactly(s: string, i: nat)
    ensures MessageAt(s, i) <==>
            && i < |s| && s[i] != ' '
            && (|| i == 0 || s[i - 1] == '\n' || s[i - 1] == 12 as char
                || (s[i - 1] == '\r' && s[i] != '\n'))
  {}
}
