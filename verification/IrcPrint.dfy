/** IRC messages printed as section 2.3.1 of RFC 2812 writes them, and the proof that they are read back. */
module IrcPrint {
  import opened Wrappers
  import opened Strings
  import opened IrcRegex
  import opened IrcMessage

  datatype Tag = Tag(key: string, value: Option<string>)

  datatype Origin = NickOnly | AtHost(host: string) | UserAtHost(user: string, host: string)

  datatype Source = Source(nick: string, origin: Origin)

  datatype Parts = Parts(tags: seq<Tag>, source: Option<Source>, command: string, middles: seq<string>,
                         trailing: Option<string>)

  function TextOr(t: Option<string>): string { if t.None? then "" else t.value }

  function ValueOf(t: Tag): string { TextOr(t.value) }

  function TagText(t: Tag): string {
    match t.value
    case None => t.key
    case Some(v) => t.key + "=" + v
  }

  function TagTexts(tags: seq<Tag>): (r: seq<string>)
    ensures |r| == |tags|
  {
    if tags == [] then [] else TagTexts(tags[..|tags| - 1]) + [TagText(tags[|tags| - 1])]
  }

  function SourceText(s: Source): string {
    match s.origin
    case NickOnly => s.nick
    case AtHost(h) => s.nick + (['@'] + h)
    case UserAtHost(u, h) => s.nick + (['!'] + (u + (['@'] + h)))
  }

  /** Middle parameters, each behind its space. */
  function Words(ws: seq<string>): string {
    if ws == [] then "" else " " + ws[0] + Words(ws[1..])
  }

  function TrailingPart(t: Option<string>): string {
    match t
    case None => ""
    case Some(text) => " :" + text
  }

  function PrintTags(tags: seq<Tag>): string {
    if tags == [] then "" else ['@'] + Join(TagTexts(tags), ";") + [' ']
  }

  function PrintSource(s: Option<Source>): string {
    if s.None? then "" else [':'] + SourceText(s.value) + [' ']
  }

  function PrintTail(m: Parts, after: string): string { m.command + (Words(m.middles) + after) }

  /** A message up to its middle parameters, and what follows them. */
  function PrintWith(m: Parts, after: string): string {
    PrintTags(m.tags) + PrintSource(m.source) + PrintTail(m, after)
  }

  function Print(m: Parts): string { PrintWith(m, TrailingPart(m.trailing)) }

  predicate GoodTag(t: Tag) {
    && t.key != "" && ';' !in t.key && '=' !in t.key && ' ' !in t.key
    && ';' !in ValueOf(t) && ' ' !in ValueOf(t)
  }

  predicate GoodTags(tags: seq<Tag>) {
    tags == [] || (GoodTag(tags[|tags| - 1]) && GoodTags(tags[..|tags| - 1]))
  }

  predicate GoodSource(s: Source) {
    && '@' !in s.nick && '!' !in s.nick && ' ' !in s.nick
    && match s.origin
       case NickOnly => true
       case AtHost(h) => ' ' !in h
       case UserAtHost(u, h) => '@' !in u && ' ' !in h
  }

  predicate GoodWord(w: string) { w != "" && w[0] != ':' && ' ' !in w }

  predicate GoodWords(ws: seq<string>) {
    ws == [] || (GoodWord(ws[0]) && GoodWords(ws[1..]))
  }

  predicate WellFormed(m: Parts) {
    && GoodTags(m.tags)
    && (m.source.Some? ==> GoodSource(m.source.value))
    && m.command != "" && ' ' !in m.command
    && (m.source.None? ==> m.command[0] != ':' && (m.tags == [] ==> m.command[0] != '@'))
    && |m.middles| <= MAX_MIDDLES && GoodWords(m.middles)
  }

  // ---- Reading back what was printed ----------------------------------------------------------------

  predicate AllIn(cl: Class, s: string) { forall c <- s :: In(cl, c) }

  /** What stands behind a piece of a line. */
  lemma Behind(s: string, i: nat, piece: string, after: string)
    requires i <= |s| && s[i..] == piece + after
    ensures i + |piece| <= |s| && s[i..i + |piece|] == piece && s[i + |piece|..] == after
  {
    assert (piece + after)[..|piece|] == piece && (piece + after)[|piece|..] == after;
  }

  lemma AtFront(s: string, i: nat, c: char, rest: string)
    requires i <= |s| && s[i..] == [c] + rest
    ensures i < |s| && s[i] == c && s[i + 1..] == rest
  {
    assert s[i..][0] == c && s[i..][1..] == rest;
  }

  /** A run over a piece whose characters are in the class, up to one that is not. */
  lemma {:induction false} SpanOver(cl: Class, s: string, i: nat, piece: string, after: string)
    requires i <= |s| && s[i..] == piece + after
    requires AllIn(cl, piece) && (after == "" || !In(cl, after[0]))
    ensures Span(cl, s, i) == i + |piece|
    decreases |piece|
  {
    if piece != "" {
      var rest := piece[1..];
      assert piece + after == [piece[0]] + (rest + after);
      AtFront(s, i, piece[0], rest + after);
      assert piece[0] in piece && forall c <- rest :: c in piece;
      SpanOver(cl, s, i + 1, rest, after);
    } else if after != "" {
      assert s[i] == s[i..][0] == after[0];
    }
  }

  /** The text after the middle parameters: nothing, a colon part, or anything once there are n of them. */
  predicate EndsMiddles(after: string, full: bool) {
    after == "" || (after[0] == ' ' && (full || |after| == 1 || after[1] == ':' || after[1] == ' '))
  }

  lemma {:induction false} SpanIs(cl: Class, s: string, i: nat, e: nat)
    requires i <= e <= |s| && (forall j :: i <= j < e ==> In(cl, s[j])) && (e < |s| ==> !In(cl, s[e]))
    ensures Span(cl, s, i) == e
    decreases e - i
  {
    if i < e { SpanIs(cl, s, i + 1, e); }
  }

  predicate WordAt(s: string, i: nat, w: string) {
    i + 1 + |w| <= |s| && s[i] == ' ' && s[i + 1..i + 1 + |w|] == w
  }

  /** Middle parameters stand from i to e. */
  predicate WordsAt(s: string, i: nat, ws: seq<string>, e: nat)
    decreases |ws|
  {
    if ws == [] then i == e <= |s|
    else WordAt(s, i, ws[0]) && WordsAt(s, i + 1 + |ws[0]|, ws[1..], e)
  }

  /** One more middle parameter is taken whole. */
  lemma OneMiddle(n: nat, s: string, i: nat, w: string)
    requires n > 0 && GoodWord(w) && WordAt(s, i, w) && Boundary(s, i + 1 + |w|)
    ensures MiddlesEnd(n, s, i) == MiddlesEnd(n - 1, s, i + 1 + |w|)
  {
    var e := i + 1 + |w|;
    assert s[i + 1] == w[0] && w[0] in w;
    forall j | i + 2 <= j < e ensures In(NOT_SPACE, s[j]) {
      assert s[j] == w[j - i - 1] && w[j - i - 1] in w;
    }
    SpanIs(NOT_SPACE, s, i + 2, e);
  }

  lemma {:induction false} WordsBegin(s: string, i: nat, ws: seq<string>, e: nat)
    requires WordsAt(s, i, ws, e) && Boundary(s, e)
    ensures Boundary(s, i)
  {}

  lemma NoMoreMiddles(n: nat, s: string, i: nat, full: bool)
    requires i <= |s| && EndsMiddles(s[i..], full) && (full ==> n == 0)
    ensures MiddlesEnd(n, s, i) == i
  {
    assert i < |s| ==> s[i] == s[i..][0];
    assert i + 1 < |s| ==> s[i + 1] == s[i..][1];
  }

  lemma {:induction false} MiddlesOver(n: nat, s: string, i: nat, ws: seq<string>, e: nat, full: bool)
    requires |ws| <= n && GoodWords(ws) && WordsAt(s, i, ws, e) && (full ==> |ws| == n)
    requires e <= |s| && EndsMiddles(s[e..], full)
    ensures MiddlesEnd(n, s, i) == e
    decreases |ws|
  {
    if ws == [] {
      NoMoreMiddles(n, s, i, full);
    } else {
      assert Boundary(s, e) by { assert e < |s| ==> s[e] == s[e..][0]; }
      WordsBegin(s, i + 1 + |ws[0]|, ws[1..], e);
      OneMiddle(n, s, i, ws[0]);
      MiddlesOver(n - 1, s, i + 1 + |ws[0]|, ws[1..], e, full);
    }
  }

  lemma WordsSplit(ws: seq<string>, after: string)
    requires ws != []
    ensures Words(ws) + after == [' '] + (ws[0] + (Words(ws[1..]) + after))
  {}

  /** Printed middle parameters stand where they were printed. */
  lemma {:induction false} WordsStand(s: string, i: nat, ws: seq<string>, after: string)
    requires i <= |s| && s[i..] == Words(ws) + after
    ensures WordsAt(s, i, ws, i + |Words(ws)|)
    decreases |ws|
  {
    if ws == [] {
    } else {
      var w, more := ws[0], Words(ws[1..]) + after;
      WordsSplit(ws, after);
      AtFront(s, i, ' ', w + more);
      Behind(s, i + 1, w, more);
      WordsStand(s, i + 1 + |w|, ws[1..], after);
    }
  }

  lemma WordsStart(ws: seq<string>, after: string)
    requires after == "" || after[0] == ' '
    ensures Words(ws) + after == "" || (Words(ws) + after)[0] == ' '
  {}

  lemma {:induction false} WordsAreJoined(ws: seq<string>)
    ensures Words(ws) == Join([""] + ws, " ")
  {
    if ws != [] {
      WordsAreJoined(ws[1..]);
      assert ([""] + ws)[1..] == ws;
      assert ([""] + ws[1..])[1..] == ws[1..];
      if |ws| > 1 {
        assert " " + ws[0] + (" " + Join(ws[1..], " ")) == "" + " " + (ws[0] + " " + Join(ws[1..], " "));
      }
    }
  }

  lemma {:induction false} GoodWordsSpaceless(ws: seq<string>)
    requires GoodWords(ws)
    ensures forall w <- ws :: ' ' !in w
  {
    if ws != [] {
      GoodWordsSpaceless(ws[1..]);
      assert forall w <- ws :: w == ws[0] || w in ws[1..];
    }
  }

  lemma SplitWords(ws: seq<string>)
    requires GoodWords(ws)
    ensures Split(Words(ws), ' ')[1..] == ws
  {
    GoodWordsSpaceless(ws);
    WordsAreJoined(ws);
    SplitJoin([""] + ws, ' ');
  }

  function FieldsOfTail(f: Fields, command: string, ws: seq<string>, after: string): Fields {
    f.(command := command, middles := Words(ws), trailing := TrailingText(after, 0))
  }

  lemma TrailingAt(s: string, m: nat)
    requires m <= |s|
    ensures TrailingText(s, m) == TrailingText(s[m..], 0)
  {}

  lemma ParseTailIs(s: string, i: nat, c: nat, m: nat, command: string, words: string, after: string, f: Fields)
    requires Starts(s, i) && c == Span(NOT_SPACE, s, i) && m == MiddlesEnd(MAX_MIDDLES, s, c)
    requires s[i..c] == command && s[c..m] == words && s[m..] == after
    ensures ParseTail(s, i, f) == f.(command := command, middles := words, trailing := TrailingText(after, 0))
  {
    TrailingAt(s, m);
  }

  lemma MiddlesFound(s: string, c: nat, ws: seq<string>, after: string)
    requires |ws| <= MAX_MIDDLES && GoodWords(ws) && EndsMiddles(after, |ws| == MAX_MIDDLES)
    requires c <= |s| && s[c..] == Words(ws) + after
    ensures var m := c + |Words(ws)|; MiddlesEnd(MAX_MIDDLES, s, c) == m && s[c..m] == Words(ws) && s[m..] == after
  {
    Behind(s, c, Words(ws), after);
    WordsStand(s, c, ws, after);
    MiddlesOver(MAX_MIDDLES, s, c, ws, c + |Words(ws)|, |ws| == MAX_MIDDLES);
  }

  lemma TailFrom(s: string, i: nat, command: string, ws: seq<string>, after: string, f: Fields)
    requires Starts(s, i) && i + |command| == Span(NOT_SPACE, s, i) && |ws| <= MAX_MIDDLES && GoodWords(ws)
    requires EndsMiddles(after, |ws| == MAX_MIDDLES)
    requires s[i..i + |command|] == command && s[i + |command|..] == Words(ws) + after
    ensures ParseTail(s, i, f) == FieldsOfTail(f, command, ws, after)
  {
    var c := i + |command|;
    MiddlesFound(s, c, ws, after);
    ParseTailIs(s, i, c, c + |Words(ws)|, command, Words(ws), after, f);
  }

  lemma CommandSpan(s: string, i: nat, command: string, ws: seq<string>, after: string)
    requires command != "" && ' ' !in command && EndsMiddles(after, |ws| == MAX_MIDDLES)
    requires i <= |s| && s[i..] == command + (Words(ws) + after)
    ensures Starts(s, i) && Span(NOT_SPACE, s, i) == i + |command|
  {
    assert s[i] == s[i..][0] == command[0] && command[0] in command;
    WordsStart(ws, after);
    SpanOver(NOT_SPACE, s, i, command, Words(ws) + after);
  }

  /** A command, middle parameters and an end are read back as such, wherever they stand in a line. */
  lemma TailReadBack(s: string, i: nat, command: string, ws: seq<string>, after: string, f: Fields)
    requires command != "" && ' ' !in command && |ws| <= MAX_MIDDLES && GoodWords(ws)
    requires EndsMiddles(after, |ws| == MAX_MIDDLES)
    requires i <= |s| && s[i..] == command + (Words(ws) + after)
    ensures Starts(s, i) && ParseTail(s, i, f) == FieldsOfTail(f, command, ws, after)
  {
    CommandSpan(s, i, command, ws, after);
    Behind(s, i, command, Words(ws) + after);
    TailFrom(s, i, command, ws, after, f);
  }

  // ---- The prefix ----------------------------------------------------------------------------------

  function UserOf(s: Source): string { if s.origin.UserAtHost? then s.origin.user else "" }

  function HostOf(s: Source): string { if s.origin.NickOnly? then "" else s.origin.host }

  function PrefixFields(f: Fields, prefix: string, nick: string, user: string, host: string): Fields {
    f.(prefix := prefix, nick := nick, user := user, host := host)
  }

  function SourceFields(f: Fields, s: Source): Fields {
    PrefixFields(f, SourceText(s), s.nick, UserOf(s), HostOf(s))
  }

  predicate PieceAt(s: string, i: nat, p: string) { i + |p| <= |s| && s[i..i + |p|] == p }

  predicate CharAt(s: string, i: nat, c: char) { i < |s| && s[i] == c }

  lemma SpanPiece(cl: Class, s: string, i: nat, p: string)
    requires PieceAt(s, i, p) && AllIn(cl, p) && (i + |p| < |s| ==> !In(cl, s[i + |p|]))
    ensures Span(cl, s, i) == i + |p|
  {
    forall j | i <= j < i + |p| ensures In(cl, s[j]) {
      assert s[j] == p[j - i] && p[j - i] in p;
    }
    SpanIs(cl, s, i, i + |p|);
  }

  /** A piece, then a character: the way every part of a prefix stands in a line. */
  lemma PieceThen(s: string, i: nat, p: string, c: char, more: string)
    requires i <= |s| && s[i..] == p + ([c] + more)
    ensures PieceAt(s, i, p) && CharAt(s, i + |p|, c) && s[i + |p| + 1..] == more
  {
    Behind(s, i, p, [c] + more);
    AtFront(s, i + |p|, c, more);
  }

  /** A prefix stands at i, between a colon and a space with a command behind it. */
  predicate PrefixAt(s: string, i: nat, prefix: string) {
    CharAt(s, i, ':') && PieceAt(s, i + 1, prefix) && Ends(s, i + 1 + |prefix|)
  }

  lemma PrefixStands(s: string, i: nat, prefix: string, rest: string)
    requires i <= |s| && s[i..] == [':'] + (prefix + ([' '] + rest)) && rest != "" && rest[0] != ' '
    ensures PrefixAt(s, i, prefix) && s[i + 2 + |prefix|..] == rest
  {
    AtFront(s, i, ':', prefix + ([' '] + rest));
    PieceThen(s, i + 1, prefix, ' ', rest);
    assert s[i + 2 + |prefix|..][0] == rest[0];
  }

  /** What stands in a piece of a line. */
  lemma PieceHolds(s: string, i: nat, a: string, b: string)
    requires PieceAt(s, i, a + b)
    ensures PieceAt(s, i, a) && PieceAt(s, i + |a|, b)
  {
    assert (a + b)[..|a|] == a && (a + b)[|a|..] == b;
    assert s[i..i + |a|] == s[i..i + |a + b|][..|a|];
    assert s[i + |a|..i + |a + b|] == s[i..i + |a + b|][|a|..];
  }

  lemma PieceBegins(s: string, i: nat, c: char, b: string)
    requires PieceAt(s, i, [c] + b)
    ensures CharAt(s, i, c) && PieceAt(s, i + 1, b)
  {
    PieceHolds(s, i, [c], b);
    assert s[i] == s[i..i + 1][0];
  }

  lemma ReadEnd(s: string, i: nat, prefix: string, f: Fields)
    requires PrefixAt(s, i, prefix)
    ensures EndPrefix(s, i, i + 1 + |prefix|, f) == Some((f.(prefix := prefix), i + 2 + |prefix|))
  {}

  /** A host from its '@' at n on, up to the end of the prefix. */
  lemma ReadHost(s: string, i: nat, n: nat, host: string, f: Fields)
    requires i < n && CharAt(s, n, '@') && PieceAt(s, n + 1, host) && ' ' !in host && Ends(s, n + 1 + |host|)
    ensures ParseHost(s, i, n, f) == EndPrefix(s, i, n + 1 + |host|, f.(host := host))
  {
    SpanPiece(NOT_SPACE, s, n + 1, host);
  }

  lemma ReadUser(s: string, i: nat, n: nat, user: string, f: Fields)
    requires i < n && CharAt(s, n, '!') && PieceAt(s, n + 1, user) && '@' !in user && CharAt(s, n + 1 + |user|, '@')
    ensures ParseUserHost(s, i, n, f) == ParseHost(s, i, n + 1 + |user|, f.(user := user))
  {
    SpanPiece(NotIn({'@'}), s, n + 1, user);
  }

  lemma ReadNick(s: string, i: nat, nick: string, c: char, f: Fields)
    requires PieceAt(s, i + 1, nick) && AllIn(NICK, nick) && CharAt(s, i + 1 + |nick|, c) && !In(NICK, c)
    ensures ParsePrefix(s, i, f) == ParseUserHost(s, i, i + 1 + |nick|, f.(nick := nick))
  {
    SpanPiece(NICK, s, i + 1, nick);
  }

  lemma BareSource(s: string, i: nat, nick: string, f: Fields)
    requires PrefixAt(s, i, nick) && AllIn(NICK, nick) && f.user == f.host == ""
    ensures ParsePrefix(s, i, f) == Some((PrefixFields(f, nick, nick, "", ""), i + 2 + |nick|))
  {
    ReadNick(s, i, nick, ' ', f);
    ReadEnd(s, i, nick, f.(nick := nick));
  }

  /** A host that stands at n and ends the prefix. */
  predicate HostStands(s: string, n: nat, host: string) {
    CharAt(s, n, '@') && PieceAt(s, n + 1, host) && ' ' !in host && Ends(s, n + 1 + |host|)
  }

  lemma HostEnds(s: string, i: nat, n: nat, host: string, prefix: string, f: Fields)
    requires i < n && HostStands(s, n, host) && PrefixAt(s, i, prefix) && n + |host| == i + |prefix|
    ensures ParseHost(s, i, n, f) == Some((f.(prefix := prefix, host := host), i + 2 + |prefix|))
  {
    ReadHost(s, i, n, host, f);
    ReadEnd(s, i, prefix, f.(host := host));
  }

  lemma HostAfterNick(s: string, i: nat, nick: string, host: string, prefix: string, f: Fields)
    requires PieceAt(s, i + 1, nick) && AllIn(NICK, nick) && PrefixAt(s, i, prefix) && f.user == ""
    requires HostStands(s, i + 1 + |nick|, host) && |prefix| == |nick| + 1 + |host|
    ensures ParsePrefix(s, i, f) == Some((PrefixFields(f, prefix, nick, "", host), i + 2 + |prefix|))
  {
    ReadNick(s, i, nick, '@', f);
    HostEnds(s, i, i + 1 + |nick|, host, prefix, f.(nick := nick));
  }

  lemma UserAfterNick(s: string, i: nat, nick: string, user: string, f: Fields)
    requires PieceAt(s, i + 1, nick) && AllIn(NICK, nick) && CharAt(s, i + 1 + |nick|, '!')
    requires PieceAt(s, i + 2 + |nick|, user) && '@' !in user && CharAt(s, i + 2 + |nick| + |user|, '@')
    ensures ParsePrefix(s, i, f) == ParseHost(s, i, i + 2 + |nick| + |user|, f.(nick := nick, user := user))
  {
    ReadNick(s, i, nick, '!', f);
    ReadUser(s, i, i + 1 + |nick|, user, f.(nick := nick));
  }

  lemma HostSource(s: string, i: nat, nick: string, host: string, prefix: string, f: Fields)
    requires prefix == nick + (['@'] + host) && PrefixAt(s, i, prefix)
    requires AllIn(NICK, nick) && ' ' !in host && f.user == ""
    ensures ParsePrefix(s, i, f) == Some((PrefixFields(f, prefix, nick, "", host), i + 2 + |prefix|))
  {
    PieceHolds(s, i + 1, nick, ['@'] + host);
    PieceBegins(s, i + 1 + |nick|, '@', host);
    HostAfterNick(s, i, nick, host, prefix, f);
  }

  lemma UserPieces(s: string, n: nat, user: string, host: string)
    requires PieceAt(s, n, user + (['@'] + host)) && ' ' !in host && Ends(s, n + |user| + 1 + |host|)
    ensures PieceAt(s, n, user) && HostStands(s, n + |user|, host)
  {
    PieceHolds(s, n, user, ['@'] + host);
    PieceBegins(s, n + |user|, '@', host);
  }

  lemma UserStands(s: string, i: nat, nick: string, user: string, host: string)
    requires var prefix := nick + (['!'] + (user + (['@'] + host)));
             PieceAt(s, i + 1, prefix) && ' ' !in host && Ends(s, i + 1 + |prefix|)
    ensures PieceAt(s, i + 1, nick) && CharAt(s, i + 1 + |nick|, '!') && PieceAt(s, i + 2 + |nick|, user)
    ensures HostStands(s, i + 2 + |nick| + |user|, host)
  {
    var more := user + (['@'] + host);
    PieceHolds(s, i + 1, nick, ['!'] + more);
    PieceBegins(s, i + 1 + |nick|, '!', more);
    UserPieces(s, i + 2 + |nick|, user, host);
  }

  lemma UserSource(s: string, i: nat, nick: string, user: string, host: string, prefix: string, f: Fields)
    requires prefix == nick + (['!'] + (user + (['@'] + host))) && PrefixAt(s, i, prefix)
    requires AllIn(NICK, nick) && '@' !in user && ' ' !in host
    ensures ParsePrefix(s, i, f) == Some((PrefixFields(f, prefix, nick, user, host), i + 2 + |prefix|))
  {
    UserStands(s, i, nick, user, host);
    UserAfterNick(s, i, nick, user, f);
    HostEnds(s, i, i + 2 + |nick| + |user|, host, prefix, f.(nick := nick, user := user));
  }

  lemma SourceHostRead(s: string, i: nat, source: Source, f: Fields)
    requires PrefixAt(s, i, SourceText(source)) && GoodSource(source) && f.user == "" && source.origin.AtHost?
    ensures ParsePrefix(s, i, f) == Some((SourceFields(f, source), i + 2 + |SourceText(source)|))
  {
    HostSource(s, i, source.nick, source.origin.host, SourceText(source), f);
  }

  lemma SourceUserRead(s: string, i: nat, source: Source, f: Fields)
    requires PrefixAt(s, i, SourceText(source)) && GoodSource(source) && source.origin.UserAtHost?
    ensures ParsePrefix(s, i, f) == Some((SourceFields(f, source), i + 2 + |SourceText(source)|))
  {
    UserSource(s, i, source.nick, source.origin.user, source.origin.host, SourceText(source), f);
  }

  /** A source is read back with its parts. */
  lemma SourceReadBack(s: string, i: nat, source: Source, f: Fields)
    requires PrefixAt(s, i, SourceText(source)) && GoodSource(source) && f.user == f.host == ""
    ensures ParsePrefix(s, i, f) == Some((SourceFields(f, source), i + 2 + |SourceText(source)|))
  {
    match source.origin
    case NickOnly => BareSource(s, i, source.nick, f);
    case AtHost(_) => SourceHostRead(s, i, source, f);
    case UserAtHost(_, _) => SourceUserRead(s, i, source, f);
  }

  // ---- The whole line ------------------------------------------------------------------------------

  lemma TrailingReadBack(t: Option<string>)
    ensures TrailingText(TrailingPart(t), 0) == TextOr(t) && EndsMiddles(TrailingPart(t), false)
    ensures EndsMiddles(TrailingPart(t), true)
  {
    if t.Some? {
      assert (" :" + t.value)[2..] == t.value;
    }
  }

  /** What follows the middle parameters starts no further one. */
  predicate Follows(m: Parts, after: string) { EndsMiddles(after, |m.middles| == MAX_MIDDLES) }

  function TailOf(m: Parts, after: string, f: Fields): Fields { FieldsOfTail(f, m.command, m.middles, after) }

  lemma TailOfParts(s: string, i: nat, m: Parts, after: string, f: Fields)
    requires WellFormed(m) && Follows(m, after) && i <= |s| && s[i..] == PrintTail(m, after)
    ensures Starts(s, i) && ParseTail(s, i, f) == TailOf(m, after, f)
  {
    TailReadBack(s, i, m.command, m.middles, after, f);
  }

  lemma CommandStarts(m: Parts, after: string)
    requires WellFormed(m)
    ensures PrintTail(m, after) != "" && PrintTail(m, after)[0] == m.command[0] != ' '
  {
    assert m.command[0] in m.command;
  }

  /** The fields a message ought to give, after its tags. */
  function Expected(m: Parts, after: string, f: Fields): Fields {
    TailOf(m, after, if m.source.None? then f else SourceFields(f, m.source.value))
  }

  lemma UnsourcedReadBack(s: string, i: nat, m: Parts, after: string, f: Fields)
    requires WellFormed(m) && m.source == None && Follows(m, after)
    requires i <= |s| && s[i..] == PrintSource(m.source) + PrintTail(m, after)
    ensures Starts(s, i) && s[i] == m.command[0] && ParseAfterTags(s, i, f) == TailOf(m, after, f)
  {
    CommandStarts(m, after);
    assert s[i..] == PrintTail(m, after);
    assert s[i] == s[i..][0];
    TailOfParts(s, i, m, after, f);
  }

  lemma BehindPrefix(s: string, i: nat, j: nat, m: Parts, after: string, f': Fields, f: Fields)
    requires WellFormed(m) && Follows(m, after) && j <= |s| && s[j..] == PrintTail(m, after)
    requires CharAt(s, i, ':') && ParsePrefix(s, i, f) == Some((f', j))
    ensures Starts(s, i) && ParseAfterTags(s, i, f) == TailOf(m, after, f')
  {
    TailOfParts(s, j, m, after, f');
  }

  lemma BehindText(s: string, i: nat, prefix: string, m: Parts, after: string, f': Fields, f: Fields)
    requires WellFormed(m) && Follows(m, after) && PrefixAt(s, i, prefix)
    requires s[i + 2 + |prefix|..] == PrintTail(m, after) && ParsePrefix(s, i, f) == Some((f', i + 2 + |prefix|))
    ensures Starts(s, i) && s[i] == ':' && ParseAfterTags(s, i, f) == TailOf(m, after, f')
  {
    BehindPrefix(s, i, i + 2 + |prefix|, m, after, f', f);
  }

  lemma BehindSource(s: string, i: nat, m: Parts, source: Source, after: string, f: Fields)
    requires WellFormed(m) && Follows(m, after) && GoodSource(source) && f.user == f.host == ""
    requires PrefixAt(s, i, SourceText(source)) && s[i + 2 + |SourceText(source)|..] == PrintTail(m, after)
    ensures Starts(s, i) && s[i] == ':' && ParseAfterTags(s, i, f) == TailOf(m, after, SourceFields(f, source))
  {
    SourceReadBack(s, i, source, f);
    BehindText(s, i, SourceText(source), m, after, SourceFields(f, source), f);
  }

  lemma SourceThen(source: Source, rest: string)
    ensures PrintSource(Some(source)) + rest == [':'] + (SourceText(source) + ([' '] + rest))
  {}

  lemma SourcedReadBack(s: string, i: nat, m: Parts, source: Source, after: string, f: Fields)
    requires WellFormed(m) && m.source == Some(source) && Follows(m, after)
    requires i <= |s| && s[i..] == PrintSource(Some(source)) + PrintTail(m, after) && f.user == f.host == ""
    ensures Starts(s, i) && s[i] == ':'
    ensures ParseAfterTags(s, i, f) == TailOf(m, after, SourceFields(f, source))
  {
    CommandStarts(m, after);
    SourceThen(source, PrintTail(m, after));
    PrefixStands(s, i, SourceText(source), PrintTail(m, after));
    BehindSource(s, i, m, source, after, f);
  }

  /** Source and everything behind it are read back. */
  lemma RestReadBack(s: string, i: nat, m: Parts, after: string, f: Fields)
    requires WellFormed(m) && Follows(m, after) && i <= |s| && s[i..] == PrintSource(m.source) + PrintTail(m, after)
    requires f.prefix == f.nick == f.user == f.host == ""
    ensures Starts(s, i) && ParseAfterTags(s, i, f) == Expected(m, after, f)
    ensures s[i] == if m.source.Some? then ':' else m.command[0]
  {
    if m.source.None? {
      UnsourcedReadBack(s, i, m, after, f);
    } else {
      SourcedReadBack(s, i, m, m.source.value, after, f);
    }
  }

  lemma {:induction false} TagEndOver(s: string, i: nat, text: string, rest: string)
    requires i <= |s| && s[i..] == text + ([' '] + rest) && ' ' !in text && rest != "" && rest[0] != ' '
    ensures TagEnd(s, i) == Some(i + |text|)
    decreases |text|
  {
    if text == "" {
      assert s[i..] == [' '] + rest;
      AtFront(s, i, ' ', rest);
      assert s[i + 1] == s[i + 1..][0];
    } else {
      var more := text[1..] + ([' '] + rest);
      assert text + ([' '] + rest) == [text[0]] + more;
      AtFront(s, i, text[0], more);
      assert text[0] in text;
      TagEndOver(s, i + 1, text[1..], rest);
    }
  }

  lemma {:induction false} TagTextsSpaceless(tags: seq<Tag>)
    requires GoodTags(tags)
    ensures forall x <- TagTexts(tags) :: ' ' !in x && ';' !in x
  {
    if tags != [] {
      TagTextsSpaceless(tags[..|tags| - 1]);
    }
  }

  lemma {:induction false} JoinSpaceless(parts: seq<string>)
    requires forall x <- parts :: ' ' !in x
    ensures ' ' !in Join(parts, ";")
  {
    if parts != [] {
      assert parts[0] in parts && forall x <- parts[1..] :: x in parts;
      JoinSpaceless(parts[1..]);
    }
  }

  /** The fields of a printed line: its tags, source, command, middle parameters and what follows. */
  function PrintedFields(m: Parts, after: string): Fields {
    Expected(m, after, NO_FIELDS.(tags := Join(TagTexts(m.tags), ";")))
  }

  lemma UntaggedReadBack(m: Parts, after: string)
    requires WellFormed(m) && m.tags == [] && Follows(m, after)
    ensures ParseLine(PrintWith(m, after)) == Some(PrintedFields(m, after))
  {
    var s := PrintWith(m, after);
    assert s == PrintSource(m.source) + PrintTail(m, after);
    assert s[0..] == s;
    RestReadBack(s, 0, m, after, NO_FIELDS);
    ParseAtFront(s);
    assert NO_FIELDS.(tags := Join(TagTexts([]), ";")) == NO_FIELDS;
  }

  lemma TagsThen(text: string, source: Option<Source>, tail: string)
    ensures ['@'] + text + [' '] + PrintSource(source) + tail == ['@'] + (text + ([' '] + (PrintSource(source) + tail)))
  {}

  /** Tags at the front of a line are found, and what is behind them is read next. */
  lemma TagsRead(s: string, text: string, rest: string)
    requires s[0..] == ['@'] + (text + ([' '] + rest)) && ' ' !in text && rest != "" && rest[0] != ' '
    ensures 2 + |text| < |s| && s[2 + |text|..] == rest && Starts(s, 2 + |text|)
    ensures ParseLine(s) == Some(ParseAfterTags(s, 2 + |text|, NO_FIELDS.(tags := text)))
  {
    AtFront(s, 0, '@', text + ([' '] + rest));
    TagEndOver(s, 1, text, rest);
    Behind(s, 1, text, [' '] + rest);
    AtFront(s, 1 + |text|, ' ', rest);
    assert s[2 + |text|] == s[2 + |text|..][0];
    ParseAtFront(s);
  }

  lemma RestStarts(m: Parts, after: string)
    requires WellFormed(m)
    ensures var rest := PrintSource(m.source) + PrintTail(m, after); rest != "" && rest[0] != ' '
  {
    CommandStarts(m, after);
    assert m.source.Some? ==> PrintSource(m.source)[0] == ':';
  }

  lemma TaggedReadBack(m: Parts, after: string)
    requires WellFormed(m) && m.tags != [] && Follows(m, after)
    ensures ParseLine(PrintWith(m, after)) == Some(PrintedFields(m, after))
  {
    var s, text, rest := PrintWith(m, after), Join(TagTexts(m.tags), ";"), PrintSource(m.source) + PrintTail(m, after);
    TagTextsSpaceless(m.tags);
    JoinSpaceless(TagTexts(m.tags));
    RestStarts(m, after);
    TagsThen(text, m.source, PrintTail(m, after));
    assert s[0..] == ['@'] + (text + ([' '] + rest));
    TagsRead(s, text, rest);
    RestReadBack(s, 2 + |text|, m, after, NO_FIELDS.(tags := text));
  }

  lemma LineReadBack(m: Parts, after: string)
    requires WellFormed(m) && Follows(m, after)
    ensures ParseLine(PrintWith(m, after)) == Some(PrintedFields(m, after))
  {
    if m.tags == [] {
      UntaggedReadBack(m, after);
    } else {
      TaggedReadBack(m, after);
    }
  }

  // ---- Tags ----------------------------------------------------------------------------------------

  predicate IsFirst(tags: seq<Tag>, i: nat) {
    i < |tags| && forall j :: 0 <= j < i ==> tags[j].key != tags[i].key
  }

  ghost predicate HasKey(tags: seq<Tag>, k: string) { exists i :: 0 <= i < |tags| && tags[i].key == k }

  ghost predicate HoldsFirsts(m: map<string, string>, tags: seq<Tag>) {
    forall i: nat :: IsFirst(tags, i) ==> tags[i].key in m && m[tags[i].key] == ValueOf(tags[i])
  }

  /** The map holds each key of the list with the value of its first tag, and nothing else. */
  ghost predicate IsTagMap(m: map<string, string>, tags: seq<Tag>) {
    (forall k :: k in m <==> HasKey(tags, k)) && HoldsFirsts(m, tags)
  }

  /** The tags that can be read: a value with an '=' in it makes one too many pieces. */
  function Readable(tags: seq<Tag>): seq<Tag> {
    if tags == [] then []
    else
      var init, last := Readable(tags[..|tags| - 1]), tags[|tags| - 1];
      if '=' in ValueOf(last) then init else init + [last]
  }

  /** No key's first value holds an '='. */
  ghost predicate FirstsReadable(tags: seq<Tag>) {
    forall i: nat :: IsFirst(tags, i) ==> '=' !in ValueOf(tags[i])
  }

  lemma {:induction false} SplitMany(s: string, c: char)
    requires c in s
    ensures |Split(s, c)| > 1
  {
    if s[0] != c {
      assert c in s[1..];
      SplitMany(s[1..], c);
    }
  }

  lemma TagReadBack(t: Tag)
    requires GoodTag(t)
    ensures TagEntry(TagText(t)) == if '=' in ValueOf(t) then None else Some((t.key, ValueOf(t)))
  {
    match t.value
    case None => SplitSingle(t.key, '=');
    case Some(v) =>
      SplitFirst(t.key, '=', v);
      assert t.key + "=" + v == t.key + ['='] + v;
      if '=' in v {
        SplitMany(v, '=');
      } else {
        SplitSingle(v, '=');
      }
  }

  lemma TagMapAppend(texts: seq<string>, text: string)
    ensures TagMap(texts + [text]) == Insert(TagMap(texts), TagEntry(text))
  {
    assert (texts + [text])[..|texts|] == texts;
  }

  lemma TagMapStep(init: seq<Tag>, t: Tag)
    requires GoodTag(t)
    ensures TagMap(TagTexts(init + [t])) ==
            Insert(TagMap(TagTexts(init)), if '=' in ValueOf(t) then None else Some((t.key, ValueOf(t))))
  {
    TagReadBack(t);
    assert (init + [t])[..|init|] == init;
    TagMapAppend(TagTexts(init), TagText(t));
  }

  lemma HasKeyAppend(tags: seq<Tag>, t: Tag, k: string)
    ensures HasKey(tags + [t], k) <==> HasKey(tags, k) || t.key == k
  {
    var all := tags + [t];
    if HasKey(tags, k) {
      var i :| 0 <= i < |tags| && tags[i].key == k;
      assert all[i].key == k;
    } else if t.key == k {
      assert all[|tags|].key == k;
    }
  }

  /** The earlier tags are first in the longer list exactly if they are in the shorter. */
  lemma FirstAppend(init: seq<Tag>, t: Tag, i: nat)
    requires i < |init|
    ensures (init + [t])[i] == init[i] && (IsFirst(init + [t], i) <==> IsFirst(init, i))
  {
    forall j | 0 <= j < i ensures (init + [t])[j] == init[j] {}
  }

  lemma LastIsNew(tags: seq<Tag>, t: Tag)
    requires IsFirst(tags + [t], |tags|)
    ensures !HasKey(tags, t.key)
  {
    forall j | 0 <= j < |tags| ensures tags[j].key != t.key {
      assert (tags + [t])[j] == tags[j];
    }
  }

  lemma InsertKeepsFirsts(m: map<string, string>, tags: seq<Tag>, t: Tag)
    requires IsTagMap(m, tags)
    ensures HoldsFirsts(Insert(m, Some((t.key, ValueOf(t)))), tags + [t])
  {
    var m', all := Insert(m, Some((t.key, ValueOf(t)))), tags + [t];
    forall i: nat | IsFirst(all, i) ensures all[i].key in m' && m'[all[i].key] == ValueOf(all[i]) {
      if i < |tags| {
        FirstAppend(tags, t, i);
      } else {
        LastIsNew(tags, t);
      }
    }
  }

  lemma InsertKeepsTagMap(m: map<string, string>, tags: seq<Tag>, t: Tag)
    requires IsTagMap(m, tags)
    ensures IsTagMap(Insert(m, Some((t.key, ValueOf(t)))), tags + [t])
  {
    var m' := Insert(m, Some((t.key, ValueOf(t))));
    forall k ensures k in m' <==> HasKey(tags + [t], k) {
      HasKeyAppend(tags, t, k);
    }
    InsertKeepsFirsts(m, tags, t);
  }

  lemma {:induction false} ReadableTags(tags: seq<Tag>)
    requires GoodTags(tags)
    ensures IsTagMap(TagMap(TagTexts(tags)), Readable(tags))
  {
    if tags != [] {
      var init, last := tags[..|tags| - 1], tags[|tags| - 1];
      ReadableTags(init);
      assert init + [last] == tags;
      TagMapStep(init, last);
      InsertKeepsTagMap(TagMap(TagTexts(init)), Readable(init), last);
    }
  }

  lemma LastOf(tags: seq<Tag>)
    requires tags != []
    ensures tags[..|tags| - 1] + [tags[|tags| - 1]] == tags
  {}

  /** A last tag that is not readable has an earlier one with its key. */
  lemma HasKeyAlready(init: seq<Tag>, t: Tag)
    requires FirstsReadable(init + [t]) && '=' in ValueOf(t)
    ensures HasKey(init, t.key)
  {
    var all := init + [t];
    assert !IsFirst(all, |init|);
    var j :| 0 <= j < |init| && all[j].key == all[|init|].key;
    assert init[j].key == t.key;
  }

  lemma AllTagsStep(tags: seq<Tag>, init: seq<Tag>, t: Tag)
    requires GoodTag(t) && IsTagMap(TagMap(TagTexts(init)), init) && FirstsReadable(tags) && tags == init + [t]
    ensures IsTagMap(TagMap(TagTexts(tags)), tags)
  {
    TagMapStep(init, t);
    InsertKeepsTagMap(TagMap(TagTexts(init)), init, t);
    if '=' in ValueOf(t) {
      HasKeyAlready(init, t);
    }
  }

  lemma FirstsOfInit(init: seq<Tag>, t: Tag)
    requires FirstsReadable(init + [t])
    ensures FirstsReadable(init)
  {
    forall i: nat | IsFirst(init, i) ensures '=' !in ValueOf(init[i]) {
      FirstAppend(init, t, i);
    }
  }

  lemma {:induction false} AllTags(tags: seq<Tag>)
    requires GoodTags(tags) && FirstsReadable(tags)
    ensures IsTagMap(TagMap(TagTexts(tags)), tags)
  {
    if tags != [] {
      var init, last := tags[..|tags| - 1], tags[|tags| - 1];
      LastOf(tags);
      FirstsOfInit(init, last);
      AllTags(init);
      AllTagsStep(tags, init, last);
    }
  }

  /** No value that is read holds an '='. */
  lemma {:induction false} ValuesRead(tags: seq<Tag>, k: string)
    requires GoodTags(tags) && k in TagMap(TagTexts(tags))
    ensures '=' !in TagMap(TagTexts(tags))[k]
  {
    if tags != [] {
      var init, last := tags[..|tags| - 1], tags[|tags| - 1];
      assert init + [last] == tags;
      TagMapStep(init, last);
      if k in TagMap(TagTexts(init)) {
        ValuesRead(init, k);
      }
    }
  }

  /**
   * The tag map is that of the tags whose value has no '='. It is that of all tags exactly if no key's first
   * value has one.
   */
  lemma TagsReadBack(tags: seq<Tag>)
    requires GoodTags(tags)
    ensures IsTagMap(TagMap(TagTexts(tags)), Readable(tags))
    ensures IsTagMap(TagMap(TagTexts(tags)), tags) <==> FirstsReadable(tags)
  {
    ReadableTags(tags);
    if FirstsReadable(tags) {
      AllTags(tags);
    } else {
      var i: nat :| IsFirst(tags, i) && '=' in ValueOf(tags[i]);
      if tags[i].key in TagMap(TagTexts(tags)) {
        ValuesRead(tags, tags[i].key);
      }
    }
  }

  lemma NoTags()
    ensures TagMap(Split("", ';')) == map[]
  {
    assert Split("", '=') == [""];
    assert [""][..0] == [];
  }

  lemma TagMapOfPrinted(tags: seq<Tag>)
    requires GoodTags(tags)
    ensures TagMap(Split(Join(TagTexts(tags), ";"), ';')) == TagMap(TagTexts(tags))
  {
    if tags == [] {
      NoTags();
    } else {
      TagTextsSpaceless(tags);
      SplitJoin(TagTexts(tags), ';');
    }
  }

  // ---- The theorems --------------------------------------------------------------------------------

  /** What a message ought to give, whatever follows its middle parameters. */
  ghost predicate ReadAs(d: Data, m: Parts, after: string) {
    && d.raw == PrintWith(m, after)
    && IsTagMap(d.tags, Readable(m.tags)) && (IsTagMap(d.tags, m.tags) <==> FirstsReadable(m.tags))
    && d.prefix == (if m.source.Some? then SourceText(m.source.value) else "")
    && d.nickname == (if m.source.Some? then m.source.value.nick else "")
    && d.user == (if m.source.Some? then UserOf(m.source.value) else "")
    && d.host == (if m.source.Some? then HostOf(m.source.value) else "")
    && d.command == m.command && d.params == m.middles + [TrailingText(after, 0)]
  }

  lemma ReadBack(m: Parts, after: string)
    requires WellFormed(m) && Follows(m, after)
    ensures ReadAs(Parse(PrintWith(m, after)), m, after)
  {
    LineReadBack(m, after);
    SplitWords(m.middles);
    TagMapOfPrinted(m.tags);
    TagsReadBack(m.tags);
  }

  /**
   * Whatever section 2.3.1 of RFC 2812 can print comes back whole: prefix with nickname, user and host, command,
   * as parameters the middle ones followed by the trailing text, which is empty when there is none, and the tags,
   * the first value of a key, exactly if no such value holds an '='; tags whose value holds one are lost.
   */
  lemma PrintedMessageIsReadBack(m: Parts)
    requires WellFormed(m)
    ensures var d := Parse(Print(m));
            && d.raw == Print(m)
            && IsTagMap(d.tags, Readable(m.tags)) && (IsTagMap(d.tags, m.tags) <==> FirstsReadable(m.tags))
            && d.prefix == (if m.source.Some? then SourceText(m.source.value) else "")
            && d.nickname == (if m.source.Some? then m.source.value.nick else "")
            && d.user == (if m.source.Some? then UserOf(m.source.value) else "")
            && d.host == (if m.source.Some? then HostOf(m.source.value) else "")
            && d.command == m.command && d.params == m.middles + [TextOr(m.trailing)]
  {
    TrailingReadBack(m.trailing);
    ReadBack(m, TrailingPart(m.trailing));
  }

  lemma EmptyTagMap(m: map<string, string>)
    requires IsTagMap(m, [])
    ensures m == map[]
  {
    forall k ensures k !in m {
      assert !HasKey([], k);
    }
  }

  lemma OneTagParts() returns (m: Parts)
    ensures WellFormed(m) && Readable(m.tags) == [] && Print(m) == "@k=a=b PING"
  {
    var t := Tag("k", Some("a=b"));
    m := Parts([t], None, "PING", [], None);
    assert m.tags[..0] == [] && TagText(t) == "k=a=b";
    assert TagTexts(m.tags) == ["k=a=b"];
  }

  /** A tag "k" with the value "a=b" is not in the map. */
  lemma TagIsLost()
    ensures Parse("@k=a=b PING").tags == map[]
  {
    var m := OneTagParts();
    PrintedMessageIsReadBack(m);
    EmptyTagMap(Parse(Print(m)).tags);
  }

  lemma PrintMore(head: string, command: string, words: string, after: string)
    ensures head + (command + (words + "")) + after == head + (command + (words + after))
  {}

  /**
   * After fourteen middle parameters, whatever the tags, source and command, everything is the fifteenth parameter,
   * unchanged but for one leading colon.
   */
  lemma FifteenthParameter(m: Parts, rest: string)
    requires WellFormed(m) && |m.middles| == 14 && m.trailing == None
    ensures Parse(Print(m) + (" " + rest)).params ==
            m.middles + [if rest != "" && rest[0] == ':' then rest[1..] else rest]
  {
    var after := " " + rest;
    PrintMore(PrintTags(m.tags) + PrintSource(m.source), m.command, Words(m.middles), after);
    ReadBack(m, after);
    assert after[1..] == rest;
    assert rest != "" && rest[0] == ':' ==> after[2..] == rest[1..];
  }
}
