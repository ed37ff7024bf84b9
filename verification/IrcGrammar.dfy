/** Whatever is read out of a line is what the line says. */
module IrcGrammar {
  import opened Wrappers
  import opened Strings
  import opened IrcRegex
  import opened IrcMessage
  import opened IrcPrint

  lemma {:induction false} SpanPieces(s: string, i: nat)
    requires i <= |s|
    ensures ' ' !in s[i..Span(NOT_SPACE, s, i)]
  {
    var e := Span(NOT_SPACE, s, i);
    forall j | i <= j < e ensures s[j] != ' ' {
      assert In(NOT_SPACE, s[j]);
    }
  }

  // ---- Soundness -----------------------------------------------------------------------------------

  lemma OneWord(s: string, i: nat, e: nat)
    requires i + 1 < |s| && s[i] == ' ' && s[i + 1] != ':' && s[i + 1] != ' ' && e == Span(NOT_SPACE, s, i + 2)
    ensures GoodWord(s[i + 1..e]) && s[i..e] == " " + s[i + 1..e]
  {
    SpanPieces(s, i + 2);
    assert s[i + 1..e] == [s[i + 1]] + s[i + 2..e];
  }

  lemma WordsPrepend(w: string, ws: seq<string>)
    ensures Words([w] + ws) == " " + w + Words(ws)
  {
    assert ([w] + ws)[1..] == ws;
  }

  /** A word in front of more of them. */
  lemma MoreWords(s: string, i: nat, e: nat, end: nat, more: seq<string>)
    requires i + 1 < e <= end <= |s| && GoodWord(s[i + 1..e]) && s[i..e] == " " + s[i + 1..e]
    requires GoodWords(more) && s[e..end] == Words(more)
    ensures GoodWords([s[i + 1..e]] + more) && s[i..end] == Words([s[i + 1..e]] + more)
  {
    WordsPrepend(s[i + 1..e], more);
    assert ([s[i + 1..e]] + more)[1..] == more;
    assert s[i..end] == s[i..e] + s[e..end];
  }

  /** Middle parameters found in a line are words, at most as many as were allowed. */
  lemma {:induction false} MiddlesAreWords(n: nat, s: string, i: nat) returns (ws: seq<string>)
    requires Boundary(s, i)
    ensures var e := MiddlesEnd(n, s, i);
            |ws| <= n && GoodWords(ws) && s[i..e] == Words(ws) && EndsMiddles(s[e..], |ws| == n)
    decreases n
  {
    if n == 0 || i + 1 >= |s| || s[i + 1] == ':' || s[i + 1] == ' ' {
      ws := [];
    } else {
      var e := Span(NOT_SPACE, s, i + 2);
      OneWord(s, i, e);
      var more := MiddlesAreWords(n - 1, s, e);
      ws := [s[i + 1..e]] + more;
      MoreWords(s, i, e, MiddlesEnd(n - 1, s, e), more);
    }
  }

  /** A command, at most fourteen words, and an end no further word starts. */
  ghost predicate TailText(text: string, f: Fields) {
    exists ws, after ::
      && text == f.command + (Words(ws) + after) && f.command != "" && ' ' !in f.command
      && |ws| <= MAX_MIDDLES && GoodWords(ws) && EndsMiddles(after, |ws| == MAX_MIDDLES)
      && f.middles == Words(ws) && f.trailing == TrailingText(after, 0)
  }

  lemma ThreePieces(s: string, i: nat, c: nat, m: nat)
    requires i <= c <= m <= |s|
    ensures s[i..] == s[i..c] + (s[c..m] + s[m..])
  {}

  lemma TailIsSound(s: string, i: nat, f: Fields)
    requires Starts(s, i)
    ensures TailText(s[i..], ParseTail(s, i, f))
  {
    var c := Span(NOT_SPACE, s, i);
    var m := MiddlesEnd(MAX_MIDDLES, s, c);
    var ws := MiddlesAreWords(MAX_MIDDLES, s, c);
    SpanPieces(s, i);
    TrailingAt(s, m);
    ThreePieces(s, i, c, m);
    assert s[i..] == s[i..c] + (Words(ws) + s[m..]);
  }

  /** nick, nick@host or nick!user@host */
  predicate PrefixText(f: Fields) {
    && '@' !in f.nick && '!' !in f.nick && ' ' !in f.nick && '@' !in f.user && ' ' !in f.host
    && (|| (f.prefix == f.nick && f.user == f.host == "")
        || (f.prefix == f.nick + (['@'] + f.host) && f.user == "")
        || f.prefix == f.nick + (['!'] + (f.user + (['@'] + f.host))))
  }

  lemma SpanAllIn(cl: Class, s: string, i: nat)
    requires i <= |s|
    ensures AllIn(cl, s[i..Span(cl, s, i)])
  {
    var e := Span(cl, s, i);
    forall c | c in s[i..e] ensures In(cl, c) {
      var j :| 0 <= j < e - i && s[i..e][j] == c;
      assert s[i + j] == c;
    }
  }

  lemma Cut2(s: string, i: nat, n: nat, h: nat)
    requires i <= n < h <= |s|
    ensures s[i..h] == s[i..n] + ([s[n]] + s[n + 1..h])
  {}

  lemma ParsePrefixIs(s: string, i: nat, n: nat, f: Fields)
    requires i < |s| && n == Span(NICK, s, i + 1)
    ensures ParsePrefix(s, i, f) == ParseUserHost(s, i, n, f.(nick := s[i + 1..n]))
  {}

  lemma HostIsSound(s: string, i: nat, n: nat, f: Fields)
    requires i < n < |s| && s[n] == '@' && ParseHost(s, i, n, f).Some?
    ensures var (f', _) := ParseHost(s, i, n, f).value;
            && f'.nick == f.nick && f'.user == f.user && f'.tags == f.tags && ' ' !in f'.host
            && f'.prefix == s[i + 1..n] + (['@'] + f'.host)
  {
    var h := Span(NOT_SPACE, s, n + 1);
    SpanAllIn(NOT_SPACE, s, n + 1);
    Cut2(s, i + 1, n, h);
  }

  lemma Join3(nick: string, user: string, host: string)
    ensures (nick + (['!'] + user)) + host == nick + (['!'] + (user + host))
  {}

  lemma UserHostText(s: string, i: nat, n: nat, u: nat, nick: string, r: Fields)
    requires i < n < u <= |s| && s[n] == '!' && nick == s[i + 1..n] && r.user == s[n + 1..u]
    requires r.prefix == s[i + 1..u] + (['@'] + r.host)
    ensures r.prefix == nick + (['!'] + (r.user + (['@'] + r.host)))
  {
    Cut2(s, i + 1, n, u);
    Join3(nick, r.user, ['@'] + r.host);
  }

  lemma ParseUserIs(s: string, i: nat, n: nat, u: nat, f: Fields)
    requires i < n < |s| && s[n] == '!' && u == Span(NotIn({'@'}), s, n + 1) && u < |s|
    ensures ParseUserHost(s, i, n, f) == ParseHost(s, i, u, f.(user := s[n + 1..u]))
  {}

  lemma UserIsSound(s: string, i: nat, n: nat, f: Fields)
    requires i < n < |s| && s[n] == '!' && f.nick == s[i + 1..n] && ParseUserHost(s, i, n, f).Some?
    ensures var (f', _) := ParseUserHost(s, i, n, f).value;
            && f'.nick == f.nick && '@' !in f'.user && ' ' !in f'.host
            && f'.prefix == f.nick + (['!'] + (f'.user + (['@'] + f'.host)))
  {
    var cl := NotIn({'@'});
    var u := Span(cl, s, n + 1);
    SpanAllIn(cl, s, n + 1);
    AtSign(s, n + 1);
    ParseUserIs(s, i, n, u, f);
    HostIsSound(s, i, u, f.(user := s[n + 1..u]));
    UserHostText(s, i, n, u, f.nick, ParseHost(s, i, u, f.(user := s[n + 1..u])).value.0);
  }

  lemma NickLacks(nick: string)
    requires AllIn(NICK, nick)
    ensures '@' !in nick && '!' !in nick && ' ' !in nick
  {}

  lemma NickIsSound(s: string, i: nat, n: nat, f: Fields)
    requires i < n <= |s| && f.nick == s[i + 1..n] && f.user == f.host == ""
    requires '@' !in f.nick && '!' !in f.nick && ' ' !in f.nick
    requires (n < |s| ==> !In(NICK, s[n])) && ParseUserHost(s, i, n, f).Some?
    ensures var (f', j) := ParseUserHost(s, i, n, f).value;
            && i + 1 < j <= |s| && s[j - 1] == ' ' && f'.prefix == s[i + 1..j - 1]
            && PrefixText(f') && f'.tags == f.tags
  {
    if s[n] == '@' {
      HostIsSound(s, i, n, f);
    } else if s[n] == '!' {
      UserIsSound(s, i, n, f);
    }
  }

  lemma PrefixPieces(s: string, i: nat, j: nat, prefix: string)
    requires i + 1 < j <= |s| && s[i] == ':' && s[j - 1] == ' ' && prefix == s[i + 1..j - 1]
    ensures s[i..j] == [':'] + prefix + [' ']
  {}

  /** A prefix that was found has one of the three forms and ends with a space before a command. */
  lemma PrefixIsSound(s: string, i: nat, f: Fields)
    requires i < |s| && s[i] == ':' && f.user == f.host == "" && ParsePrefix(s, i, f).Some?
    ensures var (f', j) := ParsePrefix(s, i, f).value;
            && i < j < |s| && s[i..j] == [':'] + f'.prefix + [' '] && PrefixText(f') && f'.tags == f.tags
  {
    var n := Span(NICK, s, i + 1);
    SpanAllIn(NICK, s, i + 1);
    ParsePrefixIs(s, i, n, f);
    NickLacks(s[i + 1..n]);
    NickIsSound(s, i, n, f.(nick := s[i + 1..n]));
    var (f', j) := ParsePrefix(s, i, f).value;
    PrefixPieces(s, i, j, f'.prefix);
  }

  /** What stands before the command: tags and a prefix, each present or not. */
  predicate HeadText(head: string, f: Fields) {
    || (head == "" && f == NO_FIELDS.(command := f.command, middles := f.middles, trailing := f.trailing))
    || (head == ['@'] + f.tags + [' '] && f.prefix == f.nick == f.user == f.host == "")
    || (head == [':'] + f.prefix + [' '] && f.tags == "" && PrefixText(f))
    || (head == ['@'] + f.tags + [' '] + ([':'] + f.prefix + [' ']) && PrefixText(f))
  }

  lemma RestIsSound(s: string, i: nat, f: Fields) returns (k: nat)
    requires Starts(s, i) && f == NO_FIELDS.(tags := f.tags)
    ensures i <= k < |s| && TailText(s[k..], ParseAfterTags(s, i, f))
    ensures var r := ParseAfterTags(s, i, f);
            && r.tags == f.tags
            && (|| (k == i && r.prefix == r.nick == r.user == r.host == "")
                || (s[i..k] == [':'] + r.prefix + [' '] && PrefixText(r)))
  {
    if s[i] == ':' && ParsePrefix(s, i, f).Some? {
      var (f', j) := ParsePrefix(s, i, f).value;
      PrefixIsSound(s, i, f);
      TailIsSound(s, j, f');
      k := j;
    } else {
      TailIsSound(s, i, f);
      k := i;
    }
  }

  lemma HeadSplits(s: string, p: nat, j: nat, k: nat)
    requires p < j < k <= |s|
    ensures s[p..k] == [s[p]] + s[p + 1..j] + [s[j]] + s[j + 1..k]
    ensures k == j + 1 ==> s[p..k] == [s[p]] + s[p + 1..j] + [s[j]]
  {}

  lemma TaggedIsSound(s: string, p: nat, j: nat) returns (k: nat)
    requires p < |s| && s[p] == '@' && p < j && Ends(s, j)
    ensures var f := ParseTagged(s, p + 1, j); p <= k <= |s| && HeadText(s[p..k], f) && TailText(s[k..], f)
  {
    k := RestIsSound(s, j + 1, NO_FIELDS.(tags := s[p + 1..j]));
    HeadSplits(s, p, j, k);
  }

  lemma UntaggedIsSound(s: string, p: nat) returns (k: nat)
    requires Starts(s, p)
    ensures var f := ParseAfterTags(s, p, NO_FIELDS); p <= k <= |s| && HeadText(s[p..k], f) && TailText(s[k..], f)
  {
    k := RestIsSound(s, p, NO_FIELDS);
  }

  lemma MessageIsSound(s: string, p: nat) returns (k: nat)
    requires Starts(s, p)
    ensures p <= k <= |s| && HeadText(s[p..k], ParseFrom(s, p)) && TailText(s[k..], ParseFrom(s, p))
  {
    if s[p] == '@' && TagEnd(s, p + 1).Some? {
      k := TaggedIsSound(s, p, TagEnd(s, p + 1).value);
    } else {
      k := UntaggedIsSound(s, p);
    }
  }

  /**
   * Whatever the parser makes of a string is what the string says: from where its first message starts, at p, it
   * consists of the tags and the prefix that were found, if any, up to k, then the command, at most fourteen words,
   * and the trailing text with its space and colon.
   */
  lemma ParseIsSound(s: string) returns (p: nat, k: nat)
    requires ParseLine(s).Some?
    ensures p <= k <= |s| && FirstMessage(s, 0) == Some(p)
    ensures HeadText(s[p..k], ParseLine(s).value) && TailText(s[k..], ParseLine(s).value)
  {
    p := FirstMessage(s, 0).value;
    k := MessageIsSound(s, p);
  }

  lemma CommandAndWords(text: string, f: Fields) returns (ws: seq<string>, after: string)
    requires TailText(text, f)
    ensures text == f.command + (Words(ws) + after) && f.command != "" && ' ' !in f.command
    ensures |ws| <= MAX_MIDDLES && GoodWords(ws) && f.middles == Words(ws) && EndsMiddles(after, |ws| == MAX_MIDDLES)
  {
    ws, after :| text == f.command + (Words(ws) + after) && f.command != "" && ' ' !in f.command
      && |ws| <= MAX_MIDDLES && GoodWords(ws) && EndsMiddles(after, |ws| == MAX_MIDDLES)
      && f.middles == Words(ws) && f.trailing == TrailingText(after, 0);
  }

  /** A string with a line that does not start with a space yields between 1 and 15 parameters, any other none. */
  lemma ParameterCount(s: string)
    ensures if exists i :: MessageAt(s, i) then 1 <= |Parse(s).params| <= 15 else Parse(s) == EMPTY
  {
    if i :| MessageAt(s, i) {
      var p, k := ParseIsSound(s);
      var f := ParseLine(s).value;
      var ws, after := CommandAndWords(s[k..], f);
      SplitWords(ws);
    }
  }
}
