/** IRC messages: the fields the source fills from a line. */
module IrcMessage {
  import opened Wrappers
  import opened Strings
  import opened IrcRegex

  /** The fields of a parsed message; all empty when the line does not match. */
  datatype Data = Data(raw: string, tags: map<string, string>, prefix: string, nickname: string, user: string,
                       host: string, command: string, params: seq<string>)

  const EMPTY := Data("", map[], "", "", "", "", "", [])

  /** A tag's key and value, unless it has no key or more than one '='. */
  function TagEntry(tag: string): Option<(string, string)> {
    var parts := Split(tag, '=');
    if parts[0] == "" || |parts| > 2 then None
    else Some((parts[0], if |parts| == 2 then parts[1] else ""))
  }

  /** std::map::insert: a key that is already there keeps its value. */
  function Insert(m: map<string, string>, entry: Option<(string, string)>): map<string, string> {
    if entry.None? || entry.value.0 in m then m else m[entry.value.0 := entry.value.1]
  }

  function TagMap(tags: seq<string>): map<string, string> {
    if tags == [] then map[] else Insert(TagMap(tags[..|tags| - 1]), TagEntry(tags[|tags| - 1]))
  }

  function ParamsOf(f: Fields): seq<string> {
    Split(f.middles, ' ')[1..] + [f.trailing]
  }

  function DataOf(raw: string, f: Fields): Data {
    Data(raw, TagMap(Split(f.tags, ';')), f.prefix, f.nick, f.user, f.host, f.command, ParamsOf(f))
  }

  function Parse(raw: string): Data {
    match ParseLine(raw)
    case None => EMPTY
    case Some(f) => DataOf(raw, f)
  }

  class Message {
    var raw: string
    var tags: map<string, string>
    var prefix: string
    var nickname: string
    var user: string
    var host: string
    var command: string
    var params: seq<string>

    function Contents(): Data
      reads this
    {
      Data(raw, tags, prefix, nickname, user, host, command, params)
    }

    /** Matches the expression against the line and fills the fields from its groups. */
    constructor (line: string)
      ensures Contents() == Parse(line)
    {
      raw, prefix, nickname, user, host, command := "", "", "", "", "", "";
      tags, params := map[], [];
      new;
      var found := Search(Line(), line, 0);
      RegexIsParseLine(line);
      if found.Some? {
        Fill(line, found.value);
      }
    }

    method InsertTags(tagList: seq<string>)
      requires tags == map[]
      modifies this`tags
      ensures tags == TagMap(tagList)
    {
      var i := 0;
      while i < |tagList|
        invariant i <= |tagList| && tags == TagMap(tagList[..i])
      {
        assert tagList[..i + 1][..i] == tagList[..i];
        var tag := Split(tagList[i], '=');
        if |tag[0]| > 0 {
          if |tag| == 2 {
            tags := Insert(tags, Some((tag[0], tag[1])));
          } else if |tag| == 1 {
            tags := Insert(tags, Some((tag[0], "")));
          }
        }
        i := i + 1;
      }
      assert tagList[..i] == tagList;
    }

    /** The fields from the groups of a match. */
    method Fill(line: string, what: Caps)
      requires tags == map[]
      modifies this
      ensures Contents() == DataOf(line, FieldsOf(what))
    {
      raw := line;
      InsertTags(Split(Text(what, 1), ';'));
      prefix, nickname, user, host := Text(what, 2), Text(what, 3), Text(what, 4), Text(what, 5);
      command := Text(what, 6);
      params := Split(Text(what, 7), ' ');
      params := params[1..];
      params := params + [Text(what, 8)];
    }
  }
}
