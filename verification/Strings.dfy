/** Splitting a string at a character and joining pieces, as the string library the source uses does. */
module Strings {
  /** The pieces between occurrences of c; the empty string has one empty piece. */
  function Split(s: string, c: char): (parts: seq<string>)
    ensures parts != []
  {
    if s == "" then [""]
    else
      var rest := Split(s[1..], c);
      if s[0] == c then [""] + rest else [[s[0]] + rest[0]] + rest[1..]
  }

  function Join(parts: seq<string>, separator: string): string {
    if parts == [] then ""
    else if |parts| == 1 then parts[0]
    else parts[0] + separator + Join(parts[1..], separator)
  }

  lemma {:induction false} SplitSingle(s: string, c: char)
    requires c !in s
    ensures Split(s, c) == [s]
  {
    if s != "" {
      SplitSingle(s[1..], c);
      assert [s[0]] + s[1..] == s;
    }
  }

  lemma {:induction false} SplitFirst(s: string, c: char, rest: string)
    requires c !in s
    ensures Split(s + [c] + rest, c) == [s] + Split(rest, c)
  {
    var t := s + [c] + rest;
    if s == "" {
      assert t[1..] == rest;
    } else {
      assert t[1..] == s[1..] + [c] + rest;
      SplitFirst(s[1..], c, rest);
      assert [s[0]] + s[1..] == s;
      assert ([s[1..]] + Split(rest, c))[1..] == Split(rest, c);
    }
  }

  lemma {:induction false} SplitPiecesClean(s: string, c: char)
    ensures forall p <- Split(s, c) :: c !in p
  {
    if s != "" {
      SplitPiecesClean(s[1..], c);
      var rest := Split(s[1..], c);
      assert rest[0] in rest && forall p <- rest[1..] :: p in rest;
    }
  }

  lemma {:induction false} SplitJoin(parts: seq<string>, c: char)
    requires parts != [] && forall p <- parts :: c !in p
    ensures Split(Join(parts, [c]), c) == parts
  {
    assert parts[0] in parts;
    if |parts| == 1 {
      SplitSingle(parts[0], c);
    } else {
      assert forall p <- parts[1..] :: p in parts;
      SplitJoin(parts[1..], c);
      SplitFirst(parts[0], c, Join(parts[1..], [c]));
    }
  }

  /** Joining with a character is undone by splitting at it exactly for non-empty lists of pieces without it. */
  lemma SplitUndoesJoin(parts: seq<string>, c: char)
    ensures Split(Join(parts, [c]), c) == parts <==> parts != [] && forall p <- parts :: c !in p
  {
    if parts != [] && forall p <- parts :: c !in p {
      SplitJoin(parts, c);
    } else {
      SplitPiecesClean(Join(parts, [c]), c);
    }
  }

  lemma JoinFirst(head: string, parts: seq<string>, separator: string)
    requires parts != []
    ensures Join([head + parts[0]] + parts[1..], separator) == head + Join(parts, separator)
  {
    var all := [head + parts[0]] + parts[1..];
    assert all[1..] == parts[1..];
    if |parts| > 1 {
      assert head + parts[0] + separator + Join(parts[1..], separator) ==
             head + (parts[0] + separator + Join(parts[1..], separator));
    }
  }

  /** Splitting loses nothing. */
  lemma {:induction false} JoinUndoesSplit(s: string, c: char)
    ensures Join(Split(s, c), [c]) == s
  {
    if s != "" {
      JoinUndoesSplit(s[1..], c);
      var rest := Split(s[1..], c);
      assert [s[0]] + s[1..] == s;
      if s[0] == c {
        assert ([""] + rest)[1..] == rest;
      } else {
        JoinFirst([s[0]], rest, [c]);
      }
    }
  }
}
