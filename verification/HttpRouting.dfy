/** The per-method routing index of the HTTP server, and the plain resource map it stands for. */
module HttpRouting {
  import opened Wrappers

  /** A handler for a method and a path pattern. */
  datatype Route<H> = Route(verb: string, pattern: string, handler: H)

  /** A method's patterns and handlers, in the order in which they are tried. */
  datatype Group<H> = Group(verb: string, entries: seq<(string, H)>)

  /** The resource map, in the order in which it is iterated. */
  type Resources<H> = seq<(string, seq<(string, H)>)>

  function RoutesOf<H>(pattern: string, methods: seq<(string, H)>): seq<Route<H>> {
    if methods == [] then []
    else
      var last := methods[|methods| - 1];
      RoutesOf(pattern, methods[..|methods| - 1]) + [Route(last.0, pattern, last.1)]
  }

  /** All routes, outer map first, inner map second. */
  function Routes<H>(resource: Resources<H>): seq<Route<H>> {
    if resource == [] then []
    else
      var last := resource[|resource| - 1];
      Routes(resource[..|resource| - 1]) + RoutesOf(last.0, last.1)
  }

  /** The routes of one method, in order. */
  function ForVerb<H>(routes: seq<Route<H>>, verb: string): seq<(string, H)> {
    if routes == [] then []
    else
      var last := routes[|routes| - 1];
      ForVerb(routes[..|routes| - 1], verb) + if last.verb == verb then [(last.pattern, last.handler)] else []
  }

  /** The reference: the first route in iteration order whose method and pattern both match. */
  function Scan<H>(routes: seq<Route<H>>, matches: (string, string) -> bool, verb: string, path: string): Option<H> {
    if routes == [] then None
    else
      var earlier := Scan(routes[..|routes| - 1], matches, verb, path);
      var last := routes[|routes| - 1];
      if earlier.Some? then earlier
      else if last.verb == verb && matches(last.pattern, path) then Some(last.handler)
      else None
  }

  function FirstMatch<H>(entries: seq<(string, H)>, matches: (string, string) -> bool, path: string): Option<H> {
    if entries == [] then None
    else
      var earlier := FirstMatch(entries[..|entries| - 1], matches, path);
      var last := entries[|entries| - 1];
      if earlier.Some? then earlier else if matches(last.0, path) then Some(last.1) else None
  }

  predicate DistinctVerbs<H>(opt: seq<Group<H>>) {
    forall i, j :: 0 <= i < j < |opt| ==> opt[i].verb != opt[j].verb
  }

  ghost predicate EntriesInOrder<H(!new)>(opt: seq<Group<H>>, routes: seq<Route<H>>) {
    forall i :: 0 <= i < |opt| ==> opt[i].entries == ForVerb(routes, opt[i].verb)
  }

  ghost predicate HasVerb<H>(opt: seq<Group<H>>, v: string) { exists i :: 0 <= i < |opt| && opt[i].verb == v }

  ghost predicate SameVerbs<H(!new)>(opt: seq<Group<H>>, routes: seq<Route<H>>) {
    forall v: string :: ForVerb(routes, v) != [] <==> HasVerb(opt, v)
  }

  /** The index holds each method once, with exactly its routes in order, and no other method. */
  ghost predicate Indexes<H(!new)>(opt: seq<Group<H>>, routes: seq<Route<H>>) {
    DistinctVerbs(opt) && EntriesInOrder(opt, routes) && SameVerbs(opt, routes)
  }

  lemma {:induction false} ScanIsFirstMatch<H>(routes: seq<Route<H>>, matches: (string, string) -> bool,
                                               verb: string, path: string)
    ensures Scan(routes, matches, verb, path) == FirstMatch(ForVerb(routes, verb), matches, path)
  {
    if routes != [] {
      var init, last := routes[..|routes| - 1], routes[|routes| - 1];
      ScanIsFirstMatch(init, matches, verb, path);
      var entries := ForVerb(routes, verb);
      if last.verb == verb {
        assert entries[..|entries| - 1] == ForVerb(init, verb);
      } else {
        assert entries == ForVerb(init, verb);
      }
    }
  }

  /** Scan really is a search from the front: the found route matches and none before it does. */
  lemma {:induction false} ScanFindsFirst<H>(routes: seq<Route<H>>, matches: (string, string) -> bool,
                                             verb: string, path: string)
    ensures match Scan(routes, matches, verb, path)
            case None => forall r <- routes :: r.verb != verb || !matches(r.pattern, path)
            case Some(h) =>
              exists i :: 0 <= i < |routes| && routes[i].verb == verb && matches(routes[i].pattern, path) &&
                          routes[i].handler == h &&
                          forall j :: 0 <= j < i ==> routes[j].verb != verb || !matches(routes[j].pattern, path)
  {
    if routes != [] {
      var n := |routes| - 1;
      var init := routes[..n];
      ScanFindsFirst(init, matches, verb, path);
      match Scan(init, matches, verb, path)
      case None =>
        forall j | 0 <= j < n ensures routes[j].verb != verb || !matches(routes[j].pattern, path) {
          assert init[j] in init;
        }
      case Some(h) =>
        var i :| 0 <= i < n && init[i].verb == verb && matches(init[i].pattern, path) && init[i].handler == h &&
                 forall j :: 0 <= j < i ==> init[j].verb != verb || !matches(init[j].pattern, path);
        assert routes[i] == init[i];
        assert forall j :: 0 <= j < i ==> routes[j] == init[j];
    }
  }

  /** Once a prefix has a match, the whole has the same. */
  lemma {:induction false} FirstMatchStays<H>(entries: seq<(string, H)>, k: nat,
                                              matches: (string, string) -> bool, path: string)
    requires k <= |entries| && FirstMatch(entries[..k], matches, path).Some?
    ensures FirstMatch(entries, matches, path) == FirstMatch(entries[..k], matches, path)
    decreases |entries|
  {
    if k == |entries| {
      assert entries[..k] == entries;
    } else {
      assert entries[..|entries| - 1][..k] == entries[..k];
      FirstMatchStays(entries[..|entries| - 1], k, matches, path);
    }
  }

  lemma FirstMatchGrows<H>(entries: seq<(string, H)>, j: nat, matches: (string, string) -> bool, path: string)
    requires j < |entries| && FirstMatch(entries[..j], matches, path) == None
    ensures FirstMatch(entries[..j + 1], matches, path) ==
            if matches(entries[j].0, path) then Some(entries[j].1) else None
    ensures matches(entries[j].0, path) ==> FirstMatch(entries, matches, path) == Some(entries[j].1)
  {
    assert entries[..j + 1][..j] == entries[..j];
    if matches(entries[j].0, path) {
      FirstMatchStays(entries, j + 1, matches, path);
    }
  }

  lemma ForVerbAppend<H>(routes: seq<Route<H>>, route: Route<H>, verb: string)
    ensures ForVerb(routes + [route], verb) ==
            ForVerb(routes, verb) + if route.verb == verb then [(route.pattern, route.handler)] else []
  {
    assert (routes + [route])[..|routes|] == routes;
  }

  /** The index with one more entry for its method, whose group is at `it` or does not exist yet. */
  function Put<H>(opt: seq<Group<H>>, route: Route<H>, it: nat): seq<Group<H>>
    requires it <= |opt|
  {
    var entry := (route.pattern, route.handler);
    if it < |opt| then opt[it := Group(route.verb, opt[it].entries + [entry])]
    else opt + [Group(route.verb, [entry])]
  }

  /** The group of the method is at `it`, and at the end if there is none. */
  predicate Found<H>(opt: seq<Group<H>>, verb: string, it: nat) {
    && it <= |opt| && (forall k :: 0 <= k < it ==> opt[k].verb != verb)
    && (it < |opt| ==> opt[it].verb == verb)
  }

  lemma DistinctAdded<H>(opt: seq<Group<H>>, route: Route<H>, it: nat)
    requires DistinctVerbs(opt) && Found(opt, route.verb, it)
    ensures DistinctVerbs(Put(opt, route, it))
  {}

  lemma EntriesAdded<H(!new)>(opt: seq<Group<H>>, routes: seq<Route<H>>, route: Route<H>, it: nat)
    requires Indexes(opt, routes) && Found(opt, route.verb, it)
    ensures EntriesInOrder(Put(opt, route, it), routes + [route])
  {
    var after := Put(opt, route, it);
    forall i | 0 <= i < |after| ensures after[i].entries == ForVerb(routes + [route], after[i].verb) {
      ForVerbAppend(routes, route, after[i].verb);
      if i == it == |opt| {
        assert !HasVerb(opt, route.verb);
      }
    }
  }

  lemma HasVerbAdded<H>(opt: seq<Group<H>>, route: Route<H>, it: nat, v: string)
    requires Found(opt, route.verb, it)
    ensures HasVerb(Put(opt, route, it), v) <==> HasVerb(opt, v) || v == route.verb
  {
    var after := Put(opt, route, it);
    assert after[it].verb == route.verb;
    if HasVerb(opt, v) {
      var i :| 0 <= i < |opt| && opt[i].verb == v;
      assert after[i].verb == v;
    }
  }

  /** Appending an entry to its method's group, new or not, indexes one route more. */
  lemma Added<H(!new)>(opt: seq<Group<H>>, routes: seq<Route<H>>, route: Route<H>, it: nat)
    requires Indexes(opt, routes) && Found(opt, route.verb, it)
    ensures Indexes(Put(opt, route, it), routes + [route])
  {
    DistinctAdded(opt, route, it);
    EntriesAdded(opt, routes, route, it);
    forall v: string ensures ForVerb(routes + [route], v) != [] <==> HasVerb(Put(opt, route, it), v) {
      ForVerbAppend(routes, route, v);
      HasVerbAdded(opt, route, it, v);
    }
  }

  /** The scan finds what the group of its method holds first. */
  lemma GroupAnswers<H(!new)>(opt: seq<Group<H>>, routes: seq<Route<H>>, matches: (string, string) -> bool,
                              path: string, i: nat)
    requires Indexes(opt, routes) && i < |opt|
    ensures Scan(routes, matches, opt[i].verb, path) == FirstMatch(opt[i].entries, matches, path)
  {
    ScanIsFirstMatch(routes, matches, opt[i].verb, path);
  }

  lemma NoGroupAnswers<H(!new)>(opt: seq<Group<H>>, routes: seq<Route<H>>, matches: (string, string) -> bool,
                                verb: string, path: string)
    requires Indexes(opt, routes)
    requires forall k :: 0 <= k < |opt| && opt[k].verb == verb ==> FirstMatch(opt[k].entries, matches, path) == None
    ensures Scan(routes, matches, verb, path) == None
  {
    ScanIsFirstMatch(routes, matches, verb, path);
    if ForVerb(routes, verb) != [] {
      assert HasVerb(opt, verb);
    }
  }

  // ---- The scan on the map itself -------------------------------------------------------------------

  /** How many routes the first i patterns have. */
  function Offset<H>(resource: Resources<H>, i: nat): nat
    requires i <= |resource|
  {
    if i == 0 then 0 else Offset(resource, i - 1) + |resource[i - 1].1|
  }

  lemma {:induction false} RoutesOfAt<H>(pattern: string, methods: seq<(string, H)>)
    ensures |RoutesOf(pattern, methods)| == |methods|
    ensures forall j :: 0 <= j < |methods| ==>
              RoutesOf(pattern, methods)[j] == Route(methods[j].0, pattern, methods[j].1)
  {
    if methods != [] {
      RoutesOfAt(pattern, methods[..|methods| - 1]);
    }
  }

  lemma {:induction false} OffsetOfInit<H>(resource: Resources<H>, i: nat)
    requires i < |resource|
    ensures Offset(resource[..|resource| - 1], i) == Offset(resource, i)
  {
    if i > 0 {
      OffsetOfInit(resource, i - 1);
    }
  }

  lemma {:induction false} RouteCount<H>(resource: Resources<H>)
    ensures |Routes(resource)| == Offset(resource, |resource|)
  {
    if resource != [] {
      var n := |resource| - 1;
      RouteCount(resource[..n]);
      OffsetOfInit(resource, n);
      RoutesOfAt(resource[n].0, resource[n].1);
    }
  }

  /** Entry j of pattern i is a route for its method, under that pattern, behind those of the patterns before. */
  lemma {:induction false} RouteAt<H>(resource: Resources<H>, i: nat, j: nat)
    requires i < |resource| && j < |resource[i].1|
    ensures Offset(resource, i) + j < |Routes(resource)|
    ensures Routes(resource)[Offset(resource, i) + j] ==
            Route(resource[i].1[j].0, resource[i].0, resource[i].1[j].1)
  {
    var n := |resource| - 1;
    RouteCount(resource[..n]);
    OffsetOfInit(resource, i);
    if i < n {
      RouteAt(resource[..n], i, j);
    } else {
      RoutesOfAt(resource[n].0, resource[n].1);
    }
  }

  lemma {:induction false} ScanConcat<H>(a: seq<Route<H>>, b: seq<Route<H>>, matches: (string, string) -> bool,
                                         verb: string, path: string)
    ensures Scan(a + b, matches, verb, path) ==
            var earlier := Scan(a, matches, verb, path);
            if earlier.Some? then earlier else Scan(b, matches, verb, path)
  {
    if b == [] {
      assert a + b == a;
    } else {
      var init := b[..|b| - 1];
      ScanConcat(a, init, matches, verb, path);
      assert (a + b)[..|a + b| - 1] == a + init;
    }
  }

  /** Entry j is the first with this method. */
  predicate FirstMethod<H>(methods: seq<(string, H)>, verb: string, j: nat) {
    j < |methods| && methods[j].0 == verb && forall l :: 0 <= l < j ==> methods[l].0 != verb
  }

  lemma {:induction false} ScanMethods<H>(pattern: string, methods: seq<(string, H)>,
                                          matches: (string, string) -> bool, verb: string, path: string)
    ensures match Scan(RoutesOf(pattern, methods), matches, verb, path)
            case None => matches(pattern, path) ==> forall j :: 0 <= j < |methods| ==> methods[j].0 != verb
            case Some(h) =>
              matches(pattern, path) && exists j: nat :: FirstMethod(methods, verb, j) && methods[j].1 == h
  {
    if methods != [] {
      var n := |methods| - 1;
      var init := methods[..n];
      ScanMethods(pattern, init, matches, verb, path);
      var routes := RoutesOf(pattern, methods);
      assert routes[..|routes| - 1] == RoutesOf(pattern, init);
      var earlier := Scan(RoutesOf(pattern, init), matches, verb, path);
      if earlier.Some? {
        var j: nat :| FirstMethod(init, verb, j) && init[j].1 == earlier.value;
        assert FirstMethod(methods, verb, j);
      } else {
        assert forall j :: 0 <= j < n ==> methods[j] == init[j];
        assert methods[n].0 == verb && matches(pattern, path) ==> FirstMethod(methods, verb, n);
      }
    }
  }

  /** Entry j of pattern i answers requests with this method and path. */
  predicate Answers<H>(resource: Resources<H>, matches: (string, string) -> bool, verb: string, path: string,
                       i: nat, j: nat)
  {
    i < |resource| && j < |resource[i].1| && resource[i].1[j].0 == verb && matches(resource[i].0, path)
  }

  /** None of an earlier pattern does, and no earlier one of this pattern. */
  ghost predicate AnswersFirst<H(!new)>(resource: Resources<H>, matches: (string, string) -> bool, verb: string,
                                        path: string, i: nat, j: nat)
  {
    && Answers(resource, matches, verb, path, i, j)
    && forall k: nat, l: nat :: k < i || (k == i && l < j) ==> !Answers(resource, matches, verb, path, k, l)
  }

  /** The handler of the entry that answers first, if any entry answers. */
  ghost predicate IsFirstAnswer<H(!new)>(found: Option<H>, resource: Resources<H>,
                                         matches: (string, string) -> bool, verb: string, path: string)
  {
    match found
    case None => forall i: nat, j: nat :: !Answers(resource, matches, verb, path, i, j)
    case Some(h) =>
      exists i: nat, j: nat :: AnswersFirst(resource, matches, verb, path, i, j) && resource[i].1[j].1 == h
  }

  lemma AnswersInInit<H>(resource: Resources<H>, matches: (string, string) -> bool, verb: string, path: string,
                         i: nat, j: nat)
    requires i < |resource| - 1
    ensures Answers(resource[..|resource| - 1], matches, verb, path, i, j) <==>
            Answers(resource, matches, verb, path, i, j)
  {}

  lemma FoundEarlier<H(!new)>(resource: Resources<H>, matches: (string, string) -> bool, verb: string, path: string,
                              h: H)
    requires resource != [] && IsFirstAnswer(Some(h), resource[..|resource| - 1], matches, verb, path)
    ensures IsFirstAnswer(Some(h), resource, matches, verb, path)
  {
    var init := resource[..|resource| - 1];
    var i: nat, j: nat :| AnswersFirst(init, matches, verb, path, i, j) && init[i].1[j].1 == h;
    forall k: nat, l: nat | k < i || (k == i && l < j) ensures !Answers(resource, matches, verb, path, k, l) {
      AnswersInInit(resource, matches, verb, path, k, l);
    }
    assert AnswersFirst(resource, matches, verb, path, i, j) && resource[i].1[j].1 == h;
  }

  lemma NoneEarlier<H(!new)>(resource: Resources<H>, matches: (string, string) -> bool, verb: string, path: string)
    requires resource != [] && IsFirstAnswer(None, resource[..|resource| - 1], matches, verb, path)
    ensures forall i: nat, j: nat :: i < |resource| - 1 ==> !Answers(resource, matches, verb, path, i, j)
  {
    forall i: nat, j: nat | i < |resource| - 1 ensures !Answers(resource, matches, verb, path, i, j) {
      AnswersInInit(resource, matches, verb, path, i, j);
    }
  }

  lemma FoundLast<H(!new)>(resource: Resources<H>, matches: (string, string) -> bool, verb: string, path: string,
                           j: nat)
    requires resource != [] && IsFirstAnswer(None, resource[..|resource| - 1], matches, verb, path)
    requires var last := resource[|resource| - 1]; matches(last.0, path) && FirstMethod(last.1, verb, j)
    ensures IsFirstAnswer(Some(resource[|resource| - 1].1[j].1), resource, matches, verb, path)
  {
    NoneEarlier(resource, matches, verb, path);
    assert AnswersFirst(resource, matches, verb, path, |resource| - 1, j);
  }

  /** Scanning the routes of a resource map finds the handler of its first entry that answers. */
  lemma {:induction false} ScanIsFirstAnswer<H(!new)>(resource: Resources<H>, matches: (string, string) -> bool,
                                                      verb: string, path: string)
    ensures IsFirstAnswer(Scan(Routes(resource), matches, verb, path), resource, matches, verb, path)
  {
    if resource != [] {
      var init, last := resource[..|resource| - 1], resource[|resource| - 1];
      ScanIsFirstAnswer(init, matches, verb, path);
      ScanConcat(Routes(init), RoutesOf(last.0, last.1), matches, verb, path);
      ScanMethods(last.0, last.1, matches, verb, path);
      var earlier, here := Scan(Routes(init), matches, verb, path),
                           Scan(RoutesOf(last.0, last.1), matches, verb, path);
      if earlier.Some? {
        FoundEarlier(resource, matches, verb, path, earlier.value);
      } else if here.Some? {
        var j: nat :| FirstMethod(last.1, verb, j) && last.1[j].1 == here.value;
        FoundLast(resource, matches, verb, path, j);
      } else {
        NoneEarlier(resource, matches, verb, path);
      }
    }
  }

  class Server<H(!new)> {
    const matches: (string, string) -> bool       // whether a pattern matches a path
    var resource: Resources<H>
    var defaultResource: map<string, H>
    var optResource: seq<Group<H>>

    constructor (matches: (string, string) -> bool)
      ensures this.matches == matches && resource == [] && defaultResource == map[] && optResource == []
    {
      this.matches := matches;
      resource, defaultResource, optResource := [], map[], [];
    }

    /** The part of `start` that copies the resources into the index. */
    method BuildIndex()
      modifies this`optResource
      ensures Indexes(optResource, Routes(resource))
    {
      optResource := [];
      for i := 0 to |resource|
        invariant Indexes(optResource, Routes(resource[..i]))
      {
        var (pattern, methods) := resource[i];
        ghost var before := Routes(resource[..i]);
        assert before + [] == before;
        for j := 0 to |methods|
          invariant Indexes(optResource, before + RoutesOf(pattern, methods[..j]))
        {
          ghost var done := before + RoutesOf(pattern, methods[..j]);
          AddRoute(Route(methods[j].0, pattern, methods[j].1), done);
          assert methods[..j + 1][..j] == methods[..j];
          assert done + [Route(methods[j].0, pattern, methods[j].1)] == before + RoutesOf(pattern, methods[..j + 1]);
        }
        assert methods[..|methods|] == methods;
        assert resource[..i + 1][..i] == resource[..i];
      }
      assert resource[..|resource|] == resource;
    }

    /** Finds the method's group, or makes one at the end, and appends the entry to it. */
    method AddRoute(route: Route<H>, ghost done: seq<Route<H>>)
      requires Indexes(optResource, done)
      modifies this`optResource
      ensures Indexes(optResource, done + [route])
    {
      var it := 0;
      while it < |optResource| && optResource[it].verb != route.verb
        invariant it <= |optResource| && forall k :: 0 <= k < it ==> optResource[k].verb != route.verb
      {
        it := it + 1;
      }
      ghost var before := optResource;
      if it == |optResource| {
        optResource := optResource + [Group(route.verb, [])];
      }
      optResource := optResource[it := Group(route.verb, optResource[it].entries + [(route.pattern, route.handler)])];
      assert [] + [(route.pattern, route.handler)] == [(route.pattern, route.handler)];
      assert optResource == Put(before, route, it);
      Added(before, done, route, it);
    }

    /** find_resource: the handler that write_response is called with, if any. */
    method FindResource(verb: string, path: string) returns (handler: Option<H>)
      requires Indexes(optResource, Routes(resource))
      ensures forall i: nat, j: nat :: AnswersFirst(resource, matches, verb, path, i, j) ==>
                handler == Some(resource[i].1[j].1)
      ensures (exists i: nat, j: nat :: AnswersFirst(resource, matches, verb, path, i, j)) ||
              ((forall i: nat, j: nat :: !Answers(resource, matches, verb, path, i, j)) &&
               handler == if verb in defaultResource then Some(defaultResource[verb]) else None)
    {
      ScanIsFirstAnswer(resource, matches, verb, path);
      ghost var routes := Routes(resource);
      for i := 0 to |optResource|
        invariant forall k :: 0 <= k < i && optResource[k].verb == verb ==>
                    FirstMatch(optResource[k].entries, matches, path) == None
      {
        if verb == optResource[i].verb {
          var entries := optResource[i].entries;
          GroupAnswers(optResource, routes, matches, path, i);
          for j := 0 to |entries|
            invariant FirstMatch(entries[..j], matches, path) == None
          {
            FirstMatchGrows(entries, j, matches, path);
            if matches(entries[j].0, path) {
              return Some(entries[j].1);
            }
          }
          assert entries[..|entries|] == entries;
        }
      }
      NoGroupAnswers(optResource, routes, matches, verb, path);
      if verb in defaultResource {
        return Some(defaultResource[verb]);
      }
      return None;
    }
  }
}
