/**
 * Lookup (router.go `get`), the dispatch choice of `ServeHTTP` and
 * `Path.Get`, as pure functions, with what they promise: prefix and root
 * handling, slash normalisation, static-over-parameter precedence and the
 * round trip with registration.
 */
module Matcher {
  import opened Wrappers
  import opened Strings
  import opened Patterns
  import opened Trie
  import opened Registrar

  /**
   * The segments of a lookup path (leading slash already dropped): the
   * pieces between slashes, where a final slash only ends the last piece.
   */
  function Segments(q: string): (r: seq<string>)
    ensures |r| >= 1
    ensures forall k :: 0 <= k < |r| ==> '/' !in r[k]
    ensures q != "" && q[|q| - 1] != '/' ==> Join(r, '/') == q
  {
    var pieces := SplitOn(q, '/');
    if q != "" && q[|q| - 1] == '/' then
      assert q[|q| - 1] in q;
      pieces[..|pieces| - 1]
    else
      JoinSplitOn(q, '/');
      pieces
  }

  /**
   * The segments get's position loop yields: scanning at `pos`, with the
   * current segment begun at `start`, a segment ends at a slash (which it
   * does not include) or at the last position (which it does).
   */
  function ScanSegments(q: string, start: nat, pos: nat): (r: seq<string>)
    requires start <= pos <= |q|
    ensures pos < |q| ==> 1 <= |r|
    ensures |r| <= |q| - pos
    decreases |q| - pos
  {
    if pos == |q| then []
    else if q[pos] == '/' || pos == |q| - 1 then
      var end := if q[pos] == '/' then pos else pos + 1;
      [q[start..end]] + ScanSegments(q, pos + 1, pos + 1)
    else ScanSegments(q, start, pos + 1)
  }

  /** The scan at one position: a slash or the last position closes a segment, anything else moves on. */
  lemma ScanStep(p: string, start: nat, pos: nat)
    requires start <= pos < |p|
    ensures p[pos] == '/' || pos == |p| - 1 ==>
      ScanSegments(p, start, pos) == [p[start..if p[pos] == '/' then pos else pos + 1]] + ScanSegments(p, pos + 1, pos + 1)
    ensures !(p[pos] == '/' || pos == |p| - 1) ==> ScanSegments(p, start, pos) == ScanSegments(p, start, pos + 1)
  {
  }

  /** A string without slashes is one segment. */
  lemma SegmentsNoSlash(t: string)
    requires t != "" && '/' !in t
    ensures Segments(t) == [t]
  {
    assert t[|t| - 1] in t;
  }

  /** The first slash of a string ends its first segment. */
  lemma SegmentsFirstSlash(head: string, tail: string)
    requires '/' !in head
    ensures Segments(head + "/" + tail) == [head] + if tail == [] then [] else Segments(tail)
  {
    var t := head + "/" + tail;
    SplitOnCons(head, tail, '/');
    var pieces := SplitOn(tail, '/');
    if tail == [] {
      assert t[|t| - 1] == '/';
      assert pieces == [""];
    } else if tail[|tail| - 1] == '/' {
      assert t[|t| - 1] == '/';
      DropLastCons(head, pieces);
    } else {
      assert t[|t| - 1] == tail[|tail| - 1];
    }
  }

  /** Dropping the last piece of a list with a piece in front. */
  lemma DropLastCons(x: string, xs: seq<string>)
    requires |xs| >= 1
    ensures ([x] + xs)[..|xs|] == [x] + xs[..|xs| - 1]
  {
  }

  /** The scan yields exactly the split-based segments of what is left of the path. */
  lemma {:induction false} ScanIsSplit(q: string, start: nat, pos: nat)
    requires start <= pos <= |q|
    requires pos == |q| ==> start == |q|
    requires '/' !in q[start..pos]
    ensures ScanSegments(q, start, pos) == if start == |q| then [] else Segments(q[start..])
    decreases |q| - pos
  {
    if pos < |q| {
      if q[pos] == '/' {
        ScanStep(q, start, pos);
        SplitClosesAtSlash(q, start, pos);
        ScanIsSplit(q, pos + 1, pos + 1);
      } else if pos == |q| - 1 {
        ScanClosesAtEnd(q, start);
      } else {
        ScanStep(q, start, pos);
        NoSlashExtends(q, start, pos);
        ScanIsSplit(q, start, pos + 1);
      }
    }
  }

  /** A segment still open after a character that is not a slash has no slash in it. */
  lemma NoSlashExtends(q: string, start: nat, pos: nat)
    requires start <= pos < |q| && q[pos] != '/'
    requires '/' !in q[start..pos]
    ensures '/' !in q[start..pos + 1]
  {
    assert q[start..pos + 1] == q[start..pos] + [q[pos]];
  }

  /** A slash closes the current segment of the split. */
  lemma SplitClosesAtSlash(q: string, start: nat, pos: nat)
    requires start <= pos < |q| && q[pos] == '/'
    requires '/' !in q[start..pos]
    ensures Segments(q[start..]) == [q[start..pos]] + if pos + 1 == |q| then [] else Segments(q[pos + 1..])
  {
    RestAtSlash(q, start, pos);
    SegmentsFirstSlash(q[start..pos], q[pos + 1..]);
  }

  /** The rest of the path from `start` is the segment before the slash at `pos`, the slash, and what follows. */
  lemma RestAtSlash(q: string, start: nat, pos: nat)
    requires start <= pos < |q| && q[pos] == '/'
    ensures q[start..] == q[start..pos] + "/" + q[pos + 1..]
    ensures q[pos + 1..] == [] <==> pos + 1 == |q|
  {
  }

  /** The last position closes the last segment, which is the whole rest when it holds no slash. */
  lemma ScanClosesAtEnd(q: string, start: nat)
    requires start < |q| && q[|q| - 1] != '/'
    requires '/' !in q[start..|q| - 1]
    ensures ScanSegments(q, start, |q| - 1) == Segments(q[start..])
  {
    ScanStep(q, start, |q| - 1);
    RestToEnd(q, start);
    SegmentsNoSlash(q[start..]);
  }

  /** The rest of the path from `start` is what precedes the last position and the last character. */
  lemma RestToEnd(q: string, start: nat)
    requires start < |q| && q[|q| - 1] != '/'
    requires '/' !in q[start..|q| - 1]
    ensures q[start..|q|] == q[start..] && q[start..] != "" && '/' !in q[start..]
  {
    assert q[start..] == q[start..|q| - 1] + [q[|q| - 1]];
  }

  /** What get returns for the end of a walk: the node's handler map and the captured variables, or (nil, nil). */
  function Answer<H>(o: Outcome<H>): (Option<map<string, H>>, Option<map<string, string>>)
  {
    match o
    case NoRoute => (None, None)
    case Reached(n, vars) => (n.handlers, vars)
  }

  /**
   * get after the prefix is stripped: "" and "/" are the root; otherwise
   * drop one leading slash and walk the segments.
   */
  function Resolve<H>(root: Node<H>, p: string, engine: Engine): (r: (Option<map<string, H>>, Option<map<string, string>>))
    ensures p == "" || p == "/" ==> r == (root.handlers, None)
    ensures r.1.Some? ==> forall k :: k in r.1.value ==> '/' !in r.1.value[k]
  {
    if p == "" || p == "/" then (root.handlers, None)
    else
      var q := if p[0] == '/' then p[1..] else p;
      CapturesHaveNoSlash(root, Segments(q), engine);
      Answer(Walk(root, Segments(q), None, engine))
  }

  /** A walk over slash-free segments captures only slash-free values. */
  lemma CapturesHaveNoSlash<H>(root: Node<H>, segs: seq<string>, engine: Engine)
    requires forall k :: 0 <= k < |segs| ==> '/' !in segs[k]
    ensures var o := Walk(root, segs, None, engine);
      o.Reached? && o.vars.Some? ==> forall k :: k in o.vars.value ==> '/' !in o.vars.value[k]
  {
    var o := Walk(root, segs, None, engine);
    if o.Reached? && o.vars.Some? {
      CapturesComeFromSegments(root, segs, None, engine);
    }
  }

  /** get: a path without the router's prefix matches nothing; otherwise the prefix is stripped. */
  function Lookup<H>(root: Node<H>, prefix: string, path: string, engine: Engine)
    : (r: (Option<map<string, H>>, Option<map<string, string>>))
    ensures !HasPrefix(path, prefix) ==> r == (None, None)
    ensures path == prefix || path == prefix + "/" ==> r == (root.handlers, None)
  {
    if !HasPrefix(path, prefix) then (None, None)
    else Resolve(root, path[|prefix|..], engine)
  }

  /** Whatever follows the prefix is resolved on its own. */
  lemma LookupAfterPrefix<H>(root: Node<H>, prefix: string, p: string, engine: Engine)
    ensures Lookup(root, prefix, prefix + p, engine) == Resolve(root, p, engine)
  {
    assert (prefix + p)[..|prefix|] == prefix;
    assert (prefix + p)[|prefix|..] == p;
  }

  /**
   * One leading and one trailing slash make no difference:
   * "/users", "/users/", "users" and "users/" reach the same node.
   */
  lemma SlashNormalisation<H>(root: Node<H>, prefix: string, s: string, engine: Engine)
    requires s != "" && s[0] != '/' && s[|s| - 1] != '/'
    ensures Lookup(root, prefix, prefix + "/" + s, engine) == Lookup(root, prefix, prefix + s, engine)
    ensures Lookup(root, prefix, prefix + s + "/", engine) == Lookup(root, prefix, prefix + s, engine)
    ensures Lookup(root, prefix, prefix + "/" + s + "/", engine) == Lookup(root, prefix, prefix + s, engine)
  {
    var t := s + "/";
    var w := Answer(Walk(root, Segments(s), None, engine));
    assert Lookup(root, prefix, prefix + s, engine) == w by {
      LookupAfterPrefix(root, prefix, s, engine);
      ResolvePlain(root, s, engine);
    }
    assert Lookup(root, prefix, prefix + "/" + s, engine) == w by {
      AppendAssoc(prefix, "/", s);
      LookupAfterPrefix(root, prefix, "/" + s, engine);
      ResolveDropsOneSlash(root, s, engine);
    }
    assert Lookup(root, prefix, prefix + s + "/", engine) == w by {
      AppendAssoc(prefix, s, "/");
      LookupAfterPrefix(root, prefix, t, engine);
      ResolvePlain(root, t, engine);
      SegmentsTrailingSlash(s);
    }
    assert Lookup(root, prefix, prefix + "/" + s + "/", engine) == w by {
      AppendAssoc(prefix + "/", s, "/");
      AppendAssoc(prefix, "/", t);
      LookupAfterPrefix(root, prefix, "/" + t, engine);
      ResolveDropsOneSlash(root, t, engine);
      SegmentsTrailingSlash(s);
    }
  }

  /** A path that does not start with a slash is walked segment by segment as it stands. */
  lemma ResolvePlain<H>(root: Node<H>, t: string, engine: Engine)
    requires t != "" && t[0] != '/'
    ensures Resolve(root, t, engine) == Answer(Walk(root, Segments(t), None, engine))
  {
    assert t != "/";
  }

  /** One trailing slash adds no segment. */
  lemma SegmentsTrailingSlash(s: string)
    requires s != "" && s[|s| - 1] != '/'
    ensures Segments(s + "/") == Segments(s)
  {
    SplitOnAppendSep(s, '/');
    var t := s + "/";
    assert t[|t| - 1] == '/';
  }

  /**
   * Only one leading slash is dropped: a second one is an empty first
   * segment, whereas registration trims every slash.
   */
  lemma DoubleSlashIsEmptySegment<H>(root: Node<H>, prefix: string, s: string, engine: Engine)
    requires s != ""
    ensures Lookup(root, prefix, prefix + "//" + s, engine) == Answer(Walk(root, [""] + Segments(s), None, engine))
  {
    var t := "/" + s;
    assert prefix + "//" + s == prefix + ("/" + t);
    LookupAfterPrefix(root, prefix, "/" + t, engine);
    ResolveDropsOneSlash(root, t, engine);
    SegmentsPrependSlash(s);
  }

  /** After the prefix, exactly one leading slash is dropped before the walk. */
  lemma ResolveDropsOneSlash<H>(root: Node<H>, t: string, engine: Engine)
    requires t != ""
    ensures Resolve(root, "/" + t, engine) == Answer(Walk(root, Segments(t), None, engine))
  {
    assert ("/" + t)[1..] == t;
  }

  /** A leading slash in front of a non-empty string is an empty first segment. */
  lemma SegmentsPrependSlash(s: string)
    requires s != ""
    ensures Segments("/" + s) == [""] + Segments(s)
  {
    var t := "/" + s;
    SplitOnPrependSep(s, '/');
    assert t[|t| - 1] == s[|s| - 1];
  }

  /** Registration, unlike lookup, trims every leading slash. */
  lemma RegistrationTrimsAllSlashes(s: string)
    ensures Split("//" + s) == Split(s)
  {
    var t := "/" + s;
    assert "//" == "/" + "/";
    AppendAssoc("/", "/", s);
    TrimLeftSlashes(t);
    TrimLeftSlashes(s);
    assert Trim("//" + s, '/') == Trim(s, '/');
  }

  /** A leading slash does not survive Trim. */
  lemma TrimLeftSlashes(s: string)
    ensures Trim("/" + s, '/') == Trim(s, '/')
  {
    assert ("/" + s)[1..] == s;
    assert TrimLeftBy("/" + s, x => x == '/') == TrimLeftBy(s, x => x == '/');
  }

  /** Route "/" attaches to the root; "" and "/" after the prefix then find the handler. */
  lemma RootRoundTrip<H>(root: Node<H>, cache: Cache, verb: string, h: H, engine: Engine, prefix: string)
    requires RouteSpec(root, cache, "/", Some(h), verb, engine).Success?
    ensures var root' := RouteSpec(root, cache, "/", Some(h), verb, engine).value.0;
      && Lookup(root', prefix, prefix, engine) == Lookup(root', prefix, prefix + "/", engine)
      && Lookup(root', prefix, prefix, engine).0 == Some(HandlerMap(root)[verb := h])
      && Lookup(root', prefix, prefix, engine).1.None?
  {
  }

  /**
   * After a successful registration of a path of literal parts, the lookup
   * of that path finds the handler under its method and captures nothing.
   */
  lemma RouteThenLookup<H>(root: Node<H>, cache: Cache, parts: seq<string>, path: string, verb: string, h: H, engine: Engine, prefix: string)
    requires |parts| >= 1
    requires forall k :: 0 <= k < |parts| ==> parts[k] != "" && '/' !in parts[k] && !HasPrefix(parts[k], ":")
    requires path == "/" + Join(parts, '/')
    requires RouteSpec(root, cache, path, Some(h), verb, engine).Success?
    ensures var root' := RouteSpec(root, cache, path, Some(h), verb, engine).value.0;
      var r := Lookup(root', prefix, prefix + path, engine);
      r.0.Some? && verb in r.0.value && r.0.value[verb] == h && r.1.None?
  {
    RouteOfJoin(root, cache, parts, verb, h, engine);
    InsertThenLookup(root, cache, parts, verb, h, engine, prefix);
    AppendAssoc(prefix, "/", Join(parts, '/'));
  }

  /** RouteThenLookup once the path is split: the lookup of the joined parts finds what Insert added. */
  lemma InsertThenLookup<H>(root: Node<H>, cache: Cache, parts: seq<string>, verb: string, h: H, engine: Engine, prefix: string)
    requires |parts| >= 1
    requires forall k :: 0 <= k < |parts| ==> parts[k] != "" && '/' !in parts[k] && !HasPrefix(parts[k], ":")
    requires Insert(root, parts, cache, verb, h, engine).Success?
    ensures var root' := Insert(root, parts, cache, verb, h, engine).value.0;
      var r := Lookup(root', prefix, prefix + "/" + Join(parts, '/'), engine);
      r.0.Some? && verb in r.0.value && r.0.value[verb] == h && r.1.None?
  {
    InsertLiteral(root, parts, cache, verb, h, engine);
    LookupLiteralJoin(Insert(root, parts, cache, verb, h, engine).value.0, parts, engine, prefix);
  }

  /** The lookup of "/" followed by a join of parts that form a literal path ends where the path does, capturing nothing. */
  lemma LookupLiteralJoin<H>(n: Node<H>, parts: seq<string>, engine: Engine, prefix: string)
    requires |parts| >= 1
    requires forall k :: 0 <= k < |parts| ==> parts[k] != "" && '/' !in parts[k]
    requires LiteralPath(n, parts)
    ensures Lookup(n, prefix, prefix + "/" + Join(parts, '/'), engine) == (Descend(n, parts).handlers, None)
  {
    var j := Join(parts, '/');
    JoinBounds(parts);
    SegmentsOfJoin(parts);
    LiteralWalk(n, parts, None, engine);
    AppendAssoc(prefix, "/", j);
    LookupAfterPrefix(n, prefix, "/" + j, engine);
    ResolveDropsOneSlash(n, j, engine);
  }

  /** Registering "/" followed by a join of non-empty separator-free parts inserts exactly those parts. */
  lemma RouteOfJoin<H>(root: Node<H>, cache: Cache, parts: seq<string>, verb: string, h: H, engine: Engine)
    requires |parts| >= 1
    requires forall k :: 0 <= k < |parts| ==> parts[k] != "" && '/' !in parts[k]
    ensures RouteSpec(root, cache, "/" + Join(parts, '/'), Some(h), verb, engine) == Insert(root, parts, cache, verb, h, engine)
  {
    var path := "/" + Join(parts, '/');
    JoinBounds(parts);
    SplitOfJoin(parts);
    assert path != "" && path != "/";
  }

  /** Lookup splits a join of non-empty separator-free parts back into the parts. */
  lemma SegmentsOfJoin(parts: seq<string>)
    requires |parts| >= 1
    requires forall k :: 0 <= k < |parts| ==> parts[k] != "" && '/' !in parts[k]
    ensures Segments(Join(parts, '/')) == parts
  {
    JoinBounds(parts);
    SplitOnJoin(parts, '/');
  }

  /** What ServeHTTP does with the result of get. */
  datatype Decision<H> = NotFound | MethodNotAllowed | Invoke(handler: H, vars: Option<map<string, string>>)

  /**
   * The dispatch choice of ServeHTTP: a nil handler map is Not Found; then
   * the handler of the exact method, else the any-method handler, else
   * Method Not Allowed. The captured variables go to the handler.
   */
  function Dispatch<H>(handlers: Option<map<string, H>>, vars: Option<map<string, string>>, verb: string): (d: Decision<H>)
    ensures d.NotFound? <==> handlers.None?
    ensures d.MethodNotAllowed? <==> handlers.Some? && verb !in handlers.value && Any !in handlers.value
    ensures d.Invoke? ==> d.vars == vars
    ensures handlers.Some? && verb in handlers.value ==> d == Invoke(handlers.value[verb], vars)
    ensures handlers.Some? && verb !in handlers.value && Any in handlers.value ==> d == Invoke(handlers.value[Any], vars)
  {
    if handlers.None? then NotFound
    else if verb in handlers.value then Invoke(handlers.value[verb], vars)
    else if Any in handlers.value then Invoke(handlers.value[Any], vars)
    else MethodNotAllowed
  }

  /** A node registered only for the any method answers every method with that handler. */
  lemma AnyMethodAnswersAll<H>(h: H, vars: Option<map<string, string>>, verb: string)
    ensures Dispatch(Some(map[Any := h]), vars, verb) == Invoke(h, vars)
  {
  }

  /** Path.Get: the captured value, or "" for a nil map or a missing name. */
  function PathGet(p: Option<map<string, string>>, name: string): (v: string)
    ensures p.Some? && name in p.value ==> v == p.value[name]
    ensures p.None? || name !in p.value ==> v == ""
  {
    if p.None? then "" else if name in p.value then p.value[name] else ""
  }
}
