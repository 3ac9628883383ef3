/**
 * Route registration (router.go `route`, `split`, `separate`,
 * `failIfEmpty`) as pure functions over the trie and the regex cache.
 * The class R2.Router runs the same steps in place and is proved
 * equal to RouteSpec.
 */
module Registrar {
  import opened Wrappers
  import opened Strings
  import opened Errors
  import opened Patterns
  import opened Trie

  /** Router.regexes: compiled constraints keyed by the raw text after `!`. */
  type Cache = map<string, Pat>

  /** Every cached entry is what compiling its raw pattern gives. */
  ghost predicate CacheValid(cache: Cache, engine: Engine)
  {
    forall p :: p in cache ==> Compile(p, engine) == Success(cache[p])
  }

  /** `b` keeps every entry of `a`. */
  ghost predicate CacheExtends(a: Cache, b: Cache)
  {
    forall p :: p in a ==> p in b && b[p] == a[p]
  }

  /** split: the parts between slashes once every leading and trailing slash is trimmed. */
  function Split(path: string): (parts: seq<string>)
    ensures |parts| >= 1
    ensures forall k :: 0 <= k < |parts| ==> '/' !in parts[k]
    ensures Join(parts, '/') == Trim(path, '/')
  {
    JoinSplitOn(Trim(path, '/'), '/');
    SplitOn(Trim(path, '/'), '/')
  }

  /** A path written as a slash, then separator-free non-empty parts joined by slashes, splits into those parts. */
  lemma SplitOfJoin(parts: seq<string>)
    requires |parts| >= 1
    requires forall k :: 0 <= k < |parts| ==> parts[k] != "" && '/' !in parts[k]
    ensures Split("/" + Join(parts, '/')) == parts
  {
    var j := Join(parts, '/');
    JoinBounds(parts);
    var t := TrimLeftBy("/" + j, x => x == '/');
    assert ("/" + j)[1..] == j;
    assert t == TrimLeftBy(j, x => x == '/');
    assert Trim("/" + j, '/') == Trim(j, '/');
    SplitOnJoin(parts, '/');
  }

  /** A join of non-empty separator-free parts neither starts nor ends with a slash. */
  lemma {:induction false} JoinBounds(parts: seq<string>)
    requires |parts| >= 1
    requires forall k :: 0 <= k < |parts| ==> parts[k] != "" && '/' !in parts[k]
    ensures var j := Join(parts, '/'); j != "" && j[0] != '/' && j[|j| - 1] != '/'
  {
    if |parts| > 1 {
      JoinBounds(parts[1..]);
      assert parts[0][0] != '/' by { assert parts[0][0] in parts[0]; }
    } else {
      assert parts[0][|parts[0]| - 1] in parts[0];
    }
  }

  /** The raw constraint text of a parameter segment `:name!pattern`, if it has one. */
  function PatternOf(s: string): (r: Option<string>)
    ensures r.Some? <==> HasPrefix(s, ":") && '!' in s
    ensures r.Some? ==>
      var i := |s| - |r.value| - 1;
      && 1 <= i && s[i] == '!' && '!' !in s[..i] && s[i + 1..] == r.value
  {
    if HasPrefix(s, ":") && '!' in s then Some(s[FirstIndex(s, '!') + 1..]) else None
  }

  /** What separate returns: the name (or literal text) and the compiled constraint, if any. */
  datatype Parsed = Parsed(name: string, re: Option<Pat>)

  /** The raw text of a parameter's name: everything between the `:` and the first `!` (or the end). */
  function NameText(s: string): (t: string)
    requires HasPrefix(s, ":")
    ensures '!' !in t
  {
    var i := if '!' in s then FirstIndex(s, '!') else |s|;
    assert i >= 1 by { assert s[0] == ':'; }
    NoBangInName(s, i);
    s[1..i]
  }

  /** The name of a parameter segment: the text between `:` and the first `!`, trimmed of white space. */
  function ParamName(s: string): (name: string)
    requires HasPrefix(s, ":")
    ensures exists j :: Around(NameText(s), name, j, IsSpace)
    ensures name != "" ==> !IsSpace(name[0]) && !IsSpace(name[|name| - 1])
    ensures '!' !in name
  {
    TrimSpace(NameText(s))
  }

  /** Nothing before the first `!` is a `!`. */
  lemma NoBangInName(s: string, i: nat)
    requires 1 <= i <= |s|
    requires i == |s| ==> '!' !in s
    requires i < |s| ==> '!' !in s[..i]
    ensures '!' !in s[1..i]
  {
    assert s[1..i] == s[..i][1..];
  }

  /**
   * The cache step of separate: a raw pattern already cached is returned
   * as it is and the cache is unchanged; otherwise it is compiled and, if
   * that succeeds, cached under the raw text.
   */
  function Cached(pattern: string, cache: Cache, engine: Engine): (r: Result<(Pat, Cache), RouteError>)
    ensures pattern in cache ==> r == Success((cache[pattern], cache))
    ensures pattern !in cache ==>
      r.Success? == Compile(pattern, engine).Success? &&
      (r.Success? ==> r.value.0 == Compile(pattern, engine).value && r.value.1 == cache[pattern := r.value.0]) &&
      (r.Failure? ==> r.error == Compile(pattern, engine).error)
  {
    if pattern in cache then Success((cache[pattern], cache))
    else
      match Compile(pattern, engine)
      case Failure(e) => Failure(e)
      case Success(re) => Success((re, cache[pattern := re]))
  }

  /**
   * separate: a segment without `:` is returned as it is; otherwise the
   * name must not be empty, and a constraint after `!` goes through the
   * cache.
   */
  function Separate(s: string, cache: Cache, engine: Engine): (r: Result<(Parsed, Cache), RouteError>)
    ensures !HasPrefix(s, ":") ==> r == Success((Parsed(s, None), cache))
    ensures HasPrefix(s, ":") && ParamName(s) == "" ==> r == Failure(EmptyParamName(s))
    ensures HasPrefix(s, ":") && ParamName(s) != "" && PatternOf(s).None? ==> r == Success((Parsed(ParamName(s), None), cache))
    ensures HasPrefix(s, ":") && ParamName(s) != "" && PatternOf(s).Some? ==>
      match Cached(PatternOf(s).value, cache, engine)
      case Failure(e) => r == Failure(e)
      case Success((re, cache')) => r == Success((Parsed(ParamName(s), Some(re)), cache'))
  {
    if !HasPrefix(s, ":") then Success((Parsed(s, None), cache))
    else
      var name := ParamName(s);
      if |name| == 0 then Failure(EmptyParamName(s))
      else
        match PatternOf(s)
        case None => Success((Parsed(name, None), cache))
        case Some(pattern) =>
          match Cached(pattern, cache, engine)
          case Failure(e) => Failure(e)
          case Success((re, cache')) => Success((Parsed(name, Some(re)), cache'))
  }

  /** separate never loses a cache entry, and adds at most the segment's own raw pattern. */
  lemma SeparateGrowsCache(s: string, cache: Cache, engine: Engine)
    requires Separate(s, cache, engine).Success?
    ensures CacheExtends(cache, Separate(s, cache, engine).value.1)
    ensures Separate(s, cache, engine).value.1.Keys <= cache.Keys + (if PatternOf(s).Some? then {PatternOf(s).value} else {})
    ensures Separate(s, cache, engine).value.0.re.Some? <==> PatternOf(s).Some?
  {
    if HasPrefix(s, ":") && PatternOf(s).Some? {
      var p := PatternOf(s).value;
      if p !in cache {
        assert Separate(s, cache, engine).value.1 == cache[p := Compile(p, engine).value];
      }
    }
  }

  /**
   * The cache is invisible: with any valid cache, separate gives the same
   * outcome as with an empty one, and leaves a valid cache behind.
   */
  lemma SeparateMemoised(s: string, cache: Cache, engine: Engine)
    requires CacheValid(cache, engine)
    ensures Separate(s, cache, engine).Success? <==> Separate(s, map[], engine).Success?
    ensures Separate(s, cache, engine).Failure? ==> Separate(s, cache, engine) == Separate(s, map[], engine)
    ensures Separate(s, cache, engine).Success? ==>
      && Separate(s, cache, engine).value.0 == Separate(s, map[], engine).value.0
      && CacheValid(Separate(s, cache, engine).value.1, engine)
  {
    if HasPrefix(s, ":") && ParamName(s) != "" && PatternOf(s).Some? {
      var p := PatternOf(s).value;
      CachedMemoised(p, cache, engine);
      CachedMemoised(p, map[], engine);
    }
  }

  /** With a valid cache, the cache step gives what compiling gives, and leaves a valid cache. */
  lemma CachedMemoised(p: string, cache: Cache, engine: Engine)
    requires CacheValid(cache, engine)
    ensures Cached(p, cache, engine).Success? <==> Compile(p, engine).Success?
    ensures Cached(p, cache, engine).Failure? ==> Cached(p, cache, engine).error == Compile(p, engine).error
    ensures Cached(p, cache, engine).Success? ==>
      && Cached(p, cache, engine).value.0 == Compile(p, engine).value
      && CacheValid(Cached(p, cache, engine).value.1, engine)
  {
    if p in cache {
      assert Compile(p, engine) == Success(cache[p]);
    }
  }

  /** The node route creates for a part it finds no child for. */
  function Fresh<H>(isParam: bool, parsed: Parsed): (c: Node<H>)
    ensures c.children == map[] && c.handlers.None?
    ensures isParam ==> c.paramName == parsed.name && c.paramRe == parsed.re
    ensures !isParam ==> c.paramName == "" && c.paramRe.None?
  {
    if isParam then NewNode().(paramName := parsed.name, paramRe := parsed.re) else NewNode()
  }

  /**
   * The loop of route over the parts and the final add: for each part,
   * separate, check validParam if it is a parameter, then reuse the child
   * under its key (the literal text, or Any) or create one. Errors come in
   * the same order as the original's fatal calls.
   */
  function Insert<H>(n: Node<H>, parts: seq<string>, cache: Cache, verb: string, h: H, engine: Engine)
    : (r: Result<(Node<H>, Cache), RouteError>)
    ensures r.Success? ==> r.value.0.paramName == n.paramName && r.value.0.paramRe == n.paramRe
    ensures parts == [] ==> (r.Failure? <==> verb in HandlerMap(n))
    ensures parts == [] && r.Failure? ==> r.error == DuplicateMethod(verb)
    decreases |parts|
  {
    if parts == [] then
      match Add(n, verb, h)
      case Failure(e) => Failure(e)
      case Success(n') => Success((n', cache))
    else
      var part := parts[0];
      var isParam := HasPrefix(part, ":");
      match Separate(part, cache, engine)
      case Failure(e) => Failure(e)
      case Success((parsed, cache')) =>
        if isParam && !ValidParam(parsed.name, n) then Failure(ParamConflict(parsed.name))
        else
          var key := if isParam then Any else parsed.name;
          var child := if key in n.children then n.children[key] else Fresh(isParam, parsed);
          match Insert(child, parts[1..], cache', verb, h, engine)
          case Failure(e) => Failure(e)
          case Success((child', cache'')) => Success((n.(children := n.children[key := child']), cache''))
  }

  /** route: failIfEmpty, then "/" goes straight to the root, anything else through split and Insert. */
  function RouteSpec<H>(root: Node<H>, cache: Cache, path: string, handler: Option<H>, verb: string, engine: Engine)
    : (r: Result<(Node<H>, Cache), RouteError>)
    ensures handler.None? ==> r == Failure(NilHandler)
    ensures handler.Some? && path == "" ==> r == Failure(EmptyPath)
    ensures handler.Some? && path == "/" ==>
      (r.Failure? <==> verb in HandlerMap(root)) &&
      (r.Success? ==> r.value.0.children == root.children && r.value.1 == cache)
    ensures r.Success? ==> Extends(root, r.value.0)
  {
    if handler.None? then Failure(NilHandler)
    else if path == "" then Failure(EmptyPath)
    else if path == "/" then
      match Add(root, verb, handler.value)
      case Failure(e) => Failure(e)
      case Success(root') => AddExtends(root, verb, handler.value); Success((root', cache))
    else
      var r := Insert(root, Split(path), cache, verb, handler.value, engine);
      if r.Success? then InsertExtends(root, Split(path), cache, verb, handler.value, engine); r else r
  }

  /** failIfEmpty: a nil handler or an empty path is refused before anything else. */
  lemma RouteRefusesEmpty<H>(root: Node<H>, cache: Cache, path: string, handler: Option<H>, verb: string, engine: Engine)
    ensures handler.None? ==> RouteSpec(root, cache, path, handler, verb, engine) == Failure(NilHandler)
    ensures handler.Some? && path == "" ==> RouteSpec(root, cache, path, handler, verb, engine) == Failure(EmptyPath)
  {
  }

  /**
   * A successful registration only extends the trie: existing children are
   * reused with their parameter name and constraint, handlers are only
   * added, and the cache only grows.
   */
  lemma {:induction false} InsertExtends<H>(n: Node<H>, parts: seq<string>, cache: Cache, verb: string, h: H, engine: Engine)
    requires Insert(n, parts, cache, verb, h, engine).Success?
    ensures Extends(n, Insert(n, parts, cache, verb, h, engine).value.0)
    ensures CacheExtends(cache, Insert(n, parts, cache, verb, h, engine).value.1)
    decreases |parts|
  {
    if parts == [] {
      AddExtends(n, verb, h);
    } else {
      var part := parts[0];
      var isParam := HasPrefix(part, ":");
      var (parsed, cache') := Separate(part, cache, engine).value;
      var key := if isParam then Any else parsed.name;
      var child := if key in n.children then n.children[key] else Fresh(isParam, parsed);
      SeparateGrowsCache(part, cache, engine);
      InsertExtends(child, parts[1..], cache', verb, h, engine);
      var (child', cache'') := Insert(child, parts[1..], cache', verb, h, engine).value;
      var n' := n.(children := n.children[key := child']);
      assert Insert(n, parts, cache, verb, h, engine) == Success((n', cache''));
      forall k | k in n.children ensures Extends(n.children[k], n'.children[k]) {
        if k != key { ExtendsReflexive(n.children[k]); }
      }
    }
  }

  /**
   * Registering literal parts leaves a literal path to a node whose
   * handler map holds the new handler under its method.
   */
  lemma {:induction false} InsertLiteral<H>(n: Node<H>, parts: seq<string>, cache: Cache, verb: string, h: H, engine: Engine)
    requires forall k :: 0 <= k < |parts| ==> !HasPrefix(parts[k], ":")
    requires Insert(n, parts, cache, verb, h, engine).Success?
    ensures var n' := Insert(n, parts, cache, verb, h, engine).value.0;
      && LiteralPath(n', parts)
      && Descend(n', parts).handlers.Some?
      && verb in Descend(n', parts).handlers.value
      && Descend(n', parts).handlers.value[verb] == h
    decreases |parts|
  {
    if parts != [] {
      var part := parts[0];
      var child := if part in n.children then n.children[part] else Fresh(false, Parsed(part, None));
      InsertLiteral(child, parts[1..], cache, verb, h, engine);
      var child' := Insert(child, parts[1..], cache, verb, h, engine).value.0;
      assert Insert(n, parts, cache, verb, h, engine).value.0 == n.(children := n.children[part := child']);
    }
  }

  /** Insert leaves a valid cache valid. */
  lemma {:induction false} InsertCacheValid<H>(n: Node<H>, parts: seq<string>, cache: Cache, verb: string, h: H, engine: Engine)
    requires CacheValid(cache, engine)
    requires Insert(n, parts, cache, verb, h, engine).Success?
    ensures CacheValid(Insert(n, parts, cache, verb, h, engine).value.1, engine)
    decreases |parts|
  {
    if parts != [] {
      var part := parts[0];
      var isParam := HasPrefix(part, ":");
      SeparateMemoised(part, cache, engine);
      var (parsed, cache') := Separate(part, cache, engine).value;
      var key := if isParam then Any else parsed.name;
      var child := if key in n.children then n.children[key] else Fresh(isParam, parsed);
      InsertCacheValid(child, parts[1..], cache', verb, h, engine);
    }
  }

  /** A parameter compiled through a valid cache has an anchored constraint. */
  lemma SeparateAnchored(s: string, cache: Cache, engine: Engine)
    requires CacheValid(cache, engine)
    requires Separate(s, cache, engine).Success? && Separate(s, cache, engine).value.0.re.Some?
    ensures Anchored(Separate(s, cache, engine).value.0.re.value.source)
  {
    var p := PatternOf(s).value;
    if p in cache {
      assert Compile(p, engine) == Success(cache[p]);
    }
  }

  /** Replacing one child by a well-formed child that fits its key keeps a node well formed. */
  lemma ReplaceChildWellFormed<H>(n: Node<H>, key: string, c: Node<H>)
    requires WellFormed(n) && WellFormed(c) && ChildFits(key, c)
    ensures WellFormed(n.(children := n.children[key := c]))
  {
  }

  /** The child route descends into fits its key: a reused child because the trie is well formed, a new one by construction. */
  lemma StepChildFits<H>(n: Node<H>, part: string, cache: Cache, engine: Engine)
    requires WellFormed(n) && CacheValid(cache, engine) && part != Any
    requires Separate(part, cache, engine).Success?
    ensures var parsed := Separate(part, cache, engine).value.0;
      var isParam := HasPrefix(part, ":");
      var key := if isParam then Any else parsed.name;
      var child := if key in n.children then n.children[key] else Fresh(isParam, parsed);
      ChildFits(key, child) && WellFormed(child)
  {
    var parsed := Separate(part, cache, engine).value.0;
    var isParam := HasPrefix(part, ":");
    var key := if isParam then Any else parsed.name;
    if key !in n.children {
      if isParam {
        assert parsed.name == ParamName(part) != "";
        if parsed.re.Some? { SeparateAnchored(part, cache, engine); }
      } else {
        assert parsed == Parsed(part, None);
      }
      FreshFits<H>(isParam, parsed, key);
    }
  }

  /** A node created for a part fits the key it is stored under. */
  lemma FreshFits<H>(isParam: bool, parsed: Parsed, key: string)
    requires key == Any <==> isParam
    requires isParam ==> parsed.name != "" && (parsed.re.Some? ==> Anchored(parsed.re.value.source))
    requires !isParam ==> parsed.re.None?
    ensures ChildFits(key, Fresh<H>(isParam, parsed)) && WellFormed(Fresh<H>(isParam, parsed))
  {
  }

  /**
   * Registration keeps the trie well formed, provided no literal part is
   * the sentinel "?" (a literal "?" lands under the parameter key with an
   * empty parameter name; see SentinelCollision).
   */
  lemma {:induction false} InsertWellFormed<H>(n: Node<H>, parts: seq<string>, cache: Cache, verb: string, h: H, engine: Engine)
    requires WellFormed(n) && CacheValid(cache, engine)
    requires forall k :: 0 <= k < |parts| ==> parts[k] != Any
    requires Insert(n, parts, cache, verb, h, engine).Success?
    ensures WellFormed(Insert(n, parts, cache, verb, h, engine).value.0)
    decreases |parts|
  {
    if parts == [] {
      assert Insert(n, parts, cache, verb, h, engine).value.0 == Add(n, verb, h).value;
    } else {
      var part := parts[0];
      var isParam := HasPrefix(part, ":");
      SeparateMemoised(part, cache, engine);
      var (parsed, cache') := Separate(part, cache, engine).value;
      var key := if isParam then Any else parsed.name;
      var child := if key in n.children then n.children[key] else Fresh(isParam, parsed);
      StepChildFits(n, part, cache, engine);
      InsertWellFormed(child, parts[1..], cache', verb, h, engine);
      var (child', cache'') := Insert(child, parts[1..], cache', verb, h, engine).value;
      InsertExtends(child, parts[1..], cache', verb, h, engine);
      ReplaceChildWellFormed(n, key, child');
      assert Insert(n, parts, cache, verb, h, engine) == Success((n.(children := n.children[key := child']), cache''));
    }
  }

  /**
   * A parameter segment under a node whose parameter child has another
   * name is a conflict, whatever comes after it.
   */
  lemma ParamConflictFails<H>(n: Node<H>, parts: seq<string>, cache: Cache, verb: string, h: H, engine: Engine)
    requires parts != [] && HasPrefix(parts[0], ":")
    requires Separate(parts[0], cache, engine).Success?
    requires Any in n.children && n.children[Any].paramName != Separate(parts[0], cache, engine).value.0.name
    ensures Insert(n, parts, cache, verb, h, engine) == Failure(ParamConflict(Separate(parts[0], cache, engine).value.0.name))
  {
  }

  /**
   * route keeps the trie well formed and the cache valid, for paths
   * without a literal "?" part.
   */
  lemma RouteWellFormed<H>(root: Node<H>, cache: Cache, path: string, handler: Option<H>, verb: string, engine: Engine)
    requires WellFormed(root) && CacheValid(cache, engine)
    requires forall k :: 0 <= k < |Split(path)| ==> Split(path)[k] != Any
    requires RouteSpec(root, cache, path, handler, verb, engine).Success?
    ensures WellFormed(RouteSpec(root, cache, path, handler, verb, engine).value.0)
    ensures CacheValid(RouteSpec(root, cache, path, handler, verb, engine).value.1, engine)
  {
    if path == "/" {
      var r := Add(root, verb, handler.value).value;
      assert verb in r.handlers.value;
      assert RouteSpec(root, cache, path, handler, verb, engine).value.0 == r;
    } else {
      InsertWellFormed(root, Split(path), cache, verb, handler.value, engine);
      InsertCacheValid(root, Split(path), cache, verb, handler.value, engine);
    }
  }

  /**
   * Registering a path a second time: with the same method it is fatal;
   * with another method it succeeds exactly when it would have succeeded
   * before the first registration. So GET and POST on one path coexist.
   */
  lemma {:induction false} SecondRegistration<H>(n: Node<H>, parts: seq<string>, c: Cache, v1: string, h1: H,
                                                 d: Cache, v2: string, h2: H, engine: Engine)
    requires CacheValid(c, engine) && CacheValid(d, engine)
    requires Insert(n, parts, c, v1, h1, engine).Success?
    ensures var n1 := Insert(n, parts, c, v1, h1, engine).value.0;
      && (v2 == v1 ==> Insert(n1, parts, d, v2, h2, engine) == Failure(DuplicateMethod(v1)))
      && (v2 != v1 ==> Insert(n1, parts, d, v2, h2, engine).Success? == Insert(n, parts, d, v2, h2, engine).Success?)
    decreases |parts|
  {
    if parts != [] {
      var part := parts[0];
      var isParam := HasPrefix(part, ":");
      SeparateMemoised(part, c, engine);
      SeparateMemoised(part, d, engine);
      var (parsed, c') := Separate(part, c, engine).value;
      var (_, d') := Separate(part, d, engine).value;
      assert Separate(part, d, engine).value.0 == parsed;
      var key := if isParam then Any else parsed.name;
      var child := if key in n.children then n.children[key] else Fresh(isParam, parsed);
      InsertExtends(child, parts[1..], c', v1, h1, engine);
      var child1 := Insert(child, parts[1..], c', v1, h1, engine).value.0;
      var n1 := n.(children := n.children[key := child1]);
      assert isParam ==> ValidParam(parsed.name, n1);
      SecondRegistration(child, parts[1..], c', v1, h1, d', v2, h2, engine);
    }
  }
}
