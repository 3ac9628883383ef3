/**
 * The Router of router.go: a root trie node, a path prefix and a cache of
 * compiled constraints, with route (registration), separate (segment
 * parsing through the cache), get (lookup) and the dispatch of ServeHTTP
 * as methods that run the original's loops. Each is proved equal to the
 * pure definition in Registrar or Matcher, whose properties are proved
 * there.
 */
module R2 {
  import opened Wrappers
  import opened Strings
  import opened Errors
  import opened Patterns
  import opened Trie
  import opened Registrar
  import opened Matcher

  /** One step of route's descent: the node it stood on and the key of the child it went to. */
  datatype Frame<H> = Frame(parent: Node<H>, key: string)

  /** Put `n` back as the child of the last frame, that node back into the frame before, and so on up to the root. */
  function Plug<H>(frames: seq<Frame<H>>, n: Node<H>): Node<H>
    decreases |frames|
  {
    if frames == [] then n
    else
      var f := frames[|frames| - 1];
      Plug(frames[..|frames| - 1], f.parent.(children := f.parent.children[f.key := n]))
  }

  /** A registration result for the node under the frames, seen from the root. */
  function Lift<H>(frames: seq<Frame<H>>, r: Result<(Node<H>, Cache), RouteError>): Result<(Node<H>, Cache), RouteError>
  {
    match r
    case Failure(e) => Failure(e)
    case Success((n, c)) => Success((Plug(frames, n), c))
  }

  /** Lifting through one more frame is first lifting through that frame. */
  lemma LiftSnoc<H>(frames: seq<Frame<H>>, f: Frame<H>, r: Result<(Node<H>, Cache), RouteError>)
    ensures Lift(frames + [f], r) == Lift(frames, Lift([f], r))
  {
    assert (frames + [f])[..|frames|] == frames;
    if r.Success? {
      assert Plug([f], r.value.0) == Plug([], f.parent.(children := f.parent.children[f.key := r.value.0]));
    }
  }

  /**
   * Where get's scan starts: past the prefix, the root cases aside and one
   * leading slash dropped, the lookup is the walk over the scanned segments.
   */
  lemma GetStart<H>(root: Node<H>, prefix: string, path: string, engine: Engine)
    requires HasPrefix(path, prefix)
    requires var p := path[|prefix|..]; !(|p| == 0 || (|p| == 1 && p[0] == '/'))
    ensures var p := path[|prefix|..];
      var q := if p[0] == '/' then p[1..] else p;
      q != "" && Lookup(root, prefix, path, engine) == Answer(Walk(root, ScanSegments(q, 0, 0), None, engine))
  {
    var p := path[|prefix|..];
    var q := if p[0] == '/' then p[1..] else p;
    ScanIsSplit(q, 0, 0);
  }

  /** route of a path other than "" and "/" is Insert over its split parts. */
  lemma RouteIsInsert<H>(root: Node<H>, cache: Cache, path: string, h: H, verb: string, engine: Engine)
    requires path != "" && path != "/"
    ensures RouteSpec(root, cache, path, Some(h), verb, engine) == Insert(root, Split(path), cache, verb, h, engine)
  {
  }

  /**
   * One step of Insert: the error of separate, the parameter conflict, or
   * the rest of the parts inserted into the child, lifted through one frame.
   */
  lemma InsertFirst<H>(n: Node<H>, ps: seq<string>, cache: Cache, verb: string, h: H, engine: Engine)
    requires ps != []
    ensures Separate(ps[0], cache, engine).Failure? ==>
      Insert(n, ps, cache, verb, h, engine) == Failure(Separate(ps[0], cache, engine).error)
    ensures Separate(ps[0], cache, engine).Success? ==>
      var (parsed, cache') := Separate(ps[0], cache, engine).value;
      var isParam := HasPrefix(ps[0], ":");
      if isParam && !ValidParam(parsed.name, n) then
        Insert(n, ps, cache, verb, h, engine) == Failure(ParamConflict(parsed.name))
      else
        var key := if isParam then Any else parsed.name;
        var child := if key in n.children then n.children[key] else Fresh(isParam, parsed);
        Insert(n, ps, cache, verb, h, engine) == Lift([Frame(n, key)], Insert(child, ps[1..], cache', verb, h, engine))
  {
    if Separate(ps[0], cache, engine).Success? {
      var (parsed, cache') := Separate(ps[0], cache, engine).value;
      var isParam := HasPrefix(ps[0], ":");
      var key := if isParam then Any else parsed.name;
      var child := if key in n.children then n.children[key] else Fresh(isParam, parsed);
      var r := Insert(child, ps[1..], cache', verb, h, engine);
      if r.Success? {
        assert Plug([Frame(n, key)], r.value.0) == Plug([], n.(children := n.children[key := r.value.0]));
      }
    }
  }

  /** The walk over one more segment: the literal child, else the parameter child. */
  lemma WalkFirst<H>(n: Node<H>, key: string, rest: seq<string>, vars: Option<map<string, string>>, engine: Engine)
    ensures key in n.children ==> Walk(n, [key] + rest, vars, engine) == Walk(n.children[key], rest, vars, engine)
    ensures key !in n.children && Any !in n.children ==> Walk(n, [key] + rest, vars, engine) == NoRoute
    ensures key !in n.children && Any in n.children ==>
      var next := n.children[Any];
      Walk(n, [key] + rest, vars, engine)
      == if next.paramRe.Some? && !engine.matches(next.paramRe.value, key) then NoRoute
         else Walk(next, rest, Some(Bind(vars, next.paramName, key)), engine)
  {
    assert ([key] + rest)[0] == key && ([key] + rest)[1..] == rest;
  }

  class Router<H> {
    /** The trie; the original keeps it behind a pointer and changes it in place. */
    var root: Node<H>
    /** A request path must start with it, and it is stripped before matching; registration never reads it. */
    const prefix: string
    /** Compiled constraints keyed by the raw text after `!`. */
    var regexes: Cache
    /** The regular-expression library. */
    const engine: Engine

    /** Every cached constraint is what compiling its raw text gives. */
    ghost predicate Valid()
      reads this
    {
      CacheValid(regexes, engine)
    }

    /** NewRouter: an empty root and an empty cache. */
    constructor(prefix: string, engine: Engine)
      ensures Valid()
      ensures this.prefix == prefix && this.engine == engine
      ensures root == NewNode() && regexes == map[]
    {
      this.root := NewNode();
      this.prefix := prefix;
      this.regexes := map[];
      this.engine := engine;
    }

    /**
     * separate: the name of a segment and its compiled constraint, if any,
     * compiling a raw constraint only when it is not cached yet.
     */
    method Separate(s: string) returns (r: Result<Parsed, RouteError>)
      requires Valid()
      modifies this`regexes
      ensures Valid()
      ensures var spec := Registrar.Separate(s, old(regexes), engine);
        && (r.Failure? <==> spec.Failure?)
        && (r.Failure? ==> r.error == spec.error)
        && (r.Success? ==> r.value == spec.value.0 && regexes == spec.value.1)
    {
      if !HasPrefix(s, ":") {
        return Success(Parsed(s, None));
      }
      var useRegex := '!' in s;
      var i := if useRegex then FirstIndex(s, '!') else |s|;
      assert s[1..i] == NameText(s);
      var name := TrimSpace(s[1..i]);
      if |name| == 0 {
        return Failure(EmptyParamName(s));
      }
      if !useRegex {
        return Success(Parsed(name, None));
      }
      var pattern := s[i + 1..];
      assert PatternOf(s) == Some(pattern);
      ghost var spec := Registrar.Separate(s, regexes, engine);
      assert spec == match Cached(pattern, regexes, engine)
        case Failure(e) => Failure(e)
        case Success((re, cache')) => Success((Parsed(name, Some(re)), cache'));
      if pattern in regexes {
        return Success(Parsed(name, Some(regexes[pattern])));
      }
      var compiled := Compile(pattern, engine);
      if compiled.Failure? {
        return Failure(compiled.error);
      }
      regexes := regexes[pattern := compiled.value];
      return Success(Parsed(name, Some(compiled.value)));
    }

    /**
     * route: refuse a nil handler or an empty path; attach "/" to the root;
     * otherwise walk the split parts, reusing or creating one child per
     * part, and add the handler at the node reached. An error stands for
     * the original's fatal exit, so nothing is promised about the trie then.
     */
    method Route(path: string, handler: Option<H>, verb: string) returns (err: Option<RouteError>)
      requires Valid()
      modifies this
      ensures Valid()
      ensures var spec := RouteSpec(old(root), old(regexes), path, handler, verb, engine);
        && (err.None? <==> spec.Success?)
        && (err.Some? ==> err.value == spec.error)
        && (spec.Success? ==> root == spec.value.0 && regexes == spec.value.1)
    {
      if handler.None? {
        return Some(NilHandler);
      }
      if path == "" {
        return Some(EmptyPath);
      }
      var h := handler.value;
      if path == "/" {
        var added := Add(root, verb, h);
        if added.Failure? {
          return Some(added.error);
        }
        root := added.value;
        return None;
      }
      RouteIsInsert(root, regexes, path, h, verb, engine);
      err := InsertParts(Split(path), h, verb);
    }

    /**
     * The loop of route: for each part, separate it, check validParam for a
     * parameter, reuse or create the child under its key and descend; then
     * add the handler at the node reached.
     */
    method InsertParts(parts: seq<string>, h: H, verb: string) returns (err: Option<RouteError>)
      requires Valid()
      modifies this
      ensures Valid()
      ensures var spec := Registrar.Insert(old(root), parts, old(regexes), verb, h, engine);
        && (err.None? <==> spec.Success?)
        && (err.Some? ==> err.value == spec.error)
        && (spec.Success? ==> root == spec.value.0 && regexes == spec.value.1)
    {
      var node := root;
      var frames: seq<Frame<H>> := [];
      var i := 0;
      while i < |parts|
        invariant 0 <= i <= |parts|
        invariant Valid() && root == old(root)
        invariant Registrar.Insert(old(root), parts, old(regexes), verb, h, engine)
               == Lift(frames, Registrar.Insert(node, parts[i..], regexes, verb, h, engine))
      {
        var part := parts[i];
        var isParam := HasPrefix(part, ":");
        InsertFirst(node, parts[i..], regexes, verb, h, engine);
        assert parts[i..][0] == part && parts[i..][1..] == parts[i + 1..];
        var sep := Separate(part);
        if sep.Failure? {
          return Some(sep.error);
        }
        var parsed := sep.value;
        if isParam && !ValidParam(parsed.name, node) {
          return Some(ParamConflict(parsed.name));
        }
        var key := if isParam then Any else parsed.name;
        var child := if key in node.children then node.children[key] else Fresh(isParam, parsed);
        LiftSnoc(frames, Frame(node, key), Registrar.Insert(child, parts[i + 1..], regexes, verb, h, engine));
        frames := frames + [Frame(node, key)];
        node := child;
        i := i + 1;
      }
      assert parts[i..] == [];
      var added := Add(node, verb, h);
      if added.Failure? {
        return Some(added.error);
      }
      root := Plug(frames, added.value);
      return None;
    }

    /**
     * get: strip the prefix, answer "" and "/" with the root's handlers,
     * drop one leading slash, then scan the path position by position,
     * closing a segment at each slash and at the last position, and
     * descend literal child first, else parameter child.
     */
    method Get(path: string) returns (handlers: Option<map<string, H>>, vars: Option<map<string, string>>)
      ensures (handlers, vars) == Lookup(root, prefix, path, engine)
    {
      if !HasPrefix(path, prefix) {
        return None, None;
      }
      var p := path[|prefix|..];
      var l := |p|;
      if l == 0 || (l == 1 && p[0] == '/') {
        return root.handlers, None;
      }
      GetStart(root, prefix, path, engine);
      ghost var q := if p[0] == '/' then p[1..] else p;
      if p[0] == '/' {
        p := p[1..];
        l := l - 1;
      }
      if p[l - 1] == '/' {
        // The original slices to the full length here, which keeps the slash.
        p := p[..l];
      }
      assert p == q;
      handlers, vars := Scan(p);
    }

    /**
     * The position loop of get over the path left after the prefix and the
     * leading slash: a slash or the last position closes a segment, which
     * goes to the literal child if there is one, else to the parameter
     * child if its constraint accepts it, capturing the segment.
     */
    method Scan(p: string) returns (handlers: Option<map<string, H>>, vars: Option<map<string, string>>)
      requires p != ""
      ensures (handlers, vars) == Answer(Walk(root, ScanSegments(p, 0, 0), None, engine))
    {
      ghost var goal := Walk(root, ScanSegments(p, 0, 0), None, engine);
      var l := |p|;
      var node := root;
      vars := None;
      var start, pos := 0, 0;
      while pos < l
        invariant 0 <= start <= pos <= l
        invariant goal == Walk(node, ScanSegments(p, start, pos), vars, engine)
      {
        var c := p[pos];
        if c == '/' || pos == l - 1 {
          var end := pos;
          if c != '/' {
            end := end + 1;
          }
          var key := p[start..end];
          ScanStep(p, start, pos);
          WalkFirst(node, key, ScanSegments(p, pos + 1, pos + 1), vars, engine);
          var next;
          if key in node.children {
            next := node.children[key];
          } else {
            if Any !in node.children {
              return None, None;
            }
            next := node.children[Any];
            if next.paramRe.Some? && !engine.matches(next.paramRe.value, key) {
              return None, None;
            }
            vars := Some(Bind(vars, next.paramName, key));
          }
          start := pos + 1;
          node := next;
        } else {
          ScanStep(p, start, pos);
        }
        pos := pos + 1;
      }
      return node.handlers, vars;
    }

    /** ServeHTTP: look the path up and decide between Not Found, Method Not Allowed and a handler. */
    method Serve(verb: string, path: string) returns (d: Decision<H>)
      ensures var r := Lookup(root, prefix, path, engine);
        d == Dispatch(r.0, r.1, verb)
    {
      var handlers, vars := Get(path);
      d := Dispatch(handlers, vars, verb);
    }
  }
}
